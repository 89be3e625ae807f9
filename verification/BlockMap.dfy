/**
 Logical to physical block mapping for inodes in the indirect format (source/bmap.c) and the
 i_blocks accounting that goes with it (source/i_block.c).
 */
module BlockMap {
  import opened Bytes
  import opened BlockTree
  import opened BlockAlloc
  import Groups

  // ---------- Logical blocks ----------

  function Square(n: nat): nat { n * n }

  /** The place of a logical block. */
  function SpotOf(n: nat, l: nat): Spot {
    if l < NDIR then Spot(l, 0, 0)
    else if l - NDIR < n then Spot(12, 1, l - NDIR)
    else if l - NDIR - n < Square(n) then Spot(13, 2, l - NDIR - n)
    else Spot(14, 3, l - NDIR - n - Square(n))
  }

  /** The place that the code uses: the number below the triple indirect root is cut to 32 bits. */
  function SpotUsed(n: nat, l: nat): Spot {
    var p := SpotOf(n, l);
    if p.root == 14 then p.(index := p.index % U32) else p
  }

  predicate Addressable(n: nat, l: nat) {
    SpotOf(n, l).index < U32 && SpotOf(n, l).index < Pow(n, SpotOf(n, l).height)
  }

  lemma PowSmall(n: nat)
    ensures Pow(n, 0) == 1 && Pow(n, 1) == n && Pow(n, 2) == Square(n) && Pow(n, 3) == n * Square(n)
  {
    assert Pow(n, 1) == n * Pow(n, 0);
    assert Pow(n, 2) == n * Pow(n, 1);
    assert Pow(n, 3) == n * Pow(n, 2);
  }

  lemma SpotLeaf(n: nat, l: nat)
    requires n > 0 && Addressable(n, l)
    ensures Leaf(n, SpotOf(n, l)) && SpotUsed(n, l) == SpotOf(n, l)
  {
    PowSmall(n);
  }

  /** Different logical blocks have different places. */
  lemma SpotsDiffer(n: nat, l: nat, k: nat)
    ensures SpotOf(n, l) == SpotOf(n, k) <==> l == k
  {
  }

  /** Every place for data belongs to a logical block. */
  lemma SpotsCover(n: nat, p: Spot)
    requires Leaf(n, p)
    ensures exists l :: SpotOf(n, l) == p
  {
    PowSmall(n);
    hide Square;
    var l := if p.root < 12 then p.root else if p.root == 12 then 12 + p.index
      else if p.root == 13 then 12 + n + p.index else 12 + n + Square(n) + p.index;
    assert SpotOf(n, l) == p;
  }

  /** Beyond 2^32 blocks of the triple indirect tree, the code reaches another block's place. */
  lemma BeyondWraps(n: nat, l: nat)
    ensures SpotUsed(n, l) == SpotOf(n, l) <==> SpotOf(n, l).root < 14 || SpotOf(n, l).index < U32
    ensures SpotOf(n, l).root == 14 ==> SpotUsed(n, l + U32) == SpotUsed(n, l)
  {
    if SpotOf(n, l).root == 14 {
      var i := SpotOf(n, l).index;
      assert SpotOf(n, l + U32).index == i + U32;
      assert (i + U32) % U32 == i % U32;
      if i >= U32 {
        assert i % U32 < U32;
      }
    }
  }

  /** The mapping that the inode describes: a block number, or 0 for a hole. */
  function Map(s: State, l: nat): nat
    requires Shaped(s)
  {
    Node(s, SpotOf(s.apb, l))
  }

  // ---------- i_blocks ----------

  datatype Features = Features(hugeFile: bool, blocksize: nat)

  /** The count that the fields of the inode stand for. */
  function Count(f: Features, lo: nat, hi: nat): nat { lo + if f.hugeFile then hi * U32 else 0 }

  /** The amount one file-system block adds to the count. */
  function Unit(f: Features, hugeFl: bool): nat { if !f.hugeFile || !hugeFl then f.blocksize / 512 else 1 }

  datatype Fields = Fields(lo: nat, hi: nat)

  function AddBlocks(f: Features, hugeFl: bool, before: Fields, n: nat): Fields {
    var b := Count(f, before.lo, before.hi) + n * Unit(f, hugeFl);
    if f.hugeFile then Fields(b % U32, b / U32 % U16)
    else if b >= U32 then before
    else Fields(b % U32, before.hi)
  }

  /** The count is right afterwards exactly when it fits, in 48 bits or in 32. */
  lemma AddBlocksExact(f: Features, hugeFl: bool, before: Fields, n: nat)
    requires before.lo < U32 && before.hi < U16
    ensures var b, r := Count(f, before.lo, before.hi) + n * Unit(f, hugeFl), AddBlocks(f, hugeFl, before, n);
      && r.lo < U32 && r.hi < U16
      && (Count(f, r.lo, r.hi) == b <==> if f.hugeFile then b < U32 * U16 else b < U32)
  {
    hide Unit;
    var b, r := Count(f, before.lo, before.hi) + n * Unit(f, hugeFl), AddBlocks(f, hugeFl, before, n);
    if f.hugeFile {
      SplitCount(b);
    }
  }

  /** The count grows by so many blocks, in units of 512 bytes, or in blocks when the feature and the
      inode's flag are set; without the feature a count that would not fit stays. */
  lemma AddBlocksUnits(f: Features, hugeFl: bool, before: Fields, n: nat)
    requires before.lo < U32 && before.hi < U16 && f.blocksize % 512 == 0
    ensures var was, r := Count(f, before.lo, before.hi), AddBlocks(f, hugeFl, before, n);
      var now := Count(f, r.lo, r.hi);
      && (!f.hugeFile ==> was == before.lo && now == r.lo && r.hi == before.hi)
      && (f.hugeFile ==> was == before.lo + U32 * before.hi && now == r.lo + U32 * r.hi)
      && (!f.hugeFile ==> if 512 * was + n * f.blocksize < 512 * U32 then 512 * (now - was) == n * f.blocksize else now == was)
      && (f.hugeFile && !hugeFl && 512 * was + n * f.blocksize < 512 * U32 * U16 ==> 512 * (now - was) == n * f.blocksize)
      && (f.hugeFile && hugeFl && was + n < U32 * U16 ==> now - was == n)
  {
    AddBlocksExact(f, hugeFl, before, n);
    assert n * f.blocksize == 512 * (n * (f.blocksize / 512)) by {
      var k := f.blocksize / 512;
      assert f.blocksize == 512 * k;
      assert n * (512 * k) == 512 * (n * k);
    }
  }

  lemma AddNone(f: Features, hugeFl: bool, fields: Fields)
    requires fields.lo < U32 && fields.hi < U16
    ensures AddBlocks(f, hugeFl, fields, 0) == fields
  {
    if f.hugeFile {
      var b := fields.lo + fields.hi * U32;
      assert b == U32 * (b / U32) + b % U32;
    }
  }

  lemma SplitCount(b: nat)
    ensures b % U32 + b / U32 % U16 * U32 == b <==> b < U32 * U16
  {
    assert b == U32 * (b / U32) + b % U32;
    var q := b / U32;
    assert q % U16 == q <==> q < U16;
  }

  /** The block at p is the first that was free from the block in the slot before on. */
  ghost predicate Beside(sb: Groups.Super, t: State, p: Spot, b: nat)
    requires Shaped(t) && p.root < 15
  {
    b in t.used && Nearest(sb, t.used - {b}, BlockBefore(t, p), b)
  }

  // ---------- The file system and an inode in memory ----------

  class Inode {
    var iblock: seq<nat>
    var blocks: Fields
    const hugeFl: bool
    constructor (iblock: seq<nat>, blocks: Fields, hugeFl: bool)
      ensures this.iblock == iblock && this.blocks == blocks && this.hugeFl == hugeFl
    {
      this.iblock, this.blocks, this.hugeFl := iblock, blocks, hugeFl;
    }
  }

  class Volume {
    const balloc: Blocks
    const feature: Features
    const apb: nat
    var disk: seq<seq<Byte>>

    ghost predicate Valid()
      reads this, balloc
    {
      && balloc.Valid() && |disk| == balloc.sb.blocksCount <= U32
      && apb > 0 && feature.blocksize == 4 * apb <= U16
      && (forall b | 0 <= b < |disk| :: |disk[b]| == 4 * apb)
      // block 0 is the boot block or holds the superblock
      && (balloc.sb.firstDataBlock > 0 || 0 in balloc.InUse())
    }

    ghost function Used(): set<nat>
      requires balloc.Valid()
      reads this, balloc
    {
      balloc.InUse()
    }

    ghost function StateOf(iblock: seq<nat>): State
      requires balloc.Valid()
      reads this, balloc
    {
      State(apb, disk, balloc.InUse(), iblock)
    }

    ghost predicate Full()
      reads balloc
      requires balloc.Valid()
    {
      forall b | balloc.sb.firstDataBlock <= b < balloc.sb.blocksCount :: b in balloc.InUse()
    }

    constructor (balloc: Blocks, feature: Features, disk: seq<seq<Byte>>)
      requires balloc.Valid() && |disk| == balloc.sb.blocksCount <= U32
      requires 0 < feature.blocksize <= U16 && feature.blocksize % 4 == 0
      requires forall b | 0 <= b < |disk| :: |disk[b]| == feature.blocksize
      requires balloc.sb.firstDataBlock > 0 || 0 in balloc.InUse()
      ensures Valid() && this.balloc == balloc && this.feature == feature && this.disk == disk
    {
      this.balloc, this.feature, this.disk := balloc, feature, disk;
      this.apb := feature.blocksize / 4;
    }

    /** ext2fs_alloc_block */
    method AllocBlock(goal: nat, ghost roots: seq<nat>) returns (err: Errno, b: nat)
      requires Valid() && |roots| == 15
      modifies this, balloc
      ensures Valid() && (old(balloc.Balanced()) ==> balloc.Balanced())
      ensures err != Ok ==> err == NoSpace && StateOf(roots) == old(StateOf(roots)) && Full()
      ensures err == Ok ==> Nearest(balloc.sb, old(Used()), goal, b)
      ensures err == Ok ==> 0 < b < |disk| && b !in old(Used()) && StateOf(roots) == WithBlock(old(StateOf(roots)), b)
      ensures if err == Ok then balloc.FreeBlocks() + 1 == old(balloc.FreeBlocks()) else balloc.FreeBlocks() == old(balloc.FreeBlocks()) == 0
    {
      hide Blocks.Balanced, Blocks.InUse, Blocks.FreeBlocks, Blocks.Valid;
      var ok, blk := balloc.Allocate(goal);
      FirstBelow();
      if !ok {
        return NoSpace, 0;
      }
      disk := disk[blk := Zeros(4 * apb)];
      return Ok, blk;
    }

    lemma FirstBelow()
      requires balloc.Valid()
      ensures balloc.sb.firstDataBlock <= 1
    {
      balloc.InRange();
    }

    /** block_ind_bmap: slot nr of the block ind is the place p. */
    method IndBmap(put: bool, alloc: bool, ind: nat, nr: nat, value: nat, ghost p: Spot, ghost roots: seq<nat>)
        returns (err: Errno, ret: nat, n: nat)
      requires Valid() && Sound(StateOf(roots), false) && Place(apb, p) && p.height > 0
      requires ind == Node(StateOf(roots), Parent(apb, p)) && nr == p.index % apb && (alloc ==> ind != 0)
      requires put ==> p.height == Depth(p.root) && value < U32
      modifies this, balloc
      ensures Valid() && (old(balloc.Balanced()) ==> balloc.Balanced())
      ensures Outcome(old(StateOf(roots)), StateOf(roots), p, put, alloc, value, err, ret, n)
      ensures (err == NoSpace ==> Full() && balloc.FreeBlocks() == 0) && balloc.FreeBlocks() + n == old(balloc.FreeBlocks())
      ensures p.root < 15 && Shaped(old(StateOf(roots))) && Shaped(StateOf(roots))
      ensures err == Ok && alloc && !put && Node(old(StateOf(roots)), p) == 0 ==> Beside(balloc.sb, StateOf(roots), p, ret)
    {
      hide Node, Ptr, PutPtr, Pow, Blocks.Balanced, Blocks.InUse, Blocks.FreeBlocks, Blocks.Valid, Zeros, Taken, Needed, Beside, Nearest;
      ghost var s := StateOf(roots);
      SlotIsNode(s, p);
      GrownSelf(s, p);
      if ind == 0 {
        NothingTaken(s, p, put, false);
        NotNeeded(s, p, p, put);
        return if put then NoIndirect else Ok, 0, 0;
      }
      ParentInRange(s, p);
      var buf := disk[ind];
      if put {
        SetSlot(s, p, value);
        PutTaken(s, WithSlot(s, p, value), p, alloc);
        disk := disk[ind := PutPtr(buf, nr, value)];
        assert StateOf(roots) == WithSlot(s, p, value);
        return Ok, value, 0;
      }
      var b := Ptr(buf, nr);
      if b == 0 && alloc {
        var goal := if nr > 0 then Ptr(buf, nr - 1) else 0;
        var e, fresh_ := AllocBlock(goal, roots);
        if e != Ok {
          OneTaken(s, s, p);
          return e, 0, 0;
        }
        HangSlot(s, p, fresh_);
        disk := disk[ind := PutPtr(buf, nr, fresh_)];
        assert StateOf(roots) == WithSlot(WithBlock(s, fresh_), p, fresh_);
        OneTaken(s, StateOf(roots), p);
        SlotBeside(balloc.sb, s, p, fresh_);
        HungSound(s, StateOf(roots), p, fresh_, false);
        if Sound(s, true) {
          HungSound(s, StateOf(roots), p, fresh_, true);
        }
        return Ok, fresh_, 1;
      }
      NothingTaken(s, p, false, alloc);
      return Ok, b, 0;
    }

    /** block_dind_bmap */
    method DindBmap(put: bool, alloc: bool, dind: nat, nr: nat, value: nat, ghost p: Spot, ghost roots: seq<nat>)
        returns (err: Errno, ret: nat, n: nat)
      requires Valid() && Sound(StateOf(roots), false) && Place(apb, p) && p.height == 2
      requires dind == roots[p.root] && nr == p.index && (alloc ==> dind != 0)
      requires put ==> p.height == Depth(p.root) && value < U32
      modifies this, balloc
      ensures Valid() && (old(balloc.Balanced()) ==> balloc.Balanced())
      ensures Outcome(old(StateOf(roots)), StateOf(roots), p, put, alloc, value, err, ret, n)
      ensures (err == NoSpace ==> Full() && balloc.FreeBlocks() == 0) && balloc.FreeBlocks() + n == old(balloc.FreeBlocks())
      ensures p.root < 15 && Shaped(old(StateOf(roots))) && Shaped(StateOf(roots))
      ensures err == Ok && alloc && !put && Node(old(StateOf(roots)), p) == 0 ==> Beside(balloc.sb, StateOf(roots), p, ret)
    {
      hide Node, Pow, Blocks.Balanced, Blocks.InUse, Blocks.FreeBlocks, Blocks.Valid, Taken, Needed, Beside, Nearest;
      ghost var s := StateOf(roots);
      ghost var up := Parent(apb, p);
      TopSpots(s, p);
      var e, b, n1 := IndBmap(false, alloc, dind, nr / apb, 0, up, roots);
      ghost var t := StateOf(roots);
      if e != Ok {
        Failed(s, t, up, p, put, alloc, value, b, n1);
        return e, b, n1;
      }
      BelowStays(s, t, up, p);
      var e2, r2, n2 := IndBmap(put, alloc, b, nr % apb, value, p, roots);
      Deeper(s, t, StateOf(roots), up, p, put, alloc, value, b, n1, e2, r2, n2);
      return e2, r2, n1 + n2;
    }

    /** block_tind_bmap */
    method TindBmap(put: bool, alloc: bool, tind: nat, nr: nat, value: nat, ghost p: Spot, ghost roots: seq<nat>)
        returns (err: Errno, ret: nat, n: nat)
      requires Valid() && Sound(StateOf(roots), false) && Place(apb, p) && p.height == 3
      requires tind == roots[p.root] && nr == p.index && (alloc ==> tind != 0)
      requires put ==> value < U32
      modifies this, balloc
      ensures Valid() && (old(balloc.Balanced()) ==> balloc.Balanced())
      ensures Outcome(old(StateOf(roots)), StateOf(roots), p, put, alloc, value, err, ret, n)
      ensures (err == NoSpace ==> Full() && balloc.FreeBlocks() == 0) && balloc.FreeBlocks() + n == old(balloc.FreeBlocks())
      ensures p.root < 15 && Shaped(old(StateOf(roots))) && Shaped(StateOf(roots))
      ensures err == Ok && alloc && !put && Node(old(StateOf(roots)), p) == 0 ==> Beside(balloc.sb, StateOf(roots), p, ret)
    {
      hide Node, Pow, Blocks.Balanced, Blocks.InUse, Blocks.FreeBlocks, Blocks.Valid, Taken, Needed, Beside, Nearest;
      ghost var s := StateOf(roots);
      ghost var up := Parent(apb, p);
      ParentPlace(apb, p);
      var e, b, n1 := DindBmap(false, alloc, tind, nr / apb, 0, up, roots);
      ghost var t := StateOf(roots);
      if e != Ok {
        Failed(s, t, up, p, put, alloc, value, b, n1);
        return e, b, n1;
      }
      BelowStays(s, t, up, p);
      var e2, r2, n2 := IndBmap(put, alloc, b, nr % apb, value, p, roots);
      Deeper(s, t, StateOf(roots), up, p, put, alloc, value, b, n1, e2, r2, n2);
      return e2, r2, n1 + n2;
    }

    /** The part of ext2fs_bmap2 that finds or makes the top pointer block of a tree. */
    method TopBlock(inode: Inode, r: nat, alloc: bool) returns (err: Errno, b: nat, n: nat)
      requires Valid() && NDIR <= r < 15 && Sound(StateOf(inode.iblock), false)
      modifies this, balloc, inode`iblock
      ensures Valid() && (old(balloc.Balanced()) ==> balloc.Balanced()) && |inode.iblock| == 15
      ensures Outcome(old(StateOf(inode.iblock)), StateOf(inode.iblock), Spot(r, 0, 0), false, alloc, 0, err, b, n)
      ensures (err == NoSpace ==> Full() && balloc.FreeBlocks() == 0) && balloc.FreeBlocks() + n == old(balloc.FreeBlocks())
      ensures Shaped(old(StateOf(inode.iblock))) && Shaped(StateOf(inode.iblock))
      ensures err == Ok && alloc && Node(old(StateOf(inode.iblock)), Spot(r, 0, 0)) == 0 ==> Beside(balloc.sb, StateOf(inode.iblock), Spot(r, 0, 0), b)
      ensures err != NoIndirect && (err == Ok ==> b == inode.iblock[r])
    {
      hide Node, Pow, Ptr, Zeros, Blocks.Balanced, Blocks.InUse, Blocks.FreeBlocks, Blocks.Valid, Taken, Needed, Beside, Nearest;
      ghost var s := StateOf(inode.iblock);
      RootSpot(s, r);
      GrownSelf(s, Spot(r, 0, 0));
      b := inode.iblock[r];
      if b == 0 && alloc {
        var e, v := AllocBlock(inode.iblock[r - 1], inode.iblock);
        if e != Ok {
          OneTaken(s, s, Spot(r, 0, 0));
          return e, 0, 0;
        }
        HangRoot(s, r, v);
        inode.iblock := inode.iblock[r := v];
        ghost var t := StateOf(inode.iblock);
        assert t == WithBlock(s, v).(roots := s.roots[r := v]);
        OneTaken(s, t, Spot(r, 0, 0));
        RootBeside(balloc.sb, s, r, v);
        HungSound(s, t, Spot(r, 0, 0), v, false);
        if Sound(s, true) {
          HungSound(s, t, Spot(r, 0, 0), v, true);
        }
        return Ok, v, 1;
      }
      NothingTaken(s, Spot(r, 0, 0), false, alloc);
      return Ok, b, 0;
    }

    /** ext2fs_bmap2 for a logical block that the inode maps itself. */
    method DirectBmap(inode: Inode, put: bool, alloc: bool, l: nat, phys0: nat) returns (err: Errno, phys: nat, n: nat)
      requires Valid() && l < NDIR && Sound(StateOf(inode.iblock), false) && (put || phys0 == 0)
      modifies this, balloc, inode`iblock
      ensures Valid() && (old(balloc.Balanced()) ==> balloc.Balanced()) && |inode.iblock| == 15
      ensures Outcome(old(StateOf(inode.iblock)), StateOf(inode.iblock), Spot(l, 0, 0), put, alloc, phys0 % U32, err,
                      if put then phys0 % U32 else phys, n)
      ensures (err == NoSpace ==> Full() && balloc.FreeBlocks() == 0) && balloc.FreeBlocks() + n == old(balloc.FreeBlocks())
      ensures Shaped(old(StateOf(inode.iblock))) && Shaped(StateOf(inode.iblock))
      ensures err == Ok && alloc && !put && Node(old(StateOf(inode.iblock)), Spot(l, 0, 0)) == 0 ==> Beside(balloc.sb, StateOf(inode.iblock), Spot(l, 0, 0), phys)
      ensures put ==> err == Ok && phys == phys0 && n == 0
      ensures err != Ok ==> phys == 0
    {
      hide Node, Pow, Ptr, Zeros, Blocks.Balanced, Blocks.InUse, Blocks.FreeBlocks, Blocks.Valid, Taken, Needed, Beside, Nearest;
      ghost var s := StateOf(inode.iblock);
      RootSpot(s, l);
      GrownSelf(s, Spot(l, 0, 0));
      if put {
        SetRoot(s, l, phys0 % U32);
        PutTaken(s, s.(roots := s.roots[l := phys0 % U32]), Spot(l, 0, 0), alloc);
        inode.iblock := inode.iblock[l := phys0 % U32];
        assert StateOf(inode.iblock) == s.(roots := s.roots[l := phys0 % U32]);
        return Ok, phys0, 0;
      }
      phys := inode.iblock[l];
      if phys == 0 && alloc {
        var e, v := AllocBlock(if l > 0 then inode.iblock[l - 1] else 0, inode.iblock);
        if e != Ok {
          OneTaken(s, s, Spot(l, 0, 0));
          return e, 0, 0;
        }
        HangRoot(s, l, v);
        inode.iblock := inode.iblock[l := v];
        ghost var t := StateOf(inode.iblock);
        assert t == WithBlock(s, v).(roots := s.roots[l := v]);
        OneTaken(s, t, Spot(l, 0, 0));
        RootBeside(balloc.sb, s, l, v);
        HungSound(s, t, Spot(l, 0, 0), v, false);
        if Sound(s, true) {
          HungSound(s, t, Spot(l, 0, 0), v, true);
        }
        return Ok, v, 1;
      }
      NothingTaken(s, Spot(l, 0, 0), false, alloc);
      return Ok, phys, 0;
    }

    /** ext2fs_bmap2 for a logical block under the root r. */
    method TreeBmap(inode: Inode, put: bool, alloc: bool, r: nat, nr: nat, value: nat) returns (err: Errno, ret: nat, n: nat)
      requires Valid() && NDIR <= r < 15 && nr < Pow(apb, Depth(r)) && Sound(StateOf(inode.iblock), false) && value < U32
      modifies this, balloc, inode`iblock
      ensures Valid() && (old(balloc.Balanced()) ==> balloc.Balanced()) && |inode.iblock| == 15
      ensures Outcome(old(StateOf(inode.iblock)), StateOf(inode.iblock), Spot(r, Depth(r), nr), put, alloc, value, err, ret, n)
      ensures (err == NoSpace ==> Full() && balloc.FreeBlocks() == 0) && balloc.FreeBlocks() + n == old(balloc.FreeBlocks())
      ensures Shaped(old(StateOf(inode.iblock))) && Shaped(StateOf(inode.iblock))
      ensures err == Ok && alloc && !put && Node(old(StateOf(inode.iblock)), Spot(r, Depth(r), nr)) == 0 ==> Beside(balloc.sb, StateOf(inode.iblock), Spot(r, Depth(r), nr), ret)
    {
      hide Outcome, Sound, Node, Pow, Blocks.Balanced, Blocks.InUse, Blocks.FreeBlocks, Blocks.Valid, Taken, Needed, Beside, Nearest;
      ghost var s, p, top := StateOf(inode.iblock), Spot(r, Depth(r), nr), Spot(r, 0, 0);
      TopAbove(apb, p);
      var e, b, n1 := TopBlock(inode, r, alloc);
      ghost var t := StateOf(inode.iblock);
      if e != Ok {
        Failed(s, t, top, p, put, alloc, value, b, n1);
        return e, b, n1;
      }
      TopFound(s, t, top, p, put, alloc, value, b, n1);
      if b == 0 {
        return if put then NoIndirect else Ok, 0, 0;
      }
      RootSpot(t, r);
      var n2: nat;
      if r == 12 {
        SmallIndex(apb, p);
        err, ret, n2 := IndBmap(put, alloc, b, nr, value, p, inode.iblock);
      } else if r == 13 {
        err, ret, n2 := DindBmap(put, alloc, b, nr, value, p, inode.iblock);
      } else {
        err, ret, n2 := TindBmap(put, alloc, b, nr, value, p, inode.iblock);
      }
      n := n1 + n2;
      Deeper(s, t, StateOf(inode.iblock), top, p, put, alloc, value, b, n1, err, ret, n2);
    }

    /** ext2fs_bmap2 for a logical block that is not direct: which tree it belongs to. */
    method IndirectBmap(inode: Inode, put: bool, alloc: bool, l: nat, value: nat) returns (err: Errno, ret: nat, n: nat)
      requires Valid() && l >= NDIR && Addressable(apb, l) && Sound(StateOf(inode.iblock), false) && value < U32
      modifies this, balloc, inode`iblock
      ensures Valid() && (old(balloc.Balanced()) ==> balloc.Balanced()) && |inode.iblock| == 15
      ensures Outcome(old(StateOf(inode.iblock)), StateOf(inode.iblock), SpotOf(apb, l), put, alloc, value, err, ret, n)
      ensures (err == NoSpace ==> Full() && balloc.FreeBlocks() == 0) && balloc.FreeBlocks() + n == old(balloc.FreeBlocks())
      ensures SpotOf(apb, l).root < 15 && Shaped(old(StateOf(inode.iblock))) && Shaped(StateOf(inode.iblock))
      ensures err == Ok && alloc && !put && Node(old(StateOf(inode.iblock)), SpotOf(apb, l)) == 0 ==> Beside(balloc.sb, StateOf(inode.iblock), SpotOf(apb, l), ret)
    {
      hide Node, Pow, Square, Outcome, Blocks.Balanced, Blocks.InUse, Blocks.FreeBlocks, Blocks.Valid, Beside, Nearest;
      PowSmall(apb);
      var block := l - NDIR;
      if block < apb {
        err, ret, n := TreeBmap(inode, put, alloc, 12, block, value);
      } else if block - apb < Square(apb) {
        err, ret, n := TreeBmap(inode, put, alloc, 13, block - apb, value);
      } else {
        err, ret, n := TreeBmap(inode, put, alloc, 14, (block - apb - Square(apb)) % U32, value);
      }
    }

    /** ext2fs_bmap2 for an inode in the indirect format.  An allocation succeeds exactly when all the
        blocks it needs are free; with fewer it takes those there are, and does not count them. */
    method Bmap2(inode: Inode, put: bool, alloc: bool, l: nat, phys0: nat) returns (err: Errno, phys: nat, n: nat)
      requires Valid() && Addressable(apb, l) && Sound(StateOf(inode.iblock), false)
      requires inode.blocks.lo < U32 && inode.blocks.hi < U16
      modifies this, balloc, inode
      ensures Valid() && (old(balloc.Balanced()) ==> balloc.Balanced()) && |inode.iblock| == 15
      ensures Outcome(old(StateOf(inode.iblock)), StateOf(inode.iblock), SpotOf(apb, l), put, alloc, if put then phys0 % U32 else 0, err,
                      if put then phys0 % U32 else phys, n)
      ensures (err == NoSpace ==> Full() && balloc.FreeBlocks() == 0) && balloc.FreeBlocks() + n == old(balloc.FreeBlocks())
      ensures Shaped(old(StateOf(inode.iblock))) && SpotOf(apb, l).root < 15 &&
        var needed, free := Needed(old(StateOf(inode.iblock)), SpotOf(apb, l), put, alloc), old(balloc.FreeBlocks());
        && (alloc ==> err == (if needed <= free then Ok else NoSpace) && n == if needed <= free then needed else free)
        && (err != Ok && n > 0 <==> alloc && 0 < free < needed)
      ensures Shaped(StateOf(inode.iblock))
      ensures err == Ok && alloc && !put && Node(old(StateOf(inode.iblock)), SpotOf(apb, l)) == 0 ==> Beside(balloc.sb, StateOf(inode.iblock), SpotOf(apb, l), phys)
      ensures inode.blocks == if err == Ok then AddBlocks(feature, inode.hugeFl, old(inode.blocks), n) else old(inode.blocks)
      ensures inode.blocks.lo < U32 && inode.blocks.hi < U16
      ensures err == Ok && feature.blocksize % 512 == 0 ==>
        var was, now := old(Count(feature, inode.blocks.lo, inode.blocks.hi)), Count(feature, inode.blocks.lo, inode.blocks.hi);
        && (!feature.hugeFile && 512 * was + n * feature.blocksize < 512 * U32 ==> 512 * (now - was) == n * feature.blocksize)
        && (feature.hugeFile && !inode.hugeFl && 512 * was + n * feature.blocksize < 512 * U32 * U16 ==> 512 * (now - was) == n * feature.blocksize)
        && (feature.hugeFile && inode.hugeFl && was + n < U32 * U16 ==> now - was == n)
      ensures put && err == Ok ==> phys == if l < NDIR then phys0 else phys0 % U32
      ensures err != Ok ==> phys == if put then phys0 else 0
    {
      hide Node, Pow, Square, Outcome, Blocks.Balanced, Blocks.InUse, Blocks.FreeBlocks, Blocks.Valid, Beside, Nearest;
      ghost var s := StateOf(inode.iblock);
      SpotInode(apb, l);
      phys := if put then phys0 else 0;
      AddNone(feature, inode.hugeFl, inode.blocks);
      ghost var fields := inode.blocks;
      if l < NDIR {
        err, phys, n := DirectBmap(inode, put, alloc, l, phys);
        WhatItTakes(s, StateOf(inode.iblock), SpotOf(apb, l), put, alloc, if put then phys0 % U32 else 0, err, if put then phys0 % U32 else phys, n);
      } else {
        var ret: nat;
        err, ret, n := IndirectBmap(inode, put, alloc, l, phys % U32);
        RetOnSuccess(s, StateOf(inode.iblock), SpotOf(apb, l), put, alloc, phys % U32, err, ret, n);
        WhatItTakes(s, StateOf(inode.iblock), SpotOf(apb, l), put, alloc, phys % U32, err, ret, n);
        if err == Ok {
          phys := ret;
        }
      }
      if err == Ok && (n > 0 || (put && l < NDIR)) {
        AddBlocksExact(feature, inode.hugeFl, inode.blocks, n);
        inode.blocks := AddBlocks(feature, inode.hugeFl, inode.blocks, n);
      }
      if feature.blocksize % 512 == 0 {
        AddBlocksUnits(feature, inode.hugeFl, fields, n);
      }
    }
  }

  /** What the top pointer block says of a place below it. */
  lemma TopFound(s: State, t: State, top: Spot, p: Spot, put: bool, alloc: bool, value: nat, b: nat, n: nat)
    requires Sound(s, false) && top.height == 0 && top.root < 15 && Place(s.apb, p) && Above(s.apb, top, p)
    requires Outcome(s, t, top, false, alloc, 0, Ok, b, n)
    ensures Sound(t, false) && t.apb == s.apb && (alloc ==> b != 0) && b == t.roots[top.root]
    ensures b == 0 ==> n == 0 && Outcome(s, t, p, put, alloc, value, if put then NoIndirect else Ok, 0, 0)
    ensures Node(t, p) == Node(s, p)
  {
    hide Pow, Taken, Needed, Ptr;
    BelowStays(s, t, top, p);
    if b == 0 {
      HoleBelow(s, top, p);
      GrownSelf(s, p);
      NothingTaken(s, p, put, false);
      NotNeeded(s, p, p, put);
    }
  }

  lemma SlotBeside(sb: Groups.Super, s: State, p: Spot, v: nat)
    requires Sound(s, false) && Place(s.apb, p) && p.height > 0 && v !in s.used && v < U32 && 0 < v < |s.disk|
    requires 0 < Node(s, Parent(s.apb, p)) < |s.disk| && Node(s, Parent(s.apb, p)) != v
    requires Nearest(sb, s.used, if p.index % s.apb > 0 then Ptr(s.disk[Node(s, Parent(s.apb, p))], p.index % s.apb - 1) else 0, v)
    requires Shaped(WithBlock(s, v)) && Node(WithBlock(s, v), Parent(s.apb, p)) == Node(s, Parent(s.apb, p))
    requires Hung(s, WithSlot(WithBlock(s, v), p, v), p, v)
    ensures Beside(sb, WithSlot(WithBlock(s, v), p, v), p, v)
  {
    hide Node, Pow, Nearest, Ptr, PutPtr;
    var b, i := Node(s, Parent(s.apb, p)), p.index % s.apb;
    ParentPlace(s.apb, p);
    if i > 0 {
      PtrPut(s.disk[b], i, v, i - 1);
    }
    assert s.used + {v} - {v} == s.used;
  }

  lemma RootBeside(sb: Groups.Super, s: State, r: nat, v: nat)
    requires Shaped(s) && r < 15 && v !in s.used && v < |s.disk| && Nearest(sb, s.used, if r > 0 then s.roots[r - 1] else 0, v)
    ensures var t := WithBlock(s, v).(roots := s.roots[r := v]); Shaped(t) && Beside(sb, t, Spot(r, 0, 0), v)
  {
    hide Nearest;
    assert s.used + {v} - {v} == s.used;
  }

  lemma SlotIsNode(s: State, p: Spot)
    requires Shaped(s) && p.root < 15 && p.height > 0
    ensures Node(s, p) == Child(s, Node(s, Parent(s.apb, p)), p.index % s.apb)
  {
  }

  lemma GrownSelf(s: State, p: Spot)
    requires Shaped(s)
    ensures Grown(s, s, p)
  {
  }

  lemma ParentInRange(s: State, p: Spot)
    requires Sound(s, false) && Place(s.apb, p) && p.height > 0 && Node(s, Parent(s.apb, p)) != 0
    ensures Node(s, Parent(s.apb, p)) < |s.disk| && Node(s, Parent(s.apb, p)) in s.used
  {
    ParentPlace(s.apb, p);
    assert Held(s.apb, false, Parent(s.apb, p));
  }

  lemma TopSpots(s: State, p: Spot)
    requires Shaped(s) && Place(s.apb, p) && p.height == 2
    ensures var up := Parent(s.apb, p);
      Place(s.apb, up) && Parent(s.apb, up) == Spot(p.root, 0, 0) && Node(s, Parent(s.apb, up)) == s.roots[p.root]
      && up.index % s.apb == p.index / s.apb && p.index % s.apb < s.apb
  {
    ParentPlace(s.apb, p);
    PowSmall(s.apb);
    DivBound(p.index, s.apb, s.apb);
    var up := Parent(s.apb, p);
    ParentPlace(s.apb, up);
    assert Pow(s.apb, 0) == 1;
  }

  lemma {:induction false} TopAbove(n: nat, p: Spot)
    requires n > 0 && p.root < 15 && 0 < p.height <= Depth(p.root) && p.index < Pow(n, p.height)
    ensures Place(n, p) && Above(n, Spot(p.root, 0, 0), p)
    decreases p.height
  {
    ParentPlace(n, p);
    if p.height > 1 {
      TopAbove(n, Parent(n, p));
    } else {
      assert Pow(n, 0) == 1;
    }
  }

  lemma SmallIndex(n: nat, p: Spot)
    requires n > 0 && p.index < Pow(n, 1) && p.height == 1
    ensures p.index % n == p.index && Parent(n, p) == Spot(p.root, 0, 0)
  {
    PowSmall(n);
  }

  lemma RetOnSuccess(s: State, t: State, p: Spot, put: bool, alloc: bool, value: nat, err: Errno, ret: nat, n: nat)
    requires Outcome(s, t, p, put, alloc, value, err, ret, n)
    ensures put && err == Ok ==> ret == value
    ensures err != Ok ==> forall r: nat :: Outcome(s, t, p, put, alloc, value, err, r, n)
  {
  }

  lemma SpotInode(n: nat, l: nat)
    ensures SpotOf(n, l).root < 15 && (l < NDIR ==> SpotOf(n, l) == Spot(l, 0, 0))
  {
  }

  lemma WhatItTakes(s: State, t: State, p: Spot, put: bool, alloc: bool, value: nat, err: Errno, ret: nat, n: nat)
    requires Shaped(s) && p.root < 15 && Outcome(s, t, p, put, alloc, value, err, ret, n)
    ensures err == Ok ==> n == Needed(s, p, put, alloc)
    ensures err == NoSpace ==> alloc && n < Needed(s, p, put, alloc)
    ensures err == NoIndirect ==> !alloc && n == 0
  {
    hide Taken, Needed, Node;
    if !alloc {
      assert t.used == s.used;
    }
  }

  // ---------- Half-way ----------

  lemma {:induction false} EmptyNodes(s: State, p: Spot)
    requires Shaped(s) && p.root < 15 && forall r | 0 <= r < 15 :: s.roots[r] == 0
    ensures Node(s, p) == 0
    decreases p.height
  {
    if p.height > 0 {
      EmptyNodes(s, Parent(s.apb, p));
    }
  }

  lemma EmptyInode(s: State)
    requires Shaped(s) && forall r | 0 <= r < 15 :: s.roots[r] == 0
    ensures Sound(s, false) && Needed(s, Spot(12, 1, 0), false, true) == 2
  {
    hide Node;
    forall p: Spot | p.root < 15 ensures Node(s, p) == 0 {
      EmptyNodes(s, p);
    }
  }

  /** On a file system with one free block, asking an empty inode for block 12 takes that one for a
      pointer block, fails, and leaves i_blocks at zero. */
  method HalfWay(v: Volume) returns (inode: Inode, err: Errno, n: nat)
    requires v.Valid() && v.balloc.FreeBlocks() == 1
    modifies v, v.balloc
    ensures err == NoSpace && n == 1 && inode.blocks == Fields(0, 0) && v.balloc.Valid() && v.balloc.FreeBlocks() == 0
  {
    hide Node, Outcome, Sound, Needed, Blocks.FreeBlocks, Blocks.InUse, Blocks.Valid;
    inode := new Inode(seq(15, i => 0), Fields(0, 0), false);
    EmptyInode(v.StateOf(inode.iblock));
    assert SpotOf(v.apb, 12) == Spot(12, 1, 0);
    PowSmall(v.apb);
    var phys;
    err, phys, n := v.Bmap2(inode, false, true, 12, 0);
  }

  // ---------- What a caller of bmap sees ----------

  /** BMAP_SET makes a later lookup of l return the block; BMAP_ALLOC turns a hole into a block that
      was free; no other logical block is mapped differently, and the pointer blocks that were
      added map nothing else. */
  lemma OneBlockChanges(s: State, t: State, l: nat, put: bool, alloc: bool, value: nat, err: Errno, ret: nat, n: nat)
    requires Shaped(s) && Addressable(s.apb, l) && Outcome(s, t, SpotOf(s.apb, l), put, alloc, value, err, ret, n)
    ensures Shaped(t)
    ensures forall k | Addressable(s.apb, k) && k != l :: Map(t, k) == Map(s, k)
    ensures err == Ok ==> Map(t, l) == ret
    ensures err != Ok ==> Map(t, l) == Map(s, l)
    ensures put && err == Ok ==> Map(t, l) == value
    ensures !put && !alloc ==> ret == Map(s, l)
    ensures !put && alloc && err == Ok ==> if Map(s, l) == 0 then ret in t.used && ret !in s.used else ret == Map(s, l)
  {
    hide Node, Pow, Square;
    SpotLeaf(s.apb, l);
    HoleBelowTop(s, SpotOf(s.apb, l));
    forall k | Addressable(s.apb, k) && k != l ensures Map(t, k) == Map(s, k) {
      SpotLeaf(s.apb, k);
      SpotsDiffer(s.apb, k, l);
      var p, q := SpotOf(s.apb, l), SpotOf(s.apb, k);
      assert SameOrNew(s, t, p, q);
      if Above(s.apb, q, p) {
        AbovePlace(s.apb, q, p);
      }
    }
  }

  lemma HoleBelowTop(s: State, p: Spot)
    requires Shaped(s) && p.root < 15
    ensures p.height > 0 && Node(s, Parent(s.apb, p)) == 0 ==> Node(s, p) == 0
  {
  }
}
