/**
 Buffered file input and output over the block mapping (source/fileio.c).  The model of a file is an
 array of bytes, with a cursor and a size beside it.
 */
module FileIo {
  import opened Bytes
  import opened BlockTree
  import opened BlockMap
  import BlockAlloc

  // ---------- Blocks of the file on the disk ----------

  /** The contents of a logical block on the disk; a hole holds zeros. */
  function Stored(s: State, l: nat): (b: seq<Byte>)
    requires Shaped(s)
    ensures |b| == 4 * s.apb
  {
    var p := Map(s, l);
    if 0 < p < |s.disk| then s.disk[p] else Zeros(4 * s.apb)
  }

  lemma DataSpot(s: State, l: nat)
    requires Sound(s, true) && Addressable(s.apb, l) && Map(s, l) != 0
    ensures Held(s.apb, true, SpotOf(s.apb, l)) && Map(s, l) < |s.disk| && Map(s, l) in s.used && NotInner(s, Map(s, l))
  {
    hide Node, Pow, SpotOf;
    SpotLeaf(s.apb, l);
    var p := SpotOf(s.apb, l);
    assert Map(s, l) == Node(s, p);
    forall q {:trigger Node(s, q)} | Inner(s.apb, q) ensures Node(s, q) != Node(s, p) {
      assert Held(s.apb, true, q);
    }
  }

  /** Looking up or allocating a block changes no block's contents. */
  lemma BmapKeepsStored(s: State, t: State, l: nat, alloc: bool, err: Errno, ret: nat, n: nat, k: nat)
    requires Sound(s, true) && Addressable(s.apb, l) && Addressable(s.apb, k)
    requires Outcome(s, t, SpotOf(s.apb, l), false, alloc, 0, err, ret, n)
    ensures Sound(t, true) && Stored(t, k) == Stored(s, k)
  {
    OneBlockChanges(s, t, l, false, alloc, 0, err, ret, n);
    hide Node, Pow, SpotOf, Map;
    if Map(s, k) != 0 {
      DataSpot(s, k);
    }
  }

  /** Writing the block of l changes the contents of l alone. */
  lemma WriteStored(s: State, l: nat, block: seq<Byte>)
    requires Sound(s, true) && Addressable(s.apb, l) && Map(s, l) != 0 && |block| == 4 * s.apb
    ensures Map(s, l) < |s.disk|
    ensures var u := s.(disk := s.disk[Map(s, l) := block]);
      Sound(u, true) && forall k | Addressable(s.apb, k) :: Map(u, k) == Map(s, k) && Stored(u, k) == if k == l then block else Stored(s, k)
  {
    hide Node, Pow, SpotOf;
    DataSpot(s, l);
    var b := Map(s, l);
    var u := s.(disk := s.disk[b := block]);
    forall q {:trigger Node(u, q)} | Place(s.apb, q) ensures Node(u, q) == Node(s, q) {
      DataWrite(s, b, block, q);
    }
    SameNodesSound(s, u);
    forall k | Addressable(s.apb, k) ensures Map(u, k) == Map(s, k) && Stored(u, k) == if k == l then block else Stored(s, k) {
      SpotLeaf(s.apb, k);
      SpotLeaf(s.apb, l);
      SpotsDiffer(s.apb, k, l);
      assert Node(u, SpotOf(s.apb, k)) == Node(s, SpotOf(s.apb, k));
      if k != l && Map(s, k) == b {
        DataSpot(s, k);
        NotShared(s, k, l);
      }
    }
  }

  lemma NotShared(s: State, k: nat, l: nat)
    requires Sound(s, true) && Addressable(s.apb, k) && Addressable(s.apb, l) && Map(s, k) == Map(s, l) != 0
    ensures k == l
  {
    hide Node, Pow, SpotOf;
    DataSpot(s, k);
    DataSpot(s, l);
    assert Node(s, SpotOf(s.apb, k)) == Node(s, SpotOf(s.apb, l));
    SpotsDiffer(s.apb, k, l);
  }

  lemma SoundWeaker(s: State)
    requires Sound(s, true)
    ensures Sound(s, false) && Shaped(s)
  {
    hide Node, Pow;
  }

  lemma SameNodesSound(s: State, u: State)
    requires Sound(s, true) && Shaped(u) && u.apb == s.apb && u.used == s.used && |u.disk| == |s.disk|
    requires forall q {:trigger Node(u, q)} | Place(s.apb, q) :: Node(u, q) == Node(s, q)
    ensures Sound(u, true)
  {
    hide Node, Pow;
    forall q, r {:trigger Node(u, q), Node(u, r)} | Held(u.apb, true, q) && Held(u.apb, true, r) && Node(u, q) == Node(u, r) != 0 ensures q == r {
      assert Node(s, q) == Node(s, r);
    }
  }

  // ---------- Empty places ----------

  /** The empty places on the ways to n blocks, from block l on. */
  ghost function Gaps(s: State, l: nat, n: nat): set<Spot>
    requires Shaped(s)
  {
    if n == 0 then {} else
      SpotInode(s.apb, l + n - 1);
      Gaps(s, l, n - 1) + Holes(s, SpotOf(s.apb, l + n - 1))
  }

  /** ... on the ways to the blocks before that of the last of m bytes at pos. */
  ghost function GapsBefore(s: State, pos: nat, m: nat, bs: nat): set<Spot>
    requires Shaped(s) && bs > 0 && m > 0
  {
    DivUp(pos, pos + m - 1, bs);
    Gaps(s, pos / bs, (pos + m - 1) / bs - pos / bs)
  }

  lemma {:induction false} GapsFirst(s: State, l: nat, n: nat)
    requires Shaped(s) && n > 0 && SpotOf(s.apb, l).root < 15
    ensures Gaps(s, l, n) == Holes(s, SpotOf(s.apb, l)) + Gaps(s, l + 1, n - 1)
  {
    hide SpotOf, Holes;
    if n > 1 {
      GapsFirst(s, l, n - 1);
    }
  }

  /** In t the empty places on the way to any block below limit are those of s without X. */
  ghost predicate Filling(s: State, t: State, limit: nat, X: set<Spot>)
    requires Shaped(s) && Shaped(t)
  {
    forall l: nat, n: nat {:trigger Gaps(t, l, n)} | l + n <= limit :: Gaps(t, l, n) == Gaps(s, l, n) - X
  }

  lemma {:induction false} GapsAfter(s: State, t: State, p: Spot, l: nat, n: nat)
    requires Shaped(s) && Shaped(t) && Place(s.apb, p) && Grown(s, t, p) && Node(t, p) != 0
    requires forall k | l <= k < l + n :: Addressable(s.apb, k)
    ensures Gaps(t, l, n) == Gaps(s, l, n) - Holes(s, p)
  {
    hide SpotOf, Holes, Node, Pow, SameOrNew, Addressable;
    if n > 0 {
      GapsAfter(s, t, p, l, n - 1);
      SpotLeaf(s.apb, l + n - 1);
      HolesAfter(s, t, p, SpotOf(s.apb, l + n - 1));
    }
  }

  lemma FillingAfter(s: State, t: State, p: Spot, limit: nat)
    requires Shaped(s) && Shaped(t) && Place(s.apb, p) && Grown(s, t, p) && Node(t, p) != 0
    requires forall k | 0 <= k < limit :: Addressable(s.apb, k)
    ensures Filling(s, t, limit, Holes(s, p))
  {
    hide SpotOf, Holes, Node, Pow, Grown, Addressable, Gaps;
    forall l: nat, n: nat {:trigger Gaps(t, l, n)} | l + n <= limit ensures Gaps(t, l, n) == Gaps(s, l, n) - Holes(s, p) {
      GapsAfter(s, t, p, l, n);
    }
  }

  lemma {:induction false} GapsWrite(s: State, b: nat, block: seq<Byte>, l: nat, n: nat)
    requires Shaped(s) && b < |s.disk| && |block| == 4 * s.apb && NotInner(s, b)
    requires forall k | l <= k < l + n :: Addressable(s.apb, k)
    ensures Shaped(s.(disk := s.disk[b := block])) && Gaps(s.(disk := s.disk[b := block]), l, n) == Gaps(s, l, n)
  {
    hide SpotOf, Holes, Node, Pow, Addressable;
    if n > 0 {
      GapsWrite(s, b, block, l, n - 1);
      SpotLeaf(s.apb, l + n - 1);
      HolesWrite(s, b, block, SpotOf(s.apb, l + n - 1));
    }
  }

  /** Writing a block of the file fills no place. */
  lemma FillingWrite(s: State, l: nat, block: seq<Byte>, limit: nat)
    requires Sound(s, true) && Addressable(s.apb, l) && Map(s, l) != 0 && |block| == 4 * s.apb
    requires forall k | 0 <= k < limit :: Addressable(s.apb, k)
    ensures Map(s, l) < |s.disk| && Shaped(s) && Shaped(s.(disk := s.disk[Map(s, l) := block]))
    ensures Filling(s, s.(disk := s.disk[Map(s, l) := block]), limit, {})
  {
    hide SpotOf, Holes, Node, Pow, Addressable, Gaps;
    DataSpot(s, l);
    var t := s.(disk := s.disk[Map(s, l) := block]);
    forall k: nat, n: nat {:trigger Gaps(t, k, n)} | k + n <= limit ensures Gaps(t, k, n) == Gaps(s, k, n) {
      GapsWrite(s, Map(s, l), block, k, n);
    }
  }

  lemma FillingNone(s: State, limit: nat)
    requires Shaped(s)
    ensures Filling(s, s, limit, {})
  {
  }

  lemma FillingThen(s: State, t: State, u: State, limit: nat, X: set<Spot>)
    requires Shaped(s) && Shaped(t) && Shaped(u) && Filling(s, t, limit, X) && Filling(t, u, limit, {})
    ensures Filling(s, u, limit, X)
  {
    hide Gaps;
  }

  // ---------- Byte arrays ----------

  function Splice(a: seq<Byte>, at: nat, part: seq<Byte>): (r: seq<Byte>)
    requires at + |part| <= |a|
    ensures |r| == |a|
  {
    a[..at] + part + a[at + |part|..]
  }

  lemma SpliceTwice(a: seq<Byte>, at: nat, x: seq<Byte>, y: seq<Byte>)
    requires at + |x| + |y| <= |a|
    ensures Splice(Splice(a, at, x), at + |x|, y) == Splice(a, at, x + y)
  {
  }

  /** A file as its user sees it: the disk, with a buffer laid over block no. */
  datatype View = View(disk: State, cached: bool, no: nat, buf: seq<Byte>)

  ghost predicate Fit(v: View) { Shaped(v.disk) && |v.buf| == 4 * v.disk.apb }

  function Size(v: View): nat { 4 * v.disk.apb }

  /** Where a block starts in the file. */
  function Off(v: View, l: nat): nat { l * Size(v) }

  lemma OffStep(v: View, l: nat)
    ensures Off(v, l + 1) == Off(v, l) + Size(v) && Off(v, 0) == 0
  {
  }

  lemma OffMono(v: View, a: nat, b: nat)
    requires a <= b
    ensures Off(v, a) <= Off(v, b)
  {
    var bs := Size(v);
    assert (b - a) * bs >= 0;
    assert b * bs == a * bs + (b - a) * bs;
  }

  function BlockOf(v: View, l: nat): (b: seq<Byte>)
    requires Fit(v)
    ensures |b| == Size(v)
  {
    if v.cached && l == v.no then v.buf else Stored(v.disk, l)
  }

  /** The first n blocks, one after the other. */
  function Image(v: View, n: nat): (a: seq<Byte>)
    requires Fit(v)
    ensures |a| == Off(v, n)
  {
    if n == 0 then [] else
      OffStep(v, n - 1);
      Image(v, n - 1) + BlockOf(v, n - 1)
  }

  lemma {:induction false} ImageSame(v: View, w: View, n: nat)
    requires Fit(v) && Fit(w) && v.disk.apb == w.disk.apb
    requires forall l | 0 <= l < n :: BlockOf(v, l) == BlockOf(w, l)
    ensures Image(v, n) == Image(w, n)
  {
    hide Off, Stored, BlockOf;
    if n > 0 {
      ImageSame(v, w, n - 1);
    }
  }

  lemma {:induction false} ImageBlock(v: View, n: nat, b: nat)
    requires Fit(v) && b < n
    ensures Off(v, b) + Size(v) <= |Image(v, n)|
    ensures Image(v, n)[Off(v, b)..Off(v, b) + Size(v)] == BlockOf(v, b)
  {
    hide Off, Stored, BlockOf, Size;
    OffStep(v, b);
    OffMono(v, b + 1, n);
    if b < n - 1 {
      ImageBlock(v, n - 1, b);
      var a := Image(v, n - 1);
      assert Image(v, n)[Off(v, b)..Off(v, b) + Size(v)] == a[Off(v, b)..Off(v, b) + Size(v)];
    } else {
      var a, c := Image(v, b), BlockOf(v, b);
      assert Image(v, n) == a + c && |a| == Off(v, b) && |c| == Size(v);
      assert (a + c)[|a|..|a| + |c|] == c;
    }
  }

  /** A change within one block is a change within the image. */
  lemma {:induction false} ImageSplice(v: View, w: View, n: nat, b: nat, start: nat, part: seq<Byte>)
    requires Fit(v) && Fit(w) && v.disk.apb == w.disk.apb && b < n
    requires forall l | 0 <= l < n && l != b :: BlockOf(w, l) == BlockOf(v, l)
    requires start + |part| <= Size(v) && BlockOf(w, b) == Splice(BlockOf(v, b), start, part)
    ensures Off(v, b) + start + |part| <= |Image(v, n)|
    ensures Image(w, n) == Splice(Image(v, n), Off(v, b) + start, part)
  {
    hide Off, Stored, BlockOf, Size, Splice, Fit, Image;
    ImageStep(v, n - 1);
    ImageStep(w, n - 1);
    OffStep(v, b);
    OffMono(v, b + 1, n);
    if b < n - 1 {
      OffMono(v, b + 1, n - 1);
      ImageSplice(v, w, n - 1, b, start, part);
      SpliceLeft(Image(v, n - 1), BlockOf(v, n - 1), Off(v, b) + start, part);
    } else {
      ImageSame(v, w, n - 1);
      SpliceRight(Image(v, n - 1), BlockOf(v, n - 1), start, part);
    }
  }

  lemma ImageStep(v: View, n: nat)
    requires Fit(v)
    ensures Image(v, n + 1) == Image(v, n) + BlockOf(v, n) && |Image(v, n)| == Off(v, n)
  {
  }

  lemma SpliceLeft(a: seq<Byte>, b: seq<Byte>, at: nat, part: seq<Byte>)
    requires at + |part| <= |a|
    ensures Splice(a + b, at, part) == Splice(a, at, part) + b
  {
  }

  lemma SpliceRight(a: seq<Byte>, b: seq<Byte>, at: nat, part: seq<Byte>)
    requires at + |part| <= |b|
    ensures Splice(a + b, |a| + at, part) == a + Splice(b, at, part)
  {
  }

  datatype Whence = FromStart | FromCurrent | FromEnd | Unknown

  const U64: nat := 0x1_0000_0000_0000_0000

  class File {
    const vol: Volume
    const inode: Inode
    const writable: bool
    /** Any number of blocks that the tree can address. */
    ghost const limit: nat
    var size: nat
    var pos: nat
    var blockno: nat
    var physblock: nat
    var buf: seq<Byte>
    var valid: bool
    var dirty: bool

    /** The bytes that can be addressed. */
    ghost function Bound(): nat { limit * vol.feature.blocksize }

    ghost function Disk(): State
      requires vol.balloc.Valid()
      reads vol, vol.balloc, inode
    {
      vol.StateOf(inode.iblock)
    }

    ghost predicate Valid()
      reads this, vol, vol.balloc, inode
    {
      Mapped() && size <= Bound() && (valid && !dirty ==> buf == Stored(Disk(), blockno))
    }

    /** All but the buffer's contents. */
    ghost predicate Mapped()
      reads this, vol, vol.balloc, inode
    {
      && vol.Valid() && Sound(Disk(), true)
      && inode.blocks.lo < U32 && inode.blocks.hi < U16
      && limit <= U32 && (forall l | 0 <= l < limit :: Addressable(vol.apb, l))
      && |buf| == vol.feature.blocksize
      && (valid ==> blockno < limit && physblock == Map(Disk(), blockno))
      && (dirty ==> valid)
    }

    ghost function Seen(): (v: View)
      requires vol.Valid() && |inode.iblock| == 15 && |buf| == vol.feature.blocksize
      reads this, vol, vol.balloc, inode
      ensures Fit(v)
    {
      View(Disk(), valid, blockno, buf)
    }

    /** The file: its bytes up to the limit of what can be addressed. */
    ghost function Content(): (a: seq<Byte>)
      requires Valid()
      reads this, vol, vol.balloc, inode
      ensures |a| == Bound()
    {
      Image(Seen(), limit)
    }

    constructor (vol: Volume, inode: Inode, writable: bool, size: nat, ghost limit: nat)
      requires vol.Valid() && |inode.iblock| == 15 && Sound(vol.StateOf(inode.iblock), true)
      requires inode.blocks.lo < U32 && inode.blocks.hi < U16
      requires limit <= U32 && forall l | 0 <= l < limit :: Addressable(vol.apb, l)
      requires size <= limit * vol.feature.blocksize
      ensures Valid() && this.vol == vol && this.inode == inode && this.writable == writable && this.size == size && pos == 0
    {
      this.vol, this.inode, this.writable, this.limit := vol, inode, writable, limit;
      this.size, this.pos, this.blockno, this.physblock := size, 0, 0, 0;
      this.buf := Zeros(vol.feature.blocksize);
      this.valid, this.dirty := false, false;
    }

    /** The buffer holds changes to a hole, and the blocks that this would need are not free. */
    ghost predicate Unplaceable()
      requires Valid()
      reads this, vol, vol.balloc, inode
    {
      vol.balloc.FreeBlocks() < |Due()|
    }

    /** The empty places that writing the buffer back fills. */
    ghost function Due(): set<Spot>
      requires Valid()
      reads this, vol, vol.balloc, inode
    {
      SpotInode(vol.apb, blockno);
      if dirty then Holes(Disk(), SpotOf(vol.apb, blockno)) else {}
    }

    /** The empty places that are filled while m bytes are written at the cursor: those of the buffer, if
        it is for another block, and those of the blocks that are full before the last byte. */
    ghost function DueToWrite(m: nat): set<Spot>
      requires Valid()
      reads this, vol, vol.balloc, inode
    {
      if m == 0 then {} else (if AtPos() then {} else Due()) + GapsBefore(Disk(), pos, m, vol.feature.blocksize)
    }

    /** ... and while m bytes are read there: those of the buffer, if another block is needed. */
    ghost function DueToRead(m: nat): set<Spot>
      requires Valid()
      reads this, vol, vol.balloc, inode
    {
      if m == 0 || (AtPos() && (pos + m - 1) / vol.feature.blocksize == blockno) then {} else Due()
    }

    /** How many blocks are short for that. */
    ghost function Lack(due: set<Spot>): int
      requires Valid()
      reads this, vol, vol.balloc, inode
    {
      |due| - vol.balloc.FreeBlocks()
    }

    /** A buffer for a mapped block needs no place. */
    lemma NothingDue()
      requires Valid() && (dirty ==> physblock != 0)
      ensures Due() == {}
    {
      hide Node, Pow, SpotOf, Holes;
      SpotInode(vol.apb, blockno);
      if dirty {
        HolesCount(Disk(), SpotOf(vol.apb, blockno));
        NoneMissing(Disk(), Disk(), SpotOf(vol.apb, blockno));
      }
    }

    /** The allocation in ext2fs_file_flush. */
    method MakeBlock() returns (err: Errno)
      requires Valid() && dirty && physblock == 0
      modifies this`physblock, vol, vol.balloc, inode
      ensures Valid() && Content() == old(Content())
      ensures if err == Ok then physblock != 0 else err == NoSpace && vol.Full()
      ensures err == Ok <==> !old(Unplaceable())
      ensures err == Ok ==> Settled(old(Disk()), old(Due()), old(vol.balloc.FreeBlocks()))
    {
      hide Node, Pow, SpotOf, Stored, Sound, Map, Outcome, Image, Needed, Filling, BlockAlloc.Blocks.FreeBlocks;
      SoundWeaker(Disk());
      ghost var s, v := Disk(), Seen();
      var e, p, n := vol.Bmap2(inode, false, true, blockno, 0);
      MadePlaces(s, Disk(), blockno, limit, e, p, n);
      physblock := p;
      OutcomeKind(s, Disk(), blockno, e, p, n);
      OneBlockChanges(s, Disk(), blockno, false, true, 0, e, p, n);
      forall k {:trigger Stored(Disk(), k)} | 0 <= k < limit ensures Stored(Disk(), k) == Stored(s, k) {
        BmapKeepsStored(s, Disk(), blockno, true, e, p, n, k);
      }
      BmapKeepsStored(s, Disk(), blockno, true, e, p, n, blockno);
      SoundWeaker(Disk());
      ImageSame(v, Seen(), limit);
      return e;
    }

    /** From the disk s, with so many blocks free, exactly the places X have been filled. */
    ghost predicate Settled(s: State, X: set<Spot>, free: nat)
      requires Shaped(s)
      reads this, vol, vol.balloc, inode
    {
      vol.Valid() && Shaped(Disk()) && Filling(s, Disk(), limit, X) && vol.balloc.FreeBlocks() + |X| == free
    }

    /** The write in ext2fs_file_flush. */
    method WriteBuffer()
      requires Valid() && dirty && physblock != 0
      modifies this`dirty, vol`disk
      ensures Valid() && !dirty && Content() == old(Content())
      ensures old(Shaped(Disk())) && Settled(old(Disk()), {}, old(vol.balloc.FreeBlocks()))
    {
      hide Node, Pow, SpotOf, Stored, Image, Sound, Map, Filling, BlockAlloc.Blocks.FreeBlocks;
      SoundWeaker(Disk());
      ghost var t, v := Disk(), Seen();
      FillingWrite(t, blockno, buf, limit);
      WriteStored(t, blockno, buf);
      vol.disk := vol.disk[physblock := buf];
      assert Disk() == t.(disk := t.disk[Map(t, blockno) := buf]);
      dirty := false;
      SoundWeaker(Disk());
      ImageSame(v, Seen(), limit);
    }

    /** Without unwritten changes, the blocks of the disk hold the file. */
    lemma CleanIsStored()
      requires Valid() && !dirty
      ensures Shaped(Disk()) && forall l | 0 <= l < limit :: BlockOf(Seen(), l) == Stored(Disk(), l)
    {
    }

    /** ext2fs_file_flush: afterwards the mapped blocks of the disk hold the file. */
    method Flush() returns (err: Errno)
      requires Valid()
      modifies this`physblock, this`dirty, vol, vol.balloc, inode
      ensures Valid() && Content() == old(Content())
      ensures err == Ok ==> !dirty && Shaped(Disk()) && forall l | 0 <= l < limit :: BlockOf(Seen(), l) == Stored(Disk(), l)
      ensures err == Ok || (err == NoSpace && vol.Full() && dirty && old(dirty))
      ensures err == Ok <==> !old(Unplaceable())
      ensures old(Shaped(Disk())) && (err == Ok ==> Settled(old(Disk()), old(Due()), old(vol.balloc.FreeBlocks())))
    {
      hide Node, Pow, SpotOf, Stored, Image, Sound, Map, Content, Needed, Filling, Holes, BlockAlloc.Blocks.FreeBlocks;
      SoundWeaker(Disk());
      ghost var s, due := Disk(), Due();
      FillingNone(s, limit);
      if valid && dirty {
        if physblock == 0 {
          err := MakeBlock();
          if err != Ok {
            return;
          }
        } else {
          NothingDue();
        }
        ghost var t := Disk();
        WriteBuffer();
        FillingThen(s, t, Disk(), limit, due);
      }
      CleanIsStored();
      return Ok;
    }

    predicate AtPos()
      reads this
    {
      vol.feature.blocksize > 0 && blockno == pos / vol.feature.blocksize
    }

    /** The block of the cursor, in 32 bits. */
    method BlockAtPos() returns (b: nat)
      requires pos < Bound() && limit <= U32
      ensures vol.feature.blocksize > 0 && b == pos / vol.feature.blocksize < limit
    {
      BlockBelow(pos, limit, vol.feature.blocksize);
      b := pos / vol.feature.blocksize;
      SmallMod(b, U32);
      b := b % U32;
    }

    /** sync_buffer_position */
    method SyncPosition() returns (err: Errno)
      requires Valid() && pos < Bound()
      modifies this`physblock, this`dirty, this`valid, this`blockno, vol, vol.balloc, inode
      ensures Valid() && Content() == old(Content()) && (dirty ==> old(dirty))
      ensures if err == Ok then AtPos() && blockno < limit else err == NoSpace && vol.Full() && old(dirty)
      ensures err == Ok <==> old(AtPos()) || !old(Unplaceable())
      ensures old(Shaped(Disk())) && (err == Ok ==> Settled(old(Disk()), if old(AtPos()) then {} else old(Due()), old(vol.balloc.FreeBlocks())))
      ensures err == Ok ==> if old(AtPos()) then dirty == old(dirty) && blockno == old(blockno) && Disk() == old(Disk()) else !dirty
    {
      hide Node, Pow, SpotOf, Stored, Image, Sound, Map, Content, Needed, Due, Filling, BlockAlloc.Blocks.FreeBlocks;
      SoundWeaker(Disk());
      FillingNone(Disk(), limit);
      var b := BlockAtPos();
      if b != blockno {
        err := Flush();
        if err != Ok {
          return;
        }
        Drop();
      }
      Move(b);
      return Ok;
    }

    /** A buffer without changes can be forgotten. */
    method Drop()
      requires Valid() && !dirty
      modifies this`valid
      ensures Valid() && Content() == old(Content()) && !valid
    {
      hide Node, Pow, Stored, Image, Sound, Map;
      SoundWeaker(Disk());
      ghost var v := Seen();
      valid := false;
      ImageSame(v, Seen(), limit);
    }

    method Move(b: nat)
      requires Valid() && (valid ==> b == blockno)
      modifies this`blockno
      ensures Valid() && Content() == old(Content()) && blockno == b
    {
      hide Node, Pow, Stored, Image, Sound, Map;
      SoundWeaker(Disk());
      ghost var v := Seen();
      blockno := b;
      ImageSame(v, Seen(), limit);
    }

    /** load_buffer: with dontfill the buffer is left as it is. */
    method LoadBuffer(dontfill: bool) returns (err: Errno)
      requires Valid() && blockno < limit
      modifies this`physblock, this`valid, this`buf, vol, vol.balloc, inode
      ensures err == Ok && Mapped() && valid && Disk() == old(Disk()) && vol.balloc.FreeBlocks() == old(vol.balloc.FreeBlocks())
      ensures old(valid) ==> buf == old(buf) && physblock == old(physblock)
      ensures !old(valid) && !dontfill ==> buf == Stored(Disk(), blockno)
    {
      hide Node, Pow, SpotOf, Sound, Outcome;
      SoundWeaker(Disk());
      ghost var s := Disk();
      if !valid {
        var e, p, n := vol.Bmap2(inode, false, false, blockno, 0);
        OutcomeGet(s, Disk(), blockno, e, p, n);
        physblock := p;
        if !dontfill {
          if physblock != 0 {
            MapInRange(s, blockno);
            buf := vol.disk[physblock];
          } else {
            buf := Zeros(vol.feature.blocksize);
          }
        }
        valid := true;
      }
      return Ok;
    }

    /** One turn of the loop in ext2fs_file_read. */
    method ReadChunk(c: nat) returns (part: seq<Byte>)
      requires Valid() && AtPos() && blockno < limit && pos % vol.feature.blocksize + c <= vol.feature.blocksize
      modifies this`physblock, this`valid, this`buf, this`pos, vol, vol.balloc, inode
      ensures Valid() && Content() == old(Content()) && pos == old(pos) + c <= |Content()| && part == Content()[old(pos)..pos]
      ensures Disk() == old(Disk()) && vol.balloc.FreeBlocks() == old(vol.balloc.FreeBlocks())
    {
      hide Node, Pow, Stored, Image, Sound, Map, Off;
      SoundWeaker(Disk());
      ghost var v := Seen();
      var e := LoadBuffer(false);
      SoundWeaker(Disk());
      ImageSame(v, Seen(), limit);
      var start := pos % vol.feature.blocksize;
      ImageBlock(Seen(), limit, blockno);
      AtOff(Seen(), pos, vol.feature.blocksize, blockno);
      part := buf[start..start + c];
      SubBlock(Image(Seen(), limit), Off(Seen(), blockno), Size(Seen()), start, c);
      pos := pos + c;
    }

    /** One turn of the loop in ext2fs_file_write. */
    method WriteChunk(part: seq<Byte>)
      requires Valid() && AtPos() && blockno < limit && pos % vol.feature.blocksize + |part| <= vol.feature.blocksize
      modifies this`physblock, this`valid, this`dirty, this`buf, this`pos, vol, vol.balloc, inode
      ensures Valid() && pos == old(pos) + |part| <= |old(Content())| && Content() == Splice(old(Content()), old(pos), part)
      ensures dirty && Disk() == old(Disk()) && vol.balloc.FreeBlocks() == old(vol.balloc.FreeBlocks())
    {
      hide Node, Pow, Stored, Image, Sound, Map, Off;
      SoundWeaker(Disk());
      ghost var v := Seen();
      var start := pos % vol.feature.blocksize;
      var e := LoadBuffer(|part| == vol.feature.blocksize);
      dirty := true;
      buf := Splice(buf, start, part);
      SoundWeaker(Disk());
      AtOff(v, pos, vol.feature.blocksize, blockno);
      ImageSplice(v, Seen(), limit, blockno, start, part);
      pos := pos + |part|;
    }

    /** What is left of the block at the cursor, but not more than wanted. */
    method Room(wanted: nat) returns (c: nat)
      requires vol.feature.blocksize > 0 && wanted > 0
      ensures 0 < c <= wanted && pos % vol.feature.blocksize + c <= vol.feature.blocksize
      ensures c == wanted || pos % vol.feature.blocksize + c == vol.feature.blocksize
    {
      DivFacts(pos, vol.feature.blocksize);
      c := vol.feature.blocksize - pos % vol.feature.blocksize;
      if c > wanted {
        c := wanted;
      }
    }

    method Resize(n: nat)
      requires Valid() && n <= Bound()
      modifies this`size
      ensures Valid() && size == n && Content() == old(Content())
    {
      hide Node, Pow, Stored, Image, Sound, Map;
      size := n;
    }

    /** The loop body of ext2fs_file_read. */
    method ReadOn(wanted: nat) returns (err: Errno, part: seq<Byte>)
      requires Valid() && pos < size && wanted > 0
      modifies this`physblock, this`dirty, this`valid, this`blockno, this`buf, this`pos, vol, vol.balloc, inode
      ensures Valid() && Content() == old(Content()) && (dirty ==> old(dirty))
      ensures err == Ok ==> 0 < |part| <= wanted && pos == old(pos) + |part| <= size <= |Content()| && part == Content()[old(pos)..pos]
      ensures err != Ok ==> err == NoSpace && vol.Full() && pos == old(pos) && old(dirty)
      ensures err == Ok <==> old(AtPos()) || !old(Unplaceable())
      ensures if err == Ok then Lack(DueToRead(Rest(wanted - |part|))) == old(Lack(DueToRead(Rest(wanted)))) else 0 < old(Lack(DueToRead(Rest(wanted))))
    {
      hide Node, Pow, SpotOf, Stored, Image, Sound, Map, Content, Bound, Mapped, Needed, Holes, Filling, BlockAlloc.Blocks.FreeBlocks;
      err := SyncPosition();
      if err != Ok {
        return err, [];
      }
      var c := Room(wanted);
      if c > size - pos {
        c := size - pos;
      }
      ChunkEnd(pos, Rest(wanted), c, vol.feature.blocksize);
      part := ReadChunk(c);
    }

    /** How much of it is still to be read. */
    function Rest(wanted: nat): nat
      reads this
    {
      if pos >= size then 0 else if wanted < size - pos then wanted else size - pos
    }

    lemma NothingToRead()
      requires Valid()
      ensures DueToRead(0) == {}
    {
    }

    lemma NothingToWrite()
      requires Valid()
      ensures DueToWrite(0) == {}
    {
    }

    /** ext2fs_file_read */
    method Read(wanted0: nat) returns (err: Errno, got: seq<Byte>)
      requires Valid()
      modifies this`physblock, this`dirty, this`valid, this`blockno, this`buf, this`pos, vol, vol.balloc, inode
      ensures Valid() && Content() == old(Content())
      ensures pos == old(pos) + |got| && |got| <= wanted0 && (got != [] ==> pos <= size && got == Content()[old(pos)..pos])
      ensures err == Ok ==> |got| == if old(pos) + wanted0 <= size then wanted0 else if old(pos) <= size then size - old(pos) else 0
      ensures err == Ok || (err == NoSpace && vol.Full() && old(dirty))
      ensures err == Ok <==> old(Lack(DueToRead(Rest(wanted0)))) <= 0
    {
      hide Node, Pow, Stored, Image, Sound, Map, Content, Bound, Mapped, Due, DueToRead, BlockAlloc.Blocks.FreeBlocks;
      got := [];
      var wanted: nat := wanted0;
      while pos < size && wanted > 0
        invariant Valid() && Content() == old(Content())
        invariant wanted + |got| == wanted0 && pos == old(pos) + |got|
        invariant got != [] ==> pos <= size <= |Content()| && got == Content()[old(pos)..pos]
        invariant dirty ==> old(dirty)
        invariant Lack(DueToRead(Rest(wanted))) == old(Lack(DueToRead(Rest(wanted0))))
        decreases wanted
      {
        ghost var p := pos;
        var e, part := ReadOn(wanted);
        if e != Ok {
          return e, got;
        }
        SliceJoin(Content(), old(pos), p, pos);
        got := got + part;
        wanted := wanted - |part|;
      }
      NothingToRead();
      return Ok, got;
    }

    /** The loop body of ext2fs_file_write: c bytes of data, up to the end of a block. */
    method WriteOn(data: seq<Byte>) returns (err: Errno, c: nat)
      requires Valid() && pos + |data| <= Bound() && data != []
      modifies this`physblock, this`dirty, this`valid, this`blockno, this`buf, this`pos, vol, vol.balloc, inode
      ensures Valid()
      ensures err == Ok ==> 0 < c <= |data| && pos == old(pos) + c <= |old(Content())| && Content() == Splice(old(Content()), old(pos), data[..c])
      ensures err != Ok ==> err == NoSpace && vol.Full() && pos == old(pos) && Content() == old(Content())
      ensures err == Ok <==> old(AtPos()) || !old(Unplaceable())
      ensures if err == Ok then Lack(DueToWrite(|data| - c)) == old(Lack(DueToWrite(|data|))) else 0 < old(Lack(DueToWrite(|data|)))
    {
      hide Node, Pow, SpotOf, Stored, Image, Sound, Map, Content, Mapped, Splice, Needed, Due, DueToWrite, Filling, Holes, Gaps,
           GapsBefore, Unplaceable, BlockAlloc.Blocks.FreeBlocks;
      ghost var s, X;
      err, s, X := SyncToWrite(|data|);
      if err != Ok {
        return err, 0;
      }
      c := Room(|data|);
      WriteChunk(data[..c]);
      DueOn(s, X, old(DueToWrite(|data|)), old(pos), c, |data|);
    }

    /** sync_buffer_position before m bytes are written, from the disk s, fills the places X. */
    method SyncToWrite(m: nat) returns (err: Errno, ghost s: State, ghost X: set<Spot>)
      requires Valid() && 0 < m && pos < Bound()
      modifies this`physblock, this`dirty, this`valid, this`blockno, vol, vol.balloc, inode
      ensures Valid() && Content() == old(Content())
      ensures if err == Ok then AtPos() && blockno < limit else err == NoSpace && vol.Full()
      ensures err == Ok <==> old(AtPos()) || !old(Unplaceable())
      ensures vol.feature.blocksize > 0 && Shaped(s) && s.apb == vol.apb && Shaped(Disk())
      ensures old(DueToWrite(m)) == X + GapsBefore(s, pos, m, vol.feature.blocksize)
      ensures if err == Ok then Filling(s, Disk(), limit, X) && vol.balloc.FreeBlocks() + |X| == old(vol.balloc.FreeBlocks())
              else 0 < old(Lack(DueToWrite(m)))
    {
      hide Node, Pow, SpotOf, Stored, Image, Sound, Map, Content, Mapped, Splice, Needed, Due, DueToWrite, Filling, Holes, Gaps,
           GapsBefore, Bound, BlockAlloc.Blocks.FreeBlocks;
      DueParts(m);
      s, X := Disk(), if AtPos() then {} else Due();
      err := SyncPosition();
      DueParts(m);
    }

    /** What is to be filled before m bytes are written: what the buffer needs, and the rest. */
    lemma DueParts(m: nat)
      requires Valid() && m > 0
      ensures vol.Valid() && vol.feature.blocksize > 0 && Shaped(Disk()) && Disk().apb == vol.apb
      ensures DueToWrite(m) == (if AtPos() then {} else Due()) + GapsBefore(Disk(), pos, m, vol.feature.blocksize)
      ensures !AtPos() ==> |Due()| <= |DueToWrite(m)|
    {
      hide Node, Pow, SpotOf, Stored, Map, Due, GapsBefore;
      if !AtPos() {
        PartCount(Due(), DueToWrite(m));
      }
    }

    /** After c of m bytes the buffer is for the block at pos0, and what is still to be filled is what has
        not been. */
    lemma DueOn(s: State, X: set<Spot>, due: set<Spot>, pos0: nat, c: nat, m: nat)
      requires Valid() && dirty && 0 < c <= m && pos == pos0 + c && pos0 + m <= Bound()
      requires vol.feature.blocksize > 0 && blockno == pos0 / vol.feature.blocksize
      requires pos0 % vol.feature.blocksize + c <= vol.feature.blocksize && (c == m || pos0 % vol.feature.blocksize + c == vol.feature.blocksize)
      requires Shaped(s) && Shaped(Disk()) && s.apb == vol.apb && Filling(s, Disk(), limit, X)
      requires due == X + GapsBefore(s, pos0, m, vol.feature.blocksize)
      ensures DueToWrite(m - c) == due - X && |DueToWrite(m - c)| == |due| - |X|
    {
      hide Node, Pow, SpotOf, Stored, Sound, Map, Gaps, Holes;
      var f, bs := blockno, vol.feature.blocksize;
      var z := (pos0 + m - 1) / bs;
      DivUp(pos0, pos0 + m - 1, bs);
      BlockBelow(pos0 + m - 1, limit, bs);
      ChunkEnd(pos0, m, c, bs);
      SpotInode(vol.apb, f);
      if c < m {
        GapsFirst(Disk(), f, z - f);
        assert Gaps(Disk(), f, z - f) == Gaps(s, f, z - f) - X;
        DueParts(m - c);
      } else {
        NoGaps(s, f);
      }
      RestCount(due, X);
    }

    lemma NoGaps(s: State, f: nat)
      requires Shaped(s)
      ensures Gaps(s, f, 0) == {}
    {
    }

    /** ext2fs_file_write */
    method Write(data: seq<Byte>) returns (err: Errno, readOnly: bool, written: nat)
      requires Valid() && pos + |data| <= Bound()
      modifies this`physblock, this`dirty, this`valid, this`blockno, this`buf, this`pos, this`size, vol, vol.balloc, inode
      ensures Valid() && readOnly == !writable
      ensures written <= |data| && pos == old(pos) + written
      ensures written == 0 ==> Content() == old(Content())
      ensures written > 0 ==> pos <= |old(Content())| && Content() == Splice(old(Content()), old(pos), data[..written])
      ensures err == Ok ==> if writable then written == |data| && size == (if old(size) < pos then pos else old(size)) else written == 0 && size == old(size)
      ensures err != Ok ==> err == NoSpace && vol.Full() && size == old(size)
      ensures err == Ok <==> !writable || old(Lack(DueToWrite(|data|))) <= 0
    {
      hide Node, Pow, Stored, Image, Sound, Map, Content, Bound, Mapped, Splice, Due, DueToWrite, BlockAlloc.Blocks.FreeBlocks;
      written := 0;
      if !writable {
        return Ok, true, 0;
      }
      while written < |data|
        invariant written <= |data| && pos == old(pos) + written && Valid() && size == old(size)
        invariant written == 0 ==> Content() == old(Content())
        invariant written > 0 ==> pos <= |old(Content())| && Content() == Splice(old(Content()), old(pos), data[..written])
        invariant Lack(DueToWrite(|data| - written)) == old(Lack(DueToWrite(|data|)))
        decreases |data| - written
      {
        var e, c := WriteOn(data[written..]);
        if e != Ok {
          return e, false, written;
        }
        assert data[written..][..c] == data[written..written + c];
        SpliceOn(old(Content()), old(pos), data, written, c);
        written := written + c;
      }
      NothingToWrite();
      if size < pos {
        Resize(pos);
      }
      return Ok, false, written;
    }

    /** ext2fs_file_llseek */
    method Llseek(offset: nat, whence: Whence) returns (ok: bool)
      requires Valid()
      modifies this`pos
      ensures Valid() && Content() == old(Content())
      ensures ok == (whence != Unknown)
      ensures match whence
        case FromStart => pos == offset
        case FromCurrent => pos == (old(pos) + offset) % 0x1_0000_0000_0000_0000
        case FromEnd => pos == (size + offset) % 0x1_0000_0000_0000_0000
        case Unknown => pos == old(pos)
    {
      hide Node, Pow, Stored, Image, Sound, Map;
      match whence {
        case FromStart => pos := offset;
        case FromCurrent => pos := (pos + offset) % U64;
        case FromEnd => pos := (size + offset) % U64;
        case Unknown => return false;
      }
      return true;
    }
  }

  lemma SliceJoin(a: seq<Byte>, i: nat, j: nat, k: nat)
    requires i <= j <= k <= |a|
    ensures a[i..j] + a[j..k] == a[i..k]
  {
  }

  /** Writing on: after the first `done` bytes of data, the next c. */
  lemma SpliceOn(a: seq<Byte>, at: nat, data: seq<Byte>, done: nat, c: nat)
    requires done + c <= |data| && at + done + c <= |a|
    ensures done == 0 ==> data[..done + c] == data[done..done + c]
    ensures Splice(Splice(a, at, data[..done]), at + done, data[done..done + c]) == Splice(a, at, data[..done + c])
  {
    assert data[..done] + data[done..done + c] == data[..done + c];
    SpliceTwice(a, at, data[..done], data[done..done + c]);
  }

  lemma BlockBelow(x: nat, n: nat, bs: nat)
    requires x < n * bs
    ensures bs > 0 && x / bs < n
  {
    assert x == bs * (x / bs) + x % bs;
    if x / bs >= n {
      MulMono(n, x / bs, bs);
    }
  }

  lemma MulMono(a: nat, b: nat, c: nat)
    requires a <= b
    ensures a * c <= b * c
  {
  }

  lemma SmallMod(x: nat, n: nat)
    requires x < n
    ensures x % n == x
  {
  }

  lemma PartCount(a: set<Spot>, b: set<Spot>)
    requires a <= b
    ensures |a| <= |b|
  {
    RestCount(b, a);
  }

  lemma RestCount(b: set<Spot>, a: set<Spot>)
    requires a <= b
    ensures |b - a| == |b| - |a|
  {
    assert b == (b - a) + a && (b - a) !! a;
  }

  /** Where a turn of the loop ends that is to move m bytes and moves c, up to the end of the block. */
  lemma ChunkEnd(pos: nat, m: nat, c: nat, bs: nat)
    requires bs > 0 && 0 < c <= m && pos % bs + c <= bs && (c == m || pos % bs + c == bs)
    ensures (pos + m - 1) / bs == pos / bs <==> c == m
    ensures c < m ==> (pos + c) / bs == pos / bs + 1 && pos / bs < (pos + m - 1) / bs
  {
    var q := pos / bs;
    DivFacts(pos, bs);
    if c == m {
      DivIs(pos + m - 1, q, bs);
    } else {
      DivIs(pos + c, q + 1, bs);
      DivUp(pos + c, pos + m - 1, bs);
    }
  }

  lemma DivIs(x: nat, q: nat, n: nat)
    requires n > 0 && q * n <= x < q * n + n
    ensures x / n == q
  {
    DivMod(q, n, x - q * n);
  }

  lemma DivUp(x: nat, y: nat, n: nat)
    requires n > 0 && x <= y
    ensures x / n <= y / n
  {
    DivFacts(x, n);
    DivFacts(y, n);
    if y / n < x / n {
      MulMono(y / n + 1, x / n, n);
    }
  }

  lemma DivFacts(x: nat, n: nat)
    requires n > 0
    ensures x == x / n * n + x % n && x % n < n
  {
  }

  lemma AtOff(v: View, x: nat, bs: nat, b: nat)
    requires bs == Size(v) && bs > 0 && b == x / bs
    ensures x == Off(v, b) + x % bs
  {
    DivFacts(x, bs);
  }

  lemma SubBlock(a: seq<Byte>, off: nat, bs: nat, start: nat, c: nat)
    requires off + bs <= |a| && start + c <= bs
    ensures a[off..off + bs][start..start + c] == a[off + start..off + start + c]
  {
    var l, r := a[off..off + bs][start..start + c], a[off + start..off + start + c];
    forall i | 0 <= i < c ensures l[i] == r[i] {
      assert a[off..off + bs][start + i] == a[off + start + i];
    }
  }

  /** What an allocation for block l fills. */
  lemma MadePlaces(s: State, t: State, l: nat, limit: nat, err: Errno, ret: nat, n: nat)
    requires Shaped(s) && Addressable(s.apb, l) && Outcome(s, t, SpotOf(s.apb, l), false, true, 0, err, ret, n)
    requires forall k | 0 <= k < limit :: Addressable(s.apb, k)
    ensures Shaped(t) && SpotOf(s.apb, l).root < 15 && |Holes(s, SpotOf(s.apb, l))| == Needed(s, SpotOf(s.apb, l), false, true)
    ensures err == Ok ==> n == |Holes(s, SpotOf(s.apb, l))| && Filling(s, t, limit, Holes(s, SpotOf(s.apb, l)))
  {
    hide SpotOf, Holes, Node, Pow, SameOrNew, Addressable, Filling;
    HolesCount(s, SpotOf(s.apb, l));
    SpotLeaf(s.apb, l);
    if err == Ok {
      FillingAfter(s, t, SpotOf(s.apb, l), limit);
    }
  }

  lemma OutcomeGet(s: State, t: State, l: nat, err: Errno, ret: nat, n: nat)
    requires Shaped(s) && Outcome(s, t, SpotOf(s.apb, l), false, false, 0, err, ret, n)
    ensures t == s && err == Ok && ret == Map(s, l) && n == 0
  {
  }

  lemma MapInRange(s: State, l: nat)
    requires Sound(s, true) && Addressable(s.apb, l) && Map(s, l) != 0
    ensures 0 < Map(s, l) < |s.disk|
  {
    DataSpot(s, l);
  }

  lemma OutcomeKind(s: State, t: State, l: nat, err: Errno, ret: nat, n: nat)
    requires Outcome(s, t, SpotOf(s.apb, l), false, true, 0, err, ret, n)
    ensures err != NoIndirect && (err == Ok ==> ret != 0)
  {
  }

  // ---------- Runs ----------

  /** What a file is: bytes, a cursor and a size. */
  datatype Array = Array(bytes: seq<Byte>, pos: nat, size: nat)

  datatype Op = ReadOp(n: nat) | WriteOp(data: seq<Byte>) | SeekOp(offset: nat, whence: Whence) | FlushOp
  datatype Answer = Got(data: seq<Byte>) | Wrote(n: nat) | Moved(ok: bool) | Flushed

  predicate Fits(a: Array, op: Op) {
    a.size <= |a.bytes| && (op.WriteOp? ==> a.pos + |op.data| <= |a.bytes|)
  }

  function Do(a: Array, op: Op): (r: (Array, Answer))
    requires Fits(a, op)
    ensures |r.0.bytes| == |a.bytes| && r.0.size <= |a.bytes|
  {
    match op
    case ReadOp(n) =>
      var end := if a.pos + n <= a.size then a.pos + n else if a.pos <= a.size then a.size else a.pos;
      (a.(pos := end), Got(if end == a.pos then [] else a.bytes[a.pos..end]))
    case WriteOp(data) =>
      var end := a.pos + |data|;
      (Array(Splice(a.bytes, a.pos, data), end, if a.size < end then end else a.size), Wrote(|data|))
    case SeekOp(offset, whence) =>
      (match whence
       case FromStart => (a.(pos := offset), Moved(true))
       case FromCurrent => (a.(pos := (a.pos + offset) % U64), Moved(true))
       case FromEnd => (a.(pos := (a.size + offset) % U64), Moved(true))
       case Unknown => (a, Moved(false)))
    case FlushOp => (a, Flushed)
  }

  /** The array after some of the operations, and their answers; None once one does not fit. */
  datatype Trace = Trace(a: Array, answers: seq<Answer>) | Misfit

  function DoAll(a: Array, ops: seq<Op>): (r: Trace)
    ensures r.Trace? ==> |r.a.bytes| == |a.bytes|
  {
    if ops == [] then Trace(a, []) else
      match DoAll(a, ops[..|ops| - 1])
      case Misfit => Misfit
      case Trace(b, answers) =>
        if !Fits(b, ops[|ops| - 1]) then Misfit else
          var (c, answer) := Do(b, ops[|ops| - 1]);
          Trace(c, answers + [answer])
  }

  lemma {:induction false} PrefixFits(a: Array, ops: seq<Op>, k: nat)
    requires k <= |ops| && DoAll(a, ops).Trace?
    ensures DoAll(a, ops[..k]).Trace?
    ensures k < |ops| ==> Fits(DoAll(a, ops[..k]).a, ops[k])
    ensures k < |ops| ==>
      DoAll(a, ops[..k + 1]) == Trace(Do(DoAll(a, ops[..k]).a, ops[k]).0, DoAll(a, ops[..k]).answers + [Do(DoAll(a, ops[..k]).a, ops[k]).1])
  {
    hide Do, Fits;
    if k < |ops| - 1 {
      PrefixFits(a, ops[..|ops| - 1], k);
      assert ops[..|ops| - 1][..k] == ops[..k] && ops[..|ops| - 1][..k + 1] == ops[..k + 1];
    } else if k == |ops| - 1 {
      assert ops[..k + 1] == ops;
    } else {
      assert ops[..k] == ops;
    }
  }

  ghost function ArrayOf(f: File): Array
    requires f.Valid()
    reads f, f.vol, f.vol.balloc, f.inode
  {
    Array(f.Content(), f.pos, f.size)
  }

  /** What an operation has done when an allocation fails in it: a part of what it should, up to the
      cursor; the size stays. */
  predicate Short(a: Array, op: Op, answer: Answer, b: Array) {
    match op
    case ReadOp(n) =>
      answer.Got? && |answer.data| <= n && b == a.(pos := a.pos + |answer.data|)
      && (answer.data != [] ==> b.pos <= |a.bytes| && answer.data == a.bytes[a.pos..b.pos])
    case WriteOp(data) =>
      answer.Wrote? && answer.n <= |data| && a.pos + |data| <= |a.bytes|
      && b == Array(Splice(a.bytes, a.pos, data[..answer.n]), a.pos + answer.n, a.size)
    case SeekOp(offset, whence) => false
    case FlushOp => answer.Flushed? && b == a
  }

  /** All operations before the one of the last answer are done, and that one has stopped short. */
  predicate Stopped(a: Array, ops: seq<Op>, answers: seq<Answer>, b: Array) {
    && 0 < |answers| <= |ops|
    && var k := |answers| - 1;
    var before := DoAll(a, ops[..k]);
    before.Trace? && before.answers == answers[..k] && Short(before.a, ops[k], answers[k], b)
  }

  lemma StoppedAt(a: Array, ops: seq<Op>, k: nat, c: Array, answers: seq<Answer>, answer: Answer, b: Array)
    requires k < |ops| && k == |answers| && Trace(c, answers) == DoAll(a, ops[..k]) && Short(c, ops[k], answer, b)
    ensures Stopped(a, ops, answers + [answer], b)
  {
    hide DoAll, Short;
    assert (answers + [answer])[..k] == answers;
  }

  /** Any sequence of operations behaves as on a byte array, until an allocation fails: up to that
      operation all answers and the file are those of the array, and it has done a part of its work. */
  method Run(f: File, ops: seq<Op>) returns (err: Errno, answers: seq<Answer>)
    requires f.Valid() && f.writable && DoAll(ArrayOf(f), ops).Trace?
    modifies f, f.vol, f.vol.balloc, f.inode
    ensures f.Valid()
    ensures err == Ok ==> Trace(ArrayOf(f), answers) == DoAll(old(ArrayOf(f)), ops)
    ensures err != Ok ==> err == NoSpace && f.vol.Full() && Stopped(old(ArrayOf(f)), ops, answers, ArrayOf(f))
  {
    hide Splice, DoAll, Short, Stopped, ArrayOf, Do;
    ghost var a := ArrayOf(f);
    answers := [];
    NoOps(a, ops);
    for i := 0 to |ops|
      invariant f.Valid() && Trace(ArrayOf(f), answers) == DoAll(a, ops[..i]) && |answers| == i
    {
      PrefixFits(a, ops, i);
      var answer;
      ghost var c := ArrayOf(f);
      err, answer := Perform(f, ops[i]);
      if err != Ok {
        StoppedAt(a, ops, i, c, answers, answer, ArrayOf(f));
      }
      answers := answers + [answer];
      if err != Ok {
        return;
      }
    }
    assert ops[..|ops|] == ops;
    return Ok, answers;
  }

  lemma NoOps(a: Array, ops: seq<Op>)
    ensures DoAll(a, ops[..0]) == Trace(a, [])
  {
  }

  /** One operation. */
  method Perform(f: File, op: Op) returns (err: Errno, answer: Answer)
    requires f.Valid() && f.writable && Fits(ArrayOf(f), op)
    modifies f, f.vol, f.vol.balloc, f.inode
    ensures f.Valid()
    ensures err == Ok ==> (ArrayOf(f), answer) == Do(old(ArrayOf(f)), op)
    ensures err != Ok ==> err == NoSpace && f.vol.Full() && Short(old(ArrayOf(f)), op, answer, ArrayOf(f))
  {
    hide File.Content, File.Mapped, Node, Pow, Stored, Image, Sound, Map, Splice;
    match op {
      case ReadOp(n) =>
        err, answer := PerformRead(f, n);
      case WriteOp(data) =>
        err, answer := PerformWrite(f, data);
      case SeekOp(offset, whence) =>
        var ok := f.Llseek(offset, whence);
        return Ok, Moved(ok);
      case FlushOp =>
        var e := f.Flush();
        return e, Flushed;
    }
  }

  method PerformRead(f: File, n: nat) returns (err: Errno, answer: Answer)
    requires f.Valid() && f.writable && Fits(ArrayOf(f), ReadOp(n))
    modifies f, f.vol, f.vol.balloc, f.inode
    ensures f.Valid()
    ensures err == Ok ==> (ArrayOf(f), answer) == Do(old(ArrayOf(f)), ReadOp(n))
    ensures err != Ok ==> err == NoSpace && f.vol.Full() && Short(old(ArrayOf(f)), ReadOp(n), answer, ArrayOf(f))
  {
    hide File.Content, File.Mapped, File.Lack, File.DueToRead, Node, Pow, Stored, Image, Sound, Map;
    var e, got := f.Read(n);
    return e, Got(got);
  }

  method PerformWrite(f: File, data: seq<Byte>) returns (err: Errno, answer: Answer)
    requires f.Valid() && f.writable && Fits(ArrayOf(f), WriteOp(data))
    modifies f, f.vol, f.vol.balloc, f.inode
    ensures f.Valid()
    ensures err == Ok ==> (ArrayOf(f), answer) == Do(old(ArrayOf(f)), WriteOp(data))
    ensures err != Ok ==> err == NoSpace && f.vol.Full() && Short(old(ArrayOf(f)), WriteOp(data), answer, ArrayOf(f))
  {
    hide File.Content, File.Mapped, File.Lack, File.DueToWrite, Node, Pow, Stored, Image, Sound, Map;
    SpliceNothing(f.Content(), f.pos, data);
    var e, ro, n := f.Write(data);
    return e, Wrote(n);
  }

  lemma SpliceNothing(a: seq<Byte>, at: nat, data: seq<Byte>)
    requires at + |data| <= |a|
    ensures data == [] ==> Splice(a, at, data) == a
    ensures data[..|data|] == data
  {
  }
}
