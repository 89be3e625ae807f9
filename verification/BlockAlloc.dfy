/**
 The block allocator: lazy bitmap initialisation and the cyclic search of source/alloc.c, and the
 statistics of source/alloc_stats.c, with one block per cluster.
 */
module BlockAlloc {
  import opened Groups
  import SparseSuper

  /** The first block of a group as check_block_uninit computes it, in 32 bits. */
  function Base32(sb: Super, g: nat): nat {
    (g * sb.blocksPerGroup % WORD + sb.firstDataBlock) % WORD
  }

  lemma BaseExact(sb: Super, g: nat)
    ensures Base32(sb, g) == First(sb, g) <==> First(sb, g) < WORD
  {
    var x := g * sb.blocksPerGroup;
    if First(sb, g) < WORD {
      assert x % WORD == x;
    }
  }

  ghost predicate Rebuilt(sb: Super, d: Desc, g: nat, before: set<nat>, after: set<nat>)
    requires sb.descPerBlock > 0
  {
    forall b: nat :: b in after <==>
      if sb.firstDataBlock <= b < sb.blocksCount && Base32(sb, g) <= b < Base32(sb, g) + sb.blocksPerGroup
      then IsMeta(sb, d, g, b) else b in before
  }

  /** check_block_uninit initialises group g of a file system in any state. */
  ghost predicate LazyInit(sb: Super, groups: seq<Desc>, g: nat, before: set<nat>, after: set<nat>)
    requires Geometry(sb)
  {
    && |groups| == sb.groupCount && g < sb.groupCount
    && Lazy(sb, groups[g]) && Rebuilt(sb, groups[g], g, before, after)
  }

  /** No block changes its status. */
  ghost predicate KeepsUsed(sb: Super, groups: seq<Desc>, g: nat, before: set<nat>, after: set<nat>)
    requires Geometry(sb) && |groups| == sb.groupCount && g < sb.groupCount
  {
    Used(sb, after, groups[g := groups[g].(uninit := false)]) == Used(sb, before, groups)
  }

  lemma InitKeepsUsed(sb: Super, before: set<nat>, after: set<nat>, groups: seq<Desc>, g: nat)
    requires Geometry(sb) && LazyInit(sb, groups, g, before, after) && First(sb, g) < WORD
    ensures KeepsUsed(sb, groups, g, before, after)
  {
    var groups' := groups[g := groups[g].(uninit := false)];
    BaseExact(sb, g);
    hide IsMeta, First, GroupOf, Base32;
    forall b: nat ensures Blocked(sb, after, groups', b) <==> Blocked(sb, before, groups, b) {
      if sb.firstDataBlock <= b < sb.blocksCount {
        GroupInRange(sb, b);
        GroupOfIff(sb, b, g);
      }
    }
  }

  lemma BaseWraps(sb: Super, g: nat)
    requires First(sb, g) >= WORD
    ensures Base32(sb, g) <= First(sb, g) - WORD
  {
    var x := g * sb.blocksPerGroup;
    assert x == x / WORD * WORD + x % WORD;
  }

  /** In a group beyond 32 bits the block of its own bitmap becomes free. */
  lemma InitLosesBitmap(sb: Super, g: nat) returns (groups: seq<Desc>, after: set<nat>)
    requires Geometry(sb) && g < sb.groupCount && sb.gdtCsum && First(sb, g) >= WORD
    ensures LazyInit(sb, groups, g, {}, after) && !KeepsUsed(sb, groups, g, {}, after)
  {
    hide First, GroupOf, Base32, SuperAndDesc, End;
    var home := First(sb, g);
    var d := Desc(0, 0, true, home, 0, 0);
    groups := seq(sb.groupCount, i => d);
    after := set b: nat | sb.firstDataBlock <= b < sb.blocksCount && Base32(sb, g) <= b < Base32(sb, g) + sb.blocksPerGroup && IsMeta(sb, d, g, b);
    BaseWraps(sb, g);
    GroupEnd(sb, g);
    GroupOfIff(sb, home, g);
    assert Blocked(sb, {}, groups, home);
    assert !Blocked(sb, after, groups[g := d.(uninit := false)], home);
    assert home in Used(sb, {}, groups) && home !in Used(sb, after, groups[g := d.(uninit := false)]);
  }

  /** Initialising a group changes no block's status, whatever the state, exactly when its first
      block is below 2^32: the product in check_block_uninit has 32 bits. */
  lemma InitExact(sb: Super, g: nat)
    requires Geometry(sb) && g < sb.groupCount && sb.gdtCsum
    ensures (forall groups, before, after | LazyInit(sb, groups, g, before, after) :: KeepsUsed(sb, groups, g, before, after))
       <==> First(sb, g) < WORD
  {
    hide Rebuilt, KeepsUsed, First;
    if First(sb, g) < WORD {
      forall groups, before, after | LazyInit(sb, groups, g, before, after) ensures KeepsUsed(sb, groups, g, before, after) {
        InitKeepsUsed(sb, before, after, groups, g);
      }
    } else {
      var groups, after := InitLosesBitmap(sb, g);
    }
  }

  /** Beyond 32 bits the wrong group is rebuilt: here initialising group 2^17 of 2^15-block groups
      frees block 5000 of group 0, although it is in use and not metadata. */
  lemma InitWrapsAround() returns (sb: Super, groups: seq<Desc>, g: nat, after: set<nat>)
    ensures Geometry(sb) && LazyInit(sb, groups, g, {5000}, after)
    ensures sb.firstDataBlock == 0 && GroupOf(sb, 5000) == 0 != g
    ensures 5000 in Used(sb, {5000}, groups) && 5000 !in Used(sb, after, groups[g := groups[g].(uninit := false)])
  {
    sb := Super(0, 32768, WORD + 32768, 131073, 4096, true, true, false, true, 0, 1, 0, 64, 1);
    var d := Desc(0, 0, true, WORD + 10, WORD + 11, WORD + 12);
    g := 131072;
    groups := seq(131073, i => d.(uninit := i == 131072));
    assert Base32(sb, g) == 0;
    assert !SparseSuper.HasSuper(true, g) by {
      NoSuper();
    }
    assert SuperAndDesc(sb, g).superBlk == 0 && SuperAndDesc(sb, g).oldDescBlk == 0 && SuperAndDesc(sb, g).newDescBlk == 0;
    after := set b: nat | 0 <= b < 1 && IsMeta(sb, d, g, b);
    assert Blocked(sb, {5000}, groups, 5000);
    assert !Blocked(sb, after, groups[g := d.(uninit := false)], 5000);
  }

  lemma NoSuper()
    ensures !SparseSuper.HasSuper(true, 131072)
  {
    assert SparseSuper.Pow(3, 10) == 59049 && SparseSuper.Pow(3, 11) == 177147;
    assert SparseSuper.Pow(5, 7) == 78125 && SparseSuper.Pow(5, 8) == 390625;
    assert SparseSuper.Pow(7, 6) == 117649 && SparseSuper.Pow(7, 7) == 823543;
    if k: nat :| 131072 == SparseSuper.Pow(3, k) {
      SparseSuper.PowBelow(3, 10, k);
      SparseSuper.PowBelow(3, k, 11);
      assert false;
    }
    if k: nat :| 131072 == SparseSuper.Pow(5, k) {
      SparseSuper.PowBelow(5, 7, k);
      SparseSuper.PowBelow(5, k, 8);
      assert false;
    }
    if k: nat :| 131072 == SparseSuper.Pow(7, k) {
      SparseSuper.PowBelow(7, 6, k);
      SparseSuper.PowBelow(7, k, 7);
      assert false;
    }
  }

  function Toggled(bitmap: set<nat>, blk: nat, inuse: int): set<nat> {
    if inuse > 0 then bitmap + {blk} else bitmap - {blk}
  }

  /** The descriptor after the statistics of one block of its group. */
  function Accounted(sb: Super, d: Desc, inuse: int): Desc {
    SetFree(sb, d, (Free(sb, d) - inuse) % WORD).(uninit := false)
  }

  lemma UsedToggled(sb: Super, bitmap: set<nat>, groups: seq<Desc>, blk: nat, inuse: int, d: Desc)
    requires Geometry(sb) && |groups| == sb.groupCount && sb.firstDataBlock <= blk < sb.blocksCount
    requires GroupOf(sb, blk) < sb.groupCount && !Lazy(sb, groups[GroupOf(sb, blk)]) && !d.uninit
    ensures Used(sb, Toggled(bitmap, blk, inuse), groups[GroupOf(sb, blk) := d]) == Toggled(Used(sb, bitmap, groups), blk, inuse)
  {
    hide IsMeta, First, GroupOf;
    var bitmap', groups' := Toggled(bitmap, blk, inuse), groups[GroupOf(sb, blk) := d];
    forall b: nat ensures Blocked(sb, bitmap', groups', b) <==> if b == blk then inuse > 0 else Blocked(sb, bitmap, groups, b) {
      if sb.firstDataBlock <= b < sb.blocksCount {
        GroupInRange(sb, b);
      }
    }
  }

  lemma ClearToggled(used: set<nat>, blk: nat, inuse: int, lo: nat, hi: nat)
    ensures Clear(Toggled(used, blk, inuse), lo, hi) == Clear(used, lo, hi)
      + if !(lo <= blk < hi) then 0 else if inuse > 0 then (if blk in used then 0 else -1) else (if blk in used then 1 else 0)
  {
    if lo <= blk < hi {
      if inuse > 0 {
        ClearAdd(used, blk, lo, hi);
      } else {
        ClearAdd(used - {blk}, blk, lo, hi);
        if blk in used {
          assert used - {blk} + {blk} == used;
        } else {
          assert used - {blk} == used;
        }
      }
    } else {
      ClearSame(Toggled(used, blk, inuse), used, lo, hi);
    }
  }

  lemma {:induction false} SumUpdated(sb: Super, groups: seq<Desc>, g: nat, d: Desc)
    requires g < |groups|
    ensures SumFree(sb, groups[g := d]) == SumFree(sb, groups) - Free(sb, groups[g]) + Free(sb, d)
  {
    hide Free;
    var n := |groups| - 1;
    if g == n {
      assert groups[g := d][..n] == groups[..n];
    } else {
      assert groups[g := d][..n] == groups[..n][g := d];
      SumUpdated(sb, groups[..n], g, d);
    }
  }

  function Limit(sb: Super): nat { if sb.is64 then WORD else HALF }

  lemma FreeOfSet(sb: Super, d: Desc, n: nat)
    requires d.freeLo < HALF && d.freeHi < HALF && n < WORD
    ensures Free(sb, SetFree(sb, d, n)) == n % Limit(sb)
    ensures SetFree(sb, d, n).freeLo < HALF && SetFree(sb, d, n).freeHi < HALF
  {
    assert n == n / HALF * HALF + n % HALF;
  }

  lemma WrapOne(f: nat, inuse: int, limit: nat)
    requires f < limit && (limit == WORD || limit == HALF) && (inuse == 1 || inuse == -1)
    ensures (f - inuse) % WORD % limit != f
    ensures 0 <= f - inuse < limit ==> (f - inuse) % WORD % limit == f - inuse
  {
    if f - inuse < 0 {
      assert (f - inuse) % WORD == WORD - 1;
      assert (WORD - 1) % HALF == HALF - 1;
    } else if f - inuse == WORD {
      assert (f - inuse) % WORD == 0;
    } else {
      assert (f - inuse) % WORD == f - inuse;
      if f - inuse == limit {
        assert limit % limit == 0;
      }
    }
  }

  lemma AccountedFree(sb: Super, d: Desc, inuse: int)
    requires d.freeLo < HALF && d.freeHi < HALF && Free(sb, d) < Limit(sb) && (inuse == 1 || inuse == -1)
    ensures var d' := Accounted(sb, d, inuse);
      && d'.freeLo < HALF && d'.freeHi < HALF
      && Free(sb, d') != Free(sb, d)
      && (0 <= Free(sb, d) - inuse < Limit(sb) ==> Free(sb, d') == Free(sb, d) - inuse)
  {
    FreeOfSet(sb, d, (Free(sb, d) - inuse) % WORD);
    UninitKeepsFree(sb, SetFree(sb, d, (Free(sb, d) - inuse) % WORD));
    hide Free, SetFree;
    WrapOne(Free(sb, d), inuse, Limit(sb));
  }

  lemma UninitKeepsFree(sb: Super, d: Desc)
    ensures Free(sb, d.(uninit := false)) == Free(sb, d)
  {
  }

  /** The counter of the block's own group stays right exactly when the bit really changed. */
  lemma AccountedExact(sb: Super, d: Desc, inuse: int, used: set<nat>, blk: nat, lo: nat, hi: nat)
    requires Geometry(sb) && lo <= blk < hi <= lo + sb.blocksPerGroup && (inuse == 1 || inuse == -1)
    requires d.freeLo < HALF && d.freeHi < HALF && Free(sb, d) == Clear(used, lo, hi)
    ensures var d' := Accounted(sb, d, inuse);
      && d'.freeLo < HALF && d'.freeHi < HALF
      && (Free(sb, d') == Clear(Toggled(used, blk, inuse), lo, hi) <==> (inuse > 0 <==> blk !in used))
  {
    ClearToggled(used, blk, inuse, lo, hi);
    ClearBound(Toggled(used, blk, inuse), lo, hi);
    ClearBound(used, lo, hi);
    hide Clear, First, Free, Accounted, Toggled;
    AccountedFree(sb, d, inuse);
  }

  /** Marking or freeing one block of an initialised group keeps all counters right exactly when
      the block's bit really changes. */
  lemma StatsConserve(sb: Super, bitmap: set<nat>, groups: seq<Desc>, lo: nat, hi: nat, blk: nat, inuse: int)
    requires Conserved(sb, bitmap, groups, lo, hi)
    requires sb.firstDataBlock <= blk < sb.blocksCount && (inuse == 1 || inuse == -1)
    requires GroupOf(sb, blk) < sb.groupCount && !Lazy(sb, groups[GroupOf(sb, blk)])
    ensures var g := GroupOf(sb, blk);
      var (lo', hi') := SuperAdd(sb, lo, hi, -inuse);
      Conserved(sb, Toggled(bitmap, blk, inuse), groups[g := Accounted(sb, groups[g], inuse)], lo', hi')
      <==> (inuse > 0 <==> blk !in bitmap)
  {
    var g := GroupOf(sb, blk);
    var d := Accounted(sb, groups[g], inuse);
    var used := Used(sb, bitmap, groups);
    GroupInRange(sb, blk);
    GroupOfIff(sb, blk, g);
    UsedToggled(sb, bitmap, groups, blk, inuse, d);
    InitialisedBit(sb, bitmap, groups, blk);
    AccountedExact(sb, groups[g], inuse, used, blk, First(sb, g), End(sb, g));
    hide Accounted, Free, Clear, Toggled, Used, Conserved, GroupOf, First, End;
    if inuse > 0 <==> blk !in bitmap {
      StatsKeep(sb, bitmap, groups, lo, hi, blk, inuse, g, d);
    } else {
      NotConserved(sb, Toggled(bitmap, blk, inuse), groups[g := d], SuperAdd(sb, lo, hi, -inuse).0, SuperAdd(sb, lo, hi, -inuse).1, g);
    }
  }

  lemma InitialisedBit(sb: Super, bitmap: set<nat>, groups: seq<Desc>, blk: nat)
    requires Geometry(sb) && |groups| == sb.groupCount && sb.firstDataBlock <= blk < sb.blocksCount
    requires GroupOf(sb, blk) < sb.groupCount && !Lazy(sb, groups[GroupOf(sb, blk)])
    ensures blk in Used(sb, bitmap, groups) <==> blk in bitmap
  {
    assert Blocked(sb, bitmap, groups, blk) <==> blk in bitmap;
  }

  lemma NotConserved(sb: Super, bitmap: set<nat>, groups: seq<Desc>, lo: nat, hi: nat, g: nat)
    requires Geometry(sb) && |groups| == sb.groupCount && g < sb.groupCount
    requires Free(sb, groups[g]) != Clear(Used(sb, bitmap, groups), First(sb, g), End(sb, g))
    ensures !Conserved(sb, bitmap, groups, lo, hi)
  {
  }

  lemma StatsKeep(sb: Super, bitmap: set<nat>, groups: seq<Desc>, lo: nat, hi: nat, blk: nat, inuse: int, g: nat, d: Desc)
    requires Conserved(sb, bitmap, groups, lo, hi)
    requires sb.firstDataBlock <= blk < sb.blocksCount && (inuse == 1 || inuse == -1)
    requires g == GroupOf(sb, blk) < sb.groupCount && d == Accounted(sb, groups[g], inuse)
    requires var used := Used(sb, bitmap, groups);
      && (inuse > 0 <==> blk !in used)
      && Used(sb, Toggled(bitmap, blk, inuse), groups[g := d]) == Toggled(used, blk, inuse)
      && Free(sb, d) == Clear(Toggled(used, blk, inuse), First(sb, g), End(sb, g))
      && d.freeLo < HALF && d.freeHi < HALF
    ensures var (lo', hi') := SuperAdd(sb, lo, hi, -inuse);
      Conserved(sb, Toggled(bitmap, blk, inuse), groups[g := d], lo', hi')
  {
    var used, groups' := Used(sb, bitmap, groups), groups[g := d];
    hide Accounted, Free, Clear, Toggled, Used, GroupOf, First, End, SumFree;
    GroupInRange(sb, blk);
    forall h | 0 <= h < |groups'|
      ensures && groups'[h].freeLo < HALF && groups'[h].freeHi < HALF
              && Free(sb, groups'[h]) == Clear(Toggled(used, blk, inuse), First(sb, h), End(sb, h))
    {
      if h != g {
        GroupOfIff(sb, blk, h);
        EndWithin(sb, h);
        ClearToggled(used, blk, inuse, First(sb, h), End(sb, h));
      }
    }
    ClearToggled(used, blk, inuse, First(sb, g), End(sb, g));
    SumUpdated(sb, groups, g, d);
    SumFits(sb, Toggled(bitmap, blk, inuse), groups');
    SuperAddExact(sb, lo, hi, -inuse);
  }

  lemma EndWithin(sb: Super, g: nat)
    ensures End(sb, g) <= First(sb, g) + sb.blocksPerGroup
  {
  }

  lemma SumFits(sb: Super, bitmap: set<nat>, groups: seq<Desc>)
    requires Geometry(sb) && |groups| == sb.groupCount && Counted(sb, bitmap, groups)
    ensures SumFree(sb, groups) <= sb.blocksCount
  {
    hide First, End, Free, Used;
    var n, used := |groups| - 1, Used(sb, bitmap, groups);
    SumIsClear(sb, groups, used, n);
    GroupEnd(sb, n);
    ClearBound(used, sb.firstDataBlock, sb.blocksCount);
    assert groups[..n + 1] == groups;
  }

  /** The marked blocks of groups whose bitmaps have been built. */
  ghost function SettledSet(sb: Super, bitmap: set<nat>, groups: seq<Desc>): set<nat>
    requires Geometry(sb) && |groups| == sb.groupCount
  {
    set b | b in bitmap && Built(sb, groups, b)
  }

  ghost predicate Built(sb: Super, groups: seq<Desc>, b: nat)
    requires Geometry(sb) && |groups| == sb.groupCount
  {
    sb.firstDataBlock <= b < sb.blocksCount && GroupOf(sb, b) < |groups| && !Lazy(sb, groups[GroupOf(sb, b)])
  }

  lemma SettledUsed(sb: Super, bitmap: set<nat>, groups: seq<Desc>)
    requires Geometry(sb) && |groups| == sb.groupCount
    ensures SettledSet(sb, bitmap, groups) <= Used(sb, bitmap, groups)
  {
    forall b | b in bitmap && Built(sb, groups, b) ensures b in Used(sb, bitmap, groups) {
      InitialisedBit(sb, bitmap, groups, b);
    }
  }

  /** Initialising another group leaves them alone. */
  lemma SettledInit(sb: Super, groups: seq<Desc>, g: nat, before: set<nat>, after: set<nat>)
    requires Geometry(sb) && LazyInit(sb, groups, g, before, after) && First(sb, g) < WORD
    ensures SettledSet(sb, before, groups) <= SettledSet(sb, after, groups[g := groups[g].(uninit := false)])
  {
    var groups' := groups[g := groups[g].(uninit := false)];
    BaseExact(sb, g);
    hide IsMeta, First, GroupOf, Base32;
    forall b | b in before && Built(sb, groups, b) ensures b in after && Built(sb, groups', b) {
      GroupOfIff(sb, b, g);
    }
  }

  lemma SettledToggled(sb: Super, bitmap: set<nat>, groups: seq<Desc>, blk: nat, inuse: int, d: Desc)
    requires Geometry(sb) && |groups| == sb.groupCount && Built(sb, groups, blk) && !d.uninit
    ensures SettledSet(sb, Toggled(bitmap, blk, inuse), groups[GroupOf(sb, blk) := d])
         == Toggled(SettledSet(sb, bitmap, groups), blk, inuse)
  {
    hide GroupOf;
    var groups' := groups[GroupOf(sb, blk) := d];
    forall b: nat ensures Built(sb, groups', b) <==> Built(sb, groups, b) {
    }
  }

  /** Between goal and r in the cyclic order of the search. */
  predicate Passed(goal: nat, b: nat, r: nat) {
    if goal <= r then goal <= b < r else b >= goal || b < r
  }

  /** The first free block from the goal on, cyclically; a goal outside the file system means its start. */
  ghost predicate Nearest(sb: Super, used: set<nat>, goal: nat, r: nat) {
    && sb.firstDataBlock <= r < sb.blocksCount && r !in used
    && forall b | sb.firstDataBlock <= b < sb.blocksCount
                  && (var g := if sb.firstDataBlock <= goal < sb.blocksCount then goal else sb.firstDataBlock;
                      if g <= r then g <= b < r else b >= g || b < r) :: b in used
  }

  /** One of the blocks that came into use was, when it was taken as the last of them, the nearest. */
  ghost predicate TookNear(sb: Super, before: set<nat>, after: set<nat>, goal: nat) {
    exists b :: b in after && b !in before && Nearest(sb, after - {b}, goal, b)
  }

  lemma TookOne(sb: Super, before: set<nat>, goal: nat, b: nat)
    requires b !in before && Nearest(sb, before, goal, b)
    ensures TookNear(sb, before, before + {b}, goal)
  {
    assert before + {b} - {b} == before;
  }

  lemma TookMore(sb: Super, before: set<nat>, middle: set<nat>, after: set<nat>, goal: nat)
    requires before <= middle && TookNear(sb, middle, after, goal)
    ensures TookNear(sb, before, after, goal)
  {
    hide Nearest;
  }

  class Blocks {
    const sb: Super
    var bitmap: set<nat>
    var groups: seq<Desc>
    var freeLo: nat
    var freeHi: nat

    ghost predicate Valid()
      reads this
    {
      && Geometry(sb) && |groups| == sb.groupCount
      && (forall b | b in bitmap :: sb.firstDataBlock <= b < sb.blocksCount)
      // the 32-bit product in check_block_uninit
      && (forall g | 0 <= g < |groups| && Lazy(sb, groups[g]) :: First(sb, g) < WORD)
    }

    /** The abstract state: the blocks in use, whether or not their group has a bitmap yet. */
    ghost function InUse(): set<nat>
      requires Valid()
      reads this
    {
      Used(sb, bitmap, groups)
    }

    /** Of these, the ones that releasing another block cannot affect. */
    ghost function Settled(): set<nat>
      requires Valid()
      reads this
    {
      SettledSet(sb, bitmap, groups)
    }

    /** How many blocks an allocation may still hand out. */
    ghost function FreeBlocks(): nat
      requires Valid()
      reads this
    {
      Clear(InUse(), sb.firstDataBlock, sb.blocksCount)
    }

    lemma SettledInUse()
      requires Valid()
      ensures Settled() <= InUse()
    {
      SettledUsed(sb, bitmap, groups);
    }

    ghost predicate Balanced()
      reads this
    {
      Conserved(sb, bitmap, groups, freeLo, freeHi)
    }

    /** Only uninit flags have been cleared. */
    static ghost predicate OnlyInitialised(before: seq<Desc>, after: seq<Desc>) {
      |before| == |after| && forall g | 0 <= g < |before| :: after[g] == before[g] || after[g] == before[g].(uninit := false)
    }

    constructor (sb: Super, bitmap: set<nat>, groups: seq<Desc>, freeLo: nat, freeHi: nat)
      requires Geometry(sb) && |groups| == sb.groupCount
      requires forall b | b in bitmap :: sb.firstDataBlock <= b < sb.blocksCount
      requires forall g | 0 <= g < |groups| && Lazy(sb, groups[g]) :: First(sb, g) < WORD
      ensures Valid() && this.sb == sb && this.bitmap == bitmap && this.groups == groups
      ensures this.freeLo == freeLo && this.freeHi == freeHi
    {
      this.sb, this.bitmap, this.groups, this.freeLo, this.freeHi := sb, bitmap, groups, freeLo, freeHi;
    }

    /** Marks outside the bitmap's range are ignored. */
    method FastUnmark(b: nat)
      modifies this`bitmap
      ensures bitmap == if sb.firstDataBlock <= b < sb.blocksCount then old(bitmap) - {b} else old(bitmap)
    {
      if sb.firstDataBlock <= b < sb.blocksCount {
        bitmap := bitmap - {b};
      }
    }

    method FastMark(b: nat)
      modifies this`bitmap
      ensures bitmap == if sb.firstDataBlock <= b < sb.blocksCount then old(bitmap) + {b} else old(bitmap)
    {
      if sb.firstDataBlock <= b < sb.blocksCount {
        bitmap := bitmap + {b};
      }
    }

    /** The two loops of check_block_uninit. */
    method Rebuild(group: nat)
      requires sb.descPerBlock > 0 && group < |groups|
      modifies this`bitmap
      ensures Rebuilt(sb, groups[group], group, old(bitmap), bitmap)
    {
      hide MetaTest, SuperAndDesc, Base32;
      var blk := Base32(sb, group);
      var loc := SuperAndBgdLoc(sb, group);
      for i := 0 to sb.blocksPerGroup
        invariant blk == Base32(sb, group) + i
        invariant forall b: nat :: b in bitmap <==>
          b in old(bitmap) && !(sb.firstDataBlock <= b < sb.blocksCount && Base32(sb, group) <= b < blk)
      {
        FastUnmark(blk);
        blk := blk + 1;
      }
      blk := Base32(sb, group);
      for i := 0 to sb.blocksPerGroup
        invariant blk == Base32(sb, group) + i
        invariant forall b: nat :: b in bitmap <==>
          if sb.firstDataBlock <= b < sb.blocksCount && Base32(sb, group) <= b < Base32(sb, group) + sb.blocksPerGroup
          then b < blk && MetaTest(sb, loc, groups[group], b) else b in old(bitmap)
      {
        if MetaTest(sb, loc, groups[group], blk) {
          FastMark(blk);
        }
        blk := blk + 1;
      }
    }

    /** The blocks of a group without a bitmap that are in use. */
    lemma LazyUse(group: nat, b: nat)
      requires Valid() && group < |groups| && sb.gdtCsum && groups[group].uninit && First(sb, group) <= b < End(sb, group)
      ensures b in InUse() <==>
        || MetaStart(sb, group) <= b < MetaStart(sb, group) + SuperAndDesc(sb, group).used
        || b == groups[group].blockBitmap || b == groups[group].inodeBitmap
        || groups[group].inodeTable <= b < groups[group].inodeTable + sb.inodeBlocksPerGroup
      ensures !sb.metaBg ==> (b in InUse() <==>
        || (SparseSuper.HasSuper(sb.sparse, group) && MetaStart(sb, group) <= b <= MetaStart(sb, group) + sb.descBlocks + sb.reservedGdt)
        || b == groups[group].blockBitmap || b == groups[group].inodeBitmap
        || groups[group].inodeTable <= b < groups[group].inodeTable + sb.inodeBlocksPerGroup)
    {
      hide SparseSuper.HasSuper, End, First, MetaStart, SuperAndDesc, IsMeta, GroupOf;
      GroupEnd(sb, group);
      EndWithin(sb, group);
      GroupOfIff(sb, b, group);
      MetaTestExact(sb, groups[group], group, b);
      MetaWhole(sb, groups[group], group, b);
      assert Blocked(sb, bitmap, groups, b) <==> IsMeta(sb, groups[group], group, b);
    }

    /** In any other group the bitmap says it. */
    lemma BuiltUse(b: nat)
      requires Valid() && sb.firstDataBlock <= b < sb.blocksCount
      ensures sb.blocksPerGroup > 0 && GroupOf(sb, b) < |groups|
      ensures !(sb.gdtCsum && groups[GroupOf(sb, b)].uninit) ==> (b in InUse() <==> b in bitmap)
    {
      GroupInRange(sb, b);
      if !Lazy(sb, groups[GroupOf(sb, b)]) {
        InitialisedBit(sb, bitmap, groups, b);
      }
    }

    /** check_block_uninit: the blocks of the group that were in use are the ones marked afterwards. */
    method CheckBlockUninit(group: nat)
      requires Valid() && group < |groups|
      modifies this`bitmap, this`groups
      ensures Valid() && InUse() == old(InUse()) && old(Settled()) <= Settled()
      ensures !Lazy(sb, groups[group]) && OnlyInitialised(old(groups), groups)
      ensures forall g | 0 <= g < |groups| && g != group :: groups[g] == old(groups[g])
      ensures old(Lazy(sb, groups[group])) ==> forall b | First(sb, group) <= b < End(sb, group) ::
        b in InUse() <==>
          || MetaStart(sb, group) <= b < MetaStart(sb, group) + SuperAndDesc(sb, group).used
          || b == groups[group].blockBitmap || b == groups[group].inodeBitmap
          || groups[group].inodeTable <= b < groups[group].inodeTable + sb.inodeBlocksPerGroup
      ensures old(Lazy(sb, groups[group])) && !sb.metaBg && SparseSuper.HasSuper(sb.sparse, group) ==>
        forall b | MetaStart(sb, group) <= b <= MetaStart(sb, group) + sb.descBlocks + sb.reservedGdt && b < End(sb, group) :: b in InUse()
    {
      hide Used, First, SettledSet, End, MetaStart, SuperAndDesc, SparseSuper.HasSuper;
      StartsWithSuper(sb, group);
      forall b | First(sb, group) <= b < End(sb, group) && Lazy(sb, groups[group])
        ensures b in InUse() <==>
          || MetaStart(sb, group) <= b < MetaStart(sb, group) + SuperAndDesc(sb, group).used
          || b == groups[group].blockBitmap || b == groups[group].inodeBitmap
          || groups[group].inodeTable <= b < groups[group].inodeTable + sb.inodeBlocksPerGroup
        ensures !sb.metaBg && SparseSuper.HasSuper(sb.sparse, group) ==>
          b <= MetaStart(sb, group) + sb.descBlocks + sb.reservedGdt && MetaStart(sb, group) <= b ==> b in InUse()
      {
        LazyUse(group, b);
      }
      if !sb.gdtCsum || !groups[group].uninit {
        return;
      }
      Rebuild(group);
      InitKeepsUsed(sb, old(bitmap), bitmap, groups, group);
      SettledInit(sb, groups, group, old(bitmap), bitmap);
      groups := groups[group := groups[group].(uninit := false)];
    }

    /** ext2fs_new_block2: the first free block at or cyclically after the goal. */
    method NewBlock(goal0: nat) returns (ok: bool, ret: nat)
      requires Valid()
      modifies this`bitmap, this`groups
      ensures Valid() && InUse() == old(InUse()) && old(Settled()) <= Settled() && OnlyInitialised(old(groups), groups)
      ensures ok ==> && sb.firstDataBlock <= ret < sb.blocksCount && ret !in InUse() && ret !in bitmap
                     && GroupOf(sb, ret) < sb.groupCount && !Lazy(sb, groups[GroupOf(sb, ret)])
      ensures ok ==> var g := if sb.firstDataBlock <= goal0 < sb.blocksCount then goal0 else sb.firstDataBlock;
        forall b | sb.firstDataBlock <= b < sb.blocksCount && (if g <= ret then g <= b < ret else b >= g || b < ret) :: b in InUse()
      ensures !ok ==> forall b | sb.firstDataBlock <= b < sb.blocksCount :: b in InUse()
    {
      hide Used, First, GroupOf, GroupStart, Geometry, SettledSet;
      InRange();
      var goal := goal0;
      if goal == 0 || goal >= sb.blocksCount {
        goal := sb.firstDataBlock;
      }
      var i := goal;
      GroupInRange(sb, i);
      CheckBlockUninit(GroupOf(sb, i));
      while true
        invariant Valid() && InUse() == old(InUse()) && old(Settled()) <= Settled() && OnlyInitialised(old(groups), groups)
        invariant sb.firstDataBlock <= i < sb.blocksCount
        invariant GroupOf(sb, i) < |groups| && (GroupStart(sb, i) || !Lazy(sb, groups[GroupOf(sb, i)]))
        invariant forall b | sb.firstDataBlock <= b < sb.blocksCount && Passed(goal, b, i) :: b in InUse()
        decreases if i >= goal then sb.blocksCount - i + goal - sb.firstDataBlock else goal - i
      {
        if GroupStart(sb, i) {
          CheckBlockUninit(GroupOf(sb, i));
        }
        InitialisedBit(sb, bitmap, groups, i);
        if i !in bitmap {
          return true, i;
        }
        NextGroup(sb, i);
        i := i + 1;
        if i >= sb.blocksCount {
          i := sb.firstDataBlock;
        }
        GroupInRange(sb, i);
        if i == goal {
          break;
        }
      }
      return false, 0;
    }

    lemma InRange()
      requires Valid()
      ensures sb.firstDataBlock <= 1 && sb.firstDataBlock < sb.blocksCount && sb.blocksPerGroup > 0
    {
      FirstZero(sb);
      FirstMono(sb, 0, sb.groupCount - 1);
    }

    /** ext2fs_block_alloc_stats2 */
    method AllocStats(blk: nat, inuse: int)
      requires Valid() && sb.firstDataBlock <= blk && (inuse == 1 || inuse == -1)
      modifies this
      ensures Valid()
      ensures blk >= sb.blocksCount ==> bitmap == old(bitmap) && groups == old(groups) && freeLo == old(freeLo) && freeHi == old(freeHi)
      ensures blk < sb.blocksCount ==>
        && GroupOf(sb, blk) < |groups|
        && bitmap == Toggled(old(bitmap), blk, inuse)
        && groups == old(groups)[GroupOf(sb, blk) := Accounted(sb, old(groups)[GroupOf(sb, blk)], inuse)]
        && (freeLo, freeHi) == SuperAdd(sb, old(freeLo), old(freeHi), -inuse)
        && !groups[GroupOf(sb, blk)].uninit
    {
      hide First, GroupOf;
      if blk >= sb.blocksCount {
        return;
      }
      GroupInRange(sb, blk);
      var group := GroupOf(sb, blk);
      bitmap := if inuse > 0 then bitmap + {blk} else bitmap - {blk};
      groups := groups[group := SetFree(sb, groups[group], (Free(sb, groups[group]) - inuse) % WORD)];
      groups := groups[group := groups[group].(uninit := false)];
      var (lo, hi) := SuperAdd(sb, freeLo, freeHi, -inuse);
      freeLo, freeHi := lo, hi;
    }

    /** The bookkeeping half of ext2fs_alloc_block2: find a block, then account for it. */
    method Allocate(goal: nat) returns (ok: bool, blk: nat)
      requires Valid()
      modifies this
      ensures Valid() && (old(Balanced()) ==> Balanced())
      ensures ok ==> sb.firstDataBlock <= blk < sb.blocksCount && blk !in old(InUse()) && InUse() == old(InUse()) + {blk}
      ensures old(Settled()) <= Settled() && (ok ==> blk in Settled() && Nearest(sb, old(InUse()), goal, blk))
      ensures !ok ==> InUse() == old(InUse()) && forall b | sb.firstDataBlock <= b < sb.blocksCount :: b in InUse()
      ensures if ok then FreeBlocks() + 1 == old(FreeBlocks()) else FreeBlocks() == old(FreeBlocks()) == 0
    {
      hide Used, First, GroupOf, Conserved, Accounted, Geometry, SettledSet, Clear;
      ok, blk := NewBlock(goal);
      KeepsBalance(sb, old(bitmap), bitmap, old(groups), groups, freeLo, freeHi);
      if ok {
        ClearAdd(InUse(), blk, sb.firstDataBlock, sb.blocksCount);
        StatsKeepBalance(blk, 1);
        AllocStats(blk, 1);
      } else {
        ClearNone(InUse(), sb.firstDataBlock, sb.blocksCount);
      }
    }

    lemma StatsKeepBalance(blk: nat, inuse: int)
      requires Valid() && sb.firstDataBlock <= blk < sb.blocksCount && (inuse == 1 || inuse == -1)
      requires GroupOf(sb, blk) < sb.groupCount && !Lazy(sb, groups[GroupOf(sb, blk)]) && (inuse > 0 <==> blk !in bitmap)
      ensures Balanced() ==>
        var (lo, hi) := SuperAdd(sb, freeLo, freeHi, -inuse);
        Conserved(sb, Toggled(bitmap, blk, inuse), groups[GroupOf(sb, blk) := Accounted(sb, groups[GroupOf(sb, blk)], inuse)], lo, hi)
      ensures Used(sb, Toggled(bitmap, blk, inuse), groups[GroupOf(sb, blk) := Accounted(sb, groups[GroupOf(sb, blk)], inuse)])
           == Toggled(InUse(), blk, inuse)
      ensures SettledSet(sb, Toggled(bitmap, blk, inuse), groups[GroupOf(sb, blk) := Accounted(sb, groups[GroupOf(sb, blk)], inuse)])
           == Toggled(Settled(), blk, inuse)
    {
      SettledToggled(sb, bitmap, groups, blk, inuse, Accounted(sb, groups[GroupOf(sb, blk)], inuse));
      UsedToggled(sb, bitmap, groups, blk, inuse, Accounted(sb, groups[GroupOf(sb, blk)], inuse));
      if Balanced() {
        StatsConserve(sb, bitmap, groups, freeLo, freeHi, blk, inuse);
      }
    }

    lemma SettledFacts(blk: nat)
      requires Valid() && blk in Settled()
      ensures sb.firstDataBlock <= blk < sb.blocksCount && blk in bitmap && sb.blocksPerGroup > 0
      ensures GroupOf(sb, blk) < |groups| && !Lazy(sb, groups[GroupOf(sb, blk)])
    {
    }

    lemma SettledIff(blk: nat)
      requires Valid()
      ensures blk in Settled() <==> blk in bitmap && Built(sb, groups, blk)
      ensures sb.blocksPerGroup > 0
    {
    }

    /** Freeing a block in use, in a group whose bitmap has been built. */
    method Release(blk: nat)
      requires Valid() && sb.firstDataBlock <= blk < sb.blocksCount && blk in bitmap
      requires GroupOf(sb, blk) < |groups| && !Lazy(sb, groups[GroupOf(sb, blk)])
      modifies this
      ensures Valid() && (old(Balanced()) ==> Balanced())
      ensures InUse() == old(InUse()) - {blk} && Settled() == old(Settled()) - {blk}
      ensures FreeBlocks() == old(FreeBlocks()) + 1
    {
      hide Used, First, GroupOf, Conserved, Accounted, Geometry, SettledSet, Clear;
      InitialisedBit(sb, bitmap, groups, blk);
      ClearAdd(InUse() - {blk}, blk, sb.firstDataBlock, sb.blocksCount);
      assert InUse() - {blk} + {blk} == InUse();
      StatsKeepBalance(blk, -1);
      AllocStats(blk, -1);
    }
  }

  /** Lazy initialisation keeps the counters right: they already counted the metadata. */
  lemma KeepsBalance(sb: Super, b1: set<nat>, b2: set<nat>, g1: seq<Desc>, g2: seq<Desc>, lo: nat, hi: nat)
    requires Geometry(sb) && |g1| == |g2| == sb.groupCount
    requires Used(sb, b1, g1) == Used(sb, b2, g2) && Blocks.OnlyInitialised(g1, g2)
    ensures Conserved(sb, b1, g1, lo, hi) ==> Conserved(sb, b2, g2, lo, hi)
  {
    hide Used, First, End, Clear;
    SumSame(sb, g1, g2);
  }

  lemma {:induction false} SumSame(sb: Super, g1: seq<Desc>, g2: seq<Desc>)
    requires Blocks.OnlyInitialised(g1, g2)
    ensures SumFree(sb, g1) == SumFree(sb, g2)
  {
    if g1 != [] {
      SumSame(sb, g1[..|g1| - 1], g2[..|g2| - 1]);
    }
  }

  datatype Step = AllocateStep(goal: nat) | ReleaseStep(blk: nat)

  datatype Reply = Handled(blk: nat) | Refused

  /** What one step of a run may do to the blocks in use: an allocation hands out a block that was
      free at that moment, or fails with none left; a release frees its block, unless that is not in
      use or its group has no bitmap yet.  `built` are the blocks in use of groups with a bitmap. */
  ghost predicate Moved(sb: Super, before: set<nat>, built: set<nat>, step: Step, out: Reply, after: set<nat>, built': set<nat>) {
    match step
    case AllocateStep(goal) =>
      && built <= built'
      && if out.Handled? then
           sb.firstDataBlock <= out.blk < sb.blocksCount && out.blk !in before && after == before + {out.blk} && out.blk in built'
         else after == before && forall b | sb.firstDataBlock <= b < sb.blocksCount :: b in before
    case ReleaseStep(blk) =>
      if blk in built then out == Handled(blk) && blk in before && after == before - {blk} && built' == built - {blk}
      else out == Refused && after == before && built' == built
  }

  /** Any run of allocations, and of releases of blocks in use, keeps every counter equal to the
      clear bits it stands for, and never hands out a block in use. */
  method Run(fs: Blocks, steps: seq<Step>) returns (out: seq<Reply>, ghost states: seq<set<nat>>, ghost builts: seq<set<nat>>)
    requires fs.Valid() && fs.Balanced()
    modifies fs
    ensures fs.Valid() && fs.Balanced()
    ensures SuperFree(fs.sb, fs.freeLo, fs.freeHi) == Clear(fs.InUse(), fs.sb.firstDataBlock, fs.sb.blocksCount)
    ensures |out| == |steps| && |states| == |steps| + 1
    ensures states[0] == old(fs.InUse()) && states[|steps|] == fs.InUse()
    ensures |builts| == |steps| + 1 && builts[0] == old(fs.Settled())
    ensures forall i | 0 <= i < |steps| :: Moved(fs.sb, states[i], builts[i], steps[i], out[i], states[i + 1], builts[i + 1])
  {
    hide Used, Conserved, Geometry, First, GroupOf, SettledSet;
    out, states, builts := [], [fs.InUse()], [fs.Settled()];
    for i := 0 to |steps|
      invariant fs.Valid() && fs.Balanced()
      invariant |out| == i && |states| == i + 1 && states[0] == old(fs.InUse()) && states[i] == fs.InUse()
      invariant |builts| == i + 1 && builts[0] == old(fs.Settled()) && builts[i] == fs.Settled()
      invariant forall j | 0 <= j < i :: Moved(fs.sb, states[j], builts[j], steps[j], out[j], states[j + 1], builts[j + 1])
    {
      var o := Perform(fs, steps[i]);
      out, states, builts := out + [o], states + [fs.InUse()], builts + [fs.Settled()];
    }
    SuperIsClear(fs.sb, fs.bitmap, fs.groups, fs.freeLo, fs.freeHi);
  }

  method Perform(fs: Blocks, step: Step) returns (out: Reply)
    requires fs.Valid() && fs.Balanced()
    modifies fs
    ensures fs.Valid() && fs.Balanced() && Moved(fs.sb, old(fs.InUse()), old(fs.Settled()), step, out, fs.InUse(), fs.Settled())
  {
    hide Used, Conserved, Geometry, First, GroupOf, SettledSet;
    match step {
      case AllocateStep(goal) =>
        var ok, blk := fs.Allocate(goal);
        return if ok then Handled(blk) else Refused;
      case ReleaseStep(blk) =>
        fs.InRange();
        fs.SettledIff(blk);
        if fs.sb.firstDataBlock <= blk < fs.sb.blocksCount && blk in fs.bitmap {
          GroupInRange(fs.sb, blk);
          if !Lazy(fs.sb, fs.groups[GroupOf(fs.sb, blk)]) {
            InitialisedBit(fs.sb, fs.bitmap, fs.groups, blk);
            fs.Release(blk);
            return Handled(blk);
          }
        }
        return Refused;
    }
  }
}
