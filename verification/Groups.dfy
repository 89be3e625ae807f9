/**
 Block groups: their geometry and split counters (source/blknum.c), where their metadata lies
 (source/closefs.c), lazy initialisation of block bitmaps and the cyclic search for a free block
 (source/alloc.c), and the allocation statistics (source/alloc_stats.c).
 */
module Groups {
  import SparseSuper

  const WORD: nat := 0x1_0000_0000
  const DWORD: nat := 0x1_0000_0000_0000_0000
  const HALF: nat := 0x1_0000

  datatype Super = Super(
    firstDataBlock: nat, blocksPerGroup: nat, blocksCount: nat, groupCount: nat, blocksize: nat,
    is64: bool, gdtCsum: bool, metaBg: bool, sparse: bool,
    firstMetaBg: nat, descBlocks: nat, reservedGdt: nat, descPerBlock: nat, inodeBlocksPerGroup: nat)

  datatype Desc = Desc(freeLo: nat, freeHi: nat, uninit: bool, blockBitmap: nat, inodeBitmap: nat, inodeTable: nat)

  // ---------- Geometry ----------

  /** ext2fs_group_of_blk2 */
  function GroupOf(sb: Super, b: nat): nat
    requires sb.blocksPerGroup > 0 && sb.firstDataBlock <= b
  {
    (b - sb.firstDataBlock) / sb.blocksPerGroup
  }

  /** ext2fs_group_first_block2 */
  function First(sb: Super, g: nat): nat {
    sb.firstDataBlock + g * sb.blocksPerGroup
  }

  /** ext2fs_group_last_block2 */
  function Last(sb: Super, g: nat): int {
    if g == sb.groupCount - 1 then sb.blocksCount - 1 else First(sb, g) + (sb.blocksPerGroup - 1)
  }

  /** ext2fs_group_blocks_count */
  function BlocksIn(sb: Super, g: nat): nat
    requires sb.blocksPerGroup > 0 && sb.firstDataBlock <= sb.blocksCount
  {
    if g == sb.groupCount - 1 then
      var n := (sb.blocksCount - sb.firstDataBlock) % sb.blocksPerGroup;
      if n == 0 then sb.blocksPerGroup else n
    else sb.blocksPerGroup
  }

  /** One past the last block of a group. */
  function End(sb: Super, g: nat): nat {
    if First(sb, g) + sb.blocksPerGroup <= sb.blocksCount then First(sb, g) + sb.blocksPerGroup else sb.blocksCount
  }

  /** groupCount is the block count divided by the group size, rounded up; the counters' fields
      are wide enough for the geometry. */
  ghost predicate Geometry(sb: Super) {
    && sb.blocksPerGroup > 0 && sb.groupCount > 0 && sb.descPerBlock > 0
    && sb.firstDataBlock <= 1
    && First(sb, sb.groupCount - 1) < sb.blocksCount <= First(sb, sb.groupCount)
    && (if sb.is64 then sb.blocksPerGroup < WORD && sb.blocksCount < DWORD
        else sb.blocksPerGroup < HALF && sb.blocksCount < WORD)
  }

  lemma FirstNext(sb: Super, g: nat)
    ensures First(sb, g + 1) == First(sb, g) + sb.blocksPerGroup
  {
    assert (g + 1) * sb.blocksPerGroup == g * sb.blocksPerGroup + sb.blocksPerGroup;
  }

  lemma FirstMono(sb: Super, g: nat, h: nat)
    requires g <= h
    ensures First(sb, g) <= First(sb, h)
  {
    Mono(g, h, sb.blocksPerGroup);
  }

  lemma Mono(x: nat, y: nat, n: nat)
    requires x <= y
    ensures x * n <= y * n
  {
  }

  lemma DivFacts(x: nat, n: nat)
    requires n > 0
    ensures x / n * n <= x < x / n * n + n
  {
    assert x == n * (x / n) + x % n;
  }

  /** Group g is exactly the blocks [First(g), First(g) + blocksPerGroup). */
  lemma GroupOfIff(sb: Super, b: nat, g: nat)
    requires sb.blocksPerGroup > 0 && sb.firstDataBlock <= b
    ensures GroupOf(sb, b) == g <==> First(sb, g) <= b < First(sb, g) + sb.blocksPerGroup
  {
    var h := GroupOf(sb, b);
    DivFacts(b - sb.firstDataBlock, sb.blocksPerGroup);
    FirstNext(sb, h);
    FirstNext(sb, g);
    hide First;
    if h < g {
      FirstMono(sb, h + 1, g);
    } else if g < h {
      FirstMono(sb, g + 1, h);
    }
  }

  predicate GroupStart(sb: Super, b: nat)
    requires sb.blocksPerGroup > 0 && sb.firstDataBlock <= b
  {
    (b - sb.firstDataBlock) % sb.blocksPerGroup == 0
  }

  /** Walking forward, the group changes only at a group start. */
  lemma NextGroup(sb: Super, b: nat)
    requires sb.blocksPerGroup > 0 && sb.firstDataBlock <= b
    ensures !GroupStart(sb, b + 1) ==> GroupOf(sb, b + 1) == GroupOf(sb, b)
    ensures GroupStart(sb, sb.firstDataBlock)
  {
    if GroupOf(sb, b + 1) != GroupOf(sb, b) {
      GroupOfIff(sb, b, GroupOf(sb, b));
      GroupOfIff(sb, b + 1, GroupOf(sb, b));
      FirstNext(sb, GroupOf(sb, b));
      ModMul(GroupOf(sb, b) + 1, sb.blocksPerGroup);
    }
  }

  lemma GroupInRange(sb: Super, b: nat)
    requires Geometry(sb) && sb.firstDataBlock <= b < sb.blocksCount
    ensures GroupOf(sb, b) < sb.groupCount
    ensures First(sb, GroupOf(sb, b)) <= b < End(sb, GroupOf(sb, b))
  {
    var g := GroupOf(sb, b);
    GroupOfIff(sb, b, g);
    if g >= sb.groupCount {
      FirstMono(sb, sb.groupCount, g);
    }
  }

  lemma GroupEnd(sb: Super, g: nat)
    requires Geometry(sb) && g < sb.groupCount
    ensures sb.firstDataBlock <= First(sb, g) < End(sb, g) <= sb.blocksCount
    ensures g + 1 < sb.groupCount ==> End(sb, g) == First(sb, g + 1)
    ensures g + 1 == sb.groupCount ==> End(sb, g) == sb.blocksCount
  {
    FirstNext(sb, g);
    FirstMono(sb, g, sb.groupCount - 1);
    if g + 1 < sb.groupCount {
      FirstMono(sb, g + 1, sb.groupCount - 1);
    }
  }

  /** The three group functions of blknum.c agree: last - first + 1 is the block count. */
  lemma GroupSize(sb: Super, g: nat)
    requires Geometry(sb) && g < sb.groupCount
    ensures Last(sb, g) == End(sb, g) - 1
    ensures BlocksIn(sb, g) == Last(sb, g) - First(sb, g) + 1
  {
    GroupEnd(sb, g);
    if g == sb.groupCount - 1 {
      var x, n := sb.blocksCount - sb.firstDataBlock, sb.blocksPerGroup;
      assert g * n < x <= (g + 1) * n;
      LastRemainder(x, n, g);
    } else {
      FirstNext(sb, g);
    }
  }

  lemma LastRemainder(x: nat, n: nat, g: nat)
    requires n > 0 && g * n < x <= (g + 1) * n
    ensures x - g * n == if x % n == 0 then n else x % n
  {
    var q := x / n;
    assert x == q * n + x % n;
    assert (g + 1) * n == g * n + n;
    if q > g {
      Mono(g + 1, q, n);
      assert x == (g + 1) * n;
      ModMul(g + 1, n);
    } else if q < g {
      Mono(q + 1, g, n);
    }
  }

  lemma ModMul(q: nat, n: nat)
    requires n > 0
    ensures (q * n) % n == 0
  {
    var d := q * n / n;
    assert q * n == d * n + q * n % n;
    if d > q {
      Mono(q + 1, d, n);
    }
    if d < q {
      Mono(d + 1, q, n);
    }
  }

  // ---------- Counters kept in two halves ----------

  /** ext2fs_bg_free_blocks_count */
  function Free(sb: Super, d: Desc): nat {
    d.freeLo + if sb.is64 then d.freeHi * HALF else 0
  }

  /** ext2fs_bg_free_blocks_count_set; the fields keep 16 bits each. */
  function SetFree(sb: Super, d: Desc, n: nat): Desc {
    d.(freeLo := n % HALF, freeHi := if sb.is64 then n / HALF % HALF else d.freeHi)
  }

  lemma SetFreeExact(sb: Super, d: Desc, n: nat)
    requires d.freeLo < HALF && d.freeHi < HALF
    ensures Free(sb, SetFree(sb, d, n)) == n <==> n < if sb.is64 then WORD else HALF
    ensures Free(sb, d) == d.freeLo + (if sb.is64 then 0x1_0000 * d.freeHi else 0)
  {
  }

  /** ext2fs_free_blocks_count */
  function SuperFree(sb: Super, lo: nat, hi: nat): nat {
    lo + if sb.is64 then hi * WORD else 0
  }

  /** ext2fs_free_blocks_count_add: 64-bit addition of a two's-complement delta, stored in halves. */
  function SuperAdd(sb: Super, lo: nat, hi: nat, delta: int): (nat, nat) {
    var tmp := (SuperFree(sb, lo, hi) + delta) % DWORD;
    (tmp % WORD, if sb.is64 then tmp / WORD % WORD else hi)
  }

  lemma SuperAddExact(sb: Super, lo: nat, hi: nat, delta: int)
    requires lo < WORD && hi < WORD
    requires 0 <= SuperFree(sb, lo, hi) + delta < if sb.is64 then DWORD else WORD
    ensures var (l, h) := SuperAdd(sb, lo, hi, delta);
      l < WORD && h < WORD && SuperFree(sb, l, h) == SuperFree(sb, lo, hi) + delta
      && SuperFree(sb, l, h) == l + (if sb.is64 then 0x1_0000_0000 * h else 0)
  {
    var tmp := SuperFree(sb, lo, hi) + delta;
    assert tmp % DWORD == tmp;
    assert tmp == tmp / WORD * WORD + tmp % WORD;
  }

  // ---------- Metadata inside a group ----------

  /** What ext2fs_super_and_bgd_loc2 reports; zero stands for "none". */
  datatype MetaLoc = MetaLoc(superBlk: nat, oldDescBlk: nat, newDescBlk: nat, used: nat)

  function OldDescBlocks(sb: Super): nat {
    if sb.metaBg then sb.firstMetaBg else sb.descBlocks + sb.reservedGdt
  }

  /** The first block of a group that may hold metadata: block 0 of 1024 bytes is left to the boot loader. */
  function MetaStart(sb: Super, g: nat): nat {
    if First(sb, g) == 0 && sb.blocksize == 1024 then 1 else First(sb, g)
  }

  ghost function SuperAndDesc(sb: Super, g: nat): MetaLoc
    requires sb.descPerBlock > 0
  {
    var first := MetaStart(sb, g);
    var super := SparseSuper.HasSuper(sb.sparse, g);
    var n0 := if super then 1 else 0;
    var r := g % sb.descPerBlock;
    if !sb.metaBg || g / sb.descPerBlock < sb.firstMetaBg then
      MetaLoc(if super then first else 0, if super then first + 1 else 0, 0, n0 + if super then OldDescBlocks(sb) else 0)
    else if r == 0 || r == 1 || r == sb.descPerBlock - 1 then
      MetaLoc(if super then first else 0, 0, first + n0, n0 + 1)
    else
      MetaLoc(if super then first else 0, 0, 0, n0)
  }

  /** The blocks that the locations of a group stand for: the superblock copy in a group that has
      one, the old descriptors with their reserve, and the descriptor block of a meta group. */
  ghost function MetaBlocks(sb: Super, g: nat, loc: MetaLoc): set<nat> {
    (if SparseSuper.HasSuper(sb.sparse, g) then {loc.superBlk} else {})
    + (if loc.oldDescBlk == 0 then {} else Range(loc.oldDescBlk, OldDescBlocks(sb)))
    + (if loc.newDescBlk == 0 then {} else {loc.newDescBlk})
  }

  /** The n blocks from lo on. */
  ghost function Range(lo: nat, n: nat): (r: set<nat>)
    ensures |r| == n && forall b :: b in r <==> lo <= b < lo + n
  {
    if n == 0 then {} else Range(lo, n - 1) + {lo + n - 1}
  }

  lemma StartsWithSuper(sb: Super, g: nat)
    requires Geometry(sb) && g < sb.groupCount
    ensures First(sb, g) <= MetaStart(sb, g) <= End(sb, g)
    ensures First(sb, g) == 0 || MetaStart(sb, g) == 0 ==> SparseSuper.HasSuper(sb.sparse, g)
  {
    GroupEnd(sb, g);
    if g > 0 {
      Mono(1, g, sb.blocksPerGroup);
    }
  }

  lemma MetaIsRange(sb: Super, g: nat)
    requires sb.descPerBlock > 0 && (MetaStart(sb, g) == 0 ==> SparseSuper.HasSuper(sb.sparse, g))
    ensures MetaBlocks(sb, g, SuperAndDesc(sb, g)) == Range(MetaStart(sb, g), SuperAndDesc(sb, g).used)
  {
    hide SparseSuper.HasSuper, First, MetaStart, OldDescBlocks;
  }

  /** The reported blocks are consecutive from the start of the group, the superblock copy first;
      `used` is their number, so that they lie in the group exactly when so many fit. */
  lemma MetaLocated(sb: Super, g: nat)
    requires Geometry(sb) && g < sb.groupCount
    ensures var loc := SuperAndDesc(sb, g);
      && MetaBlocks(sb, g, loc) == Range(MetaStart(sb, g), loc.used)
      && |MetaBlocks(sb, g, loc)| == loc.used
      && (SparseSuper.HasSuper(sb.sparse, g) ==> loc.superBlk == MetaStart(sb, g))
      && ((forall b | b in MetaBlocks(sb, g, loc) :: First(sb, g) <= b < End(sb, g))
          <==> MetaStart(sb, g) + loc.used <= End(sb, g))
  {
    hide SparseSuper.HasSuper, End, First, MetaStart, OldDescBlocks, MetaBlocks;
    StartsWithSuper(sb, g);
    MetaIsRange(sb, g);
    var loc, s := SuperAndDesc(sb, g), MetaStart(sb, g);
    if s + loc.used > End(sb, g) {
      assert s + loc.used - 1 in Range(s, loc.used);
    }
  }

  lemma BelowMeta(g: nat, m: nat, n: nat)
    requires n > 0
    ensures g / n < m <==> g < m * n
  {
    DivFacts(g, n);
    if g / n < m {
      Mono(g / n + 1, m, n);
    } else {
      Mono(m, g / n, n);
    }
  }

  /** The first, second and last group of a meta group of n groups. */
  lemma MetaEdge(g: nat, n: nat)
    requires n > 0
    ensures g % n == 0 || g % n == 1 || g % n == n - 1 <==>
      exists m: nat {:trigger m * n} :: g == m * n || g == m * n + 1 || g == m * n + (n - 1)
  {
    var q := g / n;
    assert g == q * n + g % n;
    if g % n == 0 || g % n == 1 || g % n == n - 1 {
      assert g == q * n || g == q * n + 1 || g == q * n + (n - 1);
    }
    if m: nat {:trigger m * n} :| g == m * n || g == m * n + 1 || g == m * n + (n - 1) {
      if n == 1 {
        assert g % n == 0;
      } else {
        RemainderIs(g, m, g - m * n, n);
      }
    }
  }

  lemma RemainderIs(x: nat, q: nat, r: nat, n: nat)
    requires x == q * n + r && r < n
    ensures x % n == r
  {
    var p := x / n;
    assert x == p * n + x % n;
    if p < q {
      Mono(p + 1, q, n);
    } else if q < p {
      Mono(q + 1, p, n);
    }
  }

  /** How much there is: without meta groups, and in the groups before them, a superblock copy is followed
      by all descriptors; beyond them the first, second and last group of each has one block of its own,
      behind the copy if there is one. */
  lemma MetaCount(sb: Super, g: nat)
    requires sb.descPerBlock > 0
    ensures var copy, loc := SparseSuper.HasSuper(sb.sparse, g), SuperAndDesc(sb, g);
      var start := if sb.firstDataBlock + g * sb.blocksPerGroup == 0 && sb.blocksize == 1024 then 1 else sb.firstDataBlock + g * sb.blocksPerGroup;
      && MetaStart(sb, g) == start && loc.superBlk == (if copy then start else 0)
      && (!sb.metaBg ==>
            && loc.used == (if copy then 1 + sb.descBlocks + sb.reservedGdt else 0)
            && loc.oldDescBlk == (if copy then start + 1 else 0) && loc.newDescBlk == 0)
      && (sb.metaBg && g < sb.firstMetaBg * sb.descPerBlock ==>
            && loc.used == (if copy then 1 + sb.firstMetaBg else 0)
            && loc.oldDescBlk == (if copy then start + 1 else 0) && loc.newDescBlk == 0)
      && (sb.metaBg && g >= sb.firstMetaBg * sb.descPerBlock ==>
            var edge := exists m: nat {:trigger m * sb.descPerBlock} ::
              g == m * sb.descPerBlock || g == m * sb.descPerBlock + 1 || g == m * sb.descPerBlock + (sb.descPerBlock - 1);
            && loc.used == (if copy then 1 else 0) + (if edge then 1 else 0)
            && loc.oldDescBlk == 0 && loc.newDescBlk == (if !edge then 0 else if copy then start + 1 else start))
  {
    hide SparseSuper.HasSuper;
    BelowMeta(g, sb.firstMetaBg, sb.descPerBlock);
    MetaEdge(g, sb.descPerBlock);
  }

  /** ext2fs_super_and_bgd_loc2 */
  method SuperAndBgdLoc(sb: Super, group: nat) returns (loc: MetaLoc)
    requires sb.descPerBlock > 0
    ensures loc == SuperAndDesc(sb, group)
    ensures Geometry(sb) && group < sb.groupCount ==>
      MetaBlocks(sb, group, loc) == Range(MetaStart(sb, group), loc.used) && |MetaBlocks(sb, group, loc)| == loc.used
  {
    var groupBlock := First(sb, group);
    if groupBlock == 0 && sb.blocksize == 1024 {
      groupBlock := 1;
    }
    var oldDescBlocks := if sb.metaBg then sb.firstMetaBg else sb.descBlocks + sb.reservedGdt;
    var has := SparseSuper.BgHasSuper(sb.sparse, group);
    var superBlk, oldDescBlk, newDescBlk, numblocks := 0, 0, 0, 0;
    if has {
      superBlk := groupBlock;
      numblocks := numblocks + 1;
    }
    var metaBgSize := sb.descPerBlock;
    var metaBg := group / metaBgSize;
    if !sb.metaBg || metaBg < sb.firstMetaBg {
      if has {
        oldDescBlk := groupBlock + 1;
        numblocks := numblocks + oldDescBlocks;
      }
    } else {
      if group % metaBgSize == 0 || group % metaBgSize == 1 || group % metaBgSize == metaBgSize - 1 {
        newDescBlk := groupBlock + if has then 1 else 0;
        numblocks := numblocks + 1;
      }
    }
    loc := MetaLoc(superBlk, oldDescBlk, newDescBlk, numblocks);
    assert loc == SuperAndDesc(sb, group);
    if Geometry(sb) && group < sb.groupCount {
      MetaLocated(sb, group);
    }
  }

  /** The test that check_block_uninit applies to each block of the group. */
  predicate MetaTest(sb: Super, loc: MetaLoc, d: Desc, blk: nat) {
    || blk == loc.superBlk
    || (loc.oldDescBlk != 0 && OldDescBlocks(sb) != 0 && loc.oldDescBlk <= blk < loc.oldDescBlk + OldDescBlocks(sb))
    || (loc.newDescBlk != 0 && blk == loc.newDescBlk)
    || blk == d.blockBitmap
    || blk == d.inodeBitmap
    || d.inodeTable <= blk < d.inodeTable + sb.inodeBlocksPerGroup
  }

  ghost predicate IsMeta(sb: Super, d: Desc, g: nat, b: nat)
    requires sb.descPerBlock > 0
  {
    MetaTest(sb, SuperAndDesc(sb, g), d, b)
  }

  /** The test holds for exactly those blocks of the group, its two bitmaps
      and its inode table, although it also asks for block 0 when there is no superblock copy. */
  lemma MetaTestExact(sb: Super, d: Desc, g: nat, b: nat)
    requires Geometry(sb) && g < sb.groupCount && First(sb, g) <= b < End(sb, g)
    ensures IsMeta(sb, d, g, b) <==>
      || b in Range(MetaStart(sb, g), SuperAndDesc(sb, g).used)
      || b == d.blockBitmap || b == d.inodeBitmap || b in Range(d.inodeTable, sb.inodeBlocksPerGroup)
  {
    hide SparseSuper.HasSuper, End, First, MetaStart, OldDescBlocks;
    MetaLocated(sb, g);
    StartsWithSuper(sb, g);
  }

  /** In use in a group without a bitmap, when there are no meta groups: the superblock copy with the
      descriptors and the blocks kept for more of them, the two bitmaps and the inode table. */
  lemma MetaWhole(sb: Super, d: Desc, g: nat, b: nat)
    requires Geometry(sb) && g < sb.groupCount && First(sb, g) <= b < End(sb, g)
    ensures !sb.metaBg ==> (IsMeta(sb, d, g, b) <==>
      || (SparseSuper.HasSuper(sb.sparse, g) && MetaStart(sb, g) <= b <= MetaStart(sb, g) + sb.descBlocks + sb.reservedGdt)
      || b == d.blockBitmap || b == d.inodeBitmap || d.inodeTable <= b < d.inodeTable + sb.inodeBlocksPerGroup)
    ensures sb.metaBg && g < sb.firstMetaBg * sb.descPerBlock ==> (IsMeta(sb, d, g, b) <==>
      || (SparseSuper.HasSuper(sb.sparse, g) && MetaStart(sb, g) <= b <= MetaStart(sb, g) + sb.firstMetaBg)
      || b == d.blockBitmap || b == d.inodeBitmap || d.inodeTable <= b < d.inodeTable + sb.inodeBlocksPerGroup)
  {
    hide SparseSuper.HasSuper, End, First, MetaStart, OldDescBlocks, IsMeta, SuperAndDesc;
    MetaTestExact(sb, d, g, b);
    MetaCount(sb, g);
  }

  // ---------- What is in use ----------

  /** The bitmap of this group has not been built yet. */
  predicate Lazy(sb: Super, d: Desc) { sb.gdtCsum && d.uninit }

  /** Block b is in use: its bit, or in a group still to be initialised, whether it is metadata. */
  ghost predicate InUse(sb: Super, bitmap: set<nat>, groups: seq<Desc>, b: nat)
    requires Geometry(sb) && |groups| == sb.groupCount && sb.firstDataBlock <= b < sb.blocksCount
  {
    GroupInRange(sb, b);
    var g := GroupOf(sb, b);
    if Lazy(sb, groups[g]) then IsMeta(sb, groups[g], g, b) else b in bitmap
  }

  ghost predicate Blocked(sb: Super, bitmap: set<nat>, groups: seq<Desc>, b: nat)
    requires Geometry(sb) && |groups| == sb.groupCount
  {
    sb.firstDataBlock <= b < sb.blocksCount && InUse(sb, bitmap, groups, b)
  }

  ghost function Used(sb: Super, bitmap: set<nat>, groups: seq<Desc>): set<nat>
    requires Geometry(sb) && |groups| == sb.groupCount
  {
    set b | sb.firstDataBlock <= b < sb.blocksCount && Blocked(sb, bitmap, groups, b)
  }

  /** Clear bits in [lo, hi). */
  ghost function Clear(used: set<nat>, lo: nat, hi: nat): nat {
    if hi <= lo then 0 else Clear(used, lo, hi - 1) + if hi - 1 in used then 0 else 1
  }

  lemma {:induction false} ClearSame(u: set<nat>, v: set<nat>, lo: nat, hi: nat)
    requires forall b | lo <= b < hi :: b in u <==> b in v
    ensures Clear(u, lo, hi) == Clear(v, lo, hi)
  {
    if lo < hi {
      ClearSame(u, v, lo, hi - 1);
    }
  }

  lemma {:induction false} ClearAdd(u: set<nat>, x: nat, lo: nat, hi: nat)
    requires lo <= x < hi
    ensures Clear(u + {x}, lo, hi) == Clear(u, lo, hi) - if x in u then 0 else 1
  {
    if x == hi - 1 {
      ClearSame(u, u + {x}, lo, hi - 1);
    } else {
      ClearAdd(u, x, lo, hi - 1);
    }
  }

  /** No block is clear exactly when all are in use. */
  lemma {:induction false} ClearNone(u: set<nat>, lo: nat, hi: nat)
    ensures Clear(u, lo, hi) == 0 <==> forall b | lo <= b < hi :: b in u
  {
    if lo < hi {
      ClearNone(u, lo, hi - 1);
      assert Clear(u, lo, hi) == 0 ==> hi - 1 in u;
    }
  }

  lemma {:induction false} ClearBound(u: set<nat>, lo: nat, hi: nat)
    requires lo <= hi
    ensures Clear(u, lo, hi) <= hi - lo
  {
    if lo < hi {
      ClearBound(u, lo, hi - 1);
    }
  }

  lemma {:induction false} ClearSplit(u: set<nat>, lo: nat, mid: nat, hi: nat)
    requires lo <= mid <= hi
    ensures Clear(u, lo, hi) == Clear(u, lo, mid) + Clear(u, mid, hi)
  {
    if mid < hi {
      ClearSplit(u, lo, mid, hi - 1);
    }
  }

  ghost function SumFree(sb: Super, groups: seq<Desc>): nat {
    if groups == [] then 0 else SumFree(sb, groups[..|groups| - 1]) + Free(sb, groups[|groups| - 1])
  }

  ghost predicate Counted(sb: Super, bitmap: set<nat>, groups: seq<Desc>)
    requires Geometry(sb) && |groups| == sb.groupCount
  {
    forall g | 0 <= g < |groups| ::
      && groups[g].freeLo < HALF && groups[g].freeHi < HALF
      && Free(sb, groups[g]) == Clear(Used(sb, bitmap, groups), First(sb, g), End(sb, g))
  }

  /** Every group's counter is its number of clear bits, and the superblock's is the sum. */
  ghost predicate Conserved(sb: Super, bitmap: set<nat>, groups: seq<Desc>, lo: nat, hi: nat) {
    && Geometry(sb) && |groups| == sb.groupCount
    && Counted(sb, bitmap, groups)
    && lo < WORD && hi < WORD && SuperFree(sb, lo, hi) == SumFree(sb, groups)
  }

  lemma {:induction false} SumIsClear(sb: Super, groups: seq<Desc>, used: set<nat>, n: nat)
    requires Geometry(sb) && |groups| == sb.groupCount && n < sb.groupCount
    requires forall g | 0 <= g < |groups| :: Free(sb, groups[g]) == Clear(used, First(sb, g), End(sb, g))
    ensures sb.firstDataBlock <= End(sb, n)
    ensures SumFree(sb, groups[..n + 1]) == Clear(used, sb.firstDataBlock, End(sb, n))
  {
    hide First, End, Free;
    assert groups[..n + 1][..n] == groups[..n];
    GroupEnd(sb, n);
    if n == 0 {
      assert First(sb, 0) == sb.firstDataBlock by { FirstZero(sb); }
    } else {
      SumIsClear(sb, groups, used, n - 1);
      GroupEnd(sb, n - 1);
      ClearSplit(used, sb.firstDataBlock, First(sb, n), End(sb, n));
    }
  }

  lemma FirstZero(sb: Super)
    ensures First(sb, 0) == sb.firstDataBlock
  {
  }

  /** The superblock counter is the number of clear bits of the whole filesystem. */
  lemma SuperIsClear(sb: Super, bitmap: set<nat>, groups: seq<Desc>, lo: nat, hi: nat)
    requires Conserved(sb, bitmap, groups, lo, hi)
    ensures SuperFree(sb, lo, hi) == Clear(Used(sb, bitmap, groups), sb.firstDataBlock, sb.blocksCount)
  {
    hide First, End, Free, Used;
    var n := |groups| - 1;
    SumIsClear(sb, groups, Used(sb, bitmap, groups), n);
    GroupEnd(sb, n);
    assert groups[..n + 1] == groups;
  }
}
