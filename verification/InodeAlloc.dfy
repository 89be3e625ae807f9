/**
 The inode allocator: lazy inode bitmaps and the search of source/alloc.c, the statistics of
 source/alloc_stats.c, and the inode-table watermark of source/csum.c.
 */
module InodeAlloc {
  import opened Groups
  import BlockAlloc

  datatype ISuper = ISuper(inodesPerGroup: nat, groupCount: nat, firstInode: nat, gdtCsum: bool, limit: nat)

  /** Counters are stored in `limit` values: 16 bits, or 32 with the 64-bit descriptors. */
  datatype IDesc = IDesc(free: nat, usedDirs: nat, itableUnused: nat, uninit: bool)

  ghost predicate IGeometry(sb: ISuper) {
    && 0 < sb.inodesPerGroup < sb.limit && 0 < sb.groupCount && 0 < sb.firstInode
    && (sb.limit == HALF || sb.limit == WORD)
    && InodesCount(sb) < WORD
  }

  function InodesCount(sb: ISuper): nat { sb.groupCount * sb.inodesPerGroup }

  /** ext2fs_group_of_ino */
  function IGroup(sb: ISuper, ino: nat): nat
    requires sb.inodesPerGroup > 0 && ino > 0
  {
    (ino - 1) / sb.inodesPerGroup
  }

  /** Group g holds the inodes [FirstIno(g), FirstIno(g + 1)). */
  function FirstIno(sb: ISuper, g: nat): nat { g * sb.inodesPerGroup + 1 }

  predicate ILazy(sb: ISuper, d: IDesc) { sb.gdtCsum && d.uninit }

  lemma FirstInoNext(sb: ISuper, g: nat)
    ensures FirstIno(sb, g + 1) == FirstIno(sb, g) + sb.inodesPerGroup
  {
    assert (g + 1) * sb.inodesPerGroup == g * sb.inodesPerGroup + sb.inodesPerGroup;
  }

  lemma IGroupIff(sb: ISuper, ino: nat, g: nat)
    requires sb.inodesPerGroup > 0 && ino > 0
    ensures IGroup(sb, ino) == g <==> FirstIno(sb, g) <= ino < FirstIno(sb, g + 1)
  {
    var h := IGroup(sb, ino);
    DivFacts(ino - 1, sb.inodesPerGroup);
    FirstInoNext(sb, h);
    FirstInoNext(sb, g);
    if h < g {
      Mono(h + 1, g, sb.inodesPerGroup);
    } else if g < h {
      Mono(g + 1, h, sb.inodesPerGroup);
    }
  }

  lemma IGroupInRange(sb: ISuper, ino: nat)
    requires IGeometry(sb) && 1 <= ino <= InodesCount(sb)
    ensures IGroup(sb, ino) < sb.groupCount
    ensures FirstIno(sb, IGroup(sb, ino)) <= ino < FirstIno(sb, IGroup(sb, ino) + 1)
  {
    IGroupIff(sb, ino, IGroup(sb, ino));
    if IGroup(sb, ino) >= sb.groupCount {
      Mono(sb.groupCount, IGroup(sb, ino), sb.inodesPerGroup);
    }
  }

  lemma FirstInoBound(sb: ISuper, g: nat)
    requires IGeometry(sb) && g < sb.groupCount
    ensures FirstIno(sb, g + 1) <= InodesCount(sb) + 1
    ensures 1 <= FirstIno(sb, g) < FirstIno(sb, g + 1)
  {
    Mono(g + 1, sb.groupCount, sb.inodesPerGroup);
    FirstInoNext(sb, g);
  }

  predicate IGroupStart(sb: ISuper, ino: nat)
    requires sb.inodesPerGroup > 0 && ino > 0
  {
    (ino - 1) % sb.inodesPerGroup == 0
  }

  lemma NextIGroup(sb: ISuper, ino: nat)
    requires sb.inodesPerGroup > 0 && ino > 0
    ensures !IGroupStart(sb, ino + 1) ==> IGroup(sb, ino + 1) == IGroup(sb, ino)
  {
    if IGroup(sb, ino + 1) != IGroup(sb, ino) {
      IGroupIff(sb, ino, IGroup(sb, ino));
      IGroupIff(sb, ino + 1, IGroup(sb, ino));
      ModMul(IGroup(sb, ino) + 1, sb.inodesPerGroup);
    }
  }

  lemma GroupFirstStart(sb: ISuper, g: nat)
    requires sb.inodesPerGroup > 0
    ensures IGroupStart(sb, FirstIno(sb, g))
  {
    ModMul(g, sb.inodesPerGroup);
  }

  /** Inode ino is in use; in a group still to be initialised none is. */
  ghost predicate Taken(sb: ISuper, bitmap: set<nat>, groups: seq<IDesc>, ino: nat)
    requires IGeometry(sb) && |groups| == sb.groupCount
  {
    1 <= ino <= InodesCount(sb) && ino in bitmap && (IGroupInRange(sb, ino); !ILazy(sb, groups[IGroup(sb, ino)]))
  }

  ghost function TakenSet(sb: ISuper, bitmap: set<nat>, groups: seq<IDesc>): set<nat>
    requires IGeometry(sb) && |groups| == sb.groupCount
  {
    set ino | ino in bitmap && Taken(sb, bitmap, groups, ino)
  }

  ghost predicate ICounted(sb: ISuper, used: set<nat>, groups: seq<IDesc>) {
    forall g | 0 <= g < |groups| :: groups[g].free == Clear(used, FirstIno(sb, g), FirstIno(sb, g + 1))
  }

  ghost function ISum(groups: seq<IDesc>): nat {
    if groups == [] then 0 else ISum(groups[..|groups| - 1]) + groups[|groups| - 1].free
  }

  /** Group and superblock counters are the clear bits. */
  ghost predicate IConserved(sb: ISuper, bitmap: set<nat>, groups: seq<IDesc>, superFree: nat) {
    && IGeometry(sb) && |groups| == sb.groupCount
    && ICounted(sb, TakenSet(sb, bitmap, groups), groups)
    && superFree == ISum(groups)
  }

  /** No inode in use lies among the last `unused` inodes of group g. */
  ghost predicate Marked(sb: ISuper, used: set<nat>, g: nat, unused: nat) {
    && unused <= sb.inodesPerGroup
    && forall ino | ino in used && FirstIno(sb, g) <= ino < FirstIno(sb, g + 1) :: ino < FirstIno(sb, g + 1) - unused
  }

  ghost predicate Watermark(sb: ISuper, used: set<nat>, groups: seq<IDesc>) {
    forall g | 0 <= g < |groups| :: Marked(sb, used, g, groups[g].itableUnused)
  }

  /** Clearing the bits of a lazy group and its flag changes no inode's status. */
  lemma InitKeepsTaken(sb: ISuper, before: set<nat>, after: set<nat>, groups: seq<IDesc>, g: nat)
    requires IGeometry(sb) && |groups| == sb.groupCount && g < sb.groupCount && ILazy(sb, groups[g])
    requires forall ino: nat :: ino in after <==> ino in before && !(FirstIno(sb, g) <= ino < FirstIno(sb, g + 1))
    ensures TakenSet(sb, after, groups[g := groups[g].(uninit := false)]) == TakenSet(sb, before, groups)
  {
    var groups' := groups[g := groups[g].(uninit := false)];
    hide IGroup, FirstIno, InodesCount;
    forall ino: nat ensures Taken(sb, after, groups', ino) <==> Taken(sb, before, groups, ino) {
      if 1 <= ino <= InodesCount(sb) {
        IGroupInRange(sb, ino);
        IGroupIff(sb, ino, g);
      }
    }
  }

  /** In an initialised group the bitmap decides. */
  lemma TakenToggled(sb: ISuper, bitmap: set<nat>, groups: seq<IDesc>, ino: nat, inuse: int, d: IDesc)
    requires IGeometry(sb) && |groups| == sb.groupCount && 1 <= ino <= InodesCount(sb)
    requires IGroup(sb, ino) < sb.groupCount && !ILazy(sb, groups[IGroup(sb, ino)]) && !d.uninit
    ensures TakenSet(sb, BlockAlloc.Toggled(bitmap, ino, inuse), groups[IGroup(sb, ino) := d])
         == BlockAlloc.Toggled(TakenSet(sb, bitmap, groups), ino, inuse)
    ensures ino in TakenSet(sb, bitmap, groups) <==> ino in bitmap
  {
    hide IGroup, FirstIno, InodesCount;
    var bitmap', groups' := BlockAlloc.Toggled(bitmap, ino, inuse), groups[IGroup(sb, ino) := d];
    forall n: nat ensures Taken(sb, bitmap', groups', n) <==> if n == ino then inuse > 0 else Taken(sb, bitmap, groups, n) {
      if 1 <= n <= InodesCount(sb) {
        IGroupInRange(sb, n);
      }
    }
    assert Taken(sb, bitmap, groups, ino) <==> ino in bitmap by { IGroupInRange(sb, ino); }
  }

  lemma {:induction false} ISumUpdated(groups: seq<IDesc>, g: nat, d: IDesc)
    requires g < |groups|
    ensures ISum(groups[g := d]) == ISum(groups) - groups[g].free + d.free
  {
    var n := |groups| - 1;
    if g == n {
      assert groups[g := d][..n] == groups[..n];
    } else {
      assert groups[g := d][..n] == groups[..n][g := d];
      ISumUpdated(groups[..n], g, d);
    }
  }

  lemma {:induction false} ISumIsClear(sb: ISuper, groups: seq<IDesc>, used: set<nat>, n: nat)
    requires IGeometry(sb) && |groups| == sb.groupCount && n <= sb.groupCount && ICounted(sb, used, groups)
    ensures ISum(groups[..n]) == Clear(used, 1, FirstIno(sb, n))
  {
    if n > 0 {
      hide FirstIno, Clear;
      assert groups[..n][..n - 1] == groups[..n - 1];
      ISumIsClear(sb, groups, used, n - 1);
      FirstInoBound(sb, n - 1);
      ClearSplit(used, 1, FirstIno(sb, n - 1), FirstIno(sb, n));
    }
  }

  lemma ISumBound(sb: ISuper, groups: seq<IDesc>, used: set<nat>)
    requires IGeometry(sb) && |groups| == sb.groupCount && ICounted(sb, used, groups)
    ensures ISum(groups) == Clear(used, 1, InodesCount(sb) + 1) <= InodesCount(sb)
  {
    ISumIsClear(sb, groups, used, |groups|);
    assert groups[..|groups|] == groups;
    ClearBound(used, 1, InodesCount(sb) + 1);
  }

  /** The descriptor after the statistics of one inode of its group. */
  function IAccounted(sb: ISuper, d: IDesc, g: nat, ino: nat, inuse: int, isdir: bool): IDesc
    requires sb.limit > 0
  {
    var firstUnused := sb.inodesPerGroup - d.itableUnused + g * sb.inodesPerGroup + 1;
    var d1 := d.(free := (d.free - inuse) % WORD % sb.limit,
                 usedDirs := if isdir then (d.usedDirs + inuse) % WORD % sb.limit else d.usedDirs,
                 uninit := false);
    if sb.gdtCsum && ino >= firstUnused
    then d1.(itableUnused := (g * sb.inodesPerGroup + sb.inodesPerGroup - ino) % WORD % sb.limit)
    else d1
  }

  lemma IUnusedExact(sb: ISuper, g: nat, ino: nat)
    requires IGeometry(sb) && g < sb.groupCount && FirstIno(sb, g) <= ino < FirstIno(sb, g + 1)
    ensures 0 <= g * sb.inodesPerGroup + sb.inodesPerGroup - ino < sb.inodesPerGroup
    ensures (g * sb.inodesPerGroup + sb.inodesPerGroup - ino) % WORD % sb.limit == FirstIno(sb, g + 1) - 1 - ino
  {
    FirstInoNext(sb, g);
  }

  lemma IAccountedFree(sb: ISuper, d: IDesc, g: nat, ino: nat, inuse: int, isdir: bool)
    requires IGeometry(sb) && d.free <= sb.inodesPerGroup && (inuse == 1 || inuse == -1)
    ensures var d' := IAccounted(sb, d, g, ino, inuse, isdir);
      && !d'.uninit && d'.free != d.free
      && (0 <= d.free - inuse <= sb.inodesPerGroup ==> d'.free == d.free - inuse)
  {
    hide InodesCount;
    BlockAlloc.WrapOne(d.free, inuse, sb.limit);
  }

  /** The counter of the inode's own group stays right exactly when its bit really changed. */
  lemma IAccountedExact(sb: ISuper, d: IDesc, g: nat, ino: nat, inuse: int, isdir: bool, used: set<nat>)
    requires IGeometry(sb) && (inuse == 1 || inuse == -1) && FirstIno(sb, g) <= ino < FirstIno(sb, g + 1)
    requires d.free == Clear(used, FirstIno(sb, g), FirstIno(sb, g + 1))
    ensures IAccounted(sb, d, g, ino, inuse, isdir).free == Clear(BlockAlloc.Toggled(used, ino, inuse), FirstIno(sb, g), FirstIno(sb, g + 1))
       <==> (inuse > 0 <==> ino !in used)
  {
    FirstInoNext(sb, g);
    hide Clear, FirstIno, InodesCount, IAccounted, BlockAlloc.Toggled;
    var lo, hi := FirstIno(sb, g), FirstIno(sb, g + 1);
    BlockAlloc.ClearToggled(used, ino, inuse, lo, hi);
    ClearBound(used, lo, hi);
    ClearBound(BlockAlloc.Toggled(used, ino, inuse), lo, hi);
    IAccountedFree(sb, d, g, ino, inuse, isdir);
  }

  lemma INotConserved(sb: ISuper, bitmap: set<nat>, groups: seq<IDesc>, superFree: nat, g: nat)
    requires IGeometry(sb) && |groups| == sb.groupCount && g < sb.groupCount
    requires groups[g].free != Clear(TakenSet(sb, bitmap, groups), FirstIno(sb, g), FirstIno(sb, g + 1))
    ensures !IConserved(sb, bitmap, groups, superFree)
  {
  }

  lemma IStatsKeep(sb: ISuper, bitmap: set<nat>, groups: seq<IDesc>, superFree: nat, ino: nat, inuse: int, d: IDesc)
    requires IConserved(sb, bitmap, groups, superFree)
    requires 1 <= ino <= InodesCount(sb) && IGroup(sb, ino) < sb.groupCount && (inuse == 1 || inuse == -1)
    requires var g := IGroup(sb, ino); var used := TakenSet(sb, bitmap, groups); var used' := BlockAlloc.Toggled(used, ino, inuse);
      && TakenSet(sb, BlockAlloc.Toggled(bitmap, ino, inuse), groups[g := d]) == used'
      && (inuse > 0 <==> ino !in used)
      && d.free == Clear(used', FirstIno(sb, g), FirstIno(sb, g + 1))
    ensures IConserved(sb, BlockAlloc.Toggled(bitmap, ino, inuse), groups[IGroup(sb, ino) := d], (superFree - inuse) % WORD)
  {
    hide Clear, FirstIno, InodesCount, TakenSet, BlockAlloc.Toggled, IGroup, ISum;
    var g, used, groups' := IGroup(sb, ino), TakenSet(sb, bitmap, groups), groups[IGroup(sb, ino) := d];
    var used' := BlockAlloc.Toggled(used, ino, inuse);
    IGroupInRange(sb, ino);
    forall h | 0 <= h < |groups'| ensures groups'[h].free == Clear(used', FirstIno(sb, h), FirstIno(sb, h + 1)) {
      if h != g {
        IGroupIff(sb, ino, h);
        BlockAlloc.ClearToggled(used, ino, inuse, FirstIno(sb, h), FirstIno(sb, h + 1));
      }
    }
    BlockAlloc.ClearToggled(used, ino, inuse, FirstIno(sb, g), FirstIno(sb, g + 1));
    ISumUpdated(groups, g, d);
    ISumBound(sb, groups', used');
  }

  /** All counters stay right exactly when the inode's bit really changes. */
  lemma IStatsConserve(sb: ISuper, bitmap: set<nat>, groups: seq<IDesc>, superFree: nat, ino: nat, inuse: int, isdir: bool)
    requires IConserved(sb, bitmap, groups, superFree)
    requires 1 <= ino <= InodesCount(sb) && (inuse == 1 || inuse == -1)
    requires IGroup(sb, ino) < sb.groupCount && !ILazy(sb, groups[IGroup(sb, ino)])
    ensures var g := IGroup(sb, ino);
      IConserved(sb, BlockAlloc.Toggled(bitmap, ino, inuse), groups[g := IAccounted(sb, groups[g], g, ino, inuse, isdir)], (superFree - inuse) % WORD)
      <==> (inuse > 0 <==> ino !in bitmap)
  {
    var g := IGroup(sb, ino);
    var d := IAccounted(sb, groups[g], g, ino, inuse, isdir);
    IGroupInRange(sb, ino);
    TakenToggled(sb, bitmap, groups, ino, inuse, d);
    IAccountedExact(sb, groups[g], g, ino, inuse, isdir, TakenSet(sb, bitmap, groups));
    hide Clear, FirstIno, InodesCount, TakenSet, BlockAlloc.Toggled, IGroup, IAccounted, IConserved;
    if inuse > 0 <==> ino !in bitmap {
      IStatsKeep(sb, bitmap, groups, superFree, ino, inuse, d);
    } else {
      INotConserved(sb, BlockAlloc.Toggled(bitmap, ino, inuse), groups[g := d], (superFree - inuse) % WORD, g);
    }
  }

  lemma IAccountedUnused(sb: ISuper, d: IDesc, g: nat, ino: nat, inuse: int, isdir: bool)
    requires IGeometry(sb) && g < sb.groupCount && FirstIno(sb, g) <= ino < FirstIno(sb, g + 1)
    requires d.itableUnused <= sb.inodesPerGroup && sb.gdtCsum
    ensures IAccounted(sb, d, g, ino, inuse, isdir).itableUnused ==
      if ino >= FirstIno(sb, g + 1) - d.itableUnused then FirstIno(sb, g + 1) - 1 - ino else d.itableUnused
  {
    IUnusedExact(sb, g, ino);
    FirstInoNext(sb, g);
  }

  lemma MarkedToggled(sb: ISuper, used: set<nat>, g: nat, d: IDesc, ino: nat, inuse: int, isdir: bool)
    requires IGeometry(sb) && g < sb.groupCount && FirstIno(sb, g) <= ino < FirstIno(sb, g + 1) && sb.gdtCsum
    requires Marked(sb, used, g, d.itableUnused)
    ensures Marked(sb, BlockAlloc.Toggled(used, ino, inuse), g, IAccounted(sb, d, g, ino, inuse, isdir).itableUnused)
  {
    IAccountedUnused(sb, d, g, ino, inuse, isdir);
    FirstInoNext(sb, g);
    hide FirstIno, IAccounted;
  }

  lemma MarkedElsewhere(sb: ISuper, used: set<nat>, g: nat, unused: nat, ino: nat, inuse: int)
    requires Marked(sb, used, g, unused) && !(FirstIno(sb, g) <= ino < FirstIno(sb, g + 1))
    ensures Marked(sb, BlockAlloc.Toggled(used, ino, inuse), g, unused)
  {
    hide FirstIno;
  }

  /** The watermark survives every statistics update of an initialised group. */
  lemma StatsKeepWatermark(sb: ISuper, bitmap: set<nat>, groups: seq<IDesc>, ino: nat, inuse: int, isdir: bool)
    requires IGeometry(sb) && |groups| == sb.groupCount && sb.gdtCsum
    requires 1 <= ino <= InodesCount(sb) && IGroup(sb, ino) < sb.groupCount && !ILazy(sb, groups[IGroup(sb, ino)])
    requires Watermark(sb, TakenSet(sb, bitmap, groups), groups)
    ensures var g := IGroup(sb, ino);
      var groups' := groups[g := IAccounted(sb, groups[g], g, ino, inuse, isdir)];
      Watermark(sb, TakenSet(sb, BlockAlloc.Toggled(bitmap, ino, inuse), groups'), groups')
  {
    var g := IGroup(sb, ino);
    var d := IAccounted(sb, groups[g], g, ino, inuse, isdir);
    var groups' := groups[g := d];
    IGroupInRange(sb, ino);
    IAccountedInit(sb, groups[g], g, ino, inuse, isdir);
    TakenToggled(sb, bitmap, groups, ino, inuse, d);
    var used := TakenSet(sb, bitmap, groups);
    hide TakenSet, InodesCount, IGroup, IAccounted, FirstIno, Marked, BlockAlloc.Toggled;
    forall h | 0 <= h < |groups'| ensures Marked(sb, BlockAlloc.Toggled(used, ino, inuse), h, groups'[h].itableUnused) {
      if h == g {
        MarkedToggled(sb, used, g, groups[g], ino, inuse, isdir);
      } else {
        IGroupIff(sb, ino, h);
        MarkedElsewhere(sb, used, h, groups[h].itableUnused, ino, inuse);
      }
    }
  }

  lemma IAccountedInit(sb: ISuper, d: IDesc, g: nat, ino: nat, inuse: int, isdir: bool)
    requires sb.limit > 0
    ensures !IAccounted(sb, d, g, ino, inuse, isdir).uninit
  {
  }

  /** The search initialises a group at its first inode.  It comes by that one in every group but
      this: the group of the first usable inode, if still lazy and entered in its middle. */
  ghost predicate Entered(sb: ISuper, groups: seq<IDesc>, g: nat)
    requires IGeometry(sb) && |groups| == sb.groupCount
  {
    && sb.firstInode <= InodesCount(sb) && !IGroupStart(sb, sb.firstInode)
    && g == IGroup(sb, sb.firstInode) && g < |groups| && ILazy(sb, groups[g])
  }

  ghost predicate StaleBit(sb: ISuper, groups: seq<IDesc>, ino: nat)
    requires IGeometry(sb) && |groups| == sb.groupCount
  {
    ino > 0 && Entered(sb, groups, IGroup(sb, ino))
  }

  ghost function StaleBits(sb: ISuper, bitmap: set<nat>, groups: seq<IDesc>): set<nat>
    requires IGeometry(sb) && |groups| == sb.groupCount
  {
    set ino | ino in bitmap && StaleBit(sb, groups, ino)
  }

  /** Where the search begins. */
  ghost function StartOf(sb: ISuper, dir: nat): nat
    requires sb.inodesPerGroup > 0
  {
    var start := FirstIno(sb, if dir > 0 then IGroup(sb, dir) else 0);
    if start < sb.firstInode then sb.firstInode else start
  }

  lemma StartNotEntered(sb: ISuper, groups: seq<IDesc>, i: nat)
    requires IGeometry(sb) && |groups| == sb.groupCount && sb.firstInode <= i && IGroupStart(sb, i)
    ensures !Entered(sb, groups, IGroup(sb, i))
  {
    hide InodesCount;
    IGroupIff(sb, sb.firstInode, IGroup(sb, i));
    assert i - 1 == IGroup(sb, i) * sb.inodesPerGroup + (i - 1) % sb.inodesPerGroup;
    assert FirstIno(sb, IGroup(sb, i)) == i;
  }

  lemma FirstEntered(sb: ISuper, groups: seq<IDesc>)
    requires IGeometry(sb) && |groups| == sb.groupCount && sb.firstInode <= InodesCount(sb)
    ensures IGroup(sb, sb.firstInode) < sb.groupCount
    ensures IGroupStart(sb, sb.firstInode) || !ILazy(sb, groups[IGroup(sb, sb.firstInode)]) || Entered(sb, groups, IGroup(sb, sb.firstInode))
  {
    IGroupInRange(sb, sb.firstInode);
  }

  lemma StaleElsewhere(sb: ISuper, b1: set<nat>, g1: seq<IDesc>, b2: set<nat>, g2: seq<IDesc>, group: nat)
    requires IGeometry(sb) && |g1| == |g2| == sb.groupCount && group < sb.groupCount && !Entered(sb, g1, group)
    requires forall n: nat | !(FirstIno(sb, group) <= n < FirstIno(sb, group + 1)) :: n in b2 <==> n in b1
    requires forall g | 0 <= g < |g1| && g != group :: ILazy(sb, g2[g]) == ILazy(sb, g1[g])
    requires ILazy(sb, g2[group]) ==> ILazy(sb, g1[group])
    ensures StaleBits(sb, b2, g2) == StaleBits(sb, b1, g1)
  {
    hide InodesCount, IGroup, FirstIno, IGroupStart;
    forall n: nat ensures n in b2 && StaleBit(sb, g2, n) <==> n in b1 && StaleBit(sb, g1, n) {
      if n > 0 {
        IGroupIff(sb, n, group);
      }
    }
  }

  /** A set bit of an inode the search looks at: in use, or stale. */
  lemma BitAccounted(sb: ISuper, bitmap: set<nat>, groups: seq<IDesc>, ino: nat)
    requires IGeometry(sb) && |groups| == sb.groupCount && 1 <= ino <= InodesCount(sb) && ino in bitmap
    requires IGroup(sb, ino) < sb.groupCount && (!ILazy(sb, groups[IGroup(sb, ino)]) || Entered(sb, groups, IGroup(sb, ino)))
    ensures ino in TakenSet(sb, bitmap, groups) + StaleBits(sb, bitmap, groups)
  {
    IGroupInRange(sb, ino);
    assert Taken(sb, bitmap, groups, ino) || StaleBit(sb, groups, ino);
  }

  lemma OnlyBits(sb: ISuper, bitmap: set<nat>, groups: seq<IDesc>)
    requires IGeometry(sb) && |groups| == sb.groupCount
    ensures TakenSet(sb, bitmap, groups) + StaleBits(sb, bitmap, groups) <= bitmap
  {
  }

  /** Clearing the flag of a group entered in its middle brings its old bits into use. */
  lemma WakeTaken(sb: ISuper, bitmap: set<nat>, groups: seq<IDesc>, ino: nat, d: IDesc)
    requires IGeometry(sb) && |groups| == sb.groupCount && 1 <= ino <= InodesCount(sb)
    requires Entered(sb, groups, IGroup(sb, ino)) && !d.uninit
    ensures TakenSet(sb, bitmap + {ino}, groups[IGroup(sb, ino) := d])
         == TakenSet(sb, bitmap, groups) + {ino} + StaleBits(sb, bitmap, groups)
  {
    var g, groups' := IGroup(sb, ino), groups[IGroup(sb, ino) := d];
    hide InodesCount, IGroup, FirstIno, IGroupStart;
    forall n: nat ensures n in bitmap + {ino} && Taken(sb, bitmap + {ino}, groups', n)
      <==> n == ino || (n in bitmap && (Taken(sb, bitmap, groups, n) || StaleBit(sb, groups, n))) {
      if n > 0 {
        IGroupIff(sb, n, g);
        FirstInoBound(sb, g);
        if n <= InodesCount(sb) {
          IGroupInRange(sb, n);
        }
      }
    }
  }

  /** Without old bits that is as if the group had been initialised before. */
  lemma WakeKeeps(sb: ISuper, bitmap: set<nat>, groups: seq<IDesc>, superFree: nat, ino: nat, isdir: bool)
    requires IConserved(sb, bitmap, groups, superFree) && Watermark(sb, TakenSet(sb, bitmap, groups), groups)
    requires 1 <= ino <= InodesCount(sb) && ino !in bitmap
    requires Entered(sb, groups, IGroup(sb, ino)) && StaleBits(sb, bitmap, groups) == {}
    ensures var g := IGroup(sb, ino);
      var bitmap', groups' := bitmap + {ino}, groups[g := IAccounted(sb, groups[g], g, ino, 1, isdir)];
      IConserved(sb, bitmap', groups', (superFree - 1) % WORD) && Watermark(sb, TakenSet(sb, bitmap', groups'), groups')
  {
    var g := IGroup(sb, ino);
    var groups0 := groups[g := groups[g].(uninit := false)];
    hide InodesCount, IGroup, FirstIno, IGroupStart, Clear, Marked, TakenSet, BlockAlloc.Toggled;
    forall n: nat | n in bitmap ensures !(FirstIno(sb, g) <= n < FirstIno(sb, g + 1)) {
      NotStale(sb, bitmap, groups, n, g);
    }
    InitKeepsTaken(sb, bitmap, bitmap, groups, g);
    InitialisedKeeps(sb, bitmap, bitmap, groups, groups0, superFree);
    IStatsConserve(sb, bitmap, groups0, superFree, ino, 1, isdir);
    StatsKeepWatermark(sb, bitmap, groups0, ino, 1, isdir);
    var d := IAccounted(sb, groups[g], g, ino, 1, isdir);
    assert d == IAccounted(sb, groups0[g], g, ino, 1, isdir) && groups0[g := d] == groups[g := d];
    assert bitmap + {ino} == BlockAlloc.Toggled(bitmap, ino, 1) by {
      ToggledOn(bitmap, ino);
    }
  }

  lemma ToggledOn(bitmap: set<nat>, ino: nat)
    ensures BlockAlloc.Toggled(bitmap, ino, 1) == bitmap + {ino}
  {
  }

  lemma NotStale(sb: ISuper, bitmap: set<nat>, groups: seq<IDesc>, n: nat, g: nat)
    requires IGeometry(sb) && |groups| == sb.groupCount && StaleBits(sb, bitmap, groups) == {} && n in bitmap
    requires Entered(sb, groups, g)
    ensures !(FirstIno(sb, g) <= n < FirstIno(sb, g + 1))
  {
    assert n !in StaleBits(sb, bitmap, groups);
    if n > 0 {
      IGroupIff(sb, n, g);
    }
  }

  /** With old bits the group's counter, which went down by one, is too high. */
  lemma WakeBreaks(sb: ISuper, bitmap: set<nat>, groups: seq<IDesc>, superFree: nat, ino: nat, isdir: bool)
    requires IConserved(sb, bitmap, groups, superFree) && 1 <= ino <= InodesCount(sb) && ino !in bitmap
    requires Entered(sb, groups, IGroup(sb, ino)) && StaleBits(sb, bitmap, groups) != {}
    ensures var g := IGroup(sb, ino);
      !IConserved(sb, bitmap + {ino}, groups[g := IAccounted(sb, groups[g], g, ino, 1, isdir)], (superFree - 1) % WORD)
  {
    var g := IGroup(sb, ino);
    var d := IAccounted(sb, groups[g], g, ino, 1, isdir);
    IAccountedInit(sb, groups[g], g, ino, 1, isdir);
    WakeTaken(sb, bitmap, groups, ino, d);
    LazyIsFree(sb, bitmap, groups, g);
    IAccountedFree(sb, groups[g], g, ino, 1, isdir);
    var left :| left in StaleBits(sb, bitmap, groups);
    assert StaleBit(sb, groups, left);
    IGroupIff(sb, ino, g);
    IGroupIff(sb, left, g);
    FirstInoNext(sb, g);
    hide InodesCount, IGroup, FirstIno, IGroupStart, TakenSet, StaleBits, IAccounted;
    TwoUsed(TakenSet(sb, bitmap + {ino}, groups[g := d]), ino, left, FirstIno(sb, g), FirstIno(sb, g + 1));
    INotConserved(sb, bitmap + {ino}, groups[g := d], (superFree - 1) % WORD, g);
  }

  lemma TwoUsed(used: set<nat>, a: nat, b: nat, lo: nat, hi: nat)
    requires lo <= a < hi && lo <= b < hi && a != b && a in used && b in used
    ensures Clear(used, lo, hi) <= hi - lo - 2
  {
    ClearAdd(used - {a}, a, lo, hi);
    ClearAdd(used - {a} - {b}, b, lo, hi);
    ClearBound(used - {a} - {b}, lo, hi);
    assert used - {a} + {a} == used && used - {a} - {b} + {b} == used - {a};
  }

  lemma SameEntered(sb: ISuper, g1: seq<IDesc>, g2: seq<IDesc>, g: nat)
    requires IGeometry(sb) && |g1| == |g2| == sb.groupCount && Inodes.OnlyInitialised(sb, g1, g2)
    requires Entered(sb, g1, g) ==> g2[g] == g1[g]
    ensures Entered(sb, g1, g) <==> Entered(sb, g2, g)
  {
    hide InodesCount, IGroup, IGroupStart;
  }

  lemma StaleShrinks(sb: ISuper, bitmap: set<nat>, groups: seq<IDesc>, ino: nat, inuse: int, d: IDesc)
    requires IGeometry(sb) && |groups| == sb.groupCount && 1 <= ino <= InodesCount(sb)
    requires IGroup(sb, ino) < |groups| && !d.uninit
    ensures StaleBits(sb, BlockAlloc.Toggled(bitmap, ino, inuse), groups[IGroup(sb, ino) := d]) <= StaleBits(sb, bitmap, groups)
  {
    hide InodesCount, IGroup, IGroupStart;
    var groups' := groups[IGroup(sb, ino) := d];
    forall n | n in BlockAlloc.Toggled(bitmap, ino, inuse) && StaleBit(sb, groups', n) ensures n in bitmap && StaleBit(sb, groups, n) {
    }
  }

  class Inodes {
    const sb: ISuper
    const blocks: BlockAlloc.Blocks
    var bitmap: set<nat>
    var groups: seq<IDesc>
    var superFree: nat

    constructor (sb: ISuper, blocks: BlockAlloc.Blocks, bitmap: set<nat>, groups: seq<IDesc>, superFree: nat)
      requires IGeometry(sb) && |groups| == sb.groupCount && blocks.Valid() && |blocks.groups| == |groups|
      ensures Valid() && this.sb == sb && this.blocks == blocks
      ensures this.bitmap == bitmap && this.groups == groups && this.superFree == superFree
    {
      this.sb, this.blocks, this.bitmap, this.groups, this.superFree := sb, blocks, bitmap, groups, superFree;
    }

    ghost predicate Valid()
      reads this, blocks
    {
      IGeometry(sb) && |groups| == sb.groupCount && blocks.Valid() && |blocks.groups| == |groups|
    }

    /** The abstract state: the inodes in use. */
    ghost function InUse(): set<nat>
      requires Valid()
      reads this, blocks
    {
      TakenSet(sb, bitmap, groups)
    }

    /** In a group still to be initialised no inode is in use; in any other the bitmap says it. */
    lemma UseIs(ino: nat)
      requires Valid() && 1 <= ino <= InodesCount(sb)
      ensures IGroup(sb, ino) < |groups|
      ensures ino in InUse() <==> ino in bitmap && !(sb.gdtCsum && groups[IGroup(sb, ino)].uninit)
    {
      IGroupInRange(sb, ino);
    }

    /** The invariant of every run: exact counters and, with descriptor checksums, the watermark. */
    ghost predicate Consistent()
      requires Valid()
      reads this, blocks
    {
      && IConserved(sb, bitmap, groups, superFree)
      && (sb.gdtCsum ==> Watermark(sb, InUse(), groups))
    }

    /** The loop of check_inode_uninit. */
    method ClearBits(group: nat)
      modifies this`bitmap
      ensures forall n: nat :: n in bitmap <==> n in old(bitmap) && !(FirstIno(sb, group) <= n < FirstIno(sb, group + 1))
    {
      FirstInoNext(sb, group);
      hide FirstIno;
      var ino := FirstIno(sb, group);
      for i := 0 to sb.inodesPerGroup
        invariant ino == FirstIno(sb, group) + i
        invariant forall n: nat :: n in bitmap <==> n in old(bitmap) && !(FirstIno(sb, group) <= n < ino)
      {
        bitmap := bitmap - {ino};
        ino := ino + 1;
      }
    }

    /** check_inode_uninit */
    method CheckInodeUninit(group: nat)
      requires Valid() && group < |groups|
      modifies this`bitmap, this`groups, blocks`bitmap, blocks`groups
      ensures Valid() && InUse() == old(InUse()) && blocks.InUse() == old(blocks.InUse())
      ensures !ILazy(sb, groups[group])
      ensures old(ILazy(sb, groups[group])) ==> !Lazy(blocks.sb, blocks.groups[group])
      ensures forall n: nat :: n in bitmap <==>
        n in old(bitmap) && !(ILazy(sb, old(groups)[group]) && FirstIno(sb, group) <= n < FirstIno(sb, group + 1))
      ensures forall g | 0 <= g < |groups| :: groups[g] == if g == group && ILazy(sb, old(groups)[g]) then old(groups)[g].(uninit := false) else old(groups)[g]
    {
      hide InodesCount, TakenSet, FirstIno, Groups.Used;
      if !sb.gdtCsum || !groups[group].uninit {
        return;
      }
      ClearBits(group);
      InitKeepsTaken(sb, old(bitmap), bitmap, groups, group);
      groups := groups[group := groups[group].(uninit := false)];
      blocks.CheckBlockUninit(group);
    }

    /** What lazy initialisation may do to the descriptors. */
    static ghost predicate OnlyInitialised(sb: ISuper, before: seq<IDesc>, after: seq<IDesc>) {
      |before| == |after| && forall g | 0 <= g < |before| ::
        after[g] == before[g] || (ILazy(sb, before[g]) && after[g] == before[g].(uninit := false))
    }

    /** Bits left over in the one lazy group that the search may enter in its middle. */
    ghost function Stale(): set<nat>
      requires Valid()
      reads this, blocks
    {
      StaleBits(sb, bitmap, groups)
    }

    /** ext2fs_new_inode: the first free inode at or cyclically after the start of the directory's
        group.  It fails exactly when that group does not exist, or every usable inode is in use or
        has a bit left over in a lazy group entered in its middle. */
    method NewInode(dir: nat) returns (ok: bool, ret: nat)
      requires Valid()
      modifies this`bitmap, this`groups, blocks`bitmap, blocks`groups
      ensures Valid() && InUse() == old(InUse()) && Stale() == old(Stale()) && OnlyInitialised(sb, old(groups), groups)
      ensures forall g | 0 <= g < |groups| && Entered(sb, old(groups), g) :: groups[g] == old(groups)[g]
      ensures ok <==> && StartOf(sb, dir) <= InodesCount(sb)
                      && exists n :: sb.firstInode <= n <= InodesCount(sb) && n !in old(InUse() + Stale())
      ensures ok ==> && sb.firstInode <= ret <= InodesCount(sb) && ret !in InUse() && ret !in bitmap && IGroup(sb, ret) < |groups|
                     && (ILazy(sb, groups[IGroup(sb, ret)]) ==> Entered(sb, groups, IGroup(sb, ret)))
      ensures ok ==>
        var first := if dir == 0 then 1 else (dir - 1) / sb.inodesPerGroup * sb.inodesPerGroup + 1;
        var start := if first < sb.firstInode then sb.firstInode else first;
        forall n | sb.firstInode <= n <= InodesCount(sb) && (if start <= ret then start <= n < ret else n >= start || n < ret) :: n in old(InUse() + Stale())
      ensures blocks.InUse() == old(blocks.InUse())
    {
      StartIs(dir);
      ZeroGroup(sb);
      hide InodesCount, TakenSet, IGroup, IGroupStart, FirstIno, Geometry, First;
      var dirGroup := 0;
      if dir > 0 {
        dirGroup := IGroup(sb, dir);
      }
      var start := FirstIno(sb, dirGroup);
      GroupFirstStart(sb, dirGroup);
      FirstInoPositive(sb, dirGroup);
      if start < sb.firstInode {
        start := sb.firstInode;
      }
      if start > InodesCount(sb) {
        return false, 0;
      }
      IGroupInRange(sb, start);
      IGroupInRange(sb, sb.firstInode);
      ok, ret := Search(start);
      OnlyBits(sb, bitmap, groups);
    }

    /** The first inode of the directory's group, or the first usable one. */
    lemma StartIs(dir: nat)
      requires sb.inodesPerGroup > 0
      ensures var first := if dir == 0 then 1 else (dir - 1) / sb.inodesPerGroup * sb.inodesPerGroup + 1;
        StartOf(sb, dir) == if first < sb.firstInode then sb.firstInode else first
    {
    }

    /** The search loop of ext2fs_new_inode. */
    method Search(start: nat) returns (ok: bool, ret: nat)
      requires Valid() && sb.firstInode <= start <= InodesCount(sb)
      requires IGroupStart(sb, start) || start == sb.firstInode
      modifies this`bitmap, this`groups, blocks`bitmap, blocks`groups
      ensures Valid() && InUse() == old(InUse()) && Stale() == old(Stale()) && OnlyInitialised(sb, old(groups), groups)
      ensures forall g | 0 <= g < |groups| && Entered(sb, old(groups), g) :: groups[g] == old(groups)[g]
      ensures ok ==> && sb.firstInode <= ret <= InodesCount(sb) && ret !in InUse() && ret !in bitmap && IGroup(sb, ret) < |groups|
                     && (ILazy(sb, groups[IGroup(sb, ret)]) ==> Entered(sb, groups, IGroup(sb, ret)))
      ensures ok ==> forall n | sb.firstInode <= n <= InodesCount(sb) && BlockAlloc.Passed(start, n, ret) :: n in InUse() + Stale()
      ensures !ok ==> forall n | sb.firstInode <= n <= InodesCount(sb) :: n in InUse() + Stale()
      ensures blocks.InUse() == old(blocks.InUse())
    {
      hide InodesCount, TakenSet, StaleBits, Entered, IGroup, IGroupStart, FirstIno, Geometry, First, Used;
      var i := start;
      IGroupInRange(sb, i);
      FirstEntered(sb, groups);
      while true
        invariant Valid() && InUse() == old(InUse()) && Stale() == old(Stale()) && OnlyInitialised(sb, old(groups), groups)
        invariant blocks.InUse() == old(blocks.InUse())
        invariant forall g | 0 <= g < |groups| && Entered(sb, old(groups), g) :: groups[g] == old(groups)[g]
        invariant sb.firstInode <= i <= InodesCount(sb)
        invariant IGroup(sb, i) < |groups|
        invariant IGroupStart(sb, i) || !ILazy(sb, groups[IGroup(sb, i)]) || Entered(sb, groups, IGroup(sb, i))
        invariant forall n | sb.firstInode <= n <= InodesCount(sb) && BlockAlloc.Passed(start, n, i) :: n in InUse() + Stale()
        decreases if i >= start then InodesCount(sb) + 1 - i + start - sb.firstInode else start - i
      {
        if IGroupStart(sb, i) {
          StartNotEntered(sb, groups, i);
          SameEntered(sb, old(groups), groups, IGroup(sb, i));
          Initialise(IGroup(sb, i));
        }
        if i !in bitmap {
          break;
        }
        BitAccounted(sb, bitmap, groups, i);
        NextIGroup(sb, i);
        i := i + 1;
        if i > InodesCount(sb) {
          i := sb.firstInode;
        }
        IGroupInRange(sb, i);
        FirstEntered(sb, groups);
        if i == start {
          OnlyBits(sb, bitmap, groups);
          break;
        }
      }
      if i in bitmap {
        return false, 0;
      }
      NotTaken(sb, bitmap, groups, i);
      return true, i;
    }

    /** Initialising any group but the one entered in its middle leaves that one's bits alone. */
    method Initialise(group: nat)
      requires Valid() && group < |groups| && !Entered(sb, groups, group)
      modifies this`bitmap, this`groups, blocks`bitmap, blocks`groups
      ensures Valid() && InUse() == old(InUse()) && Stale() == old(Stale()) && !ILazy(sb, groups[group])
      ensures blocks.InUse() == old(blocks.InUse())
      ensures forall g | 0 <= g < |groups| :: groups[g] == if g == group && ILazy(sb, old(groups)[g]) then old(groups)[g].(uninit := false) else old(groups)[g]
    {
      hide TakenSet, StaleBits, Entered, InodesCount, IGroup, FirstIno, Groups.Used;
      CheckInodeUninit(group);
      StaleElsewhere(sb, old(bitmap), old(groups), bitmap, groups, group);
    }

    /** ext2fs_inode_alloc_stats2 */
    method AllocStats(ino: nat, inuse: int, isdir: bool)
      requires Valid() && ino > 0 && (inuse == 1 || inuse == -1)
      modifies this
      ensures Valid()
      ensures ino > InodesCount(sb) ==> bitmap == old(bitmap) && groups == old(groups) && superFree == old(superFree)
      ensures ino <= InodesCount(sb) ==>
        && IGroup(sb, ino) < |groups|
        && bitmap == BlockAlloc.Toggled(old(bitmap), ino, inuse)
        && groups == old(groups)[IGroup(sb, ino) := IAccounted(sb, old(groups)[IGroup(sb, ino)], IGroup(sb, ino), ino, inuse, isdir)]
        && superFree == (old(superFree) - inuse) % WORD
      ensures ino <= InodesCount(sb) ==>
        && |groups| == |old(groups)| && IGroup(sb, ino) == (ino - 1) / sb.inodesPerGroup < |groups|
        && var d, d', end := old(groups)[IGroup(sb, ino)], groups[IGroup(sb, ino)], (IGroup(sb, ino) + 1) * sb.inodesPerGroup;
        && d'.free == (d.free - inuse) % WORD % sb.limit && !d'.uninit
        && d'.usedDirs == (if isdir then (d.usedDirs + inuse) % WORD % sb.limit else d.usedDirs)
        && (d'.itableUnused != d.itableUnused ==> sb.gdtCsum && ino + d.itableUnused > end)
        && (sb.gdtCsum && ino + d.itableUnused > end ==> d'.itableUnused == (end - ino) % WORD % sb.limit)
    {
      if ino > InodesCount(sb) {
        return;
      }
      IGroupInRange(sb, ino);
      var group := IGroup(sb, ino);
      hide InodesCount, IGroup, FirstIno;
      bitmap := if inuse > 0 then bitmap + {ino} else bitmap - {ino};
      var d := groups[group].(free := (groups[group].free - inuse) % WORD % sb.limit);
      if isdir {
        d := d.(usedDirs := (d.usedDirs + inuse) % WORD % sb.limit);
      }
      d := d.(uninit := false);
      if sb.gdtCsum {
        var firstUnused := sb.inodesPerGroup - d.itableUnused + group * sb.inodesPerGroup + 1;
        if ino >= firstUnused {
          d := d.(itableUnused := (group * sb.inodesPerGroup + sb.inodesPerGroup - ino) % WORD % sb.limit);
        }
      }
      groups := groups[group := d];
      superFree := (superFree - inuse) % WORD;
    }

    lemma StatsKeep(ino: nat, inuse: int, isdir: bool)
      requires Valid() && Consistent() && 1 <= ino <= InodesCount(sb) && (inuse == 1 || inuse == -1)
      requires IGroup(sb, ino) < |groups| && !ILazy(sb, groups[IGroup(sb, ino)]) && (inuse > 0 <==> ino !in bitmap)
      ensures var g := IGroup(sb, ino);
        var groups' := groups[g := IAccounted(sb, groups[g], g, ino, inuse, isdir)];
        && TakenSet(sb, BlockAlloc.Toggled(bitmap, ino, inuse), groups') == BlockAlloc.Toggled(InUse(), ino, inuse)
        && IConserved(sb, BlockAlloc.Toggled(bitmap, ino, inuse), groups', (superFree - inuse) % WORD)
        && (sb.gdtCsum ==> Watermark(sb, BlockAlloc.Toggled(InUse(), ino, inuse), groups'))
    {
      var g := IGroup(sb, ino);
      IAccountedInit(sb, groups[g], g, ino, inuse, isdir);
      TakenToggled(sb, bitmap, groups, ino, inuse, IAccounted(sb, groups[g], g, ino, inuse, isdir));
      hide IConserved, Watermark, TakenSet, IAccounted, IGroup, InodesCount, BlockAlloc.Toggled;
      IStatsConserve(sb, bitmap, groups, superFree, ino, inuse, isdir);
      if sb.gdtCsum {
        StatsKeepWatermark(sb, bitmap, groups, ino, inuse, isdir);
      }
    }

    /** Creating a file: find an inode, then account for it.  An inode of a group entered in its
        middle wakes the bits left over in it, which no counter knows of. */
    method Allocate(dir: nat, isdir: bool) returns (ok: bool, ino: nat)
      requires Valid() && Consistent()
      modifies this, blocks
      ensures Valid()
      ensures ok <==> && StartOf(sb, dir) <= InodesCount(sb)
                      && exists n :: sb.firstInode <= n <= InodesCount(sb) && n !in old(InUse() + Stale())
      ensures ok ==> sb.firstInode <= ino <= InodesCount(sb) && ino !in old(InUse())
      ensures ok ==> InUse() == old(InUse()) + {ino} + if Entered(sb, old(groups), IGroup(sb, ino)) then old(Stale()) else {}
      ensures !ok ==> InUse() == old(InUse())
      ensures Consistent() <==> !(ok && Entered(sb, old(groups), IGroup(sb, ino)) && old(Stale()) != {})
      ensures Stale() <= old(Stale())
    {
      hide TakenSet, StaleBits, IConserved, Watermark, IAccounted, IGeometry, InodesCount, IGroup, IGroupStart;
      ok, ino := NewInode(dir);
      InitialisedKeeps(sb, old(bitmap), bitmap, old(groups), groups, superFree);
      if ok {
        FirstInodePositive();
        SameEntered(sb, old(groups), groups, IGroup(sb, ino));
        if ILazy(sb, groups[IGroup(sb, ino)]) {
          StatsWake(ino, isdir);
        } else {
          StatsKeep(ino, 1, isdir);
        }
        StatsStale(ino, 1, isdir);
        AllocStats(ino, 1, isdir);
      }
    }

    lemma StatsStale(ino: nat, inuse: int, isdir: bool)
      requires Valid() && 1 <= ino <= InodesCount(sb) && IGroup(sb, ino) < |groups|
      ensures var g := IGroup(sb, ino);
        StaleBits(sb, BlockAlloc.Toggled(bitmap, ino, inuse), groups[g := IAccounted(sb, groups[g], g, ino, inuse, isdir)]) <= Stale()
    {
      IAccountedInit(sb, groups[IGroup(sb, ino)], IGroup(sb, ino), ino, inuse, isdir);
      hide IAccounted, IGroup, InodesCount, StaleBits;
      StaleShrinks(sb, bitmap, groups, ino, inuse, IAccounted(sb, groups[IGroup(sb, ino)], IGroup(sb, ino), ino, inuse, isdir));
    }

    lemma StatsWake(ino: nat, isdir: bool)
      requires Valid() && Consistent() && 1 <= ino <= InodesCount(sb) && ino !in bitmap && Entered(sb, groups, IGroup(sb, ino))
      ensures var g := IGroup(sb, ino);
        var bitmap', groups' := bitmap + {ino}, groups[g := IAccounted(sb, groups[g], g, ino, 1, isdir)];
        && TakenSet(sb, bitmap', groups') == InUse() + {ino} + Stale()
        && ((IConserved(sb, bitmap', groups', (superFree - 1) % WORD)
             && (sb.gdtCsum ==> Watermark(sb, TakenSet(sb, bitmap', groups'), groups'))) <==> Stale() == {})
    {
      var g := IGroup(sb, ino);
      var d := IAccounted(sb, groups[g], g, ino, 1, isdir);
      IAccountedInit(sb, groups[g], g, ino, 1, isdir);
      hide IConserved, Watermark, TakenSet, IAccounted, IGroup, InodesCount, StaleBits;
      WakeTaken(sb, bitmap, groups, ino, d);
      if Stale() == {} {
        WakeKeeps(sb, bitmap, groups, superFree, ino, isdir);
      } else {
        WakeBreaks(sb, bitmap, groups, superFree, ino, isdir);
      }
    }

    lemma FirstInodePositive()
      requires Valid()
      ensures sb.firstInode > 0 && sb.inodesPerGroup > 0
    {
    }

    /** Deleting a file whose inode is in use. */
    method Release(ino: nat, isdir: bool)
      requires Valid() && Consistent() && 1 <= ino <= InodesCount(sb) && ino in bitmap
      requires IGroup(sb, ino) < |groups| && !ILazy(sb, groups[IGroup(sb, ino)])
      modifies this
      ensures Valid() && Consistent() && InUse() == old(InUse()) - {ino} && Stale() <= old(Stale())
    {
      hide TakenSet, StaleBits, IConserved, Watermark, IAccounted, IGeometry, InodesCount, IGroup;
      StatsKeep(ino, -1, isdir);
      StatsStale(ino, -1, isdir);
      AllocStats(ino, -1, isdir);
    }

    /** find_last_inode_ingrp: the position of the last marked inode of the group, from one;
        the whole group when none is marked. */
    method FindLast(group: nat) returns (last: nat)
      requires Valid() && group < |groups|
      ensures 1 <= last <= sb.inodesPerGroup
      ensures forall n | n in bitmap && FirstIno(sb, group) <= n < FirstIno(sb, group + 1) :: n <= FirstIno(sb, group) + last - 1
      ensures FirstIno(sb, group) + last - 1 in bitmap ||
        (last == sb.inodesPerGroup && forall n | FirstIno(sb, group) <= n < FirstIno(sb, group + 1) :: n !in bitmap)
    {
      hide InodesCount, IGroup, TakenSet;
      FirstInoNext(sb, group);
      var start := FirstIno(sb, group);
      var i := start + sb.inodesPerGroup - 1;
      while i >= start
        invariant start - 1 <= i <= start + sb.inodesPerGroup - 1
        invariant forall n | n in bitmap && i < n < FirstIno(sb, group + 1) :: false
      {
        if i in bitmap {
          return i - start + 1;
        }
        i := i - 1;
      }
      return sb.inodesPerGroup;
    }

    /** The body of the loop of ext2fs_set_gdt_csum for one group. */
    method SetGroup(i: nat)
      requires Valid() && Consistent() && sb.gdtCsum && i < |groups|
      modifies this`groups
      ensures Valid() && Consistent() && InUse() == old(InUse()) && Stale() <= old(Stale())
      ensures forall g | 0 <= g < |groups| && g != i :: groups[g] == old(groups)[g]
      ensures groups[i].uninit <==> Clear(InUse(), FirstIno(sb, i), FirstIno(sb, i + 1)) == sb.inodesPerGroup
      ensures Tight(sb, InUse(), i, groups[i].itableUnused)
      ensures groups[i] == old(groups)[i].(uninit := groups[i].uninit, itableUnused := groups[i].itableUnused)
    {
      hide InodesCount, IGroup, FirstIno, TakenSet, StaleBits, Clear;
      ghost var used := InUse();
      FirstInoNext(sb, i);
      FirstInoBound(sb, i);
      assert groups[i].free == Clear(used, FirstIno(sb, i), FirstIno(sb, i + 1));
      if groups[i].free == sb.inodesPerGroup {
        AllFree(sb, used, FirstIno(sb, i), FirstIno(sb, i + 1));
        assert Marked(sb, used, i, sb.inodesPerGroup);
        RetagKeeps(sb, bitmap, groups, superFree, i, true, sb.inodesPerGroup);
        RetagStale(sb, bitmap, groups, i, true, sb.inodesPerGroup);
        groups := groups[i := groups[i].(uninit := true, itableUnused := sb.inodesPerGroup % sb.limit)];
      } else {
        LazyIsFree(sb, bitmap, groups, i);
        var last := FindLast(i);
        ghost var unused := sb.inodesPerGroup - last;
        BitsAreUsed(sb, bitmap, groups, i);
        LastUsed(used, FirstIno(sb, i), FirstIno(sb, i + 1));
        assert Marked(sb, used, i, unused);
        RetagKeeps(sb, bitmap, groups, superFree, i, false, unused);
        RetagStale(sb, bitmap, groups, i, false, unused);
        groups := groups[i := groups[i].(uninit := false, itableUnused := (sb.inodesPerGroup - last) % sb.limit)];
      }
    }

    /** The flag is set exactly if no inode of the group is in use; the counts stay. */
    ghost predicate Retagged(d: IDesc, d': IDesc, used: set<nat>, g: nat) {
      && d'.free == d.free && d'.usedDirs == d.usedDirs
      && (d'.uninit <==> Clear(used, FirstIno(sb, g), FirstIno(sb, g + 1)) == sb.inodesPerGroup)
    }

    /** ext2fs_set_gdt_csum */
    method SetGdtCsum()
      requires Valid() && Consistent()
      modifies this`groups
      ensures Valid() && Consistent() && InUse() == old(InUse()) && Stale() <= old(Stale())
      ensures sb.gdtCsum ==> forall g | 0 <= g < |groups| :: Tight(sb, InUse(), g, groups[g].itableUnused)
      ensures if sb.gdtCsum then |groups| == |old(groups)| && forall g | 0 <= g < |groups| :: Retagged(old(groups)[g], groups[g], InUse(), g)
              else groups == old(groups)
    {
      if !sb.gdtCsum {
        return;
      }
      hide Consistent, Tight, TakenSet, StaleBits, Clear;
      for i := 0 to sb.groupCount
        invariant |groups| == |old(groups)| && forall g | 0 <= g < |groups| ::
          if g < i then Retagged(old(groups)[g], groups[g], InUse(), g) else groups[g] == old(groups)[g]
        invariant Valid() && Consistent() && InUse() == old(InUse()) && Stale() <= old(Stale())
        invariant forall g | 0 <= g < i :: Tight(sb, InUse(), g, groups[g].itableUnused)
      {
        SetGroup(i);
      }
    }
  }

  /** Lazy initialisation keeps counters and watermark. */
  lemma InitialisedKeeps(sb: ISuper, b1: set<nat>, b2: set<nat>, g1: seq<IDesc>, g2: seq<IDesc>, superFree: nat)
    requires IGeometry(sb) && |g1| == |g2| == sb.groupCount
    requires TakenSet(sb, b1, g1) == TakenSet(sb, b2, g2) && Inodes.OnlyInitialised(sb, g1, g2)
    ensures IConserved(sb, b1, g1, superFree) ==> IConserved(sb, b2, g2, superFree)
    ensures Watermark(sb, TakenSet(sb, b1, g1), g1) ==> Watermark(sb, TakenSet(sb, b2, g2), g2)
  {
    hide TakenSet, FirstIno, InodesCount, Clear, Marked;
    ISumSame(sb, g1, g2);
  }

  lemma {:induction false} ISumSame(sb: ISuper, g1: seq<IDesc>, g2: seq<IDesc>)
    requires Inodes.OnlyInitialised(sb, g1, g2)
    ensures ISum(g1) == ISum(g2)
  {
    if g1 != [] {
      ISumSame(sb, g1[..|g1| - 1], g2[..|g2| - 1]);
    }
  }

  datatype IStep = AllocateInode(dir: nat, isdir: bool) | ReleaseInode(ino: nat, isdir: bool) | SetChecksums

  /** What one step of a run may do to the inodes in use: an allocation hands out a usable inode that
      was free at that moment, or fails without one; a release frees its inode if that is in use. */
  ghost predicate IMoved(sb: ISuper, before: set<nat>, step: IStep, out: BlockAlloc.Reply, after: set<nat>)
    requires IGeometry(sb)
  {
    match step
    case AllocateInode(dir, isdir) =>
      if out.Handled? then sb.firstInode <= out.blk <= InodesCount(sb) && out.blk !in before && after == before + {out.blk}
      else after == before &&
           (StartOf(sb, dir) > InodesCount(sb) || forall n | sb.firstInode <= n <= InodesCount(sb) :: n in before)
    case ReleaseInode(ino, isdir) =>
      if ino in before then out == BlockAlloc.Handled(ino) && after == before - {ino} else out == BlockAlloc.Refused && after == before
    case SetChecksums => after == before
  }

  /** Any run of inode allocations, releases of inodes in use and checksum passes keeps the counters
      equal to the clear bits and no inode in use behind a watermark. */
  method RunInodes(fs: Inodes, steps: seq<IStep>) returns (out: seq<BlockAlloc.Reply>, ghost states: seq<set<nat>>)
    requires fs.Valid() && fs.Consistent() && fs.Stale() == {}
    modifies fs, fs.blocks
    ensures fs.Valid() && fs.Consistent() && fs.Stale() == {}
    ensures fs.superFree == Clear(fs.InUse(), 1, InodesCount(fs.sb) + 1)
    ensures |out| == |steps| && |states| == |steps| + 1
    ensures states[0] == old(fs.InUse()) && states[|steps|] == fs.InUse()
    ensures forall i | 0 <= i < |steps| :: IMoved(fs.sb, states[i], steps[i], out[i], states[i + 1])
  {
    hide TakenSet, StaleBits, IConserved, Watermark, IGroupStart, IGeometry, InodesCount, IGroup, IMoved;
    out, states := [], [fs.InUse()];
    for i := 0 to |steps|
      invariant fs.Valid() && fs.Consistent() && fs.Stale() == {}
      invariant |out| == i && |states| == i + 1 && states[0] == old(fs.InUse()) && states[i] == fs.InUse()
      invariant forall j | 0 <= j < i :: IMoved(fs.sb, states[j], steps[j], out[j], states[j + 1])
    {
      var o := PerformInode(fs, steps[i]);
      out, states := out + [o], states + [fs.InUse()];
    }
    SuperFreeIsClear(fs.sb, fs.bitmap, fs.groups, fs.superFree);
  }

  method PerformInode(fs: Inodes, step: IStep) returns (out: BlockAlloc.Reply)
    requires fs.Valid() && fs.Consistent() && fs.Stale() == {}
    modifies fs, fs.blocks
    ensures fs.Valid() && fs.Consistent() && fs.Stale() == {}
    ensures IMoved(fs.sb, old(fs.InUse()), step, out, fs.InUse())
  {
    hide TakenSet, StaleBits, IConserved, Watermark, IGroupStart, IGeometry, InodesCount, IGroup, FirstIno, StartOf, Entered;
    ghost var before := fs.InUse();
    assert before + fs.Stale() == before;
    match step {
      case AllocateInode(dir, isdir) =>
        var ok, ino := fs.Allocate(dir, isdir);
        if ok {
          assert fs.InUse() == before + {ino};
          return BlockAlloc.Handled(ino);
        }
        return BlockAlloc.Refused;
      case ReleaseInode(ino, isdir) =>
        TakenIff(fs.sb, fs.bitmap, fs.groups, ino);
        if 1 <= ino <= InodesCount(fs.sb) && ino in fs.bitmap {
          RangeOf(fs.sb, ino, 0);
          if !ILazy(fs.sb, fs.groups[IGroup(fs.sb, ino)]) {
            TakenBit(fs.sb, fs.bitmap, fs.groups, ino);
            fs.Release(ino, isdir);
            return BlockAlloc.Handled(ino);
          }
        }
        return BlockAlloc.Refused;
      case SetChecksums =>
        fs.SetGdtCsum();
        return BlockAlloc.Refused;
    }
  }

  lemma TakenIff(sb: ISuper, bitmap: set<nat>, groups: seq<IDesc>, ino: nat)
    requires IGeometry(sb) && |groups| == sb.groupCount
    ensures ino in TakenSet(sb, bitmap, groups) ==>
      1 <= ino <= InodesCount(sb) && ino in bitmap && IGroup(sb, ino) < |groups| && !ILazy(sb, groups[IGroup(sb, ino)])
  {
  }

  lemma SuperFreeIsClear(sb: ISuper, bitmap: set<nat>, groups: seq<IDesc>, superFree: nat)
    requires IConserved(sb, bitmap, groups, superFree)
    ensures superFree == Clear(TakenSet(sb, bitmap, groups), 1, InodesCount(sb) + 1)
  {
    ISumBound(sb, groups, TakenSet(sb, bitmap, groups));
  }

  /** A file system with an inode in use in the group of the first usable one, as the reserved inodes
      are, has no such bits, wherever that group starts. */
  lemma ReservedInUse(sb: ISuper, bitmap: set<nat>, groups: seq<IDesc>, r: nat)
    requires IGeometry(sb) && |groups| == sb.groupCount
    requires r in TakenSet(sb, bitmap, groups) && IGroup(sb, r) == IGroup(sb, sb.firstInode)
    ensures StaleBits(sb, bitmap, groups) == {}
  {
    assert forall g: nat :: !Entered(sb, groups, g);
    forall ino: nat ensures !StaleBit(sb, groups, ino) {
    }
  }

  /** The watermark is as high as it can be: the whole group if no inode of it is in use, else just
      behind one in use. */
  ghost predicate Tight(sb: ISuper, used: set<nat>, g: nat, unused: nat) {
    if unused == sb.inodesPerGroup then forall n | FirstIno(sb, g) <= n < FirstIno(sb, g + 1) :: n !in used
    else unused < sb.inodesPerGroup && FirstIno(sb, g) + sb.inodesPerGroup - unused - 1 in used
  }

  lemma {:induction false} AllFree(sb: ISuper, used: set<nat>, lo: nat, hi: nat)
    requires lo <= hi && Clear(used, lo, hi) == hi - lo
    ensures forall n | lo <= n < hi :: n !in used
  {
    if lo < hi {
      ClearBound(used, lo, hi - 1);
      AllFree(sb, used, lo, hi - 1);
    }
  }

  lemma {:induction false} NoneUsed(used: set<nat>, lo: nat, hi: nat)
    requires lo <= hi && forall n | lo <= n < hi :: n !in used
    ensures Clear(used, lo, hi) == hi - lo
  {
    if lo < hi {
      NoneUsed(used, lo, hi - 1);
    }
  }

  /** A lazy group counts all its inodes as free. */
  lemma LazyIsFree(sb: ISuper, bitmap: set<nat>, groups: seq<IDesc>, g: nat)
    requires IGeometry(sb) && |groups| == sb.groupCount && g < sb.groupCount
    requires groups[g].free == Clear(TakenSet(sb, bitmap, groups), FirstIno(sb, g), FirstIno(sb, g + 1))
    ensures ILazy(sb, groups[g]) ==> groups[g].free == sb.inodesPerGroup
  {
    FirstInoNext(sb, g);
    if ILazy(sb, groups[g]) {
      var used := TakenSet(sb, bitmap, groups);
      hide FirstIno, InodesCount, IGroup, Clear;
      forall n: nat | FirstIno(sb, g) <= n < FirstIno(sb, g + 1) ensures n !in used {
        FirstInoPositive(sb, g);
        IGroupIff(sb, n, g);
      }
      NoneUsed(used, FirstIno(sb, g), FirstIno(sb, g + 1));
    }
  }

  lemma LastUsed(used: set<nat>, lo: nat, hi: nat)
    requires lo <= hi
    ensures Clear(used, lo, hi) != hi - lo ==> exists n :: lo <= n < hi && n in used
  {
    if forall n | lo <= n < hi :: n !in used {
      NoneUsed(used, lo, hi);
    }
  }

  lemma BitsAreUsed(sb: ISuper, bitmap: set<nat>, groups: seq<IDesc>, g: nat)
    requires IGeometry(sb) && |groups| == sb.groupCount && g < sb.groupCount && !ILazy(sb, groups[g])
    ensures forall n | FirstIno(sb, g) <= n < FirstIno(sb, g + 1) :: n in bitmap <==> n in TakenSet(sb, bitmap, groups)
  {
    hide InodesCount, IGroup, FirstIno, TakenSet;
    forall n | FirstIno(sb, g) <= n < FirstIno(sb, g + 1) ensures n in bitmap <==> n in TakenSet(sb, bitmap, groups) {
      FirstInoPositive(sb, g);
      if n in bitmap {
        BitTaken(sb, bitmap, groups, g, n);
      } else {
        NotTaken(sb, bitmap, groups, n);
      }
    }
  }

  /** A group is put to sleep only when its bits are clear, so no bit is left over in it. */
  lemma RetagStale(sb: ISuper, bitmap: set<nat>, groups: seq<IDesc>, g: nat, flag: bool, unused: nat)
    requires IGeometry(sb) && |groups| == sb.groupCount && g < sb.groupCount && sb.gdtCsum
    requires flag ==> forall n | FirstIno(sb, g) <= n < FirstIno(sb, g + 1) :: n !in TakenSet(sb, bitmap, groups)
    ensures StaleBits(sb, bitmap, groups[g := groups[g].(uninit := flag, itableUnused := unused)]) <= StaleBits(sb, bitmap, groups)
  {
    var groups' := groups[g := groups[g].(uninit := flag, itableUnused := unused)];
    if !ILazy(sb, groups[g]) {
      BitsAreUsed(sb, bitmap, groups, g);
    }
    hide InodesCount, IGroup, FirstIno, TakenSet;
    forall n | n in bitmap && StaleBit(sb, groups', n) ensures StaleBit(sb, groups, n) {
      IGroupIff(sb, n, g);
    }
  }

  lemma NotTaken(sb: ISuper, bitmap: set<nat>, groups: seq<IDesc>, n: nat)
    requires IGeometry(sb) && |groups| == sb.groupCount && n !in bitmap
    ensures n !in TakenSet(sb, bitmap, groups)
  {
  }

  lemma BitTaken(sb: ISuper, bitmap: set<nat>, groups: seq<IDesc>, g: nat, n: nat)
    requires IGeometry(sb) && |groups| == sb.groupCount && g < sb.groupCount
    requires n in bitmap && FirstIno(sb, g) <= n < FirstIno(sb, g + 1) && !ILazy(sb, groups[g])
    ensures n in TakenSet(sb, bitmap, groups)
  {
    FirstInoBound(sb, g);
    IGroupIff(sb, n, g);
    assert Taken(sb, bitmap, groups, n);
  }

  /** Setting a group's flag only when the group is free, and clearing it only when the bitmap has
      been built, changes no inode's status. */
  lemma RetagTaken(sb: ISuper, bitmap: set<nat>, groups: seq<IDesc>, g: nat, flag: bool, unused: nat)
    requires IGeometry(sb) && |groups| == sb.groupCount && g < sb.groupCount
    requires flag ==> forall n | FirstIno(sb, g) <= n < FirstIno(sb, g + 1) :: n !in TakenSet(sb, bitmap, groups)
    requires !flag ==> !ILazy(sb, groups[g])
    ensures TakenSet(sb, bitmap, groups[g := groups[g].(uninit := flag, itableUnused := unused)]) == TakenSet(sb, bitmap, groups)
  {
    var groups' := groups[g := groups[g].(uninit := flag, itableUnused := unused)];
    hide FirstIno, InodesCount, IGroup, IGeometry;
    forall n: nat ensures Taken(sb, bitmap, groups', n) <==> Taken(sb, bitmap, groups, n) {
      if 1 <= n <= InodesCount(sb) {
        RangeOf(sb, n, g);
        assert n in TakenSet(sb, bitmap, groups) <==> Taken(sb, bitmap, groups, n);
      }
    }
  }

  lemma RangeOf(sb: ISuper, n: nat, g: nat)
    requires IGeometry(sb) && 1 <= n <= InodesCount(sb)
    ensures sb.inodesPerGroup > 0
    ensures IGroup(sb, n) < sb.groupCount
    ensures IGroup(sb, n) == g <==> FirstIno(sb, g) <= n < FirstIno(sb, g + 1)
  {
    IGroupInRange(sb, n);
    IGroupIff(sb, n, g);
  }

  /** ... and a watermark that respects the inodes in use keeps the invariant. */
  lemma RetagKeeps(sb: ISuper, bitmap: set<nat>, groups: seq<IDesc>, superFree: nat, g: nat, flag: bool, unused: nat)
    requires IConserved(sb, bitmap, groups, superFree) && g < sb.groupCount
    requires Watermark(sb, TakenSet(sb, bitmap, groups), groups)
    requires flag ==> forall n | FirstIno(sb, g) <= n < FirstIno(sb, g + 1) :: n !in TakenSet(sb, bitmap, groups)
    requires !flag ==> !ILazy(sb, groups[g])
    requires Marked(sb, TakenSet(sb, bitmap, groups), g, unused)
    ensures unused % sb.limit == unused
    ensures var groups' := groups[g := groups[g].(uninit := flag, itableUnused := unused)];
      && TakenSet(sb, bitmap, groups') == TakenSet(sb, bitmap, groups)
      && IConserved(sb, bitmap, groups', superFree)
      && Watermark(sb, TakenSet(sb, bitmap, groups'), groups')
  {
    var d := groups[g].(uninit := flag, itableUnused := unused);
    RetagTaken(sb, bitmap, groups, g, flag, unused);
    assert unused % sb.limit == unused;
    hide FirstIno, InodesCount, IGroup, Clear, TakenSet, Marked;
    ISumUpdated(groups, g, d);
  }

  lemma ZeroGroup(sb: ISuper)
    requires IGeometry(sb)
    ensures FirstIno(sb, 0) == 1 <= InodesCount(sb)
  {
    Mono(1, sb.groupCount, sb.inodesPerGroup);
  }

  lemma FirstInoPositive(sb: ISuper, g: nat)
    ensures FirstIno(sb, g) >= 1
  {
  }

  lemma TakenBit(sb: ISuper, bitmap: set<nat>, groups: seq<IDesc>, ino: nat)
    requires IGeometry(sb) && |groups| == sb.groupCount && 1 <= ino <= InodesCount(sb)
    requires IGroup(sb, ino) < sb.groupCount && !ILazy(sb, groups[IGroup(sb, ino)])
    ensures ino in TakenSet(sb, bitmap, groups) <==> ino in bitmap
  {
    assert Taken(sb, bitmap, groups, ino) <==> ino in bitmap by { IGroupInRange(sb, ino); }
  }

  /** One lazy group of 16 inodes, all of them free, with some bits of its bitmap set. */
  const ONE_LAZY: ISuper := ISuper(16, 1, 11, true, HALF)
  const ONE_GROUP: seq<IDesc> := [IDesc(16, 0, 16, true)]

  lemma OneLazy(bitmap: set<nat>)
    ensures IGeometry(ONE_LAZY) && |ONE_GROUP| == ONE_LAZY.groupCount && InodesCount(ONE_LAZY) == 16
    ensures TakenSet(ONE_LAZY, bitmap, ONE_GROUP) == {} && StartOf(ONE_LAZY, 0) == 11
    ensures forall n | n in bitmap && 1 <= n <= 16 :: n in StaleBits(ONE_LAZY, bitmap, ONE_GROUP)
    ensures forall n: nat | 1 <= n <= 16 :: IGroup(ONE_LAZY, n) == 0 && Entered(ONE_LAZY, ONE_GROUP, 0)
    ensures IConserved(ONE_LAZY, bitmap, ONE_GROUP, 16) && Watermark(ONE_LAZY, {}, ONE_GROUP)
  {
    forall ino | ino in bitmap ensures !Taken(ONE_LAZY, bitmap, ONE_GROUP, ino) {
    }
    forall n | n in bitmap && 1 <= n <= 16 ensures StaleBit(ONE_LAZY, ONE_GROUP, n) {
    }
    NoneUsed({}, 1, 17);
    assert ONE_GROUP[..0] == [];
  }

  /** The search starts at inode 11, meets no group start, finds every bit set, and fails although
      all inodes are free. */
  method LazyGroupSkipped() returns (fs: Inodes, ok: bool)
    ensures fs.Valid() && fs.sb == ONE_LAZY && fs.groups == ONE_GROUP && fs.InUse() == {} && !ok
  {
    var blocks := OneBlockGroup();
    var bitmap: set<nat> := {11, 12, 13, 14, 15, 16};
    OneLazy(bitmap);
    fs := new Inodes(ONE_LAZY, blocks, bitmap, ONE_GROUP, 16);
    var ret;
    hide TakenSet, StaleBits, Entered;
    ok, ret := fs.NewInode(0);
    SameEntered(ONE_LAZY, ONE_GROUP, fs.groups, 0);
  }

  method OneBlockGroup() returns (blocks: BlockAlloc.Blocks)
    ensures fresh(blocks) && blocks.Valid() && |blocks.groups| == 1
  {
    var sb := Super(1, 8192, 8193, 1, 1024, false, true, false, true, 0, 1, 0, 32, 2);
    blocks := new BlockAlloc.Blocks(sb, {}, [Desc(0, 0, false, 3, 4, 5)], 0, 0);
  }

  /** With one bit left over the search hands out inode 11, and the counters, right before, are
      wrong afterwards: they say 15 where 14 inodes are free. */
  lemma LeftoverWakes()
    ensures IConserved(ONE_LAZY, {12}, ONE_GROUP, 16)
    ensures !IConserved(ONE_LAZY, {11, 12}, ONE_GROUP[0 := IAccounted(ONE_LAZY, ONE_GROUP[0], 0, 11, 1, false)], 15)
  {
    OneLazy({12});
    hide TakenSet, StaleBits, Entered, IConserved, IAccounted;
    WakeBreaks(ONE_LAZY, {12}, ONE_GROUP, 16, 11, false);
    assert {12} + {11} == {11, 12};
  }
}
