/**
 Looking a block up in an extent tree, and what becomes of that when only leaves are written: the keys
 stay, so every descent ends in the same leaf as before.
 */
module ExtentCross {
  import opened ExtentTree
  import opened ExtentWalk
  import opened ExtentGrowth
  import opened ExtentMap
  import opened ExtentEdit
  import opened ExtentMoves

  // ---------- Looking up ----------

  /** The mapping of a block that the descent for it finds. */
  ghost function Look(disk: Disk, es: seq<Entry>, d: nat, blk: nat): Option<(nat, bool)>
    requires Formed(disk, es, d)
  {
    if es == [] then None else
      var e := Seek(disk, es, d, blk);
      if Covers(e, blk) then Some((e.pblk + (blk - e.lblk), e.uninit)) else None
  }

  lemma {:induction false} AtEntryOf(all: seq<Entry>, i: nat, blk: nat, lo: nat, hi: nat)
    requires Runs(all, lo, hi) && i < |all| && Covers(all[i], blk)
    ensures At(all, blk) == Some((all[i].pblk + (blk - all[i].lblk), all[i].uninit))
  {
    if i > 0 {
      RunsApart(all, lo, hi, 0, i);
      AtEntryOf(all[1..], i - 1, blk, Next(all, hi), hi);
    }
  }

  lemma {:induction false} AtNoEntry(all: seq<Entry>, blk: nat)
    requires forall x | x in all :: !Covers(x, blk)
    ensures At(all, blk) == None
  {
    if all != [] {
      assert all[0] in all;
      AtNoEntry(all[1..], blk);
    }
  }

  /** With keys in order, that is the mapping in the list of leaf entries. */
  lemma LookAt(disk: Disk, es: seq<Entry>, d: nat, blk: nat)
    requires Formed(disk, es, d) && Keyed(disk, es, d, 0, U32)
    ensures Look(disk, es, d, blk) == At(Leaves(disk, es, d), blk)
  {
    hide Formed, Keyed, Seek, Runs, At;
    var all := Leaves(disk, es, d);
    if es == [] {
      NoLeaves(disk, d);
      AtNoEntry(all, blk);
    } else {
      SeekFinds(disk, es, d, 0, U32, blk);
      KeyedList(disk, es, d, 0, U32);
      var e := Seek(disk, es, d, blk);
      var i :| 0 <= i < |all| && all[i] == e;
      if Covers(e, blk) {
        AtEntryOf(all, i, blk, 0, U32);
      } else {
        AtNoEntry(all, blk);
      }
    }
  }

  // ---------- Trees with the same index nodes ----------

  /** As many entries, with the same keys where a descent looks at them. */
  predicate SameKeys(a: seq<Entry>, b: seq<Entry>) {
    |a| == |b| && forall i | 1 <= i < |a| :: a[i].lblk == b[i].lblk
  }

  lemma {:induction false} PickSame(a: seq<Entry>, b: seq<Entry>, blk: nat)
    requires SameKeys(a, b) && a != []
    ensures Pick(a, blk) == Pick(b, blk)
  {
    if |a| > 1 && blk >= a[1].lblk {
      PickSame(a[1..], b[1..], blk);
    }
  }

  /** The index nodes are the same, and the leaves have the same keys. */
  ghost predicate Alike(disk: Disk, disk': Disk, es: seq<Entry>, d: nat)
    decreases d, |es|
  {
    d > 0 && es != [] ==>
      && es[0].pblk in disk && es[0].pblk in disk'
      && (if d == 1 then SameKeys(disk[es[0].pblk].entries, disk'[es[0].pblk].entries)
          else disk[es[0].pblk] == disk'[es[0].pblk] && Alike(disk, disk', disk[es[0].pblk].entries, d - 1))
      && Alike(disk, disk', es[1..], d)
  }

  lemma {:induction false} AlikeCat(disk: Disk, disk': Disk, a: seq<Entry>, b: seq<Entry>, d: nat)
    ensures Alike(disk, disk', a + b, d) <==> Alike(disk, disk', a, d) && Alike(disk, disk', b, d)
  {
    if a == [] {
      assert a + b == b;
    } else {
      AlikeCat(disk, disk', a[1..], b, d);
      assert (a + b)[1..] == a[1..] + b;
    }
  }

  lemma {:induction false} AlikeAgree(disk: Disk, disk': Disk, es: seq<Entry>, d: nat)
    requires Formed(disk, es, d) && Agree(disk, disk', Foot(disk, es, d))
    ensures Alike(disk, disk', es, d)
    decreases d, |es|
  {
    if d > 0 && es != [] {
      AlikeAgree(disk, disk', disk[es[0].pblk].entries, d - 1);
      AlikeAgree(disk, disk', es[1..], d);
    }
  }

  lemma {:induction false} AlikeThen(d0: Disk, d1: Disk, d2: Disk, es: seq<Entry>, d: nat)
    requires Alike(d0, d1, es, d) && Alike(d1, d2, es, d)
    ensures Alike(d0, d2, es, d)
    decreases d, |es|
  {
    if d > 0 && es != [] {
      if d > 1 {
        AlikeThen(d0, d1, d2, d0[es[0].pblk].entries, d - 1);
      }
      AlikeThen(d0, d1, d2, es[1..], d);
    }
  }

  lemma {:induction false} AlikeCount(disk: Disk, disk': Disk, es: seq<Entry>, d: nat)
    requires Alike(disk, disk', es, d)
    ensures |Leaves(disk, es, d)| == |Leaves(disk', es, d)|
    decreases d, |es|
  {
    if d > 0 && es != [] {
      if d > 1 {
        AlikeCount(disk, disk', disk[es[0].pblk].entries, d - 1);
      }
      AlikeCount(disk, disk', es[1..], d);
    }
  }

  lemma AlikeOne(disk: Disk, disk': Disk, e: Entry, d: nat)
    requires d > 0
    ensures Alike(disk, disk', [e], d) <==>
      && e.pblk in disk && e.pblk in disk'
      && (if d == 1 then SameKeys(disk[e.pblk].entries, disk'[e.pblk].entries)
          else disk[e.pblk] == disk'[e.pblk] && Alike(disk, disk', disk[e.pblk].entries, d - 1))
  {
    assert [e][1..] == [];
  }

  /** Writing a leaf with the same keys keeps the tree alike. */
  lemma {:induction false} AlikeWritten(disk: Disk, path: seq<Level>, depth: nat, buf: Node, m: nat)
    requires Steady(disk, path, depth) && |path| == depth + 1 && m < depth && path[depth - 1].curr >= 0
    requires SameKeys(Top(path).buf.entries, buf.entries)
    ensures Alike(disk, disk[BlockAt(path, depth) := buf], path[m].buf.entries, depth - m)
    decreases depth - m
  {
    hide Formed, Foot, Alike, Lefts, Rights;
    var disk', l, d := disk[BlockAt(path, depth) := buf], path[m], depth - m;
    BesideApart(disk, path, depth, depth, m);
    BelowApart(disk, path, depth, m + 1, m);
    FootOnDisk(disk, Lefts(l), d);
    FootOnDisk(disk, Rights(l), d);
    AlikeAgree(disk, disk', Lefts(l), d);
    AlikeAgree(disk, disk', Rights(l), d);
    LevelParts(l);
    var e := l.buf.entries[l.curr];
    AlikeOne(disk, disk', e, d);
    assert Linked(disk, path[m], path[m + 1]);
    if m + 1 < depth {
      AlikeWritten(disk, path, depth, buf, m + 1);
      BelowApart(disk, path, depth, depth, m + 1);
      BelowApart(disk, path, depth, m + 1, m + 1);
    }
    AlikeCat(disk, disk', Lefts(l), [e] + Rights(l), d);
    AlikeCat(disk, disk', [e], Rights(l), d);
  }

  // ---------- The leaf where a descent ends ----------

  /** Where in the list of leaf entries the descent ends. */
  ghost function SeekAt(disk: Disk, es: seq<Entry>, d: nat, blk: nat): nat
    requires es != [] && Formed(disk, es, d)
    decreases d
  {
    var c := Pick(es, blk);
    if d == 0 then c else
      KidFormed(disk, es, d, c);
      |Leaves(disk, es[..c], d)| + SeekAt(disk, disk[es[c].pblk].entries, d - 1, blk)
  }

  lemma SeekStep(disk: Disk, es: seq<Entry>, d: nat, blk: nat)
    requires es != [] && Formed(disk, es, d)
    ensures d == 0 ==> SeekAt(disk, es, d, blk) == Pick(es, blk) && Seek(disk, es, d, blk) == es[Pick(es, blk)]
    ensures d > 0 ==>
      var c := Pick(es, blk);
      && es[c].pblk in disk && 0 < |disk[es[c].pblk].entries| && Formed(disk, disk[es[c].pblk].entries, d - 1)
      && SeekAt(disk, es, d, blk) == |Leaves(disk, es[..c], d)| + SeekAt(disk, disk[es[c].pblk].entries, d - 1, blk)
      && Seek(disk, es, d, blk) == Seek(disk, disk[es[c].pblk].entries, d - 1, blk)
  {
    hide Pick, Leaves;
    if d > 0 {
      KidFormed(disk, es, d, Pick(es, blk));
    }
  }

  lemma {:induction false} SeekAtIs(disk: Disk, es: seq<Entry>, d: nat, blk: nat)
    requires es != [] && Formed(disk, es, d)
    ensures SeekAt(disk, es, d, blk) < |Leaves(disk, es, d)| && Leaves(disk, es, d)[SeekAt(disk, es, d, blk)] == Seek(disk, es, d, blk)
    decreases d
  {
    hide Formed, Pick, Leaves, Seek, SeekAt;
    var c := Pick(es, blk);
    SeekStep(disk, es, d, blk);
    if d == 0 {
      LeavesFlat(disk, es);
    } else {
      var ch := disk[es[c].pblk].entries;
      SeekAtIs(disk, ch, d - 1, blk);
      Cut(es, c);
      LeavesCat(disk, es[..c], [es[c]] + es[c + 1..], d);
      LeavesCat(disk, [es[c]], es[c + 1..], d);
      OneEntry(disk, es[c], d, 0, 0);
      InMiddle(Leaves(disk, es[..c], d), Leaves(disk, ch, d - 1), Leaves(disk, es[c + 1..], d), SeekAt(disk, ch, d - 1, blk));
    }
  }

  lemma InMiddle(a: seq<Entry>, m: seq<Entry>, b: seq<Entry>, i: nat)
    requires i < |m|
    ensures |a| + i < |a + (m + b)| && (a + (m + b))[|a| + i] == m[i]
  {
  }

  /** Descents in an alike tree end in the same place. */
  lemma {:induction false} SeekAlike(disk: Disk, disk': Disk, es: seq<Entry>, d: nat, blk: nat)
    requires es != [] && Formed(disk, es, d) && Formed(disk', es, d) && Alike(disk, disk', es, d)
    ensures SeekAt(disk', es, d, blk) == SeekAt(disk, es, d, blk)
    decreases d
  {
    hide Formed, Pick, Leaves, Alike, SeekAt;
    var c := Pick(es, blk);
    SeekStep(disk, es, d, blk);
    SeekStep(disk', es, d, blk);
    if d > 0 {
      Cut(es, c);
      AlikeCat(disk, disk', es[..c], [es[c]] + es[c + 1..], d);
      AlikeCat(disk, disk', [es[c]], es[c + 1..], d);
      AlikeOne(disk, disk', es[c], d);
      AlikeCount(disk, disk', es[..c], d);
      var a, b := disk[es[c].pblk].entries, disk'[es[c].pblk].entries;
      if d == 1 {
        SeekStep(disk, a, 0, blk);
        SeekStep(disk', b, 0, blk);
        PickSame(a, b, blk);
      } else {
        SeekAlike(disk, disk', a, d - 1, blk);
      }
    }
  }

  lemma TrackAt(path: seq<Level>, n: nat, blk: nat)
    requires OnTrack(path, |path|, blk) && n < |path|
    ensures path[n].buf.entries != [] && path[n].curr == Pick(path[n].buf.entries, blk)
  {
  }

  /** The position that a descent leaves is that place. */
  lemma {:induction false} SeekHere(disk: Disk, path: seq<Level>, depth: nat, blk: nat, n: nat)
    requires Steady(disk, path, depth) && |path| == depth + 1 && OnTrack(path, |path|, blk) && n <= depth
    ensures path[n].buf.entries != [] && Formed(disk, path[n].buf.entries, depth - n)
    ensures |LeftOf(disk, path, depth, n)| + SeekAt(disk, path[n].buf.entries, depth - n, blk) == |LeftOf(disk, path, depth, depth)| + Top(path).curr
    decreases depth - n
  {
    hide Formed, Foot, Pick, Lefts, Rights, Leaves, SeekAt, Seek, Steady, OnTrack;
    var l, d := path[n], depth - n;
    SteadyFormed(disk, path, depth, n);
    TrackAt(path, n, blk);
    SeekStep(disk, l.buf.entries, d, blk);
    if n < depth {
      StepOf(disk, path, depth, n + 1);
      LeftsAt(l);
      LeftStep(disk, path, depth, n + 1);
      SeekHere(disk, path, depth, blk, n + 1);
    }
  }

  // ---------- Merges that cross the end of a leaf ----------

  /** Setting the last block of an entry that ends its leaf would merge it into the first entry of the
      next leaf under the same parent; setting the first block of an entry that starts its leaf, into
      the last entry of the leaf before. */
  ghost predicate Crosses(all: seq<Entry>, k: nat, path: seq<Level>, l: nat, p: nat, uninit: bool)
    requires path != []
  {
    && k < |all| && Covers(all[k], l) && all[k].len > 1 && p != 0 && !Already(all[k], l, p, uninit)
    && if l == all[k].lblk + all[k].len - 1 then
         SeesNext(path) && Top(path).left == 0 && k + 1 < |all| && PrependsTo(all[k + 1], l, p, uninit)
       else
         l == all[k].lblk && Top(path).curr == 0 && k > 0 && AppendsTo(all[k - 1], l, p, uninit)
  }

  // ---------- What setting a block means for lookups ----------

  /** The path that the descent for a block leaves. */
  ghost predicate Arrived(disk: Disk, root: Level, depth: nat, path: seq<Level>, blk: nat) {
    && Steady(disk, path, depth) && |path| == depth + 1 && Top(path).curr >= 0 && path[0].buf == root.buf && path[0].end == root.end
    && OnTrack(path, |path|, blk) && forall i | 0 <= i < depth :: OpenAt(path[i], blk)
  }

  lemma Came(disk: Disk, root: Level, depth: nat, path: seq<Level>, blk: nat, all: seq<Entry>)
    requires Arrived(disk, root, depth, path, blk) && all == Leaves(disk, root.buf.entries, depth) && Keyed(disk, root.buf.entries, depth, 0, U32)
    ensures Steady(disk, path, depth) && |path| == depth + 1 && Top(path).curr >= 0 && OnTrack(path, |path|, blk) && path[0].buf == root.buf
    ensures Here(disk, path, depth) < |all| && Runs(all, 0, U32)
  {
    hide Formed, Foot, Keyed, Leaves, Runs, Steady, OnTrack, OpenAt;
    AtLeafParts(disk, path, depth);
    SteadyFormed0(disk, path, depth);
    KeyedList(disk, root.buf.entries, depth, 0, U32);
  }

  /** After the descent for a block NEXT reports exactly the leaf entries that follow if and only if at
      every level above the leaf the entry is not the last one, nor has the block itself as its key. */
  lemma LeavesAfterGoto(disk: Disk, root: Level, depth: nat, path: seq<Level>, blk: nat)
    requires Arrived(disk, root, depth, path, blk)
    ensures (forall i | 0 <= i < |path| :: Placed(path[i])) && forall i | 0 <= i < |path| - 1 :: path[i].curr >= 0
    ensures var all, k := Leaves(disk, path[0].buf.entries, depth), Here(disk, path, depth);
      && k < |all|
      && (Where(Rest(disk, path, depth), true, false) == LeafInfos(all[k + 1..])
          <==> forall i | 0 <= i < depth :: path[i].left > 0 && (path[i].curr == 0 || KeyOf(path[i]) != blk))
  {
    hide Formed, Foot, Leaves, Where, LeafInfos, Rest, OnTrack, Here;
    LeavesToCome(disk, path, depth);
    assert forall i | 0 <= i < depth :: Placed(path[i]) && path[i].curr >= 0 && OpenAt(path[i], blk);
  }

  /** Every lookup is as before, but for that of the block set. */
  ghost predicate LooksSet(disk: Disk, es: seq<Entry>, d: nat, disk': Disk, es': seq<Entry>, d': nat, l: nat, p: nat, uninit: bool)
    requires Formed(disk, es, d) && Formed(disk', es', d')
  {
    forall blk: nat :: Look(disk', es', d', blk) == if blk == l then Wanted(p, uninit) else Look(disk, es, d, blk)
  }

  /** With the keys in order, they are when the list is. */
  lemma OrderedLooks(disk: Disk, es: seq<Entry>, d: nat, disk': Disk, es': seq<Entry>, d': nat, l: nat, p: nat, uninit: bool)
    requires Formed(disk, es, d) && Formed(disk', es', d') && Keyed(disk, es, d, 0, U32) && Keyed(disk', es', d', 0, U32)
    requires Sets(Leaves(disk, es, d), Leaves(disk', es', d'), l, p, uninit, 0, U32)
    ensures LooksSet(disk, es, d, disk', es', d', l, p, uninit)
  {
    hide Formed, Keyed, Leaves, Look, Runs, At;
    forall blk: nat ensures Look(disk', es', d', blk) == if blk == l then Wanted(p, uninit) else Look(disk, es, d, blk) {
      LookAt(disk, es, d, blk);
      LookAt(disk', es', d', blk);
    }
  }

  /** A merge across the end of a leaf loses the block, and only that one. */
  lemma CrossesLoses(disk: Disk, path: seq<Level>, depth: nat, disk': Disk, l: nat, p: nat, uninit: bool)
    requires Steady(disk, path, depth) && |path| == depth + 1 && Top(path).curr >= 0 && OnTrack(path, |path|, l) && depth > 0
    requires Formed(disk, path[0].buf.entries, depth) && Formed(disk', path[0].buf.entries, depth) && Alike(disk, disk', path[0].buf.entries, depth)
    requires var all, k := Leaves(disk, path[0].buf.entries, depth), Here(disk, path, depth);
      && SetReady(all, k) && Crosses(all, k, path, l, p, uninit)
      && Leaves(disk', path[0].buf.entries, depth) == SetList(all, k, l, p, uninit, SeesNext(path))
    ensures LooksSet(disk, path[0].buf.entries, depth, disk', path[0].buf.entries, depth, l, 0, uninit)
  {
    hide Formed, Foot, Alike, Leaves, Look, SetList, LeftOf, RightOf, SeesNext, Seek, SeekAt, Lefts, Mapping, Crosses, OnTrack;
    var es, all, k := path[0].buf.entries, Leaves(disk, path[0].buf.entries, depth), Here(disk, path, depth);
    var all' := SetList(all, k, l, p, uninit, SeesNext(path));
    TrackRoot(path, l);
    SeekHere(disk, path, depth, l, 0);
    NothingLeft(disk, path, depth);
    AtLeaf(disk, path, depth);
    forall blk: nat ensures Look(disk', es, depth, blk) == if blk == l then Wanted(0, uninit) else Look(disk, es, depth, blk) {
      var i := SeekAt(disk, es, depth, blk);
      SeekAlike(disk, disk', es, depth, blk);
      SeekAtIs(disk, es, depth, blk);
      SeekAtIs(disk', es, depth, blk);
      LookIs(disk, es, depth, blk);
      LookIs(disk', es, depth, blk);
      CrossEach(all, k, path, l, p, uninit, i, blk);
    }
  }

  function Mapping(e: Entry, blk: nat): Option<(nat, bool)> {
    if Covers(e, blk) then Some((e.pblk + (blk - e.lblk), e.uninit)) else None
  }

  lemma LookIs(disk: Disk, es: seq<Entry>, d: nat, blk: nat)
    requires es != [] && Formed(disk, es, d)
    ensures Look(disk, es, d, blk) == Mapping(Seek(disk, es, d, blk), blk)
  {
  }

  /** Each entry still maps what it mapped, but for l in the entry that had it. */
  lemma CrossEach(all: seq<Entry>, k: nat, path: seq<Level>, l: nat, p: nat, uninit: bool, i: nat, blk: nat)
    requires path != [] && SetReady(all, k) && Crosses(all, k, path, l, p, uninit) && i < |all| && (blk == l ==> i == k)
    ensures var all' := SetList(all, k, l, p, uninit, SeesNext(path));
      |all'| == |all| && Mapping(all'[i], blk) == if blk == l then None else Mapping(all[i], blk)
  {
    hide SetList;
    if l == all[k].lblk + all[k].len - 1 {
      LastList(all, k, l, p, uninit, SeesNext(path));
    } else {
      FirstList(all, k, l, p, uninit, SeesNext(path));
    }
  }

  /** The first key of an exact tree is the start of its first leaf entry. */
  lemma {:induction false} ExactFirst(disk: Disk, es: seq<Entry>, d: nat)
    requires Formed(disk, es, d) && Exact(disk, es, d) && es != []
    ensures Leaves(disk, es, d) != [] && Leaves(disk, es, d)[0].lblk == es[0].lblk
    decreases d
  {
    if d > 0 {
      ExactFirst(disk, disk[es[0].pblk].entries, d - 1);
    }
  }

  /** Exact keys are in order when the leaf entries are. */
  lemma {:induction false} ExactKeyed(disk: Disk, es: seq<Entry>, d: nat, lo: nat, hi: nat)
    requires Formed(disk, es, d) && Exact(disk, es, d) && Runs(Leaves(disk, es, d), lo, hi)
    ensures Keyed(disk, es, d, lo, hi)
    decreases d, |es|
  {
    if d == 0 {
      LeavesFlat(disk, es);
      KeyedRuns(disk, es, lo, hi);
    } else if es != [] {
      hide Leaves, Runs;
      var ch := disk[es[0].pblk].entries;
      KidFormed(disk, es, d, 0);
      ExactFirst(disk, es, d);
      ExactFirst(disk, ch, d - 1);
      ExactKeyedStep(disk, es, d, lo, hi);
      ExactKeyed(disk, ch, d - 1, es[0].lblk, Next(es, hi));
      ExactKeyed(disk, es[1..], d, Next(es, hi), hi);
    }
  }

  lemma ExactKeyedStep(disk: Disk, es: seq<Entry>, d: nat, lo: nat, hi: nat)
    requires d > 0 && es != [] && Formed(disk, es, d) && Exact(disk, es, d) && Runs(Leaves(disk, es, d), lo, hi)
    ensures var ch := disk[es[0].pblk].entries;
      && Runs(Leaves(disk, ch, d - 1), es[0].lblk, Next(es, hi)) && Runs(Leaves(disk, es[1..], d), Next(es, hi), hi)
      && lo <= es[0].lblk < Next(es, hi)
  {
    hide Formed, Exact, Runs;
    KidFormed(disk, es, d, 0);
    var ch := disk[es[0].pblk].entries;
    ExactRest(disk, es, d);
    ExactFirst(disk, ch, d - 1);
    var a, b := Leaves(disk, ch, d - 1), Leaves(disk, es[1..], d);
    assert Leaves(disk, es, d) == a + b;
    if es[1..] != [] {
      ExactFirst(disk, es[1..], d);
      assert es[1..][0] == es[1];
    } else {
      NoLeaves(disk, d);
    }
    RunsSplit(a, b, lo, Next(es, hi), hi);
  }

  lemma ExactRest(disk: Disk, es: seq<Entry>, d: nat)
    requires d > 0 && es != [] && Formed(disk, es, d) && Exact(disk, es, d)
    ensures es[0].pblk in disk && Formed(disk, es[1..], d) && Exact(disk, es[1..], d)
    ensures Exact(disk, disk[es[0].pblk].entries, d - 1) && disk[es[0].pblk].entries[0].lblk == es[0].lblk
  {
  }

  lemma {:induction false} RunsSplit(a: seq<Entry>, b: seq<Entry>, lo: nat, mid: nat, hi: nat)
    requires Runs(a + b, lo, hi) && a != [] && mid == if b == [] then hi else b[0].lblk
    ensures Runs(a, a[0].lblk, mid) && Runs(b, mid, hi) && lo <= a[0].lblk < mid
  {
    assert (a + b)[1..] == a[1..] + b;
    if a[1..] == [] {
      assert a[1..] + b == b;
    } else {
      RunsSplit(a[1..], b, Next(a + b, hi), mid, hi);
    }
  }

  /** Setting a block sets its lookup and no other, unless the mapping goes into an entry of another
      leaf; then the block is not found at all, and no other lookup changes either. */
  lemma BlockSet(disk: Disk, path: seq<Level>, depth: nat, disk': Disk, es': seq<Entry>, depth': nat, l: nat, p: nat, uninit: bool)
    requires Steady(disk, path, depth) && |path| == depth + 1 && Top(path).curr >= 0 && OnTrack(path, |path|, l) && l < U32 && p < P48
    requires Keyed(disk, path[0].buf.entries, depth, 0, U32) && AllFit(Leaves(disk, path[0].buf.entries, depth))
    requires Formed(disk', es', depth')
    requires var all, k := Leaves(disk, path[0].buf.entries, depth), Here(disk, path, depth);
      && SetReady(all, k) && Leaves(disk', es', depth') == SetList(all, k, l, p, uninit, SeesNext(path))
      && if Crosses(all, k, path, l, p, uninit) then depth' == depth > 0 && es' == path[0].buf.entries && Alike(disk, disk', es', depth)
         else Keyed(disk', es', depth', 0, U32)
    ensures Formed(disk, path[0].buf.entries, depth)
    ensures var all, k := Leaves(disk, path[0].buf.entries, depth), Here(disk, path, depth);
      var crosses := Crosses(all, k, path, l, p, uninit);
      && Sets(all, Leaves(disk', es', depth'), l, p, uninit, 0, U32) && AllFit(Leaves(disk', es', depth'))
      && LooksSet(disk, path[0].buf.entries, depth, disk', es', depth', l, if crosses then 0 else p, uninit)
      && (crosses ==> p != 0 && !Keyed(disk', es', depth', 0, U32) && !Exact(disk', es', depth'))
  {
    hide Formed, Foot, Alike, Leaves, Keyed, Exact, Runs, Look, SetList, AllFit, LeftOf, RightOf, SeesNext, At, Here, OnTrack;
    var all, k := Leaves(disk, path[0].buf.entries, depth), Here(disk, path, depth);
    TrackAround(disk, path, depth, l);
    KeyedList(disk, path[0].buf.entries, depth, 0, U32);
    SetListRight(all, k, l, p, uninit, SeesNext(path));
    SteadyFormed0(disk, path, depth);
    if Crosses(all, k, path, l, p, uninit) {
      CrossesLoses(disk, path, depth, disk', l, p, uninit);
      if Exact(disk', es', depth') {
        ExactKeyed(disk', es', depth', 0, U32);
      }
      if Keyed(disk', es', depth', 0, U32) {
        LookAt(disk', es', depth', l);
      }
    } else {
      OrderedLooks(disk, path[0].buf.entries, depth, disk', es', depth', l, p, uninit);
    }
  }

  /** Unmapping the first block of an entry that starts its leaf leaves the old key above. */
  ghost predicate CutsStart(all: seq<Entry>, k: nat, path: seq<Level>, l: nat, p: nat)
    requires path != []
  {
    |path| > 1 && p == 0 && k < |all| && all[k].len > 1 && l == all[k].lblk && Top(path).curr == 0
  }

  // ---------- Inputs ----------

  /** Two leaves below a root: blocks 0 to 4 and 5 to 7. */
  const TwoLeaves: Disk := map[10 := Node(340, [Entry(0, 100, 5, false)]), 11 := Node(340, [Entry(5, 200, 3, false)])]
  const TwoKeys: seq<Entry> := [Index(0, 10), Index(5, 11)]

  /** The path to the first of them, and to the second. */
  const ToFirst: seq<Level> := [Level(Node(4, TwoKeys), 1, 1, 8, 0), Level(TwoLeaves[10], 0, 0, 5, 0)]
  const ToSecond: seq<Level> := [Level(Node(4, TwoKeys), 0, 0, 8, 1), Level(TwoLeaves[11], 0, 0, 8, 0)]

  lemma TwoLeavesTree()
    ensures Formed(TwoLeaves, TwoKeys, 1) && Keyed(TwoLeaves, TwoKeys, 1, 0, U32) && Exact(TwoLeaves, TwoKeys, 1)
    ensures Leaves(TwoLeaves, TwoKeys, 1) == [Entry(0, 100, 5, false), Entry(5, 200, 3, false)] && AllFit(Leaves(TwoLeaves, TwoKeys, 1))
    ensures Steady(TwoLeaves, ToFirst, 1) && Steady(TwoLeaves, ToSecond, 1)
  {
    var a, b := [Entry(0, 100, 5, false)], [Entry(5, 200, 3, false)];
    assert TwoKeys[1..] == [Index(5, 11)] && TwoKeys[1..][1..] == [];
    assert a[1..] == [] && b[1..] == [];
    LeavesFlat(TwoLeaves, a);
    LeavesFlat(TwoLeaves, b);
    NoLeaves(TwoLeaves, 1);
    assert Leaves(TwoLeaves, TwoKeys[1..], 1) == b + [];
    assert Linked(TwoLeaves, ToFirst[0], ToFirst[1]) && Linked(TwoLeaves, ToSecond[0], ToSecond[1]);
  }

  /** Mapping block 4 to 199, just before what the second leaf has: the block would be lost. */
  lemma MergeInput()
    ensures Arrived(TwoLeaves, ToFirst[0], 1, ToFirst, 4)
    ensures Crosses(Leaves(TwoLeaves, TwoKeys, 1), Here(TwoLeaves, ToFirst, 1), ToFirst, 4, 199, false)
  {
    TwoLeavesTree();
    assert LeftOf(TwoLeaves, ToFirst, 1, 1) == [] by {
      NoLeaves(TwoLeaves, 1);
    }
  }

  /** Unmapping block 5: the key of the second leaf stays 5. */
  lemma UnmapInput()
    ensures Arrived(TwoLeaves, ToSecond[0], 1, ToSecond, 5)
    ensures CutsStart(Leaves(TwoLeaves, TwoKeys, 1), Here(TwoLeaves, ToSecond, 1), ToSecond, 5, 0)
  {
    TwoLeavesTree();
    SecondHere();
  }

  lemma SecondHere()
    ensures Here(TwoLeaves, ToSecond, 1) == 1
  {
    TwoLeavesTree();
    AtLeaf(TwoLeaves, ToSecond, 1);
    assert Lefts(ToSecond[0]) == [Index(0, 10)];
    assert Lefts(ToSecond[0])[1..] == [];
    LeavesFlat(TwoLeaves, [Entry(0, 100, 5, false)]);
    NoLeaves(TwoLeaves, 1);
  }

  /** After the descent for block 5 the visit of the root is still open, and NEXT_LEAF comes to the
      entry of that block again, though none follows it. */
  lemma AgainInput()
    ensures Arrived(TwoLeaves, ToSecond[0], 1, ToSecond, 5)
    ensures Here(TwoLeaves, ToSecond, 1) == |Leaves(TwoLeaves, TwoKeys, 1)| - 1
    ensures Again(TwoLeaves, ToSecond, 1, 2) == [Entry(5, 200, 3, false)]
  {
    TwoLeavesTree();
    SecondHere();
    AgainLeaf(TwoLeaves, ToSecond, 1);
    AgainStep(TwoLeaves, ToSecond, 1, 1);
    AgainNone(TwoLeaves, ToSecond, 1);
    LeftsAt(ToSecond[0]);
    LeftsAt(ToSecond[1]);
    NoLeaves(TwoLeaves, 1);
    LeavesFlat(TwoLeaves, [Entry(5, 200, 3, false)]);
  }

  /** A full leaf of n single blocks, two apart. */
  function Spaced(n: nat, l: nat): seq<Entry> { if n == 0 then [] else [Entry(l, 1000 + l, 1, false)] + Spaced(n - 1, l + 2) }

  lemma {:induction false} SpacedRuns(n: nat, l: nat, hi: nat)
    requires l + 2 * n <= hi
    ensures |Spaced(n, l)| == n && Runs(Spaced(n, l), l, hi) && (n > 0 ==> Spaced(n, l)[0].lblk == l)
    ensures hi <= U32 ==> AllFit(Spaced(n, l))
  {
    if n > 0 {
      SpacedRuns(n - 1, l + 2, hi);
      assert Spaced(n, l)[1..] == Spaced(n - 1, l + 2);
    }
  }

  /** The descent for the block after them ends on the last one. */
  lemma {:induction false} SpacedLast(n: nat, l: nat)
    requires n > 0
    ensures |Spaced(n, l)| == n && Pick(Spaced(n, l), l + 2 * n - 1) == n - 1
    ensures Spaced(n, l)[0].lblk == l && Spaced(n, l)[n - 1] == Entry(l + 2 * n - 2, 1000 + l + 2 * n - 2, 1, false)
  {
    if n > 1 {
      SpacedLast(n - 1, l + 2);
      assert Spaced(n, l)[1..] == Spaced(n - 1, l + 2);
    }
  }

  /** A full root over leaves of n entries, in a file whose recorded end is block 6, where its last leaf
      starts; that leaf is full. */
  function FullTree(n: nat): Disk {
    map[10 := Node(n, [Entry(0, 100, 1, false)]), 11 := Node(n, [Entry(2, 200, 1, false)]),
        12 := Node(n, [Entry(4, 300, 1, false)]), 13 := Node(n, Spaced(n, 6))]
  }

  const FourKeys: seq<Entry> := [Index(0, 10), Index(2, 11), Index(4, 12), Index(6, 13)]

  /** The path to the last entry of that leaf. */
  function ToLast(n: nat): seq<Level> { [Level(Node(4, FourKeys), 0, 0, 6, 3), Level(Node(n, Spaced(n, 6)), 0, 0, 6, n - 1)] }

  lemma OneMore(disk: Disk, e: Entry, es: seq<Entry>, all: seq<Entry>, S: set<nat>)
    requires all == [e] + es && e.pblk in disk && e.pblk !in S && 0 < |disk[e.pblk].entries| <= disk[e.pblk].max
    requires disk[e.pblk].entries[0].lblk == e.lblk && Runs(disk[e.pblk].entries, e.lblk, Then(es, U32)) && e.lblk < Then(es, U32)
    requires Formed(disk, es, 1) && Exact(disk, es, 1) && Foot(disk, es, 1) == S && Keyed(disk, es, 1, Then(es, U32), U32)
    requires AllFit(disk[e.pblk].entries) && AllFit(Leaves(disk, es, 1))
    ensures Formed(disk, all, 1) && Exact(disk, all, 1) && Foot(disk, all, 1) == S + {e.pblk} && Keyed(disk, all, 1, e.lblk, U32)
    ensures AllFit(Leaves(disk, all, 1))
  {
    assert all[1..] == es;
    KeyedRuns(disk, disk[e.pblk].entries, e.lblk, Then(es, U32));
    FootFlat(disk, disk[e.pblk].entries);
    LeavesFlat(disk, disk[e.pblk].entries);
  }

  lemma NoneYet(disk: Disk)
    ensures Formed(disk, [], 1) && Exact(disk, [], 1) && Foot(disk, [], 1) == {} && Keyed(disk, [], 1, U32, U32)
    ensures Leaves(disk, [], 1) == []
  {
  }

  lemma OneRun(e: Entry, hi: nat)
    requires e.len == 1 && e.lblk < hi
    ensures Runs([e], e.lblk, hi)
  {
    RunsOne(e, e.lblk, hi);
  }

  lemma FullFormed(n: nat)
    requires 0 < n <= 1000
    ensures Formed(FullTree(n), FourKeys, 1) && Keyed(FullTree(n), FourKeys, 1, 0, U32) && Exact(FullTree(n), FourKeys, 1)
    ensures Foot(FullTree(n), FourKeys, 1) == {10, 11, 12, 13} && AllFit(Leaves(FullTree(n), FourKeys, 1))
  {
    hide Keyed, Exact, Formed, Foot, Spaced, Runs, Leaves;
    var disk := FullTree(n);
    NoneYet(disk);
    SpacedRuns(n, 6, U32);
    OneRun(Entry(4, 300, 1, false), 6);
    OneRun(Entry(2, 200, 1, false), 4);
    OneRun(Entry(0, 100, 1, false), 2);
    OneMore(disk, Index(6, 13), [], [Index(6, 13)], {});
    OneMore(disk, Index(4, 12), [Index(6, 13)], [Index(4, 12), Index(6, 13)], {13});
    OneMore(disk, Index(2, 11), [Index(4, 12), Index(6, 13)], [Index(2, 11), Index(4, 12), Index(6, 13)], {12, 13});
    OneMore(disk, Index(0, 10), [Index(2, 11), Index(4, 12), Index(6, 13)], FourKeys, {11, 12, 13});
  }

  /** An insertion there splits the root first, and then reports the way back as not found, however
      many blocks are free. */
  lemma StuckInput(n: nat, free: nat)
    requires 6 <= n <= 1000
    ensures Steady(FullTree(n), ToLast(n), 1) && Keyed(FullTree(n), FourKeys, 1, 0, U32) && Exact(FullTree(n), FourKeys, 1)
    ensures Stuck(ToLast(n), 1) && !Room(ToLast(n), 1, 1, free)
  {
    hide Keyed, Exact, Formed, Foot, Spaced, Runs;
    SpacedRuns(n, 6, U32);
    FullFormed(n);
    assert Linked(FullTree(n), ToLast(n)[0], ToLast(n)[1]);
    BlindStep(ToLast(n), 1);
    BlindStep(ToLast(n)[..1], 1);
  }
}
