/**
 The moves of extent_get and the search of extent_goto (source/extent.c), on the path of a handle.
 */
module ExtentMoves {
  import opened ExtentTree
  import opened ExtentWalk
  import opened ExtentGrowth
  import opened ExtentMap
  import opened ExtentEdit

  /** The sibling after the current entry, as NEXT_SIB moves there. */
  function Advanced(l: Level): Level { l.(curr := l.curr + 1, left := l.left - 1, visit := 0) }

  function Retreated(l: Level, interior: bool): Level {
    l.(curr := l.curr - 1, left := l.left + 1, visit := if interior then 1 else l.visit)
  }

  /** The level below, as DOWN enters it. */
  ghost function Entered(disk: Disk, l: Level, last: bool, interior: bool): Level
    requires Placed(l) && l.curr >= 0 && l.buf.entries[l.curr].pblk in disk
  {
    var b := disk[l.buf.entries[l.curr].pblk];
    if last then Level(b, 0, if interior then 1 else 0, EndOf(l), |b.entries| - 1)
    else Level(b, |b.entries| - 1, 0, EndOf(l), 0)
  }

  /** The level that DOWN adds. */
  lemma EnterSteady(disk: Disk, path: seq<Level>, depth: nat, last: bool)
    requires Steady(disk, path, depth) && |path| <= depth && Top(path).curr >= 0
    ensures Top(path).buf.entries[Top(path).curr].pblk in disk
    ensures var b := Entered(disk, Top(path), last, |path| < depth);
      b.buf.entries != [] && Placed(b) && b.curr >= 0 && Linked(disk, Top(path), b) && Steady(disk, path + [b], depth)
  {
    hide Formed, Foot;
    var l := Top(path);
    SteadyFormed(disk, path, depth, |path| - 1);
    KidFormed(disk, l.buf.entries, depth - (|path| - 1), l.curr);
    SteadyDown(disk, path, depth, Entered(disk, l, last, |path| < depth));
  }

  lemma SteadyCurrentAll(disk: Disk, path: seq<Level>, depth: nat)
    requires Steady(disk, path, depth)
    ensures forall i | 0 <= i < |path| :: Placed(path[i]) && (i < |path| - 1 ==> path[i].curr >= 0)
  {
    SteadyCurrent(disk, path, depth);
  }

  lemma SteadyFormed0(disk: Disk, path: seq<Level>, depth: nat)
    requires Steady(disk, path, depth)
    ensures Formed(disk, path[0].buf.entries, depth)
  {
  }

  lemma TrackPrefix(path: seq<Level>, n: nat, blk: nat)
    requires OnTrack(path, |path|, blk) && n <= |path|
    ensures OnTrack(path, n, blk)
  {
  }

  lemma InfoStart(l: Level, leaf: bool)
    requires Placed(l) && l.curr >= 0
    ensures InfoOf(l, leaf).lblk == l.buf.entries[l.curr].lblk
  {
  }

  predicate Reaches(l: Level, leaf: bool, blk: nat)
    requires Placed(l) && l.curr >= 0
  {
    var i := InfoOf(l, leaf);
    i.lblk <= blk < i.lblk + i.len
  }

  /** The state of the search at the head of the loop. */
  ghost predicate Scanning(disk: Disk, path: seq<Level>, depth: nat, h: nat, blk: nat, klo: nat, khi: nat) {
    && Steady(disk, path, depth) && h <= depth && |path| <= depth - h + 1 && Top(path).curr >= 0
    && OnTrack(path, |path| - 1, blk)
    && Keyed(disk, Top(path).buf.entries, depth + 1 - |path|, klo, khi)
    && var l := Top(path);
    && (forall j | 1 <= j < l.curr :: l.buf.entries[j].lblk <= blk)
    && (if |path| == depth - h + 1 then l.curr > 0 ==> !Reaches(l.(curr := l.curr - 1, left := l.left + 1), h == 0, blk) && l.buf.entries[l.curr - 1].lblk <= blk
        else l.curr > 0 ==> l.buf.entries[l.curr].lblk <= blk)
  }

  lemma ScanStart(disk: Disk, path: seq<Level>, depth: nat, h: nat, blk: nat, lo: nat, hi: nat)
    requires Steady(disk, path, depth) && |path| == 1 && path[0].curr == 0 && h <= depth
    requires Keyed(disk, path[0].buf.entries, depth, lo, hi)
    ensures Scanning(disk, path, depth, h, blk, lo, hi)
  {
  }

  /** The length that extent_get computes for an index entry ends where its range ends, unless it is
      the last of its node. */
  lemma ReachesIff(disk: Disk, l: Level, d: nat, leaf: bool, blk: nat, klo: nat, khi: nat)
    requires Placed(l) && l.curr >= 0 && Keyed(disk, l.buf.entries, d, klo, khi) && leaf == (d == 0) && khi <= U32
    ensures var e := l.buf.entries[l.curr];
      && (Reaches(l, leaf, blk) ==> e.lblk <= blk)
      && (!leaf && l.left > 0 ==> (Reaches(l, leaf, blk) <==> e.lblk <= blk < EndOf(l)))
      && (leaf ==> (Reaches(l, leaf, blk) <==> Covers(e, blk)) && (l.left > 0 ==> e.lblk + e.len <= EndOf(l)))
  {
    hide Keyed;
    KidKeyed(disk, l.buf.entries, d, l.curr, klo, khi);
    if l.left > 0 {
      KidKeyed(disk, l.buf.entries, d, l.curr + 1, klo, khi);
      assert l.buf.entries[l.curr..][1] == l.buf.entries[l.curr + 1];
    }
  }

  /** Asked for the key of an index entry, it is found there unless it is the last of all and the
      recorded end of the file is that key. */
  lemma ReachesKey(l: Level)
    requires Placed(l) && l.curr >= 0
    ensures Reaches(l, false, l.buf.entries[l.curr].lblk) <==> (EndOf(l) - l.buf.entries[l.curr].lblk) % U32 != 0
  {
  }

  lemma ScanDone(disk: Disk, path: seq<Level>, depth: nat, h: nat, blk: nat, klo: nat, khi: nat)
    requires Scanning(disk, path, depth, h, blk, klo, khi) && |path| == depth - h + 1 && khi <= U32
    requires Reaches(Top(path), h == 0, blk)
    ensures OnTrack(path, |path|, blk)
  {
    hide Keyed, InfoOf, Reaches, Steady, Pick;
    SteadyTop(disk, path, depth);
    var l := Top(path);
    ReachesIff(disk, l, h, h == 0, blk, klo, khi);
    PickIs(l.buf.entries, blk, l.curr);
  }

  lemma ScanBack(disk: Disk, path: seq<Level>, depth: nat, h: nat, blk: nat, klo: nat, khi: nat)
    requires Scanning(disk, path, depth, h, blk, klo, khi) && |path| == depth - h + 1
    requires blk < Top(path).buf.entries[Top(path).curr].lblk
    ensures Placed(Top(path)) && Top(path).curr >= 0
    ensures Top(path).curr == 0 ==> OnTrack(path, |path|, blk) && !Reaches(Top(path), h == 0, blk)
    ensures Top(path).curr > 0 ==>
      var p := SetTop(path, Retreated(Top(path), |path| <= depth));
      Placed(Top(p)) && OnTrack(p, |p|, blk) && !Reaches(Top(p), h == 0, blk)
  {
    hide Keyed, Steady, Pick;
    SteadyTop(disk, path, depth);
    var l := Top(path);
    if l.curr == 0 {
      KeysIncrease(disk, l.buf.entries, h, klo, khi);
      PickIs(l.buf.entries, blk, 0);
    } else {
      PickIs(l.buf.entries, blk, l.curr - 1);
    }
  }

  lemma ScanOn(disk: Disk, path: seq<Level>, depth: nat, h: nat, blk: nat, klo: nat, khi: nat)
    requires Scanning(disk, path, depth, h, blk, klo, khi) && |path| == depth - h + 1
    requires Top(path).buf.entries[Top(path).curr].lblk <= blk && !Reaches(Top(path), h == 0, blk)
    ensures Top(path).left > 0 ==> Scanning(disk, SetTop(path, Advanced(Top(path))), depth, h, blk, klo, khi)
    ensures Top(path).left == 0 ==> OnTrack(path, |path|, blk)
  {
    hide Keyed, Steady, Pick, Formed;
    SteadyTop(disk, path, depth);
    var l := Top(path);
    if l.left > 0 {
      SteadyMoved(disk, path, depth, Advanced(l));
    } else {
      PickIs(l.buf.entries, blk, l.curr);
    }
  }

  /** In an interior node: a step to the next sibling, and perhaps back. */
  lemma ScanNext(disk: Disk, path0: seq<Level>, path: seq<Level>, depth: nat, h: nat, blk: nat, klo: nat, khi: nat)
    requires Scanning(disk, path0, depth, h, blk, klo, khi) && |path0| < depth - h + 1
    requires Top(path0).left > 0 && path == SetTop(path0, Advanced(Top(path0)))
    ensures var l := Top(path);
      && (l.buf.entries[l.curr].lblk <= blk ==> Scanning(disk, path, depth, h, blk, klo, khi))
      && (l.buf.entries[l.curr].lblk == blk && l.left > 0 ==> blk < l.buf.entries[l.curr + 1].lblk)
      && Scanning(disk, SetTop(path, Retreated(l, true)), depth, h, blk, klo, khi)
  {
    hide Keyed, Steady, Formed;
    SteadyTop(disk, path0, depth);
    var l := Top(path0);
    SteadyMoved(disk, path0, depth, Advanced(l));
    SteadyMoved(disk, path0, depth, l.(visit := 1));
    assert SetTop(path, Retreated(Top(path), true)) == SetTop(path0, l.(visit := 1));
    KeysIncrease(disk, l.buf.entries, depth + 1 - |path|, klo, khi);
  }

  lemma ScanDown(disk: Disk, path: seq<Level>, depth: nat, h: nat, blk: nat, klo: nat, khi: nat) returns (klo': nat, khi': nat)
    requires Scanning(disk, path, depth, h, blk, klo, khi) && |path| < depth - h + 1
    requires Top(path).left > 0 ==> blk < Top(path).buf.entries[Top(path).curr + 1].lblk
    ensures Placed(Top(path)) && Top(path).buf.entries[Top(path).curr].pblk in disk
    ensures var b := Entered(disk, Top(path), false, |path| < depth);
      Scanning(disk, path + [b], depth, h, blk, klo', khi') && khi' <= khi
  {
    hide Keyed, Formed, Pick;
    var l := Top(path);
    klo', khi' := l.buf.entries[l.curr].lblk, Next(l.buf.entries[l.curr..], khi);
    PickIs(l.buf.entries, blk, l.curr);
    KidKeyed(disk, l.buf.entries, depth + 1 - |path|, l.curr, klo, khi);
    EnterSteady(disk, path, depth, false);
    assert l.left > 0 ==> l.buf.entries[l.curr..][1] == l.buf.entries[l.curr + 1];
  }

  lemma StartWalk(disk: Disk, path: seq<Level>, depth: nat)
    requires Steady(disk, path, depth)
    ensures var es := path[0].buf.entries;
      if es == [] then WalkOf(disk, es, depth, path[0].end) == [] else
        var l := Advanced(path[0].(left := |es|, curr := -1));
        && Placed(l) && l.curr >= 0 && Steady(disk, [l], depth)
        && WalkOf(disk, es, depth, path[0].end) == [InfoOf(l, depth == 0)] + Coming(disk, [l], depth)
  {
    hide Formed, InfoOf, Inside;
    var es := path[0].buf.entries;
    if es != [] {
      var l := Advanced(path[0].(left := |es|, curr := -1));
      SteadyFormed0(disk, path, depth);
      SteadyRoot(disk, depth, l);
      if depth > 0 {
        KidFormed(disk, es, depth, 0);
      }
      assert es[0..] == es;
      WalkFrom(disk, l, depth);
      RestSplit(disk, [l], depth);
    }
  }

  lemma SteadyTop(disk: Disk, path: seq<Level>, depth: nat)
    requires Steady(disk, path, depth)
    ensures 0 < |path| <= depth + 1 && Placed(Top(path))
    ensures |path| <= depth && Top(path).visit == 0 ==> Top(path).curr >= 0
  {
  }

  ghost function Coming(disk: Disk, path: seq<Level>, depth: nat): seq<Info>
    requires Steady(disk, path, depth)
  {
    SteadyCurrent(disk, path, depth);
    Rest(disk, path, depth)
  }

  lemma SameEnd(a: Level, b: Level)
    requires Placed(a) && a.curr >= 0 && b == a.(visit := b.visit)
    ensures EndOf(a) == EndOf(b)
  {
  }

  lemma ComingDown(disk: Disk, path: seq<Level>, depth: nat)
    requires Steady(disk, path, depth) && |path| <= depth && Top(path).curr >= 0 && Top(path).visit == 0
    ensures var l := Top(path).(visit := 1); var p := SetTop(path, l);
      && l.buf.entries[l.curr].pblk in disk && Placed(l) && Steady(disk, p, depth)
      && var b := Entered(disk, l, false, |path| < depth);
      && Placed(b) && b.curr >= 0 && Steady(disk, p + [b], depth)
      && Coming(disk, path, depth) == [InfoOf(b, |path| == depth)] + Coming(disk, p + [b], depth)
  {
    hide Formed, InfoOf, Inside, Rest, Foot, EndOf;
    var n, l := |path| - 1, Top(path).(visit := 1);
    var p := SetTop(path, l);
    SteadyCurrent(disk, path, depth);
    SteadyMoved(disk, path, depth, l);
    SteadyFormed(disk, path, depth, n);
    EnterSteady(disk, p, depth, false);
    SameEnd(path[n], l);
    var b := Entered(disk, l, false, |path| < depth);
    SteadyCurrent(disk, p + [b], depth);
    StepDown(disk, path[n], b, depth - n);
    RestSplit(disk, path, depth);
    RestSplit(disk, p, depth);
    assert p[..n] == path[..n];
    RestTop(disk, p, b, depth);
  }

  lemma ComingSibling(disk: Disk, path: seq<Level>, depth: nat)
    requires Steady(disk, path, depth) && Top(path).left > 0 && (|path| <= depth ==> Top(path).visit != 0)
    ensures var b := Advanced(Top(path));
      && Placed(b) && b.curr >= 0 && Steady(disk, SetTop(path, b), depth)
      && Coming(disk, path, depth) == [InfoOf(b, |path| == depth + 1)] + Coming(disk, SetTop(path, b), depth)
  {
    hide Formed, InfoOf, Inside, Rest;
    var n, b := |path| - 1, Advanced(Top(path));
    SteadyCurrent(disk, path, depth);
    SteadyFormed(disk, path, depth, n);
    SteadyMoved(disk, path, depth, b);
    StepSibling(disk, path[n], depth - n);
    RestSplit(disk, path, depth);
    RestLocal(disk, path, b, depth);
  }

  lemma ComingUp(disk: Disk, path: seq<Level>, depth: nat)
    requires Steady(disk, path, depth) && Top(path).left == 0 && (|path| <= depth ==> Top(path).visit != 0)
    ensures if |path| == 1 then Coming(disk, path, depth) == [] else
      var up := path[..|path| - 1];
      Steady(disk, up, depth) && Placed(Top(up)) && Top(up).curr >= 0 && Coming(disk, path, depth) == [InfoOf(Top(up), false)] + Coming(disk, up, depth)
  {
    hide Formed, InfoOf, Inside, Rest;
    var n := |path| - 1;
    SteadyCurrent(disk, path, depth);
    NoSiblings(disk, path[n], depth - n);
    RestSplit(disk, path, depth);
    if n > 0 {
      SteadyPrefix(disk, path, depth);
      SteadyCurrent(disk, path[..n], depth);
    }
  }

  /** The rest, split at the last level. */
  lemma RestSplit(disk: Disk, path: seq<Level>, depth: nat)
    requires path != [] && |path| <= depth + 1
    requires forall i | 0 <= i < |path| :: Placed(path[i])
    requires forall i | 0 <= i < |path| - 1 :: path[i].curr >= 0
    ensures var n := |path| - 1;
      Rest(disk, path, depth) == Inside(disk, path[n], depth - n) + if n == 0 then [] else [InfoOf(path[n - 1], false)] + Rest(disk, path[..n], depth)
  {
  }

  lemma NoSiblings(disk: Disk, l: Level, d: nat)
    requires Placed(l) && l.left == 0 && (d > 0 ==> l.visit != 0)
    ensures Inside(disk, l, d) == []
  {
    assert l.buf.entries[l.curr + 1..] == [];
  }

  lemma SteadyCurrent(disk: Disk, path: seq<Level>, depth: nat)
    requires Steady(disk, path, depth)
    ensures forall i | 0 <= i < |path| - 1 :: path[i].curr >= 0
    ensures |path| > 1 ==> Top(path).curr >= 0
  {
    forall i | 0 <= i < |path| - 1 ensures path[i].curr >= 0 {
      assert Linked(disk, path[i], path[i + 1]);
    }
  }

  lemma RootEmpty(disk: Disk, path: seq<Level>, depth: nat)
    requires Steady(disk, path, depth) && path[0].buf.entries == []
    ensures |path| == 1 && path[0].curr == -1
  {
    SteadyCurrent(disk, path, depth);
  }

  lemma SteadyRoot(disk: Disk, depth: nat, l: Level)
    requires Formed(disk, l.buf.entries, depth) && Placed(l) && (l.curr == -1 ==> depth == 0 || l.visit != 0)
    ensures Steady(disk, [l], depth)
  {
  }

  lemma SteadyEmpty(disk: Disk, path: seq<Level>, depth: nat)
    requires Steady(disk, path, depth) && Top(path).buf.entries == []
    ensures |path| == 1 && Top(path).curr == -1
  {
    SteadyFormed(disk, path, depth, |path| - 1);
  }

  /** No leaf entry starts before the first key. */
  lemma FirstLeast(disk: Disk, es: seq<Entry>, d: nat, lo: nat, hi: nat)
    requires es != [] && Formed(disk, es, d) && Keyed(disk, es, d, lo, hi)
    ensures forall e | e in Leaves(disk, es, d) :: es[0].lblk <= e.lblk
  {
    KeyedRaise(disk, es, d, lo, hi);
    KeyedLeaves(disk, es, d, es[0].lblk, hi);
  }

  /** After the search for blk has left a level, its visit is open exactly when it went down there
      without stepping back: at the last entry, or at an entry with blk as its key. */
  predicate OpenAt(l: Level, blk: nat) {
    l.visit == 0 <==> l.left == 0 || (l.curr > 0 && KeyOf(l) == blk)
  }

  /** While it is at a level above the one asked for. */
  predicate Fresh0(l: Level, blk: nat) {
    l.visit == 0 && (l.curr > 0 ==> KeyOf(l) < blk)
  }

  lemma LeafReach(l: Level, blk: nat)
    requires Placed(l) && l.curr >= 0
    ensures Reaches(l, true, blk) == Covers(l.buf.entries[l.curr], blk)
  {
  }

  lemma LeafEntry(l: Level)
    requires Placed(l) && l.curr >= 0
    ensures var i, e := InfoOf(l, true), l.buf.entries[l.curr]; Entry(i.lblk, i.pblk, i.len, i.uninit) == e
  {
  }

  // ---------- The first leaf entry to come ----------

  lemma ComingLeaves(disk: Disk, path: seq<Level>, depth: nat)
    requires Steady(disk, path, depth) && Top(path).curr >= 0
    ensures Where(Coming(disk, path, depth), true, false) == LeafInfos(Again(disk, path, depth, |path|))
  {
    SteadyCurrent(disk, path, depth);
    RestLeaves(disk, path, depth);
  }

  lemma {:induction false} NoLeaf(walk: seq<Info>, again: seq<Entry>)
    requires (forall i | i in walk :: !i.leaf) && Where(walk, true, false) == LeafInfos(again)
    ensures again == []
  {
    OnlyIndexes(walk);
    InfosLength(again);
  }

  lemma {:induction false} OnlyIndexes(walk: seq<Info>)
    requires forall i | i in walk :: !i.leaf
    ensures Where(walk, true, false) == []
  {
    if walk != [] {
      assert walk[0] in walk;
      OnlyIndexes(walk[1..]);
    }
  }

  lemma FirstLeaf(skipped: seq<Info>, info: Info, rest: seq<Info>, l: Level, again: seq<Entry>)
    requires (forall i | i in skipped :: !i.leaf) && Placed(l) && l.curr >= 0 && l.visit == 0 && info == InfoOf(l, true)
    requires Where(skipped + [info] + rest, true, false) == LeafInfos(again)
    ensures again != [] && again[0] == l.buf.entries[l.curr]
  {
    hide Where, LeafInfos;
    OnlyIndexes(skipped);
    WhereCat(skipped + [info], rest, true, false);
    WhereCat(skipped, [info], true, false);
    WhereOne(info, true, false);
    LeafInfosStep(again);
    assert ([] + [info] + Where(rest, true, false))[0] == info;
  }

  // ---------- The leaf entry before ----------

  /** From the first n levels NEXT_LEAF leads to x: visits are closed up to a level with a right
      sibling, below which x is first. */
  ghost predicate Leads(disk: Disk, path: seq<Level>, depth: nat, n: nat, x: Entry)
    requires n <= |path| <= depth + 1
  {
    && 0 < n <= depth && path[n - 1].visit != 0
    && if Rights(path[n - 1]) == [] then Leads(disk, path, depth, n - 1, x)
       else Leaves(disk, Rights(path[n - 1]), depth + 1 - n) != [] && Leaves(disk, Rights(path[n - 1]), depth + 1 - n)[0] == x
  }

  lemma {:induction false} LeadsAgain(disk: Disk, path: seq<Level>, depth: nat, n: nat, x: Entry)
    requires n <= |path| <= depth + 1 && Leads(disk, path, depth, n, x)
    ensures Again(disk, path, depth, n) != [] && Again(disk, path, depth, n)[0] == x
  {
    hide Leaves, Rights;
    if Rights(path[n - 1]) == [] {
      LeadsAgain(disk, path, depth, n - 1, x);
      NoLeaves(disk, depth + 1 - n);
      assert Again(disk, path, depth, n) == [] + [] + Again(disk, path, depth, n - 1);
    }
  }

  lemma {:induction false} LeadsSame(disk: Disk, path: seq<Level>, path': seq<Level>, depth: nat, n: nat, x: Entry)
    requires n <= |path| <= depth + 1 && n <= |path'| <= depth + 1 && forall i | 0 <= i < n :: path'[i] == path[i]
    requires Leads(disk, path, depth, n, x)
    ensures Leads(disk, path', depth, n, x)
  {
    hide Leaves, Rights;
    if Rights(path[n - 1]) == [] {
      LeadsSame(disk, path, path', depth, n - 1, x);
    }
  }

  /** The search backwards from position k at an index level: on the way up, or, once it has found a
      left sibling, on the way down to its last leaf entry. */
  ghost predicate Backing(disk: Disk, path: seq<Level>, depth: nat, k: nat, x: Entry)
    requires 0 < |path| <= depth
  {
    && 0 <= Top(path).curr < |Top(path).buf.entries|
    && if Top(path).visit == 0 then
         Here(disk, path, depth) == k && First(disk, path, depth, x)
       else
         Here(disk, path, depth) + |Leaves(disk, Kid(Top(path).buf.entries[Top(path).curr], disk), depth - |path|)| == k
         && Leads(disk, path, depth, |path|, x)
  }

  /** x is the first leaf entry below the current index entry. */
  ghost predicate First(disk: Disk, path: seq<Level>, depth: nat, x: Entry)
    requires 0 < |path| <= depth && 0 <= Top(path).curr < |Top(path).buf.entries|
  {
    var t := Leaves(disk, Kid(Top(path).buf.entries[Top(path).curr], disk), depth - |path|);
    t != [] && t[0] == x
  }

  lemma PrevStart(disk: Disk, path: seq<Level>, depth: nat)
    requires Steady(disk, path, depth) && |path| == depth + 1 && Top(path).curr >= 0
    ensures Top(path).curr > 0 ==> Here(disk, path, depth) > 0
  {
    hide Formed, Foot, Leaves;
    AtLeaf(disk, path, depth);
  }

  lemma {:induction false} LeftSame(disk: Disk, path: seq<Level>, path': seq<Level>, depth: nat, n: nat)
    requires n <= |path| <= depth + 1 && n <= |path'| <= depth + 1 && forall i | 0 <= i < n :: Lefts(path'[i]) == Lefts(path[i])
    ensures LeftOf(disk, path', depth, n) == LeftOf(disk, path, depth, n)
  {
    hide Leaves, Lefts;
    if n > 0 {
      LeftSame(disk, path, path', depth, n - 1);
    }
  }

  /** Up from a first entry. */
  lemma BackUp(disk: Disk, path: seq<Level>, depth: nat, path0: seq<Level>, x: Entry)
    requires Steady(disk, path, depth) && Placed(Top(path)) && Top(path).curr == 0 && |path| > 1
    requires Steady(disk, path0, depth) && |path0| == depth + 1 && Top(path0).curr >= 0 && x == Top(path0).buf.entries[0]
    requires if |path| == depth + 1 then path == path0 else Top(path).visit == 0 && Backing(disk, path, depth, Here(disk, path0, depth), x)
    ensures var up := path[..|path| - 1]; var p := SetTop(up, Top(up).(visit := 0));
      Placed(Top(p)) && Top(p).curr >= 0 && Steady(disk, p, depth) && Backing(disk, p, depth, Here(disk, path0, depth), x)
  {
    hide Formed, Foot, Leaves, Lefts;
    var up := path[..|path| - 1];
    var p := SetTop(up, Top(up).(visit := 0));
    SteadyPrefix(disk, path, depth);
    SteadyCurrent(disk, path, depth);
    SteadyMoved(disk, up, depth, Top(up).(visit := 0));
    assert Linked(disk, path[|path| - 2], path[|path| - 1]);
    LeftsAt(Top(path));
    NoLeaves(disk, depth + 1 - |path|);
    LeftStep(disk, path, depth, |path|);
    SameLefts(Top(up));
    LeftSame(disk, path, p, depth, |p|);
    SteadyFormed(disk, path, depth, |path| - 1);
    FirstUp(disk, path, depth, x);
  }

  lemma SameLefts(l: Level)
    ensures Lefts(l.(visit := 0)) == Lefts(l)
  {
  }

  /** The first leaf entry of a node is that of its first entry. */
  lemma FirstUp(disk: Disk, path: seq<Level>, depth: nat, x: Entry)
    requires 0 < |path| <= depth + 1 && Top(path).curr == 0 && Top(path).buf.entries != []
    requires if |path| == depth + 1 then Top(path).buf.entries[0] == x else First(disk, path, depth, x)
    ensures Leaves(disk, Top(path).buf.entries, depth + 1 - |path|) != [] && Leaves(disk, Top(path).buf.entries, depth + 1 - |path|)[0] == x
  {
  }

  /** To the left sibling. */
  lemma BackSibling(disk: Disk, path: seq<Level>, depth: nat, path0: seq<Level>, x: Entry)
    requires Steady(disk, path, depth) && Placed(Top(path)) && Top(path).curr > 0
    requires 0 < |path0| <= depth + 1
    requires if |path| == depth + 1 then path == path0 else Top(path).visit == 0 && Backing(disk, path, depth, Here(disk, path0, depth), x)
    ensures var p := SetTop(path, Retreated(Top(path), |path| <= depth));
      if |path| == depth + 1 then Here(disk, p, depth) == Here(disk, path0, depth) - 1
      else Backing(disk, p, depth, Here(disk, path0, depth), x)
  {
    hide Formed, Foot, Leaves, Lefts, Rights;
    var n, l := |path| - 1, Top(path);
    var l', d := Retreated(l, |path| <= depth), depth - n;
    var p := SetTop(path, l');
    var e := l'.buf.entries[l'.curr];
    LeftSame(disk, path, p, depth, n);
    LeftStep(disk, path, depth, n + 1);
    LeftStep(disk, p, depth, n + 1);
    LeftsAt(l);
    LeftsAt(l');
    assert Lefts(l) == Lefts(l') + [e];
    LeavesCat(disk, Lefts(l'), [e], d);
    if d == 0 {
      LeavesFlat(disk, [e]);
    } else {
      SteadyFormed(disk, path, depth, n);
      KidFormed(disk, l.buf.entries, d, l.curr);
      KidFormed(disk, l.buf.entries, d, l'.curr);
      OneEntry(disk, e, d, 0, 0);
      var o := l.buf.entries[l.curr];
      assert Rights(l') == [o] + Rights(l);
      LeavesCat(disk, [o], Rights(l), d);
      OneEntry(disk, o, d, 0, 0);
    }
  }

  /** Down to the last entry below. */
  lemma BackDown(disk: Disk, path: seq<Level>, depth: nat, k: nat, x: Entry)
    requires Steady(disk, path, depth) && |path| <= depth && Placed(Top(path)) && Top(path).curr >= 0 && Top(path).visit > 0
    requires Backing(disk, path, depth, k, x)
    ensures Top(path).buf.entries[Top(path).curr].pblk in disk
    ensures var b := Entered(disk, Top(path), true, |path| < depth); var p := path + [b];
      && Placed(b) && b.curr >= 0
      && if |p| == depth + 1 then k > 0 && Here(disk, p, depth) == k - 1 && b.left == 0 && Leads(disk, p, depth, depth, x)
         else Backing(disk, p, depth, k, x) && b.visit > 0
  {
    hide Formed, Foot, Leaves, Lefts, Rights;
    EnterSteady(disk, path, depth, true);
    var n, l := |path|, Top(path);
    var b := Entered(disk, l, true, |path| < depth);
    var p, ch, d := path + [b], b.buf.entries, depth - n;
    SteadyFormed(disk, p, depth, n);
    LeftSame(disk, path, p, depth, n);
    LeftStep(disk, p, depth, n + 1);
    LeftsAt(b);
    LeadsSame(disk, path, p, depth, n, x);
    var last := ch[|ch| - 1];
    assert ch == ch[..|ch| - 1] + [last];
    LeavesCat(disk, ch[..|ch| - 1], [last], d);
    if d == 0 {
      LeavesFlat(disk, [last]);
    } else {
      KidFormed(disk, ch, d, |ch| - 1);
      OneEntry(disk, last, d, 0, 0);
    }
  }

  lemma BackNone(disk: Disk, path: seq<Level>, depth: nat, path0: seq<Level>, x: Entry)
    requires Steady(disk, path, depth) && Placed(Top(path)) && Top(path).curr == 0 && |path| == 1 && 0 < |path0| <= depth + 1
    requires if |path| == depth + 1 then path == path0 else Top(path).visit == 0 && Backing(disk, path, depth, Here(disk, path0, depth), x)
    ensures Here(disk, path0, depth) == 0
  {
    hide Formed, Foot, Leaves, Lefts;
    LeftStep(disk, path, depth, 1);
    LeftsAt(Top(path));
    NoLeaves(disk, depth);
  }

  // ---------- Back to a known position ----------

  /** extent_get reports no length for the current index entry. */
  predicate NoLength(path: seq<Level>, depth: nat) {
    0 < |path| <= depth && Placed(Top(path)) && Top(path).curr >= 0 && InfoOf(Top(path), false).len == 0
  }

  /** ... or for one of the parents that would be split before its node. */
  predicate Blind(path: seq<Level>, depth: nat) {
    NoLength(path, depth)
    || (|path| > 1 && |path[|path| - 2].buf.entries| >= path[|path| - 2].buf.max && Blind(path[..|path| - 1], depth))
  }

  /** ... and the node is full. */
  predicate Stuck(path: seq<Level>, depth: nat) {
    path != [] && |Top(path).buf.entries| >= Top(path).buf.max && Blind(path, depth)
  }

  /** How many new nodes a split of the node at the end takes: one, and those of full parents. */
  function NewNodes(path: seq<Level>): nat {
    1 + if |path| > 1 && |path[|path| - 2].buf.entries| >= path[|path| - 2].buf.max then NewNodes(path[..|path| - 1]) else 0
  }

  /** n entries can be put in there: they fit, or as many blocks are free as a split takes, and after
      each split the way back is found. */
  predicate Room(path: seq<Level>, depth: nat, n: nat, free: nat) {
    path != [] && (n == 0 || |Top(path).buf.entries| + n <= Top(path).buf.max || (!Blind(path, depth) && NewNodes(path) <= free))
  }

  /** How many blocks that takes: none where they fit. */
  function Cost(path: seq<Level>, n: nat): nat {
    if path == [] || n == 0 || |Top(path).buf.entries| + n <= Top(path).buf.max then 0 else NewNodes(path)
  }

  /** Room for one more entry depends only on the size of the leaf and on what is above. */
  lemma RoomSame(path: seq<Level>, path': seq<Level>, depth: nat)
    requires 0 < |path| == |path'| == depth + 1 && path' == SetTop(path, Top(path'))
    ensures Blind(path', depth) == Blind(path, depth) && NewNodes(path') == NewNodes(path)
  {
    BlindStep(path, depth);
    BlindStep(path', depth);
    assert path'[..|path| - 1] == path[..|path| - 1];
  }

  /** The leaf has changed, but not its size. */
  predicate Resized(path0: seq<Level>, path: seq<Level>) {
    && path0 != [] && path != [] && path == SetTop(path0, Top(path))
    && |Top(path).buf.entries| == |Top(path0).buf.entries| && Top(path).buf.max == Top(path0).buf.max
  }

  lemma SizeSame(path0: seq<Level>, path: seq<Level>, depth: nat)
    requires |path0| == depth + 1 && Resized(path0, path)
    ensures Blind(path, depth) == Blind(path0, depth) && NewNodes(path) == NewNodes(path0)
    ensures forall n: nat, free: nat :: Room(path, depth, n, free) == Room(path0, depth, n, free)
    ensures forall n: nat :: Cost(path, n) == Cost(path0, n)
  {
    RoomSame(path0, path, depth);
  }

  lemma TookSame(path0: seq<Level>, path1: seq<Level>, depth0: nat, free0: nat, path: seq<Level>, depth: nat, free: nat)
    requires |path0| == depth0 + 1 && Resized(path0, path1) && Took(path1, depth0, free0, path, depth, free)
    ensures Took(path0, depth0, free0, path, depth, free)
  {
    RoomSame(path0, path1, depth0);
  }

  /** One entry has gone in: beside the others, or where a split has left room for more. */
  predicate Took(path0: seq<Level>, depth0: nat, free0: nat, path: seq<Level>, depth: nat, free: nat) {
    && path0 != [] && path != []
    && if |Top(path0).buf.entries| < Top(path0).buf.max then
         && path == SetTop(path0, Top(path)) && depth == depth0 && free == free0
         && |Top(path).buf.entries| == |Top(path0).buf.entries| + 1 && Top(path).buf.max == Top(path0).buf.max
       else |Top(path).buf.entries| < Top(path).buf.max && free + NewNodes(path0) == free0
  }

  lemma TookIn(path0: seq<Level>, depth0: nat, free0: nat, path: seq<Level>, depth: nat, free: nat, after: bool, e: Entry)
    requires path0 != [] && path != [] && 0 <= Top(path).curr < |Top(path).buf.entries|
    requires if |Top(path0).buf.entries| < Top(path0).buf.max then path == path0 && depth == depth0 && free == free0
      else |Top(path).buf.entries| + 1 < Top(path).buf.max && free + NewNodes(path0) == free0
    ensures Took(path0, depth0, free0, SetTop(path, Inserted(Top(path), after, e)), depth, free)
  {
  }

  /** So another one finds room exactly when there was room for two. */
  lemma TookRoom(path0: seq<Level>, depth0: nat, free0: nat, path: seq<Level>, depth: nat, free: nat)
    requires Took(path0, depth0, free0, path, depth, free) && Room(path0, depth0, 1, free0) && |path0| == depth0 + 1 && |path| == depth + 1
    ensures Room(path, depth, 1, free) <==> Room(path0, depth0, 2, free0)
    ensures Cost(path0, 2) == Cost(path0, 1) + Cost(path, 1) && free + Cost(path0, 1) == free0
    ensures !Room(path0, depth0, 2, free0) ==>
      && Blind(path, depth) == Blind(path0, depth0) && NewNodes(path) == NewNodes(path0) && free == free0
      && |Top(path0).buf.entries| < Top(path0).buf.max
  {
    if |Top(path0).buf.entries| < Top(path0).buf.max {
      RoomSame(path0, path, depth);
    }
  }

  lemma BlindStep(path: seq<Level>, depth: nat)
    requires path != []
    ensures NewNodes(path) == 1 + if |path| > 1 && |path[|path| - 2].buf.entries| >= path[|path| - 2].buf.max then NewNodes(path[..|path| - 1]) else 0
    ensures Blind(path, depth) ==
      (NoLength(path, depth)
       || (|path| > 1 && |path[|path| - 2].buf.entries| >= path[|path| - 2].buf.max && Blind(path[..|path| - 1], depth)))
  {
  }

  /** The same length is reported for the same entry, if its range ends where it did. */
  lemma SameLength(p: seq<Level>, depth: nat, q: seq<Level>, depth': nat)
    requires p != [] && q != [] && |p| - depth == |q| - depth' && Placed(Top(p)) && Top(p).curr >= 0 && Placed(Top(q)) && Top(q).curr >= 0
    requires KeyOf(Top(p)) == KeyOf(Top(q)) && EndOf(Top(p)) == EndOf(Top(q))
    ensures NoLength(p, depth) == NoLength(q, depth')
  {
  }

  /** The recorded end of a node's range: that of the file, or the next key. */
  lemma {:induction false} EndIs(disk: Disk, path: seq<Level>, depth: nat, n: nat)
    requires Steady(disk, path, depth) && n < |path| && Keyed(disk, path[0].buf.entries, depth, 0, U32)
    ensures path[n].end == path[0].end || (path[n].end == HighOf(path, n) && HighOf(path, n) < U32)
    ensures HighOf(path, n) <= U32
  {
    hide Formed, Foot, Keyed, Lefts, Rights, Exact, ExactAt, Leaves;
    if n > 0 {
      EndIs(disk, path, depth, n - 1);
      assert Linked(disk, path[n - 1], path[n]);
      Zip(disk, path, depth, n);
      var l, d := path[n - 1], depth + 1 - n;
      LeftsAt(l);
      KeyedBounds(disk, Rights(l), d, HighOf(path, n), HighOf(path, n - 1));
      if Rights(l) != [] {
        KeyedFirst(disk, Rights(l), d, HighOf(path, n), HighOf(path, n - 1));
      }
    }
  }

  lemma ModZero(end: nat, key: nat)
    requires key < U32
    ensures (end - key) % U32 == 0 ==> end % U32 == key
    ensures key < end < U32 ==> (end - key) % U32 != 0
  {
  }

  /** The recorded end of the file is the key of an index entry on the way. */
  ghost predicate AtEnd(path: seq<Level>, depth: nat) {
    exists i :: 0 <= i < |path| && i < depth && path[0].end % U32 == KeyOf(path[i])
  }

  /** That happens only if the recorded end of the file is the key of an index entry on the way. */
  lemma {:induction false} BlindAtEnd(disk: Disk, path: seq<Level>, depth: nat)
    requires Steady(disk, path, depth) && Keyed(disk, path[0].buf.entries, depth, 0, U32) && Blind(path, depth)
    ensures AtEnd(path, depth)
  {
    hide Formed, Foot, Keyed, EndOf;
    if NoLength(path, depth) {
      EmptyRange(disk, path, depth);
      assert path[0].end % U32 == KeyOf(path[|path| - 1]);
    } else {
      var up := path[..|path| - 1];
      SteadyPrefix(disk, path, depth);
      BlindAtEnd(disk, up, depth);
      var i :| 0 <= i < |up| && i < depth && up[0].end % U32 == KeyOf(up[i]);
      assert path[i] == up[i] && path[0] == up[0];
    }
  }

  /** Keys do not decrease on the way down. */
  lemma {:induction false} KeysDown(disk: Disk, path: seq<Level>, depth: nat, i: nat, n: nat)
    requires Steady(disk, path, depth) && Keyed(disk, path[0].buf.entries, depth, 0, U32) && i <= n < |path| && Top(path).curr >= 0
    ensures KeyOf(path[i]) <= KeyOf(path[n])
  {
    hide Formed, Foot, Keyed, Exact, ExactAt, OrderAt, Leaves, LeftOf, RightOf, HighOf;
    if i < n {
      KeysDown(disk, path, depth, i, n - 1);
      SteadyCurrent(disk, path, depth);
      Zip(disk, path, depth, n);
      KidKeyed(disk, path[n].buf.entries, depth - n, path[n].curr, LowOf(path, n), HighOf(path, n));
    }
  }

  lemma EmptyRange(disk: Disk, path: seq<Level>, depth: nat)
    requires Steady(disk, path, depth) && Keyed(disk, path[0].buf.entries, depth, 0, U32) && Top(path).curr >= 0
    ensures (EndOf(Top(path)) - KeyOf(Top(path))) % U32 == 0 ==> path[0].end % U32 == KeyOf(Top(path))
  {
    hide Formed, Foot, Keyed, Exact, ExactAt, OrderAt, Leaves, LeftOf, RightOf, HighOf, LowOf;
    var n, l := |path| - 1, Top(path);
    EndIs(disk, path, depth, n);
    Zip(disk, path, depth, n);
    KidKeyed(disk, l.buf.entries, depth - n, l.curr, LowOf(path, n), HighOf(path, n));
    if l.left > 0 {
      KidKeyed(disk, l.buf.entries, depth - n, l.curr + 1, LowOf(path, n), HighOf(path, n));
      KeysIncrease(disk, l.buf.entries, depth - n, LowOf(path, n), HighOf(path, n));
    }
    ModZero(EndOf(l), KeyOf(l));
  }

  lemma FoundBack(disk: Disk, path: seq<Level>, depth: nat, h: nat)
    requires Steady(disk, path, depth) && Keyed(disk, path[0].buf.entries, depth, 0, U32) && |path| == depth - h + 1 && Top(path).curr >= 0
    ensures Reaches(Top(path), h == 0, KeyOf(Top(path))) <==> !NoLength(path, depth)
  {
    hide Formed, Foot, Keyed, Exact, ExactAt, OrderAt, Leaves, LeftOf, RightOf, HighOf, LowOf, Reaches;
    var n, l := |path| - 1, Top(path);
    ReachesKey(l);
    LeafReach(l, KeyOf(l));
    Zip(disk, path, depth, n);
    KidKeyed(disk, l.buf.entries, depth - n, l.curr, LowOf(path, n), HighOf(path, n));
  }

  /** Where the descent for a block led to the end of p, it now leads to the end of q. */
  ghost predicate Follows(p: seq<Level>, q: seq<Level>) {
    forall blk | OnTrack(p, |p|, blk) :: OnTrack(q, |q|, blk)
  }

  lemma FollowsThen(p: seq<Level>, q: seq<Level>, r: seq<Level>)
    ensures Follows(p, q) && Follows(q, r) ==> Follows(p, r)
  {
    hide OnTrack;
  }

  lemma FollowsSame(p: seq<Level>, q: seq<Level>)
    requires |p| == |q| && (forall i | 0 <= i < |q| :: q[i].buf == p[i].buf && q[i].curr == p[i].curr)
    ensures Follows(p, q)
  {
  }

  lemma TrackRoot(path: seq<Level>, blk: nat)
    requires path != [] && OnTrack(path, |path|, blk)
    ensures path[0].buf.entries != []
  {
  }

  lemma RootTrack(path: seq<Level>, kept: seq<Level>)
    requires |path| == 1 && |kept| == 2 && |kept[0].buf.entries| == 1 && kept[0].curr == 0
    requires kept[1].buf.entries == path[0].buf.entries && kept[1].curr == path[0].curr
    ensures Follows(path, kept)
  {
  }

  lemma FollowsKept(disk: Disk, path: seq<Level>, depth: nat, nb: nat, nodeMax: nat)
    requires Splittable(disk, path, depth, nb, nodeMax) && Keyed(disk, path[0].buf.entries, depth, 0, U32)
    requires |Kept(path, nb, nodeMax)| == |path|
    ensures Follows(path, Kept(path, nb, nodeMax))
  {
    hide OnTrack, Kept, Keyed, Steady, Foot;
    forall blk | OnTrack(path, |path|, blk) ensures OnTrack(Kept(path, nb, nodeMax), |path|, blk) {
      KeptTrack(disk, path, depth, nb, nodeMax, blk);
    }
  }

  /** The position below an entry whose own position has moved. */
  lemma FollowsDown(path0: seq<Level>, up: seq<Level>, path: seq<Level>, kept: seq<Level>)
    requires |path0| > 1 && up == path0[..|path0| - 1] && Follows(up, path) && |kept| == |path| + 1 && kept[..|path|] == path
    requires Top(kept).buf == Top(path0).buf && Top(kept).curr == Top(path0).curr
    ensures Follows(path0, kept)
  {
    forall blk | OnTrack(path0, |path0|, blk) ensures OnTrack(kept, |kept|, blk) {
      hide Follows;
      assert OnTrack(up, |up|, blk);
      assert OnTrack(path, |path|, blk) by { FollowsOne(up, path, blk); }
      forall i | 0 <= i < |kept| ensures kept[i].buf.entries != [] && kept[i].curr == Pick(kept[i].buf.entries, blk) {
        if i < |path| {
          assert kept[..|path|][i] == path[i];
        }
      }
    }
  }

  lemma FollowsOne(p: seq<Level>, q: seq<Level>, blk: nat)
    requires Follows(p, q) && OnTrack(p, |p|, blk)
    ensures OnTrack(q, |q|, blk)
  {
  }

  // ---------- Splitting ----------

  /** The root of the tree after a split, and what became of the tree. */
  lemma SplitRoots(disk: Disk, path: seq<Level>, depth: nat, nb: nat, nodeMax: nat, used0: set<nat>)
    requires Splittable(disk, path, depth, nb, nodeMax) && nb !in used0 && |path[0].buf.entries| <= path[0].buf.max
    ensures var n := |path| - 1; var disk', up := Cutting(disk, path, nb, nodeMax), path[..n - 1] + [Adopted(path[n - 1], Top(path), nb)];
      && up[0].end == path[0].end && up[0].buf.max == path[0].buf.max && |up[0].buf.entries| <= up[0].buf.max
      && Kept(path, nb, nodeMax)[0].buf == up[0].buf && Kept(path, nb, nodeMax)[0].end == up[0].end && |Kept(path, nb, nodeMax)| == |path|
      && Evolved(disk, path[0].buf.entries, depth, used0, disk', up[0].buf.entries, depth, used0 + {nb}, 1)
  {
    hide Formed, Foot, Keyed, Leaves, Exact, Evolved, Same, Cutting;
    SplitSame(disk, path, depth, nb, nodeMax);
    var n := |path| - 1;
    var up := path[..n - 1] + [Adopted(path[n - 1], Top(path), nb)];
    SameEvolved(disk, path[0].buf.entries, depth, used0, Cutting(disk, path, nb, nodeMax), up[0].buf.entries, nb);
  }

  /** Nodes below the root hold at most what fits in a block. */
  lemma NodeBounds(disk: Disk, path: seq<Level>, depth: nat, nodeMax: nat)
    requires Steady(disk, path, depth) && |path| > 1
    requires forall b | b in Foot(disk, path[0].buf.entries, depth) :: b in disk && 6 <= disk[b].max <= nodeMax
    ensures |Top(path).buf.entries| <= Top(path).buf.max <= nodeMax && 6 <= Top(path).buf.max
  {
    hide Formed, Foot;
    SteadyFormed(disk, path, depth, |path| - 1);
    BelowApart(disk, path, depth, |path| - 1, 0);
  }

  /** Below the root a full node has at least two entries. */
  lemma ParentFull(disk: Disk, path: seq<Level>, depth: nat)
    requires Steady(disk, path, depth) && |path| > 1
    requires forall b | b in Foot(disk, path[0].buf.entries, depth) :: b in disk && 2 <= disk[b].max
    ensures |path| > 2 ==> path[|path| - 2].buf.max >= 2
    ensures Top(path).buf.max >= 2
  {
    hide Formed, Foot;
    BelowApart(disk, path, depth, |path| - 1, 0);
    if |path| > 2 {
      BelowApart(disk, path, depth, |path| - 2, 0);
    }
  }

  /** All about the parent of the node at the end of the path. */
  lemma Above(disk: Disk, path: seq<Level>, depth: nat)
    requires Steady(disk, path, depth) && |path| > 1
    requires forall b | b in Foot(disk, path[0].buf.entries, depth) :: b in disk && 2 <= disk[b].max
    ensures |path| <= depth + 1
    ensures var up, d := path[..|path| - 1], depth - (|path| - 1);
      && Top(up) == path[|path| - 2] && Placed(Top(up)) && 0 <= Top(up).curr < |Top(up).buf.entries| && Top(path).end == EndOf(Top(up))
      && (|up| > 1 ==> Top(up).buf.max >= 2)
      && var e := Top(up).buf.entries[Top(up).curr];
      && e.pblk in disk && disk[e.pblk] == Top(path).buf && e.pblk in Foot(disk, Top(up).buf.entries, d + 1)
      && Foot(disk, Top(path).buf.entries, d) <= Foot(disk, Top(up).buf.entries, d + 1)
  {
    hide Formed, Foot;
    assert Linked(disk, path[|path| - 2], path[|path| - 1]);
    BelowApart(disk, path, depth, |path| - 1, |path| - 2);
    ParentFull(disk, path, depth);
  }

  // ---------- Inserting ----------

  /** The leaf mid, which has its place at the end of the path, is where descents that led to `before`
      lead; it lies in its range, and all around it is in order. */
  ghost predicate Roomy(disk: Disk, path: seq<Level>, depth: nat, mid: Level, before: seq<Level>, exact: bool) {
    && |path| == depth + 1 && 0 <= mid.curr < |mid.buf.entries| && Follows(before, SetTop(path, mid))
    && OrderAt(disk, path, depth, depth)
    && LowOf(path, depth) <= mid.buf.entries[0].lblk && Ends(mid.buf.entries) <= HighOf(path, depth)
    && (exact ==> ExactAt(disk, path, depth, depth) && (depth > 0 ==> LowOf(path, depth) == mid.buf.entries[0].lblk))
  }

  lemma RoomyHere(disk: Disk, path: seq<Level>, depth: nat, before: seq<Level>, exact: bool)
    requires Steady(disk, path, depth) && |path| == depth + 1 && Top(path).curr >= 0 && Keyed(disk, path[0].buf.entries, depth, 0, U32)
    requires Follows(before, path) && (exact ==> Exact(disk, path[0].buf.entries, depth))
    ensures Roomy(disk, path, depth, Top(path), before, exact)
  {
    hide Formed, Foot, Leaves, Keyed, Exact, LowOf, HighOf, OrderAt, ExactAt, LeftOf, RightOf, Follows;
    LeafRange(disk, path, depth);
    Zip(disk, path, depth, depth);
    assert SetTop(path, Top(path)) == path;
  }

  lemma RoomyThen(disk: Disk, path: seq<Level>, disk': Disk, path': seq<Level>, depth: nat, before: seq<Level>, exact: bool)
    requires path != [] && Roomy(disk, path, depth, Top(path), before, exact)
    requires |path'| == |path| && path' == SetTop(path, Top(path')) && OrderAt(disk', path', depth, depth)
    requires ExactAt(disk, path, depth, depth) ==> ExactAt(disk', path', depth, depth)
    ensures Roomy(disk', path', depth, Top(path), before, exact)
  {
    hide LowOf, HighOf, OrderAt, ExactAt, LeftOf, RightOf, Follows;
    AboveSame(disk, path, path', depth, depth);
    assert SetTop(path', Top(path)) == path == SetTop(path, Top(path));
  }

  // ---------- Blocks taken and counted ----------

  /** The blocks in use apart from the nodes of the tree, and i_blocks apart from them. */
  ghost function LedgerOf(foot: set<nat>, used: set<nat>, blocks: nat, unit: nat): (set<nat>, int) {
    (used - foot, (blocks - |foot| * unit) % U32)
  }

  /** The blocks that come into use or leave it are the nodes that join or leave the tree, and i_blocks
      follows, but for some nodes that were not counted. */
  ghost predicate Books(foot: set<nat>, used: set<nat>, blocks: nat, foot': set<nat>, used': set<nat>, blocks': nat, unit: nat, missed: nat) {
    && used' == used - (foot - foot') + (foot' - foot) && (foot' - foot) !! used
    && blocks' == (blocks + (|foot'| - |foot| - missed) * unit) % U32
  }

  lemma LedgerRange(foot: set<nat>, used: set<nat>, blocks: nat, unit: nat)
    ensures (LedgerOf(foot, used, blocks, unit).1 - 0 * unit) % U32 == LedgerOf(foot, used, blocks, unit).1
  {
  }

  lemma ModShift(a: int, b: int, c: int)
    ensures ((a % U32) + b) % U32 == (a + b) % U32
    ensures a % U32 == c % U32 ==> (a + b) % U32 == (c + b) % U32
  {
    var q := a / U32;
    assert a == q * U32 + a % U32;
    ModAdd((a % U32) + b, q);
    if a % U32 == c % U32 {
      var r := c / U32;
      assert c == r * U32 + c % U32;
      ModAdd((c % U32) + b, r);
    }
  }

  lemma ModAdd(x: int, k: int)
    ensures (x + k * U32) % U32 == x % U32
  {
    var r, q := x % U32, x / U32;
    assert x == q * U32 + r;
    assert x + k * U32 == (q + k) * U32 + r;
    ModIs(x + k * U32, q + k, r);
  }

  lemma ModIs(y: int, q: int, r: int)
    requires y == q * U32 + r && 0 <= r < U32
    ensures y % U32 == r
  {
  }

  /** The same ledger before and after. */
  lemma LedgerBooks(foot: set<nat>, used: set<nat>, blocks: nat, foot': set<nat>, used': set<nat>, blocks': nat, unit: nat, missed: nat)
    requires foot <= used && foot' <= used' && blocks' < U32
    requires LedgerOf(foot', used', blocks', unit).0 == LedgerOf(foot, used, blocks, unit).0
    requires LedgerOf(foot', used', blocks', unit).1 == (LedgerOf(foot, used, blocks, unit).1 - missed * unit) % U32
    ensures Books(foot, used, blocks, foot', used', blocks', unit, missed)
  {
    var rest := used - foot;
    assert used == rest + foot && used' == rest + foot';
    CountedOn(|foot|, blocks, |foot'|, blocks', unit, missed);
  }

  /** Where no other block came into use or left it, the same nodes are in the tree, and the count stays. */
  lemma BooksStill(foot: set<nat>, used: set<nat>, blocks: nat, foot': set<nat>, used': set<nat>, blocks': nat, unit: nat)
    requires Books(foot, used, blocks, foot', used', blocks', unit, 0) && used' == used && foot <= used && blocks < U32
    ensures foot' == foot && blocks' == blocks
  {
    assert foot' - foot == {} && foot - foot' == {};
  }

  lemma CountedOn(n: nat, blocks: nat, n': nat, blocks': nat, unit: nat, missed: nat)
    requires blocks' < U32 && (blocks' - n' * unit) % U32 == ((blocks - n * unit) % U32 - missed * unit) % U32
    ensures blocks' == (blocks + (n' - n - missed) * unit) % U32
  {
    var a, b := blocks' - n' * unit, blocks - n * unit;
    ModShift(b, 0 - missed * unit, b);
    ModShift(a, n' * unit, b - missed * unit);
    assert (n' - n - missed) * unit == n' * unit - n * unit - missed * unit;
  }

  /** New nodes, each from a free block; all but `missed` of them counted. */
  lemma LedgerGrown(foot: set<nat>, used: set<nat>, blocks: nat, foot': set<nat>, used': set<nat>, blocks': nat, unit: nat, splits: nat, counted: nat, missed: nat)
    requires foot <= used && used <= used' && |used'| == |used| + splits && foot' == foot + (used' - used)
    requires blocks' == (blocks + counted * unit) % U32 && splits == counted + missed
    ensures LedgerOf(foot', used', blocks', unit) == (LedgerOf(foot, used, blocks, unit).0, (LedgerOf(foot, used, blocks, unit).1 - missed * unit) % U32)
  {
    assert used' == used + (used' - used);
    assert |used' - used| == splits && |foot'| == |foot| + splits;
    assert used' - foot' == used - foot;
    LedgerCount(|foot|, blocks, |foot'|, blocks', unit, counted, missed);
  }

  lemma LedgerCount(n: nat, blocks: nat, n': nat, blocks': nat, unit: nat, counted: nat, missed: nat)
    requires n' == n + counted + missed && blocks' == (blocks + counted * unit) % U32
    ensures (blocks' - n' * unit) % U32 == ((blocks - n * unit) % U32 - missed * unit) % U32
  {
    ModShift(blocks + counted * unit, 0 - n' * unit, 0);
    ModShift(blocks - n * unit, 0 - missed * unit, 0);
    assert n' * unit == n * unit + counted * unit + missed * unit;
  }

  /** Nodes leave, and are counted off. */
  lemma LedgerShrunk(foot: set<nat>, used: set<nat>, blocks: nat, foot': set<nat>, used': set<nat>, blocks': nat, unit: nat)
    requires foot' <= foot <= used && used' == used - (foot - foot') && blocks' == (blocks - |foot - foot'| * unit) % U32
    ensures LedgerOf(foot', used', blocks', unit) == LedgerOf(foot, used, blocks, unit)
  {
    assert foot == foot' + (foot - foot');
    assert used' - foot' == used - foot;
    var n := |foot - foot'|;
    ModShift(blocks - n * unit, 0 - |foot'| * unit, 0);
    assert |foot| * unit == |foot'| * unit + n * unit;
  }

  // ---------- Parents ----------

  lemma ClimbingFirst(disk: Disk, path: seq<Level>, depth: nat, start: nat)
    requires Climbing(disk, path, depth, start)
    ensures path != [] && Top(path).curr == 0
  {
  }

  lemma RootSome(disk: Disk, path: seq<Level>, depth: nat)
    requires Steady(disk, path, depth) && Top(path).curr >= 0
    ensures path[0].buf.entries != []
  {
    SteadyCurrent(disk, path, depth);
  }

  /** The node at a level of the path is on the disk, with its own maximum. */
  lemma NodeAt(disk: Disk, path: seq<Level>, depth: nat, n: nat)
    requires Steady(disk, path, depth) && n < |path|
    ensures n > 0 ==> 0 <= path[n - 1].curr < |path[n - 1].buf.entries| && BlockAt(path, n) in disk && disk[BlockAt(path, n)] == path[n].buf
  {
    hide Formed, Foot;
    if n > 0 {
      BelowApart(disk, path, depth, n, 0);
    }
  }

  lemma {:induction false} KidInside(disk: Disk, es: seq<Entry>, d: nat, c: nat)
    requires d > 0 && c < |es| && es[c].pblk in disk
    ensures forall x | x in Leaves(disk, disk[es[c].pblk].entries, d - 1) :: x in Leaves(disk, es, d)
  {
    if c > 0 {
      KidInside(disk, es[1..], d, c - 1);
    }
  }

  lemma {:induction false} KidExact(disk: Disk, es: seq<Entry>, d: nat, c: nat)
    requires d > 0 && c < |es| && Exact(disk, es, d)
    ensures es[c].pblk in disk && disk[es[c].pblk].entries != [] && disk[es[c].pblk].entries[0].lblk == es[c].lblk
    ensures Exact(disk, disk[es[c].pblk].entries, d - 1)
  {
    if c > 0 {
      KidExact(disk, es[1..], d, c - 1);
    }
  }

  /** With exact keys a leaf entry starts at each key. */
  lemma {:induction false} ExactLeaf(disk: Disk, es: seq<Entry>, d: nat, c: nat, lo: nat, hi: nat) returns (x: Entry)
    requires Keyed(disk, es, d, lo, hi) && Exact(disk, es, d) && c < |es|
    ensures x in Leaves(disk, es, d) && x.lblk == es[c].lblk && x.len > 0
    decreases d
  {
    hide Keyed, Exact, Leaves;
    KidKeyed(disk, es, d, c, lo, hi);
    if d == 0 {
      x := es[c];
      LeavesFlat(disk, es);
    } else {
      KidExact(disk, es, d, c);
      x := ExactLeaf(disk, disk[es[c].pblk].entries, d - 1, 0, es[c].lblk, Next(es[c..], hi));
      KidInside(disk, es, d, c);
    }
  }

  /** All about one step up. */
  lemma ClimbAll(disk: Disk, path: seq<Level>, depth: nat, start: nat, nodeMax: nat)
    requires Climbing(disk, path, depth, start) && 1 < |path| <= depth + 1
    requires forall b | b in Foot(disk, path[0].buf.entries, depth) :: b in disk && 6 <= disk[b].max <= nodeMax
    ensures forall i | 0 <= i < |path| - 1 :: 0 <= path[i].curr < |path[i].buf.entries|
    ensures KeyOf(path[|path| - 2]) == start ==> Keyed(disk, path[0].buf.entries, depth, 0, U32)
    ensures KeyOf(path[|path| - 2]) == start && ClimbingExact(disk, path, depth) ==> Exact(disk, path[0].buf.entries, depth)
    ensures var disk', path' := ClimbDisk(disk, path, start), ClimbPath(path, start);
      && Steady(disk', path', depth) && |path'| == |path| - 1 && Top(path').curr == path[|path| - 2].curr
      && Foot(disk', path'[0].buf.entries, depth) == Foot(disk, path[0].buf.entries, depth)
      && Leaves(disk', path'[0].buf.entries, depth) == Leaves(disk, path[0].buf.entries, depth)
      && path'[0].end == path[0].end && path'[0].buf.max == path[0].buf.max && |path'[0].buf.entries| == |path[0].buf.entries|
      && (forall b | b in Foot(disk', path'[0].buf.entries, depth) :: b in disk' && 6 <= disk'[b].max <= nodeMax)
      && if path[|path| - 2].curr == 0
         then Climbing(disk', path', depth, start) && (ClimbingExact(disk, path, depth) ==> ClimbingExact(disk', path', depth))
         else Keyed(disk', path'[0].buf.entries, depth, 0, U32) && (ClimbingExact(disk, path, depth) ==> Exact(disk', path'[0].buf.entries, depth))
  {
    hide Formed, Foot, Leaves, Keyed, Exact, Lefts, Rights, LeftOf, RightOf, LowOf, HighOf, Rekeyed, OrderAt, ExactAt,
         ClimbingExact, EndBy;
    ClimbWritten(disk, path, depth, start);
    ClimbStep(disk, path, depth, start);
    RekeyedPlaced(path[|path| - 2], start);
    NodeAt(disk, path, depth, |path| - 2);
    if ClimbingExact(disk, path, depth) {
      ClimbExact(disk, path, depth, start);
    }
    if KeyOf(path[|path| - 2]) == start {
      ClimbBreak(disk, path, depth, start);
    }
  }

  // ---------- Deleting ----------

  lemma DeletedMax(disk: Disk, path: seq<Level>, depth: nat, nodeMax: nat)
    requires Steady(disk, path, depth) && |path| == depth + 1 && Top(path).curr >= 0 && AllOn(path)
    requires |path[Stops(path, depth)].buf.entries| > 1
    requires forall b | b in Foot(disk, path[0].buf.entries, depth) :: b in disk && 6 <= disk[b].max <= nodeMax
    ensures forall b | b in Foot(disk, path[0].buf.entries, depth) :: b in PrunedDisk(disk, path) && 6 <= PrunedDisk(disk, path)[b].max <= nodeMax
  {
    hide Formed, Foot, Removed, Steady;
    var m := Stops(path, depth);
    RemovedParts(path[m]);
    NodeAt(disk, path, depth, m);
  }

  lemma LeavesAtEntry(disk: Disk, path: seq<Level>, depth: nat)
    requires Steady(disk, path, depth) && Top(path).curr >= 0
    ensures Leaves(disk, path[0].buf.entries, depth) != []
  {
    hide Formed, Foot, Leaves, Steady;
    SteadyTop(disk, path, depth);
    RootSome(disk, path, depth);
    SteadyFormed0(disk, path, depth);
    LeavesSome(disk, path[0].buf.entries, depth);
  }

  lemma NothingBelow(disk: Disk, path: seq<Level>, depth: nat)
    requires Steady(disk, path, depth)
    ensures Leaves(disk, path[0].buf.entries, depth) == [] <==> path[0].buf.entries == []
    ensures path[0].buf.entries == [] ==> |path| == 1 && Top(path) == path[0] && Top(path).curr == -1 && Top(path).left == 0
  {
    hide Formed, Leaves;
    SteadyFormed0(disk, path, depth);
    if path[0].buf.entries == [] {
      NoLeaves(disk, depth);
      RootEmpty(disk, path, depth);
    } else {
      LeavesSome(disk, path[0].buf.entries, depth);
    }
  }

  lemma EmptyTree(disk: Disk, path: seq<Level>)
    requires |path| == 1 && path[0].buf.entries == [] && path[0].left == 0 && path[0].curr == -1
    ensures Steady(disk, path, 0) && Keyed(disk, [], 0, 0, U32) && Leaves(disk, [], 0) == [] && Foot(disk, [], 0) == {} && Exact(disk, [], 0)
  {
  }

  /** All about the tree after a deletion. */
  lemma DeleteDone(disk: Disk, path: seq<Level>, depth: nat, nodeMax: nat)
    requires Steady(disk, path, depth) && |path| == depth + 1 && Top(path).curr >= 0 && Keyed(disk, path[0].buf.entries, depth, 0, U32)
    requires AllOn(path) && forall b | b in Foot(disk, path[0].buf.entries, depth) :: b in disk && 6 <= disk[b].max <= nodeMax
    ensures PrunedPath(path) != []
    ensures var all, k := Leaves(disk, path[0].buf.entries, depth), Here(disk, path, depth);
      var disk', path' := PrunedDisk(disk, path), PrunedPath(path);
      var depth' := if Top(path').buf.entries == [] then 0 else depth;
      && Steady(disk', path', depth') && k < |all| && Leaves(disk', path'[0].buf.entries, depth') == all[..k] + all[k + 1..]
      && Foot(disk', path'[0].buf.entries, depth') == Foot(disk, path[0].buf.entries, depth) - Freed(path)
      && Freed(path) <= Foot(disk, path[0].buf.entries, depth)
      && (forall b | b in Foot(disk', path'[0].buf.entries, depth') :: b in disk' && 6 <= disk'[b].max <= nodeMax)
      && path'[0].end == path[0].end && path'[0].buf.max == path[0].buf.max && |path'[0].buf.entries| <= |path[0].buf.entries|
      && Keyed(disk', path'[0].buf.entries, depth', 0, U32) && |path'| <= depth' + 1
      && (if all[..k] + all[k + 1..] == [] then Top(path').curr == -1 && Exact(disk', path'[0].buf.entries, depth')
          else && Top(path').curr >= 0 && (Top(path').curr == 0 ==> Climbing(disk', path', depth', Top(path').buf.entries[0].lblk))
               && (Exact(disk, path[0].buf.entries, depth) ==>
                    ClimbingExact(disk', path', depth') && (Top(path').curr > 0 ==> Exact(disk', path'[0].buf.entries, depth'))))
  {
    hide Formed, Foot, Leaves, Keyed, Exact, Steady, Climbing, ClimbingExact, Freed, PrunedDisk, PrunedPath, Here;
    var disk', path' := PrunedDisk(disk, path), PrunedPath(path);
    if |path[Stops(path, depth)].buf.entries| > 1 {
      Deleted(disk, path, depth);
      DeletedMax(disk, path, depth, nodeMax);
      SteadyTop(disk', path', depth);
      LeavesAtEntry(disk', path', depth);
      if Top(path').curr == 0 {
        ClimbReady(disk', path', depth);
      }
    } else {
      DeletedAll(disk, path, depth);
      EmptyTree(disk', path');
    }
  }

  lemma FixableFirst(disk: Disk, path: seq<Level>, depth: nat)
    requires Steady(disk, path, depth) && |path| == depth + 1 && Top(path).curr == 0 && OrderAt(disk, path, depth, depth)
    requires Ends(Top(path).buf.entries) <= HighOf(path, depth) && Runs(Leaves(disk, path[0].buf.entries, depth), 0, U32)
    ensures Climbing(disk, path, depth, Top(path).buf.entries[0].lblk)
    ensures ExactAt(disk, path, depth, depth) ==> ClimbingExact(disk, path, depth)
  {
    hide Formed, Foot, Leaves, Keyed, OrderAt, ExactAt, LowOf, HighOf, LeftOf, RightOf, Runs;
    var es := Top(path).buf.entries;
    Zip(disk, path, depth, depth);
    LeavesFlat(disk, es);
    RunsPart(LeftOf(disk, path, depth, depth), es, RightOf(disk, path, depth, depth), 0, U32);
    RunsWiden(es, es[0].lblk, Ends(es), es[0].lblk, HighOf(path, depth));
    KeyedRuns(disk, es, es[0].lblk, HighOf(path, depth));
  }

  // ---------- Neighbours ----------

  lemma AgainLeaf(disk: Disk, path: seq<Level>, depth: nat)
    requires 0 < |path| == depth + 1
    ensures Again(disk, path, depth, |path|) == Rights(Top(path)) + Again(disk, path, depth, depth)
  {
    LeavesFlat(disk, Rights(Top(path)));
    assert [] + Rights(Top(path)) == Rights(Top(path));
  }

  /** Within the leaf NEXT_LEAF leads to the next entry. */
  lemma AgainNext(disk: Disk, path: seq<Level>, depth: nat)
    requires Steady(disk, path, depth) && |path| == depth + 1 && Top(path).curr >= 0 && Top(path).left > 0
    ensures var all, k, again := Leaves(disk, path[0].buf.entries, depth), Here(disk, path, depth), Again(disk, path, depth, |path|);
      k + 1 < |all| && again != [] && again[0] == all[k + 1]
  {
    hide Formed, Foot, Leaves, Again, LeftOf, RightOf;
    AtLeafParts(disk, path, depth);
    AgainLeaf(disk, path, depth);
    assert Leaves(disk, path[0].buf.entries, depth)[Here(disk, path, depth) + 1..][0] == Leaves(disk, path[0].buf.entries, depth)[Here(disk, path, depth) + 1];
  }

  /** After a descent NEXT_LEAF sees the next leaf entry in the same node, or in the next node below
      the same parent; else it comes to the first entry of the same leaf once more. */
  predicate SeesNext(path: seq<Level>)
    requires path != []
  {
    Top(path).left > 0 || (|path| > 1 && path[|path| - 2].visit != 0)
  }

  lemma NextSeen(disk: Disk, path: seq<Level>, depth: nat, blk: nat)
    requires Steady(disk, path, depth) && |path| == depth + 1 && Top(path).curr >= 0
    requires forall i | 0 <= i < depth :: OpenAt(path[i], blk)
    ensures var all, k, again := Leaves(disk, path[0].buf.entries, depth), Here(disk, path, depth), Again(disk, path, depth, |path|);
      if SeesNext(path) then k + 1 < |all| && again != [] && again[0] == all[k + 1]
      else if depth == 0 then again == [] else again != [] && again[0] == Top(path).buf.entries[0]
  {
    if Top(path).left > 0 {
      AgainNext(disk, path, depth);
    } else {
      NextLast(disk, path, depth, blk);
    }
  }

  lemma NextLast(disk: Disk, path: seq<Level>, depth: nat, blk: nat)
    requires Steady(disk, path, depth) && |path| == depth + 1 && Top(path).curr >= 0 && Top(path).left == 0
    requires forall i | 0 <= i < depth :: OpenAt(path[i], blk)
    ensures var all, k, again := Leaves(disk, path[0].buf.entries, depth), Here(disk, path, depth), Again(disk, path, depth, |path|);
      if SeesNext(path) then k + 1 < |all| && again != [] && again[0] == all[k + 1] && RightOf(disk, path, depth, depth) != [] && RightOf(disk, path, depth, depth)[0] == all[k + 1]
      else if depth == 0 then again == [] else again != [] && again[0] == Top(path).buf.entries[0]
  {
    hide Formed, Foot, Leaves, Again, LeftOf, RightOf;
    AgainLeaf(disk, path, depth);
    LeftsAt(Top(path));
    if depth == 0 {
      AgainNone(disk, path, depth);
    } else {
      var l := path[depth - 1];
      assert Linked(disk, path[depth - 1], path[depth]);
      LeftsAt(l);
      SteadyFormed(disk, path, depth, depth - 1);
      BesideApart(disk, path, depth, depth, depth - 1);
      AgainStep(disk, path, depth, depth);
      LeavesFlat(disk, Top(path).buf.entries);
      if l.visit != 0 {
        AtLeafParts(disk, path, depth);
        RightStep(disk, path, depth, depth);
        LeavesSome(disk, Rights(l), 1);
        var all, k := Leaves(disk, path[0].buf.entries, depth), Here(disk, path, depth);
        assert all[k + 1..][0] == all[k + 1];
      }
    }
  }

  lemma AgainNone(disk: Disk, path: seq<Level>, depth: nat)
    requires |path| <= depth + 1
    ensures Again(disk, path, depth, 0) == []
  {
  }

  lemma AgainStep(disk: Disk, path: seq<Level>, depth: nat, n: nat)
    requires 0 < n <= |path| <= depth + 1 && n <= depth && 0 <= path[n - 1].curr < |path[n - 1].buf.entries|
    ensures Again(disk, path, depth, n)
         == (if path[n - 1].visit == 0 then Leaves(disk, Kid(path[n - 1].buf.entries[path[n - 1].curr], disk), depth - n) else [])
            + Leaves(disk, Rights(path[n - 1]), depth + 1 - n) + Again(disk, path, depth, n - 1)
  {
  }

  /** The same spot: only visits may differ. */
  ghost predicate SameSpot(p: seq<Level>, q: seq<Level>) {
    |p| == |q| && forall i | 0 <= i < |p| :: p[i].buf == q[i].buf && p[i].curr == q[i].curr && p[i].left == q[i].left
  }

  /** Two descents for the same block end on the same spot. */
  lemma TrackHere(disk: Disk, p: seq<Level>, q: seq<Level>, depth: nat, blk: nat)
    requires Steady(disk, p, depth) && Steady(disk, q, depth) && |p| == |q| && p[0].buf == q[0].buf && p[0].end == q[0].end
    requires OnTrack(p, |p|, blk) && OnTrack(q, |q|, blk)
    ensures Here(disk, p, depth) == Here(disk, q, depth) && SameSpot(p, q)
  {
    hide Formed, Foot, Pick;
    forall i | 0 <= i < |p| ensures p[i].buf == q[i].buf && p[i].curr == q[i].curr && p[i].left == q[i].left && Lefts(p[i]) == Lefts(q[i]) {
      TrackPrefix(p, i + 1, blk);
      TrackPrefix(q, i + 1, blk);
      TrackUnique(disk, p, q, depth, i, blk);
    }
    LeftSame(disk, q, p, depth, |p|);
  }

  /** A block in the range of a node is on track for it. */
  lemma {:induction false} RangeOnTrack(disk: Disk, path: seq<Level>, depth: nat, n: nat, t: nat)
    requires Steady(disk, path, depth) && n < |path| && Keyed(disk, path[0].buf.entries, depth, 0, U32)
    requires LowOf(path, n) <= t < HighOf(path, n)
    ensures OnTrack(path, n, t)
  {
    hide Formed, Foot, Keyed, Exact, Pick, Lefts, Rights, Leaves, LeftOf, RightOf, ExactAt;
    if n > 0 {
      var l, d := path[n - 1], depth + 1 - n;
      assert Linked(disk, path[n - 1], path[n]);
      Zip(disk, path, depth, n);
      Zip(disk, path, depth, n - 1);
      LeftsAt(l);
      if Lefts(l) != [] {
        KeyedBounds(disk, Lefts(l), d, LowOf(path, n - 1), LowOf(path, n));
      }
      KeyedBounds(disk, Rights(l), d, HighOf(path, n), HighOf(path, n - 1));
      RangeOnTrack(disk, path, depth, n - 1, t);
      KeysIncrease(disk, l.buf.entries, d, LowOf(path, n - 1), HighOf(path, n - 1));
      PickIs(l.buf.entries, t, l.curr);
    }
  }

  /** ... and for its entry, if it is not before it and the next entry starts beyond it. */
  lemma GapOnTrack(disk: Disk, path: seq<Level>, depth: nat, t: nat)
    requires Steady(disk, path, depth) && |path| == depth + 1 && Keyed(disk, path[0].buf.entries, depth, 0, U32) && Top(path).curr >= 0
    requires KeyOf(Top(path)) <= t < HighOf(path, depth)
    requires var all, k := Leaves(disk, path[0].buf.entries, depth), Here(disk, path, depth); k + 1 < |all| ==> t < all[k + 1].lblk
    ensures OnTrack(path, |path|, t)
  {
    hide Formed, Foot, Keyed, Exact, Pick, Leaves, LeftOf, RightOf, ExactAt, OrderAt, LowOf, HighOf;
    var l := Top(path);
    Zip(disk, path, depth, depth);
    KidKeyed(disk, l.buf.entries, 0, l.curr, LowOf(path, depth), HighOf(path, depth));
    RangeOnTrack(disk, path, depth, depth, t);
    KeysIncrease(disk, l.buf.entries, 0, LowOf(path, depth), HighOf(path, depth));
    if l.left > 0 {
      AtLeafParts(disk, path, depth);
      LeftsAt(l);
    }
    PickIs(l.buf.entries, t, l.curr);
  }

  /** The first entry and the end of a leaf when one entry changes. */
  lemma ReplacedEnds(l: Level, e: Entry)
    requires Placed(l) && l.curr >= 0
    ensures var es, es' := l.buf.entries, Replaced(l, e).buf.entries;
      && es' != [] && es'[0] == (if l.curr == 0 then e else es[0])
      && Ends(es') == (if l.left == 0 then e.lblk + e.len else Ends(es))
  {
  }

  lemma InsertedEnds(l: Level, after: bool, e: Entry)
    requires 0 <= l.curr < |l.buf.entries|
    ensures var es, es', c := l.buf.entries, Inserted(l, after, e).buf.entries, Inserted(l, after, e).curr;
      && es' != [] && es'[0] == (if !after && l.curr == 0 then e else es[0])
      && Ends(es') == (if after && l.curr == |es| - 1 then e.lblk + e.len else Ends(es))
      && 0 <= c < |es'| && c == l.curr + (if after then 1 else 0) && (if after then c > 0 && es'[c - 1] == es[l.curr] else c + 1 < |es'| && es'[c + 1] == es[l.curr])
  {
  }

  lemma RoomyTrack(disk: Disk, path: seq<Level>, depth: nat, mid: Level, before: seq<Level>, exact: bool, t: nat)
    requires path != [] && Roomy(disk, path, depth, mid, before, exact) && OnTrack(before, |before|, t) && t < U32
    ensures t < HighOf(path, depth) && (t < mid.buf.entries[mid.curr].lblk ==> mid.curr == 0)
  {
    hide Pick, LowOf, HighOf, OrderAt, ExactAt, Follows, OnTrack;
    var q := SetTop(path, mid);
    FollowsOne(before, q, t);
    TrackPrefix(q, depth, t);
    TrackHigh(q, depth, t);
    AboveSame(disk, path, q, depth, depth);
    TrackTop(q, t);
    PickAt(mid.buf.entries, t);
  }

  lemma TrackTop(path: seq<Level>, blk: nat)
    requires path != [] && OnTrack(path, |path|, blk)
    ensures Top(path).buf.entries != [] && Top(path).curr == Pick(Top(path).buf.entries, blk)
  {
  }

  /** What NEXT_LEAF reported beside entry k. */
  ghost predicate NextIs(all: seq<Entry>, k: nat, sees: bool, first: Entry, hasNext: bool, next: Entry) {
    (sees ==> k + 1 < |all| && hasNext && next == all[k + 1]) && (!sees && hasNext ==> next == first)
  }

  /** What PREV_LEAF reported. */
  ghost predicate PrevIs(all: seq<Entry>, k: nat, hasPrev: bool, prev: Entry) {
    k < |all| && hasPrev == (k > 0) && (k > 0 ==> prev == all[k - 1])
  }

  lemma EndsLast(l: Level)
    requires Placed(l) && l.curr >= 0
    ensures l.left == 0 ==> Ends(l.buf.entries) == l.buf.entries[l.curr].lblk + l.buf.entries[l.curr].len
  {
  }

  // ---------- There and back ----------

  lemma {:induction false} LeadsWritten(disk: Disk, path: seq<Level>, depth: nat, buf: Node, n: nat, x: Entry)
    requires Steady(disk, path, depth) && |path| == depth + 1 && depth > 0 && n <= depth && path[depth - 1].curr >= 0
    requires Leads(disk, path, depth, n, x)
    ensures Leads(disk[BlockAt(path, depth) := buf], path, depth, n, x)
  {
    hide Formed, Foot, Leaves, Rights, Lefts;
    var disk', d := disk[BlockAt(path, depth) := buf], depth + 1 - n;
    if Rights(path[n - 1]) == [] {
      LeadsWritten(disk, path, depth, buf, n - 1, x);
    } else {
      BesideApart(disk, path, depth, depth, n - 1);
      FootOnDisk(disk, Rights(path[n - 1]), d);
      FrameSide(disk, disk', Rights(path[n - 1]), d);
    }
  }

  /** When the leaf has been written, NEXT_LEAF still leads to x. */
  lemma BackNext(disk: Disk, path: seq<Level>, depth: nat, disk': Disk, path': seq<Level>, x: Entry)
    requires Steady(disk, path, depth) && |path| == depth + 1 && Top(path).curr >= 0 && Placed(Top(path))
    requires depth > 0 ==> 0 <= path[depth - 1].curr < |path[depth - 1].buf.entries|
    requires Steady(disk', path', depth) && Top(path').curr >= 0 && path' == SetTop(path, Top(path'))
    requires disk' == Wrote(disk, path, depth, Top(path').buf)
    requires Top(path').left == Top(path).left
    requires if Top(path).left > 0 then var k, all := Here(disk', path', depth), Leaves(disk', path'[0].buf.entries, depth); k + 1 < |all| ==> all[k + 1] == x
      else Leads(disk, path, depth, depth, x)
    ensures var again := Again(disk', path', depth, |path'|); again != [] && again[0] == x
  {
    hide Formed, Foot, Leaves, Again, Leads, Here;
    if Top(path').left > 0 {
      AgainNext(disk', path', depth);
    } else {
      LeadsSome(disk, path, depth, x);
      LeadsWritten(disk, path, depth, Top(path').buf, depth, x);
      LeadsSame(disk', path, path', depth, depth, x);
      LeadsAgain(disk', path', depth, depth, x);
      AgainLeaf(disk', path', depth);
      LeftsAt(Top(path'));
      assert Rights(Top(path')) == [] && [] + Again(disk', path', depth, depth) == Again(disk', path', depth, depth);
    }
  }

  lemma LeadsSome(disk: Disk, path: seq<Level>, depth: nat, x: Entry)
    requires |path| == depth + 1 && Leads(disk, path, depth, depth, x)
    ensures depth > 0
  {
  }

  lemma SameStarts(all: seq<Entry>, j: nat, e: Entry)
    requires Increasing(all) && j < |all| && e.lblk == all[j].lblk
    ensures Increasing(all[j := e])
  {
  }

  lemma ExactFlat(disk: Disk, es: seq<Entry>)
    ensures Exact(disk, es, 0)
  {
  }
}
