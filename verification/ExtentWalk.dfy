/**
 Positions in an extent tree: the path of a handle, what extent_get reports there, and the order in
 which NEXT visits the tree.
 */
module ExtentWalk {
  import opened ExtentTree

  /** One level of a handle's path; curr is -1 when there is no current entry. */
  datatype Level = Level(buf: Node, left: int, visit: nat, end: nat, curr: int)

  /** What extent_get returns. */
  datatype Info = Info(lblk: nat, pblk: nat, len: nat, leaf: bool, uninit: bool, second: bool)

  predicate Placed(l: Level) {
    || (l.curr == -1 && l.left == |l.buf.entries|)
    || (0 <= l.curr < |l.buf.entries| && l.left == |l.buf.entries| - 1 - l.curr)
  }

  /** Where the range of the current entry ends. */
  function EndOf(l: Level): nat
    requires Placed(l) && l.curr >= 0
  {
    if l.left > 0 then l.buf.entries[l.curr + 1].lblk else l.end
  }

  function InfoOf(l: Level, leaf: bool): Info
    requires Placed(l) && l.curr >= 0
  {
    var e := l.buf.entries[l.curr];
    if leaf then Info(e.lblk, e.pblk, e.len, true, e.uninit, l.visit != 0)
    else Info(e.lblk, e.pblk, (EndOf(l) - e.lblk) % U32, false, false, l.visit != 0)
  }

  /** What is reported: the key and the block of the entry; at the leaf its length, and above the number
      of blocks up to the next key, or to the end of the node's range. */
  lemma InfoFields(l: Level, leaf: bool)
    requires Placed(l) && l.curr >= 0
    ensures var i, e := InfoOf(l, leaf), l.buf.entries[l.curr];
      && i.lblk == e.lblk && i.pblk == e.pblk && i.leaf == leaf && i.second == (l.visit > 0)
      && (leaf ==> i.len == e.len && i.uninit == e.uninit)
      && (!leaf ==> !i.uninit && i.len == ((if l.left > 0 then l.buf.entries[l.curr + 1].lblk else l.end) - e.lblk) % 0x1_0000_0000)
  {
  }

  ghost predicate Linked(disk: Disk, a: Level, b: Level) {
    && Placed(a) && a.curr >= 0 && a.buf.entries[a.curr].pblk in disk
    && b.buf == disk[a.buf.entries[a.curr].pblk] && b.end == EndOf(a)
  }

  /** The path leads from the root down to the level of the handle. */
  ghost predicate Steady(disk: Disk, path: seq<Level>, depth: nat) {
    && 0 < |path| <= depth + 1
    && (forall i | 0 <= i < |path| :: Placed(path[i]))
    && (forall i | 0 <= i < |path| - 1 :: Linked(disk, path[i], path[i + 1]))
    && Formed(disk, path[0].buf.entries, depth)
    && (path[|path| - 1].curr == -1 ==> |path| == 1 && (depth == 0 || path[0].visit != 0))
  }

  function Top(path: seq<Level>): Level
    requires path != []
  {
    path[|path| - 1]
  }

  /** Every node on the path is formed, as a tree of its own height. */
  lemma {:induction false} SteadyFormed(disk: Disk, path: seq<Level>, depth: nat, i: nat)
    requires Steady(disk, path, depth) && i < |path|
    ensures Formed(disk, path[i].buf.entries, depth - i)
    ensures i > 0 ==> 0 < |path[i].buf.entries| <= path[i].buf.max
    ensures i > 0 ==> Foot(disk, path[i].buf.entries, depth - i) <= Foot(disk, path[0].buf.entries, depth)
    decreases i
  {
    if i > 0 {
      SteadyFormed(disk, path, depth, i - 1);
      assert Linked(disk, path[i - 1], path[i]);
      KidFormed(disk, path[i - 1].buf.entries, depth - (i - 1), path[i - 1].curr);
    }
  }

  function SetTop(path: seq<Level>, l: Level): seq<Level>
    requires path != []
  {
    path[|path| - 1 := l]
  }

  /** A path with another position at its last level, or without that level, or one level longer. */
  lemma SteadyMoved(disk: Disk, path: seq<Level>, depth: nat, l: Level)
    requires Steady(disk, path, depth) && Placed(l) && l.curr >= 0 && l.buf == Top(path).buf && l.end == Top(path).end
    ensures Steady(disk, SetTop(path, l), depth)
  {
  }

  lemma SteadyPrefix(disk: Disk, path: seq<Level>, depth: nat)
    requires Steady(disk, path, depth) && |path| > 1
    ensures Steady(disk, path[..|path| - 1], depth) && Top(path[..|path| - 1]).curr >= 0
  {
    var up := path[..|path| - 1];
    assert Linked(disk, path[|path| - 2], path[|path| - 1]);
    forall i | 0 <= i < |up| - 1 ensures Linked(disk, up[i], up[i + 1]) {
      assert Linked(disk, path[i], path[i + 1]);
    }
  }

  lemma SteadyDown(disk: Disk, path: seq<Level>, depth: nat, b: Level)
    requires Steady(disk, path, depth) && |path| <= depth && Linked(disk, Top(path), b) && Placed(b) && b.curr >= 0
    ensures Steady(disk, path + [b], depth)
  {
    var longer := path + [b];
    forall i | 0 <= i < |longer| - 1 ensures Linked(disk, longer[i], longer[i + 1]) {
      if i < |path| - 1 {
        assert Linked(disk, path[i], path[i + 1]);
      }
    }
  }

  // ---------- The order of the walk ----------

  function LeafInfo(e: Entry): Info { Info(e.lblk, e.pblk, e.len, true, e.uninit, false) }

  function IndexInfo(e: Entry, end: nat, second: bool): Info {
    Info(e.lblk, e.pblk, (end - e.lblk) % U32, false, false, second)
  }

  /** What a full walk reports: each leaf entry once, and each index entry before and after all that
      is below it. */
  ghost function WalkOf(disk: Disk, es: seq<Entry>, d: nat, end: nat): seq<Info>
    decreases d, |es|
  {
    if es == [] then [] else
      (if d == 0 then [LeafInfo(es[0])] else
         [IndexInfo(es[0], Next(es, end), false)]
         + (if es[0].pblk in disk then WalkOf(disk, disk[es[0].pblk].entries, d - 1, Next(es, end)) else [])
         + [IndexInfo(es[0], Next(es, end), true)])
      + WalkOf(disk, es[1..], d, end)
  }

  /** What is still to come at the current level. */
  ghost function Inside(disk: Disk, l: Level, d: nat): seq<Info>
    requires Placed(l)
  {
    (if d > 0 && l.visit == 0 && l.curr >= 0 && l.buf.entries[l.curr].pblk in disk then
       WalkOf(disk, disk[l.buf.entries[l.curr].pblk].entries, d - 1, EndOf(l)) + [InfoOf(l.(visit := 1), false)]
     else [])
    + WalkOf(disk, l.buf.entries[l.curr + 1..], d, l.end)
  }

  /** What is still to come after the current position. */
  ghost function Rest(disk: Disk, path: seq<Level>, depth: nat): seq<Info>
    requires path != [] && |path| <= depth + 1
    requires forall i | 0 <= i < |path| :: Placed(path[i])
    requires forall i | 0 <= i < |path| - 1 :: path[i].curr >= 0
    decreases |path|
  {
    var n := |path| - 1;
    Inside(disk, path[n], depth - n)
    + if n == 0 then [] else [InfoOf(path[n - 1], false)] + Rest(disk, path[..n], depth)
  }

  lemma RestTop(disk: Disk, path: seq<Level>, l: Level, depth: nat)
    requires path != [] && |path| <= depth && Placed(l)
    requires forall i | 0 <= i < |path| :: Placed(path[i]) && path[i].curr >= 0
    ensures Rest(disk, path + [l], depth) == Inside(disk, l, depth - |path|) + [InfoOf(Top(path), false)] + Rest(disk, path, depth)
  {
    hide Inside, InfoOf;
    assert (path + [l])[..|path|] == path;
  }

  lemma RestLocal(disk: Disk, path: seq<Level>, l: Level, depth: nat)
    requires path != [] && |path| <= depth + 1 && Placed(l)
    requires forall i | 0 <= i < |path| :: Placed(path[i])
    requires forall i | 0 <= i < |path| - 1 :: path[i].curr >= 0
    ensures var n := |path| - 1;
      Rest(disk, path[n := l], depth) == Inside(disk, l, depth - n) + if n == 0 then [] else [InfoOf(path[n - 1], false)] + Rest(disk, path[..n], depth)
  {
    hide Inside, InfoOf;
    assert path[|path| - 1 := l][..|path| - 1] == path[..|path| - 1];
  }

  /** Stepping to the next sibling reports it, and leaves the rest. */
  lemma StepSibling(disk: Disk, l: Level, d: nat)
    requires Placed(l) && l.left > 0 && Formed(disk, l.buf.entries, d) && (d == 0 || l.visit != 0)
    ensures var l' := l.(curr := l.curr + 1, left := l.left - 1, visit := 0);
      && Placed(l') && l'.curr >= 0 && Inside(disk, l, d) == [InfoOf(l', d == 0)] + Inside(disk, l', d)
  {
    hide Formed, Foot;
    var l' := l.(curr := l.curr + 1, left := l.left - 1, visit := 0);
    if d > 0 {
      KidFormed(disk, l.buf.entries, d, l'.curr);
    }
    WalkFrom(disk, l', d);
  }

  /** The walk from the current entry on. */
  lemma WalkFrom(disk: Disk, l: Level, d: nat)
    requires Placed(l) && l.curr >= 0 && l.visit == 0 && (d > 0 ==> l.buf.entries[l.curr].pblk in disk)
    ensures WalkOf(disk, l.buf.entries[l.curr..], d, l.end) == [InfoOf(l, d == 0)] + Inside(disk, l, d)
  {
    var es := l.buf.entries[l.curr..];
    assert es[1..] == l.buf.entries[l.curr + 1..];
    assert es[0] == l.buf.entries[l.curr];
    assert Next(es, l.end) == EndOf(l);
    var tail := WalkOf(disk, es[1..], d, l.end);
    if d > 0 {
      assert IndexInfo(es[0], EndOf(l), true) == InfoOf(l.(visit := 1), false);
      assert IndexInfo(es[0], EndOf(l), false) == InfoOf(l, false);
      var mid := WalkOf(disk, disk[es[0].pblk].entries, d - 1, EndOf(l));
      assert [InfoOf(l, false)] + mid + [InfoOf(l.(visit := 1), false)] + tail == [InfoOf(l, false)] + (mid + [InfoOf(l.(visit := 1), false)] + tail);
    }
  }

  /** Stepping down reports the first entry below. */
  lemma StepDown(disk: Disk, l: Level, b: Level, d: nat)
    requires d > 0 && Placed(l) && l.curr >= 0 && l.visit == 0 && Formed(disk, l.buf.entries, d)
    requires Linked(disk, l, b) && b.buf.entries != [] && b.curr == 0 && b.left == |b.buf.entries| - 1 && b.visit == 0
    ensures var l' := l.(visit := 1);
      Inside(disk, l, d) == [InfoOf(b, d == 1)] + Inside(disk, b, d - 1) + [InfoOf(l', false)] + Inside(disk, l', d)
  {
    hide Formed, Foot, Inside, WalkOf, InfoOf, EndOf;
    KidFormed(disk, l.buf.entries, d, l.curr);
    if d > 1 {
      KidFormed(disk, b.buf.entries, d - 1, 0);
    }
    assert b.buf.entries[0..] == b.buf.entries;
    WalkFrom(disk, b, d - 1);
    InsideUnvisited(disk, l, d);
  }

  lemma InsideUnvisited(disk: Disk, l: Level, d: nat)
    requires d > 0 && Placed(l) && l.curr >= 0 && l.visit == 0 && l.buf.entries[l.curr].pblk in disk
    ensures var l' := l.(visit := 1);
      Inside(disk, l, d) == WalkOf(disk, disk[l.buf.entries[l.curr].pblk].entries, d - 1, EndOf(l)) + [InfoOf(l', false)] + Inside(disk, l', d)
  {
    hide WalkOf;
  }

  // ---------- What a full walk contains ----------

  function Where(walk: seq<Info>, leaf: bool, second: bool): seq<Info> {
    if walk == [] then []
    else Keep(walk[0], leaf, second) + Where(walk[1..], leaf, second)
  }

  function Keep(i: Info, leaf: bool, second: bool): seq<Info> { if i.leaf == leaf && i.second == second then [i] else [] }

  lemma Assoc<T>(a: seq<T>, b: seq<T>, c: seq<T>)
    ensures a + (b + c) == a + b + c
  {
  }

  lemma WhereStep(walk: seq<Info>, leaf: bool, second: bool)
    ensures Where(walk, leaf, second) == if walk == [] then [] else Keep(walk[0], leaf, second) + Where(walk[1..], leaf, second)
  {
  }

  lemma {:induction false} WhereCat(a: seq<Info>, b: seq<Info>, leaf: bool, second: bool)
    ensures Where(a + b, leaf, second) == Where(a, leaf, second) + Where(b, leaf, second)
  {
    hide Keep, Where;
    if a == [] {
      WhereStep(a, leaf, second);
      assert a + b == b;
    } else {
      assert (a + b)[1..] == a[1..] + b;
      WhereCat(a[1..], b, leaf, second);
      WhereStep(a + b, leaf, second);
      WhereStep(a, leaf, second);
      Assoc(Keep(a[0], leaf, second), Where(a[1..], leaf, second), Where(b, leaf, second));
    }
  }

  function LeafInfos(es: seq<Entry>): seq<Info> { if es == [] then [] else [LeafInfo(es[0])] + LeafInfos(es[1..]) }

  lemma LeafInfosStep(es: seq<Entry>)
    ensures LeafInfos(es) == if es == [] then [] else [LeafInfo(es[0])] + LeafInfos(es[1..])
  {
  }

  lemma {:induction false} LeafInfosCat(a: seq<Entry>, b: seq<Entry>)
    ensures LeafInfos(a + b) == LeafInfos(a) + LeafInfos(b)
  {
    hide LeafInfos;
    LeafInfosStep(a);
    if a == [] {
      assert a + b == b;
    } else {
      assert (a + b)[1..] == a[1..] + b;
      LeafInfosCat(a[1..], b);
      LeafInfosStep(a + b);
      Assoc([LeafInfo(a[0])], LeafInfos(a[1..]), LeafInfos(b));
    }
  }

  lemma WhereOne(i: Info, leaf: bool, second: bool)
    ensures Where([i], leaf, second) == if i.leaf == leaf && i.second == second then [i] else []
  {
    assert [i][1..] == [];
  }

  /** The leaf entries of the tree are reported once each, in order. */
  lemma {:induction false} WalkLeaves(disk: Disk, es: seq<Entry>, d: nat, end: nat)
    ensures Where(WalkOf(disk, es, d, end), true, false) == LeafInfos(Leaves(disk, es, d))
    decreases d, |es|
  {
    hide Where, LeafInfos, IndexInfo, LeafInfo;
    Nothing();
    if es != [] {
      var rest := WalkOf(disk, es[1..], d, end);
      WalkLeaves(disk, es[1..], d, end);
      if d == 0 {
        WhereCat([LeafInfo(es[0])], rest, true, false);
        OneLeaf(es[0]);
        LeafInfosStep(es);
      } else {
        var mid := if es[0].pblk in disk then WalkOf(disk, disk[es[0].pblk].entries, d - 1, Next(es, end)) else [];
        if es[0].pblk in disk {
          WalkLeaves(disk, disk[es[0].pblk].entries, d - 1, Next(es, end));
        }
        AroundLeaves(es[0], Next(es, end), mid, rest);
        LeafInfosCat(if es[0].pblk in disk then Leaves(disk, disk[es[0].pblk].entries, d - 1) else [], Leaves(disk, es[1..], d));
      }
    }
  }

  lemma AroundLeaves(e: Entry, next: nat, mid: seq<Info>, rest: seq<Info>)
    ensures Where([IndexInfo(e, next, false)] + mid + [IndexInfo(e, next, true)] + rest, true, false) == Where(mid, true, false) + Where(rest, true, false)
  {
    hide Where;
    var one, two := IndexInfo(e, next, false), IndexInfo(e, next, true);
    WhereCat([one] + mid + [two], rest, true, false);
    WhereCat([one] + mid, [two], true, false);
    WhereCat([one], mid, true, false);
    WhereOne(one, true, false);
    WhereOne(two, true, false);
  }

  lemma Nothing()
    ensures Where([], true, false) == [] && LeafInfos([]) == []
  {
  }

  lemma OneLeaf(e: Entry)
    ensures Where([LeafInfo(e)], true, false) == [LeafInfo(e)]
  {
    WhereOne(LeafInfo(e), true, false);
  }

  /** How often a walk reports the index entry for the node in block p, by visit. */
  function Reports(walk: seq<Info>, p: nat, second: bool): nat {
    if walk == [] then 0 else Report(walk[0], p, second) + Reports(walk[1..], p, second)
  }

  function Report(i: Info, p: nat, second: bool): nat { if !i.leaf && i.pblk == p && i.second == second then 1 else 0 }

  lemma {:induction false} ReportsCat(a: seq<Info>, b: seq<Info>, p: nat, second: bool)
    ensures Reports(a + b, p, second) == Reports(a, p, second) + Reports(b, p, second)
  {
    hide Report;
    if a == [] {
      assert a + b == b;
    } else {
      ReportsCat(a[1..], b, p, second);
      assert (a + b)[1..] == a[1..] + b;
    }
  }

  lemma OneReport(i: Info, p: nat, second: bool)
    ensures Reports([i], p, second) == Report(i, p, second) && Reports([], p, second) == 0
  {
    assert [i][1..] == [];
  }

  /** Every index entry is reported exactly twice: once on each visit. */
  lemma {:induction false} WalkIndexes(disk: Disk, es: seq<Entry>, d: nat, end: nat, p: nat, second: bool)
    requires Formed(disk, es, d)
    ensures Reports(WalkOf(disk, es, d, end), p, second) == if p in Foot(disk, es, d) then 1 else 0
    decreases d, |es|
  {
    hide Reports, IndexInfo;
    if es == [] {
      OneReport(Info(0, 0, 0, true, true, true), p, second);
    } else {
      var rest, next := WalkOf(disk, es[1..], d, end), Next(es, end);
      if d == 0 {
        WalkIndexes(disk, es[1..], d, end, p, second);
        ReportsCat([LeafInfo(es[0])], rest, p, second);
        OneReport(LeafInfo(es[0]), p, second);
      } else {
        var one, two := IndexInfo(es[0], next, false), IndexInfo(es[0], next, true);
        var mid := WalkOf(disk, disk[es[0].pblk].entries, d - 1, next);
        WalkIndexes(disk, es[1..], d, end, p, second);
        WalkIndexes(disk, disk[es[0].pblk].entries, d - 1, next, p, second);
        ReportsCat([one] + mid + [two], rest, p, second);
        ReportsCat([one] + mid, [two], p, second);
        ReportsCat([one], mid, p, second);
        OneReport(one, p, second);
        OneReport(two, p, second);
        IndexReports(es[0], next, p, second);
      }
    }
  }

  lemma IndexReports(e: Entry, end: nat, p: nat, second: bool)
    ensures Report(IndexInfo(e, end, false), p, second) + Report(IndexInfo(e, end, true), p, second) == if e.pblk == p then 1 else 0
  {
  }
}
