/**
 Editing one node of an extent tree: what lies to the left and to the right of a position, and what
 the tree is when the node there is written again.
 */
module ExtentEdit {
  import opened ExtentTree
  import opened ExtentWalk
  import opened ExtentGrowth
  import opened ExtentMap

  // ---------- Around a position ----------

  function Lefts(l: Level): seq<Entry> { if 0 <= l.curr < |l.buf.entries| then l.buf.entries[..l.curr] else [] }

  function Rights(l: Level): seq<Entry> { if 0 <= l.curr < |l.buf.entries| then l.buf.entries[l.curr + 1..] else [] }

  /** The key of the current entry. */
  function KeyOf(l: Level): nat { if 0 <= l.curr < |l.buf.entries| then l.buf.entries[l.curr].lblk else 0 }

  /** The leaf entries to the left of the first n levels. */
  ghost function LeftOf(disk: Disk, path: seq<Level>, depth: nat, n: nat): seq<Entry>
    requires n <= |path| <= depth + 1
  {
    if n == 0 then [] else LeftOf(disk, path, depth, n - 1) + Leaves(disk, Lefts(path[n - 1]), depth + 1 - n)
  }

  ghost function RightOf(disk: Disk, path: seq<Level>, depth: nat, n: nat): seq<Entry>
    requires n <= |path| <= depth + 1
  {
    if n == 0 then [] else Leaves(disk, Rights(path[n - 1]), depth + 1 - n) + RightOf(disk, path, depth, n - 1)
  }

  /** The range of keys of the node at a level. */
  function LowOf(path: seq<Level>, n: nat): nat
    requires n <= |path|
  {
    if n == 0 then 0 else KeyOf(path[n - 1])
  }

  function HighOf(path: seq<Level>, n: nat): nat
    requires n <= |path|
  {
    if n == 0 then U32 else Then(Rights(path[n - 1]), HighOf(path, n - 1))
  }

  /** Whatever surrounds the node at level n is in order. */
  ghost predicate OrderAt(disk: Disk, path: seq<Level>, depth: nat, n: nat)
    requires n <= |path| <= depth + 1
  {
    n > 0 ==>
      && (if Lefts(path[n - 1]) == [] then LowOf(path, n - 1) <= LowOf(path, n)
          else Keyed(disk, Lefts(path[n - 1]), depth + 1 - n, LowOf(path, n - 1), LowOf(path, n)))
      && LowOf(path, n) < HighOf(path, n)
      && Keyed(disk, Rights(path[n - 1]), depth + 1 - n, HighOf(path, n), HighOf(path, n - 1))
      && OrderAt(disk, path, depth, n - 1)
  }

  /** Whatever surrounds the node at level n has exact keys. */
  ghost predicate ExactAt(disk: Disk, path: seq<Level>, depth: nat, n: nat)
    requires n <= |path| <= depth + 1
  {
    n > 0 ==>
      && Exact(disk, Lefts(path[n - 1]), depth + 1 - n) && Exact(disk, Rights(path[n - 1]), depth + 1 - n)
      && (n > 1 ==> path[n - 1].buf.entries != [] && KeyOf(path[n - 2]) == path[n - 1].buf.entries[0].lblk)
      && ExactAt(disk, path, depth, n - 1)
  }

  lemma LevelParts(l: Level)
    requires 0 <= l.curr < |l.buf.entries|
    ensures l.buf.entries == Lefts(l) + ([l.buf.entries[l.curr]] + Rights(l))
  {
  }

  lemma StepOf(disk: Disk, path: seq<Level>, depth: nat, n: nat)
    requires Steady(disk, path, depth) && 0 < n < |path|
    ensures |path| <= depth + 1
    ensures var l := path[n - 1];
      0 <= l.curr < |l.buf.entries| && l.buf.entries[l.curr].pblk in disk && disk[l.buf.entries[l.curr].pblk] == path[n].buf
  {
    assert Linked(disk, path[n - 1], path[n]);
  }

  /** The tree, split at a level of the path. */
  lemma {:induction false} Zip(disk: Disk, path: seq<Level>, depth: nat, n: nat)
    requires Steady(disk, path, depth) && n < |path|
    ensures Leaves(disk, path[0].buf.entries, depth)
         == LeftOf(disk, path, depth, n) + Leaves(disk, path[n].buf.entries, depth - n) + RightOf(disk, path, depth, n)
    ensures Keyed(disk, path[0].buf.entries, depth, 0, U32)
       <==> OrderAt(disk, path, depth, n) && Keyed(disk, path[n].buf.entries, depth - n, LowOf(path, n), HighOf(path, n))
    ensures Exact(disk, path[0].buf.entries, depth)
       <==> ExactAt(disk, path, depth, n) && (n > 0 ==> path[n].buf.entries != [] && LowOf(path, n) == path[n].buf.entries[0].lblk)
            && Exact(disk, path[n].buf.entries, depth - n)
  {
    hide Formed, Foot, Leaves, Keyed, Exact, Steady, Lefts, Rights;
    if n > 0 {
      Zip(disk, path, depth, n - 1);
      StepOf(disk, path, depth, n);
      var l := path[n - 1];
      var e, d := l.buf.entries[l.curr], depth + 1 - n;
      LevelParts(l);
      ZipOne(disk, Lefts(l), e, Rights(l), d, LowOf(path, n - 1), HighOf(path, n - 1));
    }
  }

  lemma ZipOne(disk: Disk, a: seq<Entry>, e: Entry, b: seq<Entry>, d: nat, lo: nat, hi: nat)
    requires d > 0 && e.pblk in disk
    ensures var es, ch := a + ([e] + b), disk[e.pblk].entries;
      && Leaves(disk, es, d) == Leaves(disk, a, d) + Leaves(disk, ch, d - 1) + Leaves(disk, b, d)
      && (Keyed(disk, es, d, lo, hi) <==>
           && (if a == [] then lo <= e.lblk else Keyed(disk, a, d, lo, e.lblk)) && e.lblk < Then(b, hi)
           && Keyed(disk, ch, d - 1, e.lblk, Then(b, hi)) && Keyed(disk, b, d, Then(b, hi), hi))
      && (Exact(disk, es, d) <==>
           Exact(disk, a, d) && ch != [] && ch[0].lblk == e.lblk && Exact(disk, ch, d - 1) && Exact(disk, b, d))
  {
    hide Leaves, Keyed, Exact;
    LeavesCat(disk, a, [e] + b, d);
    LeavesCat(disk, [e], b, d);
    KeyedParts(disk, a, e, b, d, lo, hi);
    OneEntry(disk, e, d, e.lblk, Then(b, hi));
    ExactCat(disk, a, [e] + b, d);
    ExactCat(disk, [e], b, d);
  }

  // ---------- Writing one node again ----------

  /** What lies beside the path at level i is not touched when the node at a lower level is written. */
  lemma BesideApart(disk: Disk, path: seq<Level>, depth: nat, n: nat, i: nat)
    requires Steady(disk, path, depth) && i < n < |path|
    ensures path[n - 1].curr >= 0 && 0 <= path[i].curr < |path[i].buf.entries|
    ensures Formed(disk, Lefts(path[i]), depth - i) && Formed(disk, Rights(path[i]), depth - i)
    ensures BlockAt(path, n) !in Foot(disk, Lefts(path[i]), depth - i) && BlockAt(path, n) !in Foot(disk, Rights(path[i]), depth - i)
  {
    hide Formed, Foot, Leaves, Lefts, Rights;
    var l, d := path[i], depth - i;
    assert Linked(disk, path[i], path[i + 1]) && Linked(disk, path[n - 1], path[n]);
    SteadyFormed(disk, path, depth, i);
    LevelParts(l);
    var e := l.buf.entries[l.curr];
    SplitFacts(disk, Lefts(l), e, Rights(l), d);
    OneEntry(disk, e, d, 0, 0);
    if i + 1 < n {
      BelowApart(disk, path, depth, n, i + 1);
    }
    assert BlockAt(path, n) in Foot(disk, [e], d);
  }

  lemma {:induction false} BesideSame(disk: Disk, path: seq<Level>, depth: nat, n: nat, buf: Node, i: nat)
    requires Steady(disk, path, depth) && i <= n < |path| && n > 0 && path[n - 1].curr >= 0
    ensures var disk' := disk[BlockAt(path, n) := buf];
      && LeftOf(disk', path, depth, i) == LeftOf(disk, path, depth, i) && RightOf(disk', path, depth, i) == RightOf(disk, path, depth, i)
      && (OrderAt(disk, path, depth, i) ==> OrderAt(disk', path, depth, i))
      && (ExactAt(disk, path, depth, i) ==> ExactAt(disk', path, depth, i))
  {
    hide Formed, Foot, Leaves, Keyed, Exact, Lefts, Rights;
    if i > 0 {
      BesideSame(disk, path, depth, n, buf, i - 1);
      BesideApart(disk, path, depth, n, i - 1);
      var disk', a, b, d := disk[BlockAt(path, n) := buf], Lefts(path[i - 1]), Rights(path[i - 1]), depth + 1 - i;
      FootOnDisk(disk, a, d);
      FootOnDisk(disk, b, d);
      FrameSide(disk, disk', a, d);
      FrameSide(disk, disk', b, d);
      FrameKeyed(disk, disk', a, d, LowOf(path, i - 1), LowOf(path, i));
      FrameKeyed(disk, disk', b, d, HighOf(path, i), HighOf(path, i - 1));
    }
  }

  /** One level up: the list with the changed node below one of its entries. */
  lemma PlugOne(disk: Disk, disk': Disk, a: seq<Entry>, e: Entry, b: seq<Entry>, d: nat)
    requires d > 0 && Formed(disk, a + ([e] + b), d) && e.pblk in disk && e.pblk in disk'
    requires Formed(disk, a, d) && Formed(disk, b, d) && Agree(disk, disk', Foot(disk, a, d)) && Agree(disk, disk', Foot(disk, b, d))
    requires 0 < |disk'[e.pblk].entries| <= disk'[e.pblk].max && Formed(disk', disk'[e.pblk].entries, d - 1)
    requires Foot(disk', disk'[e.pblk].entries, d - 1) <= Foot(disk, disk[e.pblk].entries, d - 1)
    ensures Formed(disk', a + ([e] + b), d)
    ensures Foot(disk', a + ([e] + b), d)
         == Foot(disk, a + ([e] + b), d) - Foot(disk, disk[e.pblk].entries, d - 1) + Foot(disk', disk'[e.pblk].entries, d - 1)
  {
    hide Formed, Foot, Leaves;
    SplitFacts(disk, a, e, b, d);
    OneEntry(disk, e, d, 0, 0);
    OneEntry(disk', e, d, 0, 0);
    FrameSide(disk, disk', a, d);
    FrameSide(disk, disk', b, d);
    JoinFacts(disk', a, e, b, d);
  }

  /** The tree when the node at level n has been written again, with some of what was below it. */
  lemma {:induction false} Plug(disk: Disk, path: seq<Level>, depth: nat, n: nat, buf: Node, m: nat)
    requires Steady(disk, path, depth) && m < n < |path| && path[n - 1].curr >= 0 && 0 < |buf.entries| <= buf.max
    requires Formed(disk, buf.entries, depth - n) && Foot(disk, buf.entries, depth - n) <= Foot(disk, path[n].buf.entries, depth - n)
    ensures var disk' := disk[BlockAt(path, n) := buf];
      && Formed(disk', path[m].buf.entries, depth - m)
      && Foot(disk', path[m].buf.entries, depth - m)
           == Foot(disk, path[m].buf.entries, depth - m) - Foot(disk, path[n].buf.entries, depth - n) + Foot(disk, buf.entries, depth - n)
      && Formed(disk', buf.entries, depth - n) && Agree(disk, disk', Foot(disk, buf.entries, depth - n))
    decreases n - m
  {
    hide Formed, Foot, Leaves, Lefts, Rights;
    var disk', l, d := disk[BlockAt(path, n) := buf], path[m], depth - m;
    BelowApart(disk, path, depth, n, n);
    FootOnDisk(disk, buf.entries, depth - n);
    FrameSide(disk, disk', buf.entries, depth - n);
    BesideApart(disk, path, depth, n, m);
    SteadyFormed(disk, path, depth, m);
    LevelParts(l);
    var e := l.buf.entries[l.curr];
    assert Linked(disk, path[m], path[m + 1]);
    if m + 1 < n {
      Plug(disk, path, depth, n, buf, m + 1);
      BelowApart(disk, path, depth, n, m + 1);
      BelowApart(disk, path, depth, m + 1, m);
      SteadyFormed(disk, path, depth, m + 1);
    }
    FootOnDisk(disk, Lefts(l), d);
    FootOnDisk(disk, Rights(l), d);
    PlugOne(disk, disk', Lefts(l), e, Rights(l), d);
  }

  /** What is said about the first n levels depends on them alone. */
  lemma {:induction false} AboveSame(disk: Disk, path: seq<Level>, path': seq<Level>, depth: nat, n: nat)
    requires n <= |path| <= depth + 1 && n <= |path'| <= depth + 1 && forall i | 0 <= i < n :: path'[i] == path[i]
    ensures LeftOf(disk, path', depth, n) == LeftOf(disk, path, depth, n) && RightOf(disk, path', depth, n) == RightOf(disk, path, depth, n)
    ensures LowOf(path', n) == LowOf(path, n) && HighOf(path', n) == HighOf(path, n)
    ensures OrderAt(disk, path', depth, n) <==> OrderAt(disk, path, depth, n)
    ensures ExactAt(disk, path', depth, n) <==> ExactAt(disk, path, depth, n)
  {
    hide Leaves, Keyed, Exact, Lefts, Rights;
    if n > 0 {
      AboveSame(disk, path, path', depth, n - 1);
    }
  }

  ghost predicate KeepsKeys(disk: Disk, disk': Disk, es: seq<Entry>, d: nat) {
    forall lo, hi | Keyed(disk, es, d, lo, hi) :: Keyed(disk', es, d, lo, hi)
  }

  lemma KeysKept(disk: Disk, disk': Disk, es: seq<Entry>, d: nat)
    requires Formed(disk, es, d) && Agree(disk, disk', Foot(disk, es, d))
    ensures KeepsKeys(disk, disk', es, d)
  {
    hide Formed, Foot, Keyed;
    forall lo, hi | Keyed(disk, es, d, lo, hi) ensures Keyed(disk', es, d, lo, hi) {
      FrameKeyed(disk, disk', es, d, lo, hi);
    }
  }

  function Wrote(disk: Disk, path: seq<Level>, n: nat, buf: Node): Disk
    requires n < |path| && (n > 0 ==> 0 <= path[n - 1].curr < |path[n - 1].buf.entries|)
  {
    if n == 0 then disk else disk[BlockAt(path, n) := buf]
  }

  /** The node at level n is written again, and the handle stands there. */
  lemma Written(disk: Disk, path: seq<Level>, depth: nat, n: nat, l: Level)
    requires Steady(disk, path, depth) && n < |path| && (n > 0 ==> path[n - 1].curr >= 0)
    requires Placed(l) && l.curr >= 0 && l.end == path[n].end && (n > 0 ==> |l.buf.entries| <= l.buf.max)
    requires Formed(disk, l.buf.entries, depth - n)
    requires Foot(disk, l.buf.entries, depth - n) <= Foot(disk, path[n].buf.entries, depth - n)
    ensures n > 0 ==> 0 <= path[n - 1].curr < |path[n - 1].buf.entries|
    ensures var disk', path' := Wrote(disk, path, n, l.buf), path[..n] + [l];
      && Steady(disk', path', depth)
      && Foot(disk', path'[0].buf.entries, depth)
           == Foot(disk, path[0].buf.entries, depth) - Foot(disk, path[n].buf.entries, depth - n) + Foot(disk, l.buf.entries, depth - n)
      && LeftOf(disk', path', depth, n) == LeftOf(disk, path, depth, n) && RightOf(disk', path', depth, n) == RightOf(disk, path, depth, n)
      && LowOf(path', n) == LowOf(path, n) && HighOf(path', n) == HighOf(path, n)
      && (OrderAt(disk, path, depth, n) ==> OrderAt(disk', path', depth, n))
      && (ExactAt(disk, path, depth, n) ==> ExactAt(disk', path', depth, n))
      && Formed(disk', l.buf.entries, depth - n) && Leaves(disk', l.buf.entries, depth - n) == Leaves(disk, l.buf.entries, depth - n)
      && KeepsKeys(disk, disk', l.buf.entries, depth - n)
      && (Exact(disk, l.buf.entries, depth - n) ==> Exact(disk', l.buf.entries, depth - n))
  {
    hide Formed, Foot, Leaves, Keyed, Exact, Lefts, Rights, LeftOf, RightOf, OrderAt, ExactAt, LowOf, HighOf;
    var path' := path[..n] + [l];
    AboveSame(disk, path, path', depth, n);
    if n > 0 {
      assert Linked(disk, path[n - 1], path[n]);
      var disk' := disk[BlockAt(path, n) := l.buf];
      Plug(disk, path, depth, n, l.buf, 0);
      BesideSame(disk, path, depth, n, l.buf, n);
      AboveSame(disk', path, path', depth, n);
      FrameSide(disk, disk', l.buf.entries, depth - n);
      KeysKept(disk, disk', l.buf.entries, depth - n);
      WrittenSteady(disk, path, depth, n, l);
    }
  }

  lemma WrittenSteady(disk: Disk, path: seq<Level>, depth: nat, n: nat, l: Level)
    requires Steady(disk, path, depth) && 0 < n < |path| && 0 <= path[n - 1].curr < |path[n - 1].buf.entries|
    requires Placed(l) && l.curr >= 0 && l.end == path[n].end
    requires Formed(disk[BlockAt(path, n) := l.buf], path[0].buf.entries, depth)
    ensures Steady(disk[BlockAt(path, n) := l.buf], path[..n] + [l], depth)
  {
    hide Formed, Foot;
    var disk', path' := disk[BlockAt(path, n) := l.buf], path[..n] + [l];
    assert Linked(disk, path[n - 1], path[n]);
    forall i | 0 <= i < |path'| - 1 ensures Linked(disk', path'[i], path'[i + 1]) {
      assert Linked(disk, path[i], path[i + 1]);
      if i + 1 < n {
        BelowApart(disk, path, depth, n, i + 1);
        BelowApart(disk, path, depth, i + 1, 0);
      }
    }
  }

  // ---------- Positions in the list of leaf entries ----------

  /** The number of leaf entries before the current entry and all that is below it. */
  ghost function Here(disk: Disk, path: seq<Level>, depth: nat): nat
    requires |path| <= depth + 1
  {
    |LeftOf(disk, path, depth, |path|)|
  }

  lemma AtLeaf(disk: Disk, path: seq<Level>, depth: nat)
    requires Steady(disk, path, depth) && |path| == depth + 1 && Top(path).curr >= 0
    ensures Leaves(disk, path[0].buf.entries, depth) == LeftOf(disk, path, depth, depth) + Top(path).buf.entries + RightOf(disk, path, depth, depth)
    ensures Here(disk, path, depth) == |LeftOf(disk, path, depth, depth)| + Top(path).curr < |Leaves(disk, path[0].buf.entries, depth)|
    ensures Leaves(disk, path[0].buf.entries, depth)[Here(disk, path, depth)] == Top(path).buf.entries[Top(path).curr]
  {
    hide Formed, Keyed, Exact, Foot, Leaves, Lefts, Rights, LeftOf, RightOf, OrderAt, ExactAt;
    Zip(disk, path, depth, depth);
    LeftStep(disk, path, depth, depth + 1);
    LeavesFlat(disk, Lefts(Top(path)));
    LeavesFlat(disk, Top(path).buf.entries);
    LeftsAt(Top(path));
  }

  lemma LeftStep(disk: Disk, path: seq<Level>, depth: nat, n: nat)
    requires 0 < n <= |path| <= depth + 1
    ensures LeftOf(disk, path, depth, n) == LeftOf(disk, path, depth, n - 1) + Leaves(disk, Lefts(path[n - 1]), depth + 1 - n)
  {
  }

  lemma LeavesFlat(disk: Disk, es: seq<Entry>)
    ensures Leaves(disk, es, 0) == es
  {
  }

  lemma LeftsAt(l: Level)
    requires 0 <= l.curr < |l.buf.entries|
    ensures |Lefts(l)| == l.curr && Lefts(l) == l.buf.entries[..l.curr] && Rights(l) == l.buf.entries[l.curr + 1..]
    ensures Lefts(l) != [] <==> l.curr > 0
    ensures Rights(l) != [] ==> l.curr + 1 < |l.buf.entries| && Rights(l)[0] == l.buf.entries[l.curr + 1]
    ensures KeyOf(l) == l.buf.entries[l.curr].lblk
  {
  }

  /** Keys in order put the leaf entries in order. */
  lemma {:induction false} KeyedList(disk: Disk, es: seq<Entry>, d: nat, lo: nat, hi: nat)
    requires Formed(disk, es, d) && Keyed(disk, es, d, lo, hi)
    ensures Runs(Leaves(disk, es, d), lo, hi)
    ensures es != [] ==> Leaves(disk, es, d) != [] && es[0].lblk <= Leaves(disk, es, d)[0].lblk
    decreases d, |es|
  {
    if d == 0 {
      KeyedRuns(disk, es, lo, hi);
    } else if es != [] {
      KeyedList(disk, disk[es[0].pblk].entries, d - 1, es[0].lblk, Next(es, hi));
      KeyedList(disk, es[1..], d, Next(es, hi), hi);
      RunsJoin(Leaves(disk, disk[es[0].pblk].entries, d - 1), Leaves(disk, es[1..], d), es[0].lblk, Next(es, hi), hi);
      RunsWiden(Leaves(disk, es, d), es[0].lblk, hi, lo, hi);
    }
  }

  lemma {:induction false} RunsApart(es: seq<Entry>, lo: nat, hi: nat, i: nat, j: nat)
    requires Runs(es, lo, hi) && i < j < |es|
    ensures es[i].lblk + es[i].len <= es[j].lblk && es[i].len > 0
  {
    if i > 0 {
      RunsApart(es[1..], Next(es, hi), hi, i - 1, j - 1);
    } else {
      RunsBounds(es[1..], Next(es, hi), hi);
      assert es[j] in es[1..] by { assert es[1..][j - 1] == es[j]; }
    }
  }

  /** Starts increase along the list. */
  ghost predicate Increasing(all: seq<Entry>) { forall i, j | 0 <= i < j < |all| :: all[i].lblk < all[j].lblk }

  lemma RunsIncreasing(all: seq<Entry>, lo: nat, hi: nat)
    requires Runs(all, lo, hi)
    ensures Increasing(all)
  {
    hide Runs;
    forall i, j | 0 <= i < j < |all| ensures all[i].lblk < all[j].lblk {
      RunsApart(all, lo, hi, i, j);
    }
  }

  /** A position in such a list is known from its entry. */
  lemma SameHere(disk: Disk, path: seq<Level>, depth: nat, all: seq<Entry>, k: nat)
    requires Steady(disk, path, depth) && |path| == depth + 1 && Top(path).curr >= 0
    requires Leaves(disk, path[0].buf.entries, depth) == all && Increasing(all)
    requires k < |all| && all[k].lblk == Top(path).buf.entries[Top(path).curr].lblk
    ensures Here(disk, path, depth) == k
  {
    hide Formed, Keyed, Exact, Foot;
    AtLeaf(disk, path, depth);
  }

  // ---------- Where the descent for a block is ----------

  lemma {:induction false} PickAt(es: seq<Entry>, blk: nat)
    requires es != []
    ensures var i := Pick(es, blk); (i > 0 ==> es[i].lblk <= blk) && (i + 1 < |es| ==> blk < es[i + 1].lblk)
  {
    if |es| > 1 && blk >= es[1].lblk {
      PickAt(es[1..], blk);
    }
  }

  /** It stays below the end of the range of every node on its way. */
  lemma {:induction false} TrackHigh(path: seq<Level>, n: nat, blk: nat)
    requires n <= |path| && OnTrack(path, n, blk) && blk < U32
    ensures blk < HighOf(path, n)
  {
    hide Pick, Lefts, Rights, KeyOf;
    if n > 0 {
      TrackHigh(path, n - 1, blk);
      PickAt(path[n - 1].buf.entries, blk);
      LeftsAt(path[n - 1]);
    }
  }

  /** Every entry before e ends by x. */
  ghost predicate EndBy(a: seq<Entry>, x: nat) { forall e | e in a :: e.lblk + e.len <= x }

  /** What lies to the left of its way ends before the block. */
  lemma {:induction false} TrackLeft(disk: Disk, path: seq<Level>, depth: nat, n: nat, blk: nat)
    requires Steady(disk, path, depth) && n < |path| && OnTrack(path, n, blk) && OrderAt(disk, path, depth, n)
    ensures EndBy(LeftOf(disk, path, depth, n), blk)
  {
    hide Pick, Formed, Keyed, Leaves, Foot, Lefts, Rights, KeyOf;
    if n > 0 {
      TrackLeft(disk, path, depth, n - 1, blk);
      var l, d := path[n - 1], depth + 1 - n;
      PickAt(l.buf.entries, blk);
      LeftsAt(l);
      if Lefts(l) != [] {
        BesideApart(disk, path, depth, n, n - 1);
        KeyedLeaves(disk, Lefts(l), d, LowOf(path, n - 1), LowOf(path, n));
      } else {
        NoLeaves(disk, d);
      }
    }
  }

  lemma NoLeaves(disk: Disk, d: nat)
    ensures Leaves(disk, [], d) == []
  {
  }

  /** What is to the left of a node ends by its range, and what is to the right starts after it. */
  lemma {:induction false} BesideRange(disk: Disk, path: seq<Level>, depth: nat, n: nat)
    requires Steady(disk, path, depth) && n < |path| && OrderAt(disk, path, depth, n)
    ensures EndBy(LeftOf(disk, path, depth, n), LowOf(path, n))
    ensures forall e | e in RightOf(disk, path, depth, n) :: HighOf(path, n) <= e.lblk
    ensures LowOf(path, n) <= HighOf(path, n)
  {
    hide Formed, Keyed, Leaves, Foot, Lefts, Rights, KeyOf;
    if n > 0 {
      BesideRange(disk, path, depth, n - 1);
      var l, d := path[n - 1], depth + 1 - n;
      BesideApart(disk, path, depth, n, n - 1);
      KeyedLeaves(disk, Rights(l), d, HighOf(path, n), HighOf(path, n - 1));
      if Lefts(l) != [] {
        KeyedLeaves(disk, Lefts(l), d, LowOf(path, n - 1), LowOf(path, n));
      } else {
        NoLeaves(disk, d);
      }
    }
  }

  /** The entries before and after a position at the leaf. */
  lemma AtLeafParts(disk: Disk, path: seq<Level>, depth: nat)
    requires Steady(disk, path, depth) && |path| == depth + 1 && Top(path).curr >= 0
    ensures var all, k, l := Leaves(disk, path[0].buf.entries, depth), Here(disk, path, depth), Top(path);
      && k < |all| && all[..k] == LeftOf(disk, path, depth, depth) + l.buf.entries[..l.curr]
      && all[k] == l.buf.entries[l.curr]
      && all[k + 1..] == l.buf.entries[l.curr + 1..] + RightOf(disk, path, depth, depth)
  {
    hide Formed, Keyed, Exact, Foot, Leaves, LeftOf, RightOf;
    AtLeaf(disk, path, depth);
    SplitThree(LeftOf(disk, path, depth, depth), Top(path).buf.entries, RightOf(disk, path, depth, depth), Top(path).curr);
  }

  lemma SplitThree(a: seq<Entry>, m: seq<Entry>, b: seq<Entry>, c: nat)
    requires c < |m|
    ensures var t, k := a + m + b, |a| + c; t[..k] == a + m[..c] && t[k] == m[c] && t[k + 1..] == m[c + 1..] + b
  {
  }

  /** The descent for a block ends on an entry such that nothing before or after it is in the way. */
  lemma TrackAround(disk: Disk, path: seq<Level>, depth: nat, blk: nat)
    requires Steady(disk, path, depth) && |path| == depth + 1 && Keyed(disk, path[0].buf.entries, depth, 0, U32)
    requires Top(path).curr >= 0 && OnTrack(path, |path|, blk) && blk < U32
    ensures var all, k := Leaves(disk, path[0].buf.entries, depth), Here(disk, path, depth);
      && k < |all| && Around(all[..k], all[k], all[k + 1..], blk)
      && (blk < all[k].lblk ==> Top(path).curr == 0)
    ensures blk < HighOf(path, depth)
  {
    hide Formed, Keyed, Exact, Foot, Leaves, LeftOf, RightOf, OrderAt, ExactAt, HighOf, LowOf, Pick, Here;
    AtLeafParts(disk, path, depth);
    Zip(disk, path, depth, depth);
    TrackHigh(path, depth, blk);
    TrackLeft(disk, path, depth, depth, blk);
    BesideRange(disk, path, depth, depth);
    PickAt(Top(path).buf.entries, blk);
  }

  /** A leaf between its neighbours, with everything around it in order: the whole tree is in order. */
  lemma Settle(disk: Disk, path: seq<Level>, depth: nat)
    requires Steady(disk, path, depth) && |path| == depth + 1 && OrderAt(disk, path, depth, depth) && Top(path).curr >= 0
    requires Runs(Leaves(disk, path[0].buf.entries, depth), 0, U32)
    requires LowOf(path, depth) <= Top(path).buf.entries[0].lblk && Ends(Top(path).buf.entries) <= HighOf(path, depth)
    ensures Keyed(disk, path[0].buf.entries, depth, 0, U32)
  {
    hide Formed, Keyed, Exact, Foot, Leaves, LeftOf, RightOf, OrderAt, ExactAt, HighOf, LowOf, Runs;
    var es := Top(path).buf.entries;
    Zip(disk, path, depth, depth);
    LeavesFlat(disk, es);
    RunsPart(LeftOf(disk, path, depth, depth), es, RightOf(disk, path, depth, depth), 0, U32);
    RunsWiden(es, es[0].lblk, Ends(es), LowOf(path, depth), HighOf(path, depth));
    KeyedRuns(disk, es, LowOf(path, depth), HighOf(path, depth));
  }

  /** In a tree in order the leaf lies in its range. */
  lemma LeafRange(disk: Disk, path: seq<Level>, depth: nat)
    requires Steady(disk, path, depth) && |path| == depth + 1 && Keyed(disk, path[0].buf.entries, depth, 0, U32) && Top(path).curr >= 0
    ensures OrderAt(disk, path, depth, depth)
    ensures LowOf(path, depth) <= Top(path).buf.entries[0].lblk && Ends(Top(path).buf.entries) <= HighOf(path, depth)
  {
    hide Formed, Keyed, Exact, Foot, Leaves, LeftOf, RightOf, OrderAt, ExactAt, HighOf, LowOf, Runs;
    var es := Top(path).buf.entries;
    Zip(disk, path, depth, depth);
    KeyedRuns(disk, es, LowOf(path, depth), HighOf(path, depth));
    RunsBounds(es, LowOf(path, depth), HighOf(path, depth));
    assert es[0] in es && es[|es| - 1] in es;
  }

  // ---------- Giving the parents a new start ----------

  /** The node at the end of the path starts at `start`; it is in order, and so is all around it, but
      for the key it has above. */
  ghost predicate Climbing(disk: Disk, path: seq<Level>, depth: nat, start: nat) {
    && Steady(disk, path, depth) && Top(path).curr == 0
    && var n := |path| - 1;
    && Top(path).buf.entries[0].lblk == start && OrderAt(disk, path, depth, n)
    && Keyed(disk, Top(path).buf.entries, depth - n, start, HighOf(path, n)) && EndBy(LeftOf(disk, path, depth, n), start)
  }

  ghost predicate ClimbingExact(disk: Disk, path: seq<Level>, depth: nat)
    requires 0 < |path| <= depth + 1
  {
    ExactAt(disk, path, depth, |path| - 1) && Exact(disk, Top(path).buf.entries, depth + 1 - |path|)
  }

  lemma {:induction false} KeyedTo(disk: Disk, es: seq<Entry>, d: nat, lo: nat, hi: nat, hi': nat)
    requires Formed(disk, es, d) && Keyed(disk, es, d, lo, hi) && es != [] && EndBy(Leaves(disk, es, d), hi')
    ensures Keyed(disk, es, d, lo, hi')
    decreases d, |es|
  {
    if d > 0 {
      var child := disk[es[0].pblk].entries;
      KeyedList(disk, child, d - 1, es[0].lblk, Next(es, hi));
      KeyedLeaves(disk, child, d - 1, es[0].lblk, Next(es, hi));
      if |es| == 1 {
        assert es[1..] == [];
        KeyedTo(disk, child, d - 1, es[0].lblk, hi, hi');
      } else {
        KeyedTo(disk, es[1..], d, Next(es, hi), hi, hi');
      }
    } else if |es| > 1 {
      KeyedTo(disk, es[1..], d, Next(es, hi), hi, hi');
    } else {
      assert es[1..] == [];
    }
  }

  function Rekeyed(l: Level, start: nat): Level
    requires 0 <= l.curr < |l.buf.entries|
  {
    l.(buf := l.buf.(entries := l.buf.entries[l.curr := l.buf.entries[l.curr].(lblk := start)]))
  }

  lemma RekeyedParts(l: Level, start: nat)
    requires 0 <= l.curr < |l.buf.entries|
    ensures Rekeyed(l, start).buf.entries == Lefts(l) + ([l.buf.entries[l.curr].(lblk := start)] + Rights(l))
    ensures Lefts(Rekeyed(l, start)) == Lefts(l) && Rights(Rekeyed(l, start)) == Rights(l)
    ensures Rekeyed(l, start).buf.entries[0].lblk == if l.curr == 0 then start else l.buf.entries[0].lblk
    ensures |Rekeyed(l, start).buf.entries| == |l.buf.entries|
    ensures l.buf.entries == Lefts(l) + ([l.buf.entries[l.curr]] + Rights(l))
  {
  }

  lemma RekeyedPlaced(l: Level, start: nat)
    requires Placed(l) && l.curr >= 0
    ensures var l' := Rekeyed(l, start);
      && Placed(l') && l'.curr == l.curr && l'.left == l.left && l'.end == l.end && l'.visit == l.visit
      && l'.buf.max == l.buf.max && |l'.buf.entries| == |l.buf.entries|
  {
  }

  /** Another key changes neither the shape nor the leaf entries. */
  lemma RekeyShape(disk: Disk, a: seq<Entry>, e: Entry, b: seq<Entry>, d: nat, start: nat)
    requires d > 0 && Formed(disk, a + ([e] + b), d)
    ensures var es, es' := a + ([e] + b), a + ([e.(lblk := start)] + b);
      Formed(disk, es', d) && Foot(disk, es', d) == Foot(disk, es, d) && Leaves(disk, es', d) == Leaves(disk, es, d)
  {
    hide Formed, Foot, Leaves;
    SplitFacts(disk, a, e, b, d);
    OneEntry(disk, e, d, 0, 0);
    OneEntry(disk, e.(lblk := start), d, 0, 0);
    JoinFacts(disk, a, e.(lblk := start), b, d);
  }

  /** The disk and the path after the entry above has taken the start as its key. */
  function ClimbDisk(disk: Disk, path: seq<Level>, start: nat): Disk
    requires |path| > 1 && (forall i | 0 <= i < |path| - 1 :: 0 <= path[i].curr < |path[i].buf.entries|)
  {
    Wrote(disk, path, |path| - 2, Rekeyed(path[|path| - 2], start).buf)
  }

  function ClimbPath(path: seq<Level>, start: nat): seq<Level>
    requires |path| > 1 && (forall i | 0 <= i < |path| - 1 :: 0 <= path[i].curr < |path[i].buf.entries|)
  {
    path[..|path| - 2] + [Rekeyed(path[|path| - 2], start)]
  }

  lemma ClimbIs(disk: Disk, path: seq<Level>, start: nat)
    requires |path| > 1 && (forall i | 0 <= i < |path| - 1 :: 0 <= path[i].curr < |path[i].buf.entries|)
    ensures var up := path[..|path| - 1]; var p := SetTop(up, Rekeyed(Top(up), start));
      && ClimbPath(path, start) == p && p != []
      && ClimbDisk(disk, path, start) == if |p| == 1 then disk else disk[BlockAt(p, |p| - 1) := Top(p).buf]
  {
  }

  lemma AllCurrent(disk: Disk, path: seq<Level>, depth: nat)
    requires Steady(disk, path, depth)
    ensures forall i | 0 <= i < |path| - 1 :: 0 <= path[i].curr < |path[i].buf.entries|
  {
    forall i | 0 <= i < |path| - 1 ensures 0 <= path[i].curr < |path[i].buf.entries| {
      assert Linked(disk, path[i], path[i + 1]);
    }
  }

  lemma ClimbWritten(disk: Disk, path: seq<Level>, depth: nat, start: nat)
    requires Climbing(disk, path, depth, start) && |path| > 1
    ensures forall i | 0 <= i < |path| - 1 :: 0 <= path[i].curr < |path[i].buf.entries|
    ensures var n, disk', path' := |path| - 2, ClimbDisk(disk, path, start), ClimbPath(path, start);
      && Steady(disk', path', depth) && Foot(disk', path'[0].buf.entries, depth) == Foot(disk, path[0].buf.entries, depth)
      && Leaves(disk', path'[0].buf.entries, depth) == Leaves(disk, path[0].buf.entries, depth)
      && LeftOf(disk', path', depth, n) == LeftOf(disk, path, depth, n)
      && LowOf(path', n) == LowOf(path, n) && HighOf(path', n) == HighOf(path, n)
      && OrderAt(disk', path', depth, n) && (ExactAt(disk, path, depth, n) ==> ExactAt(disk', path', depth, n))
      && KeepsKeys(disk, disk', Rekeyed(path[n], start).buf.entries, depth - n)
      && (Exact(disk, Rekeyed(path[n], start).buf.entries, depth - n) ==> Exact(disk', Rekeyed(path[n], start).buf.entries, depth - n))
  {
    hide Formed, Foot, Leaves, Keyed, Exact, Lefts, Rights, LeftOf, RightOf, LowOf, HighOf, Rekeyed;
    AllCurrent(disk, path, depth);
    var n := |path| - 2;
    var l := path[n];
    assert Linked(disk, path[n], path[n + 1]);
    SteadyFormed(disk, path, depth, n);
    RekeyedParts(l, start);
    RekeyShape(disk, Lefts(l), l.buf.entries[l.curr], Rights(l), depth - n, start);
    RekeyedPlaced(l, start);
    Written(disk, path, depth, n, Rekeyed(l, start));
    Zip(disk, path, depth, n);
    Zip(ClimbDisk(disk, path, start), ClimbPath(path, start), depth, n);
  }

  /** One level up: either the climb goes on, or all is in order. */
  lemma ClimbStep(disk: Disk, path: seq<Level>, depth: nat, start: nat)
    requires Climbing(disk, path, depth, start) && |path| > 1
    ensures forall i | 0 <= i < |path| - 1 :: 0 <= path[i].curr < |path[i].buf.entries|
    ensures var disk', path' := ClimbDisk(disk, path, start), ClimbPath(path, start);
      if path[|path| - 2].curr == 0 then Climbing(disk', path', depth, start) else Keyed(disk', path'[0].buf.entries, depth, 0, U32)
  {
    hide Formed, Foot, Leaves, Keyed, Exact, Lefts, Rights, LeftOf, RightOf, LowOf, HighOf, Rekeyed, OrderAt;
    ClimbWritten(disk, path, depth, start);
    var n, disk', path' := |path| - 2, ClimbDisk(disk, path, start), ClimbPath(path, start);
    var l, d := path[n], depth - n;
    RekeyedParts(l, start);
    RekeyedPlaced(l, start);
    LeftsAt(l);
    ClimbKeys(disk, path, depth, start);
    if l.curr > 0 {
      Zip(disk', path', depth, n);
    } else {
      LeftStep(disk, path, depth, n + 1);
      NoLeaves(disk, d);
    }
  }

  /** The keys of the node with the new start. */
  lemma ClimbKeys(disk: Disk, path: seq<Level>, depth: nat, start: nat)
    requires Climbing(disk, path, depth, start) && |path| > 1
    ensures 0 <= path[|path| - 2].curr < |path[|path| - 2].buf.entries|
    ensures var n := |path| - 2;
      Keyed(disk, Rekeyed(path[n], start).buf.entries, depth - n, if path[n].curr == 0 then start else LowOf(path, n), HighOf(path, n))
  {
    hide Formed, Foot, Leaves, Keyed, Exact, Lefts, Rights, LeftOf, RightOf, HighOf, Rekeyed;
    var n := |path| - 2;
    var l, d := path[n], depth - n;
    assert Linked(disk, path[n], path[n + 1]);
    RekeyedParts(l, start);
    LeftsAt(l);
    var e := l.buf.entries[l.curr].(lblk := start);
    HighStep(path, n);
    KidKeyed(disk, path[n + 1].buf.entries, d - 1, 0, start, HighOf(path, n + 1));
    assert path[n + 1].buf.entries[0..] == path[n + 1].buf.entries;
    if l.curr > 0 {
      BesideApart(disk, path, depth, n + 1, n);
      LeftStep(disk, path, depth, n + 1);
      KeyedTo(disk, Lefts(l), d, LowOf(path, n), LowOf(path, n + 1), start);
      ZipOne(disk, Lefts(l), e, Rights(l), d, LowOf(path, n), HighOf(path, n));
    } else {
      ZipOne(disk, Lefts(l), e, Rights(l), d, start, HighOf(path, n));
    }
  }

  lemma HighStep(path: seq<Level>, n: nat)
    requires n + 1 < |path|
    ensures HighOf(path, n + 1) == Then(Rights(path[n]), HighOf(path, n))
  {
  }

  /** When the key above is right already, all is in order. */
  lemma ClimbBreak(disk: Disk, path: seq<Level>, depth: nat, start: nat)
    requires Climbing(disk, path, depth, start) && |path| > 1 && KeyOf(path[|path| - 2]) == start
    ensures Keyed(disk, path[0].buf.entries, depth, 0, U32)
    ensures ClimbingExact(disk, path, depth) ==> Exact(disk, path[0].buf.entries, depth)
  {
    hide Formed, Foot, Leaves, Keyed, Exact, LeftOf, RightOf;
    Zip(disk, path, depth, |path| - 1);
  }

  lemma ClimbTop(disk: Disk, path: seq<Level>, depth: nat, start: nat)
    requires Climbing(disk, path, depth, start) && |path| == 1
    ensures Keyed(disk, path[0].buf.entries, depth, 0, U32)
    ensures ClimbingExact(disk, path, depth) ==> Exact(disk, path[0].buf.entries, depth)
  {
  }

  /** With exact keys everywhere else, the new key makes them exact. */
  lemma ClimbExact(disk: Disk, path: seq<Level>, depth: nat, start: nat)
    requires Climbing(disk, path, depth, start) && |path| > 1 && ClimbingExact(disk, path, depth)
    ensures forall i | 0 <= i < |path| - 1 :: 0 <= path[i].curr < |path[i].buf.entries|
    ensures var disk', path' := ClimbDisk(disk, path, start), ClimbPath(path, start);
      if path[|path| - 2].curr == 0 then ClimbingExact(disk', path', depth)
      else Steady(disk', path', depth) && Exact(disk', path'[0].buf.entries, depth)
  {
    hide Formed, Foot, Leaves, Keyed, Exact, Lefts, Rights, LeftOf, RightOf, HighOf, Rekeyed, OrderAt;
    ClimbWritten(disk, path, depth, start);
    var n, disk', path' := |path| - 2, ClimbDisk(disk, path, start), ClimbPath(path, start);
    var l, d := path[n], depth - n;
    assert Linked(disk, path[n], path[n + 1]);
    RekeyedParts(l, start);
    RekeyedPlaced(l, start);
    ZipOne(disk, Lefts(l), l.buf.entries[l.curr].(lblk := start), Rights(l), d, 0, 0);
    if l.curr > 0 {
      Zip(disk', path', depth, n);
    }
  }

  // ---------- Taking an entry out ----------

  /** The level without its current entry. */
  function Removed(l: Level): Level
    requires Placed(l) && l.curr >= 0
  {
    var es := l.buf.entries[..l.curr] + l.buf.entries[l.curr + 1..];
    if l.left > 0 then l.(buf := l.buf.(entries := es), left := l.left - 1)
    else l.(buf := l.buf.(entries := es), curr := l.curr - 1)
  }

  lemma RemovedParts(l: Level)
    requires Placed(l) && l.curr >= 0
    ensures Removed(l).buf.entries == Lefts(l) + Rights(l) && |Removed(l).buf.entries| == |l.buf.entries| - 1
    ensures Placed(Removed(l)) && Removed(l).buf.max == l.buf.max && Removed(l).end == l.end
    ensures |l.buf.entries| > 1 ==> Removed(l).curr >= 0
    ensures |l.buf.entries| == 1 ==> Removed(l).buf.entries == [] && Removed(l).curr == -1 && Removed(l).left == 0
  {
  }

  /** The level at which taking out an entry leaves a node with another one; or the root. */
  function Stops(path: seq<Level>, n: nat): (m: nat)
    requires n < |path|
    ensures m <= n && (m > 0 ==> |path[m].buf.entries| > 1)
    ensures forall i | m < i <= n :: |path[i].buf.entries| <= 1
  {
    if n == 0 || |path[n].buf.entries| > 1 then n else Stops(path, n - 1)
  }

  /** The blocks of the nodes from below level m down to level n. */
  ghost function Column(path: seq<Level>, m: nat, n: nat): (r: set<nat>)
    requires m <= n < |path| && forall i | m <= i < n :: 0 <= path[i].curr < |path[i].buf.entries|
  {
    if n == m then {} else Column(path, m, n - 1) + {BlockAt(path, n)}
  }

  lemma {:induction false} ColumnUp(path: seq<Level>, m: nat, n: nat)
    requires m < n < |path| && forall i | m <= i < n :: 0 <= path[i].curr < |path[i].buf.entries|
    ensures Column(path, m, n) == {BlockAt(path, m + 1)} + Column(path, m + 1, n)
  {
    if n > m + 1 {
      ColumnUp(path, m, n - 1);
    }
  }

  /** ... which are all different. */
  ghost predicate Apart(path: seq<Level>, m: nat, n: nat)
    requires m <= n < |path| && forall i | m <= i < n :: 0 <= path[i].curr < |path[i].buf.entries|
  {
    n > m ==> BlockAt(path, n) !in Column(path, m, n - 1) && Apart(path, m, n - 1)
  }

  lemma {:induction false} ColumnSame(path: seq<Level>, path': seq<Level>, m: nat, n: nat)
    requires m <= n < |path| && n < |path'| && forall i | m <= i < n :: 0 <= path[i].curr < |path[i].buf.entries| && path'[i] == path[i]
    ensures Column(path', m, n) == Column(path, m, n) && Apart(path', m, n) == Apart(path, m, n)
  {
    if n > m {
      ColumnSame(path, path', m, n - 1);
    }
  }

  lemma {:induction false} StopsSame(path: seq<Level>, path': seq<Level>, n: nat)
    requires n < |path| && n < |path'| && forall i | 0 <= i <= n :: path'[i] == path[i]
    ensures Stops(path', n) == Stops(path, n)
  {
    if n > 0 {
      StopsSame(path, path', n - 1);
    }
  }

  predicate AllOn(path: seq<Level>) {
    path != [] && forall i | 0 <= i < |path| :: Placed(path[i]) && 0 <= path[i].curr < |path[i].buf.entries|
  }

  /** The blocks of the nodes that go when the current entry is taken out. */
  ghost function Freed(path: seq<Level>): set<nat>
    requires AllOn(path)
  {
    Column(path, Stops(path, |path| - 1), |path| - 1)
  }

  ghost predicate FreedApart(path: seq<Level>)
    requires AllOn(path)
  {
    Apart(path, Stops(path, |path| - 1), |path| - 1)
  }

  /** Their number. */
  function Gone(path: seq<Level>): nat
    requires AllOn(path)
  {
    |path| - 1 - Stops(path, |path| - 1)
  }

  /** The disk and the path afterwards. */
  function PrunedDisk(disk: Disk, path: seq<Level>): Disk
    requires AllOn(path)
  {
    var m := Stops(path, |path| - 1);
    Wrote(disk, path, m, Removed(path[m]).buf)
  }

  function PrunedPath(path: seq<Level>): seq<Level>
    requires AllOn(path)
  {
    var m := Stops(path, |path| - 1);
    path[..m] + [Removed(path[m])]
  }

  lemma StopsAbove(path: seq<Level>)
    requires AllOn(path) && |path| > 1 && |Top(path).buf.entries| == 1
    ensures var up := path[..|path| - 1]; AllOn(up) && Stops(path, |path| - 1) == Stops(up, |up| - 1) < |up|
  {
    StopsSame(path, path[..|path| - 1], |path| - 2);
  }

  /** A last level with one entry goes altogether. */
  lemma PruneShort(disk: Disk, path: seq<Level>)
    requires AllOn(path) && |path| > 1 && |Top(path).buf.entries| == 1
    ensures var up, b := path[..|path| - 1], BlockAt(path, |path| - 1);
      && AllOn(up) && PrunedDisk(disk, path) == PrunedDisk(disk, up) && PrunedPath(path) == PrunedPath(up)
      && Freed(path) == Freed(up) + {b} && Gone(path) == Gone(up) + 1
      && (FreedApart(path) ==> FreedApart(up) && b !in Freed(up))
  {
    hide Stops, Removed;
    PruneShortDisk(disk, path);
    StopsAbove(path);
    ColumnSame(path, path[..|path| - 1], Stops(path, |path| - 1), |path| - 2);
  }

  lemma PruneShortDisk(disk: Disk, path: seq<Level>)
    requires AllOn(path) && |path| > 1 && |Top(path).buf.entries| == 1
    ensures var up := path[..|path| - 1]; AllOn(up) && PrunedDisk(disk, path) == PrunedDisk(disk, up) && PrunedPath(path) == PrunedPath(up)
  {
    hide Stops, Removed;
    StopsAbove(path);
    assert path[..|path| - 1][..Stops(path, |path| - 1)] == path[..Stops(path, |path| - 1)];
  }

  lemma PruneHere(disk: Disk, path: seq<Level>)
    requires AllOn(path) && (|path| == 1 || |Top(path).buf.entries| > 1)
    ensures PrunedDisk(disk, path) == Wrote(disk, path, |path| - 1, Removed(Top(path)).buf) && PrunedPath(path) == SetTop(path, Removed(Top(path)))
    ensures Freed(path) == {} && Gone(path) == 0
  {
  }

  lemma {:induction false} ColumnAway(disk: Disk, path: seq<Level>, depth: nat, m: nat, k: nat, n: nat)
    requires Steady(disk, path, depth) && m <= k < n < |path|
    requires forall i | 0 <= i < |path| - 1 :: 0 <= path[i].curr < |path[i].buf.entries|
    ensures BlockAt(path, n) !in Column(path, m, k)
  {
    hide Formed, Foot;
    if k > m {
      ColumnAway(disk, path, depth, m, k - 1, n);
      BelowApart(disk, path, depth, n, k);
      BelowApart(disk, path, depth, k, k);
    }
  }

  lemma {:induction false} ColumnApart(disk: Disk, path: seq<Level>, depth: nat, m: nat, n: nat)
    requires Steady(disk, path, depth) && m <= n < |path|
    requires forall i | 0 <= i < |path| - 1 :: 0 <= path[i].curr < |path[i].buf.entries|
    ensures Apart(path, m, n) && |Column(path, m, n)| == n - m
  {
    hide Steady;
    if n > m {
      ColumnApart(disk, path, depth, m, n - 1);
      ColumnAway(disk, path, depth, m, n - 1, n);
    }
  }

  lemma LessUnits(x: nat, n: nat, u: nat)
    ensures ((x - n * u) % U32 - u) % U32 == (x - (n + 1) * u) % U32
  {
    assert (n + 1) * u == n * u + u;
  }

  /** Below level m there is nothing but the way to the current leaf entry. */
  lemma {:induction false} ColumnTree(disk: Disk, path: seq<Level>, depth: nat, m: nat)
    requires Steady(disk, path, depth) && |path| == depth + 1 && Top(path).curr >= 0 && m <= depth
    requires forall i | m <= i <= depth :: |path[i].buf.entries| == 1
    ensures forall i | 0 <= i < |path| - 1 :: 0 <= path[i].curr < |path[i].buf.entries|
    ensures Leaves(disk, path[m].buf.entries, depth - m) == [Top(path).buf.entries[Top(path).curr]]
    ensures Foot(disk, path[m].buf.entries, depth - m) == Column(path, m, depth)
    decreases depth - m
  {
    hide Formed, Foot, Leaves;
    AllCurrent(disk, path, depth);
    if m == depth {
      LeavesFlat(disk, path[m].buf.entries);
      FootFlat(disk, path[m].buf.entries);
    } else {
      ColumnTree(disk, path, depth, m + 1);
      assert Linked(disk, path[m], path[m + 1]);
      assert path[m].buf.entries == [path[m].buf.entries[0]];
      OneEntry(disk, path[m].buf.entries[0], depth - m, 0, 0);
      ColumnUp(path, m, depth);
    }
  }

  lemma FootFlat(disk: Disk, es: seq<Entry>)
    ensures Foot(disk, es, 0) == {} && Formed(disk, es, 0)
  {
  }

  /** ... and nothing beside it. */
  lemma {:induction false} ColumnBeside(disk: Disk, path: seq<Level>, depth: nat, m: nat, n: nat)
    requires Steady(disk, path, depth) && m <= n <= |path| && (Top(path).curr >= 0 || n < |path|)
    requires forall i | m <= i < n :: |path[i].buf.entries| == 1
    ensures LeftOf(disk, path, depth, n) == LeftOf(disk, path, depth, m) && RightOf(disk, path, depth, n) == RightOf(disk, path, depth, m)
  {
    hide Formed, Leaves, Lefts, Rights;
    if n > m {
      ColumnBeside(disk, path, depth, m, n - 1);
      if n < |path| {
        assert Linked(disk, path[n - 1], path[n]);
      }
      LeftsAt(path[n - 1]);
      NoLeaves(disk, depth + 1 - n);
    }
  }

  /** The node at level m without the way to the current leaf entry. */
  lemma PrunedNode(disk: Disk, path: seq<Level>, depth: nat, m: nat)
    requires Steady(disk, path, depth) && |path| == depth + 1 && Top(path).curr >= 0 && m <= depth
    requires forall i | 0 <= i < |path| - 1 :: 0 <= path[i].curr < |path[i].buf.entries|
    requires forall i | m < i <= depth :: |path[i].buf.entries| == 1
    ensures var es, d := Lefts(path[m]) + Rights(path[m]), depth - m;
      && Formed(disk, es, d) && Foot(disk, es, d) == Foot(disk, path[m].buf.entries, d) - Column(path, m, depth)
      && Column(path, m, depth) <= Foot(disk, path[m].buf.entries, d)
  {
    hide Formed, Foot, Leaves, Lefts, Rights;
    var l, d := path[m], depth - m;
    if m == depth {
      FootFlat(disk, Lefts(l) + Rights(l));
      FootFlat(disk, l.buf.entries);
    } else {
      var e := l.buf.entries[l.curr];
      SteadyFormed(disk, path, depth, m);
      assert Linked(disk, path[m], path[m + 1]);
      ColumnTree(disk, path, depth, m + 1);
      ColumnUp(path, m, depth);
      LevelParts(l);
      SplitFacts(disk, Lefts(l), e, Rights(l), d);
      OneEntry(disk, e, d, 0, 0);
      FormedCat(disk, Lefts(l), Rights(l), d);
      FootCat(disk, Lefts(l), Rights(l), d);
    }
  }

  lemma PrunedLeaves(disk: Disk, path: seq<Level>, depth: nat, m: nat)
    requires Steady(disk, path, depth) && |path| == depth + 1 && Top(path).curr >= 0 && m <= depth
    requires forall i | m < i <= depth :: |path[i].buf.entries| == 1
    ensures var all, k, es := Leaves(disk, path[0].buf.entries, depth), Here(disk, path, depth), Lefts(path[m]) + Rights(path[m]);
      k < |all| && LeftOf(disk, path, depth, m) + Leaves(disk, es, depth - m) + RightOf(disk, path, depth, m) == all[..k] + all[k + 1..]
  {
    hide Formed, Foot, Leaves, Lefts, Rights, LeftOf, RightOf, Keyed, Exact;
    var l := path[m];
    AtLeafParts(disk, path, depth);
    LeavesCat(disk, Lefts(l), Rights(l), depth - m);
    if m == depth {
      LeftsAt(l);
      LeavesFlat(disk, Lefts(l));
      LeavesFlat(disk, Rights(l));
    } else {
      ColumnBeside(disk, path, depth, m + 1, depth);
      LeftStep(disk, path, depth, m + 1);
      RightStep(disk, path, depth, m + 1);
      OneList(Top(path));
    }
  }

  lemma OneList(l: Level)
    requires 0 <= l.curr < |l.buf.entries| == 1
    ensures l.buf.entries[..l.curr] == [] && l.buf.entries[l.curr + 1..] == []
  {
  }

  lemma RightStep(disk: Disk, path: seq<Level>, depth: nat, n: nat)
    requires 0 < n <= |path| <= depth + 1
    ensures RightOf(disk, path, depth, n) == Leaves(disk, Rights(path[n - 1]), depth + 1 - n) + RightOf(disk, path, depth, n - 1)
  {
  }

  /** The tree without the current leaf entry and the nodes that this leaves empty. */
  lemma Pruned(disk: Disk, path: seq<Level>, depth: nat, m: nat)
    requires Steady(disk, path, depth) && |path| == depth + 1 && Top(path).curr >= 0 && m <= depth
    requires |path[m].buf.entries| > 1 && forall i | m < i <= depth :: |path[i].buf.entries| == 1
    ensures forall i | 0 <= i < |path| - 1 :: 0 <= path[i].curr < |path[i].buf.entries|
    ensures Placed(path[m]) && path[m].curr >= 0
    ensures var l, all, k := Removed(path[m]), Leaves(disk, path[0].buf.entries, depth), Here(disk, path, depth);
      var disk', path' := Wrote(disk, path, m, l.buf), path[..m] + [l];
      && Steady(disk', path', depth) && l.curr >= 0 && k < |all|
      && Leaves(disk', path'[0].buf.entries, depth) == all[..k] + all[k + 1..]
      && Foot(disk', path'[0].buf.entries, depth) == Foot(disk, path[0].buf.entries, depth) - Column(path, m, depth)
      && Column(path, m, depth) <= Foot(disk, path[0].buf.entries, depth)
  {
    hide Formed, Foot, Leaves, Lefts, Rights, LeftOf, RightOf, LowOf, HighOf, OrderAt, ExactAt, Keyed, Exact, Removed;
    AllCurrent(disk, path, depth);
    var l, d := path[m], depth - m;
    SteadyFormed(disk, path, depth, m);
    RemovedParts(l);
    PrunedNode(disk, path, depth, m);
    PrunedLeaves(disk, path, depth, m);
    Written(disk, path, depth, m, Removed(l));
    Zip(Wrote(disk, path, m, Removed(l).buf), path[..m] + [Removed(l)], depth, m);
    BelowApart(disk, path, depth, m, 0);
  }

  /** Without an entry, a list in order stays in order. */
  lemma KeyedWithout(disk: Disk, a: seq<Entry>, e: Entry, b: seq<Entry>, d: nat, lo: nat, hi: nat)
    requires Formed(disk, a, d) && a + b != [] && (d > 0 ==> e.pblk in disk)
    requires Keyed(disk, a + ([e] + b), d, lo, hi)
    ensures Keyed(disk, a + b, d, lo, hi)
  {
    hide Formed, Foot, Leaves, Keyed;
    KeyedParts(disk, a, e, b, d, lo, hi);
    KeyedBounds(disk, b, d, Then(b, hi), hi);
    KeyedFirst(disk, [e], d, e.lblk, Then(b, hi));
    if a == [] {
      assert a + b == b;
      KeyedLow(disk, b, d, Then(b, hi), hi, lo);
    } else {
      KeyedLeaves(disk, a, d, lo, e.lblk);
      KeyedTo(disk, a, d, lo, e.lblk, Then(b, hi));
      if b == [] {
        assert a + b == a;
      } else {
        KeyedCat(disk, a, b, d, lo, hi);
      }
    }
  }

  lemma KeyedFirst(disk: Disk, es: seq<Entry>, d: nat, lo: nat, hi: nat)
    requires es != [] && Keyed(disk, es, d, lo, hi)
    ensures lo <= es[0].lblk < hi
  {
    KidKeyed(disk, es, d, 0, lo, hi);
  }

  lemma KeyedLow(disk: Disk, es: seq<Entry>, d: nat, lo: nat, hi: nat, lo': nat)
    requires Keyed(disk, es, d, lo, hi) && lo' <= lo
    ensures Keyed(disk, es, d, lo', hi)
  {
  }

  lemma PrunedKeys(disk: Disk, path: seq<Level>, depth: nat, m: nat)
    requires Steady(disk, path, depth) && |path| == depth + 1 && Top(path).curr >= 0 && m <= depth
    requires |path[m].buf.entries| > 1 && forall i | m < i <= depth :: |path[i].buf.entries| == 1
    requires Keyed(disk, path[0].buf.entries, depth, 0, U32)
    ensures forall i | 0 <= i < |path| - 1 :: 0 <= path[i].curr < |path[i].buf.entries|
    ensures Placed(path[m]) && path[m].curr >= 0
    ensures var l := Removed(path[m]);
      var disk', path' := Wrote(disk, path, m, l.buf), path[..m] + [l];
      && Keyed(disk', path'[0].buf.entries, depth, 0, U32)
      && (Exact(disk, path[0].buf.entries, depth) ==>
           ClimbingExact(disk', path', depth) && (l.curr > 0 ==> Exact(disk', path'[0].buf.entries, depth)))
  {
    hide Formed, Foot, Leaves, Lefts, Rights, LeftOf, RightOf, LowOf, HighOf, OrderAt, ExactAt, Keyed, Exact, Removed;
    AllCurrent(disk, path, depth);
    var l, d := path[m], depth - m;
    SteadyFormed(disk, path, depth, m);
    RemovedParts(l);
    PrunedNode(disk, path, depth, m);
    Written(disk, path, depth, m, Removed(l));
    Zip(disk, path, depth, m);
    Zip(Wrote(disk, path, m, Removed(l).buf), path[..m] + [Removed(l)], depth, m);
    LevelParts(l);
    var e := l.buf.entries[l.curr];
    if d > 0 {
      KidFormed(disk, l.buf.entries, d, l.curr);
    }
    FormedCat(disk, Lefts(l), [e] + Rights(l), d);
    KeyedWithout(disk, Lefts(l), e, Rights(l), d, LowOf(path, m), HighOf(path, m));
    ExactCat(disk, Lefts(l), [e] + Rights(l), d);
    ExactCat(disk, [e], Rights(l), d);
    ExactCat(disk, Lefts(l), Rights(l), d);
    RemovedFirst(l);
  }

  lemma RemovedFirst(l: Level)
    requires Placed(l) && l.curr >= 0 && |l.buf.entries| > 1
    ensures Removed(l).curr > 0 ==> Removed(l).buf.entries[0] == l.buf.entries[0]
  {
  }

  /** In a tree in order the climb can start from any node's first entry. */
  lemma ClimbReady(disk: Disk, path: seq<Level>, depth: nat)
    requires Steady(disk, path, depth) && Top(path).curr == 0 && Keyed(disk, path[0].buf.entries, depth, 0, U32)
    ensures Climbing(disk, path, depth, Top(path).buf.entries[0].lblk)
  {
    hide Formed, Foot, Leaves, Lefts, Rights, LeftOf, RightOf, LowOf, HighOf, OrderAt, Keyed;
    var n := |path| - 1;
    Zip(disk, path, depth, n);
    BesideRange(disk, path, depth, n);
    KeyedFirst(disk, Top(path).buf.entries, depth - n, LowOf(path, n), HighOf(path, n));
    KeyedRaise(disk, Top(path).buf.entries, depth - n, LowOf(path, n), HighOf(path, n));
  }

  // ---------- What NEXT_LEAF comes to ----------

  /** The leaf entries still to be reported after leaving the first n levels: a level whose visit is
      still open goes down once more. */
  ghost function Again(disk: Disk, path: seq<Level>, depth: nat, n: nat): seq<Entry>
    requires n <= |path| <= depth + 1
  {
    if n == 0 then [] else
      (if n <= depth && path[n - 1].visit == 0 && 0 <= path[n - 1].curr < |path[n - 1].buf.entries|
       then Leaves(disk, Kid(path[n - 1].buf.entries[path[n - 1].curr], disk), depth - n) else [])
      + Leaves(disk, Rights(path[n - 1]), depth + 1 - n) + Again(disk, path, depth, n - 1)
  }

  lemma {:induction false} AgainSame(disk: Disk, path: seq<Level>, path': seq<Level>, depth: nat, n: nat)
    requires n <= |path| <= depth + 1 && n <= |path'| <= depth + 1 && forall i | 0 <= i < n :: path'[i] == path[i]
    ensures Again(disk, path', depth, n) == Again(disk, path, depth, n)
  {
    hide Leaves, Rights, Kid;
    if n > 0 {
      AgainSame(disk, path, path', depth, n - 1);
    }
  }

  /** They are the leaf entries of what is still to come. */
  lemma {:induction false} RestLeaves(disk: Disk, path: seq<Level>, depth: nat)
    requires Steady(disk, path, depth) && Top(path).curr >= 0
    requires forall i | 0 <= i < |path| :: Placed(path[i])
    requires forall i | 0 <= i < |path| - 1 :: path[i].curr >= 0
    ensures Where(Rest(disk, path, depth), true, false) == LeafInfos(Again(disk, path, depth, |path|))
    decreases |path|
  {
    hide Formed, Foot, Leaves, Where, LeafInfos, InfoOf, WalkOf, Rights, LeafInfo, Inside;
    var n, l := |path|, Top(path);
    SteadyFormed(disk, path, depth, n - 1);
    InsideLeaves(disk, l, depth + 1 - n);
    if n > 1 {
      SteadyPrefix(disk, path, depth);
      RestLeaves(disk, path[..n - 1], depth);
      AgainSame(disk, path, path[..n - 1], depth, n - 1);
      var up := [InfoOf(path[n - 2], false)];
      IndexOnly(path[n - 2]);
      WhereCat(Inside(disk, l, depth + 1 - n), up + Rest(disk, path[..n - 1], depth), true, false);
      WhereCat(up, Rest(disk, path[..n - 1], depth), true, false);
      LeafInfosCat(InsideAgain(disk, l, depth + 1 - n), Again(disk, path, depth, n - 1));
    } else {
      assert Inside(disk, l, depth + 1 - n) + [] == Inside(disk, l, depth + 1 - n);
      assert InsideAgain(disk, l, depth + 1 - n) + [] == InsideAgain(disk, l, depth + 1 - n);
    }
  }

  ghost function InsideAgain(disk: Disk, l: Level, d: nat): seq<Entry> {
    (if d > 0 && l.visit == 0 && 0 <= l.curr < |l.buf.entries| then Leaves(disk, Kid(l.buf.entries[l.curr], disk), d - 1) else [])
    + Leaves(disk, Rights(l), d)
  }

  lemma IndexOnly(l: Level)
    requires Placed(l) && l.curr >= 0
    ensures Where([InfoOf(l, false)], true, false) == []
  {
    WhereOne(InfoOf(l, false), true, false);
  }

  lemma InsideLeaves(disk: Disk, l: Level, d: nat)
    requires Placed(l) && l.curr >= 0 && Formed(disk, l.buf.entries, d)
    ensures Where(Inside(disk, l, d), true, false) == LeafInfos(InsideAgain(disk, l, d))
  {
    hide Formed, Foot, Leaves, Where, LeafInfos, InfoOf, WalkOf, LeafInfo;
    var rest := WalkOf(disk, l.buf.entries[l.curr + 1..], d, l.end);
    WalkLeaves(disk, l.buf.entries[l.curr + 1..], d, l.end);
    if d > 0 {
      KidFormed(disk, l.buf.entries, d, l.curr);
    }
    if d > 0 && l.visit == 0 {
      var ch := disk[l.buf.entries[l.curr].pblk].entries;
      var below := WalkOf(disk, ch, d - 1, EndOf(l));
      WalkLeaves(disk, ch, d - 1, EndOf(l));
      IndexOnly(l.(visit := 1));
      WhereCat(below + [InfoOf(l.(visit := 1), false)], rest, true, false);
      WhereCat(below, [InfoOf(l.(visit := 1), false)], true, false);
      LeafInfosCat(Leaves(disk, ch, d - 1), Leaves(disk, Rights(l), d));
      assert Where(below, true, false) + [] == Where(below, true, false);
    } else {
      assert [] + rest == rest && [] + Leaves(disk, Rights(l), d) == Leaves(disk, Rights(l), d);
    }
  }

  lemma {:induction false} LeavesSome(disk: Disk, es: seq<Entry>, d: nat)
    requires Formed(disk, es, d) && es != []
    ensures Leaves(disk, es, d) != []
    decreases d
  {
    if d > 0 {
      LeavesSome(disk, disk[es[0].pblk].entries, d - 1);
    }
  }

  /** They are exactly the entries to the right when no visit is open, and more when one is. */
  lemma {:induction false} AgainRight(disk: Disk, path: seq<Level>, depth: nat, n: nat)
    requires Steady(disk, path, depth) && n <= |path| && Top(path).curr >= 0
    ensures if forall i | 0 <= i < n && i < depth :: path[i].visit != 0
      then Again(disk, path, depth, n) == RightOf(disk, path, depth, n)
      else |Again(disk, path, depth, n)| > |RightOf(disk, path, depth, n)|
  {
    hide Formed, Foot, Leaves, Rights;
    if n > 0 {
      AgainRight(disk, path, depth, n - 1);
      var l := path[n - 1];
      if n < |path| {
        assert Linked(disk, path[n - 1], path[n]);
      }
      if n <= depth && l.visit == 0 {
        SteadyFormed(disk, path, depth, n - 1);
        KidFormed(disk, l.buf.entries, depth + 1 - n, l.curr);
        LeavesSome(disk, Kid(l.buf.entries[l.curr], disk), depth - n);
      } else {
        assert [] + Leaves(disk, Rights(l), depth + 1 - n) == Leaves(disk, Rights(l), depth + 1 - n);
      }
    }
  }

  lemma {:induction false} InfosLength(es: seq<Entry>)
    ensures |LeafInfos(es)| == |es|
  {
    if es != [] {
      InfosLength(es[1..]);
    }
  }

  /** NEXT reports, from a position at the leaf, exactly the leaf entries after it if and only if no
      level above it still has its visit open. */
  lemma LeavesToCome(disk: Disk, path: seq<Level>, depth: nat)
    requires Steady(disk, path, depth) && |path| == depth + 1 && Top(path).curr >= 0
    ensures (forall i | 0 <= i < |path| :: Placed(path[i])) && forall i | 0 <= i < |path| - 1 :: path[i].curr >= 0
    ensures var all, k := Leaves(disk, path[0].buf.entries, depth), Here(disk, path, depth);
      && k < |all|
      && (Where(Rest(disk, path, depth), true, false) == LeafInfos(all[k + 1..])
          <==> forall i | 0 <= i < depth :: path[i].visit != 0)
  {
    hide Formed, Foot, Leaves, Where, LeafInfos, Rest, Again, RightOf, Rights;
    AllCurrent(disk, path, depth);
    RestLeaves(disk, path, depth);
    AgainRight(disk, path, depth, |path|);
    AtLeafParts(disk, path, depth);
    RightStep(disk, path, depth, depth + 1);
    LeftsAt(Top(path));
    LeavesFlat(disk, Rights(Top(path)));
    InfosLength(Again(disk, path, depth, |path|));
    InfosLength(RightOf(disk, path, depth, |path|));
  }

  // ---------- Descents after a split ----------

  /** Where the descent for a block led before a node was cut, it leads after. */
  lemma KeptTrack(disk: Disk, path: seq<Level>, depth: nat, nb: nat, nodeMax: nat, blk: nat)
    requires Splittable(disk, path, depth, nb, nodeMax) && Keyed(disk, path[0].buf.entries, depth, 0, U32)
    requires OnTrack(path, |path|, blk)
    ensures OnTrack(Kept(path, nb, nodeMax), |path|, blk)
  {
    hide Formed, Foot, Keyed, OnTrack, Kept, Steady, Rising, Stay;
    LevelRises(disk, path, depth, |path| - 2);
    LevelRises(disk, path, depth, |path| - 1);
    KeptOnTrack(path, nb, nodeMax, blk);
  }

  lemma LevelRises(disk: Disk, path: seq<Level>, depth: nat, n: nat)
    requires Steady(disk, path, depth) && n < |path| && Keyed(disk, path[0].buf.entries, depth, 0, U32)
    ensures Rising(path[n].buf.entries)
  {
    hide Formed, Foot, Leaves, Keyed, Exact, OrderAt, ExactAt, LeftOf, RightOf, HighOf, LowOf, Rising, Steady;
    SteadyLength(disk, path, depth);
    Zip(disk, path, depth, n);
    KeysRise(disk, path[n].buf.entries, depth - n, LowOf(path, n), HighOf(path, n));
  }

  lemma SteadyLength(disk: Disk, path: seq<Level>, depth: nat)
    requires Steady(disk, path, depth)
    ensures 0 < |path| <= depth + 1
  {
  }

  predicate Rising(es: seq<Entry>) { forall i, j | 0 <= i < j < |es| :: es[i].lblk < es[j].lblk }

  lemma KeysRise(disk: Disk, es: seq<Entry>, d: nat, lo: nat, hi: nat)
    requires Keyed(disk, es, d, lo, hi)
    ensures Rising(es)
  {
    KeysIncrease(disk, es, d, lo, hi);
  }

  lemma KeptOnTrack(path: seq<Level>, nb: nat, nodeMax: nat, blk: nat)
    requires CanCut(path) && OnTrack(path, |path|, blk) && Rising(path[|path| - 2].buf.entries) && Rising(Top(path).buf.entries)
    ensures OnTrack(Kept(path, nb, nodeMax), |path|, blk)
  {
    hide Pick, Rising;
    var n, t := |path| - 1, Top(path);
    var es, l := t.buf.entries, path[n - 1];
    assert t.curr == Pick(es, blk) && l.curr == Pick(l.buf.entries, blk);
    PickAt(es, blk);
    PickAt(l.buf.entries, blk);
    CutTrack(l.buf.entries, l.curr, es, t.curr, Stay(|es|), nb, blk);
    var kept := Kept(path, nb, nodeMax);
    forall i | 0 <= i < |path| ensures kept[i].buf.entries != [] && kept[i].curr == Pick(kept[i].buf.entries, blk) {
      if i < n - 1 {
        assert kept[i] == path[i];
      }
    }
  }

  lemma CutTrack(ls: seq<Entry>, pc: nat, es: seq<Entry>, c: nat, k: nat, nb: nat, blk: nat)
    requires pc < |ls| && c < |es| && 0 < k < |es|
    requires (pc > 0 ==> ls[pc].lblk <= blk) && (pc + 1 < |ls| ==> blk < ls[pc + 1].lblk)
    requires (c > 0 ==> es[c].lblk <= blk) && (c + 1 < |es| ==> blk < es[c + 1].lblk)
    requires Rising(es) && Rising(ls)
    ensures var w := WithKid(ls, pc, Index(es[k].lblk, nb));
      if c < k then Pick(w, blk) == pc && Pick(es[..k], blk) == c else Pick(w, blk) == pc + 1 && Pick(es[k..], blk) == c - k
  {
    hide Pick;
    var w := WithKid(ls, pc, Index(es[k].lblk, nb));
    assert forall j | 0 <= j <= pc :: w[j] == ls[j];
    assert w[pc + 1].lblk == es[k].lblk && (pc + 1 < |ls| ==> w[pc + 2] == ls[pc + 1]);
    if c < k {
      PickIs(w, blk, pc);
      PickIs(es[..k], blk, c);
    } else {
      PickIs(w, blk, pc + 1);
      PickIs(es[k..], blk, c - k);
    }
  }

  // ---------- One entry of the leaf ----------

  /** Within the fields of a leaf entry on disk. */
  predicate Storable(e: Entry) {
    e.lblk < U32 && e.pblk < P48 && 0 < e.len <= MaxLen(e.uninit)
  }

  function Replaced(l: Level, e: Entry): Level
    requires 0 <= l.curr < |l.buf.entries|
  {
    l.(buf := l.buf.(entries := l.buf.entries[l.curr := e]))
  }

  /** The level with an entry put in before or after the current one, and current. */
  function Inserted(l: Level, after: bool, e: Entry): Level
    requires 0 <= l.curr < |l.buf.entries|
  {
    var ix := l.curr + if after then 1 else 0;
    l.(buf := l.buf.(entries := InsertAt(l.buf.entries, ix, e)), curr := ix, left := if after then l.left else l.left + 1)
  }

  lemma InsertedIs(l: Level, after: bool, e: Entry)
    requires Placed(l) && 0 <= l.curr < |l.buf.entries|
    ensures var ix, es := l.curr + (if after then 1 else 0), l.buf.entries;
      && Inserted(l, after, e) == l.(buf := l.buf.(entries := InsertAt(es, ix, e)), curr := ix, left := if after then l.left else l.left + 1)
      && Placed(Inserted(l, after, e)) && ix < |InsertAt(es, ix, e)| == |es| + 1
      && InsertAt(es, ix, e)[..ix] == es[..ix]
  {
  }

  lemma InsertedSame(l: Level, after: bool, e: Entry)
    requires 0 <= l.curr < |l.buf.entries|
    ensures Inserted(l, after, e).end == l.end && Inserted(l, after, e).buf.max == l.buf.max
  {
  }

  lemma ReplacedAt(a: seq<Entry>, es: seq<Entry>, b: seq<Entry>, c: nat, e: Entry)
    requires c < |es|
    ensures a + es[c := e] + b == (a + es + b)[|a| + c := e]
  {
  }

  lemma InsertedAt(a: seq<Entry>, es: seq<Entry>, b: seq<Entry>, c: nat, e: Entry)
    requires c <= |es|
    ensures a + InsertAt(es, c, e) + b == InsertAt(a + es + b, |a| + c, e)
  {
  }

  // ---------- A whole deletion ----------

  lemma StopsSingle(path: seq<Level>, n: nat)
    requires n < |path| && forall i | 0 <= i < |path| :: path[i].buf.entries != []
    ensures forall i | Stops(path, n) < i <= n :: |path[i].buf.entries| == 1
  {
  }

  lemma EntryAllOn(disk: Disk, path: seq<Level>, depth: nat)
    requires Steady(disk, path, depth) && Top(path).curr >= 0
    ensures AllOn(path) && FreedApart(path) && Gone(path) == |Freed(path)|
  {
    hide Formed, Foot, Column;
    AllCurrent(disk, path, depth);
    ColumnApart(disk, path, depth, Stops(path, |path| - 1), |path| - 1);
  }

  /** The tree after a deletion that leaves an entry. */
  lemma Deleted(disk: Disk, path: seq<Level>, depth: nat)
    requires Steady(disk, path, depth) && |path| == depth + 1 && Top(path).curr >= 0 && Keyed(disk, path[0].buf.entries, depth, 0, U32)
    requires AllOn(path) && |path[Stops(path, depth)].buf.entries| > 1
    ensures var all, k := Leaves(disk, path[0].buf.entries, depth), Here(disk, path, depth);
      var disk', path' := PrunedDisk(disk, path), PrunedPath(path);
      && Steady(disk', path', depth) && Top(path').curr >= 0 && k < |all|
      && Leaves(disk', path'[0].buf.entries, depth) == all[..k] + all[k + 1..]
      && Foot(disk', path'[0].buf.entries, depth) == Foot(disk, path[0].buf.entries, depth) - Freed(path)
      && Freed(path) <= Foot(disk, path[0].buf.entries, depth)
      && Keyed(disk', path'[0].buf.entries, depth, 0, U32)
      && (Exact(disk, path[0].buf.entries, depth) ==>
           ClimbingExact(disk', path', depth) && (Top(path').curr > 0 ==> Exact(disk', path'[0].buf.entries, depth)))
      && path'[0].end == path[0].end && path'[0].buf.max == path[0].buf.max && |path'[0].buf.entries| <= |path[0].buf.entries|
      && Top(path').buf.entries != []
  {
    hide Formed, Foot, Leaves, Keyed, Exact, Removed, Column, Here, ClimbingExact, Wrote;
    var m := Stops(path, depth);
    StopsSingle(path, depth);
    RemovedParts(path[m]);
    Pruned(disk, path, depth, m);
    PrunedKeys(disk, path, depth, m);
  }

  /** ... and after one that does not. */
  lemma DeletedAll(disk: Disk, path: seq<Level>, depth: nat)
    requires Steady(disk, path, depth) && |path| == depth + 1 && Top(path).curr >= 0
    requires AllOn(path) && |path[Stops(path, depth)].buf.entries| == 1
    ensures Stops(path, depth) == 0 && Here(disk, path, depth) == 0 && |Leaves(disk, path[0].buf.entries, depth)| == 1
    ensures Foot(disk, path[0].buf.entries, depth) == Freed(path)
    ensures PrunedPath(path) == [path[0].(buf := path[0].buf.(entries := []), left := 0, curr := -1)]
  {
    hide Formed, Foot, Leaves, Keyed, Exact, Column, LeftOf;
    StopsSingle(path, depth);
    RemovedParts(path[0]);
    assert Removed(path[0]).buf.entries == [] && path[..0] == [];
    ColumnTree(disk, path, depth, 0);
    ColumnBeside(disk, path, depth, 0, |path|);
    NothingLeft(disk, path, depth);
  }

  lemma NothingLeft(disk: Disk, path: seq<Level>, depth: nat)
    requires |path| <= depth + 1
    ensures LeftOf(disk, path, depth, 0) == []
  {
  }
}
