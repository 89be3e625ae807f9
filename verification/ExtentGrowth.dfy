/**
 Splitting nodes of an extent tree without changing what it maps, and the positions that a descent
 reaches.
 */
module ExtentGrowth {
  import opened ExtentTree
  import opened ExtentWalk

  /** es' on disk' is the same tree as es on disk, as far as anyone above or below can tell, with the
      additional blocks F. */
  ghost predicate Same(disk: Disk, es: seq<Entry>, disk': Disk, es': seq<Entry>, d: nat, F: set<nat>) {
    && Formed(disk', es', d) && Leaves(disk', es', d) == Leaves(disk, es, d)
    && Foot(disk', es', d) == Foot(disk, es, d) + F
    && es != [] && es' != [] && es'[0].lblk == es[0].lblk
    && (forall lo, hi | Keyed(disk, es, d, lo, hi) :: Keyed(disk', es', d, lo, hi))
    && (Exact(disk, es, d) ==> Exact(disk', es', d))
  }

  /** On the blocks in S, the disks agree. */
  ghost predicate Agree(disk: Disk, disk': Disk, S: set<nat>) {
    forall b | b in S :: b in disk && b in disk' && disk'[b] == disk[b]
  }

  function Kid(e: Entry, disk: Disk): seq<Entry> { if e.pblk in disk then disk[e.pblk].entries else [] }

  lemma OneEntry(disk: Disk, e: Entry, d: nat, lo: nat, hi: nat)
    requires d > 0
    ensures Foot(disk, [e], d) == {e.pblk} + if e.pblk in disk then Foot(disk, disk[e.pblk].entries, d - 1) else {}
    ensures Leaves(disk, [e], d) == if e.pblk in disk then Leaves(disk, disk[e.pblk].entries, d - 1) else []
    ensures Formed(disk, [e], d) <==>
      && e.pblk in disk && 0 < |disk[e.pblk].entries| <= disk[e.pblk].max && Formed(disk, disk[e.pblk].entries, d - 1)
      && e.pblk !in Foot(disk, disk[e.pblk].entries, d - 1)
    ensures Keyed(disk, [e], d, lo, hi) <==> lo <= e.lblk < hi && e.pblk in disk && Keyed(disk, disk[e.pblk].entries, d - 1, e.lblk, hi)
    ensures Exact(disk, [e], d) <==>
      e.pblk in disk && disk[e.pblk].entries != [] && disk[e.pblk].entries[0].lblk == e.lblk && Exact(disk, disk[e.pblk].entries, d - 1)
  {
    assert [e][1..] == [];
    assert Keyed(disk, [], d, hi, hi);
  }

  /** The entries before, at and after a position. */
  lemma Cut(es: seq<Entry>, c: nat)
    requires c < |es|
    ensures es == es[..c] + ([es[c]] + es[c + 1..])
  {
  }

  /** If the tree below one entry is the same, so is the whole. */
  lemma SameKid(disk: Disk, disk': Disk, es: seq<Entry>, c: nat, d: nat, F: set<nat>)
    requires d > 0 && c < |es| && Formed(disk, es, d)
    requires es[c].pblk in disk && es[c].pblk in disk' && 0 < |disk'[es[c].pblk].entries| <= disk'[es[c].pblk].max
    requires Same(disk, disk[es[c].pblk].entries, disk', disk'[es[c].pblk].entries, d - 1, F)
    requires F !! Foot(disk, es, d)
    requires Agree(disk, disk', Foot(disk, es, d) - {es[c].pblk} - Foot(disk, disk[es[c].pblk].entries, d - 1))
    ensures Same(disk, es, disk', es, d, F)
  {
    hide Foot, Formed, Leaves, Keyed, Exact, Pick, Seek;
    var a, e, b := es[..c], es[c], es[c + 1..];
    Cut(es, c);
    SplitFacts(disk, a, e, b, d);
    OneEntry(disk, e, d, 0, 0);
    OneEntry(disk', e, d, 0, 0);
    FrameSide(disk, disk', a, d);
    FrameSide(disk, disk', b, d);
    JoinFacts(disk', a, e, b, d);
    assert Foot(disk', es, d) == Foot(disk, es, d) + F;
    forall lo, hi | Keyed(disk, es, d, lo, hi) ensures Keyed(disk', es, d, lo, hi) {
      KeyedParts(disk, a, e, b, d, lo, hi);
      KeyedParts(disk', a, e, b, d, lo, hi);
      OneEntry(disk, e, d, Then([e] + b, hi), Then(b, hi));
      OneEntry(disk', e, d, Then([e] + b, hi), Then(b, hi));
      FrameKeyed(disk, disk', a, d, lo, Then([e] + b, hi));
      FrameKeyed(disk, disk', b, d, Then(b, hi), hi);
    }
    ExactCat(disk, a, [e] + b, d);
    ExactCat(disk, [e], b, d);
    ExactCat(disk', a, [e] + b, d);
    ExactCat(disk', [e], b, d);
  }

  lemma FrameSide(disk: Disk, disk': Disk, es: seq<Entry>, d: nat)
    requires Formed(disk, es, d) && Agree(disk, disk', Foot(disk, es, d))
    ensures Formed(disk', es, d) && Foot(disk', es, d) == Foot(disk, es, d) && Leaves(disk', es, d) == Leaves(disk, es, d)
    ensures Exact(disk, es, d) ==> Exact(disk', es, d)
  {
    Frame(disk, disk', es, d, 0, 0);
  }

  lemma FrameKeyed(disk: Disk, disk': Disk, es: seq<Entry>, d: nat, lo: nat, hi: nat)
    requires Formed(disk, es, d) && Agree(disk, disk', Foot(disk, es, d))
    ensures Keyed(disk, es, d, lo, hi) ==> Keyed(disk', es, d, lo, hi)
  {
    Frame(disk, disk', es, d, lo, hi);
  }

  lemma SplitFacts(disk: Disk, a: seq<Entry>, e: Entry, b: seq<Entry>, d: nat)
    requires Formed(disk, a + ([e] + b), d)
    ensures Formed(disk, a, d) && Formed(disk, [e], d) && Formed(disk, b, d)
    ensures Foot(disk, a, d) !! Foot(disk, [e], d) && Foot(disk, a, d) !! Foot(disk, b, d) && Foot(disk, [e], d) !! Foot(disk, b, d)
    ensures Foot(disk, a + ([e] + b), d) == Foot(disk, a, d) + Foot(disk, [e], d) + Foot(disk, b, d)
    ensures Leaves(disk, a + ([e] + b), d) == Leaves(disk, a, d) + (Leaves(disk, [e], d) + Leaves(disk, b, d))
  {
    hide Foot, Formed, Leaves;
    FormedCat(disk, a, [e] + b, d);
    FormedCat(disk, [e], b, d);
    FootCat(disk, a, [e] + b, d);
    FootCat(disk, [e], b, d);
    LeavesCat(disk, a, [e] + b, d);
    LeavesCat(disk, [e], b, d);
  }

  lemma JoinFacts(disk: Disk, a: seq<Entry>, e: Entry, b: seq<Entry>, d: nat)
    requires Formed(disk, a, d) && Formed(disk, [e], d) && Formed(disk, b, d)
    requires Foot(disk, a, d) !! Foot(disk, [e], d) && Foot(disk, a, d) !! Foot(disk, b, d) && Foot(disk, [e], d) !! Foot(disk, b, d)
    ensures Formed(disk, a + ([e] + b), d)
    ensures Foot(disk, a + ([e] + b), d) == Foot(disk, a, d) + Foot(disk, [e], d) + Foot(disk, b, d)
    ensures Leaves(disk, a + ([e] + b), d) == Leaves(disk, a, d) + (Leaves(disk, [e], d) + Leaves(disk, b, d))
  {
    hide Foot, Formed, Leaves;
    FormedCat(disk, a, [e] + b, d);
    FormedCat(disk, [e], b, d);
    FootCat(disk, a, [e] + b, d);
    FootCat(disk, [e], b, d);
    LeavesCat(disk, a, [e] + b, d);
    LeavesCat(disk, [e], b, d);
  }

  /** Keys of a + [e] + b: of each part, with the next key as its end. */
  lemma KeyedParts(disk: Disk, a: seq<Entry>, e: Entry, b: seq<Entry>, d: nat, lo: nat, hi: nat)
    ensures Keyed(disk, a + ([e] + b), d, lo, hi) <==>
      && (a == [] ==> lo <= e.lblk) && (a != [] ==> Keyed(disk, a, d, lo, e.lblk))
      && Keyed(disk, [e], d, e.lblk, Then(b, hi)) && Keyed(disk, b, d, Then(b, hi), hi)
  {
    var t := [e] + b;
    KeyedCat(disk, [e], b, d, e.lblk, hi);
    if a == [] {
      assert a + t == t;
      assert t[1..] == b;
      assert [e][1..] == [];
      assert Next(t, hi) == Then(b, hi) == Next([e], Then(b, hi));
    } else {
      KeyedCat(disk, a, t, d, lo, hi);
    }
  }

  // ---------- Splitting ----------

  /** An index entry. */
  function Index(lblk: nat, pblk: nat): Entry { Entry(lblk, pblk, 0, false) }

  /** The entries of the parent once the node below entry c has been cut before its entry k. */
  function WithKid(es: seq<Entry>, c: nat, e: Entry): seq<Entry>
    requires c < |es|
  {
    es[..c + 1] + [e] + es[c + 1..]
  }

  /** Cutting a node in two, and hanging the second half in after it, keeps the tree the same. */
  lemma SplitKid(disk: Disk, disk': Disk, es: seq<Entry>, c: nat, d: nat, k: nat, nb: nat)
    requires d > 0 && c < |es| && Formed(disk, es, d) && es[c].pblk in disk
    requires var ch := disk[es[c].pblk].entries; 0 < k < |ch|
    requires nb !in Foot(disk, es, d)
    requires Agree(disk, disk', Foot(disk, es, d) - {es[c].pblk})
    requires var p, ch := es[c].pblk, disk[es[c].pblk].entries;
      && p in disk' && disk'[p].entries == ch[..k] && k <= disk'[p].max
      && nb in disk' && disk'[nb].entries == ch[k..] && |ch| - k <= disk'[nb].max
    ensures Same(disk, es, disk', WithKid(es, c, Index(disk[es[c].pblk].entries[k].lblk, nb)), d, {nb})
  {
    hide Foot, Formed, Leaves, Keyed, Exact, Pick, Seek;
    var a, e, b := es[..c], es[c], es[c + 1..];
    var ch := disk[e.pblk].entries;
    var f := Index(ch[k].lblk, nb);
    Cut(es, c);
    assert WithKid(es, c, f) == a + ([e] + ([f] + b));
    assert es != [] && WithKid(es, c, f)[0] == es[0];
    SplitFacts(disk, a, e, b, d);
    OneEntry(disk, e, d, 0, 0);
    SplitShape(disk, disk', a, e, b, d, k, nb);
    forall lo, hi | Keyed(disk, es, d, lo, hi) ensures Keyed(disk', WithKid(es, c, f), d, lo, hi) {
      SplitKeys(disk, disk', a, e, b, d, k, nb, lo, hi);
    }
  }

  lemma SplitShape(disk: Disk, disk': Disk, a: seq<Entry>, e: Entry, b: seq<Entry>, d: nat, k: nat, nb: nat)
    requires d > 0 && Formed(disk, a + ([e] + b), d) && e.pblk in disk
    requires var ch := disk[e.pblk].entries; 0 < k < |ch|
    requires nb !in Foot(disk, a + ([e] + b), d) && Agree(disk, disk', Foot(disk, a + ([e] + b), d) - {e.pblk})
    requires var p, ch := e.pblk, disk[e.pblk].entries;
      && p in disk' && disk'[p].entries == ch[..k] && k <= disk'[p].max
      && nb in disk' && disk'[nb].entries == ch[k..] && |ch| - k <= disk'[nb].max
    ensures var es, es' := a + ([e] + b), a + ([e] + ([Index(disk[e.pblk].entries[k].lblk, nb)] + b));
      && Formed(disk', es', d) && Leaves(disk', es', d) == Leaves(disk, es, d) && Foot(disk', es', d) == Foot(disk, es, d) + {nb}
      && (Exact(disk, es, d) ==> Exact(disk', es', d))
      && Formed(disk, a, d) && Formed(disk, b, d) && Agree(disk, disk', Foot(disk, a, d)) && Agree(disk, disk', Foot(disk, b, d))
      && Formed(disk, disk[e.pblk].entries, d - 1) && Agree(disk, disk', Foot(disk, disk[e.pblk].entries, d - 1))
  {
    hide Foot, Formed, Leaves, Keyed, Exact, Pick, Seek;
    var ch := disk[e.pblk].entries;
    var f := Index(ch[k].lblk, nb);
    SplitFacts(disk, a, e, b, d);
    OneEntry(disk, e, d, 0, 0);
    OneEntry(disk', e, d, 0, 0);
    OneEntry(disk', f, d, 0, 0);
    FrameSide(disk, disk', a, d);
    FrameSide(disk, disk', b, d);
    Halves(disk, disk', ch, k, d - 1);
    JoinFacts(disk', [e], f, b, d);
    LeavesJoin(disk', e, f, b, d);
    FormedCat(disk', a, [e] + ([f] + b), d);
    FootCat(disk', a, [e] + ([f] + b), d);
    LeavesCat(disk', a, [e] + ([f] + b), d);
    SplitExact(disk, disk', a, e, f, b, d);
  }

  lemma SplitExact(disk: Disk, disk': Disk, a: seq<Entry>, e: Entry, f: Entry, b: seq<Entry>, d: nat)
    requires Exact(disk, a, d) ==> Exact(disk', a, d)
    requires Exact(disk, b, d) ==> Exact(disk', b, d)
    requires Exact(disk, [e], d) ==> Exact(disk', [e], d) && Exact(disk', [f], d)
    ensures Exact(disk, a + ([e] + b), d) ==> Exact(disk', a + ([e] + ([f] + b)), d)
  {
    hide Exact;
    ExactCat(disk, a, [e] + b, d);
    ExactCat(disk, [e], b, d);
    ExactCat(disk', [f], b, d);
    ExactCat(disk', [e], [f] + b, d);
    ExactCat(disk', a, [e] + ([f] + b), d);
  }

  lemma LeavesJoin(disk: Disk, e: Entry, f: Entry, b: seq<Entry>, d: nat)
    ensures Leaves(disk, [e] + ([f] + b), d) == Leaves(disk, [e], d) + Leaves(disk, [f], d) + Leaves(disk, b, d)
  {
    hide Leaves;
    LeavesCat(disk, [e], [f] + b, d);
    LeavesCat(disk, [f], b, d);
  }

  /** The two halves of a node, on the new disk. */
  lemma Halves(disk: Disk, disk': Disk, ch: seq<Entry>, k: nat, d: nat)
    requires k <= |ch| && Formed(disk, ch, d) && Agree(disk, disk', Foot(disk, ch, d))
    ensures Formed(disk', ch[..k], d) && Formed(disk', ch[k..], d)
    ensures Foot(disk', ch[..k], d) == Foot(disk, ch[..k], d) && Foot(disk', ch[k..], d) == Foot(disk, ch[k..], d)
    ensures Foot(disk, ch, d) == Foot(disk', ch[..k], d) + Foot(disk', ch[k..], d) && Foot(disk', ch[..k], d) !! Foot(disk', ch[k..], d)
    ensures Leaves(disk, ch, d) == Leaves(disk', ch[..k], d) + Leaves(disk', ch[k..], d)
    ensures Exact(disk, ch, d) ==> Exact(disk', ch[..k], d) && Exact(disk', ch[k..], d)
  {
    hide Foot, Formed, Leaves, Keyed, Exact;
    assert ch[..k] + ch[k..] == ch;
    FormedCat(disk, ch[..k], ch[k..], d);
    FootCat(disk, ch[..k], ch[k..], d);
    LeavesCat(disk, ch[..k], ch[k..], d);
    ExactCat(disk, ch[..k], ch[k..], d);
    FrameSide(disk, disk', ch[..k], d);
    FrameSide(disk, disk', ch[k..], d);
  }

  lemma SplitKeys(disk: Disk, disk': Disk, a: seq<Entry>, e: Entry, b: seq<Entry>, d: nat, k: nat, nb: nat, lo: nat, hi: nat)
    requires d > 0 && Formed(disk, a, d) && Formed(disk, b, d) && Agree(disk, disk', Foot(disk, a, d)) && Agree(disk, disk', Foot(disk, b, d))
    requires e.pblk in disk && e.pblk in disk' && nb in disk'
    requires var ch := disk[e.pblk].entries;
      0 < k < |ch| && Formed(disk, ch, d - 1) && Agree(disk, disk', Foot(disk, ch, d - 1))
      && disk'[e.pblk].entries == ch[..k] && disk'[nb].entries == ch[k..]
    requires Keyed(disk, a + ([e] + b), d, lo, hi)
    ensures Keyed(disk', a + ([e] + ([Index(disk[e.pblk].entries[k].lblk, nb)] + b)), d, lo, hi)
  {
    hide Foot, Formed, Leaves, Keyed, Exact;
    var ch := disk[e.pblk].entries;
    var f := Index(ch[k].lblk, nb);
    KeyedParts(disk, a, e, b, d, lo, hi);
    KeyedParts(disk', a, e, [f] + b, d, lo, hi);
    KeyedParts(disk', [], f, b, d, f.lblk, hi);
    assert [] + ([f] + b) == [f] + b;
    FrameKeyed(disk, disk', a, d, lo, e.lblk);
    FrameKeyed(disk, disk', b, d, Then(b, hi), hi);
    OneEntry(disk, e, d, e.lblk, Then(b, hi));
    OneEntry(disk', e, d, e.lblk, f.lblk);
    OneEntry(disk', f, d, f.lblk, Then(b, hi));
    assert ch[..k] + ch[k..] == ch;
    KeyedCat(disk, ch[..k], ch[k..], d - 1, e.lblk, Then(b, hi));
    FormedCat(disk, ch[..k], ch[k..], d - 1);
    FootCat(disk, ch[..k], ch[k..], d - 1);
    FrameKeyed(disk, disk', ch[..k], d - 1, e.lblk, f.lblk);
    FrameKeyed(disk, disk', ch[k..], d - 1, f.lblk, Then(b, hi));
    KidKeyed(disk, ch[..k], d - 1, 0, e.lblk, f.lblk);
    KidKeyed(disk, ch[k..], d - 1, 0, f.lblk, Then(b, hi));
    KeyedBounds(disk, ch[..k], d - 1, e.lblk, f.lblk);
  }

  /** Moving all entries of the root to a new node below it. */
  lemma SplitRoot(disk: Disk, disk': Disk, es: seq<Entry>, d: nat, nb: nat)
    requires es != [] && Formed(disk, es, d) && nb !in Foot(disk, es, d) && Agree(disk, disk', Foot(disk, es, d))
    requires nb in disk' && disk'[nb].entries == es && |es| <= disk'[nb].max
    ensures var es' := [Index(es[0].lblk, nb)];
      && Formed(disk', es', d + 1) && Leaves(disk', es', d + 1) == Leaves(disk, es, d) && Foot(disk', es', d + 1) == Foot(disk, es, d) + {nb}
      && (forall lo, hi | Keyed(disk, es, d, lo, hi) :: Keyed(disk', es', d + 1, lo, hi))
      && (Exact(disk, es, d) ==> Exact(disk', es', d + 1))
  {
    hide Foot, Formed, Leaves, Keyed, Exact;
    var f := Index(es[0].lblk, nb);
    FrameSide(disk, disk', es, d);
    OneEntry(disk', f, d + 1, 0, 0);
    forall lo, hi | Keyed(disk, es, d, lo, hi) ensures Keyed(disk', [f], d + 1, lo, hi) {
      OneEntry(disk', f, d + 1, lo, hi);
      FrameKeyed(disk, disk', es, d, lo, hi);
      KidKeyed(disk, es, d, 0, lo, hi);
      KeyedRaise(disk', es, d, lo, hi);
    }
  }

  lemma KeyedRaise(disk: Disk, es: seq<Entry>, d: nat, lo: nat, hi: nat)
    requires Keyed(disk, es, d, lo, hi) && es != []
    ensures Keyed(disk, es, d, es[0].lblk, hi)
  {
  }

  // ---------- Where a descent leads ----------

  /** The first n levels are those of the descent for blk. */
  ghost predicate OnTrack(path: seq<Level>, n: nat, blk: nat) {
    n <= |path| && forall i | 0 <= i < n :: path[i].buf.entries != [] && path[i].curr == Pick(path[i].buf.entries, blk)
  }

  /** A descent from the same root ends in the same place. */
  lemma {:induction false} TrackUnique(disk: Disk, p: seq<Level>, q: seq<Level>, depth: nat, n: nat, blk: nat)
    requires Steady(disk, p, depth) && Steady(disk, q, depth) && p[0].buf == q[0].buf && p[0].end == q[0].end
    requires n < |p| && n < |q| && OnTrack(p, n + 1, blk) && OnTrack(q, n + 1, blk)
    ensures p[n].buf == q[n].buf && p[n].curr == q[n].curr && p[n].end == q[n].end
  {
    hide Formed, Pick;
    if n > 0 {
      TrackUnique(disk, p, q, depth, n - 1, blk);
      assert Linked(disk, p[n - 1], p[n]) && Linked(disk, q[n - 1], q[n]);
      assert p[n].buf.entries == q[n].buf.entries;
    }
  }

  /** The range of keys of the node at a level of the path. */
  lemma {:induction false} PathKeys(disk: Disk, path: seq<Level>, depth: nat, n: nat, lo: nat, hi: nat) returns (klo: nat, khi: nat)
    requires Steady(disk, path, depth) && n < |path| && Keyed(disk, path[0].buf.entries, depth, lo, hi)
    ensures Keyed(disk, path[n].buf.entries, depth - n, klo, khi)
    ensures hi == path[0].end ==> khi == path[n].end
    ensures khi <= hi
    ensures forall blk, i | klo <= blk < khi && 0 <= i < n :: OnTrackAt(path, i, blk)
  {
    hide Formed, Keyed, Pick;
    if n == 0 {
      klo, khi := lo, hi;
    } else {
      var l, h := PathKeys(disk, path, depth, n - 1, lo, hi);
      assert Linked(disk, path[n - 1], path[n]);
      var a := path[n - 1];
      klo, khi := a.buf.entries[a.curr].lblk, Next(a.buf.entries[a.curr..], h);
      KidKeyed(disk, a.buf.entries, depth - (n - 1), a.curr, l, h);
      assert a.left > 0 ==> a.buf.entries[a.curr..][1] == a.buf.entries[a.curr + 1];
      forall blk, i | klo <= blk < khi && 0 <= i < n ensures OnTrackAt(path, i, blk) {
        if i == n - 1 {
          KeysIncrease(disk, a.buf.entries, depth - (n - 1), l, h);
          PickIs(a.buf.entries, blk, a.curr);
        }
      }
    }
  }

  ghost predicate OnTrackAt(path: seq<Level>, i: nat, blk: nat) {
    i < |path| && path[i].buf.entries != [] && path[i].curr == Pick(path[i].buf.entries, blk)
  }

  /** A position is where the descent for its own key leads. */
  lemma PathIsTrack(disk: Disk, path: seq<Level>, depth: nat, lo: nat, hi: nat)
    requires Steady(disk, path, depth) && Keyed(disk, path[0].buf.entries, depth, lo, hi) && Top(path).curr >= 0
    ensures OnTrack(path, |path|, Top(path).buf.entries[Top(path).curr].lblk)
  {
    hide Formed, Keyed, Pick;
    var n, l := |path| - 1, Top(path);
    var klo, khi := PathKeys(disk, path, depth, n, lo, hi);
    var blk := l.buf.entries[l.curr].lblk;
    KidKeyed(disk, l.buf.entries, depth - n, l.curr, klo, khi);
    KeysIncrease(disk, l.buf.entries, depth - n, klo, khi);
    PickIs(l.buf.entries, blk, l.curr);
    forall i | 0 <= i < |path| ensures path[i].buf.entries != [] && path[i].curr == Pick(path[i].buf.entries, blk) {
      if i < n {
        assert OnTrackAt(path, i, blk);
      }
    }
  }

  /** A full descent ends on the entry that Seek describes. */
  lemma {:induction false} TrackSeek(disk: Disk, path: seq<Level>, depth: nat, n: nat, blk: nat)
    requires Steady(disk, path, depth) && |path| == depth + 1 && OnTrack(path, |path|, blk) && n <= depth
    ensures Formed(disk, path[n].buf.entries, depth - n)
    ensures Seek(disk, path[n].buf.entries, depth - n, blk) == Top(path).buf.entries[Top(path).curr]
    decreases depth - n
  {
    hide Formed, Pick;
    SteadyFormed(disk, path, depth, n);
    if n < depth {
      TrackSeek(disk, path, depth, n + 1, blk);
      assert Linked(disk, path[n], path[n + 1]);
    }
  }

  // ---------- A change deep in the tree ----------

  /** The block of the node at a level of the path. */
  function BlockAt(path: seq<Level>, n: nat): nat
    requires 0 < n < |path| && 0 <= path[n - 1].curr < |path[n - 1].buf.entries|
  {
    path[n - 1].buf.entries[path[n - 1].curr].pblk
  }

  /** If the tree below a level of the path stays the same, so does the whole tree. */
  lemma {:induction false} SamePath(disk: Disk, disk': Disk, path: seq<Level>, depth: nat, n: nat, m: nat, F: set<nat>)
    requires Steady(disk, path, depth) && m <= n < |path| && n > 0 && path[n - 1].curr >= 0
    requires BlockAt(path, n) in disk' && 0 < |disk'[BlockAt(path, n)].entries| <= disk'[BlockAt(path, n)].max
    requires Same(disk, path[n].buf.entries, disk', disk'[BlockAt(path, n)].entries, depth - n, F)
    requires F !! Foot(disk, path[0].buf.entries, depth)
    requires Agree(disk, disk', Foot(disk, path[0].buf.entries, depth) - {BlockAt(path, n)} - Foot(disk, path[n].buf.entries, depth - n))
    ensures m < n ==> Same(disk, path[m].buf.entries, disk', path[m].buf.entries, depth - m, F)
    decreases n - m
  {
    hide Formed, Foot, Same, Keyed, Exact, Leaves;
    if m < n {
      SamePath(disk, disk', path, depth, n, m + 1, F);
      SteadyFormed(disk, path, depth, m);
      SteadyFormed(disk, path, depth, m + 1);
      BelowApart(disk, path, depth, n, m + 1);
      BelowApart(disk, path, depth, m + 1, m);
      BelowApart(disk, path, depth, m, 0);
      SameKid(disk, disk', path[m].buf.entries, path[m].curr, depth - m, F);
    }
  }

  /** What lies below a level is below every level above it, and no node is below itself. */
  lemma {:induction false} BelowApart(disk: Disk, path: seq<Level>, depth: nat, n: nat, m: nat)
    requires Steady(disk, path, depth) && m <= n < |path|
    ensures Foot(disk, path[n].buf.entries, depth - n) <= Foot(disk, path[m].buf.entries, depth - m)
    ensures n > 0 ==> path[n - 1].curr >= 0 && BlockAt(path, n) in disk && disk[BlockAt(path, n)] == path[n].buf
    ensures n > 0 ==> BlockAt(path, n) !in Foot(disk, path[n].buf.entries, depth - n)
    ensures m < n ==> BlockAt(path, n) in Foot(disk, path[m].buf.entries, depth - m)
    decreases n - m
  {
    hide Formed, Foot;
    if n > 0 {
      SteadyFormed(disk, path, depth, n - 1);
      assert Linked(disk, path[n - 1], path[n]);
      KidFormed(disk, path[n - 1].buf.entries, depth - (n - 1), path[n - 1].curr);
    }
    if m < n {
      BelowApart(disk, path, depth, n - 1, m);
    }
  }

  // ---------- One split, below a parent with room ----------

  /** Entries that stay when a node of n entries is cut. */
  function Stay(n: nat): nat { n - n / 2 }

  /** The parent's level after the new node has been hung in. */
  function Adopted(p: Level, t: Level, nb: nat): Level
    requires 0 <= p.curr < |p.buf.entries| && |t.buf.entries| >= 2
  {
    p.(buf := p.buf.(entries := WithKid(p.buf.entries, p.curr, Index(t.buf.entries[Stay(|t.buf.entries|)].lblk, nb))), curr := p.curr + 1)
  }

  /** The last three levels are in place, and the last node can be cut. */
  predicate CanCut(path: seq<Level>) {
    && |path| >= 2 && |Top(path).buf.entries| >= 2
    && var n := |path| - 1;
    && Placed(path[n]) && path[n].curr >= 0 && Placed(path[n - 1]) && path[n - 1].curr >= 0
    && (n > 1 ==> Placed(path[n - 2]) && path[n - 2].curr >= 0)
  }

  /** The disk after the split of the last level of the path. */
  function Cutting(disk: Disk, path: seq<Level>, nb: nat, nodeMax: nat): Disk
    requires CanCut(path)
  {
    var n, t := |path| - 1, Top(path);
    var k := Stay(|t.buf.entries|);
    var cut := disk[nb := Node(nodeMax, t.buf.entries[k..])][BlockAt(path, n) := t.buf.(entries := t.buf.entries[..k])];
    if n == 1 then cut else cut[BlockAt(path, n - 1) := Adopted(path[n - 1], t, nb).buf]
  }

  /** The position of the original entry after the split. */
  function Kept(path: seq<Level>, nb: nat, nodeMax: nat): seq<Level>
    requires CanCut(path)
  {
    var n, t := |path| - 1, Top(path);
    var es, k, c := t.buf.entries, Stay(|t.buf.entries|), t.curr;
    var p := Adopted(path[n - 1], t, nb);
    if c < k then
      path[..n - 1] + [p.(curr := p.curr - 1, left := p.left + 1), Level(t.buf.(entries := es[..k]), k - 1 - c, t.visit, es[k].lblk, c)]
    else
      path[..n - 1] + [p, Level(Node(nodeMax, es[k..]), |es| - 1 - c, t.visit, t.end, c - k)]
  }

  ghost predicate Splittable(disk: Disk, path: seq<Level>, depth: nat, nb: nat, nodeMax: nat) {
    && Steady(disk, path, depth) && CanCut(path) && |Top(path).buf.entries| <= nodeMax
    && |path[|path| - 2].buf.entries| < path[|path| - 2].buf.max
    && nb !in Foot(disk, path[0].buf.entries, depth)
  }

  lemma SplittableIs(disk: Disk, path: seq<Level>, depth: nat)
    requires Steady(disk, path, depth) && |path| >= 2 && Top(path).curr >= 0 && |Top(path).buf.entries| >= 2
    ensures CanCut(path)
  {
    var n := |path| - 1;
    assert Linked(disk, path[n - 1], path[n]);
    if n > 1 {
      assert Linked(disk, path[n - 2], path[n - 1]);
    }
  }

  /** The tree stays the same, with one more block. */
  lemma SplitSame(disk: Disk, path: seq<Level>, depth: nat, nb: nat, nodeMax: nat)
    requires Splittable(disk, path, depth, nb, nodeMax)
    ensures var n := |path| - 1;
      Same(disk, path[0].buf.entries, Cutting(disk, path, nb, nodeMax), if n == 1 then Adopted(path[0], path[1], nb).buf.entries else path[0].buf.entries, depth, {nb})
  {
    hide Formed, Foot, Same, Keyed, Exact, Leaves;
    var n, t := |path| - 1, Top(path);
    var es, k, p := t.buf.entries, Stay(|t.buf.entries|), path[n - 1];
    var disk' := Cutting(disk, path, nb, nodeMax);
    SteadyFormed(disk, path, depth, n - 1);
    SteadyFormed(disk, path, depth, n);
    BelowApart(disk, path, depth, n, n - 1);
    BelowApart(disk, path, depth, n - 1, 0);
    FootOnDisk(disk, path[0].buf.entries, depth);
    SplitKid(disk, disk', p.buf.entries, p.curr, depth - (n - 1), k, nb);
    if n > 1 {
      SamePath(disk, disk', path, depth, n - 1, 0, {nb});
    }
  }

  /** The upper levels of a path stay in place when their blocks do. */
  lemma SteadyOther(disk: Disk, path: seq<Level>, depth: nat, disk': Disk, m: nat)
    requires Steady(disk, path, depth) && 0 < m < |path|
    requires Formed(disk', path[0].buf.entries, depth)
    requires forall i | 1 <= i < m :: KeptBlock(disk', path, i)
    ensures Steady(disk', path[..m], depth)
  {
    var up := path[..m];
    forall i | 0 <= i < m - 1 ensures Linked(disk', up[i], up[i + 1]) {
      assert Linked(disk, path[i], path[i + 1]) && KeptBlock(disk', path, i + 1);
    }
    assert Linked(disk, path[m - 1], path[m]);
  }

  ghost predicate KeptBlock(disk: Disk, path: seq<Level>, i: nat) {
    && 0 < i < |path| && 0 <= path[i - 1].curr < |path[i - 1].buf.entries|
    && BlockAt(path, i) in disk && disk[BlockAt(path, i)] == path[i].buf
  }

  /** After the split, the handle stands on the entry of the new node in the parent. */
  lemma SplitUp(disk: Disk, path: seq<Level>, depth: nat, nb: nat, nodeMax: nat)
    requires Splittable(disk, path, depth, nb, nodeMax)
    ensures var n := |path| - 1; Steady(Cutting(disk, path, nb, nodeMax), path[..n - 1] + [Adopted(path[n - 1], Top(path), nb)], depth)
  {
    hide Formed, Foot, Keyed, Exact, Leaves;
    var n, t := |path| - 1, Top(path);
    SplitSame(disk, path, depth, nb, nodeMax);
    var disk', p := Cutting(disk, path, nb, nodeMax), Adopted(path[n - 1], t, nb);
    if n > 1 {
      forall i | 1 <= i < n - 1 ensures KeptBlock(disk', path, i) {
        BelowApart(disk, path, depth, i, 0);
        BelowApart(disk, path, depth, n - 1, i);
        BelowApart(disk, path, depth, n, i);
      }
      SteadyOther(disk, path, depth, disk', n - 1);
      assert Linked(disk, path[n - 2], path[n - 1]);
      BelowApart(disk, path, depth, n, n - 1);
      SteadyDown(disk', path[..n - 1], depth, p);
    }
  }

  /** The original entry is kept, in a node with room. */
  lemma KeptEntry(path: seq<Level>, nb: nat, nodeMax: nat)
    requires CanCut(path) && |Top(path).buf.entries| <= nodeMax
    ensures var l := Top(Kept(path, nb, nodeMax));
      0 <= l.curr < |l.buf.entries| && l.buf.entries[l.curr] == Top(path).buf.entries[Top(path).curr]
    ensures var l := Top(Kept(path, nb, nodeMax));
      |Top(path).buf.entries| <= Top(path).buf.max ==>
        |l.buf.entries| < l.buf.max && (6 <= Top(path).buf.max && 6 <= nodeMax ==> |l.buf.entries| + 1 < l.buf.max)
  {
    var t := Top(path);
    var es, k, c := t.buf.entries, Stay(|t.buf.entries|), t.curr;
    if c < k {
      assert es[..k][c] == es[c];
    } else {
      assert es[k..][c - k] == es[c];
    }
  }

  /** It is in the half that stays, or in the one that moves. */
  lemma KeptHalf(path: seq<Level>, nb: nat, nodeMax: nat)
    requires CanCut(path)
    ensures Halved(path, Kept(path, nb, nodeMax))
  {
  }

  /** After the split of a node, the one that holds its current entry: the root's entries all move down, of
      another node the first half stays, and the rest moves. */
  predicate Halved(before: seq<Level>, after: seq<Level>) {
    && before != [] && after != []
    && var t, l := Top(before), Top(after);
    if |before| == 1 then l.buf.entries == t.buf.entries
    else var n := |t.buf.entries| - |t.buf.entries| / 2;
      l.buf.entries == if t.curr < n then t.buf.entries[..n] else t.buf.entries[n..]
  }

  /** What lies below one entry is part of what lies below all. */
  lemma AgreeBelow(disk: Disk, disk': Disk, es: seq<Entry>, d: nat, c: nat)
    requires d > 0 && c < |es| && Formed(disk, es, d) && Agree(disk, disk', Foot(disk, es, d))
    ensures es[c].pblk in disk && es[c].pblk in disk' && disk'[es[c].pblk] == disk[es[c].pblk]
    ensures Agree(disk, disk', Foot(disk, disk[es[c].pblk].entries, d - 1))
  {
    hide Formed, Foot;
    KidFormed(disk, es, d, c);
  }

  lemma HalvedIs(before: seq<Level>, after: seq<Level>)
    requires Halved(before, after)
    ensures before != [] && after != []
    ensures |before| == 1 ==> Top(after).buf.entries == Top(before).buf.entries
    ensures |before| > 1 ==> var t := Top(before); var n := |t.buf.entries| - |t.buf.entries| / 2;
      Top(after).buf.entries == if t.curr < n then t.buf.entries[..n] else t.buf.entries[n..]
  {
  }

  lemma HalvedThen(path0: seq<Level>, path1: seq<Level>, path: seq<Level>)
    requires |path0| > 1 && |path1| > 1 && Top(path1).buf == Top(path0).buf && Top(path1).curr == Top(path0).curr
    ensures Halved(path1, path) ==> Halved(path0, path)
  {
  }

  lemma HalvedSame(path0: seq<Level>, path1: seq<Level>, path: seq<Level>)
    requires Halved(path0, path1) && path != [] && Top(path).buf == Top(path1).buf
    ensures Halved(path0, path)
  {
  }

  /** Its range ends where it did. */
  lemma KeptEnd(path: seq<Level>, nb: nat, nodeMax: nat)
    requires CanCut(path)
    ensures var l := Top(Kept(path, nb, nodeMax)); Placed(l) && l.curr >= 0 && EndOf(l) == EndOf(Top(path))
  {
  }

  /** The position of the original entry is one of the new tree. */
  lemma SplitKept(disk: Disk, path: seq<Level>, depth: nat, nb: nat, nodeMax: nat)
    requires Splittable(disk, path, depth, nb, nodeMax)
    ensures Steady(Cutting(disk, path, nb, nodeMax), Kept(path, nb, nodeMax), depth)
  {
    hide Formed, Foot, Keyed, Exact, Leaves, Same, Steady;
    SplitUp(disk, path, depth, nb, nodeMax);
    SplitBlocks(disk, path, depth, nb, nodeMax);
    var n, t := |path| - 1, Top(path);
    var disk', p, kept := Cutting(disk, path, nb, nodeMax), Adopted(path[n - 1], t, nb), Kept(path, nb, nodeMax);
    var up := path[..n - 1] + [p];
    var p3 := kept[n - 1];
    assert Placed(p3) && p3.curr >= 0 && p3.buf == p.buf && p3.end == p.end;
    SteadyMoved(disk', up, depth, p3);
    assert SetTop(up, p3) == path[..n - 1] + [p3];
    assert Linked(disk', p3, kept[n]);
    SteadyDown(disk', SetTop(up, p3), depth, kept[n]);
    assert kept == SetTop(up, p3) + [kept[n]];
  }

  /** Where the two halves are. */
  lemma SplitBlocks(disk: Disk, path: seq<Level>, depth: nat, nb: nat, nodeMax: nat)
    requires Splittable(disk, path, depth, nb, nodeMax)
    ensures var n, t, disk' := |path| - 1, Top(path), Cutting(disk, path, nb, nodeMax);
      var es, k := t.buf.entries, Stay(|t.buf.entries|);
      && nb in disk' && disk'[nb] == Node(nodeMax, es[k..])
      && BlockAt(path, n) in disk' && disk'[BlockAt(path, n)] == t.buf.(entries := es[..k])
      && |path| <= depth + 1 && |es| <= nodeMax && t.end == EndOf(path[n - 1])
  {
    hide Formed, Foot, Keyed, Exact, Leaves;
    var n := |path| - 1;
    assert Linked(disk, path[n - 1], path[n]);
    BelowApart(disk, path, depth, n, 0);
    BelowApart(disk, path, depth, n, n - 1);
    BelowApart(disk, path, depth, n - 1, 0);
  }

  // ---------- Any number of splits ----------

  /** The whole tree before and after: what it maps is the same, and every block taken from the free
      ones is a new node. */
  ghost predicate Evolved(disk: Disk, es: seq<Entry>, depth: nat, used: set<nat>, disk': Disk, es': seq<Entry>, depth': nat, used': set<nat>, splits: nat) {
    && Formed(disk', es', depth') && Leaves(disk', es', depth') == Leaves(disk, es, depth)
    && used <= used' && |used'| == |used| + splits
    && Foot(disk', es', depth') == Foot(disk, es, depth) + (used' - used)
    && (Exact(disk, es, depth) ==> Exact(disk', es', depth'))
    && (forall lo, hi | Keyed(disk, es, depth, lo, hi) :: Keyed(disk', es', depth', lo, hi))
    && (es != [] ==> es' != [])
  }

  lemma EvolvedIn(disk: Disk, es: seq<Entry>, depth: nat, used: set<nat>, disk': Disk, es': seq<Entry>, depth': nat, used': set<nat>, splits: nat)
    requires Evolved(disk, es, depth, used, disk', es', depth', used', splits)
    ensures used <= used'
  {
  }

  /** The nodes of the tree keep their capacities, and new ones have that of a block. */
  ghost predicate Sized(disk: Disk, foot: set<nat>, disk': Disk, foot': set<nat>, nodeMax: nat) {
    foot <= foot' && forall b | b in foot' :: b in disk' && (if b in foot then b in disk && disk'[b].max == disk[b].max else disk'[b].max == nodeMax)
  }

  lemma SizedNot(disk: Disk, foot: set<nat>, nodeMax: nat)
    requires forall b | b in foot :: b in disk
    ensures Sized(disk, foot, disk, foot, nodeMax)
  {
  }

  lemma SizedThen(disk: Disk, foot: set<nat>, disk1: Disk, foot1: set<nat>, disk2: Disk, foot2: set<nat>, nodeMax: nat)
    requires Sized(disk, foot, disk1, foot1, nodeMax) && Sized(disk1, foot1, disk2, foot2, nodeMax)
    ensures Sized(disk, foot, disk2, foot2, nodeMax)
  {
  }

  lemma EvolvedNot(disk: Disk, es: seq<Entry>, depth: nat, used: set<nat>)
    requires Formed(disk, es, depth)
    ensures Evolved(disk, es, depth, used, disk, es, depth, used, 0)
  {
  }

  lemma EvolvedThen(d0: Disk, e0: seq<Entry>, n0: nat, u0: set<nat>, d1: Disk, e1: seq<Entry>, n1: nat, u1: set<nat>, s1: nat,
                    d2: Disk, e2: seq<Entry>, n2: nat, u2: set<nat>, s2: nat)
    requires Evolved(d0, e0, n0, u0, d1, e1, n1, u1, s1) && Evolved(d1, e1, n1, u1, d2, e2, n2, u2, s2)
    ensures Evolved(d0, e0, n0, u0, d2, e2, n2, u2, s1 + s2)
  {
    hide Formed, Leaves, Foot, Exact, Keyed;
  }

  lemma SameEvolved(disk: Disk, es: seq<Entry>, d: nat, used: set<nat>, disk': Disk, es': seq<Entry>, nb: nat)
    requires Same(disk, es, disk', es', d, {nb}) && nb !in used
    ensures Evolved(disk, es, d, used, disk', es', d, used + {nb}, 1)
  {
    hide Formed, Leaves, Foot, Exact, Keyed;
  }

  lemma RootEvolved(disk: Disk, es: seq<Entry>, d: nat, used: set<nat>, nb: nat, nodeMax: nat)
    requires es != [] && Formed(disk, es, d) && Foot(disk, es, d) <= used && nb !in used && |es| <= nodeMax
    ensures Evolved(disk, es, d, used, disk[nb := Node(nodeMax, es)], [Index(es[0].lblk, nb)], d + 1, used + {nb}, 1)
  {
    hide Formed, Leaves, Foot, Exact, Keyed;
    FootOnDisk(disk, es, d);
    SplitRoot(disk, disk[nb := Node(nodeMax, es)], es, d, nb);
  }

  lemma AddOne(x: nat, a: nat, u: nat)
    ensures ((x + a * u) % U32 + u) % U32 == (x + (a + 1) * u) % U32
  {
    assert (a + 1) * u == a * u + u;
  }

  /** Maxima of nodes are kept by a split. */
  lemma CuttingMax(disk: Disk, path: seq<Level>, depth: nat, nb: nat, nodeMax: nat)
    requires Splittable(disk, path, depth, nb, nodeMax)
    requires forall b | b in Foot(disk, path[0].buf.entries, depth) :: b in disk
    ensures var disk' := Cutting(disk, path, nb, nodeMax);
      forall b | b in Foot(disk, path[0].buf.entries, depth) + {nb} :: b in disk' && disk'[b].max == if b == nb then nodeMax else disk[b].max
  {
    hide Formed, Foot, Keyed, Exact, Leaves;
    var n := |path| - 1;
    BelowApart(disk, path, depth, n, 0);
    if n > 1 {
      BelowApart(disk, path, depth, n - 1, 0);
    }
  }

  /** What lies below the node that is split stays where it is. */
  lemma CuttingBelow(disk: Disk, path: seq<Level>, depth: nat, nb: nat, nodeMax: nat)
    requires Splittable(disk, path, depth, nb, nodeMax)
    ensures Agree(disk, Cutting(disk, path, nb, nodeMax), Foot(disk, Top(path).buf.entries, depth - (|path| - 1)))
  {
    hide Formed, Foot, Keyed, Exact, Leaves;
    var n := |path| - 1;
    SteadyFormed(disk, path, depth, n);
    FootOnDisk(disk, path[n].buf.entries, depth - n);
    BelowApart(disk, path, depth, n, 0);
    BelowApart(disk, path, depth, n, n - 1);
    BelowApart(disk, path, depth, n - 1, 0);
  }

  /** The position in the new root and the node below it. */
  lemma RootKept(disk: Disk, path: seq<Level>, depth: nat, nb: nat, nodeMax: nat)
    requires Steady(disk, path, depth) && |path| == 1 && path[0].curr >= 0 && nb !in Foot(disk, path[0].buf.entries, depth)
    requires |path[0].buf.entries| <= nodeMax
    ensures var l := path[0]; var es := l.buf.entries;
      var root := Level(l.buf.(entries := [Index(es[0].lblk, nb)]), 0, 0, l.end, 0);
      && Steady(disk[nb := Node(nodeMax, es)], [root], depth + 1)
      && Steady(disk[nb := Node(nodeMax, es)], [root, Level(Node(nodeMax, es), |es| - 1 - l.curr, 0, l.end, l.curr)], depth + 1)
  {
    hide Formed, Foot, Keyed, Exact, Leaves;
    var l := path[0];
    var es := l.buf.entries;
    var disk' := disk[nb := Node(nodeMax, es)];
    FootOnDisk(disk, es, depth);
    SplitRoot(disk, disk', es, depth, nb);
    var root := Level(l.buf.(entries := [Index(es[0].lblk, nb)]), 0, 0, l.end, 0);
    var below := Level(Node(nodeMax, es), |es| - 1 - l.curr, 0, l.end, l.curr);
    assert Linked(disk', root, below);
  }

  lemma EvolvedUse(disk: Disk, es: seq<Entry>, depth: nat, used: set<nat>, disk': Disk, es': seq<Entry>, depth': nat, used': set<nat>, splits: nat, lo: nat, hi: nat)
    requires Evolved(disk, es, depth, used, disk', es', depth', used', splits)
    ensures Keyed(disk, es, depth, lo, hi) ==> Keyed(disk', es', depth', lo, hi)
    ensures Formed(disk', es', depth') && Foot(disk', es', depth') == Foot(disk, es, depth) + (used' - used)
    ensures Leaves(disk', es', depth') == Leaves(disk, es, depth)
  {
  }

  lemma EvolvedCount(disk: Disk, es: seq<Entry>, depth: nat, used: set<nat>, disk': Disk, es': seq<Entry>, depth': nat, used': set<nat>, splits: nat)
    requires Evolved(disk, es, depth, used, disk', es', depth', used', splits)
    ensures used <= used' && |used'| == |used| + splits && Foot(disk', es', depth') == Foot(disk, es, depth) + (used' - used)
  {
  }

  lemma AddMany(x: nat, a: nat, b: nat, u: nat)
    ensures ((x + a * u) % U32 + b * u) % U32 == (x + (a + b) * u) % U32
  {
    assert (a + b) * u == a * u + b * u;
  }

  /** A tree that stays in place twice. */
  lemma AgreeThen(d0: Disk, d1: Disk, d2: Disk, es: seq<Entry>, d: nat)
    requires Formed(d0, es, d) && Agree(d0, d1, Foot(d0, es, d)) && Agree(d1, d2, Foot(d1, es, d))
    ensures Agree(d0, d2, Foot(d0, es, d))
  {
    hide Formed, Foot, Keyed, Exact, Leaves;
    FrameSide(d0, d1, es, d);
  }

  /** The position below an entry that was found again. */
  lemma StepBelow(disk: Disk, path: seq<Level>, depth: nat, t: Level)
    requires Steady(disk, path, depth) && |path| <= depth && Top(path).curr >= 0 && Placed(t) && t.curr >= 0
    requires var p := Top(path).buf.entries[Top(path).curr].pblk; p in disk && disk[p] == t.buf
    ensures Steady(disk, path + [t.(visit := 0, end := EndOf(Top(path)))], depth)
  {
    hide Formed;
    SteadyDown(disk, path, depth, t.(visit := 0, end := EndOf(Top(path))));
  }
}
