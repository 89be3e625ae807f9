/**
 The partial function from logical blocks to physical ones that a list of leaf entries stands for,
 and what ext2fs_extent_set_bmap (source/extent.c) makes of such a list.
 */
module ExtentMap {
  import opened ExtentTree

  datatype Option<T> = None | Some(value: T)

  const InitMax: nat := 32768
  const UninitMax: nat := 32767

  /** Sorted, disjoint, non-empty runs in [lo, hi). */
  predicate Runs(es: seq<Entry>, lo: nat, hi: nat) {
    if es == [] then lo <= hi else
      lo <= es[0].lblk && es[0].len > 0 && es[0].lblk + es[0].len <= Next(es, hi) && Runs(es[1..], Next(es, hi), hi)
  }

  /** Block numbers have 48 bits. */
  const P48: nat := 0x1_0000_0000_0000

  /** Within the length limits, and at real blocks. */
  predicate Fits(e: Entry) { e.pblk > 0 && e.pblk + e.len <= P48 && e.len <= if e.uninit then UninitMax else InitMax }

  predicate AllFit(es: seq<Entry>) { forall i | 0 <= i < |es| :: Fits(es[i]) }

  lemma {:induction false} KeyedRuns(disk: Disk, es: seq<Entry>, lo: nat, hi: nat)
    ensures Keyed(disk, es, 0, lo, hi) <==> Runs(es, lo, hi)
  {
    if es != [] {
      KeyedRuns(disk, es[1..], Next(es, hi), hi);
    }
  }

  /** The length field of a leaf entry on disk: its top bit marks an uninitialised run. */
  function RawLen(e: Entry): nat { e.len + if e.uninit then InitMax else 0 }

  function FromRaw(e: Entry, raw: nat): Entry {
    if raw > InitMax then e.(len := raw - InitMax, uninit := true) else e.(len := raw, uninit := false)
  }

  /** An entry reads back as it was written exactly when it is not an empty uninitialised run; an
      initialised one must also stay within its limit. */
  lemma RawExact(e: Entry)
    ensures FromRaw(e, RawLen(e)) == e <==> if e.uninit then e.len > 0 else e.len <= InitMax
    ensures Fits(e) && e.len > 0 ==> FromRaw(e, RawLen(e)) == e && RawLen(e) < 0x1_0000
  {
  }

  /** The physical block and the state of a logical block. */
  function At(es: seq<Entry>, l: nat): Option<(nat, bool)> {
    if es == [] then None
    else if Covers(es[0], l) then Some((es[0].pblk + (l - es[0].lblk), es[0].uninit))
    else At(es[1..], l)
  }

  lemma {:induction false} AtCat(a: seq<Entry>, b: seq<Entry>, l: nat)
    ensures At(a + b, l) == if At(a, l) != None then At(a, l) else At(b, l)
  {
    if a == [] {
      assert a + b == b;
    } else {
      AtCat(a[1..], b, l);
      assert (a + b)[1..] == a[1..] + b;
    }
  }

  lemma {:induction false} RunsCat(a: seq<Entry>, b: seq<Entry>, lo: nat, hi: nat)
    requires a != [] || b == [] || lo == b[0].lblk
    ensures Runs(a + b, lo, hi) <==> Runs(a, lo, Then(b, hi)) && Runs(b, Then(b, hi), hi)
  {
    KeyedRuns(map[], a + b, lo, hi);
    KeyedRuns(map[], a, lo, Then(b, hi));
    KeyedRuns(map[], b, Then(b, hi), hi);
    KeyedCat(map[], a, b, 0, lo, hi);
  }

  lemma {:induction false} RunsBounds(es: seq<Entry>, lo: nat, hi: nat)
    requires Runs(es, lo, hi)
    ensures lo <= hi && (forall l: nat | l < lo || l >= hi :: At(es, l) == None)
    ensures forall e | e in es :: lo <= e.lblk && e.lblk + e.len <= hi
  {
    if es != [] {
      RunsBounds(es[1..], Next(es, hi), hi);
    }
  }

  /** Where a list of runs ends. */
  function Ends(es: seq<Entry>): nat
    requires es != []
  {
    es[|es| - 1].lblk + es[|es| - 1].len
  }

  lemma {:induction false} RunsShrink(es: seq<Entry>, lo: nat, hi: nat, hi': nat)
    requires Runs(es, lo, hi) && es != [] && Ends(es) <= hi'
    ensures Runs(es, lo, hi') && lo < Ends(es) <= hi
  {
    if |es| > 1 {
      RunsShrink(es[1..], Next(es, hi), hi, hi');
    } else {
      assert es[1..] == [];
    }
  }

  /** A part of a list of runs. */
  lemma RunsPart(a: seq<Entry>, m: seq<Entry>, b: seq<Entry>, lo: nat, hi: nat)
    requires Runs(a + m + b, lo, hi) && m != []
    ensures Runs(m, m[0].lblk, Ends(m)) && lo <= m[0].lblk && Ends(m) <= hi
    ensures forall e | e in a :: e.lblk + e.len <= m[0].lblk
    ensures forall e | e in b :: Ends(m) <= e.lblk
  {
    assert a + m + b == a + (m + b);
    if a == [] {
      assert a + (m + b) == m + b;
      RunsRaise(m + b, lo, hi);
    } else {
      RunsCat(a, m + b, lo, hi);
      RunsBounds(a, lo, m[0].lblk);
      RunsShrink(a, lo, m[0].lblk, m[0].lblk);
    }
    RunsCat(m, b, m[0].lblk, hi);
    RunsShrink(m, m[0].lblk, Then(b, hi), Ends(m));
    RunsBounds(b, Then(b, hi), hi);
  }

  // ---------- The six cases ----------

  function Fresh(l: nat, p: nat, uninit: bool): Entry { Entry(l, p, 1, uninit) }

  function MaxLen(uninit: bool): nat { if uninit then UninitMax else InitMax }

  predicate AppendsTo(e: Entry, l: nat, p: nat, uninit: bool) {
    l == e.lblk + e.len && p == e.pblk + e.len && uninit == e.uninit && e.len < MaxLen(uninit) - 1
  }

  predicate PrependsTo(e: Entry, l: nat, p: nat, uninit: bool) {
    l == e.lblk - 1 && p == e.pblk - 1 && uninit == e.uninit && e.len < MaxLen(uninit) - 1
  }

  function Appended(e: Entry): Entry { e.(len := e.len + 1) }

  function Prepended(e: Entry): (r: Entry)
    requires e.lblk > 0 && e.pblk > 0
  {
    e.(lblk := e.lblk - 1, pblk := e.pblk - 1, len := e.len + 1)
  }

  function NoFirst(e: Entry): Entry
    requires e.len > 0
  {
    e.(lblk := e.lblk + 1, pblk := e.pblk + 1, len := e.len - 1)
  }

  function NoLast(e: Entry): Entry
    requires e.len > 0
  {
    e.(len := e.len - 1)
  }

  function Before(e: Entry, l: nat): Entry
    requires Covers(e, l)
  {
    e.(len := l - e.lblk)
  }

  function After(e: Entry, l: nat): Entry
    requires Covers(e, l)
  {
    e.(lblk := l + 1, pblk := e.pblk + (l - e.lblk) + 1, len := e.lblk + e.len - l - 1)
  }

  /** The new entry, or nothing when the block is unmapped. */
  function Bit(l: nat, p: nat, uninit: bool): seq<Entry> { if p == 0 then [] else [Fresh(l, p, uninit)] }

  /** a are the entries before e, and b those after it; the first of b counts as a neighbour only if
      it has been seen. */
  function SetAt(a: seq<Entry>, e: Entry, b: seq<Entry>, l: nat, p: nat, uninit: bool, seen: bool): seq<Entry>
    requires e.len > 0 && e.pblk > 0 && (b != [] ==> b[0].pblk > 0)
  {
    if !Covers(e, l) then
      if p == 0 then a + [e] + b
      else if AppendsTo(e, l, p, uninit) then a + [Appended(e)] + b
      else if PrependsTo(e, l, p, uninit) then a + [Prepended(e)] + b
      else if seen && b != [] && PrependsTo(b[0], l, p, uninit) then a + [e] + [Prepended(b[0])] + b[1..]
      else if l < e.lblk then a + [Fresh(l, p, uninit)] + [e] + b
      else a + [e] + [Fresh(l, p, uninit)] + b
    else if uninit == e.uninit && e.pblk + (l - e.lblk) == p then a + [e] + b
    else if e.len == 1 then a + Bit(l, p, uninit) + b
    else if l == e.lblk + e.len - 1 then
      if p != 0 && seen && b != [] && PrependsTo(b[0], l, p, uninit) then a + [NoLast(e)] + [Prepended(b[0])] + b[1..]
      else a + [NoLast(e)] + Bit(l, p, uninit) + b
    else if l == e.lblk then
      if p != 0 && a != [] && AppendsTo(a[|a| - 1], l, p, uninit) then a[..|a| - 1] + [Appended(a[|a| - 1])] + [NoFirst(e)] + b
      else a + Bit(l, p, uninit) + [NoFirst(e)] + b
    else a + [Before(e, l)] + Bit(l, p, uninit) + [After(e, l)] + b
  }

  /** e is where the descent for l ends: the entries after it start beyond l, and those before it end
      before l, even if e itself starts beyond l. */
  predicate Around(a: seq<Entry>, e: Entry, b: seq<Entry>, l: nat) {
    (a != [] && l < e.lblk ==> Ends(a) <= l) && (b != [] ==> l < b[0].lblk)
  }

  function Wanted(p: nat, uninit: bool): Option<(nat, bool)> { if p == 0 then None else Some((p, uninit)) }

  // ---------- Each case is right ----------

  lemma AtOne(e: Entry, k: nat)
    ensures At([e], k) == if Covers(e, k) then Some((e.pblk + (k - e.lblk), e.uninit)) else None
  {
    assert [e][1..] == [];
  }

  /** Replacing a middle part: what matters is the middle, and that the parts do not overlap. */
  lemma AtMiddle(a: seq<Entry>, m: seq<Entry>, b: seq<Entry>, k: nat)
    ensures At(a + m + b, k) == if At(a, k) != None then At(a, k) else if At(m, k) != None then At(m, k) else At(b, k)
  {
    AtCat(a + m, b, k);
    AtCat(a, m, k);
  }

  /** Runs of a + m + b, part by part: m lies in [x, y), a ends by x and b starts from y. */
  predicate Parts(a: seq<Entry>, m: seq<Entry>, b: seq<Entry>, lo: nat, x: nat, y: nat, hi: nat) {
    lo <= x <= y <= hi && Runs(a, lo, x) && Runs(m, x, y) && Runs(b, y, hi)
  }

  lemma {:induction false} RunsWiden(es: seq<Entry>, lo: nat, hi: nat, lo': nat, hi': nat)
    requires Runs(es, lo, hi) && lo' <= lo && hi <= hi'
    ensures Runs(es, lo', hi')
  {
    if |es| > 1 {
      RunsWiden(es[1..], Next(es, hi), hi, Next(es, hi'), hi');
    }
  }

  lemma {:induction false} RunsJoin(a: seq<Entry>, b: seq<Entry>, lo: nat, x: nat, hi: nat)
    requires Runs(a, lo, x) && Runs(b, x, hi)
    ensures Runs(a + b, lo, hi)
  {
    RunsBounds(a, lo, x);
    RunsBounds(b, x, hi);
    if a == [] {
      assert a + b == b;
      RunsWiden(b, x, hi, lo, hi);
    } else if b == [] {
      assert a + b == a;
      RunsWiden(a, lo, x, lo, hi);
    } else {
      RunsWiden(a, lo, x, lo, b[0].lblk);
      RunsRaise(b, x, hi);
      RunsCat(a, b, lo, hi);
    }
  }

  lemma RunsRaise(es: seq<Entry>, lo: nat, hi: nat)
    requires Runs(es, lo, hi) && es != []
    ensures Runs(es, es[0].lblk, hi)
  {
  }

  /** If the new middle stays between its neighbours, the whole is in order, and other blocks keep
      their mapping when they do in the middle. */
  lemma PartsJoin(a: seq<Entry>, m: seq<Entry>, b: seq<Entry>, lo: nat, x: nat, y: nat, hi: nat)
    requires Parts(a, m, b, lo, x, y, hi)
    ensures Runs(a + m + b, lo, hi)
    ensures forall k: nat :: At(a + m + b, k) == if k < x then At(a, k) else if k < y then At(m, k) else At(b, k)
  {
    RunsJoin(a, m, lo, x, y);
    RunsJoin(a + m, b, lo, y, hi);
    RunsBounds(a, lo, x);
    RunsBounds(m, x, y);
    RunsBounds(b, y, hi);
    forall k: nat ensures At(a + m + b, k) == if k < x then At(a, k) else if k < y then At(m, k) else At(b, k) {
      AtMiddle(a, m, b, k);
    }
  }

  /** Where the middle may lie. */
  function Low(a: seq<Entry>, e: Entry, lo: nat, l: nat): nat { if a == [] then lo else if l < e.lblk then l else e.lblk }

  lemma PartsOf(a: seq<Entry>, e: Entry, b: seq<Entry>, lo: nat, hi: nat, l: nat)
    requires Runs(a + [e] + b, lo, hi) && (a != [] && l < e.lblk ==> Ends(a) <= l)
    ensures Parts(a, [e], b, lo, Low(a, e, lo, l), Then(b, hi), hi) && e.len > 0
    ensures lo <= e.lblk && e.lblk + e.len <= Then(b, hi) && Low(a, e, lo, l) <= e.lblk
  {
    assert a + [e] + b == a + ([e] + b);
    var t := [e] + b;
    if a == [] {
      assert a + t == t;
    } else {
      RunsCat(a, t, lo, hi);
    }
    assert t[1..] == b && Next(t, hi) == Then(b, hi);
    assert [e][1..] == [];
    if a != [] && l < e.lblk {
      RunsShrink(a, lo, e.lblk, l);
    }
    RunsBounds(a, lo, Low(a, e, lo, l));
    RunsBounds(b, Then(b, hi), hi);
    RunsOne(e, Low(a, e, lo, l), Then(b, hi));
  }

  /** The list stands for the map with l set. */
  ghost predicate Sets(before: seq<Entry>, after: seq<Entry>, l: nat, p: nat, uninit: bool, lo: nat, hi: nat) {
    Runs(after, lo, hi) && forall k: nat :: At(after, k) == if k == l then Wanted(p, uninit) else At(before, k)
  }

  /** The cases that only touch e. */
  lemma MiddleSets(a: seq<Entry>, e: Entry, b: seq<Entry>, m: seq<Entry>, l: nat, p: nat, uninit: bool, lo: nat, hi: nat)
    requires Runs(a + [e] + b, lo, hi) && Around(a, e, b, l) && lo <= l < hi
    requires Runs(m, Low(a, e, lo, l), Then(b, hi))
    requires forall k: nat | Low(a, e, lo, l) <= k < Then(b, hi) :: At(m, k) == if k == l then Wanted(p, uninit) else At([e], k)
    ensures Sets(a + [e] + b, a + m + b, l, p, uninit, lo, hi)
  {
    hide Runs, At;
    PartsOf(a, e, b, lo, hi, l);
    PartsJoin(a, [e], b, lo, Low(a, e, lo, l), Then(b, hi), hi);
    PartsJoin(a, m, b, lo, Low(a, e, lo, l), Then(b, hi), hi);
  }

  lemma AtTwo(m: Entry, n: Entry, k: nat)
    ensures At([m, n], k) == if Covers(m, k) then At([m], k) else At([n], k)
  {
    AtOne(m, k);
    AtOne(n, k);
    assert [m, n][1..] == [n];
  }

  lemma RunsOne(e: Entry, lo: nat, hi: nat)
    ensures Runs([e], lo, hi) <==> lo <= e.lblk && e.len > 0 && e.lblk + e.len <= hi
    ensures Runs([], lo, hi) <==> lo <= hi
  {
    assert [e][1..] == [];
  }

  lemma RunsTwo(e: Entry, f: Entry, lo: nat, hi: nat)
    requires lo <= e.lblk && e.len > 0 && e.lblk + e.len <= f.lblk && f.len > 0 && f.lblk + f.len <= hi
    ensures Runs([e] + [f], lo, hi)
  {
    RunsOne(e, lo, f.lblk);
    RunsOne(f, f.lblk, hi);
    RunsJoin([e], [f], lo, f.lblk, hi);
  }

  /** Merging into the next entry. */
  lemma NextSets(a: seq<Entry>, e: Entry, b: seq<Entry>, m: seq<Entry>, l: nat, p: nat, uninit: bool, lo: nat, hi: nat)
    requires Runs(a + [e] + b, lo, hi) && Around(a, e, b, l) && lo <= l < hi && p > 0 && b != [] && b[0].pblk > 0
    requires PrependsTo(b[0], l, p, uninit) && Runs(m, Low(a, e, lo, l), l) && l >= Low(a, e, lo, l)
    requires forall k: nat | Low(a, e, lo, l) <= k < l :: At(m, k) == At([e], k)
    requires e.lblk + e.len <= l + 1
    ensures Sets(a + [e] + b, a + m + [Prepended(b[0])] + b[1..], l, p, uninit, lo, hi)
  {
    PartsOf(a, e, b, lo, hi, l);
    var c := [Prepended(b[0])] + b[1..];
    assert a + m + [Prepended(b[0])] + b[1..] == a + m + c;
    assert c[1..] == b[1..] && Next(c, hi) == Next(b, hi);
    assert Runs(c, l, hi);
    PartsJoin(a, [e], b, lo, Low(a, e, lo, l), Then(b, hi), hi);
    PartsJoin(a, m, c, lo, Low(a, e, lo, l), l, hi);
    forall k: nat ensures At(a + m + c, k) == if k == l then Wanted(p, uninit) else At(a + [e] + b, k) {
      AtOne(e, k);
    }
  }

  /** Merging into the previous entry. */
  lemma PrevSets(a: seq<Entry>, e: Entry, b: seq<Entry>, l: nat, p: nat, uninit: bool, lo: nat, hi: nat)
    requires Runs(a + [e] + b, lo, hi) && lo <= l < hi && p > 0 && a != [] && l == e.lblk && e.len > 1
    requires AppendsTo(a[|a| - 1], l, p, uninit)
    ensures Sets(a + [e] + b, a[..|a| - 1] + [Appended(a[|a| - 1])] + [NoFirst(e)] + b, l, p, uninit, lo, hi)
  {
    hide Runs, At;
    PartsOf(a, e, b, lo, hi, l);
    var z, y := a[..|a| - 1], a[|a| - 1];
    var c := z + [Appended(y)];
    assert z + [y] + [] == a && z + [Appended(y)] + [] == c;
    PartsOf(z, y, [], lo, l, l);
    RunsOne(Appended(y), Low(z, y, lo, l), l + 1);
    RunsOne(y, l + 1, l + 1);
    PartsJoin(z, [y], [], lo, Low(z, y, lo, l), l, l);
    PartsJoin(z, [Appended(y)], [], lo, Low(z, y, lo, l), l + 1, l + 1);
    RunsOne(NoFirst(e), l + 1, Then(b, hi));
    RunsBounds(b, Then(b, hi), hi);
    PartsJoin(a, [e], b, lo, l, Then(b, hi), hi);
    PartsJoin(c, [NoFirst(e)], b, lo, l + 1, Then(b, hi), hi);
    PrevAt(a, e, b, z, y, c, l, p, uninit, lo, hi);
  }

  lemma PrevAt(a: seq<Entry>, e: Entry, b: seq<Entry>, z: seq<Entry>, y: Entry, c: seq<Entry>, l: nat, p: nat, uninit: bool, lo: nat, hi: nat)
    requires AppendsTo(y, l, p, uninit) && p > 0 && l == e.lblk && e.len > 1 && Low(z, y, lo, l) <= y.lblk && y.len > 0
    requires Low(z, y, lo, l) <= l < Then(b, hi)
    requires forall k: nat :: At(a, k) == if k < Low(z, y, lo, l) then At(z, k) else if k < l then At([y], k) else At([], k)
    requires forall k: nat :: At(c, k) == if k < Low(z, y, lo, l) then At(z, k) else if k < l + 1 then At([Appended(y)], k) else At([], k)
    requires forall k: nat :: At(a + [e] + b, k) == if k < l then At(a, k) else if k < Then(b, hi) then At([e], k) else At(b, k)
    requires forall k: nat :: At(c + [NoFirst(e)] + b, k) == if k < l + 1 then At(c, k) else if k < Then(b, hi) then At([NoFirst(e)], k) else At(b, k)
    ensures forall k: nat :: At(c + [NoFirst(e)] + b, k) == if k == l then Wanted(p, uninit) else At(a + [e] + b, k)
  {
    forall k: nat ensures At(c + [NoFirst(e)] + b, k) == if k == l then Wanted(p, uninit) else At(a + [e] + b, k) {
      AtOne(y, k);
      AtOne(Appended(y), k);
      AtOne(e, k);
      AtOne(NoFirst(e), k);
      hide At;
    }
  }

  lemma SameFit(a: seq<Entry>, m: seq<Entry>, b: seq<Entry>)
    ensures AllFit(a + m + b) <==> AllFit(a) && AllFit(m) && AllFit(b)
  {
    var t := a + m + b;
    if AllFit(t) {
      forall i | 0 <= i < |a| ensures Fits(a[i]) { assert t[i] == a[i]; }
      forall i | 0 <= i < |m| ensures Fits(m[i]) { assert t[|a| + i] == m[i]; }
      forall i | 0 <= i < |b| ensures Fits(b[i]) { assert t[|a| + |m| + i] == b[i]; }
    }
  }

  /** In every case the list stays in order and within its limits, and exactly block l changes. */
  lemma SetAtRight(a: seq<Entry>, e: Entry, b: seq<Entry>, l: nat, p: nat, uninit: bool, seen: bool, lo: nat, hi: nat)
    requires Runs(a + [e] + b, lo, hi) && AllFit(a + [e] + b) && Around(a, e, b, l) && lo <= l < hi && e.len > 0
    ensures e.pblk > 0 && (b != [] ==> b[0].pblk > 0)
    ensures Sets(a + [e] + b, SetAt(a, e, b, l, p, uninit, seen), l, p, uninit, lo, hi)
  {
    SameFit(a, [e], b);
    assert Fits([e][0]) && (b != [] ==> Fits(b[0]));
    PartsOf(a, e, b, lo, hi, l);
    if !Covers(e, l) {
      UnmappedSets(a, e, b, l, p, uninit, seen, lo, hi);
    } else {
      MappedSets(a, e, b, l, p, uninit, seen, lo, hi);
    }
  }

  lemma UnmappedSets(a: seq<Entry>, e: Entry, b: seq<Entry>, l: nat, p: nat, uninit: bool, seen: bool, lo: nat, hi: nat)
    requires Runs(a + [e] + b, lo, hi) && Around(a, e, b, l) && lo <= l < hi && e.len > 0 && !Covers(e, l)
    requires e.pblk > 0 && (b != [] ==> b[0].pblk > 0)
    ensures Sets(a + [e] + b, SetAt(a, e, b, l, p, uninit, seen), l, p, uninit, lo, hi)
  {
    hide Runs, At, Sets;
    PartsOf(a, e, b, lo, hi, l);
    var x, y := Low(a, e, lo, l), Then(b, hi);
    forall k: nat ensures At([e], k) == if Covers(e, k) then Some((e.pblk + (k - e.lblk), e.uninit)) else None {
      AtOne(e, k);
    }
    if p == 0 {
      MiddleSets(a, e, b, [e], l, p, uninit, lo, hi);
    } else if AppendsTo(e, l, p, uninit) {
      RunsOne(Appended(e), x, y);
      AtEach(Appended(e));
      MiddleSets(a, e, b, [Appended(e)], l, p, uninit, lo, hi);
    } else if PrependsTo(e, l, p, uninit) {
      RunsOne(Prepended(e), x, y);
      AtEach(Prepended(e));
      MiddleSets(a, e, b, [Prepended(e)], l, p, uninit, lo, hi);
    } else if seen && b != [] && PrependsTo(b[0], l, p, uninit) {
      if e.lblk + e.len <= l {
        RunsOne(e, x, l);
        NextSets(a, e, b, [e], l, p, uninit, lo, hi);
      } else {
        NextAway(a, e, b, l, p, uninit, lo, hi);
      }
    } else {
      var n := Fresh(l, p, uninit);
      AtEach(n);
      if l < e.lblk {
        RunsTwo(n, e, x, y);
        AtEachTwo(n, e);
        Regroup(a, [n], [e], b);
        MiddleSets(a, e, b, [n] + [e], l, p, uninit, lo, hi);
      } else {
        RunsTwo(e, n, x, y);
        AtEachTwo(e, n);
        Regroup(a, [e], [n], b);
        MiddleSets(a, e, b, [e] + [n], l, p, uninit, lo, hi);
      }
    }
  }

  /** An unmapped block before e cannot touch the entry after e. */
  lemma NextAway(a: seq<Entry>, e: Entry, b: seq<Entry>, l: nat, p: nat, uninit: bool, lo: nat, hi: nat)
    requires Runs(a + [e] + b, lo, hi) && b != [] && e.len > 0 && l < e.lblk + e.len && !Covers(e, l)
    ensures !PrependsTo(b[0], l, p, uninit)
  {
    PartsOf(a, e, b, lo, hi, e.lblk);
  }

  lemma AtEach(e: Entry)
    ensures forall k: nat :: At([e], k) == if Covers(e, k) then Some((e.pblk + (k - e.lblk), e.uninit)) else None
  {
    forall k: nat ensures At([e], k) == if Covers(e, k) then Some((e.pblk + (k - e.lblk), e.uninit)) else None {
      AtOne(e, k);
    }
  }

  lemma AtEachTwo(m: Entry, n: Entry)
    ensures forall k: nat :: At([m] + [n], k) == if Covers(m, k) then At([m], k) else At([n], k)
  {
    forall k: nat ensures At([m] + [n], k) == if Covers(m, k) then At([m], k) else At([n], k) {
      AtTwo(m, n, k);
      assert [m] + [n] == [m, n];
    }
  }

  lemma Regroup(a: seq<Entry>, m: seq<Entry>, n: seq<Entry>, b: seq<Entry>)
    ensures a + m + n + b == a + (m + n) + b
  {
  }

  lemma Regroup3(a: seq<Entry>, m: seq<Entry>, n: seq<Entry>, o: seq<Entry>, b: seq<Entry>)
    ensures a + m + n + o + b == a + (m + (n + o)) + b
  {
  }

  lemma MappedSets(a: seq<Entry>, e: Entry, b: seq<Entry>, l: nat, p: nat, uninit: bool, seen: bool, lo: nat, hi: nat)
    requires Runs(a + [e] + b, lo, hi) && Around(a, e, b, l) && lo <= l < hi && e.len > 0 && Covers(e, l)
    requires e.pblk > 0 && (b != [] ==> b[0].pblk > 0)
    ensures Sets(a + [e] + b, SetAt(a, e, b, l, p, uninit, seen), l, p, uninit, lo, hi)
  {
    hide Runs, At, Sets;
    PartsOf(a, e, b, lo, hi, l);
    var x, y, n := Low(a, e, lo, l), Then(b, hi), Bit(l, p, uninit);
    if uninit == e.uninit && e.pblk + (l - e.lblk) == p {
      AtEach(e);
      MiddleSets(a, e, b, [e], l, p, uninit, lo, hi);
    } else if e.len == 1 {
      AtEach(e);
      BitRuns(l, p, uninit, x, y);
      MiddleSets(a, e, b, n, l, p, uninit, lo, hi);
    } else if l == e.lblk + e.len - 1 {
      LastSets(a, e, b, l, p, uninit, seen, lo, hi);
    } else if l == e.lblk {
      FirstSets(a, e, b, l, p, uninit, seen, lo, hi);
    } else {
      InnerSets(a, e, b, l, p, uninit, seen, lo, hi);
    }
  }

  /** The last of several blocks. */
  lemma LastSets(a: seq<Entry>, e: Entry, b: seq<Entry>, l: nat, p: nat, uninit: bool, seen: bool, lo: nat, hi: nat)
    requires Runs(a + [e] + b, lo, hi) && Around(a, e, b, l) && lo <= l < hi && e.len > 1 && l == e.lblk + e.len - 1
    requires e.pblk > 0 && (b != [] ==> b[0].pblk > 0) && !(uninit == e.uninit && e.pblk + (l - e.lblk) == p)
    ensures Sets(a + [e] + b, SetAt(a, e, b, l, p, uninit, seen), l, p, uninit, lo, hi)
  {
    hide Runs, At, Sets;
    PartsOf(a, e, b, lo, hi, l);
    var x, y, n := Low(a, e, lo, l), Then(b, hi), Bit(l, p, uninit);
    AtEach(e);
    AtEach(NoLast(e));
    RunsOne(NoLast(e), x, l);
    if p != 0 && seen && b != [] && PrependsTo(b[0], l, p, uninit) {
      NextSets(a, e, b, [NoLast(e)], l, p, uninit, lo, hi);
    } else {
      BitRuns(l, p, uninit, l, y);
      RunsJoin([NoLast(e)], n, x, l, y);
      AtCatAll([NoLast(e)], n);
      Regroup(a, [NoLast(e)], n, b);
      MiddleSets(a, e, b, [NoLast(e)] + n, l, p, uninit, lo, hi);
    }
  }

  /** The first of several blocks. */
  lemma FirstSets(a: seq<Entry>, e: Entry, b: seq<Entry>, l: nat, p: nat, uninit: bool, seen: bool, lo: nat, hi: nat)
    requires Runs(a + [e] + b, lo, hi) && Around(a, e, b, l) && lo <= l < hi && e.len > 1 && l == e.lblk
    requires e.pblk > 0 && (b != [] ==> b[0].pblk > 0) && !(uninit == e.uninit && e.pblk == p)
    ensures Sets(a + [e] + b, SetAt(a, e, b, l, p, uninit, seen), l, p, uninit, lo, hi)
  {
    hide Runs, At, Sets;
    PartsOf(a, e, b, lo, hi, l);
    var x, y, n := Low(a, e, lo, l), Then(b, hi), Bit(l, p, uninit);
    if p != 0 && a != [] && AppendsTo(a[|a| - 1], l, p, uninit) {
      PrevSets(a, e, b, l, p, uninit, lo, hi);
    } else {
      AtEach(e);
      AtEach(NoFirst(e));
      BitRuns(l, p, uninit, x, l + 1);
      RunsOne(NoFirst(e), l + 1, y);
      RunsJoin(n, [NoFirst(e)], x, l + 1, y);
      AtCatAll(n, [NoFirst(e)]);
      Regroup(a, n, [NoFirst(e)], b);
      MiddleSets(a, e, b, n + [NoFirst(e)], l, p, uninit, lo, hi);
    }
  }

  /** A block in the middle. */
  lemma InnerSets(a: seq<Entry>, e: Entry, b: seq<Entry>, l: nat, p: nat, uninit: bool, seen: bool, lo: nat, hi: nat)
    requires Runs(a + [e] + b, lo, hi) && Around(a, e, b, l) && lo <= l < hi && e.lblk < l < e.lblk + e.len - 1
    requires e.pblk > 0 && (b != [] ==> b[0].pblk > 0) && !(uninit == e.uninit && e.pblk + (l - e.lblk) == p)
    ensures Sets(a + [e] + b, SetAt(a, e, b, l, p, uninit, seen), l, p, uninit, lo, hi)
  {
    hide Runs, At, Sets;
    PartsOf(a, e, b, lo, hi, l);
    var x, y, n := Low(a, e, lo, l), Then(b, hi), Bit(l, p, uninit);
    AtEach(e);
    AtEach(Before(e, l));
    AtEach(After(e, l));
    RunsOne(Before(e, l), x, l);
    BitRuns(l, p, uninit, l, l + 1);
    RunsOne(After(e, l), l + 1, y);
    RunsJoin(n, [After(e, l)], l, l + 1, y);
    RunsJoin([Before(e, l)], n + [After(e, l)], x, l, y);
    AtCatAll(n, [After(e, l)]);
    AtCatAll([Before(e, l)], n + [After(e, l)]);
    Regroup3(a, [Before(e, l)], n, [After(e, l)], b);
    MiddleSets(a, e, b, [Before(e, l)] + (n + [After(e, l)]), l, p, uninit, lo, hi);
  }

  lemma BitRuns(l: nat, p: nat, uninit: bool, lo: nat, hi: nat)
    requires lo <= l < hi
    ensures Runs(Bit(l, p, uninit), lo, hi)
    ensures forall k: nat :: At(Bit(l, p, uninit), k) == if k == l then Wanted(p, uninit) else None
  {
    if p != 0 {
      RunsOne(Fresh(l, p, uninit), lo, hi);
      AtEach(Fresh(l, p, uninit));
    }
  }

  lemma AtCatAll(a: seq<Entry>, b: seq<Entry>)
    ensures forall k: nat :: At(a + b, k) == if At(a, k) != None then At(a, k) else At(b, k)
  {
    forall k: nat ensures At(a + b, k) == if At(a, k) != None then At(a, k) else At(b, k) {
      AtCat(a, b, k);
    }
  }

  predicate OneFits(m: seq<Entry>) { forall e | e in m :: Fits(e) }

  lemma FitIff(m: seq<Entry>)
    ensures AllFit(m) <==> OneFits(m)
  {
    if AllFit(m) {
      forall e | e in m ensures Fits(e) {
        var i :| 0 <= i < |m| && m[i] == e;
      }
    }
  }

  /** The length limits are kept. */
  lemma SetAtFits(a: seq<Entry>, e: Entry, b: seq<Entry>, l: nat, p: nat, uninit: bool, seen: bool)
    requires AllFit(a + [e] + b) && e.len > 0 && p < P48
    ensures e.pblk > 0 && (b != [] ==> b[0].pblk > 0)
    ensures AllFit(SetAt(a, e, b, l, p, uninit, seen))
  {
    hide AllFit;
    FitIff(a + [e] + b);
    FitParts(a, e, b);
    if Covers(e, l) {
      MappedFits(a, e, b, l, p, uninit, seen);
    } else {
      UnmappedFits(a, e, b, l, p, uninit, seen);
    }
    FitIff(SetAt(a, e, b, l, p, uninit, seen));
  }

  lemma FitParts(a: seq<Entry>, e: Entry, b: seq<Entry>)
    requires OneFits(a + [e] + b)
    ensures OneFits(a) && Fits(e) && OneFits(b) && (b != [] ==> Fits(b[0]) && OneFits(b[1..])) && (a != [] ==> Fits(a[|a| - 1]) && OneFits(a[..|a| - 1]))
  {
    assert e in a + [e] + b;
    assert forall x | x in a || x in b :: x in a + [e] + b;
  }

  lemma UnmappedFits(a: seq<Entry>, e: Entry, b: seq<Entry>, l: nat, p: nat, uninit: bool, seen: bool)
    requires OneFits(a + [e] + b) && e.len > 0 && p < P48 && !Covers(e, l) && e.pblk > 0 && (b != [] ==> b[0].pblk > 0)
    ensures OneFits(SetAt(a, e, b, l, p, uninit, seen))
  {
    FitParts(a, e, b);
  }

  lemma MappedFits(a: seq<Entry>, e: Entry, b: seq<Entry>, l: nat, p: nat, uninit: bool, seen: bool)
    requires OneFits(a + [e] + b) && e.len > 0 && p < P48 && Covers(e, l) && e.pblk > 0 && (b != [] ==> b[0].pblk > 0)
    ensures OneFits(SetAt(a, e, b, l, p, uninit, seen))
  {
    FitParts(a, e, b);
  }

  /** When there is no room for the second half of an entry, its blocks after l are lost, and l itself
      unless its new entry is there; every other block keeps its mapping. */
  ghost predicate Torn(before: seq<Entry>, after: seq<Entry>, e: Entry, l: nat, there: Option<(nat, bool)>) {
    forall k: nat :: At(after, k) == if k == l then there else if l < k < e.lblk + e.len then None else At(before, k)
  }

  lemma HalfSplit(a: seq<Entry>, e: Entry, b: seq<Entry>, l: nat, p: nat, uninit: bool, more: bool, lo: nat, hi: nat)
    requires Runs(a + [e] + b, lo, hi) && AllFit(a + [e] + b) && lo <= l < hi && e.lblk < l < e.lblk + e.len - 1 && 0 < p < P48
    ensures var m := [Before(e, l)] + if more then [Fresh(l, p, uninit)] else [];
      Runs(a + m + b, lo, hi) && AllFit(a + m + b) && Torn(a + [e] + b, a + m + b, e, l, if more then Some((p, uninit)) else None)
  {
    hide Runs, At;
    PartsOf(a, e, b, lo, hi, l);
    var x, y := Low(a, e, lo, l), Then(b, hi);
    var n := if more then [Fresh(l, p, uninit)] else [];
    AtEach(e);
    AtEach(Before(e, l));
    AtEach(Fresh(l, p, uninit));
    NoneAt();
    RunsOne(Before(e, l), x, l);
    RunsOne(Fresh(l, p, uninit), l, y);
    RunsJoin([Before(e, l)], n, x, l, y);
    AtCatAll([Before(e, l)], n);
    PartsJoin(a, [e], b, lo, x, y, hi);
    PartsJoin(a, [Before(e, l)] + n, b, lo, x, y, hi);
    SameFit(a, [e], b);
    SameFit(a, [Before(e, l)] + n, b);
    assert Fits([e][0]);
  }

  lemma NoneAt()
    ensures forall k: nat :: At([], k) == None
  {
  }

  // ---------- The cases as changes at a position ----------

  function InsertAt(all: seq<Entry>, k: nat, e: Entry): seq<Entry>
    requires k <= |all|
  {
    all[..k] + [e] + all[k..]
  }

  /** Entry k and its successor are real. */
  predicate SetReady(all: seq<Entry>, k: nat) {
    k < |all| && all[k].len > 0 && all[k].pblk > 0 && (all[k + 1..] != [] ==> all[k + 1..][0].pblk > 0)
  }

  function SetList(all: seq<Entry>, k: nat, l: nat, p: nat, uninit: bool, seen: bool): seq<Entry>
    requires SetReady(all, k)
  {
    SetAt(all[..k], all[k], all[k + 1..], l, p, uninit, seen)
  }

  /** How many entries setting l adds to the list, if any. */
  function Slots(all: seq<Entry>, k: nat, l: nat, p: nat, uninit: bool, seen: bool): nat
    requires SetReady(all, k)
  {
    var after := SetList(all, k, l, p, uninit, seen);
    if |after| > |all| then |after| - |all| else 0
  }

  predicate Within(e: Entry, l: nat) { e.lblk < l < e.lblk + e.len - 1 }

  /** Nothing to do: l is where it should be already. */
  predicate Already(e: Entry, l: nat, p: nat, uninit: bool) {
    if Covers(e, l) then uninit == e.uninit && e.pblk + (l - e.lblk) == p else p == 0
  }

  lemma SameList(all: seq<Entry>, k: nat, l: nat, p: nat, uninit: bool, seen: bool)
    requires SetReady(all, k) && Already(all[k], l, p, uninit)
    ensures SetList(all, k, l, p, uninit, seen) == all
  {
  }

  lemma UnmappedList(all: seq<Entry>, k: nat, l: nat, p: nat, uninit: bool, seen: bool)
    requires SetReady(all, k) && !Covers(all[k], l) && p != 0
    ensures var e, s := all[k], SetList(all, k, l, p, uninit, seen);
      if AppendsTo(e, l, p, uninit) then s == all[k := Appended(e)]
      else if PrependsTo(e, l, p, uninit) then e.lblk > 0 && s == all[k := Prepended(e)]
      else if seen && k + 1 < |all| && PrependsTo(all[k + 1], l, p, uninit) then
        all[k + 1].lblk > 0 && all[k + 1].pblk > 0 && s == all[k + 1 := Prepended(all[k + 1])]
      else s == InsertAt(all, if l < e.lblk then k else k + 1, Fresh(l, p, uninit))
  {
    hide Covers, AppendsTo;
    var e, n := all[k], Fresh(l, p, uninit);
    ReplaceAt(all, k, Appended(e));
    if e.lblk > 0 && e.pblk > 0 {
      ReplaceAt(all, k, Prepended(e));
    }
    if k + 1 < |all| && all[k + 1].lblk > 0 && all[k + 1].pblk > 0 {
      ReplaceNext(all, k, Prepended(all[k + 1]));
    }
    InsertBeside(all, k, n);
  }

  lemma ReplaceAt(all: seq<Entry>, k: nat, x: Entry)
    requires k < |all|
    ensures all[..k] + [x] + all[k + 1..] == all[k := x]
  {
  }

  lemma ReplaceNext(all: seq<Entry>, k: nat, x: Entry)
    requires k + 1 < |all|
    ensures all[k + 1..][0] == all[k + 1] && all[..k] + [all[k]] + [x] + all[k + 1..][1..] == all[k + 1 := x]
  {
  }

  lemma InsertBeside(all: seq<Entry>, k: nat, x: Entry)
    requires k < |all|
    ensures all[..k] + [x] + [all[k]] + all[k + 1..] == InsertAt(all, k, x)
    ensures all[..k] + [all[k]] + [x] + all[k + 1..] == InsertAt(all, k + 1, x)
  {
  }

  lemma OnlyList(all: seq<Entry>, k: nat, l: nat, p: nat, uninit: bool, seen: bool)
    requires SetReady(all, k) && all[k].len == 1 && l == all[k].lblk && !Already(all[k], l, p, uninit)
    ensures SetList(all, k, l, p, uninit, seen) == if p == 0 then all[..k] + all[k + 1..] else all[k := Fresh(l, p, uninit)]
  {
  }

  lemma LastList(all: seq<Entry>, k: nat, l: nat, p: nat, uninit: bool, seen: bool)
    requires SetReady(all, k) && all[k].len > 1 && l == all[k].lblk + all[k].len - 1 && !Already(all[k], l, p, uninit)
    ensures var e, s := all[k], SetList(all, k, l, p, uninit, seen);
      if p == 0 then s == all[k := NoLast(e)]
      else if seen && k + 1 < |all| && PrependsTo(all[k + 1], l, p, uninit) then
        all[k + 1].lblk > 0 && all[k + 1].pblk > 0 && s == all[k + 1 := Prepended(all[k + 1])][k := NoLast(e)]
      else s == InsertAt(all, k + 1, Fresh(l, p, uninit))[k := NoLast(e)]
  {
  }

  lemma FirstList(all: seq<Entry>, k: nat, l: nat, p: nat, uninit: bool, seen: bool)
    requires SetReady(all, k) && all[k].len > 1 && l == all[k].lblk && !Already(all[k], l, p, uninit)
    ensures var e, s := all[k], SetList(all, k, l, p, uninit, seen);
      if p == 0 then s == all[k := NoFirst(e)]
      else if k > 0 && AppendsTo(all[k - 1], l, p, uninit) then s == all[k - 1 := Appended(all[k - 1])][k := NoFirst(e)]
      else s == InsertAt(all, k, Fresh(l, p, uninit))[k + 1 := NoFirst(e)]
  {
  }

  /** The entry cut before l, and perhaps the new entry. */
  function Half(all: seq<Entry>, k: nat, l: nat, p: nat, uninit: bool, more: bool): seq<Entry>
    requires k < |all| && Covers(all[k], l)
  {
    all[..k] + ([Before(all[k], l)] + if more then [Fresh(l, p, uninit)] else []) + all[k + 1..]
  }

  lemma InnerList(all: seq<Entry>, k: nat, l: nat, p: nat, uninit: bool, seen: bool)
    requires SetReady(all, k) && Within(all[k], l) && !Already(all[k], l, p, uninit)
    ensures var e := all[k]; var h := Half(all, k, l, p, uninit, p != 0);
      SetList(all, k, l, p, uninit, seen) == InsertAt(h, k + (if p == 0 then 1 else 2), After(e, l))
  {
    var e, a, b := all[k], all[..k], all[k + 1..];
    var m := [Before(e, l)] + if p != 0 then [Fresh(l, p, uninit)] else [];
    InsertBetween(a, m, b, After(e, l));
    assert m == [Before(e, l)] + Bit(l, p, uninit);
    JoinFour(a, [Before(e, l)], Bit(l, p, uninit), [After(e, l)] + b);
  }

  /** Unmapping adds an entry only in the middle of one. */
  lemma UnmapSlots(all: seq<Entry>, k: nat, l: nat, uninit: bool, seen: bool)
    requires SetReady(all, k) && !Within(all[k], l)
    ensures Slots(all, k, l, 0, uninit, seen) == 0
  {
  }

  /** Only the last block of all can leave nothing. */
  lemma ListSome(all: seq<Entry>, k: nat, l: nat, p: nat, uninit: bool, seen: bool)
    requires SetReady(all, k)
    ensures SetList(all, k, l, p, uninit, seen) == [] ==> p == 0 && all[k].len == 1 && l == all[k].lblk
    ensures Within(all[k], l) ==> forall more :: Half(all, k, l, p, uninit, more) != []
  {
  }

  lemma OnlySlots(all: seq<Entry>, k: nat, l: nat, p: nat, uninit: bool, seen: bool)
    requires SetReady(all, k) && (Already(all[k], l, p, uninit) || (all[k].len == 1 && l == all[k].lblk))
    ensures Slots(all, k, l, p, uninit, seen) == 0
  {
    if Already(all[k], l, p, uninit) {
      SameList(all, k, l, p, uninit, seen);
    } else {
      OnlyList(all, k, l, p, uninit, seen);
    }
  }

  lemma InnerSlots(all: seq<Entry>, k: nat, l: nat, p: nat, uninit: bool, seen: bool)
    requires SetReady(all, k) && Within(all[k], l) && !Already(all[k], l, p, uninit)
    ensures Slots(all, k, l, p, uninit, seen) == if p == 0 then 1 else 2
  {
    InnerList(all, k, l, p, uninit, seen);
  }

  lemma InsertBetween(a: seq<Entry>, m: seq<Entry>, b: seq<Entry>, e: Entry)
    ensures InsertAt(a + m + b, |a| + |m|, e) == a + m + ([e] + b)
  {
    assert (a + m + b)[..|a| + |m|] == a + m && (a + m + b)[|a| + |m|..] == b;
  }

  lemma JoinFour(a: seq<Entry>, m: seq<Entry>, n: seq<Entry>, b: seq<Entry>)
    ensures a + (m + n) + b == a + m + n + b
  {
  }

  lemma HalfCut(all: seq<Entry>, k: nat, l: nat, p: nat, uninit: bool)
    requires k < |all| && Within(all[k], l)
    ensures var h := Half(all, k, l, p, uninit, false);
      h == all[k := Before(all[k], l)] && Half(all, k, l, p, uninit, true) == InsertAt(h, k + 1, Fresh(l, p, uninit))
  {
  }

  lemma HalfPlain(all: seq<Entry>, k: nat, l: nat, p: nat, q: nat, uninit: bool)
    requires k < |all| && Covers(all[k], l)
    ensures Half(all, k, l, p, uninit, false) == Half(all, k, l, q, uninit, false)
  {
  }

  lemma Rejoin(all: seq<Entry>, k: nat)
    requires k < |all|
    ensures all[..k] + [all[k]] + all[k + 1..] == all
  {
  }

  /** In every case the list stays in order and within its limits, and exactly block l changes. */
  lemma SetListRight(all: seq<Entry>, k: nat, l: nat, p: nat, uninit: bool, seen: bool)
    requires k < |all| && Runs(all, 0, U32) && AllFit(all) && Around(all[..k], all[k], all[k + 1..], l) && l < U32 && p < P48
    ensures SetReady(all, k) && all[k].lblk + all[k].len <= U32 && Fits(all[k])
    ensures Sets(all, SetList(all, k, l, p, uninit, seen), l, p, uninit, 0, U32) && AllFit(SetList(all, k, l, p, uninit, seen))
  {
    hide Runs, Sets, SetAt;
    Rejoin(all, k);
    PartsOf(all[..k], all[k], all[k + 1..], 0, U32, l);
    RunsBounds(all[k + 1..], Then(all[k + 1..], U32), U32);
    SetAtRight(all[..k], all[k], all[k + 1..], l, p, uninit, seen, 0, U32);
    SetAtFits(all[..k], all[k], all[k + 1..], l, p, uninit, seen);
  }

  lemma HalfRight(all: seq<Entry>, k: nat, l: nat, p: nat, uninit: bool, more: bool)
    requires k < |all| && Runs(all, 0, U32) && AllFit(all) && Within(all[k], l) && 0 < p < P48
    ensures var h := Half(all, k, l, p, uninit, more);
      Runs(h, 0, U32) && AllFit(h) && Torn(all, h, all[k], l, if more then Some((p, uninit)) else None)
  {
    hide Runs, Torn;
    Rejoin(all, k);
    PartsOf(all[..k], all[k], all[k + 1..], 0, U32, all[k].lblk);
    RunsBounds(all[k + 1..], Then(all[k + 1..], U32), U32);
    HalfSplit(all[..k], all[k], all[k + 1..], l, p, uninit, more, 0, U32);
  }

  lemma SetsRuns(es: seq<Entry>, es': seq<Entry>, l: nat, p: nat, uninit: bool)
    requires Sets(es, es', l, p, uninit, 0, U32)
    ensures Runs(es', 0, U32)
  {
  }

  lemma RunsShrinkAt(all: seq<Entry>, j: nat)
    requires j < |all| && Runs(all, 0, U32)
    ensures all[j].len > 0 && all[j].lblk + all[j].len <= U32
  {
    hide Runs;
    Rejoin(all, j);
    assert all[..j] + [all[j]] + all[j + 1..] == all;
    PartsOf(all[..j], all[j], all[j + 1..], 0, U32, all[j].lblk);
    RunsBounds(all[j + 1..], Then(all[j + 1..], U32), U32);
  }

  // ---------- Which entries come of it ----------

  /** A block that follows an entry on both sides of the mapping lengthens it, up to one block less than its
      length field could hold. */
  lemma JoinsBefore(all: seq<Entry>, k: nat, l: nat, p: nat, uninit: bool, seen: bool)
    requires SetReady(all, k)
    requires var e := all[k]; l == e.lblk + e.len && p == e.pblk + e.len && uninit == e.uninit && e.len <= if uninit then 32765 else 32766
    ensures SetList(all, k, l, p, uninit, seen) == all[k := Entry(all[k].lblk, all[k].pblk, all[k].len + 1, uninit)]
    ensures Slots(all, k, l, p, uninit, seen) == 0
  {
    UnmappedList(all, k, l, p, uninit, seen);
  }

  /** One that comes before an entry lengthens it at the front. */
  lemma JoinsAfter(all: seq<Entry>, k: nat, l: nat, p: nat, uninit: bool, seen: bool)
    requires SetReady(all, k) && p != 0
    requires var e := all[k]; l + 1 == e.lblk && p + 1 == e.pblk && uninit == e.uninit && e.len <= if uninit then 32765 else 32766
    ensures SetList(all, k, l, p, uninit, seen) == all[k := Entry(l, p, all[k].len + 1, uninit)]
    ensures Slots(all, k, l, p, uninit, seen) == 0
  {
    UnmappedList(all, k, l, p, uninit, seen);
  }

  /** One that comes before the entry after it, if that was seen, lengthens that. */
  lemma JoinsNext(all: seq<Entry>, k: nat, l: nat, p: nat, uninit: bool)
    requires SetReady(all, k) && k + 1 < |all| && p != 0 && !Covers(all[k], l) && all[k].lblk <= l
    requires var n := all[k + 1]; l + 1 == n.lblk && p + 1 == n.pblk && uninit == n.uninit && n.len <= if uninit then 32765 else 32766
    requires !(l == all[k].lblk + all[k].len && p == all[k].pblk + all[k].len && uninit == all[k].uninit && all[k].len <= if uninit then 32765 else 32766)
    ensures SetList(all, k, l, p, uninit, true) == all[k + 1 := Entry(l, p, all[k + 1].len + 1, uninit)]
    ensures Slots(all, k, l, p, uninit, true) == 0
  {
    UnmappedList(all, k, l, p, uninit, true);
  }

  /** Any other becomes an entry of its own. */
  lemma JoinsNone(all: seq<Entry>, k: nat, l: nat, p: nat, uninit: bool, seen: bool)
    requires SetReady(all, k) && p != 0 && !Covers(all[k], l)
    requires var e := all[k];
      !(l == e.lblk + e.len && p == e.pblk + e.len && uninit == e.uninit && e.len <= if uninit then 32765 else 32766)
      && !(l + 1 == e.lblk && p + 1 == e.pblk && uninit == e.uninit && e.len <= if uninit then 32765 else 32766)
    requires seen && k + 1 < |all| ==> var n := all[k + 1];
      !(l + 1 == n.lblk && p + 1 == n.pblk && uninit == n.uninit && n.len <= if uninit then 32765 else 32766)
    ensures var j := if l < all[k].lblk then k else k + 1;
      SetList(all, k, l, p, uninit, seen) == all[..j] + [Entry(l, p, 1, uninit)] + all[j..]
    ensures Slots(all, k, l, p, uninit, seen) == 1
  {
    UnmappedList(all, k, l, p, uninit, seen);
  }

  /** The last of several blocks goes over to the next entry, where it fits there, or becomes an entry. */
  lemma LastGoes(all: seq<Entry>, k: nat, l: nat, p: nat, uninit: bool, seen: bool)
    requires SetReady(all, k) && p != 0 && all[k].len > 1 && l == all[k].lblk + all[k].len - 1
    requires uninit != all[k].uninit || p != all[k].pblk + all[k].len - 1
    ensures var e, s := all[k], SetList(all, k, l, p, uninit, seen);
      if seen && k + 1 < |all| && l + 1 == all[k + 1].lblk && p + 1 == all[k + 1].pblk && uninit == all[k + 1].uninit
         && all[k + 1].len <= (if uninit then 32765 else 32766)
      then s == all[k := e.(len := e.len - 1)][k + 1 := Entry(l, p, all[k + 1].len + 1, uninit)] && Slots(all, k, l, p, uninit, seen) == 0
      else s == all[..k] + [e.(len := e.len - 1), Entry(l, p, 1, uninit)] + all[k + 1..] && Slots(all, k, l, p, uninit, seen) == 1
  {
    LastList(all, k, l, p, uninit, seen);
  }

  /** The first of several blocks goes over to the entry before, where it fits there, or becomes an entry. */
  lemma FirstGoes(all: seq<Entry>, k: nat, l: nat, p: nat, uninit: bool, seen: bool)
    requires SetReady(all, k) && p != 0 && all[k].len > 1 && l == all[k].lblk && (uninit != all[k].uninit || p != all[k].pblk)
    ensures var e, s := all[k], SetList(all, k, l, p, uninit, seen);
      var rest := Entry(e.lblk + 1, e.pblk + 1, e.len - 1, e.uninit);
      if k > 0 && l == all[k - 1].lblk + all[k - 1].len && p == all[k - 1].pblk + all[k - 1].len && uninit == all[k - 1].uninit
         && all[k - 1].len <= (if uninit then 32765 else 32766)
      then s == all[k - 1 := all[k - 1].(len := all[k - 1].len + 1)][k := rest] && Slots(all, k, l, p, uninit, seen) == 0
      else s == all[..k] + [Entry(l, p, 1, uninit), rest] + all[k + 1..] && Slots(all, k, l, p, uninit, seen) == 1
  {
    FirstList(all, k, l, p, uninit, seen);
  }

  /** A block in the middle cuts its entry in two, with the new mapping between them. */
  lemma MiddleCuts(all: seq<Entry>, k: nat, l: nat, p: nat, uninit: bool, seen: bool)
    requires SetReady(all, k) && all[k].lblk < l < all[k].lblk + all[k].len - 1 && (uninit != all[k].uninit || p != all[k].pblk + (l - all[k].lblk))
    ensures var e := all[k]; var d := l - e.lblk;
      SetList(all, k, l, p, uninit, seen) ==
        all[..k] + ([Entry(e.lblk, e.pblk, d, e.uninit)] + (if p == 0 then [] else [Entry(l, p, 1, uninit)])
                    + [Entry(l + 1, e.pblk + d + 1, e.len - d - 1, e.uninit)]) + all[k + 1..]
    ensures Slots(all, k, l, p, uninit, seen) == if p == 0 then 1 else 2
  {
    InnerSlots(all, k, l, p, uninit, seen);
  }

  /** Unmapping shortens the entry, or removes one of a single block; a block that has its mapping keeps it. */
  lemma UnmapsEnd(all: seq<Entry>, k: nat, l: nat, uninit: bool, seen: bool)
    requires SetReady(all, k)
    ensures var e, s := all[k], SetList(all, k, l, 0, uninit, seen);
      && (!Covers(e, l) ==> s == all)
      && (e.len == 1 && l == e.lblk ==> s == all[..k] + all[k + 1..])
      && (e.len > 1 && l == e.lblk + e.len - 1 ==> s == all[k := e.(len := e.len - 1)])
      && (e.len > 1 && l == e.lblk ==> s == all[k := Entry(e.lblk + 1, e.pblk + 1, e.len - 1, e.uninit)])
  {
  }

  lemma OneRemapped(all: seq<Entry>, k: nat, l: nat, p: nat, uninit: bool, seen: bool)
    requires SetReady(all, k) && p != 0
    ensures all[k].len == 1 && l == all[k].lblk ==>
      SetList(all, k, l, p, uninit, seen) == all[k := Entry(l, p, 1, uninit)] && Slots(all, k, l, p, uninit, seen) == 0
    ensures Covers(all[k], l) && uninit == all[k].uninit && p == all[k].pblk + (l - all[k].lblk) ==>
      SetList(all, k, l, p, uninit, seen) == all && Slots(all, k, l, p, uninit, seen) == 0
  {
  }
}
