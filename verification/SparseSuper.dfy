/**
 Which block groups hold a backup superblock (source/closefs.c), and the enumeration of those
 groups from three multiplying counters (source/sparse.c), in the C code's 32-bit arithmetic.
 */
module SparseSuper {

  function Pow(b: nat, k: nat): nat {
    if k == 0 then 1 else b * Pow(b, k - 1)
  }

  ghost predicate IsPower(g: nat, b: nat) {
    exists k: nat :: g == Pow(b, k)
  }

  /** The group numbers a sparse-superblock filesystem keeps copies in. */
  ghost predicate HasSuper(sparse: bool, g: nat) {
    !sparse || g == 0 || IsPower(g, 3) || IsPower(g, 5) || IsPower(g, 7)
  }

  lemma PowPositive(b: nat, k: nat)
    requires b > 0
    ensures Pow(b, k) > 0
  {
  }

  lemma {:induction false} PowStrict(b: nat, j: nat, k: nat)
    requires b > 1 && j < k
    ensures Pow(b, j) < Pow(b, k)
  {
    PowPositive(b, k - 1);
    if j < k - 1 {
      PowStrict(b, j, k - 1);
    }
  }

  /** The roots test_root is called with. */
  predicate Root(b: nat) { b == 3 || b == 5 || b == 7 }

  lemma MulDiv(b: nat, q: nat)
    requires Root(b)
    ensures (b * q) / b == q && (b * q) % b == 0
  {
    if b == 3 {} else if b == 5 {} else {}
  }

  lemma DivSmaller(a: nat, b: nat)
    requires Root(b) && a > 1 && a % b == 0
    ensures 0 < a / b < a
    ensures a == b * (a / b)
  {
    if b == 3 {} else if b == 5 {} else {}
  }

  lemma PowSplit(b: nat, k: nat, a: nat)
    requires Root(b) && a > 1 && a == Pow(b, k)
    ensures k > 0 && a % b == 0 && a / b == Pow(b, k - 1)
  {
    var q := Pow(b, k - 1);
    assert a == b * q;
    hide Pow;
    MulDiv(b, q);
  }

  lemma PowDiv(b: nat, a: nat)
    requires Root(b) && a > 1
    ensures IsPower(a, b) <==> a % b == 0 && IsPower(a / b, b)
  {
    if IsPower(a, b) {
      hide Pow;
      var k: nat :| a == Pow(b, k);
      PowSplit(b, k, a);
    }
    if a % b == 0 && IsPower(a / b, b) {
      DivSmaller(a, b);
      var k: nat :| a / b == Pow(b, k);
      assert a == Pow(b, k + 1);
    }
  }

  /** test_root */
  method TestRoot(a0: nat, b: nat) returns (r: bool)
    requires Root(b)
    ensures r <==> a0 == 0 || IsPower(a0, b)
  {
    hide IsPower;
    if a0 == 0 {
      return true;
    }
    var a := a0;
    while true
      invariant a > 0
      invariant IsPower(a, b) <==> IsPower(a0, b)
      decreases a
    {
      if a == 1 {
        OneIsPower(b);
        return true;
      }
      PowDiv(b, a);
      if a % b != 0 {
        return false;
      }
      DivSmaller(a, b);
      a := a / b;
    }
  }

  lemma OneIsPower(b: nat)
    ensures IsPower(1, b)
  {
    assert Pow(b, 0) == 1;
  }

  /** ext2fs_bg_has_super */
  method BgHasSuper(sparse: bool, group: nat) returns (r: bool)
    ensures r <==> HasSuper(sparse, group)
  {
    if !sparse {
      return true;
    }
    var r3 := TestRoot(group, 3);
    var r5 := TestRoot(group, 5);
    var r7 := TestRoot(group, 7);
    return r3 || r5 || r7;
  }

  // ---------- The counters ----------

  const WORD: nat := 0x1_0000_0000

  datatype Counters = Counters(three: nat, five: nat, seven: nat)

  /** The three caller-owned counters that ext2fs_list_backups advances through pointers. */
  class BackupCursor {
    var three: nat
    var five: nat
    var seven: nat

    ghost function State(): Counters
      reads this
    {
      Counters(three, five, seven)
    }

    constructor ()
      ensures State() == Counters(1, 5, 7)
    {
      three, five, seven := 1, 5, 7;
    }

    /** ext2fs_list_backups */
    method ListBackups(sparse: bool) returns (ret: nat)
      modifies this
      ensures ret == Smallest(sparse, old(State()))
      ensures State() == Advance(sparse, old(State()))
    {
      if !sparse {
        ret := three;
        three := (three + 1) % WORD;
        return;
      }
      var min, mult := three, 3;
      if five < min {
        min, mult := five, 5;
      }
      if seven < min {
        min, mult := seven, 7;
      }
      ret := min;
      if mult == 3 {
        three := (three * 3) % WORD;
      } else if mult == 5 {
        five := (five * 5) % WORD;
      } else {
        seven := (seven * 7) % WORD;
      }
    }
  }

  function Smallest(sparse: bool, c: Counters): nat {
    if !sparse || (c.three <= c.five && c.three <= c.seven) then c.three
    else if c.five <= c.seven then c.five
    else c.seven
  }

  function Advance(sparse: bool, c: Counters): Counters {
    if !sparse then c.(three := (c.three + 1) % WORD)
    else if c.three <= c.five && c.three <= c.seven then c.(three := c.three * 3 % WORD)
    else if c.five < c.three && c.five <= c.seven then c.(five := c.five * 5 % WORD)
    else c.(seven := c.seven * 7 % WORD)
  }

  // ---------- Enumeration ----------

  /** The counters after n calls, starting from (1, 5, 7). */
  function After(sparse: bool, n: nat): Counters {
    if n == 0 then Counters(1, 5, 7) else Advance(sparse, After(sparse, n - 1))
  }

  /** What call n (from zero) returns. */
  function Ret(sparse: bool, n: nat): nat {
    Smallest(sparse, After(sparse, n))
  }

  /** How often each counter has been multiplied, plus one for five and seven. */
  datatype Exponents = Exponents(three: nat, five: nat, seven: nat)

  function Unwrapped(e: Exponents): Counters {
    Counters(Pow(3, e.three), Pow(5, e.five), Pow(7, e.seven))
  }

  function Bump(e: Exponents): Exponents {
    var c := Unwrapped(e);
    if c.three <= c.five && c.three <= c.seven then e.(three := e.three + 1)
    else if c.five < c.three && c.five <= c.seven then e.(five := e.five + 1)
    else e.(seven := e.seven + 1)
  }

  function Exps(n: nat): (e: Exponents)
    ensures e.five >= 1 && e.seven >= 1
  {
    if n == 0 then Exponents(0, 1, 1) else Bump(Exps(n - 1))
  }

  lemma {:induction false} PowModFive(k: nat)
    ensures Pow(3, k) % 5 != 0
    ensures Pow(7, k) % 5 != 0
    ensures k > 0 ==> Pow(5, k) % 5 == 0
  {
    if k > 0 {
      PowModFive(k - 1);
      ModFive(Pow(3, k - 1));
      ModFive(Pow(7, k - 1));
      ModFive(Pow(5, k - 1));
    }
  }

  lemma ModFive(x: nat)
    ensures x % 5 != 0 ==> (3 * x) % 5 != 0 && (7 * x) % 5 != 0
    ensures (5 * x) % 5 == 0
  {
    var q, r := x / 5, x % 5;
    assert 3 * x == 5 * (3 * q) + 3 * r && 7 * x == 5 * (7 * q) + 7 * r;
    if r == 0 {} else if r == 1 {} else if r == 2 {} else if r == 3 {} else {}
  }

  lemma {:induction false} PowModSeven(k: nat)
    ensures Pow(3, k) % 7 != 0
    ensures k > 0 ==> Pow(7, k) % 7 == 0
  {
    if k > 0 {
      PowModSeven(k - 1);
      ModSeven(Pow(3, k - 1));
      ModSeven(Pow(7, k - 1));
    }
  }

  lemma ModSeven(x: nat)
    ensures x % 7 != 0 ==> (3 * x) % 7 != 0
    ensures (7 * x) % 7 == 0
  {
    var q, r := x / 7, x % 7;
    assert 3 * x == 7 * (3 * q) + 3 * r;
    if r == 0 {} else if r == 1 {} else if r == 2 {} else if r == 3 {} else if r == 4 {} else if r == 5 {} else {}
  }

  /** Positive powers of 5 and 7 meet neither each other nor a power of 3. */
  lemma PowersDistinct(i: nat, j: nat, k: nat)
    requires j > 0 && k > 0
    ensures Pow(3, i) != Pow(5, j)
    ensures Pow(3, i) != Pow(7, k)
    ensures Pow(5, j) != Pow(7, k)
  {
    PowModFive(i);
    PowModFive(j);
    PowModFive(k);
    PowModSeven(i);
    PowModSeven(k);
  }

  /** 5^13: multiplying it by 5 is the first product that leaves 32 bits. */
  const TOP: nat := 1220703125
  /** What is left of 5^14 in 32 bits; not a power of 3, 5 or 7. */
  const WRAPPED: nat := 1808548329

  lemma PowerTable()
    ensures Pow(3, 19) == 1162261467 && Pow(3, 20) == 3486784401
    ensures Pow(5, 12) == 244140625 && Pow(5, 13) == TOP && Pow(5, 14) % WORD == WRAPPED
    ensures Pow(7, 10) == 282475249 && Pow(7, 11) == 1977326743
  {
    assert Pow(3, 8) == 6561;
    assert Pow(3, 14) == 4782969;
  }

  lemma PowBelow(b: nat, j: nat, k: nat)
    requires b > 1 && Pow(b, j) < Pow(b, k)
    ensures j < k
  {
    if k < j {
      PowStrict(b, k, j);
    }
  }

  lemma PowNotAbove(b: nat, j: nat, k: nat)
    requires b > 1 && j <= k
    ensures Pow(b, j) <= Pow(b, k)
  {
    if j < k {
      PowStrict(b, j, k);
    }
  }

  /** Nothing as large as TOP has been returned by the first n calls. */
  ghost predicate Quiet(n: nat) {
    forall m: nat | m < n :: Ret(true, m) < TOP
  }

  /** One step on three distinct counters whose smallest product stays in 32 bits. */
  lemma AdvanceFits(c: Counters)
    requires c.three != c.five && c.three != c.seven && c.five != c.seven
    requires c.three > 0 && c.five > 0 && c.seven > 0
    requires Smallest(true, c) < TOP
    requires c.five < TOP ==> c.five * 5 < WORD
    requires c.seven < TOP ==> c.seven * 7 < WORD
    ensures Smallest(true, c) < Smallest(true, Advance(true, c))
    ensures Advance(true, c) == if c.three < c.five && c.three < c.seven then c.(three := c.three * 3)
                                else if c.five < c.seven then c.(five := c.five * 5)
                                else c.(seven := c.seven * 7)
  {
  }

  lemma BumpFits(e: Exponents)
    requires e.five >= 1 && e.seven >= 1 && Smallest(true, Unwrapped(e)) < TOP
    ensures Advance(true, Unwrapped(e)) == Unwrapped(Bump(e))
    ensures Smallest(true, Unwrapped(e)) < Smallest(true, Unwrapped(Bump(e)))
  {
    PowersDistinct(e.three, e.five, e.seven);
    PowPositive(3, e.three);
    PowPositive(5, e.five);
    PowPositive(7, e.seven);
    var c := Unwrapped(e);
    if c.five < TOP {
      FiveFits(e.five);
    }
    if c.seven < TOP {
      SevenFits(e.seven);
    }
    AdvanceFits(c);
    assert Pow(3, e.three + 1) == c.three * 3;
    assert Pow(5, e.five + 1) == c.five * 5;
    assert Pow(7, e.seven + 1) == c.seven * 7;
    hide Pow, Advance, Smallest;
  }

  lemma FiveFits(k: nat)
    requires Pow(5, k) < TOP
    ensures Pow(5, k) * 5 < WORD
  {
    PowerTable();
    hide Pow;
    PowBelow(5, k, 13);
    PowNotAbove(5, k, 12);
  }

  lemma SevenFits(k: nat)
    requires Pow(7, k) < TOP
    ensures Pow(7, k) * 7 < WORD
  {
    PowerTable();
    hide Pow;
    PowBelow(7, k, 11);
    PowNotAbove(7, k, 10);
  }

  lemma {:induction false} NoWrap(n: nat)
    requires Quiet(n)
    ensures After(true, n) == Unwrapped(Exps(n))
  {
    if n == 0 {
      assert Pow(3, 0) == 1 && Pow(5, 1) == 5 && Pow(7, 1) == 7;
    } else {
      hide Pow, Advance, Bump, Smallest;
      NoWrap(n - 1);
      assert Ret(true, n - 1) < TOP;
      BumpFits(Exps(n - 1));
    }
  }

  lemma Grows(n: nat)
    requires Quiet(n + 1)
    ensures Ret(true, n) < Ret(true, n + 1)
  {
    hide Pow, Advance, Bump, Smallest;
    assert Quiet(n);
    NoWrap(n);
    NoWrap(n + 1);
    assert Ret(true, n) < TOP;
    BumpFits(Exps(n));
  }

  lemma {:induction false} GrowsFrom(m: nat, n: nat)
    requires m < n && Quiet(n)
    ensures Ret(true, m) < Ret(true, n)
  {
    hide Ret;
    Grows(n - 1);
    if m < n - 1 {
      GrowsFrom(m, n - 1);
    }
  }

  /** Among the first n calls, one has returned g. */
  ghost predicate Seen(g: nat, n: nat) {
    exists m: nat :: m < n && Ret(true, m) == g
  }

  /** All powers of b from `from` up to k have been returned by the first n calls, below TOP. */
  ghost predicate SeenUpTo(b: nat, from: nat, k: nat, n: nat) {
    forall j: nat | from <= j < k :: Seen(Pow(b, j), n) && Pow(b, j) < TOP
  }

  lemma SeenUpToNext(b: nat, from: nat, k: nat, k': nat, n: nat)
    requires SeenUpTo(b, from, k, n) && (k' == k || (k' == k + 1 && Pow(b, k) == Ret(true, n) < TOP))
    ensures SeenUpTo(b, from, k', n + 1)
  {
    hide Pow, Ret;
    forall j: nat | from <= j < k' ensures Seen(Pow(b, j), n + 1) && Pow(b, j) < TOP {
      if j < k {
        var m: nat :| m < n && Ret(true, m) == Pow(b, j);
        assert m < n + 1;
      }
    }
  }

  lemma BumpIs(e: Exponents)
    ensures var e' := Bump(e); var r := Smallest(true, Unwrapped(e));
      && (e'.three == e.three || (e'.three == e.three + 1 && Pow(3, e.three) == r))
      && (e'.five == e.five || (e'.five == e.five + 1 && Pow(5, e.five) == r))
      && (e'.seven == e.seven || (e'.seven == e.seven + 1 && Pow(7, e.seven) == r))
  {
    hide Pow;
  }

  lemma QuietPrev(n: nat)
    requires n > 0 && Quiet(n)
    ensures Quiet(n - 1) && Ret(true, n - 1) < TOP
  {
  }

  lemma ExpsZero()
    ensures Exps(0) == Exponents(0, 1, 1)
  {
  }

  lemma ExpsNext(n: nat)
    requires n > 0
    ensures Exps(n) == Bump(Exps(n - 1))
  {
  }

  lemma SeenNone(b: nat, k: nat)
    ensures SeenUpTo(b, k, k, 0)
  {
  }

  /** Every power below a counter has been returned, and the last one was below TOP. */
  lemma {:induction false} SeenPowers(n: nat)
    requires Quiet(n)
    ensures SeenUpTo(3, 0, Exps(n).three, n) && SeenUpTo(5, 1, Exps(n).five, n) && SeenUpTo(7, 1, Exps(n).seven, n)
  {
    hide *;
    if n == 0 {
      ExpsZero();
      SeenNone(3, 0);
      SeenNone(5, 1);
      SeenNone(7, 1);
    } else {
      QuietPrev(n);
      SeenPowers(n - 1);
      NoWrap(n - 1);
      var e, e' := Exps(n - 1), Exps(n);
      ExpsNext(n);
      RetIs(n - 1);
      BumpIs(e);
      SeenUpToNext(3, 0, e.three, e'.three, n - 1);
      SeenUpToNext(5, 1, e.five, e'.five, n - 1);
      SeenUpToNext(7, 1, e.seven, e'.seven, n - 1);
    }
  }

  lemma RetIs(n: nat)
    ensures Ret(true, n) == Smallest(true, After(true, n))
  {
  }

  lemma RetHasSuper(n: nat)
    requires Quiet(n)
    ensures HasSuper(true, Ret(true, n)) && Ret(true, n) >= 1
  {
    NoWrap(n);
    var e := Exps(n);
    PowPositive(3, e.three);
    PowPositive(5, e.five);
    PowPositive(7, e.seven);
  }

  lemma SuperSeen(g: nat, n: nat)
    requires Quiet(n) && HasSuper(true, g) && 1 <= g < Ret(true, n)
    ensures Seen(g, n)
  {
    hide Pow, Seen;
    NoWrap(n);
    SeenPowers(n);
    var e := Exps(n);
    if IsPower(g, 3) {
      var k: nat :| g == Pow(3, k);
      PowBelow(3, k, e.three);
    } else if IsPower(g, 5) {
      var k: nat :| g == Pow(5, k);
      NotOne(g, 5, k);
      PowBelow(5, k, e.five);
    } else {
      var k: nat :| g == Pow(7, k);
      NotOne(g, 7, k);
      PowBelow(7, k, e.seven);
    }
  }

  lemma NotOne(g: nat, b: nat, k: nat)
    requires g == Pow(b, k) && !IsPower(g, 3)
    ensures k > 0
  {
    OneIsPower(3);
  }

  /** Some call returns TOP, and all calls before it returned less. */
  lemma {:induction false} TopReached(n: nat) returns (t: nat)
    requires Quiet(n) && n <= TOP
    ensures Quiet(t) && Ret(true, t) == TOP
    decreases TOP - n
  {
    RetAtLeast(n);
    if Ret(true, n) < TOP {
      t := TopReached(n + 1);
    } else {
      t := n;
      PowerTable();
      if TOP < Ret(true, n) {
        assert IsPower(TOP, 5);
        SuperSeen(TOP, n);
        assert false;
      }
    }
  }

  lemma {:induction false} RetAtLeast(n: nat)
    requires Quiet(n)
    ensures Ret(true, n) > n
  {
    if n == 0 {
    } else {
      hide Ret;
      RetAtLeast(n - 1);
      Grows(n - 1);
    }
  }

  /** The call after TOP returns the wrapped product. */
  lemma AfterTop(t: nat)
    requires Quiet(t) && Ret(true, t) == TOP
    ensures Ret(true, t + 1) == WRAPPED
  {
    NoWrap(t);
    SeenPowers(t);
    PowerTable();
    var e := Exps(t);
    if e.three < 20 { PowNotAbove(3, e.three, 19); }
    if e.five < 13 { PowNotAbove(5, e.five, 12); }
    if e.seven < 11 { PowNotAbove(7, e.seven, 10); }
    hide Pow;
    assert e.three <= 20 && e.five <= 13 && e.seven <= 11;
    assert Unwrapped(e) == Counters(3486784401, TOP, 1977326743);
    assert After(true, t + 1) == Advance(true, Counters(3486784401, TOP, 1977326743));
  }

  /** Between TOP and the wrapped product there is no power of 3, 5 or 7, nor is WRAPPED one. */
  lemma GapHasNoSuper(g: nat)
    requires TOP < g <= WRAPPED
    ensures !HasSuper(true, g)
  {
    PowerTable();
    assert Pow(5, 14) == 6103515625;
    hide Pow;
    if k: nat :| g == Pow(3, k) {
      PowBelow(3, 19, k);
      PowBelow(3, k, 20);
      assert false;
    }
    if k: nat :| g == Pow(5, k) {
      PowBelow(5, 13, k);
      PowBelow(5, k, 14);
      assert false;
    }
    if k: nat :| g == Pow(7, k) {
      PowBelow(7, 10, k);
      PowBelow(7, k, 11);
      assert false;
    }
  }

  // ---------- The caller's loop ----------

  /** `while ((grp = list_backups(...)) < groups)` reaches the value of call m. */
  ghost predicate Delivered(sparse: bool, groups: nat, m: nat) {
    forall j: nat | j <= m :: Ret(sparse, j) < groups
  }

  /** The loop sees, in strictly increasing order, the groups from 1 on that hold a superblock
      copy, all of them and nothing else. */
  ghost predicate Exact(sparse: bool, groups: nat) {
    && (forall m: nat | Delivered(sparse, groups, m) :: 1 <= Ret(sparse, m) && HasSuper(sparse, Ret(sparse, m)))
    && (forall m: nat, n: nat | m < n && Delivered(sparse, groups, n) :: Ret(sparse, m) < Ret(sparse, n))
    && (forall g: nat | 1 <= g < groups && HasSuper(sparse, g) :: exists m: nat :: Delivered(sparse, groups, m) && Ret(sparse, m) == g)
  }

  lemma DeliveredQuiet(groups: nat, t: nat, n: nat)
    requires groups <= WRAPPED && Quiet(t) && Ret(true, t) == TOP && Delivered(true, groups, n)
    ensures n <= t
  {
    AfterTop(t);
  }

  lemma SuperDelivered(groups: nat, t: nat, g: nat)
    requires groups <= WRAPPED && Quiet(t) && Ret(true, t) == TOP
    requires 1 <= g < groups && HasSuper(true, g)
    ensures exists m: nat :: Delivered(true, groups, m) && Ret(true, m) == g
  {
    hide Ret;
    if g > TOP {
      GapHasNoSuper(g);
    }
    var m: nat := t;
    if g < TOP {
      SuperSeen(g, t);
      m :| m < t && Ret(true, m) == g;
    }
    forall j: nat | j <= m ensures Ret(true, j) < groups {
      if j < m {
        GrowsFrom(j, m);
      }
    }
    assert Delivered(true, groups, m);
  }

  /** The enumeration is right exactly up to the wrapped product, whatever the group count. */
  lemma SparseExact(groups: nat)
    ensures Exact(true, groups) <==> groups <= WRAPPED
  {
    hide Ret;
    var t := TopReached(0);
    if groups <= WRAPPED {
      forall m: nat | Delivered(true, groups, m) ensures 1 <= Ret(true, m) && HasSuper(true, Ret(true, m)) {
        DeliveredQuiet(groups, t, m);
        RetHasSuper(m);
      }
      forall m: nat, n: nat | m < n && Delivered(true, groups, n) ensures Ret(true, m) < Ret(true, n) {
        DeliveredQuiet(groups, t, n);
        GrowsFrom(m, n);
      }
      forall g: nat | 1 <= g < groups && HasSuper(true, g)
        ensures exists m: nat :: Delivered(true, groups, m) && Ret(true, m) == g
      {
        SuperDelivered(groups, t, g);
      }
    } else {
      AfterTop(t);
      GapHasNoSuper(WRAPPED);
      assert Delivered(true, groups, t + 1);
    }
  }

  lemma PlainAdvance(c: Counters)
    requires c.three + 1 < WORD
    ensures Advance(false, c) == c.(three := c.three + 1)
  {
  }

  lemma {:induction false} PlainRet(n: nat)
    requires n + 1 < WORD
    ensures After(false, n) == Counters(n + 1, 5, 7)
  {
    if n > 0 {
      hide Advance;
      PlainRet(n - 1);
      PlainAdvance(After(false, n - 1));
    }
  }

  lemma PlainDelivered(groups: nat, m: nat)
    requires groups < WORD
    ensures Delivered(false, groups, m) <==> m + 1 < groups
  {
    if m + 1 < groups {
      forall j: nat | j <= m ensures Ret(false, j) < groups {
        PlainRet(j);
      }
    } else {
      var k := if groups == 0 then 0 else groups - 1;
      PlainRet(k);
      assert Ret(false, k) >= groups;
    }
  }

  /** Without the sparse feature every group is delivered. */
  lemma PlainExact(groups: nat)
    requires groups < WORD
    ensures Exact(false, groups)
  {
    hide Delivered;
    forall m: nat | Delivered(false, groups, m) ensures m + 1 < groups && Ret(false, m) == m + 1 {
      PlainDelivered(groups, m);
      PlainRet(m);
    }
    forall m: nat, n: nat | m < n && Delivered(false, groups, n) ensures Ret(false, m) < Ret(false, n) {
      PlainDelivered(groups, m);
    }
    forall g: nat | 1 <= g < groups && HasSuper(false, g)
      ensures exists m: nat :: Delivered(false, groups, m) && Ret(false, m) == g
    {
      PlainDelivered(groups, g - 1);
      PlainRet(g - 1);
    }
  }

  lemma DeliveredGrows(sparse: bool, groups: nat, n: nat)
    requires groups < WORD && (sparse ==> groups <= WRAPPED)
    requires Delivered(sparse, groups, n)
    ensures n < groups
  {
    if sparse {
      var t := TopReached(0);
      DeliveredQuiet(groups, t, n);
      RetAtLeast(n);
    } else {
      PlainDelivered(groups, n);
    }
  }

  /** What the loop has collected when it stops is what is delivered. */
  lemma CollectedExact(sparse: bool, groups: nat, out: seq<nat>)
    requires Exact(sparse, groups) && Ret(sparse, |out|) >= groups
    requires forall i: nat | i < |out| :: out[i] == Ret(sparse, i) && out[i] < groups
    ensures forall i, j :: 0 <= i < j < |out| ==> out[i] < out[j]
    ensures forall g: nat :: g in out <==> 1 <= g < groups && HasSuper(sparse, g)
  {
    hide Ret, HasSuper;
    forall m: nat ensures Delivered(sparse, groups, m) <==> m < |out| {
      if m < |out| {
        forall j: nat | j <= m ensures Ret(sparse, j) < groups {
          assert out[j] == Ret(sparse, j);
        }
      }
    }
    forall g: nat ensures g in out <==> 1 <= g < groups && HasSuper(sparse, g) {
      if g in out {
        var i: nat :| i < |out| && out[i] == g;
        assert Delivered(sparse, groups, i);
      }
      if 1 <= g < groups && HasSuper(sparse, g) {
        var m: nat :| Delivered(sparse, groups, m) && Ret(sparse, m) == g;
        assert out[m] == g;
      }
    }
  }

  /** The loop every caller runs (source/res_gdt.c:177), collecting what it is given. */
  method BackupGroups(sparse: bool, groups: nat) returns (out: seq<nat>)
    requires groups < WORD && (sparse ==> groups <= WRAPPED)
    ensures forall i, j :: 0 <= i < j < |out| ==> out[i] < out[j]
    ensures forall g: nat :: g in out <==> 1 <= g < groups && HasSuper(sparse, g)
  {
    hide Ret, HasSuper, Exact, Advance;
    var cursor := new BackupCursor();
    out := [];
    RetOf(sparse, 0);
    var grp := cursor.ListBackups(sparse);
    while grp < groups
      invariant grp == Ret(sparse, |out|)
      invariant cursor.State() == After(sparse, |out| + 1)
      invariant forall i: nat | i < |out| :: out[i] == Ret(sparse, i) && out[i] < groups
      decreases groups - |out|
    {
      DeliveredBound(sparse, groups, out, grp);
      out := out + [grp];
      RetOf(sparse, |out|);
      grp := cursor.ListBackups(sparse);
    }
    if sparse { SparseExact(groups); } else { PlainExact(groups); }
    CollectedExact(sparse, groups, out);
  }

  lemma DeliveredBound(sparse: bool, groups: nat, out: seq<nat>, grp: nat)
    requires groups < WORD && (sparse ==> groups <= WRAPPED)
    requires grp == Ret(sparse, |out|) < groups
    requires forall i: nat | i < |out| :: out[i] == Ret(sparse, i) && out[i] < groups
    ensures |out| < groups
  {
    hide Ret;
    forall j: nat | j <= |out| ensures Ret(sparse, j) < groups {
      if j < |out| {
        assert out[j] == Ret(sparse, j);
      }
    }
    DeliveredGrows(sparse, groups, |out|);
  }

  lemma RetOf(sparse: bool, n: nat)
    ensures Ret(sparse, n) == Smallest(sparse, After(sparse, n))
    ensures After(sparse, n + 1) == Advance(sparse, After(sparse, n))
    ensures After(sparse, 0) == Counters(1, 5, 7)
  {
  }
}
