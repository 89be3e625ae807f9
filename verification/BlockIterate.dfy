/**
 The walk over the blocks of an inode in the indirect format (source/block.c), for callers that do
 not append and leave the block numbers alone: the calls it makes, and their agreement with the
 mapping that bmap computes.
 */
module BlockIterate {
  import opened Bytes
  import opened BlockTree
  import opened BlockMap

  /** One call of the caller's function; the count is negative for pointer blocks. */
  datatype Call = Call(blk: nat, count: int, ref: nat, offset: nat)

  datatype Flags = Flags(depthTraverse: bool, dataOnly: bool)

  // ---------- Logical ranges ----------

  /** The first logical block under a root. */
  function Start(n: nat, r: nat): nat {
    if r < NDIR then r else if r == 12 then 12 else if r == 13 then 12 + n else 12 + n + Square(n)
  }

  function Levels(p: Spot): nat
    requires p.height <= Depth(p.root)
  {
    Depth(p.root) - p.height
  }

  /** Data blocks under a place. */
  function Span(n: nat, p: Spot): nat
    requires p.height <= Depth(p.root)
  {
    Pow(n, Levels(p))
  }

  /** The first logical block under a place. */
  function Base(n: nat, p: Spot): nat
    requires p.height <= Depth(p.root)
  {
    Start(n, p.root) + p.index * Span(n, p)
  }

  lemma BaseBelow(n: nat, p: Spot, i: nat)
    requires p.height < Depth(p.root)
    ensures Base(n, Below(n, p, i)) == Base(n, p) + i * Span(n, Below(n, p, i))
    ensures Span(n, p) == n * Span(n, Below(n, p, i))
  {
    var P := Span(n, Below(n, p, i));
    assert Pow(n, Levels(p)) == n * P;
    Distribute(p.index, n, i, P);
  }

  /** Data blocks under the first k slots. */
  function Slots(n: nat, p: Spot, k: nat): nat
    requires p.height < Depth(p.root)
  {
    k * Span(n, Below(n, p, 0))
  }

  lemma Distribute(a: nat, n: nat, i: nat, k: nat)
    ensures (a * n + i) * k == a * (n * k) + i * k
  {
  }

  lemma SpotAtBase(n: nat, p: Spot)
    requires Leaf(n, p)
    ensures SpotOf(n, Base(n, p)) == p
  {
    PowSmall(n);
    assert Span(n, p) == 1;
    hide Square;
  }

  // ---------- The calls for data blocks, in terms of bmap ----------

  function DataCall(s: State, l: nat): Call
    requires Shaped(s)
  {
    var p := SpotOf(s.apb, l);
    if p.height == 0 then Call(Map(s, l), l, 0, l)
    else Call(Map(s, l), l, Node(s, Parent(s.apb, p)), 4 * (p.index % s.apb))
  }

  /** One call for every mapped logical block in [lo, hi). */
  function Mapped(s: State, lo: nat, hi: nat): (c: seq<Call>)
    requires Shaped(s)
  {
    if hi <= lo then [] else Mapped(s, lo, hi - 1) + if Map(s, hi - 1) == 0 then [] else [DataCall(s, hi - 1)]
  }

  lemma {:induction false} MappedSplit(s: State, lo: nat, mid: nat, hi: nat)
    requires Shaped(s) && lo <= mid <= hi
    ensures Mapped(s, lo, hi) == Mapped(s, lo, mid) + Mapped(s, mid, hi)
  {
    if mid < hi {
      MappedSplit(s, lo, mid, hi - 1);
    }
  }

  /** Exactly the pairs (l, bmap(l)) with bmap(l) != 0, in strictly increasing l. */
  lemma MappedExact(s: State, lo: nat, hi: nat)
    requires Shaped(s)
    ensures forall l: nat {:trigger Map(s, l)} | lo <= l < hi && Map(s, l) != 0 :: DataCall(s, l) in Mapped(s, lo, hi)
    ensures forall c | c in Mapped(s, lo, hi) :: lo <= c.count < hi && c.blk == Map(s, c.count) != 0
    ensures forall i, j | 0 <= i < j < |Mapped(s, lo, hi)| :: Mapped(s, lo, hi)[i].count < Mapped(s, lo, hi)[j].count
  {
    hide Map, Node, Mapped, DataCall;
    MappedIncludes(s, lo, hi);
    MappedOnly(s, lo, hi);
    MappedOrdered(s, lo, hi);
  }

  lemma {:induction false} MappedIncludes(s: State, lo: nat, hi: nat)
    requires Shaped(s)
    ensures forall l: nat {:trigger Map(s, l)} | lo <= l < hi && Map(s, l) != 0 :: DataCall(s, l) in Mapped(s, lo, hi)
  {
    hide Map, Node, DataCall;
    if lo < hi {
      MappedIncludes(s, lo, hi - 1);
    }
  }

  lemma {:induction false} MappedOnly(s: State, lo: nat, hi: nat)
    requires Shaped(s)
    ensures forall c | c in Mapped(s, lo, hi) :: lo <= c.count < hi && c.blk == Map(s, c.count) != 0
  {
    hide Map, Node, DataCall;
    if lo < hi {
      MappedOnly(s, lo, hi - 1);
      DataCallOf(s, hi - 1);
    }
  }

  lemma {:induction false} MappedOrdered(s: State, lo: nat, hi: nat)
    requires Shaped(s)
    ensures forall i, j | 0 <= i < j < |Mapped(s, lo, hi)| :: Mapped(s, lo, hi)[i].count < Mapped(s, lo, hi)[j].count
  {
    hide Map, Node, DataCall;
    if lo < hi {
      MappedOrdered(s, lo, hi - 1);
      MappedOnly(s, lo, hi - 1);
      DataCallOf(s, hi - 1);
      var a := Mapped(s, lo, hi - 1);
      forall i | 0 <= i < |a| ensures a[i].count < hi - 1 {
        assert a[i] in a;
      }
    }
  }

  lemma DataCallOf(s: State, l: nat)
    requires Shaped(s)
    ensures DataCall(s, l).blk == Map(s, l) && DataCall(s, l).count == l
  {
  }

  // ---------- All the calls, in the order of the walk ----------

  function NonZero(s: State, b: nat, k: nat): (r: nat)
    requires Shaped(s) && k <= s.apb
    ensures r <= k
  {
    if k == 0 then 0 else NonZero(s, b, k - 1) + if Child(s, b, k - 1) == 0 then 0 else 1
  }

  /** The offset passed for a pointer block is that of its slot exactly when no hole precedes it. */
  lemma {:induction false} OffsetExact(s: State, b: nat, k: nat)
    requires Shaped(s) && k <= s.apb
    ensures NonZero(s, b, k) == k <==> forall j: nat {:trigger Child(s, b, j)} | j < k :: Child(s, b, j) != 0
  {
    hide Child;
    if k > 0 {
      OffsetExact(s, b, k - 1);
    }
  }

  /** The call for a pointer block itself, before or after what is under it. */
  function Pre(f: Flags, self: Call): seq<Call> { if !f.depthTraverse && !f.dataOnly then [self] else [] }

  function Post(f: Flags, self: Call): seq<Call> { if f.depthTraverse && !f.dataOnly then [self] else [] }

  /** The calls for the pointer block b at the place p and everything under it. */
  function Calls(s: State, f: Flags, p: Spot, b: nat, ref: nat, offset: nat): seq<Call>
    requires Shaped(s) && p.height < Depth(p.root)
    decreases Levels(p), s.apb + 1
  {
    var self := Call(b, 0 - Levels(p), ref, offset);
    Pre(f, self) + Kids(s, f, p, b, s.apb) + Post(f, self)
  }

  /** The calls under the first k slots. */
  function Kids(s: State, f: Flags, p: Spot, b: nat, k: nat): seq<Call>
    requires Shaped(s) && p.height < Depth(p.root) && k <= s.apb
    decreases Levels(p), k
  {
    if k == 0 then [] else Kids(s, f, p, b, k - 1) + Kid(s, f, p, b, k - 1)
  }

  function Kid(s: State, f: Flags, p: Spot, b: nat, i: nat): seq<Call>
    requires Shaped(s) && p.height < Depth(p.root) && i < s.apb
    decreases Levels(p), i
  {
    var c, q := Child(s, b, i), Below(s.apb, p, i);
    if c == 0 then []
    else if Levels(p) == 1 then [Call(c, Base(s.apb, q), b, 4 * i)]
    else Calls(s, f, q, c, b, 4 * NonZero(s, b, i))
  }

  function Direct(s: State, k: nat): seq<Call>
    requires Shaped(s) && k <= NDIR
  {
    if k == 0 then [] else Direct(s, k - 1) + if s.roots[k - 1] == 0 then [] else [Call(s.roots[k - 1], k - 1, 0, k - 1)]
  }

  function Tree(s: State, f: Flags, r: nat): seq<Call>
    requires Shaped(s) && NDIR <= r < 15
  {
    if s.roots[r] == 0 then [] else Calls(s, f, Spot(r, 0, 0), s.roots[r], 0, r)
  }

  function AllCalls(s: State, f: Flags): seq<Call>
    requires Shaped(s)
  {
    Direct(s, NDIR) + Tree(s, f, 12) + Tree(s, f, 13) + Tree(s, f, 14)
  }

  // ---------- The two walks agree ----------

  function Data(calls: seq<Call>): seq<Call> {
    if calls == [] then [] else Data(calls[..|calls| - 1]) + if calls[|calls| - 1].count < 0 then [] else [calls[|calls| - 1]]
  }

  lemma {:induction false} DataConcat(a: seq<Call>, b: seq<Call>)
    ensures Data(a + b) == Data(a) + Data(b)
  {
    if b == [] {
      assert a + b == a;
    } else {
      DataConcat(a, b[..|b| - 1]);
      assert (a + b)[..|a + b| - 1] == a + b[..|b| - 1];
    }
  }

  lemma DataOne(c: Call)
    ensures Data([c]) == if c.count < 0 then [] else [c]
  {
    assert [c][..0] == [];
    assert Data([]) == [];
  }

  /** Nothing is mapped under a hole, so the jumps of the count are right. */
  lemma {:induction false} NothingUnderHole(s: State, p: Spot)
    requires Shaped(s) && Place(s.apb, p) && Node(s, p) == 0
    ensures Mapped(s, Base(s.apb, p), Base(s.apb, p) + Span(s.apb, p)) == []
    decreases Levels(p)
  {
    if p.height == Depth(p.root) {
      SpotAtBase(s.apb, p);
      LeafRange(s, p);
    } else {
      NothingUnderSlots(s, p, s.apb);
      SlotsAll(s.apb, p);
    }
  }

  lemma LeafRange(s: State, p: Spot)
    requires Shaped(s) && Leaf(s.apb, p)
    ensures Span(s.apb, p) == 1 && Map(s, Base(s.apb, p)) == Node(s, p)
    ensures Mapped(s, Base(s.apb, p), Base(s.apb, p) + 1) == if Node(s, p) == 0 then [] else [DataCall(s, Base(s.apb, p))]
  {
    hide Node;
    SpotAtBase(s.apb, p);
    PowSmall(s.apb);
    assert Mapped(s, Base(s.apb, p), Base(s.apb, p)) == [];
  }

  predicate SpotBelow(p: Spot, q: Spot) { q.root == p.root && q.height == p.height + 1 }

  lemma ChildNode(s: State, p: Spot, i: nat)
    requires Shaped(s) && Inner(s.apb, p) && i < s.apb
    ensures var q := Below(s.apb, p, i);
      Place(s.apb, q) && SpotBelow(p, q) && Node(s, q) == Child(s, Node(s, p), i)
  {
    BelowPlace(s.apb, p, i);
    hide Ptr;
  }

  lemma HoleChild(s: State, p: Spot, i: nat)
    requires Shaped(s) && Inner(s.apb, p) && Node(s, p) == 0 && i < s.apb
    ensures Place(s.apb, Below(s.apb, p, i)) && SpotBelow(p, Below(s.apb, p, i)) && Node(s, Below(s.apb, p, i)) == 0
  {
    BelowPlace(s.apb, p, i);
    hide Ptr;
  }

  lemma {:induction false} NothingUnderSlots(s: State, p: Spot, k: nat)
    requires Shaped(s) && Inner(s.apb, p) && Node(s, p) == 0 && k <= s.apb
    ensures Mapped(s, Base(s.apb, p), Base(s.apb, p) + Slots(s.apb, p, k)) == []
    decreases Levels(p), k
  {
    hide Span, Base, Ptr, Node, Mapped, Pow, Slots, Below, Place, Child;
    SlotsAll(s.apb, p);
    EmptyData(s, Base(s.apb, p));
    PlaceRoot(s.apb, p);
    if k > 0 {
      var q := Below(s.apb, p, k - 1);
      NothingUnderSlots(s, p, k - 1);
      HoleChild(s, p, k - 1);
      NothingUnderHole(s, q);
      NextSlot(s, p, k);
    }
  }

  /** The range of the first k slots is that of k - 1 slots and the range of slot k - 1. */
  lemma NextSlot(s: State, p: Spot, k: nat)
    requires Shaped(s) && p.height < Depth(p.root) && k > 0
    ensures var base, q := Base(s.apb, p), Below(s.apb, p, k - 1);
      && Base(s.apb, q) == base + Slots(s.apb, p, k - 1)
      && Mapped(s, base, base + Slots(s.apb, p, k))
         == Mapped(s, base, base + Slots(s.apb, p, k - 1)) + Mapped(s, Base(s.apb, q), Base(s.apb, q) + Span(s.apb, q))
  {
    hide Pow, Mapped;
    var base, q, w := Base(s.apb, p), Below(s.apb, p, k - 1), Span(s.apb, Below(s.apb, p, 0));
    BaseBelow(s.apb, p, k - 1);
    assert Span(s.apb, q) == w;
    assert k * w == (k - 1) * w + w;
    hide Base, Span, Below;
    MappedSplit(s, base, base + (k - 1) * w, base + k * w);
  }

  /** Under one pointer block. */
  lemma {:induction false} KidsAgree(s: State, f: Flags, p: Spot, k: nat)
    requires Shaped(s) && Inner(s.apb, p) && k <= s.apb
    ensures Data(Kids(s, f, p, Node(s, p), k)) == Mapped(s, Base(s.apb, p), Base(s.apb, p) + Slots(s.apb, p, k))
    decreases Levels(p), k
  {
    hide Span, Base, Ptr, Mapped, Data, Calls, Kid, Map, SpotOf, Node, Pow, Slots, Below, Place, Child;
    SlotsAll(s.apb, p);
    PlaceRoot(s.apb, p);
    if k == 0 {
      EmptyData(s, Base(s.apb, p));
    } else {
      var b := Node(s, p);
      KidsAgree(s, f, p, k - 1);
      DataConcat(Kids(s, f, p, b, k - 1), Kid(s, f, p, b, k - 1));
      ChildNode(s, p, k - 1);
      NextSlot(s, p, k);
      KidAgrees(s, f, p, k - 1);
    }
  }

  lemma EmptyData(s: State, l: nat)
    requires Shaped(s)
    ensures Data([]) == [] == Mapped(s, l, l)
  {
  }

  /** The call for a data block, made with its pointer block and slot. */
  lemma LeafCall(s: State, p: Spot, i: nat)
    requires Shaped(s) && Inner(s.apb, p) && i < s.apb && Levels(p) == 1
    ensures var q := Below(s.apb, p, i);
      Leaf(s.apb, q) && DataCall(s, Base(s.apb, q)) == Call(Child(s, Node(s, p), i), Base(s.apb, q), Node(s, p), 4 * i)
  {
    hide Ptr, Node, Base, SpotOf, Child, Pow;
    var q := Below(s.apb, p, i);
    BelowPlace(s.apb, p, i);
    ChildNode(s, p, i);
    SpotAtBase(s.apb, q);
  }

  lemma {:induction false} KidAgrees(s: State, f: Flags, p: Spot, i: nat)
    requires Shaped(s) && Inner(s.apb, p) && i < s.apb
    ensures var q := Below(s.apb, p, i);
      Data(Kid(s, f, p, Node(s, p), i)) == Mapped(s, Base(s.apb, q), Base(s.apb, q) + Span(s.apb, q))
    decreases Levels(p), i
  {
    hide Span, Base, Ptr, Mapped, Data, Map, SpotOf, Pow, Calls, Kids, Below, Place, Node, Child;
    PlaceRoot(s.apb, p);
    var b, q := Node(s, p), Below(s.apb, p, i);
    ChildNode(s, p, i);
    EmptyData(s, 0);
    if Child(s, b, i) == 0 {
      NothingUnderHole(s, q);
    } else if Levels(p) == 1 {
      DataOne(Call(Child(s, b, i), Base(s.apb, q), b, 4 * i));
      LeafRange(s, q);
      LeafCall(s, p, i);
    } else {
      CallsAgree(s, f, q, b, 4 * NonZero(s, b, i));
    }
  }

  lemma {:induction false} CallsAgree(s: State, f: Flags, p: Spot, ref: nat, offset: nat)
    requires Shaped(s) && Inner(s.apb, p)
    ensures Data(Calls(s, f, p, Node(s, p), ref, offset)) == Mapped(s, Base(s.apb, p), Base(s.apb, p) + Span(s.apb, p))
    decreases Levels(p), s.apb + 1
  {
    hide Base, Span, Data, Mapped, Node, Kids, Slots;
    var b := Node(s, p);
    var self := Call(b, 0 - Levels(p), ref, offset);
    var pre, post := Pre(f, self), Post(f, self);
    KidsAgree(s, f, p, s.apb);
    SlotsAll(s.apb, p);
    DataConcat(pre + Kids(s, f, p, b, s.apb), post);
    DataConcat(pre, Kids(s, f, p, b, s.apb));
    DataOne(self);
    EmptyData(s, 0);
  }

  lemma {:induction false} DirectAgrees(s: State, k: nat)
    requires Shaped(s) && k <= NDIR
    ensures Data(Direct(s, k)) == Mapped(s, 0, k)
  {
    if k > 0 {
      DirectAgrees(s, k - 1);
      var c := Call(s.roots[k - 1], k - 1, 0, k - 1);
      DataConcat(Direct(s, k - 1), if s.roots[k - 1] == 0 then [] else [c]);
      DataOne(c);
    }
  }

  lemma TreeAgrees(s: State, f: Flags, r: nat)
    requires Shaped(s) && NDIR <= r < 15
    ensures Data(Tree(s, f, r)) == Mapped(s, Start(s.apb, r), Start(s.apb, r) + Pow(s.apb, Depth(r)))
  {
    hide Mapped, Data, Calls;
    RootSpot(s, r);
    var p := Spot(r, 0, 0);
    assert Base(s.apb, p) == Start(s.apb, r);
    EmptyData(s, 0);
    if s.roots[r] == 0 {
      NothingUnderHole(s, p);
    } else {
      CallsAgree(s, f, p, 0, r);
    }
  }

  /** The walk calls for exactly the mapped data blocks, in order, whatever the flags. */
  lemma WalksAgree(s: State, f: Flags)
    requires Shaped(s)
    ensures Data(AllCalls(s, f)) == Mapped(s, 0, Start(s.apb, 14) + Pow(s.apb, 3))
  {
    hide Mapped, Data, Direct, Tree;
    hide Pow, Square;
    var n := s.apb;
    PowSmall(n);
    DirectAgrees(s, NDIR);
    TreeAgrees(s, f, 12);
    TreeAgrees(s, f, 13);
    TreeAgrees(s, f, 14);
    var a, b, c, d := Direct(s, NDIR), Tree(s, f, 12), Tree(s, f, 13), Tree(s, f, 14);
    DataConcat(a + b + c, d);
    DataConcat(a + b, c);
    DataConcat(a, b);
    MappedSplit(s, 0, 12, 12 + n);
    MappedSplit(s, 0, 12 + n, Start(n, 14));
    MappedSplit(s, 0, Start(n, 14), Start(n, 14) + Pow(n, 3));
  }

  // ---------- The loops ----------

  /** Every pointer block of the tree lies inside the file system. */
  ghost predicate InBounds(s: State, first: nat) {
    && Shaped(s)
    && forall p {:trigger Node(s, p)} | Inner(s.apb, p) && Node(s, p) != 0 :: first <= Node(s, p) < |s.disk|
  }

  /** The calls made are all of `full`, or end with the first one that asked to stop. */
  ghost predicate Until(abort: Call -> bool, full: seq<Call>, got: seq<Call>, stopped: bool) {
    && got <= full
    && (forall i | 0 <= i < |got| - 1 :: !abort(got[i]))
    && (if stopped then got != [] && abort(got[|got| - 1]) else got == full && (got != [] ==> !abort(got[|got| - 1])))
  }

  lemma UntilThen(abort: Call -> bool, a: seq<Call>, b: seq<Call>, got: seq<Call>, more: seq<Call>, stopped: bool)
    requires Until(abort, a, got, false) && Until(abort, b, more, stopped)
    ensures Until(abort, a + b, got + more, stopped)
  {
  }

  lemma UntilStopped(abort: Call -> bool, a: seq<Call>, b: seq<Call>, got: seq<Call>)
    requires Until(abort, a, got, true)
    ensures Until(abort, a + b, got, true)
  {
  }

  datatype Ret = Continue | Abort | Error

  /** Between `before` and `after`, the calls in `full` were made. */
  ghost predicate Went(abort: Call -> bool, full: seq<Call>, before: seq<Call>, after: seq<Call>, ret: Ret) {
    ret != Error && before <= after && Until(abort, full, after[|before|..], ret == Abort)
  }

  lemma WentNowhere(abort: Call -> bool, before: seq<Call>)
    ensures Went(abort, [], before, before, Continue)
  {
  }

  lemma WentOne(abort: Call -> bool, full: seq<Call>, c: Call, c0: seq<Call>, c1: seq<Call>)
    requires Went(abort, full, c0, c1, Continue)
    ensures Went(abort, full + [c], c0, c1 + [c], if abort(c) then Abort else Continue)
  {
    assert (c1 + [c])[|c0|..] == c1[|c0|..] + [c];
    UntilThen(abort, full, [c], c1[|c0|..], [c], abort(c));
  }

  lemma WentThen(abort: Call -> bool, a: seq<Call>, b: seq<Call>, c0: seq<Call>, c1: seq<Call>, c2: seq<Call>, ret: Ret)
    requires Went(abort, a, c0, c1, Continue) && Went(abort, b, c1, c2, ret)
    ensures Went(abort, a + b, c0, c2, ret)
  {
    assert c2[|c0|..] == c1[|c0|..] + c2[|c1|..];
    UntilThen(abort, a, b, c1[|c0|..], c2[|c1|..], ret == Abort);
  }

  lemma WentStopped(abort: Call -> bool, a: seq<Call>, b: seq<Call>, c0: seq<Call>, c1: seq<Call>)
    requires Went(abort, a, c0, c1, Abort)
    ensures Went(abort, a + b, c0, c1, Abort)
  {
    UntilStopped(abort, a, b, c1[|c0|..]);
  }

  class Context {
    const vol: Volume
    const flags: Flags
    const abort: Call -> bool
    var bcount: nat
    var calls: seq<Call>

    constructor (vol: Volume, flags: Flags, abort: Call -> bool)
      ensures this.vol == vol && this.flags == flags && this.abort == abort && bcount == 0 && calls == []
    {
      this.vol, this.flags, this.abort, bcount, calls := vol, flags, abort, 0, [];
    }

    /** s is the state of the volume, as far as the walk reads it. */
    ghost predicate Ready(s: State)
      reads vol
    {
      && s.disk == vol.disk && s.apb == vol.apb && |s.disk| == vol.balloc.sb.blocksCount
      && InBounds(s, vol.balloc.sb.firstDataBlock)
    }

    method Invoke(c: Call) returns (stop: bool)
      modifies this`calls
      ensures calls == old(calls) + [c] && stop == abort(c)
    {
      calls := calls + [c];
      stop := abort(c);
    }

    /** The call for a pointer block before what is under it. */
    method FirstCall(self: Call, ghost kids: seq<Call>, ghost post: seq<Call>) returns (stop: bool)
      modifies this`calls
      ensures if stop then Went(abort, Pre(flags, self) + kids + post, old(calls), calls, Abort) else Went(abort, Pre(flags, self), old(calls), calls, Continue)
    {
      hide Went;
      WentNowhere(abort, calls);
      if !flags.depthTraverse && !flags.dataOnly {
        WentOne(abort, [], self, calls, calls);
        stop := Invoke(self);
        assert [] + [self] == Pre(flags, self);
        if stop {
          WentStopped(abort, Pre(flags, self), kids + post, old(calls), calls);
          assert Pre(flags, self) + (kids + post) == Pre(flags, self) + kids + post;
        }
      } else {
        stop := false;
      }
    }

    /** The call for a pointer block after what is under it. */
    method LastCall(self: Call, ghost done: seq<Call>, ghost c0: seq<Call>) returns (ret: Ret)
      requires Went(abort, done, c0, calls, Continue)
      modifies this`calls
      ensures Went(abort, done + Post(flags, self), c0, calls, ret) && ret != Error
    {
      hide Went;
      if flags.depthTraverse && !flags.dataOnly {
        WentOne(abort, done, self, c0, calls);
        var stop := Invoke(self);
        return if stop then Abort else Continue;
      }
      assert done + [] == done;
      return Continue;
    }

    /** block_iterate_ind */
    method IterateInd(ind: nat, ref: nat, offset: nat, ghost s: State, ghost p: Spot) returns (ret: Ret)
      requires Ready(s) && Inner(s.apb, p) && Levels(p) == 1 && ind == Node(s, p) != 0 && bcount == Base(s.apb, p)
      modifies this
      ensures Went(abort, Calls(s, flags, p, ind, ref, offset), old(calls), calls, ret)
      ensures ret == Continue ==> bcount == Base(s.apb, p) + Span(s.apb, p)
    {
      hide Node, Base, Span, Ptr, Kid, Kids, Calls, Went, Pre, Post;
      ghost var c0 := calls;
      var limit := vol.apb;
      var self := Call(ind, -1, ref, offset);
      ghost var pre, post := Pre(flags, self), Post(flags, self);
      CallsAround(s, flags, p, ind, ref, offset);
      IndBase(s, p);
      var stop := FirstCall(self, Kids(s, flags, p, ind, limit), post);
      if stop {
        bcount := bcount + limit;
        return Abort;
      }
      if ind >= vol.balloc.sb.blocksCount || ind < vol.balloc.sb.firstDataBlock {
        return Error;
      }
      var buf := vol.disk[ind];
      var i := 0;
      NoKids(s, flags, p, ind, pre);
      while i < limit
        invariant 0 <= i <= limit && bcount == Base(s.apb, p) + i
        invariant Went(abort, pre + Kids(s, flags, p, ind, i), old(calls), calls, Continue)
      {
        DataKid(s, flags, p, ind, i);
        assert pre + Kids(s, flags, p, ind, i + 1) == pre + Kids(s, flags, p, ind, i) + Kid(s, flags, p, ind, i);
        assert pre + Kids(s, flags, p, ind, i) + [] == pre + Kids(s, flags, p, ind, i);
        if Ptr(buf, i) != 0 {
          var c := Call(Ptr(buf, i), bcount, ind, 4 * i);
          WentOne(abort, pre + Kids(s, flags, p, ind, i), c, old(calls), calls);
          var stop := Invoke(c);
          if stop {
            KidsStopped(abort, s, flags, p, ind, i + 1, pre, post, old(calls), calls);
            return Abort;
          }
        }
        i, bcount := i + 1, bcount + 1;
      }
      ret := LastCall(self, pre + Kids(s, flags, p, ind, limit), c0);
    }

    /** block_iterate_dind */
    method IterateDind(ind: nat, ref: nat, offset0: nat, ghost s: State, ghost p: Spot) returns (ret: Ret)
      requires Ready(s) && Inner(s.apb, p) && Levels(p) == 2 && ind == Node(s, p) != 0 && bcount == Base(s.apb, p)
      modifies this
      ensures Went(abort, Calls(s, flags, p, ind, ref, offset0), old(calls), calls, ret)
      ensures ret == Continue ==> bcount == Base(s.apb, p) + Span(s.apb, p)
    {
      hide Node, Base, Span, Ptr, Kid, Kids, Calls, Went, Square, Pow, Below, Slots, NonZero, Pre, Post;
      ghost var c0 := calls;
      var limit := vol.apb;
      var self := Call(ind, -2, ref, offset0);
      ghost var pre, post := Pre(flags, self), Post(flags, self);
      CallsAround(s, flags, p, ind, ref, offset0);
      var stop := FirstCall(self, Kids(s, flags, p, ind, limit), post);
      if stop {
        bcount := bcount + Square(limit);
        return Abort;
      }
      if ind >= vol.balloc.sb.blocksCount || ind < vol.balloc.sb.firstDataBlock {
        return Error;
      }
      var buf := vol.disk[ind];
      var i, offset := 0, 0;
      NoKids(s, flags, p, ind, pre);
      KidRange(s, flags, p, ind, 0);
      while i < limit
        invariant 0 <= i <= limit && bcount == Base(s.apb, p) + Slots(s.apb, p, i) && offset == 4 * NonZero(s, ind, i)
        invariant Went(abort, pre + Kids(s, flags, p, ind, i), old(calls), calls, Continue)
      {
        ghost var q := Below(s.apb, p, i);
        KidRange(s, flags, p, ind, i);
        assert pre + Kids(s, flags, p, ind, i + 1) == pre + Kids(s, flags, p, ind, i) + Kid(s, flags, p, ind, i);
        assert pre + Kids(s, flags, p, ind, i) + [] == pre + Kids(s, flags, p, ind, i);
        if Ptr(buf, i) == 0 {
          bcount := bcount + limit;
        } else {
          ghost var c1 := calls;
          var r := IterateInd(Ptr(buf, i), ind, offset, s, q);
          WentThen(abort, pre + Kids(s, flags, p, ind, i), Kid(s, flags, p, ind, i), old(calls), c1, calls, r);
          if r != Continue {
            KidsStopped(abort, s, flags, p, ind, i + 1, pre, post, old(calls), calls);
            return r;
          }
          offset := offset + 4;
        }
        i := i + 1;
      }
      SlotsAll(s.apb, p);
      ret := LastCall(self, pre + Kids(s, flags, p, ind, limit), c0);
    }

    /** block_iterate_tind */
    method IterateTind(ind: nat, ref: nat, offset0: nat, ghost s: State, ghost p: Spot) returns (ret: Ret)
      requires Ready(s) && Inner(s.apb, p) && Levels(p) == 3 && ind == Node(s, p) != 0 && bcount == Base(s.apb, p)
      modifies this
      ensures Went(abort, Calls(s, flags, p, ind, ref, offset0), old(calls), calls, ret)
      ensures ret == Continue ==> bcount == Base(s.apb, p) + Span(s.apb, p)
    {
      hide Node, Base, Span, Ptr, Kid, Kids, Calls, Went, Square, Pow, Below, Slots, NonZero, Pre, Post;
      ghost var c0 := calls;
      var limit := vol.apb;
      var self := Call(ind, -3, ref, offset0);
      ghost var pre, post := Pre(flags, self), Post(flags, self);
      CallsAround(s, flags, p, ind, ref, offset0);
      var stop := FirstCall(self, Kids(s, flags, p, ind, limit), post);
      if stop {
        bcount := bcount + limit * Square(limit);
        return Abort;
      }
      if ind >= vol.balloc.sb.blocksCount || ind < vol.balloc.sb.firstDataBlock {
        return Error;
      }
      var buf := vol.disk[ind];
      var i, offset := 0, 0;
      NoKids(s, flags, p, ind, pre);
      KidRange(s, flags, p, ind, 0);
      while i < limit
        invariant 0 <= i <= limit && bcount == Base(s.apb, p) + Slots(s.apb, p, i) && offset == 4 * NonZero(s, ind, i)
        invariant Went(abort, pre + Kids(s, flags, p, ind, i), old(calls), calls, Continue)
      {
        ghost var q := Below(s.apb, p, i);
        KidRange(s, flags, p, ind, i);
        assert pre + Kids(s, flags, p, ind, i + 1) == pre + Kids(s, flags, p, ind, i) + Kid(s, flags, p, ind, i);
        assert pre + Kids(s, flags, p, ind, i) + [] == pre + Kids(s, flags, p, ind, i);
        if Ptr(buf, i) == 0 {
          bcount := bcount + Square(limit);
        } else {
          ghost var c1 := calls;
          var r := IterateDind(Ptr(buf, i), ind, offset, s, q);
          WentThen(abort, pre + Kids(s, flags, p, ind, i), Kid(s, flags, p, ind, i), old(calls), c1, calls, r);
          if r != Continue {
            KidsStopped(abort, s, flags, p, ind, i + 1, pre, post, old(calls), calls);
            return r;
          }
          offset := offset + 4;
        }
        i := i + 1;
      }
      SlotsAll(s.apb, p);
      ret := LastCall(self, pre + Kids(s, flags, p, ind, limit), c0);
    }

    /** The loop over the inode's own blocks in ext2fs_block_iterate3. */
    method IterateDirect(roots: seq<nat>, ghost s: State) returns (ret: Ret)
      requires Ready(s) && s.roots == roots && bcount == 0
      modifies this
      ensures Went(abort, Direct(s, NDIR), old(calls), calls, ret)
      ensures ret == Continue ==> bcount == NDIR
    {
      hide Went;
      var i := 0;
      WentNowhere(abort, calls);
      while i < NDIR
        invariant 0 <= i <= NDIR && bcount == i
        invariant Went(abort, Direct(s, i), old(calls), calls, Continue)
      {
        assert Direct(s, i) + [] == Direct(s, i);
        if roots[i] != 0 {
          var c := Call(roots[i], bcount, 0, i);
          WentOne(abort, Direct(s, i), c, old(calls), calls);
          var stop := Invoke(c);
          if stop {
            DirectPrefix(s, i + 1);
            WentStopped(abort, Direct(s, i + 1), Direct(s, NDIR)[|Direct(s, i + 1)|..], old(calls), calls);
            assert Direct(s, i + 1) + Direct(s, NDIR)[|Direct(s, i + 1)|..] == Direct(s, NDIR);
            return Abort;
          }
        }
        i, bcount := i + 1, bcount + 1;
      }
      return Continue;
    }

    /** The calls of the non-extent part of ext2fs_block_iterate3, in order. */
    method IterateAll(roots: seq<nat>, ghost s: State) returns (ret: Ret)
      requires Ready(s) && s.roots == roots && bcount == 0
      modifies this
      ensures Went(abort, AllCalls(s, flags), old(calls), calls, ret)
    {
      hide Node, Ptr, Went, Calls, Pow, Square, Span, Base, Inner, Levels, Direct, Tree;
      ghost var dir, t12, t13, t14 := Direct(s, NDIR), Tree(s, flags, 12), Tree(s, flags, 13), Tree(s, flags, 14);
      var limit := vol.apb;
      ret := IterateDirect(roots, s);
      if ret == Abort {
        WentStopped(abort, dir, t12 + t13 + t14, old(calls), calls);
        assert dir + (t12 + t13 + t14) == AllCalls(s, flags);
        return Abort;
      }
      WentKind(abort, dir, old(calls), calls, ret);
      TreeRoot(s, flags, 12);
      assert dir + [] == dir;
      if roots[12] != 0 {
        ghost var c12 := calls;
        ret := IterateInd(roots[12], 0, 12, s, Spot(12, 0, 0));
        WentThen(abort, dir, t12, old(calls), c12, calls, ret);
        if ret == Abort {
          WentStopped(abort, dir + t12, t13 + t14, old(calls), calls);
          assert dir + t12 + (t13 + t14) == AllCalls(s, flags);
          return Abort;
        }
      } else {
        bcount := bcount + limit;
      }
      TreeRoot(s, flags, 13);
      assert dir + t12 + [] == dir + t12;
      if roots[13] != 0 {
        ghost var c13 := calls;
        ret := IterateDind(roots[13], 0, 13, s, Spot(13, 0, 0));
        WentThen(abort, dir + t12, t13, old(calls), c13, calls, ret);
        if ret == Abort {
          WentStopped(abort, dir + t12 + t13, t14, old(calls), calls);
          assert dir + t12 + t13 + (t14) == AllCalls(s, flags);
          return Abort;
        }
      } else {
        bcount := bcount + Square(limit);
      }
      TreeRoot(s, flags, 14);
      assert dir + t12 + t13 + [] == dir + t12 + t13;
      if roots[14] != 0 {
        ghost var c14 := calls;
        ret := IterateTind(roots[14], 0, 14, s, Spot(14, 0, 0));
        WentThen(abort, dir + t12 + t13, t14, old(calls), c14, calls, ret);
        if ret == Abort {
          return Abort;
        }
      }
      return Continue;
    }

    /** The non-extent part of ext2fs_block_iterate3: the calls for data blocks are those of the
        mapped logical blocks in increasing order, all of them unless a call asks to stop. */
    method BlockIterate3(roots: seq<nat>, ghost s: State) returns (ret: Ret)
      requires Ready(s) && s.roots == roots && bcount == 0
      modifies this
      ensures Went(abort, AllCalls(s, flags), old(calls), calls, ret)
      ensures ret != Error && old(calls) <= calls && calls[|old(calls)|..] <= AllCalls(s, flags)
      ensures forall i | |old(calls)| <= i < |calls| :: abort(calls[i]) ==> ret == Abort && i == |calls| - 1
      ensures if ret == Abort then |old(calls)| < |calls| && abort(calls[|calls| - 1]) else calls[|old(calls)|..] == AllCalls(s, flags)
      ensures Data(calls[|old(calls)|..]) <= Mapped(s, 0, Start(s.apb, 14) + Pow(s.apb, 3))
      ensures ret == Continue ==> Data(calls[|old(calls)|..]) == Mapped(s, 0, Start(s.apb, 14) + Pow(s.apb, 3))
    {
      ret := IterateAll(roots, s);
      WalksAgree(s, flags);
      hide AllCalls, Mapped, Data, InBounds;
      ghost var got := calls[|old(calls)|..];
      assert got <= AllCalls(s, flags);
      forall i | |old(calls)| <= i < |calls| ensures calls[i] == got[i - |old(calls)|] {
      }
      DataPrefix(got, AllCalls(s, flags));
    }
  }

  lemma IndBase(s: State, p: Spot)
    requires Shaped(s) && Inner(s.apb, p) && Levels(p) == 1
    ensures Span(s.apb, p) == s.apb
  {
    PowSmall(s.apb);
  }

  lemma NoKids(s: State, f: Flags, p: Spot, b: nat, pre: seq<Call>)
    requires Shaped(s) && p.height < Depth(p.root)
    ensures pre + Kids(s, f, p, b, 0) == pre
  {
  }

  lemma DataKid(s: State, f: Flags, p: Spot, b: nat, i: nat)
    requires Shaped(s) && Inner(s.apb, p) && Levels(p) == 1 && i < s.apb
    ensures Kid(s, f, p, b, i) == if Child(s, b, i) == 0 then [] else [Call(Child(s, b, i), Base(s.apb, p) + i, b, 4 * i)]
    ensures Kids(s, f, p, b, i + 1) == Kids(s, f, p, b, i) + Kid(s, f, p, b, i)
  {
    BaseBelow(s.apb, p, i);
    PowSmall(s.apb);
  }

  lemma {:induction false} KidsPrefix(s: State, f: Flags, p: Spot, b: nat, k: nat, m: nat)
    requires Shaped(s) && p.height < Depth(p.root) && k <= m <= s.apb
    ensures exists rest :: Kids(s, f, p, b, m) == Kids(s, f, p, b, k) + rest
    decreases m
  {
    hide Kid;
    if k == m {
      assert Kids(s, f, p, b, m) == Kids(s, f, p, b, k) + [];
    } else {
      KidsPrefix(s, f, p, b, k, m - 1);
      var rest :| Kids(s, f, p, b, m - 1) == Kids(s, f, p, b, k) + rest;
      assert Kids(s, f, p, b, m) == Kids(s, f, p, b, k) + (rest + Kid(s, f, p, b, m - 1));
    }
  }

  /** Stopping under slot k - 1 stops the whole block. */
  lemma KidsStopped(abort: Call -> bool, s: State, f: Flags, p: Spot, b: nat, k: nat, pre: seq<Call>, post: seq<Call>, c0: seq<Call>, c1: seq<Call>)
    requires Shaped(s) && p.height < Depth(p.root) && k <= s.apb
    requires Went(abort, pre + Kids(s, f, p, b, k), c0, c1, Abort)
    ensures Went(abort, pre + Kids(s, f, p, b, s.apb) + post, c0, c1, Abort)
  {
    hide Kids, Went;
    KidsPrefix(s, f, p, b, k, s.apb);
    var rest :| Kids(s, f, p, b, s.apb) == Kids(s, f, p, b, k) + rest;
    WentStopped(abort, pre + Kids(s, f, p, b, k), rest + post, c0, c1);
    assert pre + Kids(s, f, p, b, k) + (rest + post) == pre + Kids(s, f, p, b, s.apb) + post;
  }

  lemma SlotsAll(n: nat, p: Spot)
    requires p.height < Depth(p.root)
    ensures Slots(n, p, n) == Span(n, p) && Slots(n, p, 0) == 0
  {
    BaseBelow(n, p, 0);
  }

  lemma KidRange(s: State, f: Flags, p: Spot, b: nat, i: nat)
    requires Shaped(s) && Inner(s.apb, p) && 1 < Levels(p) <= 3 && i < s.apb && b == Node(s, p)
    ensures var q := Below(s.apb, p, i);
      && q.root == p.root && q.height == p.height + 1 && Inner(s.apb, q) && Node(s, q) == Child(s, b, i) && Base(s.apb, q) == Base(s.apb, p) + Slots(s.apb, p, i)
      && Span(s.apb, q) == (if Levels(p) == 2 then s.apb else Square(s.apb))
      && Slots(s.apb, p, i + 1) == Slots(s.apb, p, i) + Span(s.apb, q)
      && Kids(s, f, p, b, i + 1) == Kids(s, f, p, b, i) + Kid(s, f, p, b, i)
      && Kid(s, f, p, b, i) == (if Child(s, b, i) == 0 then [] else Calls(s, f, q, Child(s, b, i), b, 4 * NonZero(s, b, i)))
    ensures Slots(s.apb, p, 0) == 0 && NonZero(s, b, 0) == 0
    ensures NonZero(s, b, i + 1) == NonZero(s, b, i) + if Child(s, b, i) == 0 then 0 else 1
  {
    var q := Below(s.apb, p, i);
    hide Calls, Square, Node, Base;
    ChildNode(s, p, i);
    BaseBelow(s.apb, p, i);
    PowSmall(s.apb);
    var w := Span(s.apb, q);
    assert (i + 1) * w == i * w + w;
  }

  lemma {:induction false} DirectPrefix(s: State, k: nat)
    requires Shaped(s) && k <= NDIR
    ensures Direct(s, k) <= Direct(s, NDIR)
    decreases NDIR - k
  {
    if k < NDIR {
      DirectPrefix(s, k + 1);
    }
  }

  lemma TreeRoot(s: State, f: Flags, r: nat)
    requires Shaped(s) && NDIR <= r < 15
    ensures Tree(s, f, r) == if s.roots[r] == 0 then [] else Calls(s, f, Spot(r, 0, 0), s.roots[r], 0, r)
    ensures var p := Spot(r, 0, 0);
      && Inner(s.apb, p) && Node(s, p) == s.roots[r] && Base(s.apb, p) == Start(s.apb, r) && Levels(p) == r - 11
      && Span(s.apb, p) == (if r == 12 then s.apb else if r == 13 then Square(s.apb) else Pow(s.apb, 3))
  {
    PowSmall(s.apb);
  }

  lemma WentKind(abort: Call -> bool, full: seq<Call>, c0: seq<Call>, c1: seq<Call>, ret: Ret)
    requires Went(abort, full, c0, c1, ret)
    ensures ret != Error
  {
  }

  lemma CallsAround(s: State, f: Flags, p: Spot, b: nat, ref: nat, offset: nat)
    requires Shaped(s) && p.height < Depth(p.root)
    ensures var self := Call(b, 0 - Levels(p), ref, offset);
      Calls(s, f, p, b, ref, offset) == Pre(f, self) + Kids(s, f, p, b, s.apb) + Post(f, self)
  {
    hide Kids;
  }

  lemma DataPrefix(a: seq<Call>, b: seq<Call>)
    requires a <= b
    ensures Data(a) <= Data(b)
  {
    assert b == a + b[|a|..];
    DataConcat(a, b[|a|..]);
  }
}
