/**
 What the walk over the blocks of an inode calls for, place by place (source/block.c): which blocks,
 with which arguments, and in which order.
 */
module BlockOrder {
  import opened Bytes
  import opened BlockTree
  import opened BlockMap
  import opened BlockIterate

  // ---------- The places in the order of the walk ----------

  /** The places with a block at p and below. */
  ghost function Places(s: State, f: Flags, p: Spot): seq<Spot>
    requires Shaped(s) && p.root < 15 && p.height <= Depth(p.root)
    decreases Levels(p), s.apb + 1
  {
    if Node(s, p) == 0 then []
    else if p.height == Depth(p.root) then [p]
    else (if f.depthTraverse || f.dataOnly then [] else [p]) + PlacesIn(s, f, p, s.apb) + (if f.depthTraverse && !f.dataOnly then [p] else [])
  }

  /** Those in the first k slots of p. */
  ghost function PlacesIn(s: State, f: Flags, p: Spot, k: nat): seq<Spot>
    requires Shaped(s) && p.root < 15 && p.height < Depth(p.root) && k <= s.apb
    decreases Levels(p), k
  {
    if k == 0 then [] else PlacesIn(s, f, p, k - 1) + Places(s, f, Below(s.apb, p, k - 1))
  }

  ghost function RootPlaces(s: State, f: Flags, k: nat): seq<Spot>
    requires Shaped(s) && k <= 15
  {
    if k == 0 then [] else RootPlaces(s, f, k - 1) + Places(s, f, Spot(k - 1, 0, 0))
  }

  // ---------- The calls are for these places ----------

  /** The call for the block at p: data blocks with their logical number, pointer blocks with their level
      below zero, each with the block and the offset where it was found. */
  ghost predicate CallFor(s: State, c: Call, p: Spot)
    requires Shaped(s)
  {
    && Place(s.apb, p) && c.blk == Node(s, p) != 0
    && (if p.height == Depth(p.root) then c.count >= 0 && SpotOf(s.apb, c.count) == p else c.count == p.height - Depth(p.root))
    && c.ref == (if p.height == 0 then 0 else Node(s, Parent(s.apb, p)))
    && c.offset == if p.height == 0 then p.root
                   else if p.height == Depth(p.root) then 4 * (p.index % s.apb)
                   else 4 * NonZero(s, Node(s, Parent(s.apb, p)), p.index % s.apb)
  }

  ghost predicate Match(s: State, calls: seq<Call>, places: seq<Spot>)
    requires Shaped(s)
  {
    |calls| == |places| && forall i | 0 <= i < |calls| :: CallFor(s, calls[i], places[i])
  }

  lemma MatchConcat(s: State, a: seq<Call>, p: seq<Spot>, b: seq<Call>, q: seq<Spot>)
    requires Shaped(s) && Match(s, a, p) && Match(s, b, q)
    ensures Match(s, a + b, p + q)
  {
    hide CallFor;
  }

  lemma {:induction false} CallsMatch(s: State, f: Flags, p: Spot, ref: nat, offset: nat)
    requires Shaped(s) && Inner(s.apb, p) && CallFor(s, Call(Node(s, p), p.height - Depth(p.root), ref, offset), p)
    ensures Match(s, Calls(s, f, p, Node(s, p), ref, offset), Places(s, f, p))
    decreases Levels(p), s.apb + 1
  {
    hide CallFor, Node, Kids, PlacesIn, Pow;
    var self := Call(Node(s, p), 0 - Levels(p), ref, offset);
    HasBlock(s, self, p);
    KidsMatch(s, f, p, s.apb);
    var kids, places := Kids(s, f, p, Node(s, p), s.apb), PlacesIn(s, f, p, s.apb);
    var pre, post := if f.depthTraverse || f.dataOnly then [] else [p], if f.depthTraverse && !f.dataOnly then [p] else [];
    assert Match(s, Pre(f, self), pre) && Match(s, Post(f, self), post);
    MatchConcat(s, Pre(f, self), pre, kids, places);
    MatchConcat(s, Pre(f, self) + kids, pre + places, Post(f, self), post);
  }

  lemma HasBlock(s: State, c: Call, p: Spot)
    requires Shaped(s) && CallFor(s, c, p)
    ensures Node(s, p) != 0
  {
  }

  lemma {:induction false} KidsMatch(s: State, f: Flags, p: Spot, k: nat)
    requires Shaped(s) && Inner(s.apb, p) && k <= s.apb && Node(s, p) != 0
    ensures Match(s, Kids(s, f, p, Node(s, p), k), PlacesIn(s, f, p, k))
    decreases Levels(p), k
  {
    hide CallFor, Node, Kid, Places, Pow;
    if k > 0 {
      KidsMatch(s, f, p, k - 1);
      KidMatches(s, f, p, k - 1);
      MatchConcat(s, Kids(s, f, p, Node(s, p), k - 1), PlacesIn(s, f, p, k - 1), Kid(s, f, p, Node(s, p), k - 1), Places(s, f, Below(s.apb, p, k - 1)));
    }
  }

  lemma {:induction false} KidMatches(s: State, f: Flags, p: Spot, i: nat)
    requires Shaped(s) && Inner(s.apb, p) && i < s.apb && Node(s, p) != 0
    ensures Match(s, Kid(s, f, p, Node(s, p), i), Places(s, f, Below(s.apb, p, i)))
    decreases Levels(p), i
  {
    hide Node, Calls, PlacesIn, Pow, Child, Base, SpotOf, NonZero;
    var b, q := Node(s, p), Below(s.apb, p, i);
    ChildNode(s, p, i);
    BelowPlace(s.apb, p, i);
    if Child(s, b, i) != 0 {
      if Levels(p) == 1 {
        SpotAtBase(s.apb, q);
      } else {
        CallsMatch(s, f, q, b, 4 * NonZero(s, b, i));
      }
    }
  }

  lemma RootMatches(s: State, f: Flags, r: nat)
    requires Shaped(s) && NDIR <= r < 15
    ensures Match(s, Tree(s, f, r), Places(s, f, Spot(r, 0, 0)))
  {
    hide Calls, PlacesIn, Child;
    var p := Spot(r, 0, 0);
    RootSpot(s, r);
    TreeRoot(s, f, r);
    if s.roots[r] != 0 {
      CallsMatch(s, f, p, 0, r);
    }
  }

  lemma {:induction false} DirectMatches(s: State, f: Flags, k: nat)
    requires Shaped(s) && k <= NDIR
    ensures Match(s, Direct(s, k), RootPlaces(s, f, k))
  {
    hide PlacesIn, CallFor;
    if k > 0 {
      DirectMatches(s, f, k - 1);
      DirectPlace(s, f, k - 1);
      var c := if s.roots[k - 1] == 0 then [] else [Call(s.roots[k - 1], k - 1, 0, k - 1)];
      MatchConcat(s, Direct(s, k - 1), RootPlaces(s, f, k - 1), c, Places(s, f, Spot(k - 1, 0, 0)));
    }
  }

  lemma DirectPlace(s: State, f: Flags, r: nat)
    requires Shaped(s) && r < NDIR
    ensures Match(s, if s.roots[r] == 0 then [] else [Call(s.roots[r], r, 0, r)], Places(s, f, Spot(r, 0, 0)))
  {
    RootSpot(s, r);
  }

  lemma AllMatch(s: State, f: Flags)
    requires Shaped(s)
    ensures Match(s, AllCalls(s, f), RootPlaces(s, f, 15))
  {
    hide Direct, Tree, Places, CallFor;
    DirectMatches(s, f, NDIR);
    RootMatches(s, f, 12);
    RootMatches(s, f, 13);
    RootMatches(s, f, 14);
    var a, b, c := Direct(s, NDIR), Tree(s, f, 12), Tree(s, f, 13);
    MatchConcat(s, a, RootPlaces(s, f, 12), b, Places(s, f, Spot(12, 0, 0)));
    MatchConcat(s, a + b, RootPlaces(s, f, 13), c, Places(s, f, Spot(13, 0, 0)));
    MatchConcat(s, a + b + c, RootPlaces(s, f, 14), Tree(s, f, 14), Places(s, f, Spot(14, 0, 0)));
  }

  // ---------- Ranges of logical blocks ----------

  lemma ParentRange(n: nat, q: Spot)
    requires Place(n, q) && q.height > 0
    ensures var p := Parent(n, q);
      Place(n, p) && Base(n, p) <= Base(n, q) && Base(n, q) + Span(n, q) <= Base(n, p) + Span(n, p) && 0 < Span(n, q)
  {
    hide Pow;
    ParentPlace(n, q);
    var p, i := Parent(n, q), q.index % n;
    assert q.index == p.index * n + i by {
      assert q.index == n * (q.index / n) + q.index % n;
    }
    assert q == Below(n, p, i);
    BaseBelow(n, p, i);
    SpanPositive(n, q);
    Fits(i, n, Span(n, q));
  }

  lemma Fits(i: nat, n: nat, w: nat)
    requires i < n
    ensures i * w + w <= n * w
  {
    assert (i + 1) * w <= n * w;
  }

  lemma SpanPositive(n: nat, q: Spot)
    requires Place(n, q)
    ensures 0 < Span(n, q)
  {
  }

  lemma {:induction false} UnderRange(n: nat, p: Spot, q: Spot)
    requires Place(n, p) && Place(n, q) && (q == p || Above(n, p, q))
    ensures Base(n, p) <= Base(n, q) && Base(n, q) + Span(n, q) <= Base(n, p) + Span(n, p) && 0 < Span(n, q)
    decreases q.height
  {
    hide Base, Span, Pow;
    SpanPositive(n, q);
    if q != p {
      ParentRange(n, q);
      UnderRange(n, p, Parent(n, q));
    }
  }

  /** Ranges apart: neither place is above the other. */
  lemma Apart(n: nat, q: Spot, r: Spot)
    requires Place(n, q) && Place(n, r) && Base(n, q) + Span(n, q) <= Base(n, r)
    ensures !Above(n, q, r) && !Above(n, r, q) && q != r
  {
    hide Base, Span, Pow;
    SpanPositive(n, q);
    SpanPositive(n, r);
    if Above(n, q, r) {
      UnderRange(n, q, r);
    }
    if Above(n, r, q) {
      UnderRange(n, r, q);
    }
  }

  // ---------- The order ----------

  /** A pointer block comes before, or in a depth-first walk after, all that is below it; other blocks come
      in the order of the logical blocks. */
  ghost predicate InOrder(n: nat, f: Flags, q: Spot, r: Spot) {
    && Place(n, q) && Place(n, r)
    && if Above(n, q, r) then !f.depthTraverse
       else if Above(n, r, q) then f.depthTraverse
       else Base(n, q) + Span(n, q) <= Base(n, r)
  }

  ghost predicate Ordered(n: nat, f: Flags, a: seq<Spot>) { forall i, j | 0 <= i < j < |a| :: InOrder(n, f, a[i], a[j]) }

  lemma OrderedConcat(n: nat, f: Flags, a: seq<Spot>, b: seq<Spot>)
    requires Ordered(n, f, a) && Ordered(n, f, b) && forall q, r | q in a && r in b :: InOrder(n, f, q, r)
    ensures Ordered(n, f, a + b)
  {
    hide InOrder;
  }

  ghost predicate AtOrBelow(n: nat, p: Spot, q: Spot)
    requires n > 0
  {
    q == p || Above(n, p, q)
  }

  /** Everything below q comes before everything below r. */
  lemma AllBefore(n: nat, f: Flags, q: Spot, r: Spot, q': Spot, r': Spot)
    requires Place(n, q) && Place(n, r) && Base(n, q) + Span(n, q) <= Base(n, r)
    requires Place(n, q') && AtOrBelow(n, q, q') && Place(n, r') && AtOrBelow(n, r, r')
    ensures InOrder(n, f, q', r')
  {
    hide Base, Span, Pow;
    UnderRange(n, q, q');
    UnderRange(n, r, r');
    Apart(n, q', r');
  }

  /** The block at q is called for. */
  ghost predicate Called(s: State, f: Flags, q: Spot)
    requires Shaped(s)
  {
    Place(s.apb, q) && Node(s, q) != 0 && (q.height == Depth(q.root) || !f.dataOnly)
  }

  lemma {:induction false} PlacesExact(s: State, f: Flags, p: Spot)
    requires Shaped(s) && Place(s.apb, p)
    ensures forall q :: q in Places(s, f, p) <==> Called(s, f, q) && AtOrBelow(s.apb, p, q)
    ensures Ordered(s.apb, f, Places(s, f, p))
    decreases Levels(p), s.apb + 1
  {
    hide Node, PlacesIn, Pow, Base, Span;
    var n := s.apb;
    if Node(s, p) == 0 {
      forall q | AtOrBelow(n, p, q) && Place(n, q) ensures Node(s, q) == 0 {
        if q != p {
          HoleBelow(s, p, q);
        }
      }
    } else if p.height == Depth(p.root) {
      forall q | Place(n, q) ensures !Above(n, p, q) {
        if Above(n, p, q) {
          AbovePlace(n, p, q);
        }
      }
    } else {
      PlacesInExact(s, f, p, n);
      var kids := PlacesIn(s, f, p, n);
      forall q | Called(s, f, q) ensures q in kids <==> Above(n, p, q) {
        SlotOf(n, p, q);
      }
      forall q | q in kids ensures if f.depthTraverse then InOrder(n, f, q, p) else InOrder(n, f, p, q) {
        NotUp(n, p, q);
      }
      OrderedConcat(n, f, if f.depthTraverse || f.dataOnly then [] else [p], kids);
      OrderedConcat(n, f, (if f.depthTraverse || f.dataOnly then [] else [p]) + kids, if f.depthTraverse && !f.dataOnly then [p] else []);
    }
  }

  lemma NotUp(n: nat, p: Spot, q: Spot)
    requires Place(n, p) && Place(n, q) && Above(n, p, q)
    ensures !Above(n, q, p)
  {
    hide Pow;
    AbovePlace(n, p, q);
    if Above(n, q, p) {
      AbovePlace(n, q, p);
    }
  }

  /** q is in one of the first k slots of p, or below. */
  ghost predicate InSlots(n: nat, p: Spot, k: nat, q: Spot)
    requires n > 0
  {
    exists i :: 0 <= i < k && AtOrBelow(n, Below(n, p, i), q)
  }

  /** What is below p is in one of its slots. */
  lemma {:induction false} SlotOf(n: nat, p: Spot, q: Spot)
    requires Inner(n, p) && Place(n, q)
    ensures Above(n, p, q) <==> InSlots(n, p, n, q)
    decreases q.height
  {
    hide Pow;
    if Above(n, p, q) {
      ParentPlace(n, q);
      if Parent(n, q) == p {
        assert q.index == n * (q.index / n) + q.index % n;
        assert q == Below(n, p, q.index % n);
        assert AtOrBelow(n, Below(n, p, q.index % n), q);
      } else {
        SlotOf(n, p, Parent(n, q));
        var i :| 0 <= i < n && AtOrBelow(n, Below(n, p, i), Parent(n, q));
        assert AtOrBelow(n, Below(n, p, i), q);
      }
    }
    if i :| 0 <= i < n && AtOrBelow(n, Below(n, p, i), q) {
      BelowPlace(n, p, i);
      assert Above(n, p, Below(n, p, i));
      if q != Below(n, p, i) {
        AboveTrans(n, p, Below(n, p, i), q);
      }
    }
  }

  lemma {:induction false} PlacesInExact(s: State, f: Flags, p: Spot, k: nat)
    requires Shaped(s) && Inner(s.apb, p) && k <= s.apb
    ensures forall q :: q in PlacesIn(s, f, p, k) <==> Called(s, f, q) && InSlots(s.apb, p, k, q)
    ensures Ordered(s.apb, f, PlacesIn(s, f, p, k))
    decreases Levels(p), k
  {
    hide Node, Places, Pow, Base, Span, Called, AtOrBelow, InOrder, Below;
    var n := s.apb;
    PlaceRoot(n, p);
    if k > 0 {
      PlacesInExact(s, f, p, k - 1);
      SlotPlace(n, p, k - 1);
      PlacesExact(s, f, Below(n, p, k - 1));
      forall q, r | q in PlacesIn(s, f, p, k - 1) && r in Places(s, f, Below(n, p, k - 1)) ensures InOrder(n, f, q, r) {
        var i :| 0 <= i < k - 1 && AtOrBelow(n, Below(n, p, i), q);
        SlotsApart(s, f, p, i, k - 1, q, r);
      }
      OrderedConcat(n, f, PlacesIn(s, f, p, k - 1), Places(s, f, Below(n, p, k - 1)));
    }
  }

  lemma SlotPlace(n: nat, p: Spot, i: nat)
    requires Inner(n, p) && i < n
    ensures Place(n, Below(n, p, i)) && Below(n, p, i).root == p.root && Below(n, p, i).height == p.height + 1
  {
    BelowPlace(n, p, i);
  }

  lemma SlotsApart(s: State, f: Flags, p: Spot, i: nat, j: nat, q: Spot, r: Spot)
    requires Shaped(s) && Inner(s.apb, p) && i < j < s.apb
    requires Called(s, f, q) && AtOrBelow(s.apb, Below(s.apb, p, i), q) && Called(s, f, r) && AtOrBelow(s.apb, Below(s.apb, p, j), r)
    ensures InOrder(s.apb, f, q, r)
  {
    hide Pow, Node, InOrder, Base;
    var n := s.apb;
    BelowPlace(n, p, i);
    BelowPlace(n, p, j);
    BaseBelow(n, p, i);
    BaseBelow(n, p, j);
    Fits(i, j, Span(n, Below(n, p, i)));
    assert Span(n, Below(n, p, i)) == Span(n, Below(n, p, j));
    AllBefore(n, f, Below(n, p, i), Below(n, p, j), q, r);
  }

  // ---------- Over all roots ----------

  lemma RootsApart(n: nat, r: nat, t: nat)
    requires n > 0 && r < t < 15
    ensures Base(n, Spot(r, 0, 0)) + Span(n, Spot(r, 0, 0)) <= Base(n, Spot(t, 0, 0))
    ensures Place(n, Spot(r, 0, 0)) && Place(n, Spot(t, 0, 0))
  {
    PowSmall(n);
    hide Square, Pow;
    PowZero(n);
  }

  lemma PowZero(n: nat)
    ensures Pow(n, 0) == 1
  {
  }

  /** Every place is at or below the place of its own root. */
  lemma {:induction false} UnderRoot(n: nat, q: Spot, r: nat)
    requires Place(n, q) && r < 15
    ensures AtOrBelow(n, Spot(r, 0, 0), q) <==> q.root == r
    decreases q.height
  {
    hide Pow;
    if q.height > 0 {
      ParentPlace(n, q);
      UnderRoot(n, Parent(n, q), r);
    } else {
      PowZero(n);
    }
  }

  lemma {:induction false} RootPlacesExact(s: State, f: Flags, k: nat)
    requires Shaped(s) && k <= 15
    ensures forall q :: q in RootPlaces(s, f, k) <==> Called(s, f, q) && q.root < k
    ensures Ordered(s.apb, f, RootPlaces(s, f, k))
  {
    hide Node, Places, Pow, Base, Span, Called, AtOrBelow, InOrder;
    var n := s.apb;
    if k > 0 {
      RootPlacesExact(s, f, k - 1);
      PowZero(n);
      PlacesExact(s, f, Spot(k - 1, 0, 0));
      forall q | Called(s, f, q) ensures Place(n, q) && (AtOrBelow(n, Spot(k - 1, 0, 0), q) <==> q.root == k - 1) {
        CalledPlace(s, f, q);
        UnderRoot(n, q, k - 1);
      }
      forall q, r | q in RootPlaces(s, f, k - 1) && r in Places(s, f, Spot(k - 1, 0, 0)) ensures InOrder(n, f, q, r) {
        CalledPlace(s, f, q);
        RootsApart(n, q.root, k - 1);
        UnderRoot(n, q, q.root);
        AllBefore(n, f, Spot(q.root, 0, 0), Spot(k - 1, 0, 0), q, r);
      }
      OrderedConcat(n, f, RootPlaces(s, f, k - 1), Places(s, f, Spot(k - 1, 0, 0)));
    }
  }

  lemma CalledPlace(s: State, f: Flags, q: Spot)
    requires Shaped(s) && Called(s, f, q)
    ensures Place(s.apb, q)
  {
  }

  /** The walk calls once for every block that is there: for each data block with its logical number, and
      unless only data blocks are wanted, for each pointer block with its level below zero, before
      everything below it, or in a depth-first walk after it; blocks apart come in logical order. */
  lemma WalkExact(s: State, f: Flags) returns (places: seq<Spot>)
    requires Shaped(s)
    ensures |places| == |AllCalls(s, f)|
    ensures forall i | 0 <= i < |places| :: var p, c := places[i], AllCalls(s, f)[i];
      && Place(s.apb, p) && c.blk == Node(s, p) != 0
      && (if p.height == Depth(p.root) then c.count >= 0 && SpotOf(s.apb, c.count) == p else !f.dataOnly && c.count == p.height - Depth(p.root))
      && CallFor(s, c, p)
    ensures forall p {:trigger Node(s, p)} | Place(s.apb, p) && Node(s, p) != 0 && (p.height == Depth(p.root) || !f.dataOnly) ::
      exists i :: 0 <= i < |places| && places[i] == p
    ensures forall i, j | 0 <= i < j < |places| :: var p, q := places[i], places[j];
      && p != q
      && (Above(s.apb, p, q) ==> !f.depthTraverse) && (Above(s.apb, q, p) ==> f.depthTraverse) && InOrder(s.apb, f, p, q)
  {
    hide Node, Pow, Base, Span, AllCalls, RootPlaces, SpotOf, NonZero;
    places := RootPlaces(s, f, 15);
    AllMatch(s, f);
    RootPlacesExact(s, f, 15);
    forall i | 0 <= i < |places| ensures CallFor(s, AllCalls(s, f)[i], places[i]) && Called(s, f, places[i]) {
      assert places[i] in places;
    }
    forall p {:trigger Node(s, p)} | Place(s.apb, p) && Node(s, p) != 0 && (p.height == Depth(p.root) || !f.dataOnly)
      ensures exists i :: 0 <= i < |places| && places[i] == p
    {
      assert Called(s, f, p);
    }
    forall i, j | 0 <= i < j < |places|
      ensures InOrder(s.apb, f, places[i], places[j]) && places[i] != places[j]
      ensures (Above(s.apb, places[i], places[j]) ==> !f.depthTraverse) && (Above(s.apb, places[j], places[i]) ==> f.depthTraverse)
    {
      OrderIs(s.apb, f, places[i], places[j]);
    }
  }

  lemma OrderIs(n: nat, f: Flags, p: Spot, q: Spot)
    requires InOrder(n, f, p, q)
    ensures p != q && (Above(n, p, q) ==> !f.depthTraverse) && (Above(n, q, p) ==> f.depthTraverse)
  {
    hide Pow, Base, Span;
    if Above(n, p, q) {
      AbovePlace(n, p, q);
      NotUp(n, p, q);
    } else if Above(n, q, p) {
      AbovePlace(n, q, p);
    } else {
      Apart(n, p, q);
    }
  }

  /** The offset passed for a pointer block counts the slots before it that are not empty. */
  lemma {:induction false} NonZeroCount(s: State, b: nat, k: nat)
    requires Shaped(s) && k <= s.apb
    ensures NonZero(s, b, k) == |set j: nat {:trigger Child(s, b, j)} | j < k && Child(s, b, j) != 0|
  {
    hide Child;
    if k > 0 {
      NonZeroCount(s, b, k - 1);
      var before, now := set j: nat {:trigger Child(s, b, j)} | j < k - 1 && Child(s, b, j) != 0, set j: nat {:trigger Child(s, b, j)} | j < k && Child(s, b, j) != 0;
      assert now == before + if Child(s, b, k - 1) == 0 then {} else {k - 1};
    }
  }
}
