/**
 The direct/indirect/double/triple block tree of an inode in the indirect format: 15 roots in the
 inode, and blocks of 32-bit pointers below roots 12, 13 and 14.
 */
module BlockTree {
  import opened Bytes

  const NDIR: nat := 12

  datatype State = State(apb: nat, disk: seq<seq<Byte>>, used: set<nat>, roots: seq<nat>)

  /** A place in the tree: a root, a height below it, and a number among the places of that height. */
  datatype Spot = Spot(root: nat, height: nat, index: nat)

  function Parent(n: nat, p: Spot): Spot
    requires n > 0 && p.height > 0
  {
    Spot(p.root, p.height - 1, p.index / n)
  }

  function Below(n: nat, p: Spot, i: nat): Spot { Spot(p.root, p.height + 1, p.index * n + i) }

  /** Pointer levels below a root. */
  function Depth(root: nat): nat { if root < NDIR then 0 else root - 11 }

  function Pow(n: nat, k: nat): (p: nat)
    ensures n > 0 ==> p > 0
  {
    if k == 0 then 1 else n * Pow(n, k - 1)
  }

  predicate Place(n: nat, p: Spot) {
    n > 0 && p.root < 15 && p.height <= Depth(p.root) && p.index < Pow(n, p.height)
  }

  /** A place that holds pointers. */
  predicate Inner(n: nat, p: Spot) { Place(n, p) && p.height < Depth(p.root) }

  /** A place that holds file data. */
  predicate Leaf(n: nat, p: Spot) { Place(n, p) && p.height == Depth(p.root) }

  /** Pointers, and with `data` also file data. */
  predicate Held(n: nat, data: bool, p: Spot) { Inner(n, p) || (data && Leaf(n, p)) }

  // ---------- Arithmetic ----------

  lemma DivMod(q: nat, n: nat, i: nat)
    requires i < n
    ensures (q * n + i) / n == q && (q * n + i) % n == i
  {
    var x := q * n + i;
    assert x == n * (x / n) + x % n;
    Squeeze(q, x / n, n, i, x % n);
  }

  lemma Squeeze(a: nat, b: nat, n: nat, i: nat, j: nat)
    requires a * n + i == n * b + j && i < n && j < n
    ensures a == b && i == j
  {
    var d := a - b;
    assert n * d == n * a - n * b == j - i;
    SmallMultiple(n, d);
  }

  lemma SmallMultiple(n: nat, d: int)
    requires 0 - n < n * d < n
    ensures d == 0
  {
    if d >= 1 {
      MulMono(n, 1, d);
    } else if d <= -1 {
      MulMono(n, d, -1);
    }
  }

  lemma MulMono(n: nat, a: int, b: int)
    requires a <= b
    ensures n * a <= n * b
  {
  }

  lemma DivBound(x: nat, n: nat, k: nat)
    requires n > 0 && x < n * k
    ensures x / n < k
  {
    assert x == n * (x / n) + x % n;
    if k <= x / n {
      MulMono(n, k, x / n);
    }
  }

  lemma SameChild(n: nat, a: nat, b: nat)
    requires n > 0 && a / n == b / n && a % n == b % n
    ensures a == b
  {
    assert a == n * (a / n) + a % n && b == n * (b / n) + b % n;
  }

  lemma ParentPlace(n: nat, p: Spot)
    requires Place(n, p) && p.height > 0
    ensures Inner(n, Parent(n, p)) && p.index % n < n
  {
    DivBound(p.index, n, Pow(n, p.height - 1));
  }

  lemma BelowPlace(n: nat, p: Spot, i: nat)
    requires Inner(n, p) && i < n
    ensures Place(n, Below(n, p, i)) && Parent(n, Below(n, p, i)) == p && Below(n, p, i).index % n == i
  {
    DivMod(p.index, n, i);
    BelowBound(p.index, n, Pow(n, p.height), i);
  }

  lemma BelowBound(c: nat, n: nat, k: nat, i: nat)
    requires c < k && i < n
    ensures c * n + i < n * k
  {
    assert (c + 1) * n <= k * n;
  }

  // ---------- Pointers ----------

  function Ptr(block: seq<Byte>, i: nat): nat
    requires 4 * i + 4 <= |block|
  {
    Get32(block, 4 * i)
  }

  function PutPtr(block: seq<Byte>, i: nat, v: nat): (r: seq<Byte>)
    requires 4 * i + 4 <= |block| && v < U32
    ensures |r| == |block|
  {
    Put(block, 4 * i, Bytes32(v))
  }

  lemma PtrPut(block: seq<Byte>, i: nat, v: nat, j: nat)
    requires 4 * i + 4 <= |block| && 4 * j + 4 <= |block| && v < U32
    ensures Ptr(PutPtr(block, i, v), j) == if i == j then v else Ptr(block, j)
  {
    if i == j {
      Get32Put(block, 4 * i, v);
    } else {
      GetOther(block, 4 * i, Bytes32(v), 4 * j);
    }
  }

  function Zeros(n: nat): (z: seq<Byte>)
    ensures |z| == n
  {
    seq(n, i => 0)
  }

  lemma ZeroPtr(n: nat, i: nat)
    requires 4 * i + 4 <= n
    ensures Ptr(Zeros(n), i) == 0
  {
  }

  // ---------- The tree ----------

  ghost predicate Shaped(s: State) {
    && s.apb > 0 && |s.roots| == 15
    && (forall b | 0 <= b < |s.disk| :: |s.disk[b]| == 4 * s.apb)
  }

  /** The pointer in slot i of block b; an absent block holds none. */
  function Child(s: State, b: nat, i: nat): nat
    requires Shaped(s) && i < s.apb
  {
    if 0 < b < |s.disk| then Ptr(s.disk[b], i) else 0
  }

  /** The block that the tree holds at a place, 0 if none. */
  function Node(s: State, p: Spot): nat
    requires Shaped(s) && p.root < 15
    decreases p.height
  {
    if p.height == 0 then s.roots[p.root] else Child(s, Node(s, Parent(s.apb, p)), p.index % s.apb)
  }

  /** Pointers are in range and lead to blocks in use, and no block is in two places. */
  ghost predicate Sound(s: State, data: bool) {
    && Shaped(s)
    && (forall p {:trigger Node(s, p)} | Held(s.apb, data, p) && Node(s, p) != 0 :: Node(s, p) in s.used && Node(s, p) < |s.disk|)
    && (forall p, q {:trigger Node(s, p), Node(s, q)} |
          Held(s.apb, data, p) && Held(s.apb, data, q) && Node(s, p) == Node(s, q) != 0 :: p == q)
  }

  ghost predicate NoPointers(s: State, b: nat)
    requires Shaped(s)
  {
    forall i: nat {:trigger Child(s, b, i)} | i < s.apb :: Child(s, b, i) == 0
  }

  lemma ZerosPointNowhere(s: State, b: nat)
    requires Shaped(s) && (b < |s.disk| ==> s.disk[b] == Zeros(4 * s.apb))
    ensures NoPointers(s, b)
  {
    forall i: nat | i < s.apb ensures Child(s, b, i) == 0 {
      ZeroPtr(4 * s.apb, i);
    }
  }

  /** A block that no pointer place holds. */
  ghost predicate NotInner(s: State, b: nat)
    requires Shaped(s)
  {
    forall p {:trigger Node(s, p)} | Inner(s.apb, p) :: Node(s, p) != b || b == 0
  }

  // ---------- What a single update changes ----------

  /** Writing a block that holds no pointers of the tree leaves the tree as it is. */
  lemma {:induction false} DataWrite(s: State, b: nat, block: seq<Byte>, p: Spot)
    requires Shaped(s) && Place(s.apb, p) && b < |s.disk| && |block| == 4 * s.apb && NotInner(s, b)
    ensures Node(s.(disk := s.disk[b := block]), p) == Node(s, p)
    decreases p.height
  {
    hide Ptr, Place, Pow, Inner;
    if p.height > 0 {
      ParentPlace(s.apb, p);
      InnerPlace(s.apb, Parent(s.apb, p));
      DataWrite(s, b, block, Parent(s.apb, p));
    }
  }

  lemma InnerPlace(n: nat, p: Spot)
    requires Inner(n, p)
    ensures Place(n, p)
  {
  }

  lemma PlaceRoot(n: nat, p: Spot)
    requires Place(n, p)
    ensures n > 0 && p.root < 15
  {
  }

  ghost function WithSlot(s: State, p: Spot, v: nat): State
    requires Shaped(s) && p.root < 15 && p.height > 0 && v < U32
  {
    var b := Node(s, Parent(s.apb, p));
    if b < |s.disk| then s.(disk := s.disk[b := PutPtr(s.disk[b], p.index % s.apb, v)]) else s
  }

  /** v may be hung at p: an indirect block only in an empty slot, and it must point nowhere. */
  ghost predicate MayHang(s: State, p: Spot, v: nat)
    requires Shaped(s) && p.root < 15
  {
    p.height < Depth(p.root) ==> Node(s, p) == 0 && NoPointers(s, v)
  }

  /** Writing one slot of a pointer block changes exactly the place below that slot. */
  lemma {:induction false} SlotWrite(s: State, p: Spot, v: nat, q: Spot)
    requires Sound(s, false) && Place(s.apb, p) && p.height > 0 && Place(s.apb, q) && v < U32
    requires var b := Node(s, Parent(s.apb, p)); 0 < b < |s.disk| && (b != v || p.height == Depth(p.root))
    requires MayHang(s, p, v)
    ensures Shaped(WithSlot(s, p, v))
    ensures Node(WithSlot(s, p, v), q) == if q == p then v else Node(s, q)
    decreases q.height
  {
    hide PutPtr, Ptr, Place, Pow, Inner;
    PlaceRoot(s.apb, q);
    PlaceRoot(s.apb, p);
    if q.height > 0 {
      ParentPlace(s.apb, q);
      InnerPlace(s.apb, Parent(s.apb, q));
      SlotWrite(s, p, v, Parent(s.apb, q));
      ParentPlace(s.apb, p);
      SlotStep(s, p, v, q);
    }
  }

  lemma SlotStep(s: State, p: Spot, v: nat, q: Spot)
    requires Sound(s, false) && p.root < 15 && p.height > 0 && q.root < 15 && q.height > 0 && v < U32
    requires Inner(s.apb, Parent(s.apb, p)) && Inner(s.apb, Parent(s.apb, q))
    requires var b := Node(s, Parent(s.apb, p)); 0 < b < |s.disk| && (b != v || p.height == Depth(p.root))
    requires MayHang(s, p, v) && Shaped(WithSlot(s, p, v))
    requires Node(WithSlot(s, p, v), Parent(s.apb, q)) == if Parent(s.apb, q) == p then v else Node(s, Parent(s.apb, q))
    ensures Node(WithSlot(s, p, v), q) == if q == p then v else Node(s, q)
  {
    hide PutPtr, Ptr, Pow;
    var b, i, j := Node(s, Parent(s.apb, p)), p.index % s.apb, q.index % s.apb;
    var s' := WithSlot(s, p, v);
    var up := Parent(s.apb, q);
    if up == p {
      assert Child(s, v, j) == 0 && Child(s, 0, j) == 0;
    } else if Node(s, up) == b {
      assert up == Parent(s.apb, p);
      PtrPut(s.disk[b], i, v, j);
      if i == j {
        SameChild(s.apb, p.index, q.index);
      }
    }
  }

  /** The same for the inode's own slots. */
  lemma {:induction false} RootWrite(s: State, r: nat, v: nat, q: Spot)
    requires Sound(s, false) && r < 15 && Place(s.apb, q) && MayHang(s, Spot(r, 0, 0), v)
    ensures Node(s.(roots := s.roots[r := v]), q) == if q == Spot(r, 0, 0) then v else Node(s, q)
    decreases q.height
  {
    hide Ptr;
    if q.height > 0 {
      ParentPlace(s.apb, q);
      InnerPlace(s.apb, Parent(s.apb, q));
      RootWrite(s, r, v, Parent(s.apb, q));
      var j := q.index % s.apb;
      if Parent(s.apb, q) == Spot(r, 0, 0) {
        assert Child(s, v, j) == 0 && Child(s, 0, j) == 0;
      }
    }
  }

  // ---------- What a bmap call may change ----------

  /** q lies strictly above p. */
  predicate Above(n: nat, q: Spot, p: Spot)
    requires n > 0
    decreases p.height
  {
    p.height > 0 && (q == Parent(n, p) || Above(n, q, Parent(n, p)))
  }

  /** From s to t, only the place p was set, and missing pointer blocks above it were hung in, from
      blocks that were free; blocks in use that hold no pointers keep their contents. */
  ghost predicate Grown(s: State, t: State, p: Spot) {
    && Shaped(s) && Shaped(t) && t.apb == s.apb && |t.disk| == |s.disk| && s.used <= t.used
    && (forall q {:trigger SameOrNew(s, t, p, q)} | Place(s.apb, q) && q != p :: SameOrNew(s, t, p, q))
    && (forall b {:trigger t.disk[b]} | 0 <= b < |s.disk| && b in s.used && NotInner(s, b) :: t.disk[b] == s.disk[b])
  }

  ghost predicate SameOrNew(s: State, t: State, p: Spot, q: Spot)
    requires Shaped(s) && Shaped(t) && q.root < 15
  {
    || Node(t, q) == Node(s, q)
    || (Above(s.apb, q, p) && Node(s, q) == 0 && Node(t, q) in t.used && Node(t, q) !in s.used)
  }

  lemma {:induction false} AboveTrans(n: nat, q: Spot, p: Spot, r: Spot)
    requires n > 0 && Above(n, q, p) && Above(n, p, r)
    ensures Above(n, q, r)
    decreases r.height
  {
    if p != Parent(n, r) {
      AboveTrans(n, q, p, Parent(n, r));
    }
  }

  lemma {:induction false} AbovePlace(n: nat, q: Spot, p: Spot)
    requires n > 0 && Place(n, p) && Above(n, q, p)
    ensures Inner(n, q) && q.height < p.height
    decreases p.height
  {
    ParentPlace(n, p);
    if q != Parent(n, p) {
      AbovePlace(n, q, Parent(n, p));
    }
  }

  /** Growing down to a place above p, and then to p. */
  lemma GrownThen(s: State, t: State, u: State, up: Spot, p: Spot)
    requires s.apb > 0 && Place(s.apb, p) && Above(s.apb, up, p) && up.root < 15
    requires Grown(s, t, up) && Grown(t, u, p)
    requires Node(t, up) == Node(s, up) || (Node(s, up) == 0 && Node(t, up) in t.used && Node(t, up) !in s.used)
    ensures Grown(s, u, p)
  {
    hide Node, Pow;
    AbovePlace(s.apb, up, p);
    forall q {:trigger SameOrNew(s, u, p, q)} | Place(s.apb, q) && q != p ensures SameOrNew(s, u, p, q) {
      assert SameOrNew(t, u, p, q);
      if q != up {
        assert SameOrNew(s, t, up, q);
        if Above(s.apb, q, up) {
          AboveTrans(s.apb, q, up, p);
        }
      }
    }
    forall b {:trigger u.disk[b]} | 0 <= b < |s.disk| && b in s.used && NotInner(s, b) ensures u.disk[b] == s.disk[b] {
      StillNotInner(s, t, up, b);
      assert u.disk[b] == t.disk[b];
    }
  }

  lemma StillNotInner(s: State, t: State, up: Spot, b: nat)
    requires s.apb > 0 && Place(s.apb, up) && Grown(s, t, up) && b in s.used && NotInner(s, b)
    requires Node(t, up) == Node(s, up) || (Node(s, up) == 0 && Node(t, up) in t.used && Node(t, up) !in s.used)
    ensures NotInner(t, b)
  {
    hide Node, Pow;
    forall q {:trigger Node(t, q)} | Inner(t.apb, q) ensures Node(t, q) != b || b == 0 {
      assert q != up ==> SameOrNew(s, t, up, q);
      assert Node(s, q) != b || b == 0;
    }
  }

  // ---------- Outcomes ----------

  datatype Errno = Ok | NoIndirect | NoSpace

  /** Only p differs, and it is now empty or holds a block that was free. */
  ghost predicate Hung(s: State, t: State, p: Spot, v: nat) {
    && Shaped(s) && Shaped(t) && t.apb == s.apb && |t.disk| == |s.disk| && s.used <= t.used && p.root < 15
    && Node(t, p) == v
    && forall q {:trigger Node(t, q)} | Place(s.apb, q) && q != p :: Node(t, q) == Node(s, q)
  }

  lemma HungSound(s: State, t: State, p: Spot, v: nat, data: bool)
    requires Sound(s, data) && Hung(s, t, p, v)
    requires Held(s.apb, data, p) ==> v == 0 || (v !in s.used && v in t.used && v < |t.disk|)
    ensures Sound(t, data)
  {
    hide Node, Pow;
    forall q {:trigger Node(t, q)} | Held(t.apb, data, q) && Node(t, q) != 0 ensures Node(t, q) in t.used && Node(t, q) < |t.disk| {
      assert q != p ==> Node(t, q) == Node(s, q);
    }
    forall q, q2 {:trigger Node(t, q), Node(t, q2)} | Held(t.apb, data, q) && Held(t.apb, data, q2) && Node(t, q) == Node(t, q2) != 0 ensures q == q2 {
      assert q != p ==> Node(t, q) == Node(s, q);
      assert q2 != p ==> Node(t, q2) == Node(s, q2);
    }
  }

  lemma HungGrown(s: State, t: State, p: Spot, v: nat)
    requires Hung(s, t, p, v)
    requires forall b {:trigger t.disk[b]} | 0 <= b < |s.disk| && b in s.used && NotInner(s, b) :: t.disk[b] == s.disk[b]
    ensures Grown(s, t, p)
  {
    hide Node, Pow;
    forall q {:trigger SameOrNew(s, t, p, q)} | Place(s.apb, q) && q != p ensures SameOrNew(s, t, p, q) {
      assert Node(t, q) == Node(s, q);
    }
  }

  ghost function WithBlock(s: State, v: nat): State
    requires Shaped(s)
    requires v < |s.disk|
  {
    s.(disk := s.disk[v := Zeros(4 * s.apb)], used := s.used + {v})
  }

  /** alloc_block2 puts zeros on a free block. */
  lemma AllocKeeps(s: State, v: nat, q: Spot)
    requires Sound(s, false) && 0 < v < |s.disk| && v !in s.used && Place(s.apb, q)
    ensures Shaped(WithBlock(s, v)) && Node(WithBlock(s, v), q) == Node(s, q)
  {
    hide Pow, Ptr;
    forall p {:trigger Node(s, p)} | Inner(s.apb, p) ensures Node(s, p) != v {
      assert Held(s.apb, false, p);
    }
    DataWrite(s, v, Zeros(4 * s.apb), q);
    UsedIrrelevant(s.(disk := s.disk[v := Zeros(4 * s.apb)]), s.used + {v}, q);
  }

  lemma {:induction false} UsedIrrelevant(s: State, used: set<nat>, q: Spot)
    requires Shaped(s) && q.root < 15
    ensures Shaped(s.(used := used)) && Node(s.(used := used), q) == Node(s, q)
    decreases q.height
  {
    if q.height > 0 {
      UsedIrrelevant(s, used, Parent(s.apb, q));
    }
  }

  lemma AllocSound(s: State, v: nat)
    requires Sound(s, false) && 0 < v < |s.disk| && v !in s.used
    ensures Sound(WithBlock(s, v), false)
  {
    hide Node, Pow;
    forall q | Place(s.apb, q) ensures Shaped(WithBlock(s, v)) && Node(WithBlock(s, v), q) == Node(s, q) {
      AllocKeeps(s, v, q);
    }
    var t := WithBlock(s, v);
    assert Shaped(t);
    forall q, q2 {:trigger Node(t, q), Node(t, q2)} | Held(t.apb, false, q) && Held(t.apb, false, q2) && Node(t, q) == Node(t, q2) != 0 ensures q == q2 {
      assert Node(s, q) == Node(s, q2);
    }
  }

  /** A free block hung in an empty slot. */
  lemma HangSlot(s: State, p: Spot, v: nat)
    requires Sound(s, false) && Place(s.apb, p) && p.height > 0 && Node(s, Parent(s.apb, p)) != 0 && Node(s, p) == 0
    requires 0 < v < |s.disk| && v !in s.used && v < U32
    ensures var t := WithSlot(WithBlock(s, v), p, v);
      && Hung(s, t, p, v) && Grown(s, t, p) && Node(WithBlock(s, v), Parent(s.apb, p)) == Node(s, Parent(s.apb, p)) < |s.disk|
      && t.used == s.used + {v} && t.disk[v] == Zeros(4 * s.apb)
  {
    hide Node, Pow, PutPtr, Ptr, Zeros;
    ParentPlace(s.apb, p);
    var m := WithBlock(s, v);
    var t := WithSlot(m, p, v);
    AllocSound(s, v);
    assert Held(s.apb, false, Parent(s.apb, p));
    AllocKeeps(s, v, Parent(s.apb, p));
    AllocKeeps(s, v, p);
    ZerosPointNowhere(m, v);
    SlotWrite(m, p, v, p);
    forall q {:trigger Node(t, q)} | Place(s.apb, q) && q != p ensures Node(t, q) == Node(s, q) {
      AllocKeeps(s, v, q);
      SlotWrite(m, p, v, q);
    }
    HungGrown(s, t, p, v);
  }

  /** A free block hung in an empty slot of the inode. */
  lemma HangRoot(s: State, r: nat, v: nat)
    requires Sound(s, false) && r < 15 && s.roots[r] == 0
    requires 0 < v < |s.disk| && v !in s.used && v < U32
    ensures var m := WithBlock(s, v); var t := m.(roots := s.roots[r := v]);
      && Hung(s, t, Spot(r, 0, 0), v) && Grown(s, t, Spot(r, 0, 0)) && t.disk[v] == Zeros(4 * s.apb)
  {
    hide Node, Pow, Ptr, Zeros;
    var m := WithBlock(s, v);
    var t := m.(roots := s.roots[r := v]);
    AllocSound(s, v);
    RootSpot(s, r);
    AllocKeeps(s, v, Spot(r, 0, 0));
    ZerosPointNowhere(m, v);
    RootWrite(m, r, v, Spot(r, 0, 0));
    forall q {:trigger Node(t, q)} | Place(s.apb, q) && q != Spot(r, 0, 0) ensures Node(t, q) == Node(s, q) {
      AllocKeeps(s, v, q);
      RootWrite(m, r, v, q);
    }
    HungGrown(s, t, Spot(r, 0, 0), v);
  }

  lemma RootSpot(s: State, r: nat)
    requires Shaped(s) && r < 15
    ensures Place(s.apb, Spot(r, 0, 0)) && Node(s, Spot(r, 0, 0)) == s.roots[r]
  {
  }

  /** Setting a data slot of a pointer block. */
  lemma SetSlot(s: State, p: Spot, v: nat)
    requires Sound(s, false) && Leaf(s.apb, p) && p.height > 0 && Node(s, Parent(s.apb, p)) != 0 && v < U32
    ensures var t := WithSlot(s, p, v);
      Node(s, Parent(s.apb, p)) < |s.disk| && Hung(s, t, p, v) && Grown(s, t, p) && Sound(t, false)
  {
    hide Node, Pow, PutPtr, Ptr;
    ParentPlace(s.apb, p);
    var t := WithSlot(s, p, v);
    assert Held(s.apb, false, Parent(s.apb, p));
    SlotWrite(s, p, v, p);
    forall q {:trigger Node(t, q)} | Place(s.apb, q) && q != p ensures Node(t, q) == Node(s, q) {
      SlotWrite(s, p, v, q);
    }
    HungGrown(s, t, p, v);
    HungSound(s, t, p, v, false);
  }

  lemma SetRoot(s: State, r: nat, v: nat)
    requires Sound(s, false) && r < NDIR
    ensures var t := s.(roots := s.roots[r := v]);
      Hung(s, t, Spot(r, 0, 0), v) && Grown(s, t, Spot(r, 0, 0)) && Sound(t, false)
  {
    hide Node, Pow, Ptr;
    var t := s.(roots := s.roots[r := v]);
    RootSpot(s, r);
    RootWrite(s, r, v, Spot(r, 0, 0));
    forall q {:trigger Node(t, q)} | Place(s.apb, q) && q != Spot(r, 0, 0) ensures Node(t, q) == Node(s, q) {
      RootWrite(s, r, v, q);
    }
    HungGrown(s, t, Spot(r, 0, 0), v);
    HungSound(s, t, Spot(r, 0, 0), v, false);
  }

  // ---------- The blocks that a path takes ----------

  /** How many places from the root down to p are empty. */
  ghost function Missing(s: State, p: Spot): nat
    requires Shaped(s) && p.root < 15
    decreases p.height
  {
    (if p.height > 0 then Missing(s, Parent(s.apb, p)) else 0) + if Node(s, p) == 0 then 1 else 0
  }

  /** The blocks that are in t where s had empty places, from the root down to p. */
  ghost function Filled(s: State, t: State, p: Spot): set<nat>
    requires Shaped(s) && Shaped(t) && p.root < 15
    decreases p.height
  {
    (if p.height > 0 then Filled(s, t, Parent(s.apb, p)) else {}) + if Node(s, p) == 0 && Node(t, p) != 0 then {Node(t, p)} else {}
  }

  /** The blocks that must be allocated: those of the pointer blocks, and that of p unless it is given. */
  ghost function Needed(s: State, p: Spot, put: bool, alloc: bool): nat
    requires Shaped(s) && p.root < 15
  {
    if !alloc then 0 else if !put then Missing(s, p) else if p.height > 0 then Missing(s, Parent(s.apb, p)) else 0
  }

  ghost function Taken(s: State, t: State, p: Spot, put: bool): set<nat>
    requires Shaped(s) && Shaped(t) && p.root < 15
  {
    if !put then Filled(s, t, p) else if p.height > 0 then Filled(s, t, Parent(s.apb, p)) else {}
  }

  /** Above a block there is no empty place. */
  lemma {:induction false} NoneMissing(s: State, t: State, p: Spot)
    requires Shaped(s) && Shaped(t) && p.root < 15 && Node(s, p) != 0
    ensures Missing(s, p) == 0 && Filled(s, t, p) == {}
    decreases p.height
  {
    hide Ptr;
    if p.height > 0 {
      NoneMissing(s, t, Parent(s.apb, p));
    }
  }

  /** The empty places from the root down to p. */
  ghost function Holes(s: State, p: Spot): set<Spot>
    requires Shaped(s) && p.root < 15
    decreases p.height
  {
    (if p.height > 0 then Holes(s, Parent(s.apb, p)) else {}) + if Node(s, p) == 0 then {p} else {}
  }

  lemma {:induction false} HolesAre(s: State, p: Spot, q: Spot)
    requires Shaped(s) && p.root < 15
    ensures q in Holes(s, p) <==> q.root < 15 && Node(s, q) == 0 && (q == p || Above(s.apb, q, p))
    ensures q in Holes(s, p) ==> q.height <= p.height
    decreases p.height
  {
    hide Node;
    if p.height > 0 {
      HolesAre(s, Parent(s.apb, p), q);
    }
    if Above(s.apb, q, p) {
      AboveRoot(s.apb, q, p);
    }
  }

  lemma {:induction false} AboveRoot(n: nat, q: Spot, p: Spot)
    requires n > 0 && Above(n, q, p)
    ensures q.root == p.root && q.height < p.height
    decreases p.height
  {
    if q != Parent(n, p) {
      AboveRoot(n, q, Parent(n, p));
    }
  }

  lemma {:induction false} HolesCount(s: State, p: Spot)
    requires Shaped(s) && p.root < 15
    ensures |Holes(s, p)| == Missing(s, p)
    decreases p.height
  {
    hide Node;
    if p.height > 0 {
      HolesCount(s, Parent(s.apb, p));
      HolesAre(s, Parent(s.apb, p), p);
    }
  }

  /** Filling the places down to p leaves the other empty places. */
  lemma HolesAfter(s: State, t: State, p: Spot, r: Spot)
    requires Shaped(s) && Shaped(t) && Place(s.apb, p) && Place(s.apb, r) && Grown(s, t, p) && Node(t, p) != 0
    ensures Holes(t, r) == Holes(s, r) - Holes(s, p)
  {
    hide Node, Pow, Holes, Above;
    forall q ensures q in Holes(t, r) <==> q in Holes(s, r) && q !in Holes(s, p) {
      HolesAre(s, p, q);
      HolesAre(s, r, q);
      HolesAre(t, r, q);
      if q.root < 15 && (q == r || Above(s.apb, q, r)) {
        if Above(s.apb, q, r) {
          AbovePlace(s.apb, q, r);
        }
        if Above(s.apb, q, p) {
          HoleBelow(t, q, p);
        } else if q != p {
          assert SameOrNew(s, t, p, q);
        }
      }
    }
  }

  lemma {:induction false} HolesWrite(s: State, b: nat, block: seq<Byte>, p: Spot)
    requires Shaped(s) && Place(s.apb, p) && b < |s.disk| && |block| == 4 * s.apb && NotInner(s, b)
    ensures Shaped(s.(disk := s.disk[b := block])) && Holes(s.(disk := s.disk[b := block]), p) == Holes(s, p)
    decreases p.height
  {
    hide Node, Pow;
    DataWrite(s, b, block, p);
    if p.height > 0 {
      ParentPlace(s.apb, p);
      HolesWrite(s, b, block, Parent(s.apb, p));
    }
  }

  lemma {:induction false} FilledSelf(s: State, p: Spot)
    requires Shaped(s) && p.root < 15
    ensures Filled(s, s, p) == {}
    decreases p.height
  {
    if p.height > 0 {
      FilledSelf(s, Parent(s.apb, p));
    }
  }

  /** Nothing is taken when nothing is needed. */
  lemma NothingTaken(s: State, p: Spot, put: bool, alloc: bool)
    requires Shaped(s) && p.root < 15 && (alloc ==> Node(s, p) != 0)
    ensures Taken(s, s, p, put) == {} && (!put ==> Needed(s, p, put, alloc) == 0)
  {
    hide Node;
    FilledSelf(s, p);
    if p.height > 0 {
      FilledSelf(s, Parent(s.apb, p));
    }
    if alloc {
      NoneMissing(s, s, p);
    }
  }

  /** Setting a place below a block takes nothing. */
  lemma PutTaken(s: State, t: State, p: Spot, alloc: bool)
    requires Shaped(s) && Shaped(t) && p.root < 15 && (p.height > 0 ==> Node(s, Parent(s.apb, p)) != 0)
    ensures Taken(s, t, p, true) == {} && Needed(s, p, true, alloc) == 0
  {
    hide Node;
    if p.height > 0 {
      NoneMissing(s, t, Parent(s.apb, p));
    }
  }

  /** Filling an empty place below a block takes that block. */
  lemma OneTaken(s: State, t: State, p: Spot)
    requires Shaped(s) && Shaped(t) && p.root < 15 && Node(s, p) == 0 && (p.height > 0 ==> Node(s, Parent(s.apb, p)) != 0)
    ensures Needed(s, p, false, true) == 1
    ensures Taken(s, t, p, false) == if Node(t, p) != 0 then {Node(t, p)} else {}
  {
    hide Node;
    if p.height > 0 {
      NoneMissing(s, t, Parent(s.apb, p));
    }
  }

  /** The places down to up are filled in t, and stay; those below are the same in s and t, up to p. */
  ghost predicate FilledTo(s: State, t: State, u: State, up: Spot, p: Spot)
    requires Shaped(s) && Shaped(t) && Shaped(u) && p.root < 15 && up.root < 15
    decreases p.height
  {
    if p == up then Node(t, up) != 0 && StaysFilled(t, u, up)
    else p.height > 0 && Node(t, p) == Node(s, p) && FilledTo(s, t, u, up, Parent(s.apb, p))
  }

  ghost predicate StaysFilled(t: State, u: State, q: Spot)
    requires Shaped(t) && Shaped(u) && q.root < 15
    decreases q.height
  {
    Node(u, q) == Node(t, q) && (q.height > 0 ==> StaysFilled(t, u, Parent(t.apb, q)))
  }

  lemma {:induction false} FilledSame(s: State, t: State, u: State, q: Spot)
    requires Shaped(s) && Shaped(t) && Shaped(u) && t.apb == s.apb && q.root < 15 && StaysFilled(t, u, q)
    ensures Filled(s, u, q) == Filled(s, t, q)
    decreases q.height
  {
    hide Node;
    if q.height > 0 {
      FilledSame(s, t, u, Parent(s.apb, q));
    }
  }

  lemma {:induction false} FilledThen(s: State, t: State, u: State, up: Spot, p: Spot)
    requires Shaped(s) && Shaped(t) && Shaped(u) && t.apb == s.apb == u.apb && p.root < 15 && up.root < 15
    requires FilledTo(s, t, u, up, p)
    ensures Filled(s, u, p) == Filled(s, t, up) + Filled(t, u, p) && Missing(s, p) == Missing(s, up) + Missing(t, p)
    decreases p.height
  {
    hide Node;
    if p == up {
      FilledSame(s, t, u, up);
      NoneMissing(t, u, up);
    } else {
      FilledThen(s, t, u, up, Parent(s.apb, p));
    }
  }

  /** From up on down to p nothing differs. */
  ghost predicate SameBelow(s: State, t: State, up: Spot, p: Spot)
    requires Shaped(s) && Shaped(t) && p.root < 15 && up.root < 15
    decreases p.height
  {
    p != up ==> p.height > 0 && Node(t, p) == Node(s, p) && SameBelow(s, t, up, Parent(s.apb, p))
  }

  lemma {:induction false} FilledUp(s: State, t: State, up: Spot, p: Spot)
    requires Shaped(s) && Shaped(t) && p.root < 15 && up.root < 15 && SameBelow(s, t, up, p)
    ensures Filled(s, t, p) == Filled(s, t, up) && Missing(s, up) <= Missing(s, p)
    decreases p.height
  {
    hide Node;
    if p != up {
      FilledUp(s, t, up, Parent(s.apb, p));
    }
  }

  lemma {:induction false} BelowSame(s: State, t: State, up: Spot, p: Spot)
    requires Shaped(s) && Shaped(t) && up.root < 15 && Place(s.apb, p) && Place(s.apb, up) && (p == up || Above(s.apb, up, p)) && Grown(s, t, up)
    ensures SameBelow(s, t, up, p)
    decreases p.height
  {
    hide Node, Pow;
    if p != up {
      assert SameOrNew(s, t, up, p);
      AbovePlace(s.apb, up, p);
      if Above(s.apb, p, up) {
        AbovePlace(s.apb, p, up);
      }
      ParentPlace(s.apb, p);
      BelowSame(s, t, up, Parent(s.apb, p));
    }
  }

  /** When the way down ended at up, that is all that was taken. */
  lemma TakenUp(s: State, t: State, up: Spot, p: Spot, put: bool)
    requires Shaped(s) && Shaped(t) && up.root < 15 && Place(s.apb, p) && Place(s.apb, up) && Above(s.apb, up, p) && Grown(s, t, up)
    ensures Taken(s, t, p, put) == Taken(s, t, up, false) && Needed(s, up, false, true) <= Needed(s, p, put, true)
  {
    hide Node, Pow, Missing, Filled, Grown;
    ParentPlace(s.apb, p);
    BelowSame(s, t, up, p);
    BelowSame(s, t, up, Parent(s.apb, p));
    FilledUp(s, t, up, p);
    FilledUp(s, t, up, Parent(s.apb, p));
  }

  lemma {:induction false} FilledStays(t: State, u: State, q: Spot, p: Spot)
    requires Shaped(t) && Shaped(u) && Place(t.apb, q) && Place(t.apb, p) && Above(t.apb, q, p) && Grown(t, u, p) && Node(t, q) != 0
    ensures StaysFilled(t, u, q)
    decreases q.height
  {
    hide Pow, Ptr;
    AbovePlace(t.apb, q, p);
    assert SameOrNew(t, u, p, q);
    if q.height > 0 {
      ParentPlace(t.apb, q);
      AboveTrans(t.apb, Parent(t.apb, q), q, p);
      FilledStays(t, u, Parent(t.apb, q), p);
    }
  }

  lemma {:induction false} FilledDown(s: State, t: State, u: State, up: Spot, q: Spot, p: Spot)
    requires Shaped(s) && Shaped(t) && Shaped(u) && Place(s.apb, up) && Place(s.apb, q) && (q == up || Above(s.apb, up, q))
    requires Place(s.apb, p) && Above(s.apb, up, p) && Grown(s, t, up) && Grown(t, u, p) && Node(t, up) != 0
    ensures FilledTo(s, t, u, up, q)
    decreases q.height
  {
    hide Node, Pow;
    if q == up {
      FilledStays(t, u, up, p);
    } else {
      assert SameOrNew(s, t, up, q);
      AbovePlace(s.apb, up, q);
      if Above(s.apb, q, up) {
        AbovePlace(s.apb, q, up);
      }
      ParentPlace(s.apb, q);
      FilledDown(s, t, u, up, Parent(s.apb, q), p);
    }
  }

  /** What is taken down to up, and from there to p. */
  lemma TakenThen(s: State, t: State, u: State, up: Spot, p: Spot, put: bool)
    requires Shaped(s) && Shaped(t) && Shaped(u) && up.root < 15 && Place(s.apb, p) && Place(s.apb, up) && Above(s.apb, up, p)
    requires Grown(s, t, up) && Grown(t, u, p) && Node(t, up) != 0
    ensures Taken(s, u, p, put) == Taken(s, t, up, false) + Taken(t, u, p, put)
    ensures Needed(s, p, put, true) == Needed(s, up, false, true) + Needed(t, p, put, true)
  {
    hide Node, Pow, Missing, Filled;
    ParentPlace(s.apb, p);
    FilledDown(s, t, u, up, p, p);
    FilledThen(s, t, u, up, p);
    FilledDown(s, t, u, up, Parent(s.apb, p), p);
    FilledThen(s, t, u, up, Parent(s.apb, p));
  }

  /** What asking for the place p does: `set` stores `value` there, `alloc` fills holes on the way;
      ret is the block at p and n the number of blocks taken, which are those now in the empty places. */
  ghost predicate Outcome(s: State, t: State, p: Spot, put: bool, alloc: bool, value: nat, err: Errno, ret: nat, n: nat) {
    && Grown(s, t, p) && p.root < 15 && Sound(t, false) && (Sound(s, true) && !put ==> Sound(t, true))
    && |t.used| == |s.used| + n && t.used == s.used + Taken(s, t, p, put)
    && (err == Ok ==> n == Needed(s, p, put, alloc)) && (err == NoSpace ==> n < Needed(s, p, put, alloc))
    && (!alloc ==> t.used == s.used && (!put || err != Ok ==> t == s))
    && match err {
      case Ok =>
        && ret == Node(t, p)
        && (put ==> ret == value)
        && (!put && (!alloc || Node(s, p) != 0) ==> ret == Node(s, p))
        && (!put && alloc && Node(s, p) == 0 ==> 0 < ret < |t.disk| && ret !in s.used && ret in t.used && t.disk[ret] == Zeros(4 * s.apb))
      case NoIndirect => put && !alloc && p.height > 0 && Node(s, Parent(s.apb, p)) == 0
      case NoSpace => alloc && Node(t, p) == Node(s, p) && (put || Node(s, p) == 0)
    }
  }

  lemma NotNeeded(s: State, up: Spot, p: Spot, put: bool)
    requires Shaped(s) && p.root < 15 && up.root < 15
    ensures Needed(s, up, false, false) == 0 && Needed(s, p, put, false) == 0
  {
  }

  /** The descent to a place above failed. */
  lemma Failed(s: State, t: State, up: Spot, p: Spot, put: bool, alloc: bool, value: nat, ret: nat, n: nat)
    requires s.apb > 0 && Place(s.apb, p) && Above(s.apb, up, p)
    requires Outcome(s, t, up, false, alloc, 0, NoSpace, ret, n)
    ensures Outcome(s, t, p, put, alloc, value, NoSpace, ret, n)
  {
    hide Node, Pow, Taken, Needed;
    HoleBelow(s, up, p);
    AbovePlace(s.apb, up, p);
    TakenUp(s, t, up, p, put);
    if Above(s.apb, p, up) {
      AbovePlace(s.apb, p, up);
    }
    assert SameOrNew(s, t, up, p);
    forall q {:trigger SameOrNew(s, t, p, q)} | Place(s.apb, q) && q != p ensures SameOrNew(s, t, p, q) {
      if q != up {
        assert SameOrNew(s, t, up, q);
        if Above(s.apb, q, up) {
          AboveTrans(s.apb, q, up, p);
        }
      }
    }
  }

  /** Growing down to a place changes none below it. */
  lemma BelowStays(s: State, t: State, up: Spot, p: Spot)
    requires s.apb > 0 && Place(s.apb, p) && Above(s.apb, up, p) && Grown(s, t, up)
    ensures Node(t, p) == Node(s, p)
  {
    hide Node, Pow;
    AbovePlace(s.apb, up, p);
    if Above(s.apb, p, up) {
      AbovePlace(s.apb, p, up);
    }
    assert SameOrNew(s, t, up, p);
  }

  /** The block in the slot before a place, 0 if there is none. */
  function BlockBefore(s: State, p: Spot): nat
    requires Shaped(s) && p.root < 15
  {
    if p.height == 0 then if p.root > 0 then s.roots[p.root - 1] else 0
    else if p.index % s.apb > 0 then Child(s, Node(s, Parent(s.apb, p)), p.index % s.apb - 1) else 0
  }

  lemma {:induction false} HoleBelow(s: State, up: Spot, p: Spot)
    requires Shaped(s) && p.root < 15 && up.root < 15 && Above(s.apb, up, p)
    ensures Node(s, up) == 0 ==> Node(s, p) == 0 && Node(s, Parent(s.apb, p)) == 0
    decreases p.height
  {
    if up != Parent(s.apb, p) {
      HoleBelow(s, up, Parent(s.apb, p));
    }
  }

  /** The descent to a place above succeeded, and going on from it gave the result. */
  lemma Deeper(s: State, t: State, u: State, up: Spot, p: Spot, put: bool, alloc: bool, value: nat, b: nat, n1: nat, err: Errno, ret: nat, n2: nat)
    requires s.apb > 0 && Place(s.apb, p) && Above(s.apb, up, p)
    requires Outcome(s, t, up, false, alloc, 0, Ok, b, n1)
    requires Outcome(t, u, p, put, alloc, value, err, ret, n2)
    ensures Outcome(s, u, p, put, alloc, value, err, ret, n1 + n2)
  {
    hide Node, Pow, Sound, Taken, Needed;
    AbovePlace(s.apb, up, p);
    if Above(s.apb, p, up) {
      AbovePlace(s.apb, p, up);
    }
    assert SameOrNew(s, t, up, p);
    GrownThen(s, t, u, up, p);
    if alloc {
      TakenThen(s, t, u, up, p, put);
    } else {
      NotNeeded(s, up, p, put);
    }
  }
}
