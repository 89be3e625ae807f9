/**
 Bit-array bitmaps: single-bit operations (source/bitops.c), extents and the masked-byte range
 test (source/blkmap64_ba.c, and its 32-bit twin in source/gen_bitmap.c), and comparison.
 */
module Bitmap {

  /** Bit k of a byte: 1 << k. */
  function Mask(k: nat): bv8
    requires k < 8
  {
    match k case 0 => 1 case 1 => 2 case 2 => 4 case 3 => 8 case 4 => 16 case 5 => 32 case 6 => 64 case _ => 128
  }

  predicate Has(b: bv8, k: nat)
    requires k < 8
  {
    b & Mask(k) != 0
  }

  /** Bit i of a byte string, as ext2fs_test_bit64 reads it. */
  predicate IsSet(bytes: seq<bv8>, i: nat)
    requires i < 8 * |bytes|
  {
    Has(bytes[i / 8], i % 8)
  }

  /** Bit i is bit i % 8, from the lowest, of byte i / 8. */
  lemma BitOf(bytes: seq<bv8>, i: nat)
    requires i < 8 * |bytes|
    ensures IsSet(bytes, i) <==> (bytes[i / 8] >> (i % 8)) & 1 == 1
  {
    ShiftedBit(bytes[i / 8], i % 8);
  }

  lemma ShiftedBit(b: bv8, k: nat)
    requires k < 8
    ensures Has(b, k) <==> (b >> k) & 1 == 1
  {
    match k case 0 => case 1 => case 2 => case 3 => case 4 => case 5 => case 6 => case _ =>
  }

  /** Every bit of [from, to) is clear. */
  ghost predicate AllClear(bytes: seq<bv8>, from: nat, to: nat)
    requires to <= 8 * |bytes|
  {
    forall i: nat | from <= i < to :: !IsSet(bytes, i)
  }

  lemma MaskOr(b: bv8, k: nat, j: nat)
    requires k < 8 && j < 8
    ensures Has(b | Mask(k), j) <==> Has(b, j) || j == k
  {
    match k case 0 => case 1 => case 2 => case 3 => case 4 => case 5 => case 6 => case _ =>
  }

  lemma MaskClear(b: bv8, k: nat, j: nat)
    requires k < 8 && j < 8
    ensures Has(b & !Mask(k), j) <==> Has(b, j) && j != k
  {
    match k case 0 => case 1 => case 2 => case 3 => case 4 => case 5 => case 6 => case _ =>
  }

  lemma ByteZero(b: bv8)
    ensures b == 0 <==> forall k: nat | k < 8 :: !Has(b, k)
  {
    if b != 0 {
      assert Has(b, 0) || Has(b, 1) || Has(b, 2) || Has(b, 3) || Has(b, 4) || Has(b, 5) || Has(b, 6) || Has(b, 7);
    }
  }

  lemma OneBit(b: bv8, k: nat)
    requires k < 8
    ensures b & Mask(k) == (if Has(b, k) then Mask(k) else 0)
    ensures Mask(k) != 0
  {
    match k case 0 => case 1 => case 2 => case 3 => case 4 => case 5 => case 6 => case _ =>
  }

  lemma AndAnd(m: bv8, b: bv8, c: bv8)
    ensures (m & b) & c == (m & c) & (b & c)
    ensures c & c == c && c & 0 == 0 && 0 & c == 0
  {
  }

  lemma HasAnd(m: bv8, b: bv8, k: nat)
    requires k < 8
    ensures Has(m & b, k) <==> Has(m, k) && Has(b, k)
  {
    hide Mask;
    AndAnd(m, b, Mask(k));
    OneBit(m, k);
    OneBit(b, k);
  }

  /** m is the mask of bits [lo, hi). */
  ghost predicate IsRangeMask(m: bv8, lo: int, hi: int) {
    forall k: nat | k < 8 :: Has(m, k) <==> lo <= k < hi
  }

  /** Testing a byte against a range mask looks at exactly that range. */
  lemma RangeMaskTest(m: bv8, lo: int, hi: int, b: bv8)
    requires IsRangeMask(m, lo, hi)
    ensures m & b == 0 <==> forall k: nat | k < 8 && lo <= k < hi :: !Has(b, k)
  {
    hide Has;
    ByteZero(m & b);
    forall k: nat | k < 8 ensures Has(m & b, k) <==> Has(m, k) && Has(b, k) {
      HasAnd(m, b, k);
    }
  }

  lemma ClearSplit(bytes: seq<bv8>, from: nat, mid: nat, to: nat)
    requires from <= mid <= to <= 8 * |bytes|
    ensures AllClear(bytes, from, to) <==> AllClear(bytes, from, mid) && AllClear(bytes, mid, to)
  {
    hide IsSet;
  }

  predicate Meets(mask: bv8, b: bv8) { mask & b != 0 }

  /** Testing byte q against a range mask tests that range of bits. */
  lemma MaskedByteClear(bytes: seq<bv8>, q: nat, mask: bv8, lo: nat, hi: nat)
    requires q < |bytes| && lo <= hi <= 8 && IsRangeMask(mask, lo, hi)
    ensures !Meets(mask, bytes[q]) <==> AllClear(bytes, 8 * q + lo, 8 * q + hi)
  {
    hide Has, AllClear;
    RangeMaskTest(mask, lo, hi, bytes[q]);
    ByteRangeClear(bytes, q, lo, hi);
  }

  /** memcmp against a zero buffer. */
  predicate ZeroBytes(bytes: seq<bv8>) {
    forall i | 0 <= i < |bytes| :: bytes[i] == 0
  }

  lemma ZeroBytesClear(bytes: seq<bv8>, from: nat, to: nat)
    requires from <= to <= |bytes|
    ensures ZeroBytes(bytes[from..to]) <==> AllClear(bytes, 8 * from, 8 * to)
  {
    hide Has;
    var part := bytes[from..to];
    if ZeroBytes(part) {
      forall i: nat | 8 * from <= i < 8 * to ensures !IsSet(bytes, i) {
        assert part[i / 8 - from] == 0;
        ByteZero(bytes[i / 8]);
      }
    }
    if AllClear(bytes, 8 * from, 8 * to) {
      forall i | 0 <= i < |part| ensures part[i] == 0 {
        forall k: nat | k < 8 ensures !Has(part[i], k) {
          assert !IsSet(bytes, 8 * (from + i) + k);
        }
        ByteZero(part[i]);
      }
    }
  }

  /** Bits [8 q + lo, 8 q + hi) are the bits lo to hi of byte q. */
  lemma ByteRangeClear(bytes: seq<bv8>, q: nat, lo: nat, hi: nat)
    requires lo <= hi <= 8 && q < |bytes|
    ensures AllClear(bytes, 8 * q + lo, 8 * q + hi) <==> forall k: nat | k < 8 && lo <= k < hi :: !Has(bytes[q], k)
  {
    hide Has;
    if AllClear(bytes, 8 * q + lo, 8 * q + hi) {
      forall k: nat | k < 8 && lo <= k < hi ensures !Has(bytes[q], k) {
        assert !IsSet(bytes, 8 * q + k);
      }
    }
  }

  /** ext2fs_mem_is_zero: 256 bytes at a time, then the rest. */
  method MemIsZero(mem: seq<bv8>, from: nat, len0: nat) returns (zero: bool)
    requires from + len0 <= |mem|
    ensures zero <==> ZeroBytes(mem[from..from + len0])
  {
    var p, len := from, len0;
    while len >= 256
      invariant from <= p && p + len == from + len0 && 0 <= len
      invariant ZeroBytes(mem[from..p])
    {
      if !ZeroBytes(mem[p..p + 256]) {
        var i :| 0 <= i < 256 && mem[p..p + 256][i] != 0;
        assert mem[from..from + len0][p - from + i] != 0;
        return false;
      }
      assert mem[from..p + 256] == mem[from..p] + mem[p..p + 256];
      len := len - 256;
      p := p + 256;
    }
    assert mem[from..from + len0] == mem[from..p] + mem[p..p + len];
    if len != 0 {
      zero := ZeroBytes(mem[p..p + len]);
      if !zero {
        var i :| 0 <= i < len && mem[p..p + len][i] != 0;
        assert mem[from..from + len0][p - from + i] != 0;
      }
    } else {
      zero := true;
    }
  }

  /** A bitmap over the numbers start..realEnd; numbers up to `end` are meaningful. */
  class BitArray {
    const start: nat
    const end: nat
    const realEnd: nat
    const bytes: array<bv8>

    ghost predicate Valid()
      reads this
    {
      start <= end <= realEnd && bytes.Length == (realEnd - start) / 8 + 1
    }

    ghost predicate InRange(n: nat)
      reads this
    {
      start <= n <= realEnd
    }

    ghost predicate Bit(n: nat)
      requires Valid()
      reads this, bytes
    {
      InRange(n) && IsSet(bytes[..], n - start)
    }

    /** The abstract state: the set of marked numbers. */
    ghost function Marked(): set<nat>
      requires Valid()
      reads this, bytes
    {
      set n: nat | start <= n <= realEnd && Bit(n)
    }

    /** ba_new_bmap followed by ba_clear_bmap */
    constructor (start: nat, end: nat, realEnd: nat)
      requires start <= end <= realEnd
      ensures Valid() && fresh(bytes)
      ensures this.start == start && this.end == end && this.realEnd == realEnd
      ensures Marked() == {}
    {
      this.start, this.end, this.realEnd := start, end, realEnd;
      bytes := new bv8[(realEnd - start) / 8 + 1](_ => 0);
      new;
      forall n: nat ensures !Bit(n) {
        if InRange(n) {
          ByteZero(bytes[(n - start) / 8]);
        }
      }
    }

    /** ba_mark_bmap over ext2fs_set_bit64; returns the previous bit. */
    method Mark(n: nat) returns (was: bool)
      requires Valid() && InRange(n)
      modifies bytes
      ensures was == (n in old(Marked()))
      ensures Marked() == old(Marked()) + {n}
    {
      hide Has;
      var q, k := (n - start) / 8, (n - start) % 8;
      was := Has(bytes[q], k);
      bytes[q] := bytes[q] | Mask(k);
      forall m: nat ensures Bit(m) <==> old(Bit(m)) || m == n {
        if InRange(m) {
          MaskOr(old(bytes[q]), k, (m - start) % 8);
        }
      }
    }

    /** ba_unmark_bmap over ext2fs_clear_bit64 */
    method Unmark(n: nat) returns (was: bool)
      requires Valid() && InRange(n)
      modifies bytes
      ensures was == (n in old(Marked()))
      ensures Marked() == old(Marked()) - {n}
    {
      hide Has;
      var q, k := (n - start) / 8, (n - start) % 8;
      was := Has(bytes[q], k);
      bytes[q] := bytes[q] & !Mask(k);
      forall m: nat ensures Bit(m) <==> old(Bit(m)) && m != n {
        if InRange(m) {
          MaskClear(old(bytes[q]), k, (m - start) % 8);
        }
      }
    }

    /** ba_test_bmap over ext2fs_test_bit64 */
    method Test(n: nat) returns (r: bool)
      requires Valid() && InRange(n)
      ensures r == (n in Marked())
    {
      r := Has(bytes[(n - start) / 8], (n - start) % 8);
      assert r == Bit(n);
    }

    /** ba_mark_bmap_extent */
    method MarkExtent(n: nat, num: nat)
      requires Valid() && start <= n && n + num <= realEnd + 1
      modifies bytes
      ensures forall m: nat :: m in Marked() <==> m in old(Marked()) || n <= m < n + num
    {
      for i := 0 to num
        invariant forall m: nat :: m in Marked() <==> m in old(Marked()) || n <= m < n + i
      {
        var _ := Mark(n + i);
      }
    }

    /** ba_unmark_bmap_extent */
    method UnmarkExtent(n: nat, num: nat)
      requires Valid() && start <= n && n + num <= realEnd + 1
      modifies bytes
      ensures forall m: nat :: m in Marked() <==> m in old(Marked()) && !(n <= m < n + num)
    {
      for i := 0 to num
        invariant forall m: nat :: m in Marked() <==> m in old(Marked()) && !(n <= m < n + i)
      {
        var _ := Unmark(n + i);
      }
    }

    /** ba_test_clear_bmap_extent: masks for the partial bytes, a zero scan for the whole ones. */
    method TestClearBits(n: nat, len: nat) returns (clear: bool)
      requires Valid() && start <= n && n + len <= realEnd + 1
      ensures clear <==> AllClear(bytes[..], n - start, n - start + len)
    {
      hide Has, IsSet, AllClear, Mask, IsRangeMask, Meets;
      var addr := bytes[..];
      var first := n - start;
      ghost var to := first + len;
      assert to <= 8 * bytes.Length;
      var startByte, startBit := first / 8, first % 8;
      var lenByte, lenBit := len / 8, len % 8;
      if startBit != 0 {
        var markCount := 8 - startBit;
        var markBit := 7;
        if len < 8 - startBit {
          markCount := len;
          markBit := len + startBit - 1;
        }
        ghost var hi := markBit + 1;
        var firstBit := BuildMask(markBit, markCount);
        MaskedByteClear(addr, startByte, firstBit, startBit, hi);
        ClearSplit(addr, first, 8 * startByte + hi, to);
        if Meets(firstBit, addr[startByte]) {
          return false;
        } else if len <= 8 - startBit {
          NothingClear(addr, to);
          return true;
        }
        startByte := startByte + 1;
        lenBit := (len - markCount) % 8;
        lenByte := (len - markCount) / 8;
      }
      // what is left starts on a byte boundary
      ghost var mid := 8 * (startByte + lenByte);
      assert to == mid + lenBit;
      assert AllClear(addr, first, to) <==> AllClear(addr, 8 * startByte, to);
      ClearSplit(addr, 8 * startByte, mid, to);
      if lenBit != 0 {
        var lastBit := BuildMask(lenBit - 1, lenBit);
        MaskedByteClear(addr, startByte + lenByte, lastBit, 0, lenBit);
        if Meets(lastBit, addr[startByte + lenByte]) {
          return false;
        } else if lenByte == 0 {
          NothingClear(addr, mid);
          return true;
        }
      }
      if lenBit == 0 {
        NothingClear(addr, mid);
      }
      ZeroBytesClear(addr, startByte, startByte + lenByte);
      clear := MemIsZero(addr, startByte, lenByte);
    }

    /** The range test in terms of the abstract state. */
    method TestClearExtent(n: nat, len: nat) returns (clear: bool)
      requires Valid() && start <= n && n + len <= realEnd + 1
      ensures clear <==> forall m: nat | n <= m < n + len :: m !in Marked()
    {
      clear := TestClearBits(n, len);
      AllClearMarked(n, len);
    }

    lemma AllClearMarked(n: nat, len: nat)
      requires Valid() && start <= n && n + len <= realEnd + 1
      ensures AllClear(bytes[..], n - start, n - start + len) <==> forall m: nat | n <= m < n + len :: m !in Marked()
    {
      hide IsSet;
      forall m: nat | n <= m < n + len ensures m in Marked() <==> IsSet(bytes[..], m - start) {
        assert m in Marked() <==> Bit(m);
      }
      if forall m: nat | n <= m < n + len :: m !in Marked() {
        forall i: nat | n - start <= i < n - start + len ensures !IsSet(bytes[..], i) {
          assert start + i !in Marked();
        }
      }
    }

    /** The range test says what repeated single-bit tests say. */
    method TestEach(n: nat, len: nat) returns (clear: bool)
      requires Valid() && start <= n && n + len <= realEnd + 1
      ensures clear <==> forall m: nat | n <= m < n + len :: m !in Marked()
    {
      for i := 0 to len
        invariant forall m: nat | n <= m < n + i :: m !in Marked()
      {
        var b := Test(n + i);
        if b {
          return false;
        }
      }
      return true;
    }
  }

  /** The mask-building loops: `count` ones from bit `top` downwards. */
  method BuildMask(top: int, count: nat) returns (mask: bv8)
    requires -1 <= top < 8 && count <= top + 1
    ensures IsRangeMask(mask, top + 1 - count, top + 1)
  {
    hide Has, Mask;
    mask := 0;
    var markBit := top;
    NoMask(top + 1);
    for i := count downto 0
      invariant markBit == top - count + i
      invariant IsRangeMask(mask, markBit + 1, top + 1)
    {
      GrowMask(mask, markBit, top + 1);
      mask := mask | Mask(markBit);
      markBit := markBit - 1;
    }
  }

  lemma NothingClear(bytes: seq<bv8>, at: nat)
    requires at <= 8 * |bytes|
    ensures AllClear(bytes, at, at)
  {
  }

  lemma NoMask(hi: nat)
    ensures IsRangeMask(0, hi, hi)
  {
    ByteZero(0);
  }

  lemma GrowMask(m: bv8, k: nat, hi: nat)
    requires k < 8 && k < hi && IsRangeMask(m, k + 1, hi)
    ensures IsRangeMask(m | Mask(k), k, hi)
  {
    hide Has;
    var r := m | Mask(k);
    forall j: nat | j < 8 ensures Has(r, j) <==> k <= j < hi {
      MaskOr(m, k, j);
    }
  }

  // ---------- Comparison ----------

  /** Bits 0..span of the two arrays agree. */
  ghost predicate Agree(b1: seq<bv8>, b2: seq<bv8>, from: nat, span: nat)
    requires span < 8 * |b1| && span < 8 * |b2|
  {
    forall i: nat | from <= i <= span :: IsSet(b1, i) == IsSet(b2, i)
  }

  lemma PrefixAgree(b1: seq<bv8>, b2: seq<bv8>, q: nat)
    requires q <= |b1| && q <= |b2|
    ensures b1[..q] == b2[..q] <==> forall i: nat | i < 8 * q :: IsSet(b1, i) == IsSet(b2, i)
  {
    hide Has;
    if b1[..q] == b2[..q] {
      forall i: nat | i < 8 * q ensures IsSet(b1, i) == IsSet(b2, i) {
        assert b1[..q][i / 8] == b2[..q][i / 8];
      }
    }
    if forall i: nat | i < 8 * q :: IsSet(b1, i) == IsSet(b2, i) {
      forall j: nat | j < q ensures b1[j] == b2[j] {
        forall k: nat | k < 8 ensures Has(b1[j], k) == Has(b2[j], k) {
          assert IsSet(b1, 8 * j + k) == IsSet(b2, 8 * j + k);
        }
        SameBits(b1[j], b2[j]);
      }
    }
  }

  lemma SameBits(a: bv8, b: bv8)
    requires forall k: nat | k < 8 :: Has(a, k) == Has(b, k)
    ensures a == b
  {
    assert Has(a, 0) == Has(b, 0) && Has(a, 1) == Has(b, 1) && Has(a, 2) == Has(b, 2) && Has(a, 3) == Has(b, 3);
    assert Has(a, 4) == Has(b, 4) && Has(a, 5) == Has(b, 5) && Has(a, 6) == Has(b, 6) && Has(a, 7) == Has(b, 7);
  }

  /** ext2fs_compare_generic_bitmap (32-bit): whole bytes with memcmp, then the last bits one by one. */
  method Compare(bm1: BitArray, bm2: BitArray) returns (same: bool)
    requires bm1.Valid() && bm2.Valid()
    ensures same <==> && bm1.start == bm2.start
                      && bm1.end == bm2.end
                      && Agree(bm1.bytes[..], bm2.bytes[..], 0, bm1.end - bm1.start)
  {
    hide IsSet;
    if bm1.start != bm2.start || bm1.end != bm2.end {
      return false;
    }
    var a1, a2 := bm1.bytes[..], bm2.bytes[..];
    var span := bm1.end - bm1.start;
    PrefixAgree(a1, a2, span / 8);
    if a1[..span / 8] != a2[..span / 8] {
      return false;
    }
    same := CompareTail(bm1, bm2);
  }

  /** The tail loop, which is all the 64-bit ext2fs_compare_generic_bmap consists of. */
  method CompareTail(bm1: BitArray, bm2: BitArray) returns (same: bool)
    requires bm1.Valid() && bm2.Valid() && bm1.start == bm2.start && bm1.end == bm2.end
    ensures same <==> Agree(bm1.bytes[..], bm2.bytes[..], (bm1.end - bm1.start) / 8 * 8, bm1.end - bm1.start)
  {
    var a1, a2 := bm1.bytes[..], bm2.bytes[..];
    var first := bm1.end - (bm1.end - bm1.start) % 8;
    for i := first to bm1.end + 1
      invariant forall n: nat | first - bm1.start <= n < i - bm1.start :: IsSet(a1, n) == IsSet(a2, n)
    {
      if IsSet(a1, i - bm1.start) != IsSet(a2, i - bm1.start) {
        return false;
      }
    }
    return true;
  }

  /** Looking only at the tail decides equality exactly when the tail is everything. */
  lemma TailDecides(span: nat)
    ensures (forall b1: seq<bv8>, b2: seq<bv8> | span < 8 * |b1| && span < 8 * |b2| && Agree(b1, b2, span / 8 * 8, span)
               :: Agree(b1, b2, 0, span))
        <==> span < 8
  {
    if span >= 8 {
      var n := span / 8 + 1;
      var b1: seq<bv8> := [1] + seq(n - 1, _ => 0 as bv8);
      var b2: seq<bv8> := [0] + seq(n - 1, _ => 0 as bv8);
      assert IsSet(b1, 0) && !IsSet(b2, 0);
      assert forall i: nat | 8 <= i <= span :: b1[i / 8] == b2[i / 8];
      assert Agree(b1, b2, span / 8 * 8, span) && !Agree(b1, b2, 0, span);
    }
  }
}
