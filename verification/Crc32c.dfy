/**
 CRC32c: the slice-by-8 form of source/crc32c.c against the bit-at-a-time definition.

 `Order` is the bit order of the checksum (lsbit first or msbit first), `Host` the byte
 order of the machine.  When the two disagree the C code keeps the running checksum and
 every table entry byte-swapped; when they agree nothing is swapped.

 The algebra is done with bit-vector operators hidden behind `Xor`, `Lead`, `Rest` and
 friends; only the small lemmas about those functions look at bits.
 */
module Crc32c {

  datatype Order = LE | BE
  datatype Host = Little | Big

  const CRCPOLY_LE: bv32 := 0x82F63B78
  const CRCPOLY_BE: bv32 := 0x1EDC6F41

  // ---------- The bitwise definition ----------

  function Xor(a: bv32, b: bv32): bv32 { a ^ b }

  function Low(o: Order, c: bv32): bool {
    match o case LE => c & 1 != 0 case BE => c & 0x8000_0000 != 0
  }

  function Shift(o: Order, c: bv32): bv32 {
    match o case LE => c >> 1 case BE => c << 1
  }

  function Poly(o: Order, u: bool): bv32 {
    if !u then 0 else match o case LE => CRCPOLY_LE case BE => CRCPOLY_BE
  }

  /** One bit of polynomial division: the body of the inner loop of the one-bit variant. */
  function Bit(o: Order, c: bv32): bv32 {
    Xor(Shift(o, c), Poly(o, Low(o, c)))
  }

  function Bits(o: Order, c: bv32, n: nat): bv32 {
    if n == 0 then c else Bit(o, Bits(o, c, n - 1))
  }

  /** Where a message byte enters the register. */
  function Inject(o: Order, b: bv8): bv32 {
    match o case LE => b as bv32 case BE => (b as bv32) << 24
  }

  function Byte(o: Order, c: bv32, b: bv8): bv32 {
    Bits(o, Xor(c, Inject(o, b)), 8)
  }

  /** The checksum of `s` from seed `c`. */
  function Crc(o: Order, c: bv32, s: seq<bv8>): bv32 {
    if s == [] then c else Byte(o, Crc(o, c, s[..|s| - 1]), s[|s| - 1])
  }

  /** The one-bit-at-a-time variant of ext2fs_crc32c_le and ext2fs_crc32c_be. */
  method CrcBitwise(o: Order, seed: bv32, p: seq<bv8>) returns (crc: bv32)
    ensures crc == Crc(o, seed, p)
  {
    hide Bit, Xor, Inject;
    crc := seed;
    assert p[..0] == [];
    for k := 0 to |p|
      invariant crc == Crc(o, seed, p[..k])
    {
      ghost var before := crc;
      crc := Xor(crc, Inject(o, p[k]));
      for i := 0 to 8
        invariant crc == Bits(o, Xor(before, Inject(o, p[k])), i)
      {
        crc := Bit(o, crc);
      }
      assert p[..k + 1][..k] == p[..k];
    }
    assert p[..|p|] == p;
  }

  // ---------- Linearity over GF(2) ----------

  lemma XorAssoc(a: bv32, b: bv32, c: bv32)
    ensures Xor(Xor(a, b), c) == Xor(a, Xor(b, c))
  {
    calc { Xor(Xor(a, b), c); Xor(a ^ b, c); (a ^ b) ^ c; a ^ (b ^ c); Xor(a, b ^ c); Xor(a, Xor(b, c)); }
  }

  lemma XorComm(a: bv32, b: bv32)
    ensures Xor(a, b) == Xor(b, a)
  {
  }

  lemma XorZero(a: bv32)
    ensures Xor(a, 0) == a == Xor(0, a)
    ensures Xor(a, a) == 0
  {
  }

  lemma Interchange(a: bv32, b: bv32, c: bv32, d: bv32)
    ensures Xor(Xor(a, b), Xor(c, d)) == Xor(Xor(a, c), Xor(b, d))
  {
    hide *;
    XorAssoc(Xor(a, b), c, d);
    XorAssoc(a, b, c);
    XorComm(b, c);
    XorAssoc(a, c, b);
    XorAssoc(Xor(a, c), b, d);
  }

  lemma LowXor(o: Order, a: bv32, b: bv32)
    ensures Low(o, Xor(a, b)) == (Low(o, a) != Low(o, b))
  {
  }

  lemma XorShr1(a: bv32, b: bv32)
    ensures (a ^ b) >> 1 == (a >> 1) ^ (b >> 1)
  {
  }

  lemma XorShl1(a: bv32, b: bv32)
    ensures (a ^ b) << 1 == (a << 1) ^ (b << 1)
  {
  }

  lemma ShiftXor(o: Order, a: bv32, b: bv32)
    ensures Shift(o, Xor(a, b)) == Xor(Shift(o, a), Shift(o, b))
  {
    match o
    case LE => XorShr1(a, b);
    case BE => XorShl1(a, b);
  }

  lemma PolyXor(o: Order, u: bool, v: bool)
    ensures Poly(o, u != v) == Xor(Poly(o, u), Poly(o, v))
  {
  }

  lemma BitLinear(o: Order, a: bv32, b: bv32)
    ensures Bit(o, Xor(a, b)) == Xor(Bit(o, a), Bit(o, b))
  {
    hide Xor, Shift, Poly, Low;
    LowXor(o, a, b);
    ShiftXor(o, a, b);
    PolyXor(o, Low(o, a), Low(o, b));
    Interchange(Shift(o, a), Shift(o, b), Poly(o, Low(o, a)), Poly(o, Low(o, b)));
  }

  lemma {:induction false} BitsLinear(o: Order, a: bv32, b: bv32, n: nat)
    ensures Bits(o, Xor(a, b), n) == Xor(Bits(o, a, n), Bits(o, b, n))
  {
    hide Bit, Xor;
    if n > 0 {
      BitsLinear(o, a, b, n - 1);
      BitLinear(o, Bits(o, a, n - 1), Bits(o, b, n - 1));
    }
  }

  lemma {:induction false} BitsAdd(o: Order, c: bv32, m: nat, n: nat)
    ensures Bits(o, Bits(o, c, m), n) == Bits(o, c, m + n)
  {
    hide Bit;
    if n > 0 {
      BitsAdd(o, c, m, n - 1);
    }
  }

  // ---------- One byte through the table ----------

  /** The register byte that meets the next message byte, and what is left after shifting it out. */
  function Lead(o: Order, c: bv32): bv8 {
    match o case LE => (c & 0xff) as bv8 case BE => (c >> 24) as bv8
  }

  function Rest(o: Order, c: bv32): bv32 {
    match o case LE => c >> 8 case BE => c << 8
  }

  function Tail(o: Order, c: bv32): bv32 {
    match o case LE => c & 0xffff_ff00 case BE => c & 0x00ff_ffff
  }

  lemma LeadTail(o: Order, c: bv32)
    ensures Xor(Inject(o, Lead(o, c)), Tail(o, c)) == c
  {
    match o
    case LE =>
      assert ((c & 0xff) as bv8) as bv32 == c & 0xff;
      calc { Xor(Inject(LE, Lead(LE, c)), Tail(LE, c)); (c & 0xff) ^ (c & 0xffff_ff00); c; }
    case BE =>
      assert (((c >> 24) as bv8) as bv32) << 24 == c & 0xff00_0000;
      calc { Xor(Inject(BE, Lead(BE, c)), Tail(BE, c)); (c & 0xff00_0000) ^ (c & 0x00ff_ffff); c; }
  }

  lemma LeadRestInject(o: Order, c: bv32, b: bv8)
    ensures Lead(o, Xor(c, Inject(o, b))) == b ^ Lead(o, c)
    ensures Rest(o, Xor(c, Inject(o, b))) == Rest(o, c)
  {
  }

  lemma BitShiftsOut(o: Order, c: bv32)
    requires !Low(o, c)
    ensures Bit(o, c) == Shift(o, c)
  {
    hide Shift, Low, Xor;
    XorZero(Shift(o, c));
  }

  function Right(x: bv32, n: nat): bv32
    requires n <= 8
  {
    match n case 0 => x case 1 => x >> 1 case 2 => x >> 2 case 3 => x >> 3 case 4 => x >> 4
            case 5 => x >> 5 case 6 => x >> 6 case 7 => x >> 7 case _ => x >> 8
  }

  function Left(x: bv32, n: nat): bv32
    requires n <= 8
  {
    match n case 0 => x case 1 => x << 1 case 2 => x << 2 case 3 => x << 3 case 4 => x << 4
            case 5 => x << 5 case 6 => x << 6 case 7 => x << 7 case _ => x << 8
  }

  /** The register moved n bits towards its feedback end. */
  function ShiftBy(o: Order, x: bv32, n: nat): bv32
    requires n <= 8
  {
    match o case LE => Right(x, n) case BE => Left(x, n)
  }

  lemma RightNext(x: bv32, n: nat)
    requires n < 8
    ensures Right(x, n + 1) == Right(x, n) >> 1
  {
    match n case 0 =>
    case 1 => assert (x >> 1) >> 1 == x >> 2;
    case 2 => assert (x >> 2) >> 1 == x >> 3;
    case 3 => assert (x >> 3) >> 1 == x >> 4;
    case 4 => assert (x >> 4) >> 1 == x >> 5;
    case 5 => assert (x >> 5) >> 1 == x >> 6;
    case 6 => assert (x >> 6) >> 1 == x >> 7;
    case _ => assert (x >> 7) >> 1 == x >> 8;
  }

  lemma LeftNext(x: bv32, n: nat)
    requires n < 8
    ensures Left(x, n + 1) == Left(x, n) << 1
  {
    match n case 0 =>
    case 1 => assert (x << 1) << 1 == x << 2;
    case 2 => assert (x << 2) << 1 == x << 3;
    case 3 => assert (x << 3) << 1 == x << 4;
    case 4 => assert (x << 4) << 1 == x << 5;
    case 5 => assert (x << 5) << 1 == x << 6;
    case 6 => assert (x << 6) << 1 == x << 7;
    case _ => assert (x << 7) << 1 == x << 8;
  }

  lemma ShiftByNext(o: Order, x: bv32, n: nat)
    requires n < 8
    ensures ShiftBy(o, x, n + 1) == Shift(o, ShiftBy(o, x, n))
  {
    hide Left, Right;
    RightNext(x, n);
    LeftNext(x, n);
  }

  lemma TailQuiet(o: Order, c: bv32, n: nat)
    requires n < 8
    ensures !Low(o, ShiftBy(o, Tail(o, c), n))
  {
    match (o, n)
    case (LE, 0) => case (LE, 1) => case (LE, 2) => case (LE, 3) =>
    case (LE, 4) => case (LE, 5) => case (LE, 6) => case (LE, _) =>
    case (BE, 0) => case (BE, 1) => case (BE, 2) => case (BE, 3) =>
    case (BE, 4) => case (BE, 5) => case (BE, 6) => case (BE, _) =>
  }

  lemma TailRest(o: Order, c: bv32)
    ensures ShiftBy(o, Tail(o, c), 8) == Rest(o, c)
  {
    match o
    case LE =>
      calc { ShiftBy(LE, Tail(LE, c), 8); Right(c & 0xffff_ff00, 8); (c & 0xffff_ff00) >> 8; c >> 8; Rest(LE, c); }
    case BE =>
      calc { ShiftBy(BE, Tail(BE, c), 8); Left(c & 0x00ff_ffff, 8); (c & 0x00ff_ffff) << 8; c << 8; Rest(BE, c); }
  }

  /** With its leading byte cleared, the register feeds nothing back for eight bits. */
  lemma {:induction false} TailBits(o: Order, c: bv32, n: nat)
    requires n <= 8
    ensures Bits(o, Tail(o, c), n) == ShiftBy(o, Tail(o, c), n)
  {
    if n == 0 {
      hide Tail;
    } else {
      hide Bit, Tail, ShiftBy, Shift, Low;
      TailBits(o, c, n - 1);
      ShiftByNext(o, Tail(o, c), n - 1);
      TailQuiet(o, c, n - 1);
      BitShiftsOut(o, ShiftBy(o, Tail(o, c), n - 1));
    }
  }

  /** Table k of the generated header, by its recurrence: entry i of table 0 is the checksum of
      the byte i, and each further table advances the previous one by one zero byte. */
  function Table(o: Order, k: nat, i: bv8): bv32 {
    if k == 0 then Bits(o, Inject(o, i), 8)
    else var t := Table(o, k - 1, i); Xor(Rest(o, t), Table(o, 0, Lead(o, t)))
  }

  lemma ByteByTable(o: Order, c: bv32)
    ensures Bits(o, c, 8) == Xor(Rest(o, c), Table(o, 0, Lead(o, c)))
  {
    hide Bits, Xor, Inject, Lead, Rest, Tail, ShiftBy;
    var hi, lo := Inject(o, Lead(o, c)), Tail(o, c);
    LeadTail(o, c);
    BitsLinear(o, hi, lo, 8);
    TailBits(o, c, 8);
    TailRest(o, c);
    XorComm(Bits(o, hi, 8), Rest(o, c));
  }

  /** The look-up index of a byte-wise step. */
  function Index(o: Order, c: bv32, b: bv8): bv8 { b ^ Lead(o, c) }

  lemma StepByTable(o: Order, c: bv32, b: bv8)
    ensures Byte(o, c, b) == Xor(Table(o, 0, Index(o, c, b)), Rest(o, c))
  {
    hide Bits, Xor, Inject, Lead, Rest, Table;
    ByteByTable(o, Xor(c, Inject(o, b)));
    LeadRestInject(o, c, b);
    XorComm(Rest(o, c), Table(o, 0, Index(o, c, b)));
  }

  /** Entry i of table k is the byte i followed by k zero bytes. */
  lemma {:induction false} TableBits(o: Order, k: nat, i: bv8)
    ensures Table(o, k, i) == Bits(o, Inject(o, i), 8 * (k + 1))
  {
    hide Bits, Xor, Inject, Lead, Rest;
    if k > 0 {
      TableBits(o, k - 1, i);
      ByteByTable(o, Table(o, k - 1, i));
      BitsAdd(o, Inject(o, i), 8 * k, 8);
    }
  }

  lemma TableAdvance(o: Order, k: nat, n: nat, i: bv8)
    ensures Bits(o, Table(o, k, i), 8 * n) == Table(o, k + n, i)
  {
    hide Bits, Inject, Table;
    TableBits(o, k, i);
    TableBits(o, k + n, i);
    BitsAdd(o, Inject(o, i), 8 * (k + 1), 8 * n);
  }

  lemma AdvanceXor(o: Order, k: nat, i: bv8, m: nat, j: bv8, n: nat)
    ensures Bits(o, Xor(Table(o, k, i), Table(o, m, j)), 8 * n) == Xor(Table(o, k + n, i), Table(o, m + n, j))
  {
    hide Bits, Xor, Table;
    BitsLinear(o, Table(o, k, i), Table(o, m, j), 8 * n);
    TableAdvance(o, k, n, i);
    TableAdvance(o, m, n, j);
  }

  // ---------- Slicing ----------

  /** Consuming b with x ^ r in the register advances x by one zero byte and consumes b into r. */
  lemma Split(o: Order, x: bv32, r: bv32, b: bv8)
    ensures Byte(o, Xor(x, r), b) == Xor(Bits(o, x, 8), Byte(o, r, b))
  {
    hide Bits, Xor, Inject;
    XorAssoc(x, r, Inject(o, b));
    BitsLinear(o, x, Xor(r, Inject(o, b)), 8);
  }

  function Rests(o: Order, c: bv32, n: nat): bv32
    requires n <= 3
  {
    match n case 0 => c case 1 => Rest(o, c) case 2 => Rest(o, Rest(o, c)) case _ => Rest(o, Rest(o, Rest(o, c)))
  }

  function Xor4(a: bv32, b: bv32, c: bv32, d: bv32): bv32 { Xor(Xor(Xor(a, b), c), d) }

  function Byte4(o: Order, c: bv32, b0: bv8, b1: bv8, b2: bv8, b3: bv8): bv32 {
    Byte(o, Byte(o, Byte(o, Byte(o, c, b0), b1), b2), b3)
  }

  lemma RestsGone(o: Order, c: bv32)
    ensures Rest(o, Rest(o, Rest(o, Rest(o, c)))) == 0
  {
    match o
    case LE =>
      calc { Rest(LE, Rest(LE, Rest(LE, Rest(LE, c)))); (((c >> 8) >> 8) >> 8) >> 8; 0; }
    case BE =>
      calc { Rest(BE, Rest(BE, Rest(BE, Rest(BE, c)))); (((c << 8) << 8) << 8) << 8; 0; }
  }

  /** x ^ r with r about to lose its leading byte to the table. */
  lemma SplitByTable(o: Order, x: bv32, r: bv32, b: bv8)
    ensures Byte(o, Xor(x, r), b) == Xor(Xor(Bits(o, x, 8), Table(o, 0, Index(o, r, b))), Rest(o, r))
  {
    hide Bits, Xor, Byte, Index, Rest, Table;
    Split(o, x, r, b);
    StepByTable(o, r, b);
    XorAssoc(Bits(o, x, 8), Table(o, 0, Index(o, r, b)), Rest(o, r));
  }

  /** Four message bytes by four look-ups: the first half of an eight-byte round. */
  lemma Byte4ByTable(o: Order, c: bv32, b0: bv8, b1: bv8, b2: bv8, b3: bv8)
    ensures Byte4(o, c, b0, b1, b2, b3)
         == Xor4(Table(o, 3, Index(o, c, b0)), Table(o, 2, Index(o, Rests(o, c, 1), b1)),
                 Table(o, 1, Index(o, Rests(o, c, 2), b2)), Table(o, 0, Index(o, Rests(o, c, 3), b3)))
  {
    hide Bits, Xor, Byte, Index, Rest, Table;
    var r1, r2, r3 := Rests(o, c, 1), Rests(o, c, 2), Rests(o, c, 3);
    var i0, i1, i2, i3 := Index(o, c, b0), Index(o, r1, b1), Index(o, r2, b2), Index(o, r3, b3);
    StepByTable(o, c, b0);
    SplitByTable(o, Table(o, 0, i0), r1, b1);
    TableAdvance(o, 0, 1, i0);
    var x1 := Xor(Table(o, 1, i0), Table(o, 0, i1));
    SplitByTable(o, x1, r2, b2);
    AdvanceXor(o, 1, i0, 0, i1, 1);
    var x2 := Xor(Xor(Table(o, 2, i0), Table(o, 1, i1)), Table(o, 0, i2));
    SplitByTable(o, x2, r3, b3);
    BitsLinear(o, Xor(Table(o, 2, i0), Table(o, 1, i1)), Table(o, 0, i2), 8);
    AdvanceXor(o, 2, i0, 1, i1, 1);
    TableAdvance(o, 0, 1, i2);
    RestsGone(o, c);
    XorZero(Xor4(Table(o, 3, i0), Table(o, 2, i1), Table(o, 1, i2), Table(o, 0, i3)));
  }

  lemma LeadZero(o: Order)
    ensures Lead(o, 0) == 0 && Rest(o, 0) == 0
  {
  }

  lemma IndexZero(o: Order, b: bv8)
    ensures Index(o, 0, b) == b
  {
  }

  /** From an arbitrary register, four bytes split into the register advanced by four zero bytes
      and the four bytes consumed from zero: the second half of an eight-byte round. */
  lemma Byte4Split(o: Order, c: bv32, b0: bv8, b1: bv8, b2: bv8, b3: bv8)
    ensures Byte4(o, c, b0, b1, b2, b3) == Xor(Bits(o, c, 32), Byte4(o, 0, b0, b1, b2, b3))
  {
    hide Bits, Xor, Byte;
    XorZero(c);
    Split(o, c, 0, b0);
    var y1 := Byte(o, 0, b0);
    Split(o, Bits(o, c, 8), y1, b1);
    BitsAdd(o, c, 8, 8);
    var y2 := Byte(o, y1, b1);
    Split(o, Bits(o, c, 16), y2, b2);
    BitsAdd(o, c, 16, 8);
    Split(o, Bits(o, c, 24), Byte(o, y2, b2), b3);
    BitsAdd(o, c, 24, 8);
  }

  lemma Advance4(o: Order, i0: bv8, i1: bv8, i2: bv8, i3: bv8)
    ensures Bits(o, Xor4(Table(o, 3, i0), Table(o, 2, i1), Table(o, 1, i2), Table(o, 0, i3)), 32)
         == Xor4(Table(o, 7, i0), Table(o, 6, i1), Table(o, 5, i2), Table(o, 4, i3))
  {
    hide Bits, Xor, Table;
    var x := Xor(Table(o, 3, i0), Table(o, 2, i1));
    AdvanceXor(o, 3, i0, 2, i1, 4);
    BitsLinear(o, x, Table(o, 1, i2), 32);
    TableAdvance(o, 1, 4, i2);
    BitsLinear(o, Xor(x, Table(o, 1, i2)), Table(o, 0, i3), 32);
    TableAdvance(o, 0, 4, i3);
  }

  /** A whole eight-byte round by eight look-ups. */
  lemma Byte8ByTable(o: Order, c: bv32, b0: bv8, b1: bv8, b2: bv8, b3: bv8, b4: bv8, b5: bv8, b6: bv8, b7: bv8)
    ensures Byte4(o, Byte4(o, c, b0, b1, b2, b3), b4, b5, b6, b7)
         == Xor(Xor4(Table(o, 7, Index(o, c, b0)), Table(o, 6, Index(o, Rests(o, c, 1), b1)),
                     Table(o, 5, Index(o, Rests(o, c, 2), b2)), Table(o, 4, Index(o, Rests(o, c, 3), b3))),
                Xor4(Table(o, 3, b4), Table(o, 2, b5), Table(o, 1, b6), Table(o, 0, b7)))
  {
    hide Bits, Xor, Byte4, Table, Index, Rest, Xor4;
    Byte4ByTable(o, c, b0, b1, b2, b3);
    Byte4Split(o, Byte4(o, c, b0, b1, b2, b3), b4, b5, b6, b7);
    Advance4(o, Index(o, c, b0), Index(o, Rests(o, c, 1), b1), Index(o, Rests(o, c, 2), b2), Index(o, Rests(o, c, 3), b3));
    Byte4ByTable(o, 0, b4, b5, b6, b7);
    LeadZero(o);
    IndexZero(o, b4);
    IndexZero(o, b5);
    IndexZero(o, b6);
    IndexZero(o, b7);
  }

  // ---------- The host's view ----------

  function Swab(x: bv32): bv32 {
    (x << 24) | ((x & 0xff00) << 8) | ((x >> 8) & 0xff00) | (x >> 24)
  }

  /** The C code's register and table entries: swapped exactly when host and checksum disagree. */
  function Conv(h: Host, o: Order, x: bv32): bv32 {
    if (h == Little) == (o == LE) then x else Swab(x)
  }

  /** Byte j of a word as it lies in memory. */
  function MemByte(h: Host, x: bv32, j: nat): bv8
    requires j < 4
  {
    match h
    case Little =>
      (match j case 0 => (x & 0xff) as bv8 case 1 => ((x >> 8) & 0xff) as bv8
               case 2 => ((x >> 16) & 0xff) as bv8 case _ => (x >> 24) as bv8)
    case Big =>
      (match j case 0 => (x >> 24) as bv8 case 1 => ((x >> 16) & 0xff) as bv8
               case 2 => ((x >> 8) & 0xff) as bv8 case _ => (x & 0xff) as bv8)
  }

  /** A word read from memory by the host. */
  function Load(h: Host, b0: bv8, b1: bv8, b2: bv8, b3: bv8): bv32 {
    match h
    case Little => (b0 as bv32) | ((b1 as bv32) << 8) | ((b2 as bv32) << 16) | ((b3 as bv32) << 24)
    case Big => ((b0 as bv32) << 24) | ((b1 as bv32) << 16) | ((b2 as bv32) << 8) | (b3 as bv32)
  }

  function Drop(h: Host, x: bv32): bv32 {
    match h case Little => x >> 8 case Big => x << 8
  }

  lemma LoadBytes(h: Host, b0: bv8, b1: bv8, b2: bv8, b3: bv8)
    ensures var q := Load(h, b0, b1, b2, b3);
      MemByte(h, q, 0) == b0 && MemByte(h, q, 1) == b1 && MemByte(h, q, 2) == b2 && MemByte(h, q, 3) == b3
  {
  }

  lemma MemByteXor(h: Host, x: bv32, y: bv32, j: nat)
    requires j < 4
    ensures MemByte(h, Xor(x, y), j) == MemByte(h, x, j) ^ MemByte(h, y, j)
  {
    match (h, j)
    case (Little, 0) => assert ((x ^ y) & 0xff) as bv8 == ((x & 0xff) as bv8) ^ ((y & 0xff) as bv8);
    case (Little, 1) => assert (((x ^ y) >> 8) & 0xff) as bv8 == (((x >> 8) & 0xff) as bv8) ^ (((y >> 8) & 0xff) as bv8);
    case (Little, 2) => assert (((x ^ y) >> 16) & 0xff) as bv8 == (((x >> 16) & 0xff) as bv8) ^ (((y >> 16) & 0xff) as bv8);
    case (Little, _) => assert ((x ^ y) >> 24) as bv8 == ((x >> 24) as bv8) ^ ((y >> 24) as bv8);
    case (Big, 0) => assert ((x ^ y) >> 24) as bv8 == ((x >> 24) as bv8) ^ ((y >> 24) as bv8);
    case (Big, 1) => assert (((x ^ y) >> 16) & 0xff) as bv8 == (((x >> 16) & 0xff) as bv8) ^ (((y >> 16) & 0xff) as bv8);
    case (Big, 2) => assert (((x ^ y) >> 8) & 0xff) as bv8 == (((x >> 8) & 0xff) as bv8) ^ (((y >> 8) & 0xff) as bv8);
    case (Big, _) => assert ((x ^ y) & 0xff) as bv8 == ((x & 0xff) as bv8) ^ ((y & 0xff) as bv8);
  }

  lemma ConvXor(h: Host, o: Order, x: bv32, y: bv32)
    ensures Conv(h, o, Xor(x, y)) == Xor(Conv(h, o, x), Conv(h, o, y))
  {
  }

  lemma ConvConv(h: Host, o: Order, x: bv32)
    ensures Conv(h, o, Conv(h, o, x)) == x
  {
  }

  lemma SwabBytes(x: bv32, j: nat)
    requires j < 4
    ensures MemByte(Little, Swab(x), j) == MemByte(Big, x, j)
    ensures MemByte(Big, Swab(x), j) == MemByte(Little, x, j)
  {
    match j case 0 => case 1 => case 2 => case _ =>
  }

  lemma RestsAre(c: bv32)
    ensures Rests(LE, c, 2) == c >> 16 && Rests(LE, c, 3) == c >> 24
    ensures Rests(BE, c, 2) == c << 16 && Rests(BE, c, 3) == c << 24
  {
    calc { Rests(LE, c, 2); (c >> 8) >> 8; c >> 16; }
    calc { Rests(LE, c, 3); ((c >> 8) >> 8) >> 8; c >> 24; }
    calc { Rests(BE, c, 2); (c << 8) << 8; c << 16; }
    calc { Rests(BE, c, 3); ((c << 8) << 8) << 8; c << 24; }
  }

  lemma LeadBytesLE(c: bv32, j: nat)
    requires j < 4
    ensures MemByte(Little, c, j) == Lead(LE, Rests(LE, c, j))
  {
    match j
    case 0 =>
    case 1 =>
    case 2 =>
      calc { Lead(LE, Rests(LE, c, 2)); { RestsAre(c); } Lead(LE, c >> 16); ((c >> 16) & 0xff) as bv8; }
    case _ =>
      calc { Lead(LE, Rests(LE, c, 3)); { RestsAre(c); } Lead(LE, c >> 24); ((c >> 24) & 0xff) as bv8; (c >> 24) as bv8; }
  }

  lemma LeadBytesBE(c: bv32, j: nat)
    requires j < 4
    ensures MemByte(Big, c, j) == Lead(BE, Rests(BE, c, j))
  {
    match j
    case 0 =>
    case 1 =>
      calc { Lead(BE, Rests(BE, c, 1)); ((c << 8) >> 24) as bv8; ((c >> 16) & 0xff) as bv8; }
    case 2 =>
      calc { Lead(BE, Rests(BE, c, 2)); { RestsAre(c); } Lead(BE, c << 16); ((c << 16) >> 24) as bv8; ((c >> 8) & 0xff) as bv8; }
    case _ =>
      calc { Lead(BE, Rests(BE, c, 3)); { RestsAre(c); } Lead(BE, c << 24); ((c << 24) >> 24) as bv8; (c & 0xff) as bv8; }
  }

  /** In memory order, the bytes of the host's register are the ones about to leave. */
  lemma ConvMem(h: Host, o: Order, c: bv32, j: nat)
    requires j < 4
    ensures MemByte(h, Conv(h, o, c), j) == Lead(o, Rests(o, c, j))
  {
    hide MemByte, Lead, Rests, Swab;
    SwabBytes(c, j);
    LeadBytesLE(c, j);
    LeadBytesBE(c, j);
  }

  lemma SwabRest(c: bv32)
    ensures Swab(c) >> 8 == Swab(c << 8)
    ensures Swab(c) << 8 == Swab(c >> 8)
  {
  }

  lemma ConvDrop(h: Host, o: Order, c: bv32)
    ensures Drop(h, Conv(h, o, c)) == Conv(h, o, Rest(o, c))
  {
    hide Swab;
    match (h, o)
    case (Little, LE) =>
    case (Big, BE) =>
    case (Little, BE) =>
      calc { Drop(Little, Conv(Little, BE, c)); Swab(c) >> 8; { SwabRest(c); } Swab(c << 8); Swab(Rest(BE, c)); }
    case (Big, LE) =>
      calc { Drop(Big, Conv(Big, LE, c)); Swab(c) << 8; { SwabRest(c); } Swab(c >> 8); Swab(Rest(LE, c)); }
  }

  /** The table the C code indexes: the generator swaps entries at compile time (tole, tobe). */
  function HostTable(h: Host, o: Order, k: nat, i: bv8): bv32 {
    Conv(h, o, Table(o, k, i))
  }

  function HostStep(h: Host, o: Order, x: bv32, b: bv8): bv32 {
    Xor(HostTable(h, o, 0, b ^ MemByte(h, x, 0)), Drop(h, x))
  }

  lemma HostStepIsByte(h: Host, o: Order, c: bv32, b: bv8)
    ensures HostStep(h, o, Conv(h, o, c), b) == Conv(h, o, Byte(o, c, b))
  {
    hide Conv, Xor, MemByte, Drop, Table, Byte, Rest, Lead;
    ConvMem(h, o, c, 0);
    ConvDrop(h, o, c);
    StepByTable(o, c, b);
    ConvXor(h, o, Table(o, 0, Index(o, c, b)), Rest(o, c));
  }

  lemma ConvXor4(h: Host, o: Order, a: bv32, b: bv32, c: bv32, d: bv32)
    ensures Conv(h, o, Xor4(a, b, c, d)) == Xor4(Conv(h, o, a), Conv(h, o, b), Conv(h, o, c), Conv(h, o, d))
  {
    hide Conv, Xor;
    ConvXor(h, o, a, b);
    ConvXor(h, o, Xor(a, b), c);
    ConvXor(h, o, Xor(Xor(a, b), c), d);
  }

  /** The four look-ups on word q, starting from table k. */
  function HostLookups(h: Host, o: Order, k: nat, q: bv32): bv32
    requires k >= 3
  {
    Xor4(HostTable(h, o, k, MemByte(h, q, 0)), HostTable(h, o, k - 1, MemByte(h, q, 1)),
         HostTable(h, o, k - 2, MemByte(h, q, 2)), HostTable(h, o, k - 3, MemByte(h, q, 3)))
  }

  lemma LoadIndex(h: Host, o: Order, c: bv32, q: bv32, j: nat)
    requires j < 4
    ensures MemByte(h, Xor(q, Conv(h, o, c)), j) == Index(o, Rests(o, c, j), MemByte(h, q, j))
  {
    hide Conv, Xor, MemByte, Lead, Rests;
    MemByteXor(h, q, Conv(h, o, c), j);
    ConvMem(h, o, c, j);
  }

  lemma RestsZero(o: Order, c: bv32)
    ensures Rests(o, c, 0) == c
  {
  }

  lemma HostRoundIsByte8(h: Host, o: Order, c: bv32, b0: bv8, b1: bv8, b2: bv8, b3: bv8, b4: bv8, b5: bv8, b6: bv8, b7: bv8)
    ensures Xor(HostLookups(h, o, 7, Xor(Load(h, b0, b1, b2, b3), Conv(h, o, c))),
                HostLookups(h, o, 3, Load(h, b4, b5, b6, b7)))
         == Conv(h, o, Byte4(o, Byte4(o, c, b0, b1, b2, b3), b4, b5, b6, b7))
  {
    hide Load, Conv, Xor, Xor4, MemByte, Index, Rests, Table, Byte4;
    var q := Load(h, b0, b1, b2, b3);
    LoadBytes(h, b0, b1, b2, b3);
    LoadIndex(h, o, c, q, 0);
    LoadIndex(h, o, c, q, 1);
    LoadIndex(h, o, c, q, 2);
    LoadIndex(h, o, c, q, 3);
    RestsZero(o, c);
    LoadBytes(h, b4, b5, b6, b7);
    var i0, i1 := Index(o, c, b0), Index(o, Rests(o, c, 1), b1);
    var i2, i3 := Index(o, Rests(o, c, 2), b2), Index(o, Rests(o, c, 3), b3);
    Byte8ByTable(o, c, b0, b1, b2, b3, b4, b5, b6, b7);
    ConvXor4(h, o, Table(o, 7, i0), Table(o, 6, i1), Table(o, 5, i2), Table(o, 4, i3));
    ConvXor4(h, o, Table(o, 3, b4), Table(o, 2, b5), Table(o, 1, b6), Table(o, 0, b7));
    ConvXor(h, o, Xor4(Table(o, 7, i0), Table(o, 6, i1), Table(o, 5, i2), Table(o, 4, i3)),
                  Xor4(Table(o, 3, b4), Table(o, 2, b5), Table(o, 1, b6), Table(o, 0, b7)));
  }

  lemma CrcNext(o: Order, c: bv32, p: seq<bv8>, k: nat)
    requires k < |p|
    ensures Crc(o, c, p[..k + 1]) == Byte(o, Crc(o, c, p[..k]), p[k])
  {
    assert p[..k + 1][..k] == p[..k];
  }

  lemma CrcNext8(o: Order, c: bv32, p: seq<bv8>, k: nat)
    requires k + 8 <= |p|
    ensures Crc(o, c, p[..k + 8])
         == Byte4(o, Byte4(o, Crc(o, c, p[..k]), p[k], p[k + 1], p[k + 2], p[k + 3]), p[k + 4], p[k + 5], p[k + 6], p[k + 7])
  {
    hide Byte4, Crc;
    CrcNext4(o, c, p, k);
    CrcNext4(o, c, p, k + 4);
  }

  /** crc32c_le_body and crc32c_be_body, for a buffer that starts at address `addr`. */
  method CrcBody(h: Host, o: Order, addr: nat, seed: bv32, buf: seq<bv8>) returns (crc: bv32)
    ensures crc == Crc(o, seed, buf)
  {
    hide Conv, Xor, Load, HostStep, HostLookups, Byte4, Crc, Byte;
    crc := Conv(h, o, seed);
    var aligned := (addr + 7) / 8 * 8;
    var initBytes := if aligned - addr < |buf| then aligned - addr else |buf|;
    var words := (|buf| - initBytes) / 8;
    var endBytes := (|buf| - initBytes) % 8;
    var p := 0;
    assert Crc(o, seed, buf[..0]) == seed by { CrcEmpty(o, seed, buf[..0]); }
    for i := 0 to initBytes
      invariant p == i && crc == Conv(h, o, Crc(o, seed, buf[..p]))
    {
      HostStepIsByte(h, o, Crc(o, seed, buf[..p]), buf[p]);
      CrcNext(o, seed, buf, p);
      crc := HostStep(h, o, crc, buf[p]);
      p := p + 1;
    }
    for i := 0 to words
      invariant p == initBytes + 8 * i && crc == Conv(h, o, Crc(o, seed, buf[..p]))
    {
      HostRoundIsByte8(h, o, Crc(o, seed, buf[..p]), buf[p], buf[p + 1], buf[p + 2], buf[p + 3],
                       buf[p + 4], buf[p + 5], buf[p + 6], buf[p + 7]);
      CrcNext8(o, seed, buf, p);
      var q := Xor(Load(h, buf[p], buf[p + 1], buf[p + 2], buf[p + 3]), crc);
      crc := HostLookups(h, o, 7, q);
      q := Load(h, buf[p + 4], buf[p + 5], buf[p + 6], buf[p + 7]);
      crc := Xor(crc, HostLookups(h, o, 3, q));
      p := p + 8;
    }
    for i := 0 to endBytes
      invariant p == initBytes + 8 * words + i && crc == Conv(h, o, Crc(o, seed, buf[..p]))
    {
      HostStepIsByte(h, o, Crc(o, seed, buf[..p]), buf[p]);
      CrcNext(o, seed, buf, p);
      crc := HostStep(h, o, crc, buf[p]);
      p := p + 1;
    }
    assert buf[..p] == buf;
    ConvConv(h, o, Crc(o, seed, buf));
    crc := Conv(h, o, crc);
  }

  lemma CrcEmpty(o: Order, c: bv32, s: seq<bv8>)
    requires s == []
    ensures Crc(o, c, s) == c
  {
  }

  // ---------- What the checksum is for ----------

  /** Incremental computation: the checksum of a concatenation continues from the first part's. */
  lemma {:induction false} CrcAppend(o: Order, c: bv32, a: seq<bv8>, b: seq<bv8>)
    ensures Crc(o, c, a + b) == Crc(o, Crc(o, c, a), b)
  {
    hide Byte;
    if b == [] {
      assert a + b == a;
    } else {
      var n := |b| - 1;
      assert (a + b)[..|a + b| - 1] == a + b[..n];
      CrcAppend(o, c, a, b[..n]);
    }
  }

  lemma BitInjective(o: Order, x: bv32)
    requires Bit(o, x) == 0
    ensures x == 0
  {
  }

  lemma {:induction false} BitsInjective(o: Order, x: bv32, n: nat)
    requires Bits(o, x, n) == 0
    ensures x == 0
  {
    hide Bit;
    if n > 0 {
      BitInjective(o, Bits(o, x, n - 1));
      BitsInjective(o, x, n - 1);
    }
  }

  lemma XorCancel(a: bv32, b: bv32)
    requires Xor(a, b) == 0
    ensures a == b
  {
  }

  lemma ByteInjective(o: Order, c: bv32, d: bv32, b: bv8)
    requires Byte(o, c, b) == Byte(o, d, b)
    ensures c == d
  {
    hide Bits, Xor, Inject;
    var i := Inject(o, b);
    BitsLinear(o, Xor(c, i), Xor(d, i), 8);
    XorZero(Byte(o, c, b));
    Interchange(c, i, d, i);
    XorZero(i);
    XorZero(Xor(c, d));
    BitsInjective(o, Xor(c, d), 8);
    XorCancel(c, d);
  }

  /** Over one message, different seeds (or different checksums of a prefix) never collide. */
  lemma {:induction false} CrcInjective(o: Order, c: bv32, d: bv32, s: seq<bv8>)
    requires Crc(o, c, s) == Crc(o, d, s)
    ensures c == d
  {
    hide Byte;
    if s != [] {
      var n := |s| - 1;
      ByteInjective(o, Crc(o, c, s[..n]), Crc(o, d, s[..n]), s[n]);
      CrcInjective(o, c, d, s[..n]);
    }
  }

  /** Four message bytes as one register value, first byte leading. */
  function Pack(o: Order, b0: bv8, b1: bv8, b2: bv8, b3: bv8): bv32 {
    Load(if o == LE then Little else Big, b0, b1, b2, b3)
  }

  lemma PackIndex(o: Order, b0: bv8, b1: bv8, b2: bv8, b3: bv8)
    ensures var c := Pack(o, b0, b1, b2, b3);
      && Index(o, c, 0) == b0 && Index(o, Rests(o, c, 1), 0) == b1
      && Index(o, Rests(o, c, 2), 0) == b2 && Index(o, Rests(o, c, 3), 0) == b3
  {
    hide Load, MemByte, Rests, Lead;
    var c := Pack(o, b0, b1, b2, b3);
    LoadBytes(if o == LE then Little else Big, b0, b1, b2, b3);
    RestsZero(o, c);
    LeadBytesLE(c, 0); LeadBytesLE(c, 1); LeadBytesLE(c, 2); LeadBytesLE(c, 3);
    LeadBytesBE(c, 0); LeadBytesBE(c, 1); LeadBytesBE(c, 2); LeadBytesBE(c, 3);
  }

  lemma Byte4Zero(o: Order)
    ensures Byte4(o, 0, 0, 0, 0, 0) == 0
  {
    assert Byte(o, 0, 0) == 0;
  }

  lemma Byte4Pack(o: Order, b0: bv8, b1: bv8, b2: bv8, b3: bv8)
    ensures Byte4(o, 0, b0, b1, b2, b3) == Bits(o, Pack(o, b0, b1, b2, b3), 32)
  {
    hide Byte4, Bits, Pack, Rests, Table, Xor, Xor4, Index;
    var c := Pack(o, b0, b1, b2, b3);
    Byte4ByTable(o, c, 0, 0, 0, 0);
    PackIndex(o, b0, b1, b2, b3);
    Byte4ByTable(o, 0, b0, b1, b2, b3);
    LeadZero(o);
    IndexZero(o, b0);
    IndexZero(o, b1);
    IndexZero(o, b2);
    IndexZero(o, b3);
    RestsOfZero(o);
    Byte4Split(o, c, 0, 0, 0, 0);
    Byte4Zero(o);
    XorZero(Bits(o, c, 32));
  }

  lemma RestsOfZero(o: Order)
    ensures Rests(o, 0, 1) == 0 && Rests(o, 0, 2) == 0 && Rests(o, 0, 3) == 0
  {
  }

  /** Burst errors of up to 32 bits are detected: two messages of one length that agree outside
      a window of four bytes and have the same checksum are the same message. */
  lemma BurstDetected(o: Order, c: bv32, a: seq<bv8>, b: seq<bv8>, k: nat)
    requires |a| == |b| && k + 4 <= |a|
    requires a[..k] == b[..k] && a[k + 4..] == b[k + 4..]
    requires Crc(o, c, a) == Crc(o, c, b)
    ensures a == b
  {
    hide Byte4, Bits, Crc, Pack, Xor;
    var s := Crc(o, c, a[..k]);
    assert a == a[..k + 4] + a[k + 4..] && b == b[..k + 4] + b[k + 4..];
    CrcAppend(o, c, a[..k + 4], a[k + 4..]);
    CrcAppend(o, c, b[..k + 4], b[k + 4..]);
    CrcInjective(o, Crc(o, c, a[..k + 4]), Crc(o, c, b[..k + 4]), a[k + 4..]);
    CrcNext4(o, c, a, k);
    CrcNext4(o, c, b, k);
    var pa, pb := Pack(o, a[k], a[k + 1], a[k + 2], a[k + 3]), Pack(o, b[k], b[k + 1], b[k + 2], b[k + 3]);
    Byte4Split(o, s, a[k], a[k + 1], a[k + 2], a[k + 3]);
    Byte4Split(o, s, b[k], b[k + 1], b[k + 2], b[k + 3]);
    Byte4Pack(o, a[k], a[k + 1], a[k + 2], a[k + 3]);
    Byte4Pack(o, b[k], b[k + 1], b[k + 2], b[k + 3]);
    XorLeftCancel(Bits(o, s, 32), Bits(o, pa, 32), Bits(o, pb, 32));
    BitsLinear(o, pa, pb, 32);
    XorZero(Bits(o, pa, 32));
    BitsInjective(o, Xor(pa, pb), 32);
    XorCancel(pa, pb);
    PackIndex(o, a[k], a[k + 1], a[k + 2], a[k + 3]);
    PackIndex(o, b[k], b[k + 1], b[k + 2], b[k + 3]);
    assert a[..k + 4] == a[..k] + [a[k], a[k + 1], a[k + 2], a[k + 3]];
    assert b[..k + 4] == b[..k] + [b[k], b[k + 1], b[k + 2], b[k + 3]];
  }

  lemma XorLeftCancel(x: bv32, a: bv32, b: bv32)
    requires Xor(x, a) == Xor(x, b)
    ensures a == b
  {
  }

  lemma CrcNext4(o: Order, c: bv32, p: seq<bv8>, k: nat)
    requires k + 4 <= |p|
    ensures Crc(o, c, p[..k + 4]) == Byte4(o, Crc(o, c, p[..k]), p[k], p[k + 1], p[k + 2], p[k + 3])
  {
    hide Byte, Crc;
    CrcNext(o, c, p, k);
    CrcNext(o, c, p, k + 1);
    CrcNext(o, c, p, k + 2);
    CrcNext(o, c, p, k + 3);
  }

  // ---------- The two bit orders ----------

  /** The bits of a register in the other order. */
  function Mirror(x: bv32): bv32 {
    var a := ((x >> 1) & 0x5555_5555) | ((x & 0x5555_5555) << 1);
    var b := ((a >> 2) & 0x3333_3333) | ((a & 0x3333_3333) << 2);
    var c := ((b >> 4) & 0x0F0F_0F0F) | ((b & 0x0F0F_0F0F) << 4);
    Swab(c)
  }

  function MirrorByte(x: bv8): bv8 {
    var a := ((x >> 1) & 0x55) | ((x & 0x55) << 1);
    var b := ((a >> 2) & 0x33) | ((a & 0x33) << 2);
    (b >> 4) | (b << 4)
  }

  function MirrorAll(s: seq<bv8>): (r: seq<bv8>)
    ensures |r| == |s|
  {
    seq(|s|, i requires 0 <= i < |s| => MirrorByte(s[i]))
  }

  /** A byte at its place in the register. */
  function Lane(b: bv8, k: nat): bv32
    requires k < 4
  {
    if k == 0 then b as bv32 else if k == 1 then (b as bv32) << 8 else if k == 2 then (b as bv32) << 16 else (b as bv32) << 24
  }

  lemma Lanes(c: bv32) returns (b0: bv8, b1: bv8, b2: bv8, b3: bv8)
    ensures c == Xor4(Lane(b0, 0), Lane(b1, 1), Lane(b2, 2), Lane(b3, 3))
  {
    hide Xor4, Lane;
    b0, b1, b2, b3 := (c & 0xFF) as bv8, ((c >> 8) & 0xFF) as bv8, ((c >> 16) & 0xFF) as bv8, ((c >> 24) & 0xFF) as bv8;
    FourLanes(c, b0, b1, b2, b3);
  }

  lemma FourLanes(c: bv32, b0: bv8, b1: bv8, b2: bv8, b3: bv8)
    requires b0 == (c & 0xFF) as bv8 && b1 == ((c >> 8) & 0xFF) as bv8 && b2 == ((c >> 16) & 0xFF) as bv8 && b3 == ((c >> 24) & 0xFF) as bv8
    ensures c == Xor4(Lane(b0, 0), Lane(b1, 1), Lane(b2, 2), Lane(b3, 3))
  {
    hide Lane;
    FourBytes(c);
    OneLane(b0, 0);
    OneLane(b1, 1);
    OneLane(b2, 2);
    OneLane(b3, 3);
  }

  lemma OneLane(b: bv8, k: nat)
    requires k < 4
    ensures Lane(b, k) == if k == 0 then b as bv32 else if k == 1 then (b as bv32) << 8 else if k == 2 then (b as bv32) << 16 else (b as bv32) << 24
  {
  }

  lemma FourBytes(c: bv32)
    ensures c == Xor4(((c & 0xFF) as bv8) as bv32, (((c >> 8) & 0xFF) as bv8 as bv32) << 8,
                      (((c >> 16) & 0xFF) as bv8 as bv32) << 16, (((c >> 24) & 0xFF) as bv8 as bv32) << 24)
  {
  }

  /** Shifting one way is shifting the mirrored register the other way, with the same bit shifted out. */
  predicate Mirrors(c: bv32) { Mirror(Shift(LE, c)) == Shift(BE, Mirror(c)) && Low(BE, Mirror(c)) == Low(LE, c) }

  lemma MirrorLane(b: bv8, k: nat)
    requires k < 4
    ensures Mirrors(Lane(b, k))
  {
    if k == 0 {
    } else if k == 1 {
    } else if k == 2 {
    } else {
    }
  }

  lemma MirrorPair(a: bv32, b: bv32)
    requires Mirrors(a) && Mirrors(b)
    ensures Mirrors(Xor(a, b))
  {
    hide Mirror, Xor, Shift, Low;
    ShiftXor(LE, a, b);
    MirrorXor(a, b);
    MirrorXor(Shift(LE, a), Shift(LE, b));
    ShiftXor(BE, Mirror(a), Mirror(b));
    LowXor(LE, a, b);
    LowXor(BE, Mirror(a), Mirror(b));
  }

  lemma MirrorShift(c: bv32)
    ensures Mirrors(c)
  {
    hide Mirrors, Xor, Lane;
    var b0, b1, b2, b3 := Lanes(c);
    MirrorLane(b0, 0);
    MirrorLane(b1, 1);
    MirrorLane(b2, 2);
    MirrorLane(b3, 3);
    MirrorPair(Lane(b0, 0), Lane(b1, 1));
    MirrorPair(Xor(Lane(b0, 0), Lane(b1, 1)), Lane(b2, 2));
    MirrorPair(Xor(Xor(Lane(b0, 0), Lane(b1, 1)), Lane(b2, 2)), Lane(b3, 3));
  }

  lemma MirrorPoly()
    ensures Mirror(CRCPOLY_LE) == CRCPOLY_BE && Mirror(0) == 0
  {
  }

  lemma MirrorInject(b: bv8)
    ensures Mirror(Inject(LE, b)) == Inject(BE, MirrorByte(b))
  {
  }

  lemma MirrorXor(a: bv32, b: bv32)
    ensures Mirror(Xor(a, b)) == Xor(Mirror(a), Mirror(b))
  {
  }

  lemma MirrorBit(c: bv32)
    ensures Mirror(Bit(LE, c)) == Bit(BE, Mirror(c))
  {
    hide Mirror, Xor, Shift, Low;
    MirrorShift(c);
    MirrorPoly();
    MirrorXor(Shift(LE, c), Poly(LE, Low(LE, c)));
  }

  lemma {:induction false} MirrorBits(c: bv32, n: nat)
    ensures Mirror(Bits(LE, c, n)) == Bits(BE, Mirror(c), n)
  {
    hide Mirror, Bit;
    if n > 0 {
      MirrorBits(c, n - 1);
      MirrorBit(Bits(LE, c, n - 1));
    }
  }

  /** The checksum in one bit order is the checksum of the mirrored bytes in the other, mirrored. */
  lemma {:induction false} MirrorCrc(c: bv32, s: seq<bv8>)
    ensures Mirror(Crc(LE, c, s)) == Crc(BE, Mirror(c), MirrorAll(s))
  {
    hide Mirror, MirrorByte, Bits, Xor, Inject;
    if s == [] {
      assert MirrorAll(s) == [];
    } else {
      var n := |s| - 1;
      MirrorCrc(c, s[..n]);
      assert MirrorAll(s)[..n] == MirrorAll(s[..n]);
      var d := Crc(LE, c, s[..n]);
      MirrorInject(s[n]);
      MirrorXor(d, Inject(LE, s[n]));
      MirrorBits(Xor(d, Inject(LE, s[n])), 8);
    }
  }

  lemma OneMore(o: Order, c: bv32, n: nat, d: bv32, e: bv32)
    requires Bits(o, c, n) == d && Bit(o, d) == e
    ensures Bits(o, c, n + 1) == e
  {
  }

  /** The first entries of the generated tables in crc32c_table.h. */
  lemma TablesKnown()
    ensures Table(LE, 0, 1) == 0xF26B8303 && Table(BE, 0, 1) == 0x1EDC6F41
  {
    hide Bits;
    NoBits(LE, 0x1);
    NoBits(BE, 0x0100_0000);
    OneMore(LE, 0x1, 0, 0x1, 0x82F6_3B78);
    OneMore(LE, 0x1, 1, 0x82F6_3B78, 0x417B_1DBC);
    OneMore(LE, 0x1, 2, 0x417B_1DBC, 0x20BD_8EDE);
    OneMore(LE, 0x1, 3, 0x20BD_8EDE, 0x105E_C76F);
    OneMore(LE, 0x1, 4, 0x105E_C76F, 0x8AD9_58CF);
    OneMore(LE, 0x1, 5, 0x8AD9_58CF, 0xC79A_971F);
    OneMore(LE, 0x1, 6, 0xC79A_971F, 0xE13B_70F7);
    OneMore(LE, 0x1, 7, 0xE13B_70F7, 0xF26B_8303);
    OneMore(BE, 0x0100_0000, 0, 0x0100_0000, 0x0200_0000);
    OneMore(BE, 0x0100_0000, 1, 0x0200_0000, 0x0400_0000);
    OneMore(BE, 0x0100_0000, 2, 0x0400_0000, 0x0800_0000);
    OneMore(BE, 0x0100_0000, 3, 0x0800_0000, 0x1000_0000);
    OneMore(BE, 0x0100_0000, 4, 0x1000_0000, 0x2000_0000);
    OneMore(BE, 0x0100_0000, 5, 0x2000_0000, 0x4000_0000);
    OneMore(BE, 0x0100_0000, 6, 0x4000_0000, 0x8000_0000);
    OneMore(BE, 0x0100_0000, 7, 0x8000_0000, 0x1EDC_6F41);
  }

  lemma NoBits(o: Order, c: bv32)
    ensures Bits(o, c, 0) == c
  {
  }
}
