/**
 Directory blocks: variable-length records that tile a block exactly, the scan over them
 (source/dir_iterate.c), adding a name (source/link.c) and finding one (source/lookup.c).
 */
module DirBlock {
  import opened Bytes

  /** A record: its header fields, and the bytes after the header. */
  datatype Rec = Rec(ino: nat, nameLen: nat, body: seq<Byte>)

  function Len(r: Rec): nat { 8 + |r.body| }

  /** What ext2fs_process_dir_block accepts, and what fits the header's fields. */
  predicate Proper(r: Rec) {
    r.ino < U32 && r.nameLen < U16 && Len(r) < U16 && Len(r) % 4 == 0 && r.nameLen % 256 + 8 <= Len(r)
  }

  function Header(ino: nat, len: nat, nameLen: nat): (h: seq<Byte>)
    requires ino < U32 && len < U16 && nameLen < U16
    ensures |h| == 8
  {
    Bytes32(ino) + Bytes16(len) + Bytes16(nameLen)
  }

  function Encode(r: Rec): (b: seq<Byte>)
    requires Proper(r)
    ensures |b| == Len(r)
  {
    Header(r.ino, Len(r), r.nameLen) + r.body
  }

  ghost predicate AllProper(recs: seq<Rec>) { forall i | 0 <= i < |recs| :: Proper(recs[i]) }

  function Flat(recs: seq<Rec>): (b: seq<Byte>)
    requires AllProper(recs)
  {
    if recs == [] then [] else Encode(recs[0]) + Flat(recs[1..])
  }

  lemma {:induction false} FlatConcat(a: seq<Rec>, b: seq<Rec>)
    requires AllProper(a) && AllProper(b)
    ensures AllProper(a + b) && Flat(a + b) == Flat(a) + Flat(b)
  {
    hide Encode, Proper;
    if a == [] {
      assert a + b == b;
    } else {
      FlatConcat(a[1..], b);
      assert (a + b)[1..] == a[1..] + b;
    }
  }

  lemma FlatOne(r: Rec)
    requires Proper(r)
    ensures Flat([r]) == Encode(r)
  {
    assert [r][1..] == [];
  }

  // ---------- Reading a record ----------

  /** The fields of the record that starts at `at`. */
  lemma Fields(buf: seq<Byte>, at: nat, r: Rec)
    requires Proper(r) && at + Len(r) <= |buf| && buf[at..at + Len(r)] == Encode(r)
    ensures Get32(buf, at) == r.ino && Get16(buf, at + 4) == Len(r) && Get16(buf, at + 6) == r.nameLen
    ensures buf[at + 8..at + Len(r)] == r.body
  {
    var e := Encode(r);
    HeaderFields(r);
    SameFields(buf, at, e);
    forall i | 0 <= i < |r.body| ensures buf[at + 8..at + Len(r)][i] == r.body[i] {
      assert e[8 + i] == r.body[i];
      assert buf[at..at + Len(r)][8 + i] == e[8 + i];
    }
  }

  lemma SameFields(buf: seq<Byte>, at: nat, e: seq<Byte>)
    requires at + |e| <= |buf| && |e| >= 8 && buf[at..at + |e|] == e
    ensures Get32(buf, at) == Get32(e, 0) && Get16(buf, at + 4) == Get16(e, 4) && Get16(buf, at + 6) == Get16(e, 6)
  {
    forall i | 0 <= i < 8 ensures buf[at + i] == e[i] {
      assert buf[at..at + |e|][i] == e[i];
    }
  }

  lemma HeaderFields(r: Rec)
    requires Proper(r)
    ensures var e := Encode(r); Get32(e, 0) == r.ino && Get16(e, 4) == Len(r) && Get16(e, 6) == r.nameLen
  {
    Split32(r.ino);
    Get16Back(Len(r));
    Get16Back(r.nameLen);
    var e := Encode(r);
    assert e[0..4] == Bytes32(r.ino) && e[4..6] == Bytes16(Len(r)) && e[6..8] == Bytes16(r.nameLen);
    assert Get32(e, 0) == Get32(Bytes32(r.ino), 0);
  }

  lemma Get16Back(v: nat)
    requires v < U16
    ensures v % 256 + 256 * (v / 256) == v
  {
  }

  // ---------- Every block has at most one tiling ----------

  datatype Option<T> = None | Some(value: T)

  /** The tiling of a block by proper records, as the scan reads it. */
  function Parse(buf: seq<Byte>): (r: Option<seq<Rec>>)
    ensures r.Some? ==> AllProper(r.value)
  {
    if buf == [] then Some([])
    else if |buf| < 8 then None
    else
      var len := Get16(buf, 4);
      if len > |buf| || len < 8 || len % 4 != 0 || Get16(buf, 6) % 256 + 8 > len then None
      else
        match Parse(buf[len..])
        case None => None
        case Some(rest) => Some([Rec(Get32(buf, 0), Get16(buf, 6), buf[8..len])] + rest)
  }

  lemma ParseStep(r: Rec, rest: seq<Byte>)
    requires Proper(r)
    ensures Parse(Encode(r) + rest) == match Parse(rest) case None => None case Some(recs) => Some([r] + recs)
  {
    hide Get16, Get32, Encode;
    var buf := Encode(r) + rest;
    assert buf[0..Len(r)] == Encode(r) && buf[Len(r)..] == rest;
    Fields(buf, 0, r);
  }

  /** The scan reads back exactly the records that were laid out, and nothing else has a tiling. */
  lemma {:induction false} ParseFlat(recs: seq<Rec>)
    requires AllProper(recs)
    ensures Parse(Flat(recs)) == Some(recs)
  {
    hide Encode, Proper;
    if recs != [] {
      ParseStep(recs[0], Flat(recs[1..]));
      ParseFlat(recs[1..]);
      assert [recs[0]] + recs[1..] == recs;
    }
  }

  lemma {:induction false} FlatParse(buf: seq<Byte>)
    requires Parse(buf).Some?
    ensures Flat(Parse(buf).value) == buf
  {
    if buf != [] {
      var len := Get16(buf, 4);
      var r := Rec(Get32(buf, 0), Get16(buf, 6), buf[8..len]);
      FlatParse(buf[len..]);
      HeaderOf(buf, len);
      var recs := Parse(buf).value;
      assert recs[0] == r && recs[1..] == Parse(buf[len..]).value;
      assert Encode(r) == buf[..len];
    }
  }

  /** What a scanned record is: a multiple of 4 bytes long, its name behind 8 bytes of header. */
  lemma ParsedProper(buf: seq<Byte>)
    ensures Parse(buf).Some? ==> forall r | r in Parse(buf).value ::
      r.ino < U32 && r.nameLen < U16 && Len(r) < U16 && Len(r) % 4 == 0 && r.nameLen % 256 + 8 <= Len(r) && Len(r) == 8 + |r.body|
  {
  }

  lemma HeaderOf(buf: seq<Byte>, len: nat)
    requires 8 <= len <= |buf| && len == Get16(buf, 4)
    ensures Header(Get32(buf, 0), len, Get16(buf, 6)) + buf[8..len] == buf[..len]
  {
    Bytes32Back(buf);
    Bytes16Back(buf, 4);
    Bytes16Back(buf, 6);
    assert buf[..len] == buf[0..4] + buf[4..6] + buf[6..8] + buf[8..len];
  }

  lemma Bytes16Back(buf: seq<Byte>, at: nat)
    requires at + 2 <= |buf|
    ensures Bytes16(Get16(buf, at)) == buf[at..at + 2]
  {
  }

  lemma Bytes32Back(buf: seq<Byte>)
    requires 4 <= |buf|
    ensures Bytes32(Get32(buf, 0)) == buf[0..4]
  {
    Digits(buf[0], buf[1], buf[2], buf[3]);
  }

  lemma Digits(a: int, b: int, c: int, d: int)
    requires 0 <= a < 256 && 0 <= b < 256 && 0 <= c < 256 && 0 <= d < 256
    ensures var v := a + 256 * b + 0x1_0000 * c + 0x100_0000 * d;
      v % 256 == a && v / 256 % 256 == b && v / 0x1_0000 % 256 == c && v / 0x100_0000 == d
  {
    var v := a + 256 * b + 0x1_0000 * c + 0x100_0000 * d;
    var w, x := b + 256 * c + 0x1_0000 * d, c + 256 * d;
    assert v == 256 * w + a;
    assert v / 256 == w && w == 256 * x + b;
    assert v / 0x1_0000 == x;
  }

  // ---------- The names that a block holds ----------

  /** A name in use; the kind is the upper byte of the name field, which holds the file type. */
  datatype Entry = Entry(name: seq<Byte>, ino: nat, kind: nat)

  function NameOf(r: Rec): seq<Byte>
    requires Proper(r)
  {
    r.body[..r.nameLen % 256]
  }

  function Live1(r: Rec): multiset<Entry>
    requires Proper(r)
  {
    if r.ino == 0 then multiset{} else multiset{Entry(NameOf(r), r.ino, r.nameLen / 256)}
  }

  /** The entries in use, each as often as it occurs. */
  function Live(recs: seq<Rec>): multiset<Entry>
    requires AllProper(recs)
  {
    if recs == [] then multiset{} else Live1(recs[0]) + Live(recs[1..])
  }

  lemma {:induction false} LiveConcat(a: seq<Rec>, b: seq<Rec>)
    requires AllProper(a) && AllProper(b)
    ensures AllProper(a + b) && Live(a + b) == Live(a) + Live(b)
  {
    hide Live1, Proper;
    if a == [] {
      assert a + b == b;
    } else {
      LiveConcat(a[1..], b);
      assert (a + b)[1..] == a[1..] + b;
    }
  }

  // ---------- Adding a name, on records ----------

  /** EXT2_DIR_REC_LEN: room for a header and a name, in multiples of 4. */
  function RecLen(n: nat): (len: nat)
    ensures n + 8 <= len <= n + 11 && len % 4 == 0
  {
    (n + 8 + 3) / 4 * 4
  }

  datatype New = New(name: seq<Byte>, ino: nat, fileType: nat, hasType: bool)

  function OrBit(x: nat, y: nat): (b: nat)
    ensures b < 2
  {
    if x % 2 == 1 || y % 2 == 1 then 1 else 0
  }

  /** Bitwise or of the low three bits. */
  function Or3(x: nat, y: nat): (r: nat)
    ensures r < 8
  {
    OrBit(x, y) + 2 * OrBit(x / 2, y / 2) + 4 * OrBit(x / 4, y / 4)
  }

  /** The 16-bit field: the length of the name, and in its upper half the file type. */
  function NameField(entry: New): (v: nat)
    ensures v < U16 && v % 256 == |entry.name| % 256
  {
    LowByte(|entry.name|);
    var n := |entry.name| % U16;
    if !entry.hasType then n else
      var hi := n / 256 / 8 * 8 + Or3(n / 256, entry.fileType);
      n % 256 + 256 * hi
  }

  lemma LowByte(n: nat)
    ensures n % U16 % 256 == n % 256
  {
  }

  /** For a name of at most 255 bytes the field is its length, with the file type in the upper byte if the
      file system keeps types; it is low byte first on disk. */
  lemma TypeField(entry: New)
    requires |entry.name| <= 255
    ensures !entry.hasType ==> NameField(entry) == |entry.name|
    ensures entry.hasType ==> NameField(entry) == |entry.name| + 256 * (entry.fileType % 8)
    ensures Bytes16(NameField(entry)) == [|entry.name|, if entry.hasType then entry.fileType % 8 else 0]
  {
    OrNone(entry.fileType);
  }

  lemma OrNone(y: nat)
    ensures Or3(0, y) == y % 8
  {
    var a, b, c := y / 2, y / 4, y / 8;
    Halves(y, 2);
    Halves(y, 4);
    assert y == 8 * c + 4 * (b % 2) + 2 * (a % 2) + y % 2;
  }

  lemma Halves(y: nat, n: nat)
    requires n == 2 || n == 4
    ensures y / n / 2 == y / (2 * n) && y / n == 2 * (y / (2 * n)) + y / n % 2
  {
  }

  /** The following record absorbed, if there is one that is not in use. */
  function Absorb(recs: seq<Rec>): (r: seq<Rec>)
    requires AllProper(recs) && recs != [] && |Flat(recs)| < U16
    ensures r != [] && AllProper(r)
  {
    FlatFirst(recs);
    if |recs| >= 2 && |Flat(recs[1..])| > 8 && recs[1].ino == 0 then
      FlatFirst(recs[1..]);
      [recs[0].(body := recs[0].body + Encode(recs[1]))] + recs[2..]
    else recs
  }

  lemma FlatFirst(recs: seq<Rec>)
    requires AllProper(recs) && recs != []
    ensures Flat(recs) == Encode(recs[0]) + Flat(recs[1..])
  {
  }

  /** The used part of a record, and the rest as a free record. */
  function Front(r: Rec): (f: Rec)
    requires Proper(r)
    ensures Proper(f) && Len(f) == RecLen(r.nameLen % 256)
  {
    r.(body := r.body[..RecLen(r.nameLen % 256) - 8])
  }

  function Back(r: Rec): (b: Rec)
    requires Proper(r) && Len(r) >= RecLen(r.nameLen % 256) + 8
    ensures Proper(b) && Len(b) == Len(r) - RecLen(r.nameLen % 256)
  {
    Rec(0, 0, r.body[RecLen(r.nameLen % 256)..])
  }

  function Fill(r: Rec, entry: New): (f: Rec)
    requires Proper(r) && entry.ino < U32 && RecLen(|entry.name|) <= Len(r)
    ensures Proper(f) && Len(f) == Len(r)
  {
    Rec(entry.ino, NameField(entry), entry.name + r.body[|entry.name|..])
  }

  predicate Room(r: Rec, need: nat) {
    if r.ino != 0 then Len(r) >= RecLen(r.nameLen % 256) + need else Len(r) >= need
  }

  /** The scan of ext2fs_link from the first of these records on. */
  function LinkRecs(recs: seq<Rec>, entry: New): (r: (seq<Rec>, bool))
    requires AllProper(recs) && |Flat(recs)| < U16 && entry.ino < U32
    ensures AllProper(r.0)
    decreases |Flat(recs)|
  {
    if recs == [] then ([], false) else
      AbsorbLength(recs);
      var t := Absorb(recs);
      var r := t[0];
      FlatFirst(t);
      if !Room(r, RecLen(|entry.name|)) then
        var (u, done) := LinkRecs(t[1..], entry);
        ([r] + u, done)
      else if r.ino != 0 then
        FlatFirst([Back(r)] + t[1..]);
        assert ([Back(r)] + t[1..])[1..] == t[1..];
        var (u, done) := LinkRecs([Back(r)] + t[1..], entry);
        ([Front(r)] + u, done)
      else ([Fill(r, entry)] + t[1..], true)
  }

  /** Absorbing only moves a record boundary: no byte is lost. */
  lemma AbsorbLength(recs: seq<Rec>)
    requires AllProper(recs) && recs != [] && |Flat(recs)| < U16
    ensures |Flat(Absorb(recs))| == |Flat(recs)|
  {
    FlatFirst(recs);
    if |recs| >= 2 && |Flat(recs[1..])| > 8 && recs[1].ino == 0 {
      FlatFirst(recs[1..]);
      FlatFirst(Absorb(recs));
      assert Absorb(recs)[1..] == recs[2..] == recs[1..][1..];
    }
  }

  // ---------- What adding a name does ----------

  lemma AbsorbLive(recs: seq<Rec>)
    requires AllProper(recs) && recs != [] && |Flat(recs)| < U16
    ensures Live(Absorb(recs)) == Live(recs)
  {
    hide Encode, Flat;
    if |recs| >= 2 && |Flat(recs[1..])| > 8 && recs[1].ino == 0 {
      var a := Absorb(recs);
      assert a[1..] == recs[2..] == recs[1..][1..];
      assert NameOf(a[0]) == NameOf(recs[0]);
      assert Live(recs[1..]) == Live(recs[2..]);
    }
  }

  function Added(entry: New): multiset<Entry> {
    if entry.ino == 0 then multiset{} else multiset{Entry(entry.name[..|entry.name| % 256], entry.ino, NameField(entry) / 256)}
  }

  lemma LiveFirst(recs: seq<Rec>)
    requires AllProper(recs) && recs != []
    ensures Live(recs) == Live1(recs[0]) + Live(recs[1..])
  {
  }

  /** Splitting a record in use: the name stays in front. */
  lemma SplitRec(r: Rec)
    requires Proper(r) && Len(r) >= RecLen(r.nameLen % 256) + 8
    ensures Len(Front(r)) + Len(Back(r)) == Len(r) && Live1(Front(r)) == Live1(r) && Live1(Back(r)) == multiset{}
  {
    assert NameOf(Front(r)) == NameOf(r);
  }

  lemma FillRec(r: Rec, entry: New)
    requires Proper(r) && entry.ino < U32 && RecLen(|entry.name|) <= Len(r) && r.ino == 0
    ensures Live1(r) == multiset{} && Live1(Fill(r, entry)) == Added(entry)
  {
    assert NameOf(Fill(r, entry)) == entry.name[..|entry.name| % 256];
  }

  /** No byte of the block is gained or lost, and the entries in use are kept, with the new one. */
  lemma {:induction false} LinkKeeps(recs: seq<Rec>, entry: New)
    requires AllProper(recs) && |Flat(recs)| < U16 && entry.ino < U32
    ensures var (u, done) := LinkRecs(recs, entry);
      |Flat(u)| == |Flat(recs)| && Live(u) == Live(recs) + if done then Added(entry) else multiset{}
    decreases |Flat(recs)|
  {
    hide Live, Live1, Flat, Absorb, Proper, Encode, RecLen, NameOf, Added, NameField;
    if recs == [] {
      Nothing();
    } else {
      AbsorbLength(recs);
      AbsorbLive(recs);
      var t := Absorb(recs);
      var r, rest := t[0], t[1..];
      FlatFirst(t);
      LiveFirst(t);
      if !Room(r, RecLen(|entry.name|)) {
        LinkKeeps(rest, entry);
        Cons(r, LinkRecs(rest, entry).0);
      } else if r.ino != 0 {
        SplitRec(r);
        Cons(Back(r), rest);
        LinkKeeps([Back(r)] + rest, entry);
        Cons(Front(r), LinkRecs([Back(r)] + rest, entry).0);
      } else {
        FillRec(r, entry);
        Cons(Fill(r, entry), rest);
      }
    }
  }

  lemma Nothing()
    ensures Live([]) == multiset{}
  {
  }

  lemma Cons(r: Rec, rest: seq<Rec>)
    requires Proper(r) && AllProper(rest)
    ensures AllProper([r] + rest) && |Flat([r] + rest)| == Len(r) + |Flat(rest)| && Live([r] + rest) == Live1(r) + Live(rest)
  {
    assert ([r] + rest)[1..] == rest;
  }

  /** The new entry is exactly the name, inode and type asked for, if and only if the inode is not zero
      and the name has at most 255 bytes. */
  lemma LinkExact(recs: seq<Rec>, entry: New)
    requires AllProper(recs) && |Flat(recs)| < U16 && entry.ino < U32 && LinkRecs(recs, entry).1
    ensures Live(LinkRecs(recs, entry).0) == Live(recs) + multiset{Entry(entry.name, entry.ino, if entry.hasType then entry.fileType % 8 else 0)}
       <==> entry.ino != 0 && |entry.name| <= 255
  {
    hide LinkRecs, Live, Flat, Proper, NameField;
    LinkKeeps(recs, entry);
    var asked := Entry(entry.name, entry.ino, if entry.hasType then entry.fileType % 8 else 0);
    if entry.ino != 0 && |entry.name| <= 255 {
      TypeField(entry);
      assert entry.name[..|entry.name| % 256] == entry.name;
    } else {
      assert Added(entry)[asked] == 0;
      assert (Live(recs) + Added(entry))[asked] != (Live(recs) + multiset{asked})[asked];
    }
  }

  /** Too short for another `need` bytes, behind its own name if it is in use. */
  predicate TooShort(r: Rec, len: nat, need: nat) {
    if r.ino != 0 then len < (r.nameLen % 256 + 11) / 4 * 4 + need else len < need
  }

  /** From the first record on, no record has room, together with the free one after it if that is
      followed by more than its header; a record that was joined is passed over with it. */
  ghost predicate Crowded(recs: seq<Rec>, need: nat)
    requires AllProper(recs)
  {
    recs == [] ||
    if |recs| >= 2 && recs[1].ino == 0 && |Flat(recs[1..])| > 8
    then TooShort(recs[0], Len(recs[0]) + Len(recs[1]), need) && Crowded(recs[2..], need)
    else TooShort(recs[0], Len(recs[0]), need) && Crowded(recs[1..], need)
  }

  lemma RoomIff(r: Rec, need: nat)
    ensures Room(r, need) <==> !TooShort(r, Len(r), need)
    ensures Room(r, need) && r.ino == 0 ==> need <= Len(r)
  {
  }

  /** A name is added exactly unless the records are crowded: for a header and the name, up to a multiple of 4. */
  lemma {:induction false} LinkWhen(recs: seq<Rec>, entry: New)
    requires AllProper(recs) && |Flat(recs)| < U16 && entry.ino < U32
    ensures LinkRecs(recs, entry).1 <==> !Crowded(recs, (|entry.name| + 11) / 4 * 4)
    decreases |Flat(recs)|
  {
    hide Flat, Proper, Encode, TooShort, Absorb, Room;
    if recs != [] {
      AbsorbLength(recs);
      AbsorbWhen(recs);
      var t := Absorb(recs);
      FlatFirst(t);
      RoomIff(t[0], RecLen(|entry.name|));
      ShortSame(recs[0], t[0], (|entry.name| + 11) / 4 * 4);
      if Room(t[0], RecLen(|entry.name|)) {
        RoomAdds(recs, entry);
      } else {
        LinkWhen(t[1..], entry);
      }
    }
  }

  lemma ShortSame(r: Rec, t: Rec, need: nat)
    requires t.ino == r.ino && t.nameLen == r.nameLen
    ensures forall len: nat :: TooShort(t, len, need) == TooShort(r, len, need)
  {
  }

  /** Then no record has room alone, and no record in use together with a free one after it. */
  lemma {:induction false} CrowdedPairs(recs: seq<Rec>, need: nat)
    requires AllProper(recs) && Crowded(recs, need)
    ensures forall i | 0 <= i < |recs| :: PairShort(recs, i, need)
    decreases |recs|
  {
    hide Flat, Proper, PairShort, TooShort;
    if recs != [] {
      var k := if |recs| >= 2 && recs[1].ino == 0 && |Flat(recs[1..])| > 8 then 2 else 1;
      CrowdedPairs(recs[k..], need);
      FirstShort(recs, need);
      forall i | k <= i < |recs| ensures PairShort(recs, i, need) {
        assert PairShort(recs[k..], i - k, need);
        PairShift(recs, k, i, need);
      }
    }
  }

  ghost predicate PairShort(recs: seq<Rec>, i: nat, need: nat)
    requires AllProper(recs) && i < |recs|
  {
    if recs[i].ino == 0 then Len(recs[i]) < need
    else Len(recs[i]) + (if i + 1 < |recs| && recs[i + 1].ino == 0 && |Flat(recs[i + 1..])| > 8 then Len(recs[i + 1]) else 0)
         < (recs[i].nameLen % 256 + 11) / 4 * 4 + need
  }

  lemma PairShift(recs: seq<Rec>, k: nat, i: nat, need: nat)
    requires AllProper(recs) && k <= i < |recs|
    ensures PairShort(recs, i, need) <==> PairShort(recs[k..], i - k, need)
  {
    hide Flat, Proper;
    assert recs[i] == recs[k..][i - k] && recs[i + 1..] == recs[k..][i - k + 1..];
  }

  lemma FirstShort(recs: seq<Rec>, need: nat)
    requires AllProper(recs) && recs != [] && Crowded(recs, need)
    ensures PairShort(recs, 0, need)
    ensures |recs| >= 2 && recs[1].ino == 0 && |Flat(recs[1..])| > 8 ==> PairShort(recs, 1, need)
  {
    hide Flat;
    assert Proper(recs[0]);
    RecLenFits(recs[0]);
  }

  /** The new name is in this record, and no record before it has room. */
  ghost predicate FirstAt(u: seq<Rec>, k: nat, entry: New) {
    && k < |u| && u[k].ino == entry.ino && u[k].nameLen == NameField(entry)
    && |entry.name| <= |u[k].body| && u[k].body[..|entry.name|] == entry.name
    && forall i | 0 <= i < k :: TooShort(u[i], Len(u[i]), (|entry.name| + 11) / 4 * 4)
  }

  lemma FirstNext(r: Rec, u: seq<Rec>, k: nat, entry: New)
    requires FirstAt(u, k, entry) && TooShort(r, Len(r), (|entry.name| + 11) / 4 * 4)
    ensures FirstAt([r] + u, k + 1, entry)
  {
    hide TooShort, NameField;
    var t := [r] + u;
    forall i | 0 <= i < k + 1 ensures TooShort(t[i], Len(t[i]), (|entry.name| + 11) / 4 * 4) {
      assert i > 0 ==> t[i] == u[i - 1];
    }
  }

  /** When nothing was added, no record is left with room; when a name was, it is in the first record that
      has room, after joining free records and cutting those in use. */
  lemma {:induction false} LinkFirst(recs: seq<Rec>, entry: New)
    requires AllProper(recs) && |Flat(recs)| < U16 && entry.ino < U32
    ensures !LinkRecs(recs, entry).1 ==> forall r | r in LinkRecs(recs, entry).0 :: TooShort(r, Len(r), (|entry.name| + 11) / 4 * 4)
    ensures LinkRecs(recs, entry).1 ==> exists k :: FirstAt(LinkRecs(recs, entry).0, k, entry)
    decreases |Flat(recs)|
  {
    hide Flat, Proper, Encode, TooShort, NameField, Absorb, Room, FirstAt, RecLen;
    if recs != [] {
      AbsorbLength(recs);
      var t := Absorb(recs);
      FlatFirst(t);
      RoomIff(t[0], RecLen(|entry.name|));
      RecLenIs(|entry.name|);
      if !Room(t[0], RecLen(|entry.name|)) {
        LinkFirst(t[1..], entry);
        if LinkRecs(recs, entry).1 {
          var k :| FirstAt(LinkRecs(t[1..], entry).0, k, entry);
          FirstNext(t[0], LinkRecs(t[1..], entry).0, k, entry);
        }
      } else if t[0].ino != 0 {
        RoomCuts(t[0], RecLen(|entry.name|));
        SplitRec(t[0]);
        Cons(Back(t[0]), t[1..]);
        LinkFirst([Back(t[0])] + t[1..], entry);
        RoomAdds(recs, entry);
        var u := LinkRecs([Back(t[0])] + t[1..], entry).0;
        var k :| FirstAt(u, k, entry);
        FirstNext(Front(t[0]), u, k, entry);
      } else {
        FillsFirst(t[0], t[1..], entry);
      }
    }
  }

  lemma RecLenIs(n: nat)
    ensures RecLen(n) == (n + 11) / 4 * 4
  {
  }

  lemma RoomCuts(r: Rec, need: nat)
    requires Proper(r) && r.ino != 0 && Room(r, need) && need >= 8
    ensures Len(r) >= RecLen(r.nameLen % 256) + 8 && TooShort(Front(r), Len(Front(r)), need)
  {
  }

  lemma FillsFirst(r: Rec, rest: seq<Rec>, entry: New)
    requires Proper(r) && entry.ino < U32 && RecLen(|entry.name|) <= Len(r)
    ensures FirstAt([Fill(r, entry)] + rest, 0, entry)
  {
  }

  lemma AbsorbWhen(recs: seq<Rec>)
    requires AllProper(recs) && recs != [] && |Flat(recs)| < U16
    ensures if |recs| >= 2 && |Flat(recs[1..])| > 8 && recs[1].ino == 0
      then Absorb(recs) != recs && Absorb(recs)[1..] == recs[2..] && Absorb(recs)[0].ino == recs[0].ino && Absorb(recs)[0].nameLen == recs[0].nameLen
        && Len(Absorb(recs)[0]) == Len(recs[0]) + Len(recs[1]) && Len(Absorb(recs)[0]) % 4 == 0
      else Absorb(recs) == recs
  {
    hide Flat, Encode;
    assert Proper(recs[0]) && (|recs| >= 2 ==> Proper(recs[1]));
  }

  lemma AbsorbRoom(recs: seq<Rec>, need: nat)
    requires AllProper(recs) && recs != [] && |Flat(recs)| < U16
    ensures Room(recs[0], need) ==> Room(Absorb(recs)[0], need)
    ensures Absorb(recs) == recs || (|recs| >= 2 && Absorb(recs)[1..] == recs[2..] && (Room(recs[1], need) ==> Room(Absorb(recs)[0], need)))
  {
    hide Flat, Absorb, Proper, RecLen, Len;
    AbsorbWhen(recs);
    RecLenFits(recs[0]);
  }

  lemma RecLenFits(r: Rec)
    requires Proper(r)
    ensures Len(r) >= RecLen(r.nameLen % 256)
  {
  }

  lemma RoomAdds(recs: seq<Rec>, entry: New)
    requires AllProper(recs) && recs != [] && |Flat(recs)| < U16 && entry.ino < U32
    requires Room(Absorb(recs)[0], RecLen(|entry.name|))
    ensures LinkRecs(recs, entry).1
  {
    hide Flat, Encode, RecLen, Proper;
    AbsorbLength(recs);
    var t := Absorb(recs);
    FlatFirst(t);
    if t[0].ino != 0 {
      SplitRec(t[0]);
      Cons(Back(t[0]), t[1..]);
      FillsBack(t[0], t[1..], entry);
    }
  }

  /** A free record that was just split off takes the name. */
  lemma FillsBack(r: Rec, rest: seq<Rec>, entry: New)
    requires Proper(r) && AllProper(rest) && r.ino != 0 && entry.ino < U32 && Room(r, RecLen(|entry.name|))
    requires AllProper([Back(r)] + rest) && |Flat([Back(r)] + rest)| < U16
    ensures LinkRecs([Back(r)] + rest, entry).1
  {
    hide Flat, Encode;
    var need, t := RecLen(|entry.name|), [Back(r)] + rest;
    AbsorbRoom(t, need);
    assert Room(t[0], need);
    assert Absorb(t)[0].ino == 0;
  }

  /** A name that found no room may find it the second time, as each call joins only pairs: here a record
      in use of 12 bytes and three free ones of 12, and a name that takes 36. */
  lemma LinkAgain(r: Rec, f: Rec, entry: New)
    requires Proper(r) && Proper(f) && Len(r) == Len(f) == 12 && r.ino != 0 && r.nameLen % 256 == 4 && f.ino == 0
    requires entry.ino < U32 && 25 <= |entry.name| <= 28
    ensures var recs := [r, f, f, f];
      && AllProper(recs) && |Flat(recs)| == 48 && !LinkRecs(recs, entry).1
      && |Flat(LinkRecs(recs, entry).0)| == 48 && LinkRecs(LinkRecs(recs, entry).0, entry).1
  {
    hide Encode, Proper, Room, Flat, TooShort;
    var recs, two := [r, f, f, f], [f, f];
    FourFlat(r, f);
    FourFlat(f, f);
    AbsorbWhen(recs);
    AbsorbWhen(two);
    var a, b := Absorb(recs)[0], Absorb(two)[0];
    assert recs[1..] == [f, f, f] && recs[2..] == two && two[1..] == [f] && two[2..] == [];
    PairRoom(r, a, entry);
    PairRoom(f, b, entry);
    assert Absorb(recs) == [a] + two && Absorb(two) == [b];
    NoRecs(entry);
    assert LinkRecs(two, entry) == ([b] + [], false);
    assert LinkRecs(recs, entry) == ([a] + [b], false);
    assert [a] + [b] == [a, b];
    LinkKeeps(recs, entry);
    LinkWhen([a, b], entry);
    assert [a, b][1..] == [b] && [a, b][2..] == [];
    PairFlat(b);
    PairRoom(r, a, entry);
  }

  lemma FourFlat(r: Rec, f: Rec)
    requires Proper(r) && Proper(f) && Len(r) == Len(f) == 12
    ensures AllProper([r, f, f, f]) && |Flat([r, f, f, f])| == 48 && |Flat([f, f, f])| == 36 && |Flat([f, f])| == 24 && |Flat([f])| == 12
  {
    hide Encode, Proper;
    FlatOne(f);
    FlatConcat([f], [f]);
    FlatConcat([f], [f, f]);
    FlatOne(r);
    FlatConcat([r], [f, f, f]);
    assert [f] + [f] == [f, f] && [f] + [f, f] == [f, f, f] && [r] + [f, f, f] == [r, f, f, f];
  }

  lemma PairFlat(b: Rec)
    requires Proper(b) && Len(b) == 24
    ensures |Flat([b])| == 24
  {
    hide Encode;
    FlatOne(b);
  }

  /** Two records of 12 bytes are too short for the name; twice as much behind a name of 4 is not. */
  lemma PairRoom(r: Rec, a: Rec, entry: New)
    requires 25 <= |entry.name| <= 28 && a.ino == r.ino && a.nameLen == r.nameLen && Len(a) == 24 && (r.ino != 0 ==> r.nameLen % 256 == 4)
    ensures !Room(a, RecLen(|entry.name|)) && (|entry.name| + 11) / 4 * 4 == 36
    ensures a.ino != 0 ==> !TooShort(a, 48, 36)
  {
  }

  lemma NoRecs(entry: New)
    requires entry.ino < U32
    ensures LinkRecs([], entry) == ([], false)
  {
  }

  // ---------- The length field in large blocks ----------

  const MAXLEN: nat := 0xFFFF

  /** ext2fs_get_rec_len; & and | take the low two bits of the field as bits 16 and 17. */
  function GetRecLen(blocksize: nat, field: nat): nat {
    if blocksize < U16 then field
    else if field == MAXLEN || field == 0 then blocksize
    else field / 4 * 4 + field % 4 * U16
  }

  /** ext2fs_set_rec_len */
  function SetRecLen(blocksize: nat, len: nat): Option<nat> {
    if len > blocksize || blocksize > 4 * U16 || len % 4 != 0 then None
    else if len < U16 then Some(len)
    else if len == blocksize then Some(if blocksize == U16 then MAXLEN else 0)
    else Some(len % U16 / 4 * 4 + len / U16 % 4)
  }

  /** A length that is accepted reads back unchanged exactly when it is neither 0 in a block of
      64 KiB or more, nor 262140 in a larger block, whose field is that of the whole block. */
  lemma RecLenRoundTrip(blocksize: nat, len: nat)
    requires SetRecLen(blocksize, len).Some?
    ensures GetRecLen(blocksize, SetRecLen(blocksize, len).value) == len
      <==> blocksize < U16 || len == blocksize || (len != 0 && len != 262140)
  {
    if len >= U16 && len != blocksize {
      var lo, hi := len % U16, len / U16;
      assert len == hi * U16 + lo && hi < 4 && lo % 4 == 0;
      assert (lo + hi) / 4 * 4 == lo && (lo + hi) % 4 == hi;
    }
  }
}
