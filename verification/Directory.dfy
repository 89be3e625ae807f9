/**
 Adding and finding names in a directory, on the bytes of its blocks: the scan of
 source/dir_iterate.c with the callbacks of source/link.c and source/lookup.c.
 */
module Directory {
  import opened Bytes
  import opened DirBlock

  // ---------- Writing the fields of a record ----------

  lemma PutMid(a: seq<Byte>, m: seq<Byte>, z: seq<Byte>, at: nat, part: seq<Byte>)
    requires at + |part| <= |m|
    ensures Put(a + m + z, |a| + at, part) == a + Put(m, at, part) + z
  {
  }

  lemma PutHeader(ino: nat, len: nat, nameLen: nat, v: nat)
    requires ino < U32 && len < U16 && nameLen < U16
    ensures v < U32 ==> Put(Header(ino, len, nameLen), 0, Bytes32(v)) == Header(v, len, nameLen)
    ensures v < U16 ==> Put(Header(ino, len, nameLen), 4, Bytes16(v)) == Header(ino, v, nameLen)
    ensures v < U16 ==> Put(Header(ino, len, nameLen), 6, Bytes16(v)) == Header(ino, len, v)
  {
    hide Bytes16, Bytes32;
  }

  /** Any 8 bytes can be overwritten by a header. */
  lemma PutFresh(h: seq<Byte>, v: nat)
    requires |h| == 8 && v < U16
    ensures Put(Put(Put(h, 0, Bytes32(0)), 6, Bytes16(0)), 4, Bytes16(v)) == Header(0, v, 0)
  {
    hide Bytes16, Bytes32;
  }

  /** From `pre` on, the records `recs` fill the buffer. */
  ghost predicate Laid(buf: seq<Byte>, pre: seq<Rec>, recs: seq<Rec>) {
    AllProper(pre) && AllProper(recs) && buf == Flat(pre) + Flat(recs)
  }

  lemma LaidFirst(buf: seq<Byte>, pre: seq<Rec>, recs: seq<Rec>)
    requires Laid(buf, pre, recs) && recs != []
    ensures var off, r := |Flat(pre)|, recs[0];
      && off + Len(r) <= |buf| && Get32(buf, off) == r.ino && Get16(buf, off + 4) == Len(r) && Get16(buf, off + 6) == r.nameLen
      && buf[off + 8..off + Len(r)] == r.body
    ensures Laid(buf, pre + [recs[0]], recs[1..]) && |Flat(pre + [recs[0]])| == |Flat(pre)| + Len(recs[0])
  {
    hide Encode, Proper, Flat, Bytes.Get16, Bytes.Get32;
    var a, e, z := Flat(pre), Encode(recs[0]), Flat(recs[1..]);
    FlatFirst(recs);
    Assoc(a, e, z);
    Middle(a, e, z);
    Fields(buf, |a|, recs[0]);
    FlatOne(recs[0]);
    FlatConcat(pre, [recs[0]]);
  }

  /** The same with a header, and anything after it. */
  lemma PutLen(a: seq<Byte>, r: Rec, z: seq<Byte>, v: nat)
    requires Proper(r) && v < U16
    ensures Put(a + Encode(r) + z, |a| + 4, Bytes16(v)) == a + Header(r.ino, v, r.nameLen) + r.body + z
  {
    hide Header, Bytes16, Put;
    var h := Header(r.ino, Len(r), r.nameLen);
    assert a + Encode(r) + z == a + h + (r.body + z);
    PutMid(a, h, r.body + z, 4, Bytes16(v));
    PutHeader(r.ino, Len(r), r.nameLen, v);
  }

  lemma Assoc(a: seq<Byte>, b: seq<Byte>, c: seq<Byte>)
    ensures a + (b + c) == a + b + c
  {
  }

  lemma Assoc4(a: seq<Byte>, b: seq<Byte>, c: seq<Byte>, d: seq<Byte>, e: seq<Byte>)
    ensures a + b + c + (d + e) == a + (b + (c + d) + e)
    ensures a + b + c + (d + e) == a + (b + c + d + e)
  {
  }

  lemma Middle(a: seq<Byte>, e: seq<Byte>, z: seq<Byte>)
    ensures (a + e + z)[|a|..|a| + |e|] == e
  {
  }

  lemma EncodeOf(r: Rec)
    requires Proper(r)
    ensures Encode(r) == Header(r.ino, Len(r), r.nameLen) + r.body
  {
  }

  lemma AbsorbBytes(buf: seq<Byte>, pre: seq<Rec>, recs: seq<Rec>)
    requires Laid(buf, pre, recs) && |buf| < U16 && |recs| >= 2 && |Flat(recs)| < U16 && |Flat(recs[1..])| > 8 && recs[1].ino == 0
    ensures Len(recs[0]) + Len(recs[1]) < U16
    ensures Laid(Put(buf, |Flat(pre)| + 4, Bytes16(Len(recs[0]) + Len(recs[1]))), pre, Absorb(recs))
  {
    hide Put, Bytes16, Header, Encode, Flat;
    var r, n, t := recs[0], recs[1], Absorb(recs);
    FlatFirst(recs);
    FlatFirst(recs[1..]);
    assert recs[1..][1..] == recs[2..];
    var a, z, len := Flat(pre), Flat(recs[2..]), Len(r) + Len(n);
    PutLen(a, r, Encode(n) + z, len);
    Assoc(a, Encode(r), Encode(n) + z);
    FlatFirst(t);
    assert t[1..] == recs[2..];
    EncodeOf(t[0]);
    Assoc4(a, Header(r.ino, len, r.nameLen), r.body, Encode(n), z);
  }

  lemma SplitBytes(buf: seq<Byte>, pre: seq<Rec>, recs: seq<Rec>)
    requires Laid(buf, pre, recs) && recs != [] && Len(recs[0]) >= RecLen(recs[0].nameLen % 256) + 8
    ensures var off, min := |Flat(pre)|, RecLen(recs[0].nameLen % 256);
      && off + min + 8 <= |buf|
      && Laid(Put(Put(Put(Put(buf, off + 4, Bytes16(min)), off + min, Bytes32(0)), off + min + 6, Bytes16(0)), off + min + 4, Bytes16(Len(recs[0]) - min)),
              pre, [Front(recs[0]), Back(recs[0])] + recs[1..])
  {
    hide Put, Bytes16, Bytes32, Header, RecLen, Encode, Flat;
    var r, rest := recs[0], recs[1..];
    var off, min, a := |Flat(pre)|, RecLen(r.nameLen % 256), Flat(pre);
    FlatFirst(recs);
    Assoc(a, Encode(r), Flat(rest));
    PutLen(a, r, Flat(rest), min);
    EncodeOf(Front(r));
    EncodeOf(Back(r));
    SplitFlat(Front(r), Back(r), rest);
    SplitHeader(a, Header(r.ino, min, r.nameLen), r.body, Flat(rest), min - 8, Len(r) - min);
  }

  /** A header written over bytes k..k + 8 of the body. */
  lemma SplitHeader(a: seq<Byte>, h0: seq<Byte>, body: seq<Byte>, z: seq<Byte>, k: nat, v: nat)
    requires |h0| == 8 && k + 8 <= |body| && v < U16
    ensures var b, at := a + h0 + body + z, |a| + 8 + k;
      Put(Put(Put(b, at, Bytes32(0)), at + 6, Bytes16(0)), at + 4, Bytes16(v))
      == a + (h0 + body[..k] + (Header(0, v, 0) + body[k + 8..]) + z)
  {
    hide Put, Bytes16, Bytes32, Header;
    var front, h, back := a + h0 + body[..k], body[k..k + 8], body[k + 8..] + z;
    Cut(a + h0, body, z, k);
    var b := a + h0 + body + z;
    PutMid(front, h, back, 0, Bytes32(0));
    var h1 := Put(h, 0, Bytes32(0));
    PutMid(front, h1, back, 6, Bytes16(0));
    var h2 := Put(h1, 6, Bytes16(0));
    PutMid(front, h2, back, 4, Bytes16(v));
    PutFresh(h, v);
    Regroup(a, h0, body[..k], Header(0, v, 0), body[k + 8..], z);
  }

  lemma Cut(a: seq<Byte>, body: seq<Byte>, z: seq<Byte>, k: nat)
    requires k + 8 <= |body|
    ensures a + body + z == a + body[..k] + body[k..k + 8] + (body[k + 8..] + z)
  {
    assert body == body[..k] + body[k..k + 8] + body[k + 8..];
  }

  lemma Regroup(a: seq<Byte>, h: seq<Byte>, b: seq<Byte>, c: seq<Byte>, d: seq<Byte>, z: seq<Byte>)
    ensures a + h + b + c + (d + z) == a + (h + b + (c + d) + z)
  {
  }

  lemma SplitFlat(f: Rec, b: Rec, rest: seq<Rec>)
    requires Proper(f) && Proper(b) && AllProper(rest)
    ensures AllProper([f, b] + rest) && Flat([f, b] + rest) == Encode(f) + Encode(b) + Flat(rest)
  {
    var t := [f, b] + rest;
    FlatFirst(t);
    FlatFirst(t[1..]);
    assert t[1..][1..] == rest;
  }

  lemma FillBytes(buf: seq<Byte>, pre: seq<Rec>, recs: seq<Rec>, entry: New)
    requires Laid(buf, pre, recs) && recs != [] && entry.ino < U32 && RecLen(|entry.name|) <= Len(recs[0])
    ensures var off, nl := |Flat(pre)|, |entry.name| % U16;
      && off + 8 + |entry.name| <= |buf|
      && Laid(Put(Put(Put(Put(buf, off, Bytes32(entry.ino)), off + 6, Bytes16(nl)), off + 8, entry.name), off + 6, Bytes16(NameField(entry))),
              pre, [Fill(recs[0], entry)] + recs[1..])
  {
    hide Put, Bytes16, Bytes32, Header, RecLen, NameField, Encode, Flat;
    var r, rest, a, f := recs[0], recs[1..], Flat(pre), Fill(recs[0], entry);
    FlatFirst(recs);
    EncodeOf(r);
    EncodeOf(f);
    FlatFirst([f] + rest);
    assert ([f] + rest)[1..] == rest;
    FillHeader(a, r, Flat(rest), entry);
  }

  lemma FillHeader(a: seq<Byte>, r: Rec, z: seq<Byte>, entry: New)
    requires Proper(r) && entry.ino < U32 && |entry.name| <= |r.body|
    ensures var b, nl := a + (Header(r.ino, Len(r), r.nameLen) + r.body + z), |entry.name| % U16;
      Put(Put(Put(Put(b, |a|, Bytes32(entry.ino)), |a| + 6, Bytes16(nl)), |a| + 8, entry.name), |a| + 6, Bytes16(NameField(entry)))
      == a + (Header(entry.ino, Len(r), NameField(entry)) + (entry.name + r.body[|entry.name|..]) + z)
  {
    hide Put, Bytes16, Bytes32, Header, NameField;
    var nl, len, body := |entry.name| % U16, Len(r), r.body;
    var h, h1, h2, h3 := Header(r.ino, len, r.nameLen), Header(entry.ino, len, r.nameLen), Header(entry.ino, len, nl), Header(entry.ino, len, NameField(entry));
    Left(a, h, body, z);
    PutMid(a, h, body + z, 0, Bytes32(entry.ino));
    PutHeader(r.ino, len, r.nameLen, entry.ino);
    PutMid(a, h1, body + z, 6, Bytes16(nl));
    PutHeader(entry.ino, len, r.nameLen, nl);
    Left(a, h2, body, z);
    PutName(a + h2, body, z, entry.name);
    var named := entry.name + body[|entry.name|..];
    Left(a, h2, named, z);
    PutMid(a, h2, named + z, 6, Bytes16(NameField(entry)));
    PutHeader(entry.ino, len, nl, NameField(entry));
    Left(a, h3, named, z);
  }

  lemma Left(a: seq<Byte>, h: seq<Byte>, b: seq<Byte>, z: seq<Byte>)
    ensures a + (h + b + z) == a + h + (b + z) == a + h + b + z
  {
  }

  lemma PutName(a: seq<Byte>, body: seq<Byte>, z: seq<Byte>, name: seq<Byte>)
    requires |name| <= |body|
    ensures Put(a + body + z, |a|, name) == a + (name + body[|name|..]) + z
  {
    PutMid(a, body, z, 0, name);
    assert Put(body, 0, name) == name + body[|name|..];
  }

  // ---------- Adding a name to a block ----------

  datatype Ret = Ret(changed: bool, abort: bool, invalid: bool)

  datatype Status = Continued | Linked | Corrupted | Invalid

  class LinkScan {
    const entry: New
    var buf: seq<Byte>
    var done: bool

    constructor (entry: New, buf: seq<Byte>)
      ensures this.entry == entry && this.buf == buf && !done
    {
      this.entry, this.buf, this.done := entry, buf, false;
    }

    /** ext2fs_set_rec_len */
    method SetRecLen(at: nat, len: nat) returns (ok: bool)
      requires at + 8 <= |buf| < U16
      modifies this`buf
      ensures ok == (len <= |buf| && len % 4 == 0) && |buf| == old(|buf|)
      ensures buf == if ok then Put(old(buf), at + 4, Bytes16(len)) else old(buf)
    {
      if len > |buf| || len % 4 != 0 {
        return false;
      }
      buf := Put(buf, at + 4, Bytes16(len));
      return true;
    }

    /** The first part of link_proc: absorb the following record if it is free. */
    method AbsorbNext(offset: nat, cur0: nat, ghost fine: bool, ghost pre: seq<Rec>, ghost todo: seq<Rec>) returns (cur: nat, ret: Ret)
      requires |buf| < U16 && 8 <= cur0 && offset + cur0 <= |buf| && cur0 == Get16(buf, offset + 4)
      requires fine ==> Laid(buf, pre, todo) && todo != [] && offset == |Flat(pre)| && cur0 == Len(todo[0])
      modifies this`buf
      ensures |buf| == old(|buf|) && 8 <= cur && offset + cur <= |buf| && !ret.abort
      ensures 8 <= Get16(buf, offset + 4) && (!ret.invalid ==> cur == Get16(buf, offset + 4))
      ensures fine ==> !ret.invalid && |Flat(todo)| < U16 && Laid(buf, pre, Absorb(todo)) && cur == Len(Absorb(todo)[0])
    {
      hide Put, Bytes16, Header, Encode, Flat, Get16, Get32;
      cur := cur0;
      ret := Ret(false, false, false);
      if fine {
        assert |Flat(todo)| < U16;
        NextFields(buf, pre, todo);
      }
      var next := offset + cur;
      if next < |buf| - 8 && Get32(buf, next) == 0 && next + Get16(buf, next + 4) <= |buf| {
        if fine {
          AbsorbBytes(buf, pre, todo);
        }
        var len := cur + Get16(buf, next + 4);
        var ok := SetRecLen(offset, len);
        if !ok {
          ret := ret.(invalid := true);
          return;
        }
        Get16Put(old(buf), offset + 4, len);
        cur := len;
        ret := ret.(changed := true);
      }
    }

    /** link_proc */
    method LinkProc(offset: nat, ghost fine: bool, ghost pre: seq<Rec>, ghost todo: seq<Rec>) returns (ret: Ret)
      requires |buf| < U16 && offset + 8 <= |buf| && 8 <= Get16(buf, offset + 4) && offset + Get16(buf, offset + 4) <= |buf| && entry.ino < U32
      requires fine ==> Laid(buf, pre, todo) && todo != [] && offset == |Flat(pre)|
      modifies this
      ensures |buf| == old(|buf|) && (ret.abort ==> done || ret.invalid) && (ret.invalid ==> ret.abort)
      ensures 8 <= Get16(buf, offset + 4)
      ensures done ==> old(done) || ret.abort
      ensures fine ==> !ret.invalid && |Flat(todo)| < U16
      ensures fine ==>
        var t := Absorb(todo);
        if !Room(t[0], RecLen(|entry.name|)) then !ret.abort && Laid(buf, pre, t)
        else if t[0].ino != 0 then !ret.abort && Laid(buf, pre, [Front(t[0]), Back(t[0])] + t[1..])
        else ret.abort && Laid(buf, pre, [Fill(t[0], entry)] + t[1..])
    {
      hide Put, Bytes16, Bytes32, Header, Encode, Flat, Get16, Get32, NameField, Front, Back, Fill, Proper;
      if fine {
        LaidFirst(buf, pre, todo);
      }
      var need := RecLen(|entry.name|);
      var cur;
      cur, ret := AbsorbNext(offset, Get16(buf, offset + 4), fine, pre, todo);
      if ret.invalid {
        return ret.(abort := true);
      }
      ghost var t := if fine then Absorb(todo) else [];
      if fine {
        LaidFirst(buf, pre, t);
      }
      if Get32(buf, offset) != 0 {
        if cur < RecLen(Get16(buf, offset + 6) % 256) + need {
          return;
        }
        ret := SplitAt(offset, cur, fine, pre, t);
        return;
      }
      if cur < need {
        return;
      }
      FillAt(offset, fine, pre, t);
      return Ret(true, true, false);
    }

    /** The second part of link_proc: split a record in use. */
    method SplitAt(offset: nat, cur: nat, ghost fine: bool, ghost pre: seq<Rec>, ghost t: seq<Rec>) returns (ret: Ret)
      requires |buf| < U16 && offset + cur <= |buf| && offset + 8 <= |buf| && 8 <= Get16(buf, offset + 4) && cur >= RecLen(Get16(buf, offset + 6) % 256) + 8
      requires fine ==> Laid(buf, pre, t) && t != [] && offset == |Flat(pre)| && cur == Len(t[0]) && Get16(buf, offset + 6) == t[0].nameLen
      modifies this`buf
      ensures |buf| == old(|buf|) && ret.abort == ret.invalid && 8 <= Get16(buf, offset + 4)
      ensures fine ==> !ret.invalid && Laid(buf, pre, [Front(t[0]), Back(t[0])] + t[1..])
    {
      hide Put, Bytes16, Bytes32, Header, Encode, Flat, Get16, Get32, Front, Back, RecLen;
      var min := RecLen(Get16(buf, offset + 6) % 256);
      if fine {
        SplitBytes(buf, pre, t);
        assert Proper(t[0]);
      }
      var ok := SetRecLen(offset, min);
      if ok {
        Get16Put(old(buf), offset + 4, min);
      }
      GetOther(buf, offset + min, Bytes32(0), offset + 4);
      buf := Put(buf, offset + min, Bytes32(0));
      GetOther(buf, offset + min + 6, Bytes16(0), offset + 4);
      buf := Put(buf, offset + min + 6, Bytes16(0));
      if cur - min < U16 {
        GetOther(buf, offset + min + 4, Bytes16(cur - min), offset + 4);
      }
      ok := SetRecLen(offset + min, cur - min);
      return Ret(true, !ok, !ok);
    }

    /** The last part of link_proc: use a free record. */
    method FillAt(offset: nat, ghost fine: bool, ghost pre: seq<Rec>, ghost t: seq<Rec>)
      requires offset + RecLen(|entry.name|) <= |buf| && entry.ino < U32 && 8 <= Get16(buf, offset + 4)
      requires fine ==> Laid(buf, pre, t) && t != [] && offset == |Flat(pre)| && RecLen(|entry.name|) <= Len(t[0])
      modifies this
      ensures |buf| == old(|buf|) && done && 8 <= Get16(buf, offset + 4)
      ensures fine ==> Laid(buf, pre, [Fill(t[0], entry)] + t[1..])
    {
      hide Put, Bytes16, Bytes32, Header, Encode, Flat, Get16, Get32, NameField, Fill, Proper;
      if fine {
        FillBytes(buf, pre, t, entry);
      }
      GetOther(buf, offset, Bytes32(entry.ino), offset + 4);
      buf := Put(buf, offset, Bytes32(entry.ino));
      GetOther(buf, offset + 6, Bytes16(|entry.name| % U16), offset + 4);
      buf := Put(buf, offset + 6, Bytes16(|entry.name| % U16));
      GetOther(buf, offset + 8, entry.name, offset + 4);
      buf := Put(buf, offset + 8, entry.name);
      GetOther(buf, offset + 6, Bytes16(NameField(entry)), offset + 4);
      buf := Put(buf, offset + 6, Bytes16(NameField(entry)));
      done := true;
    }
  }

  lemma NextFields(buf: seq<Byte>, pre: seq<Rec>, todo: seq<Rec>)
    requires Laid(buf, pre, todo) && todo != [] && |buf| < U16 && |Flat(todo)| < U16
    ensures var next := |Flat(pre)| + Len(todo[0]);
      && |Flat(todo)| < U16 && next <= |buf| && |buf| - next == |Flat(todo[1..])|
      && (Absorb(todo) == todo || |todo| >= 2)
      && (next < |buf| - 8 ==> |todo| >= 2 && Get32(buf, next) == todo[1].ino && Get16(buf, next + 4) == Len(todo[1]) && next + Len(todo[1]) <= |buf|)
      && (Absorb(todo) != todo <==> next < |buf| - 8 && Get32(buf, next) == 0)
      && (next < |buf| - 8 && Get32(buf, next) == 0 ==> Len(Absorb(todo)[0]) == Len(todo[0]) + Len(todo[1]) && Len(Absorb(todo)[0]) % 4 == 0)
  {
    hide Get16, Get32, Encode, Flat, Absorb, Proper, Header;
    AbsorbWhen(todo);
    LaidFirst(buf, pre, todo);
    FlatFirst(todo);
    if |todo| >= 2 {
      LaidFirst(buf, pre + [todo[0]], todo[1..]);
      FlatFirst(todo[1..]);
      assert todo[1..][0] == todo[1];
    } else {
      NoBytes(todo[1..]);
    }
  }

  lemma NoBytes(recs: seq<Rec>)
    requires recs == []
    ensures Flat(recs) == []
  {
  }

  /** So far, the scan has done what LinkRecs does: `todo` is what is left. */
  ghost predicate OnTrack(buf: seq<Byte>, pre: seq<Rec>, todo: seq<Rec>, recs: seq<Rec>, entry: New) {
    && Laid(buf, pre, todo) && |buf| < U16 && entry.ino < U32
    && AllProper(recs) && |Flat(recs)| < U16 && |Flat(todo)| < U16
    && LinkRecs(recs, entry) == (pre + LinkRecs(todo, entry).0, LinkRecs(todo, entry).1)
  }

  lemma TrackStart(block: seq<Byte>, recs: seq<Rec>, entry: New)
    requires Parse(block) == Some(recs) && |block| < U16 && entry.ino < U32
    ensures OnTrack(block, [], recs, recs, entry) && |Flat(recs)| == |block|
  {
    hide LinkRecs, Parse;
    FlatParse(block);
    NoBytes([]);
    assert [] + LinkRecs(recs, entry).0 == LinkRecs(recs, entry).0;
  }

  /** What the checks of the scan see. */
  lemma TrackFields(buf: seq<Byte>, pre: seq<Rec>, todo: seq<Rec>, recs: seq<Rec>, entry: New)
    requires OnTrack(buf, pre, todo, recs, entry) && |Flat(pre)| < |buf|
    ensures var off := |Flat(pre)|;
      todo != [] && off + 8 <= |buf| && 8 <= Get16(buf, off + 4) && off + Get16(buf, off + 4) <= |buf|
      && Get16(buf, off + 4) % 4 == 0 && Get16(buf, off + 6) % 256 + 8 <= Get16(buf, off + 4)
  {
    hide LinkRecs, Flat, Get16;
    if todo == [] {
      NoBytes(todo);
    } else {
      LaidFirst(buf, pre, todo);
      assert Proper(todo[0]);
    }
  }

  lemma NoLink(entry: New)
    requires entry.ino < U32
    ensures LinkRecs([], entry) == ([], false)
  {
  }

  lemma TrackEnd(buf: seq<Byte>, pre: seq<Rec>, todo: seq<Rec>, recs: seq<Rec>, entry: New)
    requires OnTrack(buf, pre, todo, recs, entry) && |Flat(pre)| >= |buf|
    ensures Parse(buf) == Some(LinkRecs(recs, entry).0) && !LinkRecs(recs, entry).1
  {
    hide Flat, Parse, LinkRecs;
    if todo != [] {
      LaidFirst(buf, pre, todo);
    } else {
      NoBytes(todo);
      NoLink(entry);
      assert pre + [] == pre;
      assert buf == Flat(pre);
      ParseFlat(pre);
    }
  }

  /** The step over a record without room. */
  lemma TrackOver(buf0: seq<Byte>, buf: seq<Byte>, pre: seq<Rec>, todo: seq<Rec>, recs: seq<Rec>, entry: New)
    requires OnTrack(buf0, pre, todo, recs, entry) && todo != [] && |buf| == |buf0|
    requires !Room(Absorb(todo)[0], RecLen(|entry.name|)) && Laid(buf, pre, Absorb(todo))
    ensures var t := Absorb(todo); OnTrack(buf, pre + [t[0]], t[1..], recs, entry) && TookStep(buf, pre, t[0])
  {
    hide Flat, Get16, Room, RecLen, Absorb;
    var t := Absorb(todo);
    AbsorbLength(todo);
    FlatFirst(t);
    LaidFirst(buf, pre, t);
    assert pre + ([t[0]] + LinkRecs(t[1..], entry).0) == pre + [t[0]] + LinkRecs(t[1..], entry).0;
  }

  ghost predicate TookStep(buf: seq<Byte>, pre: seq<Rec>, r: Rec) {
    AllProper(pre) && AllProper(pre + [r]) && |Flat(pre)| + 6 <= |buf|
    && Get16(buf, |Flat(pre)| + 4) == Len(r) && |Flat(pre + [r])| == |Flat(pre)| + Len(r) <= |buf|
  }

  /** The step over the front part of a record that was split. */
  lemma TrackSplit(buf0: seq<Byte>, buf: seq<Byte>, pre: seq<Rec>, todo: seq<Rec>, recs: seq<Rec>, entry: New)
    requires OnTrack(buf0, pre, todo, recs, entry) && todo != [] && |buf| == |buf0|
    requires var t := Absorb(todo); Room(t[0], RecLen(|entry.name|)) && t[0].ino != 0 && Laid(buf, pre, [Front(t[0]), Back(t[0])] + t[1..])
    ensures var t := Absorb(todo);
      OnTrack(buf, pre + [Front(t[0])], [Back(t[0])] + t[1..], recs, entry) && TookStep(buf, pre, Front(t[0]))
  {
    hide Flat, Get16, RecLen, Absorb, Front, Back, LinkRecs, Room, Proper;
    var t := Absorb(todo);
    AbsorbLength(todo);
    FlatFirst(t);
    LinkSplit(todo, entry);
    var u := [Front(t[0]), Back(t[0])] + t[1..];
    LaidFirst(buf, pre, u);
    assert u[0] == Front(t[0]) && u[1..] == [Back(t[0])] + t[1..];
    assert pre + ([Front(t[0])] + LinkRecs(u[1..], entry).0) == pre + [Front(t[0])] + LinkRecs(u[1..], entry).0;
  }

  lemma LinkSplit(todo: seq<Rec>, entry: New)
    requires AllProper(todo) && todo != [] && |Flat(todo)| < U16 && entry.ino < U32
    requires Room(Absorb(todo)[0], RecLen(|entry.name|)) && Absorb(todo)[0].ino != 0
    ensures var t := Absorb(todo);
      && Len(t[0]) >= RecLen(t[0].nameLen % 256) + 8 && AllProper([Back(t[0])] + t[1..]) && |Flat([Back(t[0])] + t[1..])| < U16
      && LinkRecs(todo, entry) == ([Front(t[0])] + LinkRecs([Back(t[0])] + t[1..], entry).0, LinkRecs([Back(t[0])] + t[1..], entry).1)
  {
    hide Flat, RecLen, Absorb, Front, Back, Proper;
    var t := Absorb(todo);
    AbsorbLength(todo);
    FlatFirst(t);
    SplitRec(t[0]);
    Cons(Back(t[0]), t[1..]);
  }

  lemma TrackFill(buf0: seq<Byte>, buf: seq<Byte>, pre: seq<Rec>, todo: seq<Rec>, recs: seq<Rec>, entry: New)
    requires OnTrack(buf0, pre, todo, recs, entry) && todo != []
    requires var t := Absorb(todo); Room(t[0], RecLen(|entry.name|)) && t[0].ino == 0 && Laid(buf, pre, [Fill(t[0], entry)] + t[1..])
    ensures Parse(buf) == Some(LinkRecs(recs, entry).0) && LinkRecs(recs, entry).1
  {
    hide Flat, RecLen, Absorb, Fill, Parse;
    var t := Absorb(todo);
    var u := [Fill(t[0], entry)] + t[1..];
    AbsorbLength(todo);
    FlatFirst(t);
    FlatConcat(pre, u);
    ParseFlat(pre + u);
  }

  /** ext2fs_process_dir_block with link_proc: on a block that is tiled by proper records, exactly
      the changes of LinkRecs; a block found corrupt is not written back. */
  method LinkBlock(block: seq<Byte>, entry: New) returns (status: Status, after: seq<Byte>)
    requires |block| < U16 && entry.ino < U32
    ensures |after| == |block| && (status == Corrupted ==> after == block)
    ensures Parse(block).Some? ==>
      (status == Continued || status == Linked) && |Flat(Parse(block).value)| < U16
    ensures Parse(block).Some? ==> Parse(after) == Some(LinkRecs(Parse(block).value, entry).0)
    ensures Parse(block).Some? ==> (status == Linked <==> LinkRecs(Parse(block).value, entry).1)
  {
    hide Flat, Parse, LinkRecs, Absorb, Get16, Encode, Front, Back, Fill, Room, OnTrack, Laid;
    ghost var fine := Parse(block).Some?;
    ghost var recs := if fine then Parse(block).value else [];
    ghost var pre: seq<Rec>, todo: seq<Rec> := [], recs;
    var scan := new LinkScan(entry, block);
    var offset := 0;
    NoBytes([]);
    if fine {
      TrackStart(block, recs, entry);
    }
    while offset < |block|
      invariant |scan.buf| == |block| && !scan.done
      invariant fine ==> OnTrack(scan.buf, pre, todo, recs, entry)
      invariant fine ==> AllProper(pre) && offset == |Flat(pre)|
    {
      ghost var buf0 := scan.buf;
      if fine {
        TrackFields(buf0, pre, todo, recs, entry);
      }
      if offset + 8 > |block| {
        return Corrupted, block;
      }
      var len := Get16(scan.buf, offset + 4);
      if offset + len > |block| || len < 8 || len % 4 != 0 || Get16(scan.buf, offset + 6) % 256 + 8 > len {
        return Corrupted, block;
      }
      if fine {
        TrackLaid(buf0, pre, todo, recs, entry);
      }
      var ret := scan.LinkProc(offset, fine, pre, todo);
      if fine {
        ghost var t := Absorb(todo);
        if !Room(t[0], RecLen(|entry.name|)) {
          TrackOver(buf0, scan.buf, pre, todo, recs, entry);
          pre, todo := pre + [t[0]], t[1..];
        } else if t[0].ino != 0 {
          TrackSplit(buf0, scan.buf, pre, todo, recs, entry);
          pre, todo := pre + [Front(t[0])], [Back(t[0])] + t[1..];
        } else {
          TrackFill(buf0, scan.buf, pre, todo, recs, entry);
        }
      }
      if ret.abort {
        return if scan.done then Linked else Invalid, scan.buf;
      }
      len := Get16(scan.buf, offset + 4);
      offset := offset + len;
    }
    if fine {
      TrackEnd(scan.buf, pre, todo, recs, entry);
    }
    return Continued, scan.buf;
  }

  lemma TrackLaid(buf: seq<Byte>, pre: seq<Rec>, todo: seq<Rec>, recs: seq<Rec>, entry: New)
    requires OnTrack(buf, pre, todo, recs, entry)
    ensures Laid(buf, pre, todo) && AllProper(todo) && |Flat(todo)| < U16
  {
  }

  // ---------- A whole directory ----------

  /** The names of a directory: of all its blocks together. */
  ghost function Names(blocks: seq<seq<Byte>>): multiset<Entry> {
    if blocks == [] then multiset{} else BlockNames(blocks[0]) + Names(blocks[1..])
  }

  ghost function BlockNames(block: seq<Byte>): multiset<Entry> {
    match Parse(block)
    case None => multiset{}
    case Some(recs) => Live(recs)
  }

  ghost predicate Tiled(blocks: seq<seq<Byte>>) {
    forall i | 0 <= i < |blocks| :: |blocks[i]| < U16 && Parse(blocks[i]).Some?
  }

  lemma {:induction false} NamesUpdated(blocks: seq<seq<Byte>>, i: nat, block: seq<Byte>, more: multiset<Entry>)
    requires i < |blocks| && BlockNames(block) == BlockNames(blocks[i]) + more
    ensures Names(blocks[i := block]) == Names(blocks) + more
  {
    hide BlockNames;
    if i == 0 {
      assert blocks[i := block][1..] == blocks[1..];
    } else {
      NamesUpdated(blocks[1..], i - 1, block, more);
      assert blocks[i := block][1..] == blocks[1..][i - 1 := block];
    }
  }

  /** No room for a name of n bytes. */
  ghost predicate Full(block: seq<Byte>, n: nat) {
    match Parse(block)
    case None => false
    case Some(recs) => Crowded(recs, (n + 11) / 4 * 4)
  }

  /** No record has room for a name of n bytes. */
  ghost predicate Short(block: seq<Byte>, n: nat) {
    match Parse(block)
    case None => false
    case Some(recs) => forall r | r in recs :: TooShort(r, Len(r), (n + 11) / 4 * 4)
  }

  /** The name is in the first record that has room. */
  ghost predicate Took(block: seq<Byte>, entry: New) {
    match Parse(block)
    case None => false
    case Some(recs) => exists k :: FirstAt(recs, k, entry)
  }

  datatype LinkResult = Added | NoSpaceLeft | BadDirectory

  class Dir {
    var blocks: seq<seq<Byte>>

    constructor (blocks: seq<seq<Byte>>)
      ensures this.blocks == blocks
    {
      this.blocks := blocks;
    }

    /** ext2fs_link, over the data blocks of the directory in logical order. */
    method Link(entry: New) returns (result: LinkResult)
      requires entry.ino < U32 && forall i | 0 <= i < |blocks| :: |blocks[i]| < U16
      modifies this
      ensures |blocks| == |old(blocks)| && forall i | 0 <= i < |blocks| :: |blocks[i]| == |old(blocks)[i]|
      ensures Tiled(old(blocks)) ==> result != BadDirectory && Tiled(blocks)
      ensures Tiled(old(blocks)) ==> Names(blocks) == Names(old(blocks)) + if result == Added then DirBlock.Added(entry) else multiset{}
      ensures Tiled(old(blocks)) && result == Added && |entry.name| <= 255 && entry.ino != 0 ==>
        Names(blocks) == Names(old(blocks)) + multiset{Entry(entry.name, entry.ino, if entry.hasType then entry.fileType % 8 else 0)}
      ensures Tiled(old(blocks)) ==> (result == NoSpaceLeft <==> forall i | 0 <= i < |blocks| :: Full(old(blocks)[i], |entry.name|))
      ensures Tiled(old(blocks)) && result == NoSpaceLeft ==> forall i | 0 <= i < |blocks| :: Short(blocks[i], |entry.name|)
      ensures Tiled(old(blocks)) && result == Added ==> exists i :: 0 <= i < |blocks| && Into(old(blocks), blocks, i, entry)
    {
      hide Parse, LinkRecs, Live, DirBlock.Added, Names, BlockNames, Full, Short, Took, Into;
      ghost var fine := Tiled(blocks);
      for i := 0 to |blocks|
        invariant |blocks| == |old(blocks)| && forall j | 0 <= j < |blocks| :: |blocks[j]| == |old(blocks)[j]|
        invariant fine ==> Tiled(blocks) && Names(blocks) == Names(old(blocks))
        invariant forall j | i <= j < |blocks| :: blocks[j] == old(blocks)[j]
        invariant fine ==> forall j | 0 <= j < i :: Full(old(blocks)[j], |entry.name|) && Short(blocks[j], |entry.name|)
      {
        ghost var before := blocks;
        var status, after := LinkBlock(blocks[i], entry);
        if fine {
          assert blocks[i] == old(blocks)[i];
          BlockLinked(blocks[i], after, entry, status);
          NamesUpdated(blocks, i, after, if status == Linked then DirBlock.Added(entry) else multiset{});
        }
        blocks := blocks[i := after];
        match status {
          case Continued =>
          case Linked =>
            if fine {
              WentInto(old(blocks), blocks, i, entry);
            }
            return Added;
          case Corrupted => return BadDirectory;
          case Invalid => return BadDirectory;
        }
      }
      return NoSpaceLeft;
    }

    /** ext2fs_lookup */
    method Lookup(name: seq<Byte>) returns (result: LookupResult)
      requires forall i | 0 <= i < |blocks| :: |blocks[i]| < U16
      ensures Tiled(blocks) && CString(name) ==> match result
        case Corrupt => false
        case NotFound => forall e | e in Names(blocks) :: e.name != name
        case Found(ino) => ino != 0 && exists k :: Entry(name, ino, k) in Names(blocks)
      ensures result == NotFound ==> Tiled(blocks)
    {
      hide Parse, Find, Live, Names, BlockNames;
      for i := 0 to |blocks|
        invariant forall j | 0 <= j < i :: |blocks[j]| < U16 && Parse(blocks[j]).Some?
        invariant Tiled(blocks) && CString(name) ==> forall j, e | 0 <= j < i && e in BlockNames(blocks[j]) :: e.name != name
      {
        result := LookupBlock(blocks[i], name);
        if Parse(blocks[i]).Some? && CString(name) {
          BlockFind(blocks[i], name);
          InNames(blocks, i);
        }
        if result != NotFound {
          return;
        }
      }
      if Tiled(blocks) && CString(name) {
        NotInNames(blocks, name);
      }
      return NotFound;
    }
  }

  /** No zero byte. */
  ghost predicate CString(name: seq<Byte>) { forall i | 0 <= i < |name| :: name[i] != 0 }

  lemma BlockFind(block: seq<Byte>, name: seq<Byte>)
    requires Parse(block).Some? && CString(name)
    ensures match Find(Parse(block).value, name)
      case None => forall e | e in BlockNames(block) :: e.name != name
      case Some(ino) => ino != 0 && exists k :: Entry(name, ino, k) in BlockNames(block)
  {
    hide Parse, Find, Live;
    FindExact(Parse(block).value, name);
  }

  lemma {:induction false} InNames(blocks: seq<seq<Byte>>, i: nat)
    requires i < |blocks|
    ensures forall e | e in BlockNames(blocks[i]) :: e in Names(blocks)
  {
    hide BlockNames;
    if i > 0 {
      InNames(blocks[1..], i - 1);
    }
  }

  lemma {:induction false} NotInNames(blocks: seq<seq<Byte>>, name: seq<Byte>)
    requires forall j, e | 0 <= j < |blocks| && e in BlockNames(blocks[j]) :: e.name != name
    ensures forall e | e in Names(blocks) :: e.name != name
  {
    hide BlockNames;
    if blocks != [] {
      forall j, e | 0 <= j < |blocks[1..]| && e in BlockNames(blocks[1..][j]) ensures e.name != name {
        assert blocks[1..][j] == blocks[j + 1];
      }
      NotInNames(blocks[1..], name);
    }
  }

  lemma BlockLinked(block: seq<Byte>, after: seq<Byte>, entry: New, status: Status)
    requires Parse(block).Some? && |Flat(Parse(block).value)| < U16 && entry.ino < U32
    requires Parse(after) == Some(LinkRecs(Parse(block).value, entry).0)
    requires status == Linked <==> LinkRecs(Parse(block).value, entry).1
    ensures BlockNames(after) == BlockNames(block) + if status == Linked then DirBlock.Added(entry) else multiset{}
    ensures status == Linked && |entry.name| <= 255 && entry.ino != 0 ==>
      DirBlock.Added(entry) == multiset{Entry(entry.name, entry.ino, if entry.hasType then entry.fileType % 8 else 0)}
    ensures status == Linked <==> !Full(block, |entry.name|)
    ensures if status == Linked then Took(after, entry) else Short(after, |entry.name|)
  {
    hide Parse, LinkRecs, Live, Flat, Crowded, TooShort, FirstAt, NameField;
    LinkKeeps(Parse(block).value, entry);
    LinkWhen(Parse(block).value, entry);
    LinkFirst(Parse(block).value, entry);
    if |entry.name| <= 255 {
      TypeField(entry);
      assert entry.name[..|entry.name| % 256] == entry.name;
    }
  }

  /** The name went into block i, the first that had room, and no later block was touched. */
  ghost predicate Into(before: seq<seq<Byte>>, after: seq<seq<Byte>>, i: nat, entry: New) {
    && |before| == |after| && i < |before| && Took(after[i], entry) && !Full(before[i], |entry.name|)
    && (forall j | 0 <= j < i :: Full(before[j], |entry.name|) && Short(after[j], |entry.name|))
    && (forall j | i < j < |before| :: after[j] == before[j])
  }

  lemma WentInto(before: seq<seq<Byte>>, after: seq<seq<Byte>>, i: nat, entry: New)
    requires |before| == |after| && i < |before| && Took(after[i], entry) && !Full(before[i], |entry.name|)
    requires forall j | 0 <= j < i :: Full(before[j], |entry.name|) && Short(after[j], |entry.name|)
    requires forall j | i < j < |before| :: after[j] == before[j]
    ensures exists i :: 0 <= i < |before| && Into(before, after, i, entry)
  {
    hide Full, Short, Took;
    assert Into(before, after, i, entry);
  }

  // ---------- Finding a name ----------

  /** strncmp over n bytes of two names: equal, or equal up to a zero byte. */
  predicate SameString(a: seq<Byte>, b: seq<Byte>)
    requires |a| == |b|
  {
    a == [] || (a[0] == b[0] && (a[0] == 0 || SameString(a[1..], b[1..])))
  }

  lemma {:induction false} SameStringExact(a: seq<Byte>, b: seq<Byte>)
    requires |a| == |b| && forall i | 0 <= i < |a| :: a[i] != 0
    ensures SameString(a, b) <==> a == b
  {
    if a != [] {
      SameStringExact(a[1..], b[1..]);
      assert a == [a[0]] + a[1..] && b == [b[0]] + b[1..];
    }
  }

  predicate Matches(r: Rec, name: seq<Byte>)
    requires Proper(r)
  {
    r.ino != 0 && |name| == r.nameLen % 256 && SameString(name, NameOf(r))
  }

  /** The inode of the first record that matches. */
  function Find(recs: seq<Rec>, name: seq<Byte>): Option<nat>
    requires AllProper(recs)
  {
    if recs == [] then None else if Matches(recs[0], name) then Some(recs[0].ino) else Find(recs[1..], name)
  }

  /** A C string of at most 255 bytes is found exactly when it is there, with an inode it is there with. */
  lemma {:induction false} FindExact(recs: seq<Rec>, name: seq<Byte>)
    requires AllProper(recs) && forall i | 0 <= i < |name| :: name[i] != 0
    ensures match Find(recs, name)
      case None => forall e | e in Live(recs) :: e.name != name
      case Some(ino) => ino != 0 && exists k :: Entry(name, ino, k) in Live(recs)
  {
    hide Encode, SameString;
    if recs != [] {
      FindExact(recs[1..], name);
      assert Proper(recs[0]);
      if |name| == recs[0].nameLen % 256 {
        SameStringExact(name, NameOf(recs[0]));
      }
    }
  }

  datatype LookupResult = Found(ino: nat) | NotFound | Corrupt

  /** ext2fs_process_dir_block with lookup_proc. */
  method LookupBlock(block: seq<Byte>, name: seq<Byte>) returns (result: LookupResult)
    requires |block| < U16
    ensures match Parse(block)
      case Some(recs) => result == (match Find(recs, name) case None => NotFound case Some(ino) => Found(ino))
      case None => result != NotFound
  {
    hide Get16, Get32, Flat, Encode, Parse, Find, SameString, Passed, Proper;
    var offset := 0;
    ghost var pre: seq<Rec> := [];
    PassStart(block, name);
    while offset < |block|
      invariant 0 <= offset <= |block| && Passed(block, offset, pre, name)
    {
      if offset + 8 > |block| {
        PassCorrupt(block, offset, pre, name);
        return Corrupt;
      }
      var len := Get16(block, offset + 4);
      if offset + len > |block| || len < 8 || len % 4 != 0 || Get16(block, offset + 6) % 256 + 8 > len {
        PassCorrupt(block, offset, pre, name);
        return Corrupt;
      }
      ghost var r := RecAt(block, offset, len);
      PassRec(block, offset, len);
      var ino, n := Get32(block, offset), Get16(block, offset + 6) % 256;
      if ino != 0 && |name| == n && SameString(name, block[offset + 8..offset + 8 + n]) {
        PassFound(block, offset, len, pre, name);
        return Found(ino);
      }
      PassOver(block, offset, len, pre, name);
      pre := pre + [r];
      offset := offset + len;
    }
    PassEnd(block, offset, pre, name);
    return NotFound;
  }

  /** Before `offset` the block is tiled, by records that do not match. */
  ghost predicate Passed(block: seq<Byte>, offset: nat, pre: seq<Rec>, name: seq<Byte>) {
    offset <= |block| && AllProper(pre) && Flat(pre) == block[..offset] && Find(pre, name) == None
  }

  ghost predicate HeaderAt(block: seq<Byte>, offset: nat, len: nat) {
    && offset + 8 <= |block| && len == Get16(block, offset + 4) && 8 <= len && offset + len <= |block|
    && len % 4 == 0 && Get16(block, offset + 6) % 256 + 8 <= len
  }

  ghost function RecAt(block: seq<Byte>, offset: nat, len: nat): Rec
    requires 8 <= len && offset + len <= |block|
  {
    Rec(Get32(block, offset), Get16(block, offset + 6), block[offset + 8..offset + len])
  }

  lemma PassStart(block: seq<Byte>, name: seq<Byte>)
    ensures Passed(block, 0, [], name)
  {
  }

  /** The record at offset is proper, and its bytes are there. */
  lemma PassRec(block: seq<Byte>, offset: nat, len: nat)
    requires HeaderAt(block, offset, len)
    ensures var r := RecAt(block, offset, len);
      && Proper(r) && Len(r) == len && Encode(r) == block[offset..offset + len]
      && NameOf(r) == block[offset + 8..offset + 8 + r.nameLen % 256]
  {
    hide Get16, Get32, Encode;
    var tail := block[offset..];
    TailFields(block, offset);
    HeaderOf(tail, len);
    var r := RecAt(block, offset, len);
    EncodeOf(r);
    assert tail[8..len] == r.body && tail[..len] == block[offset..offset + len];
    assert r.body[..r.nameLen % 256] == block[offset + 8..offset + 8 + r.nameLen % 256];
  }

  lemma TailFields(block: seq<Byte>, offset: nat)
    requires offset + 8 <= |block|
    ensures Get32(block[offset..], 0) == Get32(block, offset)
    ensures Get16(block[offset..], 4) == Get16(block, offset + 4) && Get16(block[offset..], 6) == Get16(block, offset + 6)
  {
  }

  lemma PassOver(block: seq<Byte>, offset: nat, len: nat, pre: seq<Rec>, name: seq<Byte>)
    requires Passed(block, offset, pre, name) && HeaderAt(block, offset, len)
    requires Proper(RecAt(block, offset, len)) && !Matches(RecAt(block, offset, len), name)
    ensures Passed(block, offset + len, pre + [RecAt(block, offset, len)], name)
  {
    hide Get16, Get32, Encode, Flat, Matches, RecAt;
    var r := RecAt(block, offset, len);
    PassRec(block, offset, len);
    FlatOne(r);
    FlatConcat(pre, [r]);
    assert block[..offset + len] == block[..offset] + block[offset..offset + len];
    FindConcat(pre, [r], name);
  }

  lemma {:induction false} FindConcat(a: seq<Rec>, b: seq<Rec>, name: seq<Byte>)
    requires AllProper(a) && AllProper(b)
    ensures AllProper(a + b) && Find(a + b, name) == if Find(a, name) == None then Find(b, name) else Find(a, name)
  {
    hide Matches, Proper;
    if a == [] {
      assert a + b == b;
    } else {
      FindConcat(a[1..], b, name);
      assert (a + b)[1..] == a[1..] + b;
    }
  }

  lemma PassEnd(block: seq<Byte>, offset: nat, pre: seq<Rec>, name: seq<Byte>)
    requires Passed(block, offset, pre, name) && offset == |block|
    ensures Parse(block) == Some(pre) && Find(pre, name) == None
  {
    hide Parse, Flat;
    assert block[..offset] == block;
    ParseFlat(pre);
  }

  /** The tiling of what follows completes the tiling of the block, if there is one. */
  lemma {:induction false} ParseAfter(pre: seq<Rec>, rest: seq<Byte>)
    requires AllProper(pre)
    ensures Parse(Flat(pre) + rest) == match Parse(rest) case None => None case Some(recs) => Some(pre + recs)
  {
    hide Parse, Encode, Proper, Flat;
    if pre == [] {
      NoBytes(pre);
      assert Flat(pre) + rest == rest;
      assert Parse(rest).Some? ==> pre + Parse(rest).value == Parse(rest).value;
    } else {
      FlatFirst(pre);
      Assoc(Encode(pre[0]), Flat(pre[1..]), rest);
      ParseStep(pre[0], Flat(pre[1..]) + rest);
      ParseAfter(pre[1..], rest);
      if Parse(rest).Some? {
        assert [pre[0]] + (pre[1..] + Parse(rest).value) == pre + Parse(rest).value;
      }
    }
  }

  lemma PassCorrupt(block: seq<Byte>, offset: nat, pre: seq<Rec>, name: seq<Byte>)
    requires Passed(block, offset, pre, name) && offset < |block|
    requires offset + 8 <= |block| ==> !HeaderAt(block, offset, Get16(block, offset + 4))
    ensures Parse(block) == None
  {
    hide Get16, Get32, Flat;
    var rest := block[offset..];
    assert block == block[..offset] + rest;
    ParseAfter(pre, rest);
    if offset + 8 <= |block| {
      TailFields(block, offset);
    }
  }

  lemma PassFound(block: seq<Byte>, offset: nat, len: nat, pre: seq<Rec>, name: seq<Byte>)
    requires Passed(block, offset, pre, name) && HeaderAt(block, offset, len)
    requires Proper(RecAt(block, offset, len)) && Matches(RecAt(block, offset, len), name)
    ensures Parse(block).Some? ==> Find(Parse(block).value, name) == Some(Get32(block, offset))
  {
    hide Get16, Get32, Flat, Matches;
    var r, rest := RecAt(block, offset, len), block[offset..];
    assert block == block[..offset] + rest;
    ParseAfter(pre, rest);
    TailFields(block, offset);
    if Parse(block).Some? {
      var recs := Parse(rest).value;
      assert recs[0] == r;
      FindConcat(pre, recs, name);
    }
  }

  /** A name that was absent, once linked, is found, with the inode it was linked with. */
  method LinkThenLookup(dir: Dir, entry: New) returns (result: LinkResult, found: LookupResult)
    requires entry.ino < U32 && entry.ino != 0 && |entry.name| <= 255 && CString(entry.name)
    requires Tiled(dir.blocks) && forall e | e in Names(dir.blocks) :: e.name != entry.name
    modifies dir
    ensures result == Added ==> found == Found(entry.ino)
    ensures result == NoSpaceLeft ==> found == NotFound
    ensures result != BadDirectory
  {
    hide Names, Parse, LinkRecs;
    result := dir.Link(entry);
    found := dir.Lookup(entry.name);
    assert entry.name[..|entry.name| % 256] == entry.name;
    if result == Added {
      assert Entry(entry.name, entry.ino, if entry.hasType then entry.fileType % 8 else 0) in Names(dir.blocks);
    }
  }
}
