/**
 Byte-granular device I/O over the sector cache (source/gekko_io.c).  The specification is the
 byte string of the partition.  The sector numbers the C code computes with floor and ceil on
 doubles are computed on integers here.
 */
module GekkoIo {
  import opened DiscCache

  /** Consecutive sectors as one byte string. */
  function Flat(sectors: seq<Sector>): seq<Byte> {
    if sectors == [] then [] else Flat(sectors[..|sectors| - 1]) + sectors[|sectors| - 1]
  }

  lemma {:induction false} FlatSize(sectors: seq<Sector>, size: nat)
    requires Sized(sectors, size)
    ensures |Flat(sectors)| == |sectors| * size
  {
    if sectors != [] {
      FlatSize(sectors[..|sectors| - 1], size);
      assert |sectors| * size == (|sectors| - 1) * size + size;
    }
  }

  lemma {:induction false} FlatAppend(a: seq<Sector>, b: seq<Sector>)
    ensures Flat(a + b) == Flat(a) + Flat(b)
  {
    if b == [] {
      assert a + b == a;
    } else {
      var n := |b| - 1;
      assert (a + b)[..|a + b| - 1] == a + b[..n];
      FlatAppend(a, b[..n]);
    }
  }

  lemma FlatOne(s: Sector)
    ensures Flat([s]) == s
  {
    assert [s][..0] == [];
  }

  /** A run of whole sectors is a run of bytes. */
  lemma FlatSlice(sectors: seq<Sector>, size: nat, i: nat, j: nat)
    requires Sized(sectors, size) && i <= j <= |sectors|
    ensures i * size <= j * size <= |Flat(sectors)| == |sectors| * size
    ensures Flat(sectors)[i * size..j * size] == Flat(sectors[i..j])
  {
    hide Flat;
    var a, b, c := sectors[..i], sectors[i..j], sectors[j..];
    assert sectors == a + b + c;
    FlatAppend(a, b);
    FlatAppend(a + b, c);
    FlatSize(a, size);
    FlatSize(b, size);
    FlatSize(c, size);
    FlatSize(sectors, size);
    assert i * size + (j - i) * size == j * size;
    assert j * size + (|sectors| - j) * size == |sectors| * size;
  }

  /** Replacing whole sectors replaces bytes. */
  lemma FlatSplice(sectors: seq<Sector>, size: nat, at: nat, part: seq<Sector>)
    requires Sized(sectors, size) && Sized(part, size) && at + |part| <= |sectors|
    ensures at * size + |Flat(part)| <= |Flat(sectors)|
    ensures Flat(Splice(sectors, at, part)) == Splice(Flat(sectors), at * size, Flat(part))
  {
    hide Flat, Splice;
    var a, m, c := sectors[..at], sectors[at..at + |part|], sectors[at + |part|..];
    assert sectors == a + m + c;
    FlatAppend(a, m);
    FlatAppend(a + m, c);
    FlatAppend(a, part);
    FlatAppend(a + part, c);
    FlatSize(a, size);
    FlatSize(m, size);
    FlatSize(part, size);
    SpliceMiddle(a, m, c, part);
    SpliceMiddle(Flat(a), Flat(m), Flat(c), Flat(part));
  }

  lemma SpliceMiddle<T>(a: seq<T>, m: seq<T>, c: seq<T>, part: seq<T>)
    requires |m| == |part|
    ensures Splice(a + m + c, |a|, part) == a + part + c
  {
  }

  /** A byte buffer as sectors. */
  function Chop(bytes: seq<Byte>, size: nat, n: nat): (r: seq<Sector>)
    requires |bytes| == n * size
    ensures |r| == n
    decreases n
  {
    if n == 0 then [] else
      assert n * size == (n - 1) * size + size;
      Chop(bytes[..(n - 1) * size], size, n - 1) + [bytes[(n - 1) * size..]]
  }

  lemma {:induction false} ChopFlat(bytes: seq<Byte>, size: nat, n: nat)
    requires |bytes| == n * size
    ensures Sized(Chop(bytes, size, n), size) && Flat(Chop(bytes, size, n)) == bytes
  {
    if n > 0 {
      assert n * size == (n - 1) * size + size;
      ChopFlat(bytes[..(n - 1) * size], size, n - 1);
      var r := Chop(bytes, size, n);
      assert r[..|r| - 1] == Chop(bytes[..(n - 1) * size], size, n - 1);
    }
  }

  /** memcpy(buffer + at, src, |src|) */
  method Copy(buffer: array<Byte>, at: nat, src: seq<Byte>)
    requires at + |src| <= buffer.Length
    modifies buffer
    ensures buffer[..] == Splice(old(buffer[..]), at, src)
  {
    forall i | 0 <= i < |src| {
      buffer[at + i] := src[i];
    }
    SpliceAt(old(buffer[..]), at, src);
  }

  lemma CeilDiv(x: nat, size: nat)
    requires size > 0 && x > 0
    ensures var n := (x + size - 1) / size; n > 0 && (n - 1) * size < x <= n * size
    ensures x % size == 0 ==> x == (x + size - 1) / size * size
  {
    var n := (x + size - 1) / size;
    assert x + size - 1 == n * size + (x + size - 1) % size;
    assert (n - 1) * size == n * size - size;
    if x % size == 0 {
      assert x == x / size * size;
      Sandwich(x / size, n, size);
    }
  }

  lemma Sandwich(q: nat, n: nat, size: nat)
    requires size > 0 && (n - 1) * size < q * size <= n * size
    ensures q == n
  {
    if q < n {
      Mono(q, n - 1, size);
    } else if q > n {
      Mono(n + 1, q, size);
    }
  }

  lemma Mono(x: int, y: int, size: nat)
    requires x <= y
    ensures x * size <= y * size
  {
  }

  /** How many sectors the bytes [bo, bo + count) of a buffer touch. */
  function SectorSpan(bo: nat, count: nat, size: nat): nat
    requires size > 0
  {
    if bo + count > size then (bo + count + size - 1) / size else 1
  }

  lemma SpanCovers(bo: nat, count: nat, size: nat)
    requires bo < size && count > 0
    ensures var n := SectorSpan(bo, count, size);
      && n > 0
      && (n - 1) * size < bo + count <= n * size
      && ((bo + count) % size == 0 ==> bo + count == n * size)
  {
    if bo + count > size {
      CeilDiv(bo + count, size);
    } else {
      assert 1 * size == size && 0 * size == 0;
      if bo + count < size {
        assert (bo + count) % size == bo + count;
      }
    }
  }

  lemma DivMod(offset: nat, size: nat)
    requires size > 0
    ensures offset == offset / size * size + offset % size
  {
  }

  /** A byte range of the partition lies within it exactly when its sectors do. */
  lemma FitsIff(first: nat, bo: nat, count: nat, n: nat, total: nat, size: nat)
    requires size > 0 && bo < size && n > 0 && (n - 1) * size < bo + count <= n * size
    ensures first + n <= total <==> first * size + bo + count <= total * size
  {
    assert first * size + n * size == (first + n) * size;
    assert (n - 1) * size == n * size - size;
    if first + n <= total {
      Mono(first + n, total, size);
    } else {
      Mono(total + 1, first + n, size);
      assert (total + 1) * size == total * size + size;
    }
  }

  /** Reading n whole sectors and cutting out [bo, bo + count) reads those bytes. */
  lemma CutOut(part: seq<Sector>, size: nat, first: nat, n: nat, bo: nat, count: nat)
    requires Sized(part, size) && first + n <= |part| && bo + count <= n * size
    ensures |Flat(part[first..first + n])| == n * size
    ensures first * size + bo + count <= |Flat(part)|
    ensures Flat(part[first..first + n])[bo..bo + count] == Flat(part)[first * size + bo..first * size + bo + count]
  {
    hide Flat;
    FlatSlice(part, size, first, first + n);
    FlatSize(part[first..first + n], size);
    assert first * size + n * size == (first + n) * size;
    var f := Flat(part);
    var lo, hi := first * size, (first + n) * size;
    assert f[lo..hi][bo..bo + count] == f[lo + bo..lo + bo + count];
  }

  /** Writing back n whole sectors whose bytes agree with the old ones outside [bo, bo + count)
      writes exactly those bytes. */
  lemma PasteIn(part: seq<Sector>, size: nat, first: nat, n: nat, bo: nat, data: seq<Byte>, buffer: seq<Byte>)
    requires Sized(part, size) && first + n <= |part| && bo + |data| <= n * size == |buffer|
    requires |Flat(part[first..first + n])| == n * size
    requires forall i | 0 <= i < n * size && !(bo <= i < bo + |data|) :: buffer[i] == Flat(part[first..first + n])[i]
    requires forall i | 0 <= i < |data| :: buffer[bo + i] == data[i]
    ensures first * size + bo + |data| <= |Flat(part)|
    ensures Flat(Splice(part, first, Chop(buffer, size, n))) == Splice(Flat(part), first * size + bo, data)
  {
    hide Flat, Chop, Splice;
    ChopFlat(buffer, size, n);
    FlatSplice(part, size, first, Chop(buffer, size, n));
    CutOut(part, size, first, n, 0, n * size);
    var f, m, lo := Flat(part), Flat(part[first..first + n]), first * size;
    assert m == f[lo..lo + n * size];
    SpliceAt(f, lo, buffer);
    SpliceAt(f, lo + bo, data);
    var x, y := Splice(f, lo, buffer), Splice(f, lo + bo, data);
    forall i | 0 <= i < |f| ensures x[i] == y[i] {
      if lo <= i < lo + n * size && !(bo <= i - lo < bo + |data|) {
        assert buffer[i - lo] == m[i - lo] == f[i];
      }
    }
  }

  class GekkoDevice {
    const disc: Disc
    /** Null when the device is used without a cache. */
    const cache: Cache?
    const startSector: nat
    const sectorCount: nat
    const sectorSize: nat
    const readWrite: bool

    /** The part of device_gekko_io_open that sets up the geometry and the cache. */
    constructor (disc: Disc, cached: bool, pages: nat, sectorsPerPage: nat, startSector: nat, sectorCount: nat, sectorSize: nat, readWrite: bool)
      requires sectorSize > 0 && Sized(disc.sectors, sectorSize)
      requires startSector + sectorCount <= |disc.sectors| && startSector + sectorCount <= UINT_MAX
      ensures Valid() && View() == disc.sectors && fresh(Repr() - {disc})
      ensures this.startSector == startSector && this.sectorCount == sectorCount && this.sectorSize == sectorSize
      ensures this.readWrite == readWrite && this.disc == disc && (cache != null <==> cached && pages > 0 && sectorsPerPage > 0)
    {
      this.disc := disc;
      this.startSector, this.sectorCount, this.sectorSize := startSector, sectorCount, sectorSize;
      this.readWrite := readWrite;
      if cached && pages > 0 && sectorsPerPage > 0 {
        cache := new Cache(pages, sectorsPerPage, disc, startSector + sectorCount, sectorSize);
      } else {
        cache := null;
      }
    }

    ghost function Repr(): set<object> {
      {disc} + (if cache == null then {} else {cache, cache.entries})
    }

    ghost predicate Valid()
      reads Repr()
    {
      && sectorSize > 0
      && startSector + sectorCount <= |View()|
      && Sized(View(), sectorSize)
      && (cache != null ==> && cache.disc == disc && cache.Valid()
                            && cache.g.end == startSector + sectorCount && cache.g.sectorSize == sectorSize)
    }

    /** What the disc reads as, through the cache if there is one. */
    ghost function View(): seq<Sector>
      reads Repr()
    {
      if cache == null then disc.sectors else cache.view
    }

    ghost function Partition(): seq<Sector>
      requires Valid()
      reads Repr()
    {
      View()[startSector..startSector + sectorCount]
    }

    /** The abstract state: the bytes of the partition. */
    ghost function Bytes(): seq<Byte>
      requires Valid()
      reads Repr()
    {
      Flat(Partition())
    }

    /** device_gekko_io_readsectors */
    method ReadSectors(sector: nat, num: nat) returns (dest: seq<Sector>)
      requires Valid() && sector + num <= startSector + sectorCount
      modifies Repr()
      ensures Valid() && View() == old(View())
      ensures dest == View()[sector..sector + num]
    {
      if cache != null {
        dest := cache.ReadSectors(sector, num);
      } else {
        dest := disc.ReadSectors(sector, num);
      }
    }

    /** device_gekko_io_writesectors */
    method WriteSectors(sector: nat, buf: seq<Sector>)
      requires Valid() && sector + |buf| <= startSector + sectorCount
      requires Sized(buf, sectorSize)
      modifies Repr()
      ensures Valid() && sector + |buf| <= |old(View())|
      ensures View() == Splice(old(View()), sector, buf)
    {
      SpliceAt(View(), sector, buf);
      if cache != null {
        cache.WriteSectors(sector, buf);
      } else {
        disc.WriteSectors(sector, buf);
      }
    }

    lemma PartitionSize()
      requires Valid()
      ensures |Bytes()| == sectorCount * sectorSize
      ensures Sized(Partition(), sectorSize)
    {
      FlatSize(Partition(), sectorSize);
    }

    /** The sector range of both byte operations, relative to the partition start, and the limit check. */
    method Locate(offset: nat, count: nat) returns (fits: bool, first: nat, secCount: nat, bo: nat)
      requires Valid() && count > 0
      ensures fits <==> offset + count <= |Bytes()|
      ensures fits ==> first + secCount <= sectorCount
      ensures first * sectorSize + bo == offset && bo < sectorSize
      ensures secCount > 0 && (secCount - 1) * sectorSize < bo + count <= secCount * sectorSize
      ensures (bo + count) % sectorSize == 0 ==> bo + count == secCount * sectorSize
    {
      hide Flat, SectorSpan, Ok, Sized;
      PartitionSize();
      bo := offset % sectorSize;
      first := offset / sectorSize;
      DivMod(offset, sectorSize);
      secCount := SectorSpan(bo, count, sectorSize);
      SpanCovers(bo, count, sectorSize);
      FitsIff(first, bo, count, secCount, sectorCount, sectorSize);
      fits := startSector + first + secCount <= startSector + sectorCount;
    }

    /** The byte range starts and ends on sector boundaries. */
    predicate Aligned(bo: nat, count: nat)
      requires sectorSize > 0
    {
      bo == 0 && count % sectorSize == 0
    }

    lemma AlignedRange(bo: nat, count: nat, secCount: nat)
      requires sectorSize > 0 && Aligned(bo, count)
      requires (bo + count) % sectorSize == 0 ==> bo + count == secCount * sectorSize
      ensures bo == 0 && count == secCount * sectorSize
    {
    }

    /** device_gekko_io_readbytes */
    method ReadBytes(offset: int, count: nat) returns (ret: int, buf: seq<Byte>)
      requires Valid()
      modifies Repr()
      ensures Valid() && View() == old(View())
      ensures ret == if offset < 0 then -1
                     else if count == 0 || offset + count <= |Bytes()| then count else -1
      ensures ret > 0 ==> buf == Bytes()[offset..offset + count]
    {
      hide Flat, Ok, Sized, Aligned;
      buf := [];
      if offset < 0 {
        return -1, [];
      }
      if count == 0 {
        return 0, [];
      }
      var fits, first, secCount, bo := Locate(offset, count);
      if !fits {
        return -1, [];
      }
      PartitionSize();
      ghost var part := Partition();
      CutOut(part, sectorSize, first, secCount, bo, count);
      SliceSlice(View(), startSector, startSector + sectorCount, first, first + secCount);
      var dest := ReadSectors(startSector + first, secCount);
      if Aligned(bo, count) {
        AlignedRange(bo, count, secCount);
        buf := Flat(dest);
        assert buf == buf[0..count];
      } else {
        var buffer := Flat(dest);
        buf := buffer[bo..bo + count];
      }
      ret := count;
    }

    /** device_gekko_io_writebytes */
    method WriteBytes(offset: int, buf: seq<Byte>) returns (ret: int)
      requires Valid()
      modifies Repr()
      ensures Valid() && |Bytes()| == |old(Bytes())| && |View()| == |old(View())|
      ensures ret == if !readWrite || offset < 0 then -1
                     else if buf == [] || offset + |buf| <= |Bytes()| then |buf| else -1
      ensures Bytes() == if ret > 0 then Splice(old(Bytes()), offset, buf) else old(Bytes())
      ensures forall s | 0 <= s < |View()| && !(startSector <= s < startSector + sectorCount) :: View()[s] == old(View()[s])
    {
      hide Flat, Splice, Chop, Ok, Sized, Aligned;
      if !readWrite {
        return -1;
      }
      if offset < 0 {
        return -1;
      }
      var count := |buf|;
      if count == 0 {
        return 0;
      }
      var fits, first, secCount, bo := Locate(offset, count);
      if !fits {
        return -1;
      }
      PartitionSize();
      var secStart := startSector + first;
      ghost var part := Partition();
      CutOut(part, sectorSize, first, secCount, 0, secCount * sectorSize);
      var bytes;
      if Aligned(bo, count) {
        AlignedRange(bo, count, secCount);
        bytes := buf;
      } else {
        bytes := FillBuffer(first, secCount, bo, buf);
      }
      PasteIn(part, sectorSize, first, secCount, bo, buf, bytes);
      ChopFlat(bytes, sectorSize, secCount);
      ghost var view := View();
      WriteSectors(secStart, Chop(bytes, sectorSize, secCount));
      PartitionSplice(view, startSector, sectorCount, first, Chop(bytes, sectorSize, secCount));
      PartitionSize();
      ret := count;
    }

    /** Reading one sector of the run into its place in the buffer. */
    method ReadEdge(first: nat, secCount: nat, j: nat, buffer: array<Byte>)
      requires Valid() && first + secCount <= sectorCount && j < secCount
      requires buffer.Length == secCount * sectorSize && buffer !in Repr()
      modifies Repr(), buffer
      ensures Valid() && View() == old(View())
      ensures 0 <= j * sectorSize && j * sectorSize + sectorSize <= buffer.Length == |Flat(Partition()[first..first + secCount])|
      ensures forall i | 0 <= i < buffer.Length ::
        buffer[i] == if j * sectorSize <= i < j * sectorSize + sectorSize
                     then Flat(Partition()[first..first + secCount])[i] else old(buffer[i])
    {
      hide Flat, Splice, Ok, Sized;
      PartitionSize();
      ghost var run := Partition()[first..first + secCount];
      RunSector(run, j);
      var sector := ReadSectors(startSector + first + j, 1);
      assert sector[0] == run[j];
      ghost var was := buffer[..];
      SpliceAt(was, j * sectorSize, sector[0]);
      Copy(buffer, j * sectorSize, sector[0]);
      assert forall i | 0 <= i < buffer.Length :: buffer[i] == buffer[..][i];
    }

    lemma RunSector(run: seq<Sector>, j: nat)
      requires j < |run| && Sized(run, sectorSize)
      ensures j * sectorSize + sectorSize <= |run| * sectorSize == |Flat(run)|
      ensures run[j] == Flat(run)[j * sectorSize..j * sectorSize + sectorSize]
    {
      FlatSlice(run, sectorSize, j, j + 1);
      FlatOne(run[j]);
      assert run[j..j + 1] == [run[j]];
      assert (j + 1) * sectorSize == j * sectorSize + sectorSize;
    }

    /** The unaligned case: a fresh buffer takes the old first and last sector where the data does
        not reach, then the data. */
    method FillBuffer(first: nat, secCount: nat, bo: nat, data: seq<Byte>) returns (bytes: seq<Byte>)
      requires Valid() && first + secCount <= sectorCount && secCount > 0 && bo < sectorSize
      requires (secCount - 1) * sectorSize < bo + |data| <= secCount * sectorSize
      requires (bo + |data|) % sectorSize == 0 ==> bo + |data| == secCount * sectorSize
      modifies Repr()
      ensures Valid() && View() == old(View())
      ensures |bytes| == secCount * sectorSize == |Flat(Partition()[first..first + secCount])|
      ensures forall i | 0 <= i < |data| :: bytes[bo + i] == data[i]
      ensures forall i | 0 <= i < |bytes| && !(bo <= i < bo + |data|) ::
                bytes[i] == Flat(Partition()[first..first + secCount])[i]
    {
      hide Flat, Splice, Ok, Sized;
      PartitionSize();
      ghost var run := Partition()[first..first + secCount];
      RunSector(run, 0);
      RunSector(run, secCount - 1);
      var buffer := new Byte[secCount * sectorSize];
      if bo != 0 {
        ReadEdge(first, secCount, 0, buffer);
      }
      if (bo + |data|) % sectorSize != 0 {
        ReadEdge(first, secCount, secCount - 1, buffer);
      }
      SpliceAt(buffer[..], bo, data);
      Copy(buffer, bo, data);
      bytes := buffer[..];
    }
  }

  lemma PartitionSplice(view: seq<Sector>, start: nat, count: nat, first: nat, part: seq<Sector>)
    requires start + count <= |view| && first + |part| <= count
    ensures Splice(view, start + first, part)[start..start + count] == Splice(view[start..start + count], first, part)
    ensures forall s | 0 <= s < |view| && !(start <= s < start + count) :: Splice(view, start + first, part)[s] == view[s]
  {
    SpliceAt(view, start + first, part);
    SpliceAt(view[start..start + count], first, part);
  }
}
