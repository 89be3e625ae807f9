/**
 The write-back sector cache of source/disc_cache.c over a device that does not fail.

 Buffers are sequences of sectors.  The specification is a flat array of sectors: `View`, the
 device overlaid with the loaded pages.
 */
module DiscCache {

  type Byte = x: int | 0 <= x < 256
  type Sector = seq<Byte>

  const UINT_MAX: nat := 0xFFFF_FFFF
  /** Marks a page that holds nothing. */
  const CACHE_FREE: nat := UINT_MAX

  /** The disc interface: readSectors and writeSectors on a fixed number of sectors. */
  class Disc {
    var sectors: seq<Sector>

    constructor (sectors: seq<Sector>)
      ensures this.sectors == sectors
    {
      this.sectors := sectors;
    }

    method ReadSectors(sector: nat, count: nat) returns (buf: seq<Sector>)
      requires sector + count <= |sectors|
      ensures buf == sectors[sector..sector + count]
    {
      buf := sectors[sector..sector + count];
    }

    method WriteSectors(sector: nat, buf: seq<Sector>)
      requires sector + |buf| <= |sectors|
      modifies this
      ensures sectors == Splice(old(sectors), sector, buf)
    {
      sectors := Splice(sectors, sector, buf);
    }
  }

  /** s with the elements from `at` on replaced by `part`. */
  function Splice<T>(s: seq<T>, at: nat, part: seq<T>): (r: seq<T>)
    requires at + |part| <= |s|
    ensures |r| == |s|
  {
    s[..at] + part + s[at + |part|..]
  }

  lemma SpliceAt<T>(s: seq<T>, at: nat, part: seq<T>)
    requires at + |part| <= |s|
    ensures forall i | 0 <= i < |s| :: Splice(s, at, part)[i] == if at <= i < at + |part| then part[i - at] else s[i]
  {
  }

  /** A cache entry with its page buffer. */
  datatype Page = Page(sector: nat, count: nat, lastAccess: nat, dirty: bool, data: seq<Sector>) {
    predicate Free() { sector == CACHE_FREE }

    predicate Covers(s: nat) { sector <= s < sector + count }
  }

  datatype Geometry = Geometry(end: nat, sectorsPerPage: nat, sectorSize: nat)

  /** The sector count of the page based at `base`: the last page of the partition may be short. */
  function PageCount(g: Geometry, base: nat): nat
    requires base < g.end
  {
    if base + g.sectorsPerPage > g.end then g.end - base else g.sectorsPerPage
  }

  ghost predicate Sized(sectors: seq<Sector>, size: nat) {
    forall i | 0 <= i < |sectors| :: |sectors[i]| == size
  }

  /** A loaded page is base-aligned, counted to the end of the partition, and holds what its
      sectors currently read as. */
  ghost predicate PageOk(g: Geometry, p: Page, view: seq<Sector>)
    requires g.end <= |view| && g.sectorsPerPage > 0
  {
    && p.lastAccess <= UINT_MAX
    && if p.Free() then p.count == 0 && !p.dirty else
         && Aligned(p.sector, g.sectorsPerPage)
         && p.sector < g.end
         && p.count == PageCount(g, p.sector)
         && p.data == view[p.sector..p.sector + p.count]
  }

  ghost predicate DirtyAt(pages: seq<Page>, s: nat) {
    exists i :: 0 <= i < |pages| && pages[i].dirty && pages[i].Covers(s)
  }

  ghost predicate Distinct(pages: seq<Page>) {
    forall i, j | 0 <= i < j < |pages| && !pages[i].Free() :: pages[i].sector != pages[j].sector
  }

  /** `view` is what the cache over the device reads as: loaded pages hold their part of it, and
      the device holds it wherever no dirty page does. */
  ghost predicate Ok(g: Geometry, pages: seq<Page>, disc: seq<Sector>, view: seq<Sector>) {
    && g.sectorsPerPage > 0
    && g.end <= |disc| == |view| && g.end <= CACHE_FREE
    && Sized(view, g.sectorSize)
    && (forall i | 0 <= i < |pages| :: PageOk(g, pages[i], view))
    && Distinct(pages)
    && (forall s: nat | s < |disc| && !DirtyAt(pages, s) :: disc[s] == view[s])
  }

  predicate Aligned(b: nat, n: nat) { n > 0 && b % n == 0 }

  /** The first sector of the page that holds `sector`. */
  function PageBase(g: Geometry, sector: nat): nat
    requires g.sectorsPerPage > 0
  {
    sector / g.sectorsPerPage * g.sectorsPerPage
  }

  lemma AlignedDisjoint(a: nat, b: nat, n: nat, s: nat)
    requires Aligned(a, n) && Aligned(b, n) && a <= s < a + n && b <= s < b + n
    ensures a == b
  {
    if a < b {
      AlignedApart(a, b, n);
    } else if b < a {
      AlignedApart(b, a, n);
    }
  }

  lemma AlignedApart(a: nat, b: nat, n: nat)
    requires Aligned(a, n) && Aligned(b, n) && a < b
    ensures a + n <= b
  {
    var x, y := a / n, b / n;
    assert a == x * n + a % n && b == y * n + b % n;
    if x >= y { MulMono(n, y, x); }
    MulMono(n, x + 1, y);
  }

  lemma MulMono(n: nat, x: nat, y: nat)
    requires x <= y
    ensures x * n <= y * n
  {
  }

  lemma AlignDown(g: Geometry, s: nat)
    requires g.sectorsPerPage > 0
    ensures Aligned(PageBase(g, s), g.sectorsPerPage)
    ensures PageBase(g, s) <= s < PageBase(g, s) + g.sectorsPerPage
  {
    var n := g.sectorsPerPage;
    assert s == n * (s / n) + s % n;
    ModMul(s / n, n);
  }

  lemma ModMul(q: nat, n: nat)
    requires n > 0
    ensures (q * n) % n == 0
  {
    var d := q * n / n;
    assert q * n == d * n + q * n % n;
    if d > q {
      MulMono(n, q + 1, d);
    }
    if d < q {
      MulMono(n, d + 1, q);
    }
  }

  /** Pages never overlap. */
  lemma OnePage(g: Geometry, pages: seq<Page>, disc: seq<Sector>, view: seq<Sector>, i: nat, j: nat, s: nat)
    requires Ok(g, pages, disc, view) && i < |pages| && j < |pages|
    requires pages[i].Covers(s) && pages[j].Covers(s)
    ensures i == j
  {
    assert PageOk(g, pages[i], view) && PageOk(g, pages[j], view);
    AlignedDisjoint(pages[i].sector, pages[j].sector, g.sectorsPerPage, s);
  }

  /** A loaded page's data is the view's. */
  lemma PageData(g: Geometry, p: Page, view: seq<Sector>, s: nat)
    requires g.end <= |view| && g.sectorsPerPage > 0 && PageOk(g, p, view) && p.Covers(s)
    ensures s < |view| && s - p.sector < |p.data| && p.data[s - p.sector] == view[s]
  {
    hide Aligned;
  }

  /** Pages and device determine the view. */
  lemma ViewUnique(g: Geometry, pages: seq<Page>, disc: seq<Sector>, v1: seq<Sector>, v2: seq<Sector>)
    requires Ok(g, pages, disc, v1) && Ok(g, pages, disc, v2)
    ensures v1 == v2
  {
    hide PageOk, Distinct;
    forall s: nat | s < |disc| ensures v1[s] == v2[s] {
      if DirtyAt(pages, s) {
        var i :| 0 <= i < |pages| && pages[i].dirty && pages[i].Covers(s);
        PageData(g, pages[i], v1, s);
        PageData(g, pages[i], v2, s);
      }
    }
  }

  /** Replacing slot k leaves dirty what it does not cover. */
  lemma SameDirty(pages: seq<Page>, k: nat, p: Page)
    requires k < |pages|
    ensures forall s: nat | DirtyAt(pages, s) :: DirtyAt(pages[k := p], s) || (pages[k].dirty && pages[k].Covers(s))
    ensures p.dirty ==> forall s: nat | p.Covers(s) :: DirtyAt(pages[k := p], s)
  {
    var after := pages[k := p];
    forall s: nat | DirtyAt(pages, s) ensures DirtyAt(after, s) || (pages[k].dirty && pages[k].Covers(s)) {
      var i :| 0 <= i < |pages| && pages[i].dirty && pages[i].Covers(s);
      assert i != k ==> after[i].dirty && after[i].Covers(s);
    }
    if p.dirty {
      forall s: nat | p.Covers(s) ensures DirtyAt(after, s) {
        assert after[k].dirty && after[k].Covers(s);
      }
    }
  }

  lemma TouchPage(g: Geometry, pages: seq<Page>, disc: seq<Sector>, view: seq<Sector>, k: nat, t: nat)
    requires Ok(g, pages, disc, view) && k < |pages| && t <= UINT_MAX
    ensures Ok(g, pages[k := pages[k].(lastAccess := t)], disc, view)
  {
    hide Aligned;
    var p := pages[k].(lastAccess := t);
    SameDirty(pages, k, p);
    forall s: nat | DirtyAt(pages, s) ensures DirtyAt(pages[k := p], s) {
      assert p.Covers(s) == pages[k].Covers(s);
    }
  }

  /** Writing a page back and clearing its dirty flag. */
  lemma WriteBack(g: Geometry, pages: seq<Page>, disc: seq<Sector>, view: seq<Sector>, k: nat)
    requires Ok(g, pages, disc, view) && k < |pages| && !pages[k].Free()
    ensures pages[k].sector + |pages[k].data| <= |disc|
    ensures Ok(g, pages[k := pages[k].(dirty := false)], Splice(disc, pages[k].sector, pages[k].data), view)
  {
    var after, disc' := pages[k := pages[k].(dirty := false)], Splice(disc, pages[k].sector, pages[k].data);
    assert PageOk(g, pages[k], view);
    hide Aligned;
    SpliceAt(disc, pages[k].sector, pages[k].data);
    SameDirty(pages, k, after[k]);
  }

  /** A page may be dropped when it is not dirty. */
  lemma DropPage(g: Geometry, pages: seq<Page>, disc: seq<Sector>, view: seq<Sector>, k: nat, p: Page)
    requires Ok(g, pages, disc, view) && k < |pages| && !pages[k].dirty
    requires p.Free() && p.count == 0 && !p.dirty && p.lastAccess <= UINT_MAX
    ensures Ok(g, pages[k := p], disc, view)
  {
    SameDirty(pages, k, p);
  }

  /** What cache_getPage puts into a slot on a miss. */
  function Loaded(g: Geometry, disc: seq<Sector>, base: nat, t: nat): Page
    requires base < g.end <= |disc|
  {
    Page(base, PageCount(g, base), t, false, disc[base..base + PageCount(g, base)])
  }

  /** Loading the page of an uncovered sector into a free or clean slot. */
  lemma LoadPage(g: Geometry, pages: seq<Page>, disc: seq<Sector>, view: seq<Sector>, k: nat, base: nat, sector: nat, t: nat)
    requires Ok(g, pages, disc, view) && k < |pages| && !pages[k].dirty && t <= UINT_MAX
    requires sector < g.end && forall i | 0 <= i < |pages| :: !pages[i].Covers(sector)
    requires Aligned(base, g.sectorsPerPage) && base <= sector < base + g.sectorsPerPage
    ensures Ok(g, pages[k := Loaded(g, disc, base, t)], disc, view)
  {
    hide Aligned;
    var n := PageCount(g, base);
    var p := Loaded(g, disc, base, t);
    var after := pages[k := p];
    forall i | 0 <= i < |pages| && !pages[i].Free() ensures pages[i].sector != base {
      assert PageOk(g, pages[i], view);
      assert !pages[i].Covers(sector);
    }
    SameDirty(pages, k, p);
    forall s: nat | base <= s < base + n ensures disc[s] == view[s] {
      if DirtyAt(pages, s) {
        var i :| 0 <= i < |pages| && pages[i].dirty && pages[i].Covers(s);
        assert PageOk(g, pages[i], view);
        AlignedDisjoint(pages[i].sector, base, g.sectorsPerPage, s);
      }
    }
    assert PageOk(g, p, view);
  }

  /** Overwriting part of a loaded page. */
  lemma WritePage(g: Geometry, pages: seq<Page>, disc: seq<Sector>, view: seq<Sector>, k: nat, at: nat, part: seq<Sector>)
    requires Ok(g, pages, disc, view) && k < |pages| && pages[k].Covers(at)
    requires at + |part| <= pages[k].sector + pages[k].count
    requires Sized(part, g.sectorSize)
    ensures |pages[k].data| == pages[k].count && at + |part| <= |view|
    ensures var p := pages[k].(data := Splice(pages[k].data, at - pages[k].sector, part), dirty := true);
      Ok(g, pages[k := p], disc, Splice(view, at, part))
  {
    hide Aligned;
    assert PageOk(g, pages[k], view);
    var p := pages[k].(data := Splice(pages[k].data, at - pages[k].sector, part), dirty := true);
    var after, view' := pages[k := p], Splice(view, at, part);
    SpliceAt(view, at, part);
    SpliceAt(pages[k].data, at - pages[k].sector, part);
    forall i | 0 <= i < |pages| ensures PageOk(g, after[i], view') {
      assert PageOk(g, pages[i], view);
      if i != k && !pages[i].Free() {
        forall s | pages[i].sector <= s < pages[i].sector + pages[i].count ensures view'[s] == view[s] {
          if at <= s < at + |part| {
            OnePage(g, pages, disc, view, i, k, s);
          }
        }
        assert view'[pages[i].sector..pages[i].sector + pages[i].count] == view[pages[i].sector..pages[i].sector + pages[i].count];
      }
    }
    SameDirty(pages, k, p);
    forall s: nat | s < |disc| && !DirtyAt(after, s) ensures !after[k].Covers(s) {
    }
  }

  /** Writing sectors no page covers straight to the device. */
  lemma WriteThrough(g: Geometry, pages: seq<Page>, disc: seq<Sector>, view: seq<Sector>, at: nat, part: seq<Sector>)
    requires Ok(g, pages, disc, view) && at + |part| <= |disc|
    requires Sized(part, g.sectorSize)
    requires forall i, s | 0 <= i < |pages| && at <= s < at + |part| :: !pages[i].Covers(s)
    ensures Ok(g, pages, Splice(disc, at, part), Splice(view, at, part))
  {
    hide Aligned;
    var view' := Splice(view, at, part);
    SpliceAt(view, at, part);
    SpliceAt(disc, at, part);
    forall i | 0 <= i < |pages| ensures PageOk(g, pages[i], view') {
      assert PageOk(g, pages[i], view);
      if !pages[i].Free() {
        forall s | pages[i].sector <= s < pages[i].sector + pages[i].count ensures view'[s] == view[s] {
          assert pages[i].Covers(s);
        }
        assert view'[pages[i].sector..pages[i].sector + pages[i].count] == view[pages[i].sector..pages[i].sector + pages[i].count];
      }
    }
  }

  /** No page is stamped later than the counter. */
  ghost predicate Stamped(pages: seq<Page>, counter: nat) {
    forall i | 0 <= i < |pages| :: pages[i].lastAccess <= counter
  }

  lemma Newest(pages: seq<Page>, k: nat, p: Page, counter: nat)
    requires k < |pages| && p.lastAccess == (counter + 1) % (UINT_MAX + 1)
    ensures Stamped(pages, counter) && counter < UINT_MAX ==>
      && Stamped(pages[k := p], p.lastAccess)
      && forall i | 0 <= i < |pages| && i != k :: pages[i].lastAccess < p.lastAccess
  {
  }

  /** The pages hold the sectors they held. */
  ghost predicate Places(before: seq<Page>, after: seq<Page>) {
    |after| == |before| && forall i | 0 <= i < |before| :: after[i].sector == before[i].sector && after[i].count == before[i].count
  }

  ghost predicate Cached(pages: seq<Page>, s: nat) { exists i :: 0 <= i < |pages| && pages[i].Covers(s) }

  /** On the device exactly the sectors that no page covers have been written. */
  ghost predicate Through(pages: seq<Page>, at: nat, part: seq<Sector>, before: seq<Sector>, after: seq<Sector>) {
    && |after| == |before|
    && forall s | 0 <= s < |after| ::
         after[s] == if at <= s < at + |part| && !Cached(pages, s) then part[s - at] else before[s]
  }

  lemma SizedPart(sectors: seq<Sector>, size: nat, i: nat, j: nat)
    requires Sized(sectors, size) && i <= j <= |sectors|
    ensures Sized(sectors[i..j], size)
  {
  }

  lemma SamePlaces(pages: seq<Page>)
    ensures Places(pages, pages)
  {
  }

  lemma StoredPlaces(pages0: seq<Page>, pages: seq<Page>, pages': seq<Page>, k: nat)
    requires Places(pages0, pages) && k < |pages| == |pages'| && pages' == pages[k := pages'[k]]
    requires pages'[k].sector == pages[k].sector && pages'[k].count == pages[k].count
    ensures Places(pages0, pages')
  {
  }

  lemma ThroughNone(pages: seq<Page>, at: nat, part: seq<Sector>, disc: seq<Sector>)
    requires part == []
    ensures Through(pages, at, part, disc, disc)
  {
  }

  lemma ThroughDirect(pages: seq<Page>, at: nat, buffer: seq<Sector>, src: nat, n: nat, disc0: seq<Sector>, disc1: seq<Sector>, disc2: seq<Sector>)
    requires src + n <= |buffer| && Through(pages, at, buffer[..src], disc0, disc1) && at + src + n <= |disc1|
    requires disc2 == Splice(disc1, at + src, buffer[src..src + n])
    requires forall i, s | 0 <= i < |pages| && at + src <= s < at + src + n :: !pages[i].Covers(s)
    ensures Through(pages, at, buffer[..src + n], disc0, disc2)
  {
    SpliceAt(disc1, at + src, buffer[src..src + n]);
  }

  lemma ThroughThen(pages0: seq<Page>, pages1: seq<Page>, at: nat, buffer: seq<Sector>, done: nat, n: nat, disc0: seq<Sector>, disc1: seq<Sector>, disc2: seq<Sector>)
    requires done + n <= |buffer| && Through(pages0, at, buffer[..done], disc0, disc1) && Places(pages0, pages1)
    requires Through(pages1, at + done, buffer[done..][..n], disc1, disc2)
    ensures Through(pages0, at, buffer[..done + n], disc0, disc2)
  {
    forall s: nat ensures Cached(pages1, s) <==> Cached(pages0, s) {
      SameCover(pages0, pages1, s);
    }
  }

  lemma SameCover(pages0: seq<Page>, pages1: seq<Page>, s: nat)
    requires Places(pages0, pages1)
    ensures Cached(pages1, s) <==> Cached(pages0, s)
  {
    if i :| 0 <= i < |pages1| && pages1[i].Covers(s) {
      assert pages0[i].Covers(s);
    }
    if i :| 0 <= i < |pages0| && pages0[i].Covers(s) {
      assert pages1[i].Covers(s);
    }
  }

  lemma PlacesThen(pages0: seq<Page>, pages1: seq<Page>, pages2: seq<Page>)
    requires Places(pages0, pages1) && Places(pages1, pages2)
    ensures Places(pages0, pages2)
  {
  }

  lemma ThroughPage(pages0: seq<Page>, pages: seq<Page>, k: nat, at: nat, buffer: seq<Sector>, src: nat, n: nat, disc0: seq<Sector>, disc1: seq<Sector>)
    requires src + n <= |buffer| && Through(pages0, at, buffer[..src], disc0, disc1) && Places(pages0, pages) && k < |pages|
    requires pages[k].sector <= at + src && at + src + n <= pages[k].sector + pages[k].count
    ensures Through(pages0, at, buffer[..src + n], disc0, disc1)
  {
    forall s | 0 <= s < |disc1| && at + src <= s < at + src + n ensures pages0[k].Covers(s) {
    }
  }

  /** The device differs only in sectors that now hold what they read as. */
  ghost predicate Caught(before: seq<Sector>, after: seq<Sector>, view: seq<Sector>) {
    |after| == |before| == |view| && forall s | 0 <= s < |after| :: after[s] == before[s] || after[s] == view[s]
  }

  lemma CaughtNothing(disc: seq<Sector>, view: seq<Sector>)
    requires |disc| == |view|
    ensures Caught(disc, disc, view)
  {
  }

  lemma CaughtThen(before: seq<Sector>, middle: seq<Sector>, after: seq<Sector>, view: seq<Sector>)
    requires Caught(before, middle, view) && Caught(middle, after, view)
    ensures Caught(before, after, view)
  {
  }

  lemma CleanedIs(p: Page, disc: seq<Sector>)
    requires p.dirty ==> |p.data| == p.count && p.sector + p.count <= |disc|
    ensures Cache.Cleaned(p, disc, if p.dirty then Splice(disc, p.sector, p.data) else disc)
  {
    if p.dirty {
      SpliceAt(disc, p.sector, p.data);
    }
  }

  lemma CleanedCaught(p: Page, before: seq<Sector>, after: seq<Sector>, view: seq<Sector>)
    requires |before| == |view| && Cache.Cleaned(p, before, after)
    requires p.dirty ==> p.sector + p.count <= |view| && p.data == view[p.sector..p.sector + p.count]
    ensures Caught(before, after, view)
  {
  }

  class Cache {
    const disc: Disc
    const g: Geometry
    const entries: array<Page>
    var accessCounter: nat
    /** What the cached disc reads as. */
    ghost var view: seq<Sector>

    ghost predicate Valid()
      reads this, disc, entries
    {
      && entries.Length > 0
      && accessCounter <= UINT_MAX
      && Ok(g, entries[..], disc.sectors, view)
    }

    /** cache_constructor */
    constructor (pages: nat, sectorsPerPage: nat, disc: Disc, end: nat, sectorSize: nat)
      requires pages > 0 && sectorsPerPage > 0
      requires end <= |disc.sectors| && end <= UINT_MAX
      requires Sized(disc.sectors, sectorSize)
      ensures Valid() && fresh(entries) && this.disc == disc && view == disc.sectors
      ensures g.end == end && g.sectorSize == sectorSize
      ensures entries.Length == (if pages < 32 then 32 else pages)
      ensures g.sectorsPerPage == (if sectorsPerPage < 16 then 16 else sectorsPerPage)
    {
      this.disc := disc;
      g := Geometry(end, if sectorsPerPage < 16 then 16 else sectorsPerPage, sectorSize);
      entries := new Page[if pages < 32 then 32 else pages](_ => Page(CACHE_FREE, 0, 0, false, []));
      accessCounter := 0;
      view := disc.sectors;
    }

    /** accessTime, a counter that wraps. */
    method AccessTime() returns (t: nat)
      requires accessCounter <= UINT_MAX
      modifies this`accessCounter
      ensures accessCounter == t == (old(accessCounter) + 1) % (UINT_MAX + 1)
    {
      accessCounter := (accessCounter + 1) % (UINT_MAX + 1);
      t := accessCounter;
    }

    /** The slot a miss takes: the first free one, or the one least recently stamped. */
    ghost predicate Victim(pages: seq<Page>, k: nat) {
      && k < |pages|
      && if exists i :: 0 <= i < |pages| && pages[i].Free()
         then pages[k].Free() && forall i | 0 <= i < k :: !pages[i].Free()
         else forall i | 0 <= i < |pages| :: pages[k].lastAccess <= pages[i].lastAccess
    }

    /** The scan of cache_getPage: a covering page, or the victim. */
    method Scan(sector: nat) returns (hit: bool, k: nat)
      requires Valid()
      ensures k < entries.Length
      ensures hit ==> entries[k].Covers(sector)
      ensures !hit ==> forall i | 0 <= i < entries.Length :: !entries[i].Covers(sector)
      ensures !hit ==> Victim(entries[..], k)
    {
      var foundFree, oldUsed, oldAccess := false, 0, UINT_MAX;
      for i := 0 to entries.Length
        invariant forall j | 0 <= j < i :: !entries[j].Covers(sector)
        invariant oldUsed < entries.Length
        invariant foundFree ==> oldUsed < i && entries[oldUsed].Free() && forall j | 0 <= j < oldUsed :: !entries[j].Free()
        invariant !foundFree ==> forall j | 0 <= j < i :: !entries[j].Free() && oldAccess <= entries[j].lastAccess
        invariant !foundFree ==> oldAccess == entries[oldUsed].lastAccess || (oldAccess == UINT_MAX && oldUsed == 0)
      {
        assert PageOk(g, entries[..][i], view);
        if entries[i].Covers(sector) {
          return true, i;
        }
        if !foundFree && (entries[i].Free() || entries[i].lastAccess < oldAccess) {
          if entries[i].Free() {
            foundFree := true;
          }
          oldUsed := i;
          oldAccess := entries[i].lastAccess;
        }
      }
      assert PageOk(g, entries[..][oldUsed], view);
      return false, oldUsed;
    }

    /** On the device a dirty page has been written back, and nothing else. */
    static ghost predicate Cleaned(p: Page, before: seq<Sector>, after: seq<Sector>) {
      && |after| == |before|
      && forall s | 0 <= s < |after| ::
           after[s] == if p.dirty && p.sector <= s < p.sector + p.count && s - p.sector < |p.data| then p.data[s - p.sector] else before[s]
    }

    /** A dirty victim is written back before its slot is reused. */
    method Evict(k: nat)
      requires Valid() && k < entries.Length
      modifies entries, disc
      ensures Valid() && !entries[k].dirty
      ensures entries[..] == old(entries[..])[k := old(entries[k]).(dirty := false)]
      ensures Cleaned(old(entries[k]), old(disc.sectors), disc.sectors)
    {
      hide Aligned, Cleaned, Distinct;
      ghost var pages := entries[..];
      assert PageOk(g, pages[k], view);
      PageFacts(k);
      CleanedIs(entries[k], disc.sectors);
      if entries[k].dirty {
        WriteBack(g, pages, disc.sectors, view, k);
        disc.WriteSectors(entries[k].sector, entries[k].data);
        entries[k] := entries[k].(dirty := false);
        assert entries[..] == pages[k := entries[k]];
      }
    }

    /** Reading the page of `sector` into slot k. */
    method Fill(k: nat, sector: nat)
      requires Valid() && k < entries.Length && !entries[k].dirty && sector < g.end
      requires forall i | 0 <= i < entries.Length :: !entries[i].Covers(sector)
      modifies this`accessCounter, entries
      ensures Valid() && entries[k].Covers(sector)
      ensures entries[..] == old(entries[..])[k := entries[k]]
      ensures entries[k].lastAccess == accessCounter == (old(accessCounter) + 1) % (UINT_MAX + 1)
    {
      hide Aligned, PageBase;
      ghost var pages := entries[..];
      var base := PageBase(g, sector);
      AlignDown(g, sector);
      var next := base + g.sectorsPerPage;
      if next > g.end {
        next := g.end;
      }
      var data := disc.ReadSectors(base, next - base);
      var t := AccessTime();
      LoadPage(g, pages, disc.sectors, view, k, base, sector, t);
      entries[k] := Page(base, next - base, t, false, data);
      assert entries[..] == pages[k := Loaded(g, disc.sectors, base, t)];
    }

    /** cache_getPage: the index of a page that covers `sector`.  Until the counter wraps its stamp
        is later than all others, so that the victim is the page that was got the longest time ago. */
    method GetPage(sector: nat) returns (k: nat)
      requires Valid() && sector < g.end
      modifies this`accessCounter, entries, disc
      ensures Valid()
      ensures k < entries.Length && entries[k].Covers(sector)
      ensures entries[..] == old(entries[..])[k := entries[k]]
      ensures if exists i :: 0 <= i < entries.Length && old(entries[i]).Covers(sector)
              then old(entries[k]).Covers(sector) && disc.sectors == old(disc.sectors)
              else Victim(old(entries[..]), k) && Cleaned(old(entries[k]), old(disc.sectors), disc.sectors)
      ensures Caught(old(disc.sectors), disc.sectors, view)
      ensures entries[k].lastAccess == accessCounter == (old(accessCounter) + 1) % (UINT_MAX + 1)
      ensures old(Stamped(entries[..], accessCounter)) && old(accessCounter) < UINT_MAX ==>
        && Stamped(entries[..], accessCounter)
        && forall i | 0 <= i < entries.Length && i != k :: entries[i].lastAccess < entries[k].lastAccess
    {
      hide Ok, Aligned, Cleaned, Caught;
      ghost var pages := entries[..];
      ViewFacts();
      CaughtNothing(disc.sectors, view);
      var hit;
      hit, k := Scan(sector);
      if hit {
        Touch(k);
      } else {
        PageFacts(k);
        ViewFacts();
        Evict(k);
        CleanedCaught(old(entries[k]), old(disc.sectors), disc.sectors, view);
        assert forall i | 0 <= i < entries.Length :: entries[i] == entries[..][i];
        Fill(k, sector);
      }
      Newest(pages, k, entries[k], old(accessCounter));
      assert entries[..] == pages[k := entries[k]];
    }

    /** A hit only stamps its page. */
    method Touch(k: nat)
      requires Valid() && k < entries.Length
      modifies this`accessCounter, entries
      ensures Valid() && entries[..] == old(entries[..])[k := old(entries[k]).(lastAccess := accessCounter)]
      ensures accessCounter == (old(accessCounter) + 1) % (UINT_MAX + 1)
    {
      hide Aligned;
      ghost var pages := entries[..];
      var t := AccessTime();
      TouchPage(g, pages, disc.sectors, view, k, t);
      entries[k] := entries[k].(lastAccess := t);
      assert entries[..] == pages[k := entries[k]];
    }

    lemma PageFacts(k: nat)
      requires Valid() && k < entries.Length
      ensures var p := entries[k];
        && p.sector <= UINT_MAX
        && (if p.Free() then p.count == 0 && !p.dirty
            else p.sector + p.count <= g.end <= |view| && p.count > 0 && p.data == view[p.sector..p.sector + p.count])
    {
      hide Aligned;
      assert PageOk(g, entries[..][k], view);
    }

    lemma ViewFacts()
      requires Valid()
      ensures g.end <= |view| == |disc.sectors|
      ensures Sized(view, g.sectorSize)
    {
    }

    /** cache_findPage: the lowest page that meets [sector, sector + count). */
    method FindPage(sector: nat, count: nat) returns (found: bool, k: nat)
      requires Valid() && count > 0
      ensures found ==> k < entries.Length && Meets(entries[k], sector, count)
      ensures found ==> forall i | 0 <= i < entries.Length && Meets(entries[i], sector, count) ::
                          entries[k].sector <= entries[i].sector
      ensures !found ==> forall i | 0 <= i < entries.Length :: !Meets(entries[i], sector, count)
    {
      hide Ok, Meets;
      found, k := false, 0;
      var lowest := UINT_MAX;
      for i := 0 to entries.Length
        invariant found ==> k < i && entries[k].sector == lowest && Meets(entries[k], sector, count)
        invariant !found ==> lowest == UINT_MAX
        invariant forall j | 0 <= j < i && Meets(entries[j], sector, count) :: found && lowest <= entries[j].sector
      {
        PageFacts(i);
        MeetsIff(entries[i], sector, count);
        if entries[i].sector != CACHE_FREE {
          var intersect;
          if sector > entries[i].sector {
            intersect := sector - entries[i].sector < entries[i].count;
          } else {
            intersect := entries[i].sector - sector < count;
          }
          if intersect && entries[i].sector < lowest {
            lowest := entries[i].sector;
            found, k := true, i;
          }
        }
      }
    }

    /** cache_readSectors */
    method ReadSectors(sector0: nat, numSectors0: nat) returns (dest: seq<Sector>)
      requires Valid() && sector0 + numSectors0 <= g.end
      modifies this`accessCounter, entries, disc
      ensures Valid() && sector0 + numSectors0 <= |view|
      ensures dest == view[sector0..sector0 + numSectors0]
      ensures Caught(old(disc.sectors), disc.sectors, view)
    {
      hide Ok, Caught;
      var sector, numSectors := sector0, numSectors0;
      ViewFacts();
      dest := [];
      CaughtNothing(disc.sectors, view);
      while numSectors > 0
        invariant Valid() && 0 <= numSectors && sector0 <= sector && sector + numSectors == sector0 + numSectors0
        invariant dest == view[sector0..sector]
        invariant Caught(old(disc.sectors), disc.sectors, view)
      {
        ghost var disc0 := disc.sectors;
        var part := ReadSome(sector, numSectors);
        CaughtThen(old(disc.sectors), disc0, disc.sectors, view);
        dest := dest + part;
        sector := sector + |part|;
        numSectors := numSectors - |part|;
      }
    }

    /** One turn of its loop: up to the end of a page. */
    method ReadSome(sector: nat, numSectors: nat) returns (part: seq<Sector>)
      requires Valid() && sector + numSectors <= g.end && numSectors > 0
      modifies this`accessCounter, entries, disc
      ensures Valid() && 0 < |part| <= numSectors && sector + numSectors <= |view|
      ensures part == view[sector..sector + |part|]
      ensures Caught(old(disc.sectors), disc.sectors, view)
    {
      hide Ok, Victim, Cleaned, Caught;
      ViewFacts();
      var k := GetPage(sector);
      PageFacts(k);
      var sec := sector - entries[k].sector;
      var n := entries[k].count - sec;
      if n > numSectors {
        n := numSectors;
      }
      SliceSlice(view, entries[k].sector, entries[k].sector + entries[k].count, sec, sec + n);
      part := entries[k].data[sec..sec + n];
    }

    /** cache_readPartialSector */
    method ReadPartialSector(sector: nat, offset: nat, size: nat) returns (ok: bool, bytes: seq<Byte>)
      requires Valid() && sector < g.end
      modifies this`accessCounter, entries, disc
      ensures Valid() && sector < |view| && |view[sector]| == g.sectorSize
      ensures ok <==> offset + size <= g.sectorSize
      ensures ok ==> bytes == view[sector][offset..offset + size]
      ensures Caught(old(disc.sectors), disc.sectors, view)
    {
      hide Ok, Victim, Cleaned, Caught;
      ViewFacts();
      CaughtNothing(disc.sectors, view);
      if offset + size > g.sectorSize {
        return false, [];
      }
      var k := GetPage(sector);
      PageFacts(k);
      ViewFacts();
      var sec := sector - entries[k].sector;
      return true, entries[k].data[sec][offset..offset + size];
    }

    /** Overwriting sectors inside page k and marking it dirty. */
    method Store(k: nat, at: nat, part: seq<Sector>)
      requires Valid() && k < entries.Length && entries[k].Covers(at)
      requires at + |part| <= entries[k].sector + entries[k].count
      requires Sized(part, g.sectorSize)
      modifies this`view, entries
      ensures Valid() && |old(view)| >= at + |part| && view == Splice(old(view), at, part)
      ensures |entries[k].data| == |old(entries[k].data)|
      ensures entries[..] == old(entries[..])[k := old(entries[k]).(data := entries[k].data, dirty := true)]
    {
      ghost var pages := entries[..];
      WritePage(g, pages, disc.sectors, view, k, at, part);
      var p := entries[k];
      entries[k] := p.(data := Splice(p.data, at - p.sector, part), dirty := true);
      view := Splice(view, at, part);
      assert entries[..] == pages[k := entries[k]];
    }

    /** cache_writePartialSector */
    method WritePartialSector(bytes: seq<Byte>, sector: nat, offset: nat) returns (ok: bool)
      requires Valid() && sector < g.end
      modifies this, entries, disc
      ensures Valid() && |view| == |old(view)| && sector < |view| && |old(view)[sector]| == g.sectorSize
      ensures ok <==> offset + |bytes| <= g.sectorSize
      ensures view == if ok then old(view)[sector := Splice(old(view)[sector], offset, bytes)] else old(view)
      ensures Caught(old(disc.sectors), disc.sectors, old(view))
    {
      hide Ok, Victim, Cleaned, Caught;
      ViewFacts();
      CaughtNothing(disc.sectors, view);
      if offset + |bytes| > g.sectorSize {
        return false;
      }
      var k := GetPage(sector);
      PageFacts(k);
      ViewFacts();
      var sec := sector - entries[k].sector;
      Store(k, sector, [Splice(entries[k].data[sec], offset, bytes)]);
      return true;
    }

    /** cache_eraseWritePartialSector */
    method EraseWritePartialSector(bytes: seq<Byte>, sector: nat, offset: nat) returns (ok: bool)
      requires Valid() && sector < g.end
      modifies this, entries, disc
      ensures Valid() && |view| == |old(view)| && sector < |view|
      ensures ok <==> offset + |bytes| <= g.sectorSize
      ensures view == if ok then old(view)[sector := Splice(seq(g.sectorSize, _ => 0), offset, bytes)] else old(view)
      ensures Caught(old(disc.sectors), disc.sectors, old(view))
    {
      hide Ok, Victim, Cleaned, Caught;
      ViewFacts();
      CaughtNothing(disc.sectors, view);
      if offset + |bytes| > g.sectorSize {
        return false;
      }
      var k := GetPage(sector);
      PageFacts(k);
      Store(k, sector, [Splice(seq(g.sectorSize, _ => 0), offset, bytes)]);
      return true;
    }

    /** No page covers these sectors, now as at the start. */
    lemma Uncovered(pages0: seq<Page>, at: nat, n: nat)
      requires Places(pages0, entries[..]) && forall i | 0 <= i < entries.Length :: !Meets(entries[i], at, n)
      ensures forall i, s | 0 <= i < |pages0| && at <= s < at + n :: !pages0[i].Covers(s)
    {
      forall i, s | 0 <= i < |pages0| && at <= s < at + n ensures !pages0[i].Covers(s) {
        assert entries[..][i] == entries[i] && !Meets(entries[i], at, n);
        assert pages0[i].Covers(s) == entries[i].Covers(s);
      }
    }

    /** Sectors that no page covers go straight to the device. */
    method WriteDirect(at: nat, part: seq<Sector>)
      requires Valid() && at + |part| <= |view|
      requires Sized(part, g.sectorSize)
      requires forall i | 0 <= i < entries.Length :: !Meets(entries[i], at, |part|)
      modifies this`view, disc
      ensures Valid() && |old(view)| >= at + |part| && view == Splice(old(view), at, part)
      ensures |old(disc.sectors)| >= at + |part| && disc.sectors == Splice(old(disc.sectors), at, part)
    {
      ghost var pages := entries[..];
      forall i, s | 0 <= i < |pages| && at <= s < at + |part| ensures !pages[i].Covers(s) {
        assert !Meets(entries[i], at, |part|);
      }
      WriteThrough(g, pages, disc.sectors, view, at, part);
      disc.WriteSectors(at, part);
      view := Splice(view, at, part);
    }

    /** cache_writeSectors: cached sectors into their pages, the others to the device. */
    method WriteSectors(sector0: nat, buffer: seq<Sector>)
      requires Valid() && sector0 + |buffer| <= |view|
      requires Sized(buffer, g.sectorSize)
      modifies this`view, entries, disc
      ensures Valid() && |old(view)| >= sector0 + |buffer|
      ensures view == Splice(old(view), sector0, buffer)
      ensures Places(old(entries[..]), entries[..]) && Through(old(entries[..]), sector0, buffer, old(disc.sectors), disc.sectors)
    {
      hide Ok, Splice, Through, Places, Sized;
      ViewFacts();
      var done := 0;
      ghost var v0, pages0, disc0 := view, entries[..], disc.sectors;
      ThroughNone(pages0, sector0, buffer[..0], disc0);
      SamePlaces(pages0);
      SpliceNone(v0, sector0, buffer[..0]);
      while done < |buffer|
        invariant Valid() && 0 <= done <= |buffer| && view == Splice(v0, sector0, buffer[..done])
        invariant Places(pages0, entries[..]) && Through(pages0, sector0, buffer[..done], disc0, disc.sectors)
      {
        ghost var pages1, disc1 := entries[..], disc.sectors;
        SizedPart(buffer, g.sectorSize, done, |buffer|);
        assert buffer[done..] == buffer[done..|buffer|];
        var n := WriteSome(sector0 + done, buffer[done..]);
        SpliceMore(v0, sector0, buffer, done, n);
        assert buffer[done..][..n] == buffer[done..done + n];
        ThroughThen(pages0, pages1, sector0, buffer, done, n, disc0, disc1, disc.sectors);
        PlacesThen(pages0, pages1, entries[..]);
        done := done + n;
      }
      assert buffer[..|buffer|] == buffer;
    }

    /** One turn of its loop: what comes before the next page, and the sectors of that page. */
    method WriteSome(sector: nat, part: seq<Sector>) returns (n: nat)
      requires Valid() && sector + |part| <= |view| && part != [] && Sized(part, g.sectorSize)
      modifies this`view, entries, disc
      ensures Valid() && 0 < n <= |part| && |old(view)| >= sector + |part| && view == Splice(old(view), sector, part[..n])
      ensures Places(old(entries[..]), entries[..]) && Through(old(entries[..]), sector, part[..n], old(disc.sectors), disc.sectors)
    {
      hide Ok, Meets, Splice, Through, Places, Sized;
      ViewFacts();
      ghost var v0, pages0, disc0 := view, entries[..], disc.sectors;
      ThroughNone(pages0, sector, part[..0], disc0);
      SamePlaces(pages0);
      SpliceNone(v0, sector, part[..0]);
      var found, k := FindPage(sector, |part|);
      if !found {
        WriteGap(sector, part, |part|);
        return |part|;
      }
      PageFacts(k);
      MeetsIff(entries[k], sector, |part|);
      var gap := 0;
      if entries[k].sector > sector {
        gap := entries[k].sector - sector;
        forall i | 0 <= i < entries.Length ensures !Meets(entries[i], sector, gap) {
          MeetsIff(entries[i], sector, gap);
          MeetsIff(entries[i], sector, |part|);
        }
        WriteGap(sector, part, gap);
      }
      var m := entries[k].count - (sector + gap - entries[k].sector);
      if m > |part| - gap {
        m := |part| - gap;
      }
      StoreOn(k, sector, part, gap, m, pages0, v0, disc0);
      n := gap + m;
    }

    /** The first n sectors, which no page covers. */
    method WriteGap(sector: nat, part: seq<Sector>, n: nat)
      requires Valid() && n <= |part| && sector + |part| <= |view| && Sized(part, g.sectorSize)
      requires forall i | 0 <= i < entries.Length :: !Meets(entries[i], sector, n)
      modifies this`view, disc
      ensures Valid() && |old(view)| >= sector + |part| && view == Splice(old(view), sector, part[..n])
      ensures Through(entries[..], sector, part[..n], old(disc.sectors), disc.sectors)
    {
      hide Ok, Meets, Splice, Through, Sized;
      ViewFacts();
      SamePlaces(entries[..]);
      Uncovered(entries[..], sector, n);
      SizedPart(part, g.sectorSize, 0, n);
      ThroughNone(entries[..], sector, part[..0], disc.sectors);
      assert part[0..n] == part[..n];
      WriteDirect(sector, part[..n]);
      ThroughDirect(entries[..], sector, part, 0, n, old(disc.sectors), old(disc.sectors), disc.sectors);
    }

    /** After the first i sectors, m more, in page k. */
    method StoreOn(k: nat, sector: nat, part: seq<Sector>, i: nat, m: nat, ghost pages0: seq<Page>, ghost v0: seq<Sector>, ghost disc0: seq<Sector>)
      requires Valid() && k < entries.Length && i + m <= |part| && sector + |part| <= |v0| == |view| && Sized(part, g.sectorSize)
      requires entries[k].Covers(sector + i) && sector + i + m <= entries[k].sector + entries[k].count
      requires view == Splice(v0, sector, part[..i]) && Places(pages0, entries[..])
      requires Through(pages0, sector, part[..i], disc0, disc.sectors)
      modifies this`view, entries
      ensures Valid() && view == Splice(v0, sector, part[..i + m]) && Places(pages0, entries[..])
      ensures Through(pages0, sector, part[..i + m], disc0, disc.sectors)
    {
      hide Ok, Splice, Through, Places, Sized;
      ghost var pages := entries[..];
      SizedPart(part, g.sectorSize, i, i + m);
      Store(k, sector + i, part[i..i + m]);
      StoredPlaces(pages0, pages, entries[..], k);
      ThroughPage(pages0, pages, k, sector, part, i, m, disc0, disc.sectors);
      SpliceMore(v0, sector, part, i, m);
    }

    /** cache_flush: afterwards the device is what the cached disc reads as. */
    method Flush()
      requires Valid()
      modifies entries, disc
      ensures Valid() && disc.sectors == view
      ensures forall i | 0 <= i < entries.Length :: entries[i] == old(entries[i]).(dirty := false)
    {
      hide Ok;
      for i := 0 to entries.Length
        invariant Valid()
        invariant forall j | 0 <= j < i :: entries[j] == old(entries[j]).(dirty := false)
        invariant forall j | i <= j < entries.Length :: entries[j] == old(entries[j])
      {
        ghost var before := entries[..];
        Evict(i);
        assert forall j | 0 <= j < entries.Length :: entries[j] == entries[..][j];
      }
      AllClean();
    }

    lemma AllClean()
      requires Valid() && forall i | 0 <= i < entries.Length :: !entries[i].dirty
      ensures disc.sectors == view
    {
      forall s: nat | s < |view| ensures disc.sectors[s] == view[s] {
        assert !DirtyAt(entries[..], s);
      }
    }

    /** cache_invalidate */
    method Invalidate()
      requires Valid()
      modifies entries, disc
      ensures Valid() && disc.sectors == view
      ensures forall i | 0 <= i < entries.Length :: entries[i].Free()
    {
      hide Ok;
      Flush();
      for i := 0 to entries.Length
        invariant Valid() && disc.sectors == view
        invariant forall j | 0 <= j < entries.Length :: !entries[j].dirty
        invariant forall j | 0 <= j < i :: entries[j].Free()
      {
        ghost var pages := entries[..];
        var p := entries[i].(sector := CACHE_FREE, lastAccess := 0, count := 0, dirty := false);
        DropPage(g, pages, disc.sectors, view, i, p);
        entries[i] := p;
        assert entries[..] == pages[i := p];
      }
    }
  }

  lemma SliceSlice<T>(s: seq<T>, lo: nat, hi: nat, i: nat, j: nat)
    requires lo <= hi <= |s| && i <= j <= hi - lo
    ensures s[lo..hi][i..j] == s[lo + i..lo + j]
  {
    var m := s[lo..hi];
    assert forall k | i <= k < j :: m[k] == s[lo + k];
    assert m[i..j] == s[lo + i..lo + j];
  }

  lemma SpliceNone<T>(v: seq<T>, at: nat, part: seq<T>)
    requires part == [] && at <= |v|
    ensures Splice(v, at, part) == v
  {
  }

  lemma SpliceMore<T>(v: seq<T>, at: nat, part: seq<T>, k: nat, n: nat)
    requires at + |part| <= |v| && k + n <= |part|
    ensures Splice(Splice(v, at, part[..k]), at + k, part[k..k + n]) == Splice(v, at, part[..k + n])
  {
  }

  /** The page meets [sector, sector + count). */
  ghost predicate Meets(p: Page, sector: nat, count: nat) {
    exists s :: sector <= s < sector + count && p.Covers(s)
  }

  lemma MeetsIff(p: Page, sector: nat, count: nat)
    ensures Meets(p, sector, count) <==> p.count > 0 && count > 0 && p.sector < sector + count && sector < p.sector + p.count
  {
    if p.count > 0 && count > 0 && p.sector < sector + count && sector < p.sector + p.count {
      var s := if sector <= p.sector then p.sector else sector;
      assert sector <= s < sector + count && p.Covers(s);
    }
  }
}
