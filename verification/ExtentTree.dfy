/**
 Extent trees (source/extent.c): nodes of entries on a disk, index entries leading to nodes one level
 down and leaf entries describing runs of blocks.  A list of entries at height d stands for all that
 hangs below it.
 */
module ExtentTree {

  const U32: nat := 0x1_0000_0000

  /** A leaf entry is a run of len blocks; an index entry has the block of a node as pblk. */
  datatype Entry = Entry(lblk: nat, pblk: nat, len: nat, uninit: bool)

  datatype Node = Node(max: nat, entries: seq<Entry>)

  type Disk = map<nat, Node>

  // ---------- Shape ----------

  /** The blocks of the nodes below these entries. */
  ghost function Foot(disk: Disk, es: seq<Entry>, d: nat): set<nat>
    decreases d, |es|
  {
    if d == 0 || es == [] then {}
    else {es[0].pblk} + (if es[0].pblk in disk then Foot(disk, disk[es[0].pblk].entries, d - 1) else {}) + Foot(disk, es[1..], d)
  }

  /** Every node is on the disk, holds at least one entry and at most its maximum, and is reached in
      one way only. */
  ghost predicate Formed(disk: Disk, es: seq<Entry>, d: nat)
    decreases d, |es|
  {
    d > 0 && es != [] ==>
      && es[0].pblk in disk
      && var child := disk[es[0].pblk];
      && 0 < |child.entries| <= child.max
      && Formed(disk, child.entries, d - 1) && Formed(disk, es[1..], d)
      && es[0].pblk !in Foot(disk, child.entries, d - 1) && es[0].pblk !in Foot(disk, es[1..], d)
      && Foot(disk, child.entries, d - 1) !! Foot(disk, es[1..], d)
  }

  /** The leaf entries below, in order. */
  ghost function Leaves(disk: Disk, es: seq<Entry>, d: nat): seq<Entry>
    decreases d, |es|
  {
    if d == 0 then es else if es == [] then []
    else (if es[0].pblk in disk then Leaves(disk, disk[es[0].pblk].entries, d - 1) else []) + Leaves(disk, es[1..], d)
  }

  /** Where the range of the first entry ends. */
  function Next(es: seq<Entry>, hi: nat): nat { if |es| > 1 then es[1].lblk else hi }

  /** Keys increase, runs are not empty and do not overlap, and everything lies in [lo, hi). */
  ghost predicate Keyed(disk: Disk, es: seq<Entry>, d: nat, lo: nat, hi: nat)
    decreases d, |es|
  {
    if es == [] then lo <= hi else
      && lo <= es[0].lblk < Next(es, hi)
      && (if d == 0 then es[0].len > 0 && es[0].lblk + es[0].len <= Next(es, hi)
          else es[0].pblk in disk && Keyed(disk, disk[es[0].pblk].entries, d - 1, es[0].lblk, Next(es, hi)))
      && Keyed(disk, es[1..], d, Next(es, hi), hi)
  }

  /** Every key is that of the first entry below it. */
  ghost predicate Exact(disk: Disk, es: seq<Entry>, d: nat)
    decreases d, |es|
  {
    d > 0 && es != [] ==>
      && es[0].pblk in disk
      && var child := disk[es[0].pblk].entries;
      && child != [] && child[0].lblk == es[0].lblk && Exact(disk, child, d - 1) && Exact(disk, es[1..], d)
  }

  // ---------- Lists of entries can be cut anywhere ----------

  lemma {:induction false} FootCat(disk: Disk, a: seq<Entry>, b: seq<Entry>, d: nat)
    ensures Foot(disk, a + b, d) == Foot(disk, a, d) + Foot(disk, b, d)
  {
    if a == [] {
      assert a + b == b;
    } else {
      FootCat(disk, a[1..], b, d);
      assert (a + b)[1..] == a[1..] + b;
    }
  }

  lemma {:induction false} LeavesCat(disk: Disk, a: seq<Entry>, b: seq<Entry>, d: nat)
    ensures Leaves(disk, a + b, d) == Leaves(disk, a, d) + Leaves(disk, b, d)
  {
    if a == [] {
      assert a + b == b;
    } else if d > 0 {
      LeavesCat(disk, a[1..], b, d);
      assert (a + b)[1..] == a[1..] + b;
    }
  }

  lemma {:induction false} FormedCat(disk: Disk, a: seq<Entry>, b: seq<Entry>, d: nat)
    ensures Formed(disk, a + b, d) <==>
      Formed(disk, a, d) && Formed(disk, b, d) && Foot(disk, a, d) !! Foot(disk, b, d)
  {
    if a == [] {
      assert a + b == b;
    } else {
      FormedCat(disk, a[1..], b, d);
      FootCat(disk, a[1..], b, d);
      assert (a + b)[1..] == a[1..] + b;
    }
  }

  /** The key that follows a, when b comes after it. */
  function Then(b: seq<Entry>, hi: nat): nat { if b == [] then hi else b[0].lblk }

  lemma {:induction false} KeyedCat(disk: Disk, a: seq<Entry>, b: seq<Entry>, d: nat, lo: nat, hi: nat)
    requires a != [] || b == [] || lo == b[0].lblk
    ensures Keyed(disk, a + b, d, lo, hi) <==> Keyed(disk, a, d, lo, Then(b, hi)) && Keyed(disk, b, d, Then(b, hi), hi)
  {
    if a == [] {
      assert a + b == b;
    } else {
      assert (a + b)[1..] == a[1..] + b;
      if |a| == 1 {
        assert a[1..] + b == b;
      } else {
        KeyedCat(disk, a[1..], b, d, Next(a, Then(b, hi)), hi);
      }
    }
  }

  lemma {:induction false} ExactCat(disk: Disk, a: seq<Entry>, b: seq<Entry>, d: nat)
    ensures Exact(disk, a + b, d) <==> Exact(disk, a, d) && Exact(disk, b, d)
  {
    if a == [] {
      assert a + b == b;
    } else if d > 0 {
      ExactCat(disk, a[1..], b, d);
      assert (a + b)[1..] == a[1..] + b;
    }
  }

  // ---------- Frames ----------

  /** Only the nodes below matter. */
  lemma {:induction false} Frame(disk: Disk, disk': Disk, es: seq<Entry>, d: nat, lo: nat, hi: nat)
    requires Formed(disk, es, d)
    requires forall b | b in Foot(disk, es, d) :: b in disk && b in disk' && disk'[b] == disk[b]
    ensures Formed(disk', es, d) && Foot(disk', es, d) == Foot(disk, es, d) && Leaves(disk', es, d) == Leaves(disk, es, d)
    ensures Keyed(disk, es, d, lo, hi) ==> Keyed(disk', es, d, lo, hi)
    ensures Exact(disk, es, d) ==> Exact(disk', es, d)
    decreases d, |es|
  {
    if d > 0 && es != [] {
      var child := disk[es[0].pblk].entries;
      Frame(disk, disk', child, d - 1, es[0].lblk, Next(es, hi));
      Frame(disk, disk', es[1..], d, Next(es, hi), hi);
    } else if d == 0 && es != [] {
      Frame(disk, disk', es[1..], d, Next(es, hi), hi);
    }
  }

  lemma {:induction false} FootOnDisk(disk: Disk, es: seq<Entry>, d: nat)
    requires Formed(disk, es, d)
    ensures forall b | b in Foot(disk, es, d) :: b in disk
    decreases d, |es|
  {
    if d > 0 && es != [] {
      FootOnDisk(disk, disk[es[0].pblk].entries, d - 1);
      FootOnDisk(disk, es[1..], d);
    }
  }

  // ---------- Descending by keys ----------

  /** The last entry whose key is not above blk, or the first entry. */
  function Pick(es: seq<Entry>, blk: nat): (i: nat)
    requires es != []
    ensures i < |es|
  {
    if |es| == 1 || blk < es[1].lblk then 0 else 1 + Pick(es[1..], blk)
  }

  /** The leaf entry that the descent for blk ends on. */
  ghost function Seek(disk: Disk, es: seq<Entry>, d: nat, blk: nat): Entry
    requires es != [] && Formed(disk, es, d)
    decreases d
  {
    var e := es[Pick(es, blk)];
    if d == 0 then e else
      KidFormed(disk, es, d, Pick(es, blk));
      Seek(disk, disk[e.pblk].entries, d - 1, blk)
  }

  lemma {:induction false} KidFormed(disk: Disk, es: seq<Entry>, d: nat, i: nat)
    requires Formed(disk, es, d) && d > 0 && i < |es|
    ensures var p := es[i].pblk;
      && p in disk && p in Foot(disk, es, d) && 0 < |disk[p].entries| <= disk[p].max
      && Formed(disk, disk[p].entries, d - 1) && Foot(disk, disk[p].entries, d - 1) <= Foot(disk, es, d)
      && p !in Foot(disk, disk[p].entries, d - 1)
  {
    if i > 0 {
      KidFormed(disk, es[1..], d, i - 1);
    }
  }

  predicate Covers(e: Entry, blk: nat) { e.lblk <= blk < e.lblk + e.len }

  lemma {:induction false} KeyedLeaves(disk: Disk, es: seq<Entry>, d: nat, lo: nat, hi: nat)
    requires Formed(disk, es, d) && Keyed(disk, es, d, lo, hi)
    ensures forall e | e in Leaves(disk, es, d) :: lo <= e.lblk && e.len > 0 && e.lblk + e.len <= hi
    ensures lo <= hi
    decreases d, |es|
  {
    if es != [] {
      KeyedLeaves(disk, es[1..], d, Next(es, hi), hi);
      if d == 0 {
        forall e | e in es ensures lo <= e.lblk && e.len > 0 && e.lblk + e.len <= hi {
          assert e == es[0] || e in es[1..];
        }
      } else {
        KeyedLeaves(disk, disk[es[0].pblk].entries, d - 1, es[0].lblk, Next(es, hi));
      }
    }
  }

  /** The descent ends on an entry that covers blk exactly when some entry does. */
  lemma {:induction false} SeekFinds(disk: Disk, es: seq<Entry>, d: nat, lo: nat, hi: nat, blk: nat)
    requires es != [] && Formed(disk, es, d) && Keyed(disk, es, d, lo, hi)
    ensures var e := Seek(disk, es, d, blk);
      e in Leaves(disk, es, d) && forall x | x in Leaves(disk, es, d) && Covers(x, blk) :: x == e
    decreases d, |es|
  {
    var rest := es[1..];
    KeyedLeaves(disk, rest, d, Next(es, hi), hi);
    if d > 0 {
      var child := disk[es[0].pblk].entries;
      KeyedLeaves(disk, child, d - 1, es[0].lblk, Next(es, hi));
      if Pick(es, blk) == 0 {
        SeekFinds(disk, child, d - 1, es[0].lblk, Next(es, hi), blk);
      } else {
        SeekFinds(disk, rest, d, Next(es, hi), hi, blk);
      }
    } else {
      assert forall x | x in es :: x == es[0] || x in rest;
      if Pick(es, blk) != 0 {
        SeekFinds(disk, rest, d, Next(es, hi), hi, blk);
      }
    }
  }

  /** With exact keys it ends on the last entry that starts at or before blk, or on the first one. */
  lemma {:induction false} SeekLast(disk: Disk, es: seq<Entry>, d: nat, lo: nat, hi: nat, blk: nat)
    requires es != [] && Formed(disk, es, d) && Keyed(disk, es, d, lo, hi) && Exact(disk, es, d)
    ensures IsLast(Seek(disk, es, d, blk), Leaves(disk, es, d), es[0].lblk, blk)
    decreases d, |es|
  {
    var rest := es[1..];
    KeyedLeaves(disk, rest, d, Next(es, hi), hi);
    if Pick(es, blk) != 0 {
      SeekLast(disk, rest, d, Next(es, hi), hi, blk);
    }
    if d > 0 {
      var child := disk[es[0].pblk].entries;
      KeyedLeaves(disk, child, d - 1, es[0].lblk, Next(es, hi));
      SeekLast(disk, child, d - 1, es[0].lblk, Next(es, hi), blk);
    } else {
      assert forall x | x in es :: x == es[0] || x in rest;
    }
  }

  /** e is the last of all that starts at or before blk, or the first if there is none. */
  ghost predicate IsLast(e: Entry, all: seq<Entry>, first: nat, blk: nat) {
    && all != [] && all[0].lblk == first
    && (if blk < first then e == all[0] else e.lblk <= blk && forall x | x in all && x.lblk <= blk :: x.lblk <= e.lblk)
  }

  lemma {:induction false} KidKeyed(disk: Disk, es: seq<Entry>, d: nat, i: nat, lo: nat, hi: nat)
    requires Keyed(disk, es, d, lo, hi) && i < |es|
    ensures lo <= es[i].lblk < Next(es[i..], hi) <= hi
    ensures d == 0 ==> es[i].len > 0 && es[i].lblk + es[i].len <= Next(es[i..], hi)
    ensures d > 0 ==> es[i].pblk in disk && Keyed(disk, disk[es[i].pblk].entries, d - 1, es[i].lblk, Next(es[i..], hi))
  {
    KeyedBounds(disk, es[1..], d, Next(es, hi), hi);
    if i > 0 {
      KidKeyed(disk, es[1..], d, i - 1, Next(es, hi), hi);
      assert es[1..][i - 1..] == es[i..];
    } else {
      assert es[0..] == es;
    }
  }

  lemma {:induction false} KeyedBounds(disk: Disk, es: seq<Entry>, d: nat, lo: nat, hi: nat)
    requires Keyed(disk, es, d, lo, hi)
    ensures lo <= hi
  {
    if es != [] {
      KeyedBounds(disk, es[1..], d, Next(es, hi), hi);
    }
  }

  /** Keys increase along the list. */
  lemma {:induction false} KeysIncrease(disk: Disk, es: seq<Entry>, d: nat, lo: nat, hi: nat)
    requires Keyed(disk, es, d, lo, hi)
    ensures forall i, j | 0 <= i < j < |es| :: es[i].lblk < es[j].lblk
  {
    if es != [] {
      KeysIncrease(disk, es[1..], d, Next(es, hi), hi);
      if |es| > 1 {
        forall j | 0 < j < |es| ensures es[0].lblk < es[j].lblk {
          assert es[j] == es[1..][j - 1] && es[1] == es[1..][0];
        }
      }
    }
  }

  lemma {:induction false} PickIs(es: seq<Entry>, blk: nat, c: nat)
    requires c < |es| && (forall j | 1 <= j <= c :: es[j].lblk <= blk) && (c == |es| - 1 || blk < es[c + 1].lblk)
    ensures Pick(es, blk) == c
  {
    if c > 0 {
      PickIs(es[1..], blk, c - 1);
    }
  }
}
