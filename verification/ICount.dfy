/**
 The inode-count abstraction of source/icount.c: a bitmap of inodes counted once, an optional
 bitmap of inodes counted at least twice, and a sorted list with a cursor and a binary search.
 Together they represent one map from inode number to a 32-bit count.
 */
module ICount {

  datatype El = El(ino: nat, count: nat)

  datatype Status = Ok | InvalidArgument | NoMemory

  const WORD: nat := 0x1_0000_0000

  /** icount_16_xlate */
  function Xlate16(x: nat): nat { if x > 65500 then 65500 else x }

  ghost predicate Sorted(list: seq<El>) {
    forall i, j | 0 <= i < j < |list| :: list[i].ino < list[j].ino
  }

  /** The count the list holds for `ino`, zero when it has no entry. */
  ghost function Find(list: seq<El>, ino: nat): nat {
    if i :| 0 <= i < |list| && list[i].ino == ino then list[i].count else 0
  }

  ghost predicate Listed(list: seq<El>, ino: nat) {
    exists i :: 0 <= i < |list| && list[i].ino == ino
  }

  lemma FindAt(list: seq<El>, i: nat)
    requires Sorted(list) && i < |list|
    ensures Find(list, list[i].ino) == list[i].count
  {
  }

  lemma FindNone(list: seq<El>, ino: nat)
    requires !Listed(list, ino)
    ensures Find(list, ino) == 0
  {
  }

  /** Everything before pos is smaller than ino and everything from pos on is larger. */
  ghost predicate Between(list: seq<El>, ino: nat, pos: nat) {
    && pos <= |list|
    && (forall i | 0 <= i < pos :: list[i].ino < ino)
    && (forall i | pos <= i < |list| :: ino < list[i].ino)
  }

  class Icount {
    var single: set<nat>
    var multiple: set<nat>
    const hasMultiple: bool
    const numInodes: nat
    var list: seq<El>
    var size: nat
    var cursor: nat
    /** The last inserted element; the C code keeps a pointer into the list. */
    var lastLookup: int

    ghost predicate Valid()
      reads this
    {
      && Sorted(list)
      && |list| <= size
      && -1 <= lastLookup < |list|
      && (forall i | 0 <= i < |list| :: list[i].count < WORD)
    }

    /** The map all of this stands for.  List entries of inodes the bitmaps decide are not looked at. */
    ghost function Count(ino: nat): nat
      reads this
    {
      if ino in single then 1
      else if hasMultiple && ino !in multiple then 0
      else Find(list, ino)
    }

    ghost predicate InRange(ino: nat) { 1 <= ino <= numInodes }

    /** ext2fs_create_icount2; a hint contributes the inode numbers of its list. */
    constructor (hasMultiple: bool, numInodes: nat, size: nat, hint: seq<El>)
      requires Sorted(hint) && |hint| <= size
      ensures Valid() && this.hasMultiple == hasMultiple && this.numInodes == numInodes
      ensures forall ino :: Count(ino) == 0
    {
      this.hasMultiple, this.numInodes, this.size := hasMultiple, numInodes, size;
      single, multiple, cursor, lastLookup := {}, {}, 0, -1;
      list := seq(|hint|, i requires 0 <= i < |hint| => El(hint[i].ino, 0));
    }

    /** insert_icount_el; `newSize` is whatever size the growth guess came up with. */
    method InsertEl(ino: nat, pos: nat, newSize: nat) returns (at: nat)
      requires Valid() && pos <= |list| && newSize >= size + 100
      requires (lastLookup >= 0 && list[lastLookup].ino == ino) || Between(list, ino, pos)
      modifies this`list, this`size, this`lastLookup
      ensures Valid() && at < |list| && list[at].ino == ino
      ensures forall n :: Find(list, n) == Find(old(list), n)
    {
      if lastLookup >= 0 && list[lastLookup].ino == ino {
        return lastLookup;
      }
      if |list| >= size {
        size := newSize;
      }
      SortedInserted(list, ino, pos);
      list := Inserted(list, ino, pos);
      lastLookup := pos;
      forall n ensures Find(list, n) == Find(old(list), n) {
        FindInserted(old(list), ino, pos, n);
      }
      return pos;
    }
  
    /** get_icount_el without create: the cursor hint, then binary search.  When nothing is found,
        `low` is where the entry belongs. */
    method Search(ino: nat) returns (at: int, low: nat)
      requires Valid()
      modifies this`cursor
      ensures Valid() && -1 <= at < |list|
      ensures at >= 0 ==> list[at].ino == ino
      ensures at < 0 ==> Between(list, ino, low)
    {
      low := 0;
      if list == [] {
        return -1, 0;
      }
      if cursor >= |list| {
        cursor := 0;
      }
      if ino == list[cursor].ino {
        at := cursor;
        cursor := cursor + 1;
        return;
      }
      var high := |list| - 1;
      while low <= high
        invariant 0 <= low <= high + 1 <= |list|
        invariant forall i | 0 <= i < low :: list[i].ino < ino
        invariant forall i | high < i < |list| :: ino < list[i].ino
        decreases high - low
      {
        var mid := (low + high) / 2;
        if ino == list[mid].ino {
          cursor := mid + 1;
          return mid, low;
        }
        if ino < list[mid].ino {
          high := mid - 1;
        } else {
          low := mid + 1;
        }
      }
      at := -1;
    }

    /** get_icount_el with create: an entry for `ino`, new ones with count zero. */
    method SearchOrCreate(ino: nat, newSize: nat) returns (at: nat)
      requires Valid() && newSize >= size + 100
      modifies this`list, this`size, this`lastLookup, this`cursor
      ensures Valid() && at < |list| && list[at].ino == ino
      ensures forall n :: Find(list, n) == Find(old(list), n)
    {
      hide Find;
      if list == [] || ino > list[|list| - 1].ino {
        at := InsertEl(ino, |list|, newSize);
        return;
      }
      var found, low := Search(ino);
      if found >= 0 {
        return found;
      }
      at := InsertEl(ino, low, newSize);
    }

    /** set_inode_count */
    method SetInodeCount(ino: nat, count: nat, newSize: nat)
      requires Valid() && count < WORD && newSize >= size + 100
      modifies this`list, this`size, this`lastLookup, this`cursor
      ensures Valid()
      ensures forall n :: Find(list, n) == if n == ino then count else Find(old(list), n)
    {
      hide Find;
      var at := SearchOrCreate(ino, newSize);
      ghost var before := list;
      list := list[at := El(ino, count)];
      forall n ensures Find(list, n) == if n == ino then count else Find(before, n) {
        FindUpdated(before, at, count, n);
      }
    }

    /** get_inode_count; zero when there is no entry. */
    method GetInodeCount(ino: nat) returns (count: nat)
      requires Valid()
      modifies this`cursor
      ensures Valid() && count == Find(list, ino) && count < WORD
    {
      var at, low := Search(ino);
      if at < 0 {
        SortedInserted(list, ino, low);
        FindNone(list, ino);
        return 0;
      }
      FindAt(list, at);
      return list[at].count;
    }

    /** ext2fs_icount_fetch */
    method Fetch(ino: nat) returns (status: Status, ret: nat)
      requires Valid()
      modifies this`cursor
      ensures Valid() && forall n :: Count(n) == old(Count(n))
      ensures status == if InRange(ino) then Ok else InvalidArgument
      ensures ret == if status == Ok then (if old(Count(ino)) > 65500 then 65500 else old(Count(ino))) else 0
    {
      ret := 0;
      if ino == 0 || ino > numInodes {
        return InvalidArgument, 0;
      }
      if ino in single {
        return Ok, 1;
      }
      if hasMultiple && ino !in multiple {
        return Ok, 0;
      }
      var val := GetInodeCount(ino);
      return Ok, Xlate16(val);
    }

    /** ext2fs_icount_increment */
    method Increment(ino: nat, newSize: nat) returns (status: Status, ret: nat)
      requires Valid() && newSize >= size + 100
      modifies this
      ensures Valid()
      ensures status == if InRange(ino) then Ok else InvalidArgument
      ensures forall n :: Count(n) == if n == ino && status == Ok then (old(Count(n)) + 1) % WORD else old(Count(n))
      ensures ret == if status == Ok then (if Count(ino) > 65500 then 65500 else Count(ino)) else 0
    {
      hide Find;
      ret := 0;
      if ino == 0 || ino > numInodes {
        return InvalidArgument, 0;
      }
      var curr;
      if ino in single {
        SetInodeCount(ino, 2, newSize);
        curr := 2;
        single := single - {ino};
      } else if hasMultiple {
        if ino in multiple {
          curr := GetInodeCount(ino);
          curr := (curr + 1) % WORD;
          SetInodeCount(ino, curr, newSize);
        } else {
          single := single + {ino};
          return Ok, 1;
        }
      } else {
        curr := GetInodeCount(ino);
        curr := (curr + 1) % WORD;
        SetInodeCount(ino, curr, newSize);
      }
      if hasMultiple {
        multiple := multiple + {ino};
      }
      return Ok, Xlate16(curr);
    }

    /** ext2fs_icount_decrement */
    method Decrement(ino: nat, newSize: nat) returns (status: Status, ret: nat)
      requires Valid() && newSize >= size + 100
      modifies this
      ensures Valid()
      ensures status == if InRange(ino) && old(Count(ino)) > 0 then Ok else InvalidArgument
      ensures forall n :: Count(n) == if n == ino && status == Ok then old(Count(n)) - 1 else old(Count(n))
      ensures ret == if status == Ok then (if Count(ino) > 65500 then 65500 else Count(ino)) else 0
    {
      hide Find;
      ret := 0;
      if ino == 0 || ino > numInodes {
        return InvalidArgument, 0;
      }
      if ino in single {
        single := single - {ino};
        if hasMultiple {
          multiple := multiple - {ino};
        } else {
          SetInodeCount(ino, 0, newSize);
        }
        return Ok, 0;
      }
      if hasMultiple && ino !in multiple {
        return InvalidArgument, 0;
      }
      var curr := GetInodeCount(ino);
      if curr == 0 {
        return InvalidArgument, 0;
      }
      curr := curr - 1;
      SetInodeCount(ino, curr, newSize);
      if curr == 1 {
        single := single + {ino};
      }
      if curr == 0 && hasMultiple {
        multiple := multiple - {ino};
      }
      return Ok, Xlate16(curr);
    }

    /** ext2fs_icount_store */
    method Store(ino: nat, count: nat, newSize: nat) returns (status: Status)
      requires Valid() && count < 0x1_0000 && newSize >= size + 100
      modifies this
      ensures Valid()
      ensures status == if InRange(ino) then Ok else InvalidArgument
      ensures forall n :: Count(n) == if n == ino && status == Ok then count else old(Count(n))
    {
      hide Find;
      if ino == 0 || ino > numInodes {
        return InvalidArgument;
      }
      if count == 1 {
        single := single + {ino};
        if hasMultiple {
          multiple := multiple - {ino};
        }
        return Ok;
      }
      if count == 0 {
        single := single - {ino};
        if hasMultiple {
          multiple := multiple - {ino};
        } else {
          SetInodeCount(ino, 0, newSize);
        }
        return Ok;
      }
      SetInodeCount(ino, count, newSize);
      single := single - {ino};
      if hasMultiple {
        multiple := multiple + {ino};
      }
      return Ok;
    }

    /** Any one of the four operations, with its status and, if it has one, its count. */
    method Do(op: Op, newSize: nat) returns (status: Status, ret: nat)
      requires Valid() && newSize >= size + 100 && (op.StoreOp? ==> op.value < 0x1_0000)
      modifies this
      ensures Valid()
      ensures forall n :: Count(n) == Step(numInodes, op, n, old(Count(n)))
      ensures (status, ret) == Answer(numInodes, op, old(Count(op.ino)))
    {
      hide Find;
      ret := 0;
      match op {
        case StoreOp(ino, value) =>
          status := Store(ino, value, newSize);
        case IncrementOp(ino) =>
          status, ret := Increment(ino, newSize);
        case DecrementOp(ino) =>
          status, ret := Decrement(ino, newSize);
        case FetchOp(ino) =>
          status, ret := Fetch(ino);
      }
    }
  }

  lemma FindUpdated(list: seq<El>, at: nat, count: nat, n: nat)
    requires Sorted(list) && at < |list|
    ensures Find(list[at := El(list[at].ino, count)], n) == if n == list[at].ino then count else Find(list, n)
  {
    var l := list[at := El(list[at].ino, count)];
    assert Sorted(l);
    hide Find;
    if n == list[at].ino {
      FindAt(l, at);
    } else if Listed(list, n) {
      var i :| 0 <= i < |list| && list[i].ino == n;
      FindAt(list, i);
      FindAt(l, i);
    } else {
      FindNone(list, n);
      FindNone(l, n);
    }
  }

  function Inserted(list: seq<El>, ino: nat, pos: nat): seq<El>
    requires pos <= |list|
  {
    list[..pos] + [El(ino, 0)] + list[pos..]
  }

  lemma SortedInserted(list: seq<El>, ino: nat, pos: nat)
    requires Sorted(list) && Between(list, ino, pos)
    ensures Sorted(Inserted(list, ino, pos)) && !Listed(list, ino)
  {
  }

  lemma ListedInserted(list: seq<El>, ino: nat, pos: nat, n: nat, i: nat)
    requires pos <= |list| && i <= |list|
    ensures Inserted(list, ino, pos)[i] == if i < pos then list[i] else if i == pos then El(ino, 0) else list[i - 1]
  {
  }

  /** A new entry with count zero changes no count. */
  lemma FindInserted(list: seq<El>, ino: nat, pos: nat, n: nat)
    requires Sorted(list) && Between(list, ino, pos)
    ensures Find(Inserted(list, ino, pos), n) == Find(list, n)
  {
    SortedInserted(list, ino, pos);
    var l := Inserted(list, ino, pos);
    hide Inserted, Sorted, Between, Find;
    if n == ino {
      FindNone(list, ino);
      ListedInserted(list, ino, pos, n, pos);
      FindAt(l, pos);
    } else if Listed(list, n) {
      var i :| 0 <= i < |list| && list[i].ino == n;
      FindAt(list, i);
      var k := if i < pos then i else i + 1;
      ListedInserted(list, ino, pos, n, k);
      FindAt(l, k);
    } else {
      forall k: nat | k < |l| ensures l[k].ino != n {
        ListedInserted(list, ino, pos, n, k);
      }
      FindNone(l, n);
      FindNone(list, n);
    }
  }

  // ---------- Runs ----------

  datatype Op = StoreOp(ino: nat, value: nat) | IncrementOp(ino: nat) | DecrementOp(ino: nat) | FetchOp(ino: nat)

  /** What one operation does to the count of inode n. */
  function Step(numInodes: nat, op: Op, n: nat, before: nat): nat {
    if op.ino != n || !(1 <= n <= numInodes) then before else
      match op
      case StoreOp(_, value) => value
      case IncrementOp(_) => (before + 1) % WORD
      case DecrementOp(_) => if before == 0 then 0 else before - 1
      case FetchOp(_) => before
  }

  /** What one operation answers when its inode has the count `before`. */
  function Answer(numInodes: nat, op: Op, before: nat): (Status, nat) {
    if !(1 <= op.ino <= numInodes) then (InvalidArgument, 0) else
      match op
      case StoreOp(_, _) => (Ok, 0)
      case IncrementOp(_) => (Ok, Xlate16((before + 1) % WORD))
      case DecrementOp(_) => if before == 0 then (InvalidArgument, 0) else (Ok, Xlate16(before - 1))
      case FetchOp(_) => (Ok, Xlate16(before))
  }

  /** The count of inode n after a run of operations. */
  ghost function CountAfter(numInodes: nat, ops: seq<Op>, n: nat): nat {
    if ops == [] then 0
    else Step(numInodes, ops[|ops| - 1], n, CountAfter(numInodes, ops[..|ops| - 1], n))
  }

  lemma CountNext(numInodes: nat, ops: seq<Op>, k: nat)
    requires k < |ops|
    ensures forall n :: CountAfter(numInodes, ops[..k + 1], n) == Step(numInodes, ops[k], n, CountAfter(numInodes, ops[..k], n))
  {
    assert ops[..k + 1][..k] == ops[..k];
  }

  /** A fresh icount, with or without the second bitmap and with any hint, driven through any run:
      every operation answers what the modelled count at that moment says, and the final state is
      the modelled one. */
  method Run(hasMultiple: bool, numInodes: nat, hint: seq<El>, ops: seq<Op>, growth: nat)
    returns (icount: Icount, answers: seq<(Status, nat)>)
    requires Sorted(hint) && growth >= 100
    requires forall i | 0 <= i < |ops| && ops[i].StoreOp? :: ops[i].value < 0x1_0000
    ensures icount.Valid() && forall n :: icount.Count(n) == CountAfter(numInodes, ops, n)
    ensures |answers| == |ops|
    ensures forall i | 0 <= i < |ops| :: answers[i] == Answer(numInodes, ops[i], CountAfter(numInodes, ops[..i], ops[i].ino))
  {
    hide CountAfter, Step, Answer;
    icount := new Icount(hasMultiple, numInodes, |hint|, hint);
    answers := [];
    CountNone(numInodes, ops[..0]);
    for k := 0 to |ops|
      invariant fresh(icount) && icount.Valid() && icount.numInodes == numInodes
      invariant forall n :: icount.Count(n) == CountAfter(numInodes, ops[..k], n)
      invariant |answers| == k
      invariant forall i | 0 <= i < k :: answers[i] == Answer(numInodes, ops[i], CountAfter(numInodes, ops[..i], ops[i].ino))
    {
      CountNext(numInodes, ops, k);
      var status, ret := icount.Do(ops[k], icount.size + growth);
      answers := answers + [(status, ret)];
    }
    assert ops[..|ops|] == ops;
  }

  lemma CountNone(numInodes: nat, ops: seq<Op>)
    requires ops == []
    ensures forall n :: CountAfter(numInodes, ops, n) == 0
  {
  }
}
