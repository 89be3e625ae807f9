/**
 The extent handle of source/extent.c: moving through the tree, and changing it.
 */
module Extents {
  import opened ExtentTree
  import opened ExtentWalk
  import opened ExtentGrowth
  import opened BlockAlloc
  import opened ExtentMap
  import opened ExtentEdit
  import opened ExtentMoves
  import opened ExtentCross

  datatype Err = Ok | NoNext | NoPrev | NoUp | NoDown | NoCurrent | NotFound | NotSupported
    | InvalidLength | CantSplit | NoSpace

  datatype Op = Current | Root | FirstSib | NextSib | PrevSib | Up | Down | DownAndLast

  const NoInfo := Info(0, 0, 0, false, false, false)

  /** The block was set: that succeeded, or the only block of an entry was unmapped (the entry is gone,
      even if there is no way back to the new first key). */
  predicate Made(err: Err, e: Entry, p: nat) { err == Ok || (p == 0 && e.len == 1) }

  /** What became of making room for n entries: it succeeds exactly when there is Room. */
  predicate Granted(err: Err, path: seq<Level>, depth: nat, n: nat, free: nat, left: nat, used: set<nat>, used': set<nat>) {
    && (err == Ok || err == NoSpace || err == NotFound)
    && (err == Ok <==> Room(path, depth, n, free))
    && (err == NoSpace ==> left == 0 && free < NewNodes(path))
    && (err == NotFound ==> Blind(path, depth))
    && (err == Ok ==> Spent(path, n, free, left, used, used'))
  }

  lemma SplitGranted(err: Err, path: seq<Level>, depth: nat, free: nat, left: nat, used: set<nat>, used': set<nat>, splits: nat)
    requires path != [] && |Top(path).buf.entries| >= Top(path).buf.max && (err == Ok || err == NoSpace || err == NotFound)
    requires (err == Ok <==> !Blind(path, depth) && NewNodes(path) <= free) && (err == NotFound ==> Blind(path, depth))
    requires left + splits == free && (err == Ok ==> splits == NewNodes(path)) && (err == NoSpace ==> left == 0 && splits < NewNodes(path))
    ensures Granted(err, path, depth, 1, free, left, used, used')
  {
    hide Blind;
    BlindStep(path, depth);
  }

  /** The blocks that this takes, and none where the entries fit. */
  predicate Spent(path: seq<Level>, n: nat, free: nat, left: nat, used: set<nat>, used': set<nat>) {
    left + Cost(path, n) == free && (Cost(path, n) == 0 ==> used' == used)
  }

  /** Where the block can lengthen an entry - the one before it, the one after it, or when it is the last
      or first block of another, that one's neighbour - that succeeds, with no other block taken. */
  predicate Lengthens(err: Err, still: bool, after: seq<Entry>, all: seq<Entry>, k: nat, l: nat, p: nat, uninit: bool, seen: bool)
    requires k < |all|
  {
    var e, most := all[k], if uninit then 32765 else 32766;
    && (p != 0 && l == e.lblk + e.len && p == e.pblk + e.len && uninit == e.uninit && e.len <= most ==>
          err == Ok && still && after == all[k := Entry(e.lblk, e.pblk, e.len + 1, uninit)])
    && (p != 0 && l + 1 == e.lblk && p + 1 == e.pblk && uninit == e.uninit && e.len <= most ==>
          err == Ok && still && after == all[k := Entry(l, p, e.len + 1, uninit)])
    && (p != 0 && e.lblk + e.len <= l && !(l == e.lblk + e.len && p == e.pblk + e.len && uninit == e.uninit && e.len <= most)
        && seen && k + 1 < |all| && l + 1 == all[k + 1].lblk && p + 1 == all[k + 1].pblk && uninit == all[k + 1].uninit && all[k + 1].len <= most ==>
          err == Ok && still && after == all[k + 1 := Entry(l, p, all[k + 1].len + 1, uninit)])
    && (p != 0 && e.len > 1 && l == e.lblk + e.len - 1 && (uninit != e.uninit || p != e.pblk + e.len - 1)
        && seen && k + 1 < |all| && l + 1 == all[k + 1].lblk && p + 1 == all[k + 1].pblk && uninit == all[k + 1].uninit && all[k + 1].len <= most ==>
          err == Ok && still && after == all[k := e.(len := e.len - 1)][k + 1 := Entry(l, p, all[k + 1].len + 1, uninit)])
    && (p != 0 && e.len > 1 && l == e.lblk && (uninit != e.uninit || p != e.pblk)
        && k > 0 && l == all[k - 1].lblk + all[k - 1].len && p == all[k - 1].pblk + all[k - 1].len && uninit == all[k - 1].uninit && all[k - 1].len <= most ==>
          err == Ok && still && after == all[k - 1 := all[k - 1].(len := all[k - 1].len + 1)][k := Entry(e.lblk + 1, e.pblk + 1, e.len - 1, e.uninit)])
  }

  lemma Joins(err: Err, still: bool, after: seq<Entry>, all: seq<Entry>, k: nat, l: nat, p: nat, uninit: bool, seen: bool)
    requires SetReady(all, k)
    requires p != 0 && Slots(all, k, l, p, uninit, seen) == 0 ==> err == Ok && still && after == SetList(all, k, l, p, uninit, seen)
    ensures Lengthens(err, still, after, all, k, l, p, uninit, seen)
  {
    hide SetList, Slots;
    var e, most := all[k], if uninit then 32765 else 32766;
    if p != 0 {
      if l == e.lblk + e.len && p == e.pblk + e.len && uninit == e.uninit && e.len <= most {
        JoinsBefore(all, k, l, p, uninit, seen);
      } else if l + 1 == e.lblk && p + 1 == e.pblk && uninit == e.uninit && e.len <= most {
        JoinsAfter(all, k, l, p, uninit, seen);
      } else if e.lblk + e.len <= l && seen && k + 1 < |all| && l + 1 == all[k + 1].lblk && p + 1 == all[k + 1].pblk && uninit == all[k + 1].uninit && all[k + 1].len <= most {
        JoinsNext(all, k, l, p, uninit);
      } else if e.len > 1 && l == e.lblk + e.len - 1 && (uninit != e.uninit || p != e.pblk + e.len - 1) {
        LastGoes(all, k, l, p, uninit, seen);
      } else if e.len > 1 && l == e.lblk && (uninit != e.uninit || p != e.pblk) {
        FirstGoes(all, k, l, p, uninit, seen);
      }
    }
  }

  lemma NoCost(at: seq<Level>, depth: nat, n: nat, free: nat)
    requires at != []
    ensures n == 0 ==> Cost(at, n) == 0 && Room(at, depth, n, free)
  {
  }

  lemma MadeOk(err: Err, e: Entry, p: nat)
    ensures (p != 0 && Made(err, e, p) ==> err == Ok) && (err == Ok ==> Made(err, e, p))
  {
  }

  lemma BookedStill(foot: set<nat>, used: set<nat>, blocks: nat, foot': set<nat>, used': set<nat>, blocks': nat, unit: nat)
    requires Booked(Ok, foot, used, blocks, foot', used', blocks', unit) && used' == used && foot <= used && blocks < U32
    ensures foot' == foot && blocks' == blocks
  {
    BooksStill(foot, used, blocks, foot', used', blocks', unit);
  }

  lemma NothingSpent(path: seq<Level>, free: nat, used: set<nat>)
    ensures Spent(path, 0, free, free, used, used)
  {
  }

  /** Why a block was not set: no block is left for a new node, or one is not found again. */
  predicate Failed(err: Err, path: seq<Level>, depth: nat, free: nat, left: nat) {
    (err == NoSpace && left == 0 && free < NewNodes(path)) || (err == NotFound && Blind(path, depth))
  }

  /** The ledger is as before, unless the last new node was not counted. */
  predicate Squared(err: Err, before: (set<nat>, int), after: (set<nat>, int), unit: nat) {
    after == before || (err == NotFound && after == (before.0, (before.1 - unit) % U32))
  }

  /** The books are kept, but if the way back was not found, perhaps not for the last new node. */
  ghost predicate Booked(err: Err, foot: set<nat>, used: set<nat>, blocks: nat, foot': set<nat>, used': set<nat>, blocks': nat, unit: nat) {
    Books(foot, used, blocks, foot', used', blocks', unit, 0) || (err == NotFound && Books(foot, used, blocks, foot', used', blocks', unit, 1))
  }

  /** One tree has come of another by so many splits. */
  ghost predicate CameBy(disk: Disk, es: seq<Entry>, depth: nat, used: set<nat>, blocks: nat, free: nat,
                         disk': Disk, es': seq<Entry>, depth': nat, used': set<nat>, blocks': nat, free': nat,
                         unit: nat, nodeMax: nat, splits: nat, counted: nat) {
    && Evolved(disk, es, depth, used, disk', es', depth', used', splits)
    && Sized(disk, Foot(disk, es, depth), disk', Foot(disk', es', depth'), nodeMax)
    && blocks' == (blocks + counted * unit) % U32 && free' + splits == free
  }

  lemma CameByNone(disk: Disk, es: seq<Entry>, depth: nat, used: set<nat>, blocks: nat, free: nat, unit: nat, nodeMax: nat)
    requires Formed(disk, es, depth) && blocks < U32 && forall b | b in Foot(disk, es, depth) :: b in disk
    ensures CameBy(disk, es, depth, used, blocks, free, disk, es, depth, used, blocks, free, unit, nodeMax, 0, 0)
  {
    EvolvedNot(disk, es, depth, used);
    SizedNot(disk, Foot(disk, es, depth), nodeMax);
  }

  lemma CameByFree(disk: Disk, es: seq<Entry>, depth: nat, used: set<nat>, blocks: nat, free: nat,
                   disk': Disk, es': seq<Entry>, depth': nat, used': set<nat>, blocks': nat, free': nat, unit: nat, nodeMax: nat, splits: nat, counted: nat)
    requires CameBy(disk, es, depth, used, blocks, free, disk', es', depth', used', blocks', free', unit, nodeMax, splits, counted)
    ensures free' + splits == free
  {
  }

  lemma CameByLedger(disk: Disk, es: seq<Entry>, depth: nat, used: set<nat>, blocks: nat, free: nat,
                     disk': Disk, es': seq<Entry>, depth': nat, used': set<nat>, blocks': nat, free': nat, unit: nat, nodeMax: nat, splits: nat, counted: nat)
    requires CameBy(disk, es, depth, used, blocks, free, disk', es', depth', used', blocks', free', unit, nodeMax, splits, counted)
    requires Foot(disk, es, depth) <= used && counted <= splits
    ensures free' + splits == free && Formed(disk', es', depth') && Leaves(disk', es', depth') == Leaves(disk, es, depth) && (Exact(disk, es, depth) ==> Exact(disk', es', depth'))
    ensures var before, after := LedgerOf(Foot(disk, es, depth), used, blocks, unit), LedgerOf(Foot(disk', es', depth'), used', blocks', unit);
      after == (before.0, (before.1 - (splits - counted) * unit) % U32) && (splits == counted ==> after == before)
  {
    hide LedgerOf, Foot, Leaves, Exact, Keyed, Formed;
    EvolvedCount(disk, es, depth, used, disk', es', depth', used', splits);
    LedgerGrown(Foot(disk, es, depth), used, blocks, Foot(disk', es', depth'), used', blocks', unit, splits, counted, splits - counted);
    LedgerRange(Foot(disk, es, depth), used, blocks, unit);
  }

  lemma CameByThen(d0: Disk, e0: seq<Entry>, n0: nat, u0: set<nat>, b0: nat, f0: nat, d1: Disk, e1: seq<Entry>, n1: nat, u1: set<nat>, b1: nat, f1: nat,
                   d2: Disk, e2: seq<Entry>, n2: nat, u2: set<nat>, b2: nat, f2: nat, unit: nat, nodeMax: nat, s1: nat, s2: nat, c2: nat)
    requires CameBy(d0, e0, n0, u0, b0, f0, d1, e1, n1, u1, b1, f1, unit, nodeMax, s1, s1)
    requires CameBy(d1, e1, n1, u1, b1, f1, d2, e2, n2, u2, b2, f2, unit, nodeMax, s2, c2)
    ensures CameBy(d0, e0, n0, u0, b0, f0, d2, e2, n2, u2, b2, f2, unit, nodeMax, s1 + s2, s1 + c2) && u0 <= u1
  {
    hide Evolved, Sized, Foot;
    EvolvedThen(d0, e0, n0, u0, d1, e1, n1, u1, s1, d2, e2, n2, u2, s2);
    SizedThen(d0, Foot(d0, e0, n0), d1, Foot(d1, e1, n1), d2, Foot(d2, e2, n2), nodeMax);
    AddMany(b0, s1, c2, unit);
    EvolvedIn(d0, e0, n0, u0, d1, e1, n1, u1, s1);
  }

  /** The leaf of the path has room for another entry. */
  predicate Spare(path: seq<Level>) { path != [] && |Top(path).buf.entries| < Top(path).buf.max }

  class Handle {
    var disk: Disk
    var path: seq<Level>
    var depth: nat
    /** The block count of the inode, in units of 512 bytes. */
    var iBlocks: nat
    const balloc: Blocks
    /** Entries that fit in a block, and the 512-byte units it has. */
    const nodeMax: nat
    const unit: nat
    /** Where to look for blocks when there is no better goal: the start of the inode's group. */
    const groupGoal: nat

    ghost predicate Valid()
      reads this
    {
      Steady(disk, path, depth)
    }

    /** All that ROOT needs: it does not read the position. */
    ghost predicate Rooted()
      reads this
    {
      path != [] && Formed(disk, path[0].buf.entries, depth) && (path[0].buf.entries == [] ==> depth == 0 || path[0].visit != 0)
    }

    /** All that set_bmap needs: it reads the key of the current entry, and goes to the root. */
    ghost predicate Placeable()
      reads this
    {
      Valid() || (Rooted() && |path| <= depth + 1 && Top(path).curr < |Top(path).buf.entries|)
    }

    lemma ValidPlaceable()
      requires Placeable()
      ensures Rooted() && 0 < |path| <= depth + 1 && Top(path).curr < |Top(path).buf.entries|
    {
      hide Formed;
      if Valid() {
        ValidRooted();
        SteadyTop(disk, path, depth);
      }
    }

    lemma ValidRooted()
      requires Valid()
      ensures Rooted()
    {
      hide Formed;
      SteadyTop(disk, path, depth);
      SteadyFormed0(disk, path, depth);
      if path[0].buf.entries == [] {
        RootEmpty(disk, path, depth);
      }
    }

    /** ext2fs_extent_open2, from the header in the inode. */
    constructor (disk: Disk, root: Node, depth: nat, end: nat, iBlocks: nat, balloc: Blocks, blocksize: nat, groupGoal: nat)
      requires Formed(disk, root.entries, depth) && blocksize >= 1024
      ensures Valid() && this.disk == disk && this.depth == depth && this.iBlocks == iBlocks && this.balloc == balloc
      ensures nodeMax == (blocksize - 12) / 12 && unit == blocksize / 512
      ensures path == [Level(root, |root.entries|, 1, end, -1)]
    {
      this.disk, this.depth, this.iBlocks, this.balloc := disk, depth, iBlocks, balloc;
      this.nodeMax, this.unit, this.groupGoal := (blocksize - 12) / 12, blocksize / 512, groupGoal;
      this.path := [Level(root, |root.entries|, 1, end, -1)];
    }

    /** ext2fs_extent_get for the operations that make one move. */
    method Get(op: Op) returns (err: Err, info: Info)
      requires Valid() || (op == Root && Rooted())
      modifies this`path
      ensures Valid() && path != [] && Placed(Top(path))
      ensures err == Ok ==> Top(path).curr >= 0 && info == InfoOf(Top(path), |path| == depth + 1)
      ensures err != Ok && op != Root && op != FirstSib ==> path == old(path)
      ensures op == Current ==> path == old(path) && err == if Top(path).curr >= 0 then Ok else NoCurrent
      ensures op == Root ==>
        if old(path)[0].buf.entries == [] then err == NoNext && path == [old(path)[0].(left := 0, curr := -1)]
        else err == Ok && path == [Advanced(old(path)[0].(left := |old(path)[0].buf.entries|, curr := -1))]
      ensures op == FirstSib ==>
        if Top(old(path)).buf.entries == [] then err == NoNext
        else err == Ok && path == SetTop(old(path), Advanced(Top(old(path)).(left := |Top(old(path)).buf.entries|, curr := -1)))
      ensures op == NextSib ==>
        if Top(old(path)).left > 0 then err == Ok && path == SetTop(old(path), Advanced(Top(old(path)))) else err == NoNext
      ensures op == PrevSib ==>
        if Top(old(path)).curr > 0 then err == Ok && path == SetTop(old(path), Retreated(Top(old(path)), |path| <= depth)) else err == NoPrev
      ensures op == Up ==> if |old(path)| > 1 then err == Ok && path == old(path)[..|old(path)| - 1] else err == NoUp
      ensures op == Down || op == DownAndLast ==>
        if Top(old(path)).curr >= 0 && |old(path)| <= depth
        then Top(old(path)).buf.entries[Top(old(path)).curr].pblk in disk && err == Ok
          && path == old(path) + [Entered(disk, Top(old(path)), op == DownAndLast, |old(path)| < depth)]
        else err == NoDown
    {
      hide Formed, Foot, InfoOf, EndOf;
      match op {
        case Current =>
          if Top(path).curr < 0 {
            return NoCurrent, NoInfo;
          }
        case Root =>
          err := Restart(true);
          if err != Ok {
            return err, NoInfo;
          }
        case FirstSib =>
          err := Restart(false);
          if err != Ok {
            return err, NoInfo;
          }
        case NextSib =>
          if Top(path).left <= 0 {
            return NoNext, NoInfo;
          }
          SteadyMoved(disk, path, depth, Advanced(Top(path)));
          path := SetTop(path, Advanced(Top(path)));
        case PrevSib =>
          if Top(path).curr < 0 || Top(path).left + 1 >= |Top(path).buf.entries| {
            return NoPrev, NoInfo;
          }
          SteadyMoved(disk, path, depth, Retreated(Top(path), |path| <= depth));
          path := SetTop(path, Retreated(Top(path), |path| <= depth));
        case Up =>
          if |path| <= 1 {
            return NoUp, NoInfo;
          }
          SteadyPrefix(disk, path, depth);
          path := path[..|path| - 1];
        case Down => err := Descend(false); if err != Ok { return err, NoInfo; }
        case DownAndLast => err := Descend(true); if err != Ok { return err, NoInfo; }
      }
      return Ok, InfoOf(Top(path), |path| == depth + 1);
    }

    /** ROOT and FIRST_SIB */
    method Restart(root: bool) returns (err: Err)
      requires Valid() || (root && Rooted())
      modifies this`path
      ensures Valid() && path != [] && Placed(Top(path))
      ensures root ==>
        if old(path)[0].buf.entries == [] then err == NoNext && path == [old(path)[0].(left := 0, curr := -1)]
        else err == Ok && path == [Advanced(old(path)[0].(left := |old(path)[0].buf.entries|, curr := -1))]
      ensures !root ==>
        if Top(old(path)).buf.entries == [] then err == NoNext
        else err == Ok && path == SetTop(old(path), Advanced(Top(old(path)).(left := |Top(old(path)).buf.entries|, curr := -1)))
    {
      hide Formed, Foot;
      if root {
        if Valid() {
          ValidRooted();
        }
        var r := path[0].(left := |path[0].buf.entries|, curr := -1);
        if r.left <= 0 {
          SteadyRoot(disk, depth, r);
          path := [r];
          return NoNext;
        }
        SteadyRoot(disk, depth, Advanced(r));
        path := [Advanced(r)];
      } else {
        var l := Top(path).(left := |Top(path).buf.entries|, curr := -1);
        if l.left <= 0 {
          SteadyEmpty(disk, path, depth);
          path := SetTop(path, l);
          return NoNext;
        }
        SteadyMoved(disk, path, depth, Advanced(l));
        path := SetTop(path, Advanced(l));
      }
      return Ok;
    }

    /** DOWN and DOWN_AND_LAST */
    method Descend(last: bool) returns (err: Err)
      requires Valid()
      modifies this`path
      ensures Valid()
      ensures if Top(old(path)).curr >= 0 && |old(path)| <= depth
        then Top(old(path)).buf.entries[Top(old(path)).curr].pblk in disk && err == Ok
          && path == old(path) + [Entered(disk, Top(old(path)), last, |old(path)| < depth)]
        else err == NoDown && path == old(path)
    {
      var l := Top(path);
      if l.curr < 0 || |path| > depth {
        return NoDown;
      }
      EnterSteady(disk, path, depth, last);
      var b := disk[l.buf.entries[l.curr].pblk];
      var below := if last then Level(b, 0, if |path| < depth then 1 else 0, EndOf(l), |b.entries| - 1)
                   else Level(b, |b.entries| - 1, 0, EndOf(l), 0);
      path := path + [below];
      return Ok;
    }

    /** What is still to come in a walk by NEXT. */
    ghost function ToCome(): seq<Info>
      requires Valid()
      reads this
    {
      Coming(disk, path, depth)
    }

    /** ext2fs_extent_get with NEXT: the first of what is still to come. */
    method GetNext() returns (err: Err, info: Info)
      requires Valid()
      modifies this`path
      ensures Valid() && (err == Ok || err == NoNext)
      ensures err == Ok ==> old(ToCome()) == [info] + ToCome() && Top(path).curr >= 0 && info == InfoOf(Top(path), |path| == depth + 1)
      ensures err == NoNext ==> old(ToCome()) == [] && path == old(path)
      ensures path != [] && old(path) != [] && path[0].buf == old(path)[0].buf && path[0].end == old(path)[0].end
      ensures err == Ok && |path| == depth + 1 ==> Top(path).visit == 0
      ensures err == Ok && |path| == depth + 1 && (|old(path)| <= depth || Top(old(path)).left == 0) ==> Top(path).curr == 0
      ensures |old(path)| == depth + 1 && Top(old(path)).left > 0 ==> err == Ok && path == SetTop(old(path), Advanced(Top(old(path))))
    {
      hide Steady, InfoOf, Coming, EndOf;
      SteadyTop(disk, path, depth);
      var l := Top(path);
      if |path| <= depth && l.visit == 0 {
        ComingDown(disk, path, depth);
        path := SetTop(path, l.(visit := 1));
        err, info := Get(Down);
      } else if l.left > 0 {
        ComingSibling(disk, path, depth);
        err, info := Get(NextSib);
      } else {
        ComingUp(disk, path, depth);
        err, info := Get(Up);
        if err != Ok {
          err := NoNext;
        }
      }
    }

    /** A walk over the whole tree: ROOT, and then NEXT until there is none. */
    method Walk() returns (seen: seq<Info>)
      requires Valid()
      modifies this`path
      ensures Valid() && seen == WalkOf(disk, old(path)[0].buf.entries, depth, old(path)[0].end)
    {
      hide Steady, InfoOf, Coming, Advanced, WalkOf;
      SteadyTop(disk, path, depth);
      ghost var all := WalkOf(disk, path[0].buf.entries, depth, path[0].end);
      StartWalk(disk, path, depth);
      var err, info := Get(Root);
      if err != Ok {
        return [];
      }
      seen := [info];
      while true
        invariant Valid() && all == seen + ToCome()
        decreases |ToCome()|
      {
        var e, next := GetNext();
        if e != Ok {
          return;
        }
        seen := seen + [next];
      }
    }
    /** ext2fs_extent_get with NEXT_LEAF: the first leaf entry of what is still to come. */
    method GetNextLeaf() returns (err: Err, info: Info)
      requires Valid() && Top(path).curr >= 0
      modifies this`path
      ensures Valid() && (err == Ok || err == NoNext)
      ensures path != [] && old(path) != [] && path[0].buf == old(path)[0].buf && path[0].end == old(path)[0].end
      ensures err == Ok ==> |path| == depth + 1 && Top(path).curr >= 0 && info == InfoOf(Top(path), true)
      ensures err == Ok ==> exists skipped: seq<Info> :: old(ToCome()) == skipped + [info] + ToCome() && forall i | i in skipped :: !i.leaf
      ensures err == NoNext ==> forall i | i in old(ToCome()) :: !i.leaf
      ensures |old(path)| <= depth + 1
      ensures var again := Again(disk, old(path), depth, |old(path)|);
        if err == Ok then again != [] && Top(path).buf.entries[Top(path).curr] == again[0] else again == []
      ensures |old(path)| == depth + 1 && Top(old(path)).left > 0 ==> err == Ok && path == SetTop(old(path), Advanced(Top(old(path))))
      ensures err == Ok && (|old(path)| <= depth || Top(old(path)).left == 0) ==> Top(path).curr == 0
    {
      hide Steady, Coming, WalkOf, Again, Where, LeafInfos, Advanced;
      SteadyTop(disk, path, depth);
      ghost var skipped: seq<Info> := [];
      ghost var all := ToCome();
      ComingLeaves(disk, path, depth);
      ghost var again := Again(disk, path, depth, |path|);
      while true
        invariant path != [] && path[0].buf == old(path)[0].buf && path[0].end == old(path)[0].end
        invariant Valid() && all == skipped + ToCome() && (forall i | i in skipped :: !i.leaf) && (skipped == [] ==> path == old(path))
        invariant skipped != [] ==> |path| <= depth && !(|old(path)| == depth + 1 && Top(old(path)).left > 0)
        decreases |ToCome()|
      {
        err, info := GetNext();
        if err != Ok {
          assert all == skipped;
          NoLeaf(all, again);
          return;
        }
        assert all == skipped + [info] + ToCome();
        SteadyTop(disk, path, depth);
        if |path| == depth + 1 {
          FirstLeaf(skipped, info, ToCome(), Top(path), again);
          return;
        }
        skipped := skipped + [info];
      }
    }

    /** extent_goto: down to height h, to the last entry whose key is not above blk, or the first.  It
        reports an index entry as found unless the computed length of its range shuts blk out. */
    method Goto(h: nat, blk: nat) returns (err: Err)
      requires Valid() || Rooted()
      modifies this`path
      ensures Valid() && path != [] && old(path) != [] && path[0].buf == old(path)[0].buf && path[0].end == old(path)[0].end
      ensures old(path)[0].buf.entries == [] ==> err == NotFound
      ensures old(path)[0].buf.entries != [] && h > depth ==> err == NotSupported
      ensures old(path)[0].buf.entries != [] && h <= depth ==> forall i | 0 <= i < |path| - 1 :: OpenAt(path[i], blk)
      ensures old(path)[0].buf.entries != [] && h <= depth && Keyed(disk, path[0].buf.entries, depth, 0, U32) ==>
        && |path| == depth - h + 1 && OnTrack(path, |path|, blk) && Top(path).curr >= 0
        && (if Reaches(Top(path), h == 0, blk) then err == Ok else err == NotFound)
    {
      hide Formed, Steady, InfoOf, Keyed, Pick, Entered, Foot, Scanning, OnTrack, Reaches, OpenAt;
      if Valid() {
        ValidRooted();
      }
      var err0, info := Get(Root);
      if err0 != Ok {
        return NotFound;
      }
      if h > depth {
        return NotSupported;
      }
      ghost var keyed, klo: nat, khi: nat := Keyed(disk, path[0].buf.entries, depth, 0, U32), 0, U32;
      if keyed {
        ScanStart(disk, path, depth, h, blk, 0, U32);
      }
      while true
        invariant Valid() && path != [] && path[0].buf == old(path)[0].buf && path[0].end == old(path)[0].end
        invariant keyed ==> Scanning(disk, path, depth, h, blk, klo, khi) && khi <= U32
        invariant |path| <= depth - h + 1 && Placed(Top(path)) && Top(path).curr >= 0 && info == InfoOf(Top(path), |path| == depth + 1)
        invariant forall i | 0 <= i < |path| - 1 :: OpenAt(path[i], blk)
        invariant |path| < depth - h + 1 ==> Fresh0(Top(path), blk)
        decreases depth + 1 - |path|, Top(path).left
      {
        if |path| == depth - h + 1 {
          var done;
          done, err, info := GotoLast(h, blk, info, keyed, klo, khi);
          if done {
            return;
          }
        } else {
          info, klo, khi := GotoInner(h, blk, keyed, klo, khi);
        }
      }
    }

    /** The part of extent_goto at the height asked for: one entry on, unless it ends here. */
    method GotoLast(h: nat, blk: nat, info0: Info, ghost keyed: bool, ghost klo: nat, ghost khi: nat)
      returns (done: bool, err: Err, info: Info)
      requires Valid() && h <= depth && |path| == depth - h + 1 && Placed(Top(path)) && Top(path).curr >= 0
      requires info0 == InfoOf(Top(path), |path| == depth + 1) && forall i | 0 <= i < |path| - 1 :: OpenAt(path[i], blk)
      requires keyed ==> Scanning(disk, path, depth, h, blk, klo, khi) && khi <= U32
      modifies this`path
      ensures Valid() && 0 < |path| == |old(path)| && path[0].buf == old(path)[0].buf && path[0].end == old(path)[0].end
      ensures forall i | 0 <= i < |path| - 1 :: OpenAt(path[i], blk)
      ensures !done ==> Placed(Top(path)) && Top(path).curr >= 0 && info == InfoOf(Top(path), |path| == depth + 1) && Top(path).left < Top(old(path)).left
      ensures !done && keyed ==> Scanning(disk, path, depth, h, blk, klo, khi)
      ensures done && keyed ==> OnTrack(path, |path|, blk) && Placed(Top(path)) && Top(path).curr >= 0 && (if Reaches(Top(path), h == 0, blk) then err == Ok else err == NotFound)
    {
      hide Formed, Steady, Keyed, Pick, Entered, Foot, Scanning, OnTrack, OpenAt;
      info := info0;
      InfoStart(Top(path), |path| == depth + 1);
      var err0;
      if info.lblk <= blk < info.lblk + info.len {
        if keyed {
          ScanDone(disk, path, depth, h, blk, klo, khi);
        }
        return true, Ok, info;
      }
      if blk < info.lblk {
        if keyed {
          ScanBack(disk, path, depth, h, blk, klo, khi);
        }
        err0, info := Get(PrevSib);
        return true, NotFound, info;
      }
      if keyed {
        ScanOn(disk, path, depth, h, blk, klo, khi);
      }
      err0, info := Get(NextSib);
      return err0 != Ok, NotFound, info;
    }

    /** The part of extent_goto above the height asked for: one entry on, or one level down. */
    method GotoInner(h: nat, blk: nat, ghost keyed: bool, ghost klo: nat, ghost khi: nat)
      returns (info: Info, ghost klo': nat, ghost khi': nat)
      requires Valid() && |path| < depth - h + 1 && Placed(Top(path)) && Top(path).curr >= 0 && Fresh0(Top(path), blk)
      requires keyed ==> Scanning(disk, path, depth, h, blk, klo, khi)
      requires forall i | 0 <= i < |path| - 1 :: OpenAt(path[i], blk)
      modifies this`path
      ensures Valid() && path != [] && old(path) != [] && path[0].buf == old(path)[0].buf && path[0].end == old(path)[0].end
      ensures keyed ==> Scanning(disk, path, depth, h, blk, klo', khi') && khi' <= khi
      ensures Placed(Top(path)) && Top(path).curr >= 0 && info == InfoOf(Top(path), |path| == depth + 1) && Fresh0(Top(path), blk)
      ensures |path| == |old(path)| + 1 || (|path| == |old(path)| && Top(path).left < Top(old(path)).left)
      ensures forall i | 0 <= i < |path| - 1 :: OpenAt(path[i], blk)
    {
      hide Formed, Steady, InfoOf, Keyed, Pick, Foot, Scanning, EndOf, OpenAt;
      SteadyTop(disk, path, depth);
      klo', khi' := klo, khi;
      var stay;
      stay, info := Aim(h, blk, keyed, klo, khi);
      if stay {
        return;
      }
      if keyed {
        klo', khi' := ScanDown(disk, path, depth, h, blk, klo, khi);
      }
      var err;
      err, info := Get(Down);
    }

    /** A look at the next sibling, and back when it is too far. */
    method Aim(h: nat, blk: nat, ghost keyed: bool, ghost klo: nat, ghost khi: nat) returns (stay: bool, info: Info)
      requires Valid() && |path| < depth - h + 1 && Placed(Top(path)) && Top(path).curr >= 0 && Fresh0(Top(path), blk)
      requires keyed ==> Scanning(disk, path, depth, h, blk, klo, khi)
      modifies this`path
      ensures Valid() && |path| == |old(path)| && path[..|path| - 1] == old(path)[..|path| - 1]
      ensures Top(path).buf == Top(old(path)).buf && Top(path).end == Top(old(path)).end
      ensures Placed(Top(path)) && Top(path).curr >= 0 && (keyed ==> Scanning(disk, path, depth, h, blk, klo, khi))
      ensures stay ==> info == InfoOf(Top(path), |path| == depth + 1) && Fresh0(Top(path), blk) && Top(path).left < Top(old(path)).left
      ensures !stay ==> OpenAt(Top(path), blk) && (keyed && Top(path).left > 0 ==> blk < Top(path).buf.entries[Top(path).curr + 1].lblk)
    {
      hide Formed, Steady, InfoOf, Keyed, Pick, Foot, Scanning, EndOf;
      SteadyTop(disk, path, depth);
      ghost var path0 := path;
      var err;
      err, info := Get(NextSib);
      if err == Ok {
        InfoStart(Top(path), false);
        if keyed {
          ScanNext(disk, path0, path, depth, h, blk, klo, khi);
        }
        if blk > info.lblk {
          return true, info;
        }
        if blk < info.lblk {
          err, info := Get(PrevSib);
        }
      }
      return false, info;
    }

    /** ext2fs_extent_goto: found exactly when a leaf entry covers blk, with the handle on it; else the
        handle is on the last entry before blk, or on the first one. */
    method ExtentGoto(blk: nat) returns (err: Err)
      requires (Valid() || Rooted()) && path != [] && Keyed(disk, path[0].buf.entries, depth, 0, U32)
      modifies this`path
      ensures Valid() && path[0].buf == old(path)[0].buf && path[0].end == old(path)[0].end
      ensures old(path)[0].buf.entries == [] ==> err == NotFound
      ensures old(path)[0].buf.entries != [] ==>
        && |path| == depth + 1 && Top(path).curr >= 0 && OnTrack(path, |path|, blk)
        && var all, e := Leaves(disk, path[0].buf.entries, depth), Top(path).buf.entries[Top(path).curr];
        && e in all
        && (err == Ok <==> exists x :: x in all && Covers(x, blk))
        && (err == Ok ==> Covers(e, blk)) && (err != Ok ==> err == NotFound)
        && (Exact(disk, path[0].buf.entries, depth) ==>
             if exists x :: x in all && x.lblk <= blk then e.lblk <= blk && forall x | x in all && x.lblk <= blk :: x.lblk <= e.lblk
             else e == all[0])
      ensures old(path)[0].buf.entries != [] ==> forall i | 0 <= i < depth :: OpenAt(path[i], blk)
    {
      hide Formed, InfoOf, Keyed, Pick, Foot, Leaves, Seek, Exact;
      err := Goto(0, blk);
      if path[0].buf.entries != [] {
        TrackSeek(disk, path, depth, 0, blk);
        SeekFinds(disk, path[0].buf.entries, depth, 0, U32, blk);
        LeafReach(Top(path), blk);
        if Exact(disk, path[0].buf.entries, depth) {
          SeekLast(disk, path[0].buf.entries, depth, 0, U32, blk);
          FirstLeast(disk, path[0].buf.entries, depth, 0, U32);
        }
      }
    }

    // ---------- Splitting ----------

    /** The tree is laid out on blocks in use, in groups whose bitmaps have been built, and its nodes
        have maxima that extent_header_verify accepts. */
    ghost predicate Tidy()
      reads this, balloc
    {
      Valid() && Housed()
    }

    ghost predicate Housed()
      reads this, balloc
    {
      && path != [] && balloc.Valid() && balloc.sb.blocksCount <= P48
      && 2 <= path[0].buf.max <= 4 && 8 <= nodeMax && |path[0].buf.entries| <= path[0].buf.max
      && Foot(disk, path[0].buf.entries, depth) <= balloc.Settled()
      && (forall b | b in Foot(disk, path[0].buf.entries, depth) :: b in disk && 6 <= disk[b].max <= nodeMax)
    }

    /** Keys in order, in 32 bits. */
    ghost predicate Ordered()
      requires path != []
      reads this
    {
      Keyed(disk, path[0].buf.entries, depth, 0, U32)
    }

    /** The leaf entries, in order. */
    ghost function Listing(): seq<Entry>
      requires path != []
      reads this
    {
      Leaves(disk, path[0].buf.entries, depth)
    }

    /** What is not of the tree: blocks in use, and i_blocks without its nodes. */
    ghost function Ledger(): (set<nat>, int)
      requires path != [] && balloc.Valid()
      reads this, balloc
    {
      LedgerOf(Foot(disk, path[0].buf.entries, depth), balloc.InUse(), iBlocks, unit)
    }

    /** extent_node_split below a parent with room: from the allocation to the new index entry. */
    method CutNode(nb: nat)
      requires Tidy() && Splittable(disk, path, depth, nb, nodeMax) && nb < P48
      modifies this`disk, this`path
      ensures |path| == |old(path)| - 1
      ensures path == old(path)[..|old(path)| - 2] + [Adopted(old(path)[|old(path)| - 2], Top(old(path)), nb)]
      ensures disk == Cutting(old(disk), old(path), nb, nodeMax)
    {
      hide Formed, Foot, Steady, Tidy;
      var n, t := |path| - 1, Top(path);
      var k := |t.buf.entries| - |t.buf.entries| / 2;
      disk := disk[nb := Node(nodeMax, t.buf.entries[k..])];
      disk := disk[BlockAt(path, n) := t.buf.(entries := t.buf.entries[..k])];
      path := path[..n];
      InsertAfter(Index(t.buf.entries[k].lblk, nb));
    }

    /** The part of ext2fs_extent_insert that moves the later entries on and writes the node, for
        INSERT_AFTER a current entry. */
    method InsertAfter(e: Entry)
      requires path != [] && Placed(Top(path)) && Top(path).curr >= 0
      requires |path| > 1 ==> Placed(path[|path| - 2]) && path[|path| - 2].curr >= 0
      modifies this`disk, this`path
      ensures var l := Top(old(path));
        path == SetTop(old(path), l.(buf := l.buf.(entries := l.buf.entries[..l.curr + 1] + [e] + l.buf.entries[l.curr + 1..]), curr := l.curr + 1))
      ensures disk == if |path| == 1 then old(disk) else old(disk)[BlockAt(old(path), |path| - 1) := Top(path).buf]
    {
      var l := Top(path);
      var ix := l.curr + 1;
      var left := l.left - 1;
      var es := l.buf.entries[..ix] + [e] + l.buf.entries[ix..];
      left := left + 1;
      path := SetTop(path, l.(buf := l.buf.(entries := es), curr := ix, left := left));
      if |path| > 1 {
        disk := disk[BlockAt(path, |path| - 1) := Top(path).buf];
      }
    }

    /** What every split keeps, whatever its outcome; not all new blocks need have been counted. */
    twostate predicate Split(splits: nat, counted: nat)
      requires old(path) != [] && path != [] && old(balloc.Valid()) && balloc.Valid()
      reads this, balloc
    {
      && CameBy(old(disk), old(path)[0].buf.entries, old(depth), old(balloc.InUse()), old(iBlocks), old(balloc.FreeBlocks()),
                disk, path[0].buf.entries, depth, balloc.InUse(), iBlocks, balloc.FreeBlocks(), unit, nodeMax, splits, counted)
      && path[0].end == old(path)[0].end
    }

    /** The same entry as before, at the same height, and still where the same descents end. */
    twostate predicate SameEntry()
      requires old(path) != [] && path != []
      reads this
    {
      && 0 <= Top(path).curr < |Top(path).buf.entries| && 0 <= Top(old(path)).curr < |Top(old(path)).buf.entries|
      && Top(path).buf.entries[Top(path).curr] == Top(old(path)).buf.entries[Top(old(path)).curr]
      && |path| - depth == |old(path)| - old(depth) && |path| <= depth + 1
      && Placed(Top(path)) && Placed(Top(old(path))) && EndOf(Top(path)) == EndOf(Top(old(path)))
      && Follows(old(path), path)
    }

    /** A block for a new node. */
    method TakeBlock(goal: nat) returns (ok: bool, nb: nat)
      requires Tidy()
      modifies balloc
      ensures Tidy() && Foot(disk, path[0].buf.entries, depth) <= old(balloc.InUse())
      ensures if ok then nb < P48 && nb !in old(balloc.InUse()) && balloc.InUse() == old(balloc.InUse()) + {nb} && nb in balloc.Settled()
        else balloc.InUse() == old(balloc.InUse())
      ensures if ok then balloc.FreeBlocks() + 1 == old(balloc.FreeBlocks()) else balloc.FreeBlocks() == old(balloc.FreeBlocks()) == 0
      ensures ok ==> Nearest(balloc.sb, old(balloc.InUse()), goal, nb)
    {
      hide Formed, Foot, Steady, Blocks.InUse, Blocks.Settled, Blocks.FreeBlocks, Blocks.Valid, Blocks.FreeBlocks;
      balloc.SettledInUse();
      ok, nb := balloc.Allocate(goal);
    }

    /** The rest of extent_node_split, when there is room for a new entry in the parent. */
    method SplitHere(goal: nat) returns (err: Err, ghost splits: nat)
      requires Tidy() && Ordered() && Top(path).curr >= 0 && iBlocks < U32
      requires |path| > 1 ==> |path[|path| - 2].buf.entries| < path[|path| - 2].buf.max
      modifies this`disk, this`path, this`depth, this`iBlocks, balloc
      ensures Tidy() && Ordered() && Split(splits, if err == Ok then 1 else 0) && iBlocks < U32
      ensures err == Ok || err == CantSplit || err == NoSpace || err == NotFound
      ensures err == CantSplit ==> |old(path)| > 1 && |Top(old(path)).buf.entries| < 2
      ensures err == CantSplit || err == NoSpace ==> splits == 0 && disk == old(disk) && path == old(path) && depth == old(depth)
      ensures err == NoSpace ==> balloc.FreeBlocks() == 0
      ensures err == Ok || err == NotFound ==>
        && splits == 1 && SameEntry() && |Top(path).buf.entries| + 1 < Top(path).buf.max && Halved(old(path), path)
        && old(balloc.InUse()) <= balloc.InUse() && TookNear(balloc.sb, old(balloc.InUse()), balloc.InUse(), goal)
        && Agree(old(disk), disk, Foot(old(disk), Top(old(path)).buf.entries, old(depth) - (|old(path)| - 1)))
      ensures (err == NotFound ==> NoLength(old(path), old(depth))) && (err == Ok ==> !NoLength(old(path), old(depth)))
    {
      hide Formed, Foot, Steady, Keyed, Leaves, Evolved, Exact, Splittable, Blocks.InUse, Blocks.Settled, Blocks.FreeBlocks, Blocks.Valid,
           Pick, OnTrack, Follows, NoLength, Agree, Nearest, TookNear, Halved, Sized, EndOf, Placed;
      SteadyTop(disk, path, depth);
      SteadyFormed0(disk, path, depth);
      CameByNone(disk, path[0].buf.entries, depth, balloc.InUse(), iBlocks, balloc.FreeBlocks(), unit, nodeMax);
      ghost var used0 := balloc.InUse();
      var n := |Top(path).buf.entries|;
      var tocopy := if |path| == 1 then n else n / 2;
      if tocopy == 0 {
        return CantSplit, 0;
      }
      var ok, nb := TakeBlock(goal);
      if !ok {
        return NoSpace, 0;
      }
      TookOne(balloc.sb, used0, goal, nb);
      err := MoveOut(nb, used0);
      if err != Ok {
        return err, 1;
      }
      AddOne(iBlocks, 0, unit);
      iBlocks := (iBlocks + unit) % U32;
      return Ok, 1;
    }

    /** All entries of the root move to the new node, or half of those of another. */
    method MoveOut(nb: nat, ghost used0: set<nat>) returns (err: Err)
      requires Tidy() && Ordered() && Top(path).curr >= 0 && nb < P48
      requires |path| > 1 ==> |Top(path).buf.entries| >= 2 && |path[|path| - 2].buf.entries| < path[|path| - 2].buf.max
      requires nb !in used0 && balloc.InUse() == used0 + {nb} && Foot(disk, path[0].buf.entries, depth) <= used0 && nb in balloc.Settled()
      modifies this`disk, this`path, this`depth
      ensures Tidy() && Ordered() && path[0].end == old(path)[0].end
      ensures Evolved(old(disk), old(path)[0].buf.entries, old(depth), used0, disk, path[0].buf.entries, depth, used0 + {nb}, 1)
      ensures Sized(old(disk), Foot(old(disk), old(path)[0].buf.entries, old(depth)), disk, Foot(disk, path[0].buf.entries, depth), nodeMax)
      ensures SameEntry() && |Top(path).buf.entries| + 1 < Top(path).buf.max && Halved(old(path), path) && |old(path)| <= old(depth) + 1
      ensures Agree(old(disk), disk, Foot(old(disk), Top(old(path)).buf.entries, old(depth) - (|old(path)| - 1)))
      ensures err == if NoLength(old(path), old(depth)) then NotFound else Ok
    {
      hide Formed, Foot, Steady, Keyed, Leaves, Evolved, Exact, Blocks.InUse, Blocks.Settled, Blocks.FreeBlocks, Blocks.Valid,
           Pick, OnTrack, Follows, NoLength, Agree, Halved, Sized, EndOf, Placed;
      SteadyTop(disk, path, depth);
      if |path| == 1 {
        err := MoveRoot(nb, used0);
      } else {
        err := MoveHalf(nb, used0);
      }
    }

    /** Back to an entry whose position is known: it is found there, but above the leaf not if the
        length of its range comes out as zero. */
    method GoBack(h: nat, blk: nat, ghost kept: seq<Level>) returns (err: Err)
      requires Valid() && Ordered() && h <= depth && |kept| == depth - h + 1
      requires Steady(disk, kept, depth) && kept[0].buf == path[0].buf && kept[0].end == path[0].end
      requires 0 <= Top(kept).curr < |Top(kept).buf.entries| && blk == Top(kept).buf.entries[Top(kept).curr].lblk
      modifies this`path
      ensures Valid() && Ordered() && path[0].buf == old(path)[0].buf && path[0].end == old(path)[0].end
      ensures |path| == |kept| && forall i | 0 <= i < |path| :: path[i].buf == kept[i].buf && path[i].curr == kept[i].curr
      ensures Follows(kept, path) && Placed(Top(path)) && Placed(Top(kept)) && EndOf(Top(path)) == EndOf(Top(kept))
      ensures err == if NoLength(kept, depth) then NotFound else Ok
    {
      hide Formed, Foot, Keyed, Pick, Leaves, Steady, OnTrack, Reaches;
      SteadyTop(disk, kept, depth);
      PathIsTrack(disk, kept, depth, 0, U32);
      TrackRoot(kept, blk);
      SteadyTop(disk, path, depth);
      err := Goto(h, blk);
      SteadyTop(disk, path, depth);
      forall i | 0 <= i < |path| ensures path[i].buf == kept[i].buf && path[i].curr == kept[i].curr && path[i].end == kept[i].end {
        TrackPrefix(path, i + 1, blk);
        TrackPrefix(kept, i + 1, blk);
        TrackUnique(disk, path, kept, depth, i, blk);
      }
      FollowsSame(kept, path);
      FoundBack(disk, path, depth, h);
      SameLength(path, depth, kept, depth);
    }

    /** Splitting the root: all its entries move to the new node. */
    method MoveRoot(nb: nat, ghost used0: set<nat>) returns (err: Err)
      requires Tidy() && Ordered() && |path| == 1 && Top(path).curr >= 0 && nb < P48
      requires nb !in used0 && balloc.InUse() == used0 + {nb} && Foot(disk, path[0].buf.entries, depth) <= used0 && nb in balloc.Settled()
      modifies this`disk, this`path, this`depth
      ensures Tidy() && Ordered() && path[0].end == old(path)[0].end && depth == old(depth) + 1 && |path| == 2
      ensures Evolved(old(disk), old(path)[0].buf.entries, old(depth), used0, disk, path[0].buf.entries, depth, used0 + {nb}, 1)
      ensures Sized(old(disk), Foot(old(disk), old(path)[0].buf.entries, old(depth)), disk, Foot(disk, path[0].buf.entries, depth), nodeMax)
      ensures SameEntry() && |Top(path).buf.entries| + 1 < Top(path).buf.max && Halved(old(path), path)
      ensures Agree(old(disk), disk, Foot(old(disk), old(path)[0].buf.entries, old(depth)))
      ensures err == if NoLength(old(path), old(depth)) then NotFound else Ok
    {
      hide Formed, Foot, Keyed, Leaves, Exact, Blocks.InUse, Blocks.Settled, Blocks.FreeBlocks, Blocks.Valid, Pick,
           Steady, OnTrack, Follows;
      SteadyTop(disk, path, depth);
      SteadyFormed0(disk, path, depth);
      ghost var l := path[0];
      ghost var es := l.buf.entries;
      RootEvolved(disk, es, depth, used0, nb, nodeMax);
      RootKept(disk, path, depth, nb, nodeMax);
      ghost var kept := [Level(l.buf.(entries := [Index(es[0].lblk, nb)]), 0, 0, l.end, 0), Level(Node(nodeMax, es), |es| - 1 - l.curr, 0, l.end, l.curr)];
      RootTrack(path, kept);
      var root := path[0];
      disk := disk[nb := Node(nodeMax, root.buf.entries)];
      depth := depth + 1;
      path := [root.(buf := root.buf.(entries := [Index(root.buf.entries[0].lblk, nb)]), left := 0, visit := 0, curr := 0)];
      SameLength(old(path), old(depth), kept, depth);
      err := GoBack(depth - 1, root.buf.entries[root.curr].lblk, kept);
      FollowsThen(old(path), kept, path);
    }

    /** Splitting another node: half of its entries move to the new node. */
    method MoveHalf(nb: nat, ghost used0: set<nat>) returns (err: Err)
      requires Tidy() && Ordered() && |path| > 1 && Top(path).curr >= 0 && |Top(path).buf.entries| >= 2 && nb < P48
      requires |path[|path| - 2].buf.entries| < path[|path| - 2].buf.max
      requires nb !in used0 && balloc.InUse() == used0 + {nb} && Foot(disk, path[0].buf.entries, depth) <= used0 && nb in balloc.Settled()
      modifies this`disk, this`path
      ensures Tidy() && Ordered() && path[0].end == old(path)[0].end && |path| == |old(path)|
      ensures Evolved(old(disk), old(path)[0].buf.entries, depth, used0, disk, path[0].buf.entries, depth, used0 + {nb}, 1)
      ensures Sized(old(disk), Foot(old(disk), old(path)[0].buf.entries, depth), disk, Foot(disk, path[0].buf.entries, depth), nodeMax)
      ensures SameEntry() && |Top(path).buf.entries| + 1 < Top(path).buf.max && Halved(old(path), path)
      ensures Agree(old(disk), disk, Foot(old(disk), Top(old(path)).buf.entries, depth - (|old(path)| - 1)))
      ensures err == if NoLength(old(path), old(depth)) then NotFound else Ok
    {
      hide Formed, Foot, Keyed, Leaves, Exact, Blocks.InUse, Blocks.Settled, Blocks.FreeBlocks, Blocks.Valid, Pick, Steady, Evolved, OnTrack,
           Follows, Halved, Agree, NoLength, Sized;
      SteadyTop(disk, path, depth);
      var t, h := Top(path), depth - (|path| - 1);
      ghost var kept := CutHalf(nb, used0);
      err := GoBack(h, t.buf.entries[t.curr].lblk, kept);
      HalvedSame(old(path), kept, path);
      FollowsThen(old(path), kept, path);
    }

    /** The cut; the handle is to come back to the position `kept`. */
    method CutHalf(nb: nat, ghost used0: set<nat>) returns (ghost kept: seq<Level>)
      requires Tidy() && Ordered() && |path| > 1 && Top(path).curr >= 0 && |Top(path).buf.entries| >= 2 && nb < P48
      requires |path[|path| - 2].buf.entries| < path[|path| - 2].buf.max
      requires nb !in used0 && balloc.InUse() == used0 + {nb} && Foot(disk, path[0].buf.entries, depth) <= used0 && nb in balloc.Settled()
      modifies this`disk, this`path
      ensures Tidy() && Ordered() && path[0].end == old(path)[0].end
      ensures Evolved(old(disk), old(path)[0].buf.entries, depth, used0, disk, path[0].buf.entries, depth, used0 + {nb}, 1)
      ensures Sized(old(disk), Foot(old(disk), old(path)[0].buf.entries, depth), disk, Foot(disk, path[0].buf.entries, depth), nodeMax)
      ensures |kept| == |old(path)| && Steady(disk, kept, depth) && kept[0].buf == path[0].buf && kept[0].end == path[0].end
      ensures var l, t := Top(kept), Top(old(path));
        && 0 <= l.curr < |l.buf.entries| && 0 <= t.curr < |t.buf.entries| && l.buf.entries[l.curr] == t.buf.entries[t.curr]
        && |l.buf.entries| + 1 < l.buf.max && Placed(l) && Placed(t) && EndOf(l) == EndOf(t)
      ensures Halved(old(path), kept) && Follows(old(path), kept) && NoLength(kept, depth) == NoLength(old(path), depth)
      ensures Agree(old(disk), disk, Foot(old(disk), Top(old(path)).buf.entries, depth - (|old(path)| - 1)))
    {
      hide Formed, Foot, Keyed, Leaves, Exact, Blocks.InUse, Blocks.Settled, Blocks.FreeBlocks, Blocks.Valid, Pick, Steady, Cutting, Kept,
           Adopted, Evolved, Same, OnTrack, Follows, Halved;
      SteadyTop(disk, path, depth);
      NodeBounds(disk, path, depth, nodeMax);
      SplittableIs(disk, path, depth);
      SplitSame(disk, path, depth, nb, nodeMax);
      SplitUp(disk, path, depth, nb, nodeMax);
      SplitKept(disk, path, depth, nb, nodeMax);
      KeptEntry(path, nb, nodeMax);
      KeptEnd(path, nb, nodeMax);
      KeptHalf(path, nb, nodeMax);
      CuttingMax(disk, path, depth, nb, nodeMax);
      CuttingBelow(disk, path, depth, nb, nodeMax);
      kept := Kept(path, nb, nodeMax);
      SplitRoots(disk, path, depth, nb, nodeMax, used0);
      FollowsKept(disk, path, depth, nb, nodeMax);
      CutNode(nb);
      EvolvedUse(old(disk), old(path)[0].buf.entries, depth, used0, disk, path[0].buf.entries, depth, used0 + {nb}, 1, 0, U32);
      SameLength(old(path), depth, kept, depth);
    }

    lemma Unfold()
      requires Tidy()
      ensures Valid() && balloc.Valid() && path != [] && Formed(disk, path[0].buf.entries, depth)
    {
    }

    /** extent_node_split: parents that are full are split first, and a full root moves down.  Nothing
        is lost and no descent changes.  It fails exactly when the blocks for the new nodes are not
        there, or when extent_get reports no length for an index entry to which it comes back. */
    method NodeSplit() returns (err: Err, ghost splits: nat, ghost counted: nat)
      requires Tidy() && Ordered() && iBlocks < U32
      modifies this`disk, this`path, this`depth, this`iBlocks, balloc
      ensures Tidy() && Ordered() && Split(splits, counted) && iBlocks < U32
      ensures err == Ok || err == CantSplit || err == NoSpace || err == NoCurrent || err == NotFound
      ensures Top(old(path)).curr >= 0 && (|old(path)| > 1 ==> |Top(old(path)).buf.entries| >= 2) ==>
        (err == Ok <==> !Blind(old(path), old(depth)) && NewNodes(old(path)) <= old(balloc.FreeBlocks()))
      ensures err == NoCurrent <==> Top(old(path)).curr < 0
      ensures err == CantSplit ==> |old(path)| > 1 && |Top(old(path)).buf.entries| < 2
      ensures (err == NotFound ==> Blind(old(path), old(depth))) && (err == Ok ==> !Blind(old(path), old(depth)))
      ensures if err == NotFound then counted <= splits <= counted + 1 else counted == splits
      ensures err == NoSpace ==> splits < NewNodes(old(path)) && balloc.FreeBlocks() == 0
      ensures err == Ok ==> splits == NewNodes(old(path))
      ensures err == Ok ==>
        && SameEntry() && |Top(path).buf.entries| + 1 < Top(path).buf.max && Halved(old(path), path)
        && Agree(old(disk), disk, Foot(old(disk), Top(old(path)).buf.entries, old(depth) - (|old(path)| - 1)))
      ensures err == Ok ==>
        TookNear(balloc.sb, old(balloc.InUse()), balloc.InUse(),
                 if |old(path)| > 1 && |old(path)[|old(path)| - 2].buf.entries| >= old(path)[|old(path)| - 2].buf.max then BlockAt(old(path), |old(path)| - 1)
                 else groupGoal)
      ensures err == Ok && |old(path)| == 1 ==> Top(path).buf.entries == Top(old(path)).buf.entries
      ensures err == Ok && |old(path)| > 1 ==> var t := Top(old(path)); var n := |t.buf.entries| - |t.buf.entries| / 2;
        Top(path).buf.entries == if t.curr < n then t.buf.entries[..n] else t.buf.entries[n..]
      decreases |path|, 1
    {
      hide Formed, Foot, Steady, Keyed, Leaves, Evolved, Exact, Blocks.InUse, Blocks.Settled, Blocks.FreeBlocks, Blocks.Valid, Pick,
           Agree, OnTrack, Follows, Blind, NewNodes, TookNear, Halved, Sized, CameBy;
      Unfold();
      SteadyTop(disk, path, depth);
      CameByNone(disk, path[0].buf.entries, depth, balloc.InUse(), iBlocks, balloc.FreeBlocks(), unit, nodeMax);
      if Top(path).curr < 0 {
        return NoCurrent, 0, 0;
      }
      if |path| > 1 && |path[|path| - 2].buf.entries| >= path[|path| - 2].buf.max {
        err, splits, counted := SplitBoth();
      } else {
        err, splits := SplitHere(groupGoal);
        counted := if err == Ok then 1 else 0;
        BlindStep(old(path), old(depth));
      }
      CameByFree(old(disk), old(path)[0].buf.entries, old(depth), old(balloc.InUse()), old(iBlocks), old(balloc.FreeBlocks()),
                 disk, path[0].buf.entries, depth, balloc.InUse(), iBlocks, balloc.FreeBlocks(), unit, nodeMax, splits, counted);
      if err == Ok {
        HalvedIs(old(path), path);
      }
    }

    /** First the parent, then the node itself. */
    method SplitBoth() returns (err: Err, ghost splits: nat, ghost counted: nat)
      requires Tidy() && Ordered() && iBlocks < U32 && |path| > 1 && Top(path).curr >= 0
      requires |path[|path| - 2].buf.entries| >= path[|path| - 2].buf.max
      modifies this`disk, this`path, this`depth, this`iBlocks, balloc
      ensures Tidy() && Ordered() && Split(splits, counted) && iBlocks < U32
      ensures err == Ok || err == CantSplit || err == NoSpace || err == NotFound
      ensures err == CantSplit ==> |Top(old(path)).buf.entries| < 2
      ensures (err == NotFound ==> Blind(old(path), old(depth))) && (err == Ok ==> !Blind(old(path), old(depth)))
      ensures if err == NotFound then counted <= splits <= counted + 1 else counted == splits
      ensures err == NoSpace ==> splits < NewNodes(old(path)) && balloc.FreeBlocks() == 0
      ensures err == Ok ==> splits == NewNodes(old(path))
      ensures err == Ok ==>
        && SameEntry() && |Top(path).buf.entries| + 1 < Top(path).buf.max && Halved(old(path), path)
        && Agree(old(disk), disk, Foot(old(disk), Top(old(path)).buf.entries, old(depth) - (|old(path)| - 1)))
      ensures err == Ok ==> TookNear(balloc.sb, old(balloc.InUse()), balloc.InUse(), BlockAt(old(path), |old(path)| - 1))
      decreases |path|, 0
    {
      hide Formed, Foot, Steady, Keyed, Leaves, Evolved, Exact, Blocks.InUse, Blocks.Settled, Blocks.FreeBlocks, Blocks.Valid, Pick, Tidy,
           Ordered, Agree, Follows, Blind, NewNodes, TookNear, Halved, Sized, EndOf, Placed, CameBy;
      Unfold();
      SteadyTop(disk, path, depth);
      SteadyFormed(disk, path, depth, |path| - 1);
      ghost var t, h: nat, path0 := Top(path), depth - (|path| - 1), path;
      var goal;
      err, goal, splits, counted := SplitParent();
      if err != Ok {
        return;
      }
      Unfold();
      ghost var d1, e1, n1, u1, b1, f1 := disk, path[0].buf.entries, depth, balloc.InUse(), iBlocks, balloc.FreeBlocks();
      ghost var s1, path1 := splits, path;
      ghost var more: nat;
      err, more := SplitHere(goal);
      splits := s1 + more;
      counted := s1 + if err == Ok then 1 else 0;
      Unfold();
      CameByThen(old(disk), old(path)[0].buf.entries, old(depth), old(balloc.InUse()), old(iBlocks), old(balloc.FreeBlocks()), d1, e1, n1, u1, b1, f1,
                 disk, path[0].buf.entries, depth, balloc.InUse(), iBlocks, balloc.FreeBlocks(), unit, nodeMax, s1, more, if err == Ok then 1 else 0);
      if err == Ok {
        AgreeThen(old(disk), d1, disk, t.buf.entries, h);
        FollowsThen(path0, path1, path);
      }
      BlindStep(path0, old(depth));
      if err == Ok {
        HalvedThen(path0, path1, path);
        TookMore(balloc.sb, old(balloc.InUse()), u1, balloc.InUse(), goal);
      }
    }

    /** Splitting a full parent, and coming back. */
    method SplitParent() returns (err: Err, goal: nat, ghost splits: nat, ghost counted: nat)
      requires Tidy() && Ordered() && iBlocks < U32 && |path| > 1 && Top(path).curr >= 0
      requires |path[|path| - 2].buf.entries| >= path[|path| - 2].buf.max
      modifies this`disk, this`path, this`depth, this`iBlocks, balloc
      ensures Tidy() && Ordered() && Split(splits, counted) && iBlocks < U32
      ensures err == Ok || err == NoSpace || err == NotFound
      ensures err == Ok ==> |path| > 1 && |path| - depth == |old(path)| - old(depth) && goal == BlockAt(old(path), |old(path)| - 1)
      ensures err == Ok ==> Top(path).buf == Top(old(path)).buf && Top(path).curr == Top(old(path)).curr
      ensures err == Ok ==> |path[|path| - 2].buf.entries| < path[|path| - 2].buf.max
      ensures err == Ok ==> Follows(old(path), path) && Placed(Top(path)) && Placed(Top(old(path))) && EndOf(Top(path)) == EndOf(Top(old(path)))
      ensures err == Ok ==> Agree(old(disk), disk, Foot(old(disk), Top(old(path)).buf.entries, old(depth) - (|old(path)| - 1)))
      ensures (err == NotFound ==> Blind(old(path), old(depth))) && (err == Ok ==> !Blind(old(path), old(depth)))
      ensures if err == NotFound then counted <= splits <= counted + 1 else counted == splits
      ensures err == NoSpace ==> splits + 1 < NewNodes(old(path)) && balloc.FreeBlocks() == 0
      ensures err == Ok ==> splits + 1 == NewNodes(old(path))
      decreases |path| - 1, 3
    {
      hide Formed, Foot, Steady, Keyed, Leaves, Evolved, Exact, Splittable, Blocks.InUse, Blocks.Settled, Blocks.FreeBlocks, Blocks.Valid,
           Pick, OnTrack, Follows, Blind, NewNodes, Agree, Sized, CameBy;
      SteadyTop(disk, path, depth);
      SteadyCurrentAll(disk, path, depth);
      var t, h := Top(path), depth - (|path| - 1);
      ghost var path0 := path;
      err, goal, splits, counted := SplitAbove();
      BlindStep(path0, old(depth));
      if err != Ok {
        return;
      }
      err := ComeBack(t, h, path0, old(depth), path0[..|path0| - 1]);
    }

    /** One level up, and splitting there. */
    method SplitAbove() returns (err: Err, goal: nat, ghost splits: nat, ghost counted: nat)
      requires Tidy() && Ordered() && iBlocks < U32 && |path| > 1 && Top(path).curr >= 0
      requires |path[|path| - 2].buf.entries| >= path[|path| - 2].buf.max
      modifies this`disk, this`path, this`depth, this`iBlocks, balloc
      ensures Tidy() && Ordered() && Split(splits, counted) && iBlocks < U32
      ensures err == Ok || err == NoSpace || err == NotFound
      ensures err == Ok ==>
        && 0 < |path| <= depth && |path| - depth == |old(path)| - 1 - old(depth) && goal == BlockAt(old(path), |old(path)| - 1)
        && Top(path).curr >= 0 && Top(path).curr < |Top(path).buf.entries| < Top(path).buf.max
        && Top(path).buf.entries[Top(path).curr].pblk in disk && disk[Top(path).buf.entries[Top(path).curr].pblk] == Top(old(path)).buf
        && Placed(Top(path)) && Top(old(path)).end == EndOf(Top(path)) && Follows(old(path)[..|old(path)| - 1], path)
        && Agree(old(disk), disk, Foot(old(disk), Top(old(path)).buf.entries, old(depth) - (|old(path)| - 1)))
      ensures (err == NotFound ==> Blind(old(path)[..|old(path)| - 1], old(depth))) && (err == Ok ==> !Blind(old(path)[..|old(path)| - 1], old(depth)))
      ensures if err == NotFound then counted <= splits <= counted + 1 else counted == splits
      ensures err == NoSpace ==> splits < NewNodes(old(path)[..|old(path)| - 1]) && balloc.FreeBlocks() == 0
      ensures err == Ok ==> splits == NewNodes(old(path)[..|old(path)| - 1])
      decreases |path| - 1, 2
    {
      hide Formed, Foot, Steady, Keyed, Leaves, Evolved, Exact, Splittable, Blocks.InUse, Blocks.Settled, Blocks.FreeBlocks, Blocks.Valid,
           Pick, OnTrack, Follows, Blind, NewNodes, Halved, TookNear, Sized, EndOf, Agree, CameBy;
      goal := StepUp();
      ghost var disk0, l, d := disk, Top(path), depth + 1 - |path|;
      err, splits, counted := NodeSplit();
      SteadyTop(disk, path, depth);
      if err == Ok {
        AgreeBelow(disk0, disk, l.buf.entries, d, l.curr);
      }
    }

    /** UP, to a full node. */
    method StepUp() returns (goal: nat)
      requires Tidy() && |path| > 1 && |path[|path| - 2].buf.entries| >= path[|path| - 2].buf.max
      modifies this`path
      ensures Tidy() && path == old(path)[..|old(path)| - 1] && 0 < |path| <= depth && path[0].buf == old(path)[0].buf && path[0].end == old(path)[0].end
      ensures 0 <= Top(path).curr < |Top(path).buf.entries| && (|path| > 1 ==> |Top(path).buf.entries| >= 2)
      ensures goal == BlockAt(old(path), |old(path)| - 1) == Top(path).buf.entries[Top(path).curr].pblk
      ensures goal in disk && disk[goal] == Top(old(path)).buf && Placed(Top(path)) && Top(old(path)).end == EndOf(Top(path))
      ensures Formed(disk, Top(path).buf.entries, depth + 1 - |path|)
    {
      hide Formed, Foot, Steady, Blocks.InUse, Blocks.Settled, Blocks.FreeBlocks, Blocks.Valid, EndOf;
      SteadyTop(disk, path, depth);
      Above(disk, path, depth);
      SteadyFormed(disk, path, depth, |path| - 2);
      var err, info := Get(Up);
      goal := info.pblk;
    }

    /** Back to the node below the entry that the handle is on. */
    method ComeBack(t: Level, h: nat, ghost path0: seq<Level>, ghost depth0: nat, ghost up: seq<Level>) returns (err: Err)
      requires Valid() && Ordered() && |path| <= depth && Top(path).curr >= 0 && h == depth - |path| && Placed(t) && t.curr >= 0
      requires Top(path).buf.entries[Top(path).curr].pblk in disk && disk[Top(path).buf.entries[Top(path).curr].pblk] == t.buf
      requires |path0| > 1 && up == path0[..|path0| - 1] && Follows(up, path) && Top(path0) == t
      requires Placed(Top(path)) && t.end == EndOf(Top(path)) && |path0| - depth0 == |path| + 1 - depth
      modifies this`path
      ensures Valid() && Ordered() && path[0].buf == old(path)[0].buf && path[0].end == old(path)[0].end
      ensures |path| == |old(path)| + 1 && Top(path).buf == t.buf && Top(path).curr == t.curr
      ensures path[|path| - 2].buf == Top(old(path)).buf && Follows(path0, path)
      ensures Placed(Top(path)) && EndOf(Top(path)) == EndOf(t)
      ensures err == if NoLength(path0, depth0) then NotFound else Ok
    {
      hide Formed, Foot, Steady, Keyed, Leaves, Pick, OnTrack, Follows;
      SteadyTop(disk, path, depth);
      StepBelow(disk, path, depth, t);
      ghost var kept := path + [t.(visit := 0, end := EndOf(Top(path)))];
      FollowsDown(path0, up, path, kept);
      SameLength(path0, depth0, kept, depth);
      err := GoBack(h, t.buf.entries[t.curr].lblk, kept);
      FollowsThen(path0, kept, path);
    }

    /** ext2fs_extent_get with PREV_LEAF at the leaf: the entry before the current one, and from there
        NEXT_LEAF leads back. */
    method GetPrevLeaf() returns (err: Err, info: Info)
      requires Valid() && |path| == depth + 1 && Top(path).curr >= 0
      modifies this`path
      ensures Valid() && path != [] && path[0].buf == old(path)[0].buf && path[0].end == old(path)[0].end
      ensures |path| <= depth + 1 && (err == Ok || err == NoPrev)
      ensures if Here(disk, old(path), depth) > 0
        then && err == Ok && |path| == depth + 1 && Top(path).curr >= 0 && info == InfoOf(Top(path), true)
             && Here(disk, path, depth) == Here(disk, old(path), depth) - 1
        else err == NoPrev
      ensures Top(old(path)).curr > 0 ==> path == SetTop(old(path), Retreated(Top(old(path)), false))
      ensures err == Ok && Top(old(path)).curr == 0 ==> Top(path).left == 0 && Leads(disk, path, depth, depth, Top(old(path)).buf.entries[0])
    {
      hide Formed, Foot, Leaves, Keyed, Steady, InfoOf, Here, Leads, Backing, Entered, EndOf;
      SteadyTop(disk, path, depth);
      ghost var path0, x := path, Top(path).buf.entries[0];
      PrevStart(disk, path, depth);
      while true
        invariant Valid() && 0 < |path| <= depth + 1 && Placed(Top(path)) && Top(path).curr >= 0
        invariant path[0].buf == path0[0].buf && path[0].end == path0[0].end
        invariant |path| == depth + 1 ==> path == path0
        invariant |path| <= depth ==> Top(path0).curr == 0 && Backing(disk, path, depth, Here(disk, path0, depth), x)
        decreases if |path| == depth + 1 then 2 * depth + 3 else if Top(path).visit == 0 then depth + 1 + |path| else depth + 1 - |path|
      {
        var l := Top(path);
        if |path| <= depth && l.visit > 0 {
          BackDown(disk, path, depth, Here(disk, path0, depth), x);
          err, info := Get(DownAndLast);
          if |path| == depth + 1 {
            return;
          }
        } else if l.left < |l.buf.entries| - 1 {
          BackSibling(disk, path, depth, path0, x);
          err, info := Get(PrevSib);
          if |path| == depth + 1 {
            return;
          }
        } else if |path| > 1 {
          BackUp(disk, path, depth, path0, x);
          err, info := Get(Up);
          path := SetTop(path, Top(path).(visit := 0));
        } else {
          BackNone(disk, path, depth, path0, x);
          return NoPrev, NoInfo;
        }
      }
    }

    // ---------- Changing the leaf ----------

    /** What surrounds the node of the handle is in order; has exact keys. */
    ghost predicate Sided()
      requires 0 < |path| <= depth + 1
      reads this
    {
      OrderAt(disk, path, depth, |path| - 1)
    }

    ghost predicate Evened()
      requires 0 < |path| <= depth + 1
      reads this
    {
      ExactAt(disk, path, depth, |path| - 1)
    }

    /** The number of leaf entries before the position of the handle. */
    ghost function Pos(): nat
      requires |path| <= depth + 1
      reads this
    {
      Here(disk, path, depth)
    }

    /** The handle is on a leaf entry. */
    ghost predicate AtEntry()
      reads this, balloc
    {
      Tidy() && |path| == depth + 1 && Top(path).curr >= 0
    }

    lemma EntryHere()
      requires AtEntry()
      ensures Pos() < |Listing()| && Listing()[Pos()] == Top(path).buf.entries[Top(path).curr]
    {
      hide Formed, Foot, Leaves;
      AtLeaf(disk, path, depth);
    }

    /** The node of the leaf is stored: in the inode, or in its block. */
    method Store(l: Level)
      requires Tidy() && |path| == depth + 1 && (depth > 0 ==> path[depth - 1].curr >= 0)
      requires Placed(l) && l.curr >= 0 && l.buf.max == Top(path).buf.max && l.end == Top(path).end && |l.buf.entries| <= l.buf.max
      modifies this`disk, this`path
      ensures Tidy() && path == SetTop(old(path), l)
      ensures LeftOf(disk, path, depth, depth) == LeftOf(old(disk), old(path), depth, depth)
      ensures RightOf(disk, path, depth, depth) == RightOf(old(disk), old(path), depth, depth)
      ensures (old(Sided()) ==> Sided()) && (old(Evened()) ==> Evened())
      ensures depth > 0 ==> 0 <= old(path)[depth - 1].curr < |old(path)[depth - 1].buf.entries|
      ensures disk == Wrote(old(disk), old(path), depth, l.buf)
      ensures path != [] && balloc.Valid() && Ledger() == old(Ledger())
    {
      hide LedgerOf, Formed, Foot, Leaves, Keyed, Exact, OrderAt, ExactAt, LeftOf, RightOf, Blocks.InUse, Blocks.Settled,
           Blocks.FreeBlocks, Blocks.Valid;
      SteadyTop(disk, path, depth);
      FootFlat(disk, l.buf.entries);
      FootFlat(disk, Top(path).buf.entries);
      Written(disk, path, depth, depth, l);
      if depth > 0 {
        BelowApart(disk, path, depth, depth, 0);
      }
      assert path[..depth] + [l] == SetTop(path, l);
      ghost var foot0 := Foot(disk, path[0].buf.entries, depth);
      if |path| > 1 {
        disk := disk[BlockAt(path, |path| - 1) := l.buf];
      }
      path := SetTop(path, l);
      assert Foot(disk, path[0].buf.entries, depth) == foot0;
    }

    /** ext2fs_extent_replace on a leaf entry. */
    method Replace(e: Entry)
      requires AtEntry() && Storable(e)
      modifies this`disk, this`path
      ensures AtEntry() && path == SetTop(old(path), Replaced(Top(old(path)), e))
      ensures Pos() == old(Pos()) < |old(Listing())| && Listing() == old(Listing())[Pos() := e]
      ensures (old(Sided()) ==> Sided()) && (old(Evened()) ==> Evened())
      ensures depth > 0 ==> 0 <= old(path)[depth - 1].curr < |old(path)[depth - 1].buf.entries|
      ensures disk == Wrote(old(disk), old(path), depth, Top(path).buf)
      ensures path != [] && balloc.Valid() && Ledger() == old(Ledger())
    {
      hide LedgerOf, Formed, Foot, Leaves, Keyed, Exact, OrderAt, ExactAt, LeftOf, RightOf, Steady, Blocks.InUse, Blocks.Settled,
           Blocks.FreeBlocks, Blocks.Valid;
      SteadyTop(disk, path, depth);
      SteadyCurrent(disk, path, depth);
      AtLeaf(disk, path, depth);
      ReplacedAt(LeftOf(disk, path, depth, depth), Top(path).buf.entries, RightOf(disk, path, depth, depth), Top(path).curr, e);
      LeafFits();
      Store(Replaced(Top(path), e));
      AtLeaf(disk, path, depth);
    }

    lemma LeafFits()
      requires Tidy()
      ensures |Top(path).buf.entries| <= Top(path).buf.max
    {
      hide Formed, Foot;
      if |path| > 1 {
        NodeBounds(disk, path, depth, nodeMax);
      }
    }

    lemma BooksKept(err: Err, foot: set<nat>, used: set<nat>, blocks: nat)
      requires Housed() && iBlocks < U32 && foot <= used && Squared(err, LedgerOf(foot, used, blocks, unit), Ledger(), unit)
      ensures Booked(err, foot, used, blocks, Foot(disk, path[0].buf.entries, depth), balloc.InUse(), iBlocks, unit)
    {
      hide LedgerOf, Books, Foot, Blocks.InUse, Blocks.Settled, Blocks.Valid;
      FootUsed();
      LedgerRange(foot, used, blocks, unit);
      LedgerBooks(foot, used, blocks, Foot(disk, path[0].buf.entries, depth), balloc.InUse(), iBlocks, unit,
                  if Ledger() == LedgerOf(foot, used, blocks, unit) then 0 else 1);
    }

    lemma FootUsed()
      requires Housed()
      ensures Foot(disk, path[0].buf.entries, depth) <= balloc.InUse()
    {
      hide Foot, Steady, Blocks.InUse, Blocks.Settled, Blocks.Valid;
      balloc.SettledInUse();
    }

    /** A full leaf is split; the handle stays on its entry. */
    method MakeRoom() returns (err: Err)
      requires AtEntry() && Ordered() && iBlocks < U32
      modifies this`disk, this`path, this`depth, this`iBlocks, balloc
      ensures Tidy() && Ordered() && iBlocks < U32 && path[0].end == old(path)[0].end && Listing() == old(Listing())
      ensures old(Exact(disk, path[0].buf.entries, depth)) ==> Exact(disk, path[0].buf.entries, depth)
      ensures balloc.Valid() && Granted(err, old(path), old(depth), 1, old(balloc.FreeBlocks()), balloc.FreeBlocks(), old(balloc.InUse()), balloc.InUse())
      ensures |Top(old(path)).buf.entries| < Top(old(path)).buf.max ==> path == old(path) && depth == old(depth) && balloc.FreeBlocks() == old(balloc.FreeBlocks())
      ensures err == Ok && |Top(old(path)).buf.entries| >= Top(old(path)).buf.max ==>
        |Top(path).buf.entries| + 1 < Top(path).buf.max && balloc.FreeBlocks() + NewNodes(old(path)) == old(balloc.FreeBlocks())
      ensures err == Ok ==> AtEntry() && Pos() == old(Pos()) && |Top(path).buf.entries| < Top(path).buf.max && Follows(old(path), path)
      ensures path != [] && balloc.Valid() && Squared(err, old(Ledger()), Ledger(), unit)
    {
      hide LedgerOf, Formed, Foot, Leaves, Keyed, Exact, Steady, Blocks.InUse, Blocks.Settled, Blocks.FreeBlocks, Blocks.Valid, Follows, Blind,
           Increasing, Runs, Sized, CameBy, Halved, TookNear, NewNodes;
      SteadyTop(disk, path, depth);
      if |Top(path).buf.entries| < Top(path).buf.max {
        FollowsSame(path, path);
        return Ok;
      }
      err := SplitLeaf();
    }

    /** ... by extent_node_split. */
    method SplitLeaf() returns (err: Err)
      requires AtEntry() && Ordered() && iBlocks < U32 && |Top(path).buf.entries| >= Top(path).buf.max
      modifies this`disk, this`path, this`depth, this`iBlocks, balloc
      ensures Tidy() && Ordered() && iBlocks < U32 && path[0].end == old(path)[0].end && Listing() == old(Listing())
      ensures old(Exact(disk, path[0].buf.entries, depth)) ==> Exact(disk, path[0].buf.entries, depth)
      ensures balloc.Valid() && Granted(err, old(path), old(depth), 1, old(balloc.FreeBlocks()), balloc.FreeBlocks(), old(balloc.InUse()), balloc.InUse())
      ensures err == Ok && |Top(old(path)).buf.entries| >= Top(old(path)).buf.max ==>
        |Top(path).buf.entries| + 1 < Top(path).buf.max && balloc.FreeBlocks() + NewNodes(old(path)) == old(balloc.FreeBlocks())
      ensures err == Ok ==> AtEntry() && Pos() == old(Pos()) && |Top(path).buf.entries| < Top(path).buf.max && Follows(old(path), path)
      ensures path != [] && balloc.Valid() && Squared(err, old(Ledger()), Ledger(), unit)
    {
      hide LedgerOf, Formed, Foot, Leaves, Keyed, Exact, Steady, Blocks.InUse, Blocks.Settled, Blocks.FreeBlocks, Blocks.Valid, Follows, Blind,
           Increasing, Runs, EndOf, Placed, LowOf, HighOf, Sized, CameBy, Halved, TookNear, NewNodes, Granted, Spent;
      SteadyTop(disk, path, depth);
      EntryHere();
      if |path| > 1 {
        ParentFull(disk, path, depth);
      }
      ghost var all, k, splits, counted := Listing(), Pos(), 0, 0;
      FootUsed();
      err, splits, counted := NodeSplit();
      CameByLedger(old(disk), old(path)[0].buf.entries, old(depth), old(balloc.InUse()), old(iBlocks), old(balloc.FreeBlocks()),
                   disk, path[0].buf.entries, depth, balloc.InUse(), iBlocks, balloc.FreeBlocks(), unit, nodeMax, splits, counted);
      SplitGranted(err, old(path), old(depth), old(balloc.FreeBlocks()), balloc.FreeBlocks(), old(balloc.InUse()), balloc.InUse(), splits);
      if err == Ok {
        KeyedList(disk, path[0].buf.entries, depth, 0, U32);
        RunsIncreasing(all, 0, U32);
        SameHere(disk, path, depth, all, k);
      }
    }

    /** ext2fs_extent_insert beside a leaf entry. */
    method Insert(after: bool, e: Entry) returns (err: Err, ghost mid: Level)
      requires AtEntry() && Ordered() && Storable(e) && iBlocks < U32
      modifies this`disk, this`path, this`depth, this`iBlocks, balloc
      ensures Tidy() && iBlocks < U32 && path[0].end == old(path)[0].end
      ensures balloc.Valid() && Granted(err, old(path), old(depth), 1, old(balloc.FreeBlocks()), balloc.FreeBlocks(), old(balloc.InUse()), balloc.InUse())
      ensures err == Ok ==> Took(old(path), old(depth), old(balloc.FreeBlocks()), path, depth, balloc.FreeBlocks())
      ensures err != Ok ==> Ordered() && Listing() == old(Listing())
      ensures err != Ok && old(Exact(disk, path[0].buf.entries, depth)) ==> Exact(disk, path[0].buf.entries, depth)
      ensures old(Pos()) < |old(Listing())|
      ensures err == Ok ==>
        && AtEntry() && Pos() == old(Pos()) + (if after then 1 else 0) && Listing() == InsertAt(old(Listing()), Pos(), e)
        && 0 <= mid.curr < |mid.buf.entries| && Top(path) == Inserted(mid, after, e)
        && mid.buf.entries[mid.curr] == old(Listing())[old(Pos())]
        && Roomy(disk, path, depth, mid, old(path), old(Exact(disk, path[0].buf.entries, depth)))
      ensures path != [] && balloc.Valid() && Squared(err, old(Ledger()), Ledger(), unit)
      ensures old(path) != [] && Booked(err, old(Foot(disk, path[0].buf.entries, depth)), old(balloc.InUse()), old(iBlocks),
                                        Foot(disk, path[0].buf.entries, depth), balloc.InUse(), iBlocks, unit)
    {
      hide LedgerOf, Books, Formed, Foot, Leaves, Keyed, Exact, Steady, Blocks.InUse, Blocks.Settled, Blocks.FreeBlocks, Blocks.Valid, Follows, Granted, Took,
           OrderAt, ExactAt, LeftOf, RightOf, Inserted;
      EntryHere();
      FootUsed();
      ghost var foot0 := Foot(disk, path[0].buf.entries, depth);
      err := MakeRoom();
      SteadyTop(disk, path, depth);
      mid := Top(path);
      BooksKept(err, foot0, old(balloc.InUse()), old(iBlocks));
      if err != Ok {
        return;
      }
      TookIn(old(path), old(depth), old(balloc.FreeBlocks()), path, depth, balloc.FreeBlocks(), after, e);
      InsertHere(after, e, old(path), old(Exact(disk, path[0].buf.entries, depth)));
      BooksKept(err, foot0, old(balloc.InUse()), old(iBlocks));
    }

    /** With room in the leaf. */
    method InsertHere(after: bool, e: Entry, ghost before: seq<Level>, ghost exact: bool)
      requires AtEntry() && Ordered() && |Top(path).buf.entries| < Top(path).buf.max && Follows(before, path)
      requires exact ==> Exact(disk, path[0].buf.entries, depth)
      modifies this`disk, this`path
      ensures AtEntry() && path == SetTop(old(path), Inserted(Top(old(path)), after, e)) && path[0].end == old(path)[0].end
      ensures 0 <= Top(old(path)).curr < |Top(old(path)).buf.entries|
      ensures old(Pos()) < |old(Listing())| && Pos() == old(Pos()) + (if after then 1 else 0) && Listing() == InsertAt(old(Listing()), Pos(), e)
      ensures Top(old(path)).buf.entries[Top(old(path)).curr] == old(Listing())[old(Pos())]
      ensures Roomy(disk, path, depth, Top(old(path)), before, exact)
      ensures path != [] && balloc.Valid() && Ledger() == old(Ledger())
    {
      hide LedgerOf, Formed, Foot, Leaves, Keyed, Exact, Steady, Blocks.InUse, Blocks.Settled, Blocks.FreeBlocks, Blocks.Valid,
           Follows, OrderAt, ExactAt, LeftOf, RightOf, Inserted;
      SteadyTop(disk, path, depth);
      SteadyCurrent(disk, path, depth);
      AtLeaf(disk, path, depth);
      ghost var disk1, path1 := disk, path;
      LeafRange(disk, path, depth);
      RoomyHere(disk, path, depth, before, exact);
      InsertedSame(Top(path), after, e);
      PutIn(after, e);
      RoomyThen(disk1, path1, disk, path, depth, before, exact);
    }

    /** The entry goes in where there is room for it. */
    method PutIn(after: bool, e: Entry)
      requires AtEntry() && |Top(path).buf.entries| < Top(path).buf.max && Sided()
      modifies this`disk, this`path
      ensures AtEntry() && path == SetTop(old(path), Inserted(Top(old(path)), after, e)) && Sided() && (old(Evened()) ==> Evened())
      ensures old(Pos()) < |old(Listing())| && Pos() == old(Pos()) + (if after then 1 else 0) && Listing() == InsertAt(old(Listing()), Pos(), e)
      ensures path != [] && balloc.Valid() && Ledger() == old(Ledger())
    {
      hide LedgerOf, Formed, Foot, Leaves, Keyed, Exact, Steady, Blocks.InUse, Blocks.Settled, Blocks.FreeBlocks, Blocks.Valid, OrderAt, ExactAt,
           LeftOf, RightOf, Inserted, InsertAt;
      SteadyTop(disk, path, depth);
      SteadyCurrent(disk, path, depth);
      AtLeaf(disk, path, depth);
      InsertedIs(Top(path), after, e);
      var l := Top(path);
      var ix := if after then l.curr + 1 else l.curr;
      var es := InsertAt(l.buf.entries, ix, e);
      InsertedAt(LeftOf(disk, path, depth, depth), l.buf.entries, RightOf(disk, path, depth, depth), ix, e);
      Store(l.(buf := l.buf.(entries := es), curr := ix, left := if after then l.left - 1 + 1 else l.left + 1));
      AtLeaf(disk, path, depth);
    }

    // ---------- Parents ----------

    /** The key of every parent is the start of its node, except perhaps above the node of the handle
        if the handle is on its first entry. */
    ghost predicate ExactButHere()
      requires 0 < |path| <= depth + 1
      reads this
    {
      if Top(path).curr > 0 then Exact(disk, path[0].buf.entries, depth) else ClimbingExact(disk, path, depth)
    }

    /** ext2fs_extent_fix_parents: whatever the node of the handle starts at, its parents are in order
        afterwards, and their keys are exact if all others were. */
    method FixParents() returns (err: Err)
      requires Tidy() && Top(path).curr >= 0
      requires if Top(path).curr > 0 then Ordered() else Climbing(disk, path, depth, Top(path).buf.entries[0].lblk)
      modifies this`disk, this`path
      ensures path != [] && Tidy() && Ordered() && Listing() == old(Listing()) && path[0].end == old(path)[0].end
      ensures Foot(disk, path[0].buf.entries, depth) == old(Foot(disk, path[0].buf.entries, depth))
      ensures err == Ok || err == NotFound
      ensures |old(path)| == depth + 1 ==> err == Ok
      ensures |old(path)| <= depth + 1
      ensures old(ExactButHere()) ==> Exact(disk, path[0].buf.entries, depth) && err == Ok
    {
      hide Formed, Foot, Leaves, Keyed, Exact, Steady, Climbing, ClimbingExact, Blocks.InUse, Blocks.Settled,
           Blocks.FreeBlocks, Blocks.Valid, InfoOf, KeyOf;
      SteadyTop(disk, path, depth);
      var e, info := Get(Current);
      InfoStart(Top(path), |path| == depth + 1);
      var start := info.lblk;
      StartFound(start);
      ghost var exact, fixed := ExactButHere(), Top(path).curr > 0;
      while |path| > 1 && Top(path).left == |Top(path).buf.entries| - 1
        invariant path != [] && Foot(disk, path[0].buf.entries, depth) == old(Foot(disk, path[0].buf.entries, depth))
        invariant Tidy() && Listing() == old(Listing()) && path[0].end == old(path)[0].end && Top(path).curr >= 0 && |path| <= depth + 1
        invariant if fixed then Ordered() && (exact ==> Exact(disk, path[0].buf.entries, depth)) && Top(path).curr > 0
          else Climbing(disk, path, depth, start) && (exact ==> ClimbingExact(disk, path, depth))
        decreases |path|
      {
        SteadyTop(disk, path, depth);
        ClimbingFirst(disk, path, depth, start);
        var stop := FixOne(start);
        fixed := stop || Top(path).curr > 0;
        if stop {
          break;
        }
      }
      SteadyTop(disk, path, depth);
      if !fixed {
        ClimbingFirst(disk, path, depth, start);
        ClimbTop(disk, path, depth, start);
      }
      RootSome(disk, path, depth);
      err := ExtentGoto(start);
    }

    /** One level up: unless its key is right already, it becomes start. */
    method FixOne(start: nat) returns (stop: bool)
      requires Tidy() && |path| > 1 && Climbing(disk, path, depth, start)
      modifies this`disk, this`path
      ensures Tidy() && path != [] && Listing() == old(Listing()) && |path| == |old(path)| - 1
      ensures path[0].end == old(path)[0].end && Top(path).curr >= 0
      ensures |path| <= depth + 1 && |old(path)| <= depth + 1
      ensures Foot(disk, path[0].buf.entries, depth) == old(Foot(disk, path[0].buf.entries, depth))
      ensures if stop || Top(path).curr > 0
        then Ordered() && (old(ClimbingExact(disk, path, depth)) ==> Exact(disk, path[0].buf.entries, depth))
        else Climbing(disk, path, depth, start) && (old(ClimbingExact(disk, path, depth)) ==> ClimbingExact(disk, path, depth))
    {
      hide Formed, Foot, Leaves, Keyed, Exact, Steady, Climbing, ClimbingExact, Blocks.InUse, Blocks.Settled,
           Blocks.FreeBlocks, Blocks.Valid, InfoOf, Rekeyed, ClimbPath, ClimbDisk;
      SteadyTop(disk, path, depth);
      SteadyCurrentAll(disk, path, depth);
      ClimbAll(disk, path, depth, start, nodeMax);
      ClimbIs(disk, path, start);
      var e, info := Get(Up);
      InfoStart(Top(path), false);
      if info.lblk == start {
        return true;
      }
      var l := Top(path);
      path := SetTop(path, Rekeyed(l, start));
      if |path| > 1 {
        disk := disk[BlockAt(path, |path| - 1) := Top(path).buf];
      }
      return false;
    }

    /** Some leaf entry starts where the current entry starts, if the keys are exact or it is one. */
    lemma StartFound(start: nat)
      requires Tidy() && 0 <= Top(path).curr < |Top(path).buf.entries| && start == Top(path).buf.entries[Top(path).curr].lblk && |path| <= depth + 1
      requires if Top(path).curr > 0 then Ordered() else Climbing(disk, path, depth, Top(path).buf.entries[0].lblk)
      ensures ExactButHere() || |path| == depth + 1 ==> exists x :: x in Listing() && Covers(x, start)
    {
      hide Formed, Foot, Leaves, Keyed, Exact, LeftOf, RightOf, OrderAt, ExactAt, LowOf, HighOf;
      var n := |path| - 1;
      Zip(disk, path, depth, n);
      var es, d, lo := Top(path).buf.entries, depth - n, if Top(path).curr > 0 then LowOf(path, n) else start;
      if n == depth {
        LeavesFlat(disk, es);
        KidKeyed(disk, es, 0, Top(path).curr, lo, HighOf(path, n));
        assert es[Top(path).curr] in Listing();
      } else if ExactButHere() {
        var x := ExactLeaf(disk, es, d, Top(path).curr, lo, HighOf(path, n));
        assert x in Listing();
      }
    }

    // ---------- Taking an entry out ----------

    /** ext2fs_extent_delete: an entry, and every node that this leaves without one, whose block is
        freed and no longer counted. */
    method Delete()
      requires AllOn(path) && balloc.Valid() && iBlocks < U32
      requires Freed(path) <= balloc.Settled() && FreedApart(path)
      modifies this`disk, this`path, this`depth, this`iBlocks, balloc
      ensures balloc.Valid() && iBlocks < U32
      ensures path == PrunedPath(old(path)) && disk == PrunedDisk(old(disk), old(path))
      ensures path != [] && depth == (if Top(path).buf.entries == [] then 0 else old(depth))
      ensures iBlocks == (old(iBlocks) - Gone(old(path)) * unit) % U32
      ensures balloc.InUse() == old(balloc.InUse()) - Freed(old(path)) && balloc.Settled() == old(balloc.Settled()) - Freed(old(path))
      decreases |path|
    {
      hide Blocks.InUse, Blocks.Valid, Blocks.Settled, Removed, Freed, FreedApart, Gone, PrunedDisk, PrunedPath, Stops,
           Column, Apart, Blocks.FreeBlocks;
      var l := Top(path);
      var l' := Removed(l);
      RemovedParts(l);
      if |l.buf.entries| == 1 && |path| > 1 {
        PruneShort(disk, path);
      } else {
        PruneHere(disk, path);
      }
      path := SetTop(path, l');
      if l'.buf.entries == [] && |path| > 1 {
        var n := |path| - 1;
        var blk := BlockAt(path, n);
        path := path[..n];
        assert path == old(path)[..n];
        Delete();
        LessUnits(old(iBlocks), Gone(old(path)[..n]), unit);
        FreeNode(blk);
      } else {
        if |path| == 1 && l'.buf.entries == [] {
          depth := 0;
        }
        if |path| > 1 {
          disk := disk[BlockAt(path, |path| - 1) := l'.buf];
        }
      }
    }

    /** The block of a node that is gone. */
    method FreeNode(blk: nat)
      requires balloc.Valid() && blk in balloc.Settled()
      modifies this`iBlocks, balloc
      ensures balloc.Valid() && iBlocks == (old(iBlocks) - unit) % U32
      ensures balloc.InUse() == old(balloc.InUse()) - {blk} && balloc.Settled() == old(balloc.Settled()) - {blk}
    {
      hide Blocks.InUse, Blocks.Valid, Blocks.Settled, Blocks.FreeBlocks;
      iBlocks := (iBlocks - unit) % U32;
      balloc.SettledFacts(blk);
      balloc.Release(blk);
    }

    /** ext2fs_extent_delete at the leaf: the tree without that entry. */
    method DeleteLeaf()
      requires AtEntry() && Ordered() && iBlocks < U32
      modifies this`disk, this`path, this`depth, this`iBlocks, balloc
      ensures Tidy() && Ordered() && iBlocks < U32 && path[0].end == old(path)[0].end
      ensures old(Pos()) < |old(Listing())| && Listing() == old(Listing())[..old(Pos())] + old(Listing())[old(Pos()) + 1..]
      ensures Drops(old(Foot(disk, path[0].buf.entries, depth)), Foot(disk, path[0].buf.entries, depth), old(balloc.InUse()), balloc.InUse(), old(iBlocks))
      ensures if Listing() == [] then Top(path).curr == -1 && depth == 0 else Top(path).curr >= 0
      ensures |path| <= depth + 1
      ensures Top(path).curr == 0 ==> Climbing(disk, path, depth, Top(path).buf.entries[0].lblk)
      ensures Top(path).curr >= 0 && old(Exact(disk, path[0].buf.entries, depth)) ==> ExactButHere()
      ensures Top(path).curr < 0 ==> Exact(disk, path[0].buf.entries, depth)
      ensures path != [] && balloc.Valid() && Ledger() == old(Ledger())
    {
      hide LedgerOf, Formed, Foot, Leaves, Keyed, Exact, Steady, Climbing, ClimbingExact, Freed, FreedApart, Gone, PrunedDisk,
           PrunedPath, Here, Blocks.InUse, Blocks.Settled, Blocks.FreeBlocks, Blocks.Valid, AllOn, Stops, Removed, Apart, Column, Placed, EndOf;
      SteadyTop(disk, path, depth);
      EntryAllOn(disk, path, depth);
      DeleteDone(disk, path, depth, nodeMax);
      FootUsed();
      ghost var path0, foot0 := path, Foot(disk, path[0].buf.entries, depth);
      Delete();
      NothingBelow(disk, path, depth);
      assert foot0 - Foot(disk, path[0].buf.entries, depth) == Freed(path0);
      LedgerShrunk(foot0, old(balloc.InUse()), old(iBlocks), Foot(disk, path[0].buf.entries, depth), balloc.InUse(), iBlocks, unit);
    }

    /** Blocks leave a tree: they are free again, and counted off. */
    ghost predicate Drops(foot: set<nat>, foot': set<nat>, used: set<nat>, used': set<nat>, iBlocks0: nat)
      reads this`iBlocks
    {
      foot' <= foot && used' == used - (foot - foot') && iBlocks == (iBlocks0 - |foot - foot'| * unit) % U32
    }

    // ---------- A leaf in its place ----------

    /** The leaf lies in its range, and all around it is in order: only its own entries can be wrong. */
    ghost predicate Snug()
      requires 0 < |path| == depth + 1 && Top(path).buf.entries != []
      reads this
    {
      OrderAt(disk, path, depth, depth) && LowOf(path, depth) <= Top(path).buf.entries[0].lblk && Ends(Top(path).buf.entries) <= HighOf(path, depth)
    }

    /** ... and every key is exact. */
    ghost predicate SnugExact()
      requires 0 < |path| == depth + 1 && Top(path).buf.entries != []
      reads this
    {
      ExactAt(disk, path, depth, depth) && (depth > 0 ==> LowOf(path, depth) == Top(path).buf.entries[0].lblk)
    }

    lemma OrderedSnug()
      requires AtEntry() && Ordered()
      ensures Snug() && (Exact(disk, path[0].buf.entries, depth) ==> SnugExact())
      ensures Runs(Listing(), 0, U32)
    {
      hide Formed, Foot, Leaves, Keyed, Exact, OrderAt, ExactAt, LowOf, HighOf, LeftOf, RightOf, Runs;
      LeafRange(disk, path, depth);
      Zip(disk, path, depth, depth);
      KeyedList(disk, path[0].buf.entries, depth, 0, U32);
    }

    lemma SnugOrdered()
      requires AtEntry() && Snug() && Runs(Listing(), 0, U32)
      ensures Ordered() && (SnugExact() ==> Exact(disk, path[0].buf.entries, depth))
    {
      hide Formed, Foot, Leaves, Keyed, OrderAt, ExactAt, LowOf, HighOf, LeftOf, RightOf, Runs;
      Settle(disk, path, depth);
      Zip(disk, path, depth, depth);
    }

    /** Where the parents can be given the start of the leaf. */
    lemma Fixable()
      requires AtEntry() && OrderAt(disk, path, depth, depth) && Ends(Top(path).buf.entries) <= HighOf(path, depth) && Runs(Listing(), 0, U32)
      requires Top(path).curr > 0 ==> LowOf(path, depth) <= Top(path).buf.entries[0].lblk
      ensures if Top(path).curr > 0 then Ordered() else Climbing(disk, path, depth, Top(path).buf.entries[0].lblk)
      ensures ExactAt(disk, path, depth, depth) && (Top(path).curr > 0 && depth > 0 ==> LowOf(path, depth) == Top(path).buf.entries[0].lblk) ==> ExactButHere()
    {
      hide Formed, Foot, Leaves, Keyed, OrderAt, ExactAt, LowOf, HighOf, LeftOf, RightOf, Runs;
      if Top(path).curr > 0 {
        SnugOrdered();
      } else {
        FixableFirst(disk, path, depth);
      }
    }

    /** One entry of the leaf changes. */
    method Change(e: Entry)
      requires AtEntry() && Storable(e) && iBlocks < U32
      modifies this`disk, this`path
      ensures AtEntry() && path == SetTop(old(path), Replaced(Top(old(path)), e))
      ensures Pos() == old(Pos()) < |old(Listing())| && Listing() == old(Listing())[Pos() := e]
      ensures (old(Sided()) ==> Sided()) && (old(Evened()) ==> Evened())
      ensures old(Snug()) && (Top(path).curr == 0 ==> LowOf(path, depth) <= e.lblk) && (Top(path).left == 0 ==> e.lblk + e.len <= HighOf(path, depth)) ==> Snug()
      ensures old(SnugExact()) && (Top(path).curr == 0 ==> e.lblk == Top(old(path)).buf.entries[0].lblk) ==> SnugExact()
      ensures path[0].end == old(path)[0].end && LowOf(path, depth) == LowOf(old(path), depth) && HighOf(path, depth) == HighOf(old(path), depth)
      ensures depth > 0 ==> path[0].buf == old(path)[0].buf
      ensures depth > 0 && (Top(path).curr == 0 || e.lblk == KeyOf(Top(old(path)))) ==> Alike(old(disk), disk, path[0].buf.entries, depth)
      ensures depth > 0 ==> 0 <= old(path)[depth - 1].curr < |old(path)[depth - 1].buf.entries|
      ensures disk == Wrote(old(disk), old(path), depth, Top(path).buf)
      ensures path != [] && balloc.Valid() && Ledger() == old(Ledger())
    {
      hide LedgerOf, Formed, Foot, Leaves, Keyed, Exact, Alike, OrderAt, ExactAt, LeftOf, RightOf, LowOf, HighOf, Steady,
           Blocks.InUse, Blocks.Settled, Blocks.FreeBlocks, Blocks.Valid;
      SteadyTop(disk, path, depth);
      ghost var path0 := path;
      if depth > 0 {
        SteadyCurrent(disk, path, depth);
        if Top(path).curr == 0 || e.lblk == KeyOf(Top(path)) {
          AlikeWritten(disk, path, depth, Replaced(Top(path), e).buf, 0);
        }
      }
      Replace(e);
      SteadyTop(disk, path, depth);
      AboveSame(disk, path0, path, depth, depth);
    }

    /** NEXT_LEAF, where it leads to the next entry. */
    method GoNext() returns (e: Entry)
      requires AtEntry() && (Increasing(Listing()) || Top(path).left > 0) && Pos() + 1 < |Listing()|
      requires var again := Again(disk, path, depth, |path|); again != [] && again[0] == Listing()[Pos() + 1]
      modifies this`path
      ensures AtEntry() && Listing() == old(Listing()) && Pos() == old(Pos()) + 1 < |Listing()|
      ensures e == Listing()[Pos()] == Top(path).buf.entries[Top(path).curr]
      ensures path[0].buf == old(path)[0].buf && path[0].end == old(path)[0].end
      ensures if Top(old(path)).left > 0 then path == SetTop(old(path), Advanced(Top(old(path)))) && StaysIn(old(path)) else Top(path).curr == 0
      ensures path != [] && balloc.Valid() && Ledger() == old(Ledger())
    {
      hide LedgerOf, Formed, Foot, Leaves, Keyed, OrderAt, ExactAt, LeftOf, RightOf, LowOf, HighOf, Steady, Again, InfoOf,
           Increasing, Blocks.InUse, Blocks.Settled, Blocks.FreeBlocks, Blocks.Valid;
      SteadyTop(disk, path, depth);
      ghost var path0, k := path, Pos();
      var err, info := GetNextLeaf();
      e := Entry(info.lblk, info.pblk, info.len, info.uninit);
      SteadyTop(disk, path, depth);
      LeafEntry(Top(path));
      if Top(path0).left > 0 {
        AboveSame(disk, path0, path, depth, depth);
        AtLeaf(disk, path0, depth);
        AtLeaf(disk, path, depth);
      } else {
        SameHere(disk, path, depth, Listing(), k + 1);
      }
    }

    /** PREV_LEAF. */
    method GoPrev() returns (e: Entry)
      requires AtEntry() && Pos() > 0
      modifies this`path
      ensures AtEntry() && Listing() == old(Listing()) && Pos() == old(Pos()) - 1 < |Listing()|
      ensures e == Listing()[Pos()] == Top(path).buf.entries[Top(path).curr]
      ensures path[0].buf == old(path)[0].buf && path[0].end == old(path)[0].end
      ensures if Top(old(path)).curr > 0 then path == SetTop(old(path), Retreated(Top(old(path)), false)) && StaysIn(old(path))
        else Top(path).left == 0 && Leads(disk, path, depth, depth, Top(old(path)).buf.entries[0])
      ensures path != [] && balloc.Valid() && Ledger() == old(Ledger())
    {
      hide LedgerOf, Formed, Foot, Leaves, Keyed, OrderAt, ExactAt, LeftOf, RightOf, LowOf, HighOf, Steady, InfoOf, Leads,
           Blocks.InUse, Blocks.Settled, Blocks.FreeBlocks, Blocks.Valid;
      SteadyTop(disk, path, depth);
      ghost var path0 := path;
      var err, info := GetPrevLeaf();
      e := Entry(info.lblk, info.pblk, info.len, info.uninit);
      SteadyTop(disk, path, depth);
      LeafEntry(Top(path));
      AtLeaf(disk, path, depth);
      if Top(path0).curr > 0 {
        AboveSame(disk, path0, path, depth, depth);
      }
    }

    /** In the same leaf nothing around it changes. */
    ghost predicate StaysIn(path0: seq<Level>)
      requires 0 < |path| == depth + 1 && |path0| == depth + 1
      reads this
    {
      && Top(path).buf == Top(path0).buf && path[0].buf == path0[0].buf && path[0].end == path0[0].end
      && LowOf(path, depth) == LowOf(path0, depth) && HighOf(path, depth) == HighOf(path0, depth)
      && (OrderAt(disk, path, depth, depth) <==> OrderAt(disk, path0, depth, depth))
      && (ExactAt(disk, path, depth, depth) <==> ExactAt(disk, path0, depth, depth))
    }

    // ---------- Setting one block ----------

    /** The handle has come to entry k of the list, for block l. */
    ghost predicate Ready(all: seq<Entry>, k: nat, l: nat)
      reads this, balloc
    {
      && AtEntry() && Ordered() && Listing() == all && Pos() == k && iBlocks < U32
      && AllFit(all) && l < U32 && OnTrack(path, |path|, l)
    }

    /** The tree holds the list, in order. */
    ghost predicate Became(all: seq<Entry>)
      reads this, balloc
    {
      Tidy() && Ordered() && Listing() == all && iBlocks < U32
    }

    lemma ReadyFacts(all: seq<Entry>, k: nat, l: nat)
      requires Ready(all, k, l)
      ensures Runs(all, 0, U32) && Increasing(all) && k < |all| && all[k] == Top(path).buf.entries[Top(path).curr]
      ensures Around(all[..k], all[k], all[k + 1..], l) && (l < all[k].lblk ==> Top(path).curr == 0)
      ensures SetReady(all, k) && Fits(all[k]) && all[k].lblk + all[k].len <= U32 && Placed(Top(path))
      ensures Snug() && (Exact(disk, path[0].buf.entries, depth) ==> SnugExact()) && l < HighOf(path, depth)
      ensures Top(path).curr == 0 ==> LowOf(path, depth) <= all[k].lblk
      ensures Top(path).left == 0 ==> all[k].lblk + all[k].len <= HighOf(path, depth)
    {
      hide Formed, Foot, Leaves, Keyed, Exact, OrderAt, ExactAt, LeftOf, RightOf, LowOf, HighOf, Steady, OnTrack, Runs;
      SteadyTop(disk, path, depth);
      EntryHere();
      OrderedSnug();
      TrackAround(disk, path, depth, l);
      RunsIncreasing(all, 0, U32);
      SetListRight(all, k, l, 0, false, false);
    }

    lemma OtherFits(all: seq<Entry>, j: nat)
      requires j < |all| && Runs(all, 0, U32) && AllFit(all)
      ensures Fits(all[j]) && all[j].len > 0 && all[j].lblk + all[j].len <= U32
    {
      RunsShrinkAt(all, j);
    }

    /** Remapping the only block of an entry. */
    method SetOnly(ghost all: seq<Entry>, ghost k: nat, e: Entry, l: nat, p: nat, uninit: bool, ghost seen: bool)
      requires Ready(all, k, l) && k < |all| && e == all[k] && e.len == 1 && l == e.lblk && 0 < p < P48 && !Already(e, l, p, uninit)
      modifies this`disk, this`path
      ensures path != [] && path[0].end == old(path)[0].end && SetReady(all, k) && Became(SetList(all, k, l, p, uninit, seen))
      ensures old(Exact(disk, path[0].buf.entries, depth)) ==> Exact(disk, path[0].buf.entries, depth)
      ensures path != [] && balloc.Valid() && Ledger() == old(Ledger())
    {
      hide LedgerOf, Formed, Foot, Leaves, Keyed, Exact, Steady, Runs, Sets, SetAt, LowOf, HighOf, OrderAt, ExactAt, OnTrack,
           Blocks.InUse, Blocks.Settled, Blocks.FreeBlocks, Blocks.Valid;
      ReadyFacts(all, k, l);
      OnlyList(all, k, l, p, uninit, seen);
      SetListRight(all, k, l, p, uninit, seen);
      SetsRuns(all, SetList(all, k, l, p, uninit, seen), l, p, uninit);
      Change(Fresh(l, p, uninit));
      SnugOrdered();
    }

    /** Unmapping the only block of an entry. */
    method RemoveOnly(ghost all: seq<Entry>, ghost k: nat, e: Entry, l: nat, uninit: bool, ghost seen: bool) returns (err: Err)
      requires Ready(all, k, l) && k < |all| && e == all[k] && e.len == 1 && l == e.lblk && !Already(e, l, 0, uninit)
      modifies this`disk, this`path, this`depth, this`iBlocks, balloc
      ensures path != [] && path[0].end == old(path)[0].end && SetReady(all, k) && Became(SetList(all, k, l, 0, uninit, seen))
      ensures err == Ok || err == NotFound
      ensures old(Exact(disk, path[0].buf.entries, depth)) ==> Exact(disk, path[0].buf.entries, depth) && err == Ok
      ensures Foot(disk, path[0].buf.entries, depth) <= old(Foot(disk, path[0].buf.entries, depth))
      ensures balloc.InUse() == old(balloc.InUse()) - (old(Foot(disk, path[0].buf.entries, depth)) - Foot(disk, path[0].buf.entries, depth))
      ensures Listing() == [] ==> depth == 0
      ensures path != [] && balloc.Valid() && Ledger() == old(Ledger())
    {
      hide LedgerOf, Formed, Foot, Leaves, Keyed, Exact, Steady, Runs, SetAt, Climbing, ClimbingExact, OnTrack, Blocks.InUse,
           Blocks.Settled, Blocks.FreeBlocks, Blocks.Valid;
      ReadyFacts(all, k, l);
      OnlyList(all, k, l, 0, uninit, seen);
      DeleteLeaf();
      SteadyTop(disk, path, depth);
      err := Ok;
      if Top(path).curr >= 0 {
        err := FixParents();
      }
    }

    /** A new entry beside entry k, with room made for it; t is a block whose descent leads to entry k. */
    method Add(ghost all: seq<Entry>, ghost k: nat, ghost t: nat, after: bool, e: Entry) returns (err: Err)
      requires AtEntry() && Ordered() && Listing() == all && Pos() == k < |all| && iBlocks < U32 && Storable(e)
      requires OnTrack(path, |path|, t) && t < U32 && (after ==> e.lblk + e.len <= t + 1)
      modifies this`disk, this`path, this`depth, this`iBlocks, balloc
      ensures Tidy() && path != [] && path[0].end == old(path)[0].end && iBlocks < U32
      ensures balloc.Valid() && Granted(err, old(path), old(depth), 1, old(balloc.FreeBlocks()), balloc.FreeBlocks(), old(balloc.InUse()), balloc.InUse())
      ensures err == Ok ==> Took(old(path), old(depth), old(balloc.FreeBlocks()), path, depth, balloc.FreeBlocks())
      ensures err != Ok ==> Became(all) && (old(Exact(disk, path[0].buf.entries, depth)) ==> Exact(disk, path[0].buf.entries, depth))
      ensures err == Ok ==> AtEntry() && Pos() == k + (if after then 1 else 0) && Listing() == InsertAt(all, Pos(), e)
      ensures err == Ok ==> OrderAt(disk, path, depth, depth) && Ends(Top(path).buf.entries) <= HighOf(path, depth) && t < HighOf(path, depth)
      ensures err == Ok && old(Exact(disk, path[0].buf.entries, depth)) ==> ExactAt(disk, path, depth, depth)
      ensures err == Ok && after ==> Top(path).curr > 0 && Top(path).buf.entries[Top(path).curr - 1] == all[k]
      ensures err == Ok && !after ==> Top(path).left > 0 && (t < all[k].lblk ==> Top(path).curr == 0)
      ensures err == Ok && (after || e.lblk == all[k].lblk) ==> Snug() && (old(Exact(disk, path[0].buf.entries, depth)) ==> SnugExact())
      ensures path != [] && balloc.Valid() && Squared(err, old(Ledger()), Ledger(), unit)
    {
      hide LedgerOf, Formed, Foot, Leaves, Keyed, Exact, OrderAt, ExactAt, LeftOf, RightOf, LowOf, HighOf, Steady, OnTrack,
           Inserted, Blocks.InUse, Blocks.Settled, Blocks.FreeBlocks, Blocks.Valid, Follows, Stuck;
      EntryHere();
      ghost var before := path;
      ghost var mid;
      err, mid := Insert(after, e);
      SteadyTop(disk, path, depth);
      if err == Ok {
        InsertedEnds(mid, after, e);
        RoomyTrack(disk, path, depth, mid, before, old(Exact(disk, path[0].buf.entries, depth)), t);
      }
    }

    /** ... straight after the descent, with the visits it leaves. */
    ghost predicate Spot(all: seq<Entry>, k: nat, l: nat)
      reads this, balloc
    {
      Ready(all, k, l) && forall i | 0 <= i < depth :: OpenAt(path[i], l)
    }

    /** The first entry of the leaf is the current one or before it. */
    lemma FirstBefore(all: seq<Entry>, k: nat, l: nat)
      requires Ready(all, k, l) && k < |all|
      ensures Top(path).buf.entries[0].lblk <= all[k].lblk && (Top(path).curr == 0 ==> Top(path).buf.entries[0] == all[k])
    {
      hide Formed, Foot, Leaves, Keyed, LeftOf, RightOf, OrderAt;
      EntryHere();
      Zip(disk, path, depth, depth);
      KeysIncrease(disk, Top(path).buf.entries, 0, LowOf(path, depth), HighOf(path, depth));
    }

    /** Mapping a block that no entry covers. */
    method SetUnmapped(ghost all: seq<Entry>, ghost k: nat, e: Entry, l: nat, p: nat, uninit: bool, hasNext: bool, next: Entry)
      returns (err: Err)
      requires Spot(all, k, l) && k < |all| && e == all[k] && !Covers(e, l) && 0 < p < P48
      requires NextIs(all, k, SeesNext(path), Top(path).buf.entries[0], hasNext, next)
      modifies this`disk, this`path, this`depth, this`iBlocks, balloc
      ensures path != [] && path[0].end == old(path)[0].end && SetReady(all, k)
      ensures balloc.Valid()
      ensures Granted(err, old(path), old(depth), Slots(all, k, l, p, uninit, SeesNext(old(path))), old(balloc.FreeBlocks()), balloc.FreeBlocks(), old(balloc.InUse()), balloc.InUse())
      ensures Became(if err == Ok then SetList(all, k, l, p, uninit, SeesNext(old(path))) else all)
      ensures old(Exact(disk, path[0].buf.entries, depth)) ==> Exact(disk, path[0].buf.entries, depth)
      ensures path != [] && balloc.Valid() && Squared(err, old(Ledger()), Ledger(), unit)
    {
      hide LedgerOf, Formed, Foot, Leaves, Keyed, Exact, Steady, Runs, SetAt, SetList, Climbing, ClimbingExact, OnTrack,
           Blocks.InUse, Blocks.Settled, Blocks.FreeBlocks, Blocks.Valid, Stuck;
      ReadyFacts(all, k, l);
      err := PutUnmapped(all, k, e, l, p, uninit, hasNext, next);
      if err == Ok {
        SteadyTop(disk, path, depth);
        err := FixParents();
      }
    }

    /** The entry that changes, or the new one; the handle is left on it. */
    method PutUnmapped(ghost all: seq<Entry>, ghost k: nat, e: Entry, l: nat, p: nat, uninit: bool, hasNext: bool, next: Entry)
      returns (err: Err)
      requires Spot(all, k, l) && k < |all| && e == all[k] && !Covers(e, l) && 0 < p < P48
      requires NextIs(all, k, SeesNext(path), Top(path).buf.entries[0], hasNext, next)
      modifies this`disk, this`path, this`depth, this`iBlocks, balloc
      ensures path != [] && path[0].end == old(path)[0].end && SetReady(all, k) && iBlocks < U32
      ensures balloc.Valid()
      ensures Granted(err, old(path), old(depth), Slots(all, k, l, p, uninit, SeesNext(old(path))), old(balloc.FreeBlocks()), balloc.FreeBlocks(), old(balloc.InUse()), balloc.InUse())
      ensures err != Ok ==> Became(all) && (old(Exact(disk, path[0].buf.entries, depth)) ==> Exact(disk, path[0].buf.entries, depth))
      ensures err == Ok ==> AtEntry() && Listing() == SetList(all, k, l, p, uninit, SeesNext(old(path)))
      ensures err == Ok ==> if Top(path).curr > 0 then Ordered() else Climbing(disk, path, depth, Top(path).buf.entries[0].lblk)
      ensures err == Ok && old(Exact(disk, path[0].buf.entries, depth)) ==> ExactButHere()
      ensures path != [] && balloc.Valid() && Squared(err, old(Ledger()), Ledger(), unit)
    {
      hide LedgerOf, Formed, Foot, Leaves, Keyed, Exact, Steady, Runs, Sets, SetAt, SetList, OrderAt, ExactAt, LowOf, HighOf,
           OnTrack, Climbing, Blocks.InUse, Blocks.Settled, Blocks.FreeBlocks, Blocks.Valid, Stuck, OpenAt;
      ReadyFacts(all, k, l);
      FirstBefore(all, k, l);
      ghost var sees := SeesNext(path);
      UnmappedList(all, k, l, p, uninit, sees);
      SetListRight(all, k, l, p, uninit, sees);
      SetsRuns(all, SetList(all, k, l, p, uninit, sees), l, p, uninit);
      if AppendsTo(e, l, p, uninit) {
        JoinHere(all, k, l, Appended(e));
      } else if e.lblk > 0 && PrependsTo(e, l, p, uninit) {
        JoinHere(all, k, l, Prepended(e));
      } else if hasNext && next.lblk > 0 && next.pblk > 0 && PrependsTo(next, l, p, uninit) {
        JoinNext(all, k, l, p, uninit, next);
      } else {
        err := PutNew(all, k, e, l, p, uninit);
        return;
      }
      return Ok;
    }

    /** The entry itself takes the block. */
    method JoinHere(ghost all: seq<Entry>, ghost k: nat, l: nat, e: Entry)
      requires Ready(all, k, l) && k < |all| && Storable(e) && Runs(all[k := e], 0, U32)
      requires (e.lblk == all[k].lblk && e.lblk + e.len <= l + 1) || (e.lblk < all[k].lblk && l < all[k].lblk && e.lblk + e.len == all[k].lblk + all[k].len)
      modifies this`disk, this`path
      ensures AtEntry() && path[0].end == old(path)[0].end && Listing() == all[k := e]
      ensures if Top(path).curr > 0 then Ordered() else Climbing(disk, path, depth, Top(path).buf.entries[0].lblk)
      ensures old(Exact(disk, path[0].buf.entries, depth)) ==> ExactButHere()
      ensures path != [] && balloc.Valid() && Ledger() == old(Ledger())
    {
      hide LedgerOf, Formed, Foot, Leaves, Keyed, Exact, Steady, Runs, OrderAt, ExactAt, LowOf, HighOf, OnTrack, Climbing,
           Blocks.InUse, Blocks.Settled, Blocks.FreeBlocks, Blocks.Valid;
      ReadyFacts(all, k, l);
      ReplacedEnds(Top(path), e);
      Change(e);
      Fixable();
    }

    /** The next entry takes the block. */
    method JoinNext(ghost all: seq<Entry>, ghost k: nat, l: nat, p: nat, uninit: bool, next: Entry)
      requires Spot(all, k, l) && k + 1 < |all| && SeesNext(path) && next == all[k + 1] && next.lblk > 0 && next.pblk > 0
      requires PrependsTo(next, l, p, uninit)
      requires Runs(all[k + 1 := Prepended(next)], 0, U32)
      modifies this`disk, this`path
      ensures AtEntry() && path[0].end == old(path)[0].end && Listing() == all[k + 1 := Prepended(next)]
      ensures if Top(path).curr > 0 then Ordered() else Climbing(disk, path, depth, Top(path).buf.entries[0].lblk)
      ensures old(Exact(disk, path[0].buf.entries, depth)) ==> ExactButHere()
      ensures path != [] && balloc.Valid() && Ledger() == old(Ledger())
    {
      hide LedgerOf, Formed, Foot, Leaves, Keyed, Exact, Steady, Runs, OrderAt, ExactAt, LowOf, HighOf, OnTrack, Climbing, Again,
           Blocks.InUse, Blocks.Settled, Blocks.FreeBlocks, Blocks.Valid, OpenAt;
      ReadyFacts(all, k, l);
      OtherFits(all, k + 1);
      NextSeen(disk, path, depth, l);
      var n := GoNext();
      OrderedSnug();
      SteadyTop(disk, path, depth);
      ReplacedEnds(Top(path), Prepended(next));
      EndsLast(Top(path));
      Change(Prepended(next));
      Fixable();
    }

    /** A new entry of its own takes the block. */
    method PutNew(ghost all: seq<Entry>, ghost k: nat, e: Entry, l: nat, p: nat, uninit: bool) returns (err: Err)
      requires Ready(all, k, l) && k < |all| && e == all[k] && !Covers(e, l) && 0 < p < P48
      requires Runs(InsertAt(all, if l < e.lblk then k else k + 1, Fresh(l, p, uninit)), 0, U32)
      modifies this`disk, this`path, this`depth, this`iBlocks, balloc
      ensures path != [] && path[0].end == old(path)[0].end && iBlocks < U32
      ensures balloc.Valid() && Granted(err, old(path), old(depth), 1, old(balloc.FreeBlocks()), balloc.FreeBlocks(), old(balloc.InUse()), balloc.InUse())
      ensures err != Ok ==> Became(all) && (old(Exact(disk, path[0].buf.entries, depth)) ==> Exact(disk, path[0].buf.entries, depth))
      ensures err == Ok ==> AtEntry() && Listing() == InsertAt(all, if l < e.lblk then k else k + 1, Fresh(l, p, uninit))
      ensures err == Ok ==> if Top(path).curr > 0 then Ordered() else Climbing(disk, path, depth, Top(path).buf.entries[0].lblk)
      ensures err == Ok && old(Exact(disk, path[0].buf.entries, depth)) ==> ExactButHere()
      ensures path != [] && balloc.Valid() && Squared(err, old(Ledger()), Ledger(), unit)
    {
      hide LedgerOf, Formed, Foot, Leaves, Keyed, Exact, Steady, Runs, OrderAt, ExactAt, LowOf, HighOf, OnTrack, Climbing,
           Blocks.InUse, Blocks.Settled, Blocks.FreeBlocks, Blocks.Valid, Stuck;
      ReadyFacts(all, k, l);
      err := Add(all, k, l, l >= e.lblk, Fresh(l, p, uninit));
      if err == Ok {
        Fixable();
      }
    }

    /** The entry becomes a part of itself. */
    method Trim(e: Entry)
      requires AtEntry() && iBlocks < U32 && Storable(e) && Pos() < |Listing()| && Runs(Listing()[Pos() := e], 0, U32)
      requires var e0 := Top(path).buf.entries[Top(path).curr]; e0.lblk <= e.lblk && e.lblk + e.len <= e0.lblk + e0.len
      modifies this`disk, this`path
      ensures AtEntry() && path == SetTop(old(path), Replaced(Top(old(path)), e)) && path[0].end == old(path)[0].end
      ensures Pos() == old(Pos()) < |old(Listing())| && Listing() == old(Listing())[Pos() := e]
      ensures old(Snug()) ==> Ordered()
      ensures old(Snug() && SnugExact()) && (Top(path).curr == 0 ==> e.lblk == Top(old(path)).buf.entries[0].lblk) ==> Exact(disk, path[0].buf.entries, depth)
      ensures LowOf(path, depth) == LowOf(old(path), depth) && HighOf(path, depth) == HighOf(old(path), depth)
      ensures depth > 0 ==> path[0].buf == old(path)[0].buf
      ensures depth > 0 && (Top(path).curr == 0 || e.lblk == KeyOf(Top(old(path)))) ==> Alike(old(disk), disk, path[0].buf.entries, depth)
      ensures path != [] && balloc.Valid() && Ledger() == old(Ledger())
    {
      hide LedgerOf, Formed, Foot, Leaves, Keyed, Exact, Steady, Runs, OrderAt, ExactAt, LowOf, HighOf, Alike, Blocks.InUse,
           Blocks.Settled, Blocks.FreeBlocks, Blocks.Valid;
      SteadyTop(disk, path, depth);
      EndsLast(Top(path));
      Change(e);
      if Snug() {
        SnugOrdered();
      }
    }

    /** Setting the last of several blocks of an entry. */
    method SetLast(ghost all: seq<Entry>, ghost k: nat, e: Entry, l: nat, p: nat, uninit: bool, hasNext: bool, next: Entry)
      returns (err: Err)
      requires Spot(all, k, l) && k < |all| && e == all[k] && e.len > 1 && l == e.lblk + e.len - 1 && p < P48 && !Already(e, l, p, uninit)
      requires NextIs(all, k, SeesNext(path), Top(path).buf.entries[0], hasNext, next)
      modifies this`disk, this`path, this`depth, this`iBlocks, balloc
      ensures path != [] && path[0].end == old(path)[0].end && SetReady(all, k) && iBlocks < U32
      ensures balloc.Valid()
      ensures Granted(err, old(path), old(depth), Slots(all, k, l, p, uninit, SeesNext(old(path))), old(balloc.FreeBlocks()), balloc.FreeBlocks(), old(balloc.InUse()), balloc.InUse())
      ensures err != Ok ==> Became(all) && (old(Exact(disk, path[0].buf.entries, depth)) ==> Exact(disk, path[0].buf.entries, depth))
      ensures err == Ok ==> Tidy() && Listing() == SetList(all, k, l, p, uninit, SeesNext(old(path)))
      ensures err == Ok && !Crosses(all, k, old(path), l, p, uninit) ==> Ordered()
      ensures !Crosses(all, k, old(path), l, p, uninit) && old(Exact(disk, path[0].buf.entries, depth)) ==> Exact(disk, path[0].buf.entries, depth)
      ensures err == Ok && Crosses(all, k, old(path), l, p, uninit) ==>
        depth == old(depth) > 0 && path[0].buf == old(path)[0].buf && Alike(old(disk), disk, path[0].buf.entries, depth)
      ensures path != [] && balloc.Valid() && Squared(err, old(Ledger()), Ledger(), unit)
    {
      hide LedgerOf, Formed, Foot, Leaves, Keyed, Exact, Steady, Runs, Sets, SetAt, SetList, OrderAt, ExactAt, LowOf, HighOf,
           OnTrack, Alike, Blocks.InUse, Blocks.Settled, Blocks.FreeBlocks, Blocks.Valid, Stuck, OpenAt, SeesNext;
      ReadyFacts(all, k, l);
      ghost var sees := SeesNext(path);
      LastList(all, k, l, p, uninit, sees);
      SetListRight(all, k, l, p, uninit, sees);
      SetsRuns(all, SetList(all, k, l, p, uninit, sees), l, p, uninit);
      var ext := e;
      if p != 0 {
        err, ext := RemapLast(all, k, e, l, p, uninit, hasNext, next);
        if err != Ok {
          return;
        }
      }
      SteadyTop(disk, path, depth);
      ghost var disk1 := disk;
      Trim(NoLast(ext));
      if Crosses(all, k, old(path), l, p, uninit) {
        AlikeThen(old(disk), disk1, disk, path[0].buf.entries, depth);
      }
      return Ok;
    }

    /** The new mapping of the last block joins the next entry, or becomes one; then back to the entry. */
    method RemapLast(ghost all: seq<Entry>, ghost k: nat, e: Entry, l: nat, p: nat, uninit: bool, hasNext: bool, next: Entry)
      returns (err: Err, ext: Entry)
      requires Spot(all, k, l) && k < |all| && e == all[k] && e.len > 1 && l == e.lblk + e.len - 1 && 0 < p < P48 && !Already(e, l, p, uninit)
      requires NextIs(all, k, SeesNext(path), Top(path).buf.entries[0], hasNext, next)
      modifies this`disk, this`path, this`depth, this`iBlocks, balloc
      ensures path != [] && path[0].end == old(path)[0].end && iBlocks < U32
      ensures balloc.Valid() && Granted(err, old(path), old(depth), if SeesNext(old(path)) && k + 1 < |all| && PrependsTo(all[k + 1], l, p, uninit) then 0 else 1, old(balloc.FreeBlocks()), balloc.FreeBlocks(), old(balloc.InUse()), balloc.InUse())
      ensures err != Ok ==> Became(all) && (old(Exact(disk, path[0].buf.entries, depth)) ==> Exact(disk, path[0].buf.entries, depth))
      ensures err == Ok ==> AtEntry() && Pos() == k < |Listing()| && ext == e == Top(path).buf.entries[Top(path).curr]
      ensures err == Ok ==>
        if SeesNext(old(path)) && k + 1 < |all| && PrependsTo(all[k + 1], l, p, uninit)
        then all[k + 1].lblk > 0 && all[k + 1].pblk > 0 && Listing() == all[k + 1 := Prepended(all[k + 1])]
        else Listing() == InsertAt(all, k + 1, Fresh(l, p, uninit))
      ensures err == Ok && !Crosses(all, k, old(path), l, p, uninit) ==> Snug() && (old(Exact(disk, path[0].buf.entries, depth)) ==> SnugExact())
      ensures err == Ok && Crosses(all, k, old(path), l, p, uninit) ==>
        depth == old(depth) > 0 && path[0].buf == old(path)[0].buf && Alike(old(disk), disk, path[0].buf.entries, depth)
      ensures path != [] && balloc.Valid() && Squared(err, old(Ledger()), Ledger(), unit)
    {
      hide LedgerOf, Formed, Foot, Leaves, Keyed, Exact, Steady, Runs, OrderAt, ExactAt, LowOf, HighOf, OnTrack, Alike,
           Blocks.InUse, Blocks.Settled, Blocks.FreeBlocks, Blocks.Valid, Stuck, OpenAt, Increasing, SeesNext;
      ReadyFacts(all, k, l);
      FirstBefore(all, k, l);
      if hasNext && next.lblk > 0 && next.pblk > 0 && PrependsTo(next, l, p, uninit) {
        ext := JoinLast(all, k, e, l, p, uninit, next);
      } else {
        if k + 1 < |all| {
          OtherFits(all, k + 1);
        }
        err, ext := PutLast(all, k, e, l, p, uninit);
        return;
      }
      return Ok, ext;
    }

    /** A new entry after the entry takes the last block; and back. */
    method PutLast(ghost all: seq<Entry>, ghost k: nat, e: Entry, l: nat, p: nat, uninit: bool) returns (err: Err, ext: Entry)
      requires Ready(all, k, l) && k < |all| && e == all[k] && e.lblk <= l && 0 < p < P48
      modifies this`disk, this`path, this`depth, this`iBlocks, balloc
      ensures path != [] && path[0].end == old(path)[0].end && iBlocks < U32
      ensures balloc.Valid() && Granted(err, old(path), old(depth), 1, old(balloc.FreeBlocks()), balloc.FreeBlocks(), old(balloc.InUse()), balloc.InUse())
      ensures err != Ok ==> Became(all) && (old(Exact(disk, path[0].buf.entries, depth)) ==> Exact(disk, path[0].buf.entries, depth))
      ensures err == Ok ==> AtEntry() && Pos() == k < |Listing()| && ext == e == Top(path).buf.entries[Top(path).curr] && Listing() == InsertAt(all, k + 1, Fresh(l, p, uninit))
      ensures err == Ok ==> Snug() && (old(Exact(disk, path[0].buf.entries, depth)) ==> SnugExact())
      ensures path != [] && balloc.Valid() && Squared(err, old(Ledger()), Ledger(), unit)
    {
      hide LedgerOf, Formed, Foot, Leaves, Keyed, Exact, Steady, Runs, OrderAt, ExactAt, LowOf, HighOf, OnTrack, Blocks.InUse,
           Blocks.Settled, Blocks.FreeBlocks, Blocks.Valid, Stuck;
      ReadyFacts(all, k, l);
      err := Add(all, k, l, true, Fresh(l, p, uninit));
      if err != Ok {
        return err, e;
      }
      ext := GoPrev();
    }

    /** The next entry takes the last block; and back. */
    method JoinLast(ghost all: seq<Entry>, ghost k: nat, e: Entry, l: nat, p: nat, uninit: bool, next: Entry) returns (ext: Entry)
      requires Spot(all, k, l) && k + 1 < |all| && e == all[k] && SeesNext(path) && next == all[k + 1] && next.lblk > 0
      requires next.pblk > 0 && PrependsTo(next, l, p, uninit)
      modifies this`disk, this`path
      ensures AtEntry() && path[0].end == old(path)[0].end && Pos() == k && ext == e == Top(path).buf.entries[Top(path).curr]
      ensures Listing() == all[k + 1 := Prepended(next)]
      ensures Top(old(path)).left > 0 ==> Snug() && (old(Exact(disk, path[0].buf.entries, depth)) ==> SnugExact())
      ensures Top(old(path)).left == 0 ==> depth > 0 && path[0].buf == old(path)[0].buf && Alike(old(disk), disk, path[0].buf.entries, depth)
      ensures path != [] && balloc.Valid() && Ledger() == old(Ledger())
    {
      hide LedgerOf, Formed, Foot, Leaves, Keyed, Exact, Steady, Runs, OrderAt, ExactAt, LowOf, HighOf, OnTrack, Alike, Again,
           Increasing, Blocks.InUse, Blocks.Settled, Blocks.FreeBlocks, Blocks.Valid, OpenAt;
      ReadyFacts(all, k, l);
      OtherFits(all, k + 1);
      NextSeen(disk, path, depth, l);
      SteadyTop(disk, path, depth);
      var n := GoNext();
      SteadyTop(disk, path, depth);
      ReplacedEnds(Top(path), Prepended(next));
      EndsLast(Top(path));
      Change(Prepended(next));
      ext := GoPrev();
    }

    /** Setting the first of several blocks of an entry. */
    method SetFirst(ghost all: seq<Entry>, ghost k: nat, e: Entry, l: nat, p: nat, uninit: bool, ghost sees: bool, hasPrev: bool, prev: Entry)
      returns (err: Err)
      requires Spot(all, k, l) && k < |all| && e == all[k] && e.len > 1 && l == e.lblk && p < P48
      requires !Already(e, l, p, uninit) && PrevIs(all, k, hasPrev, prev)
      modifies this`disk, this`path, this`depth, this`iBlocks, balloc
      ensures path != [] && path[0].end == old(path)[0].end && SetReady(all, k) && iBlocks < U32
      ensures balloc.Valid() && Granted(err, old(path), old(depth), Slots(all, k, l, p, uninit, sees), old(balloc.FreeBlocks()), balloc.FreeBlocks(), old(balloc.InUse()), balloc.InUse())
      ensures err != Ok ==> Became(all) && (old(Exact(disk, path[0].buf.entries, depth)) ==> Exact(disk, path[0].buf.entries, depth))
      ensures err == Ok ==> Tidy() && Listing() == SetList(all, k, l, p, uninit, sees)
      ensures err == Ok && !Crosses(all, k, old(path), l, p, uninit) ==> Ordered()
      ensures err == Ok && !Crosses(all, k, old(path), l, p, uninit) && old(Exact(disk, path[0].buf.entries, depth)) ==>
        (Exact(disk, path[0].buf.entries, depth) <==> !(depth > 0 && p == 0 && Top(old(path)).curr == 0))
      ensures err == Ok && p == 0 ==> depth == old(depth)
      ensures err == Ok && Crosses(all, k, old(path), l, p, uninit) ==>
        depth == old(depth) > 0 && path[0].buf == old(path)[0].buf && Alike(old(disk), disk, path[0].buf.entries, depth)
      ensures path != [] && balloc.Valid() && Squared(err, old(Ledger()), Ledger(), unit)
    {
      hide LedgerOf, Formed, Foot, Leaves, Keyed, Exact, Steady, Runs, Sets, SetAt, SetList, OrderAt, ExactAt, LowOf, HighOf,
           OnTrack, Alike, PrevIs, SeesNext, Already, Blocks.InUse, Blocks.Settled, Blocks.FreeBlocks, Blocks.Valid, Stuck, OpenAt;
      ReadyFacts(all, k, l);
      FirstList(all, k, l, p, uninit, sees);
      SetListRight(all, k, l, p, uninit, sees);
      SetsRuns(all, SetList(all, k, l, p, uninit, sees), l, p, uninit);
      err := Ok;
      if p == 0 {
        UnmapFirst(all, k, e);
      } else {
        err := MapFirst(all, k, e, l, p, uninit, sees, hasPrev, prev);
      }
    }

    /** ... to another block. */
    method MapFirst(ghost all: seq<Entry>, ghost k: nat, e: Entry, l: nat, p: nat, uninit: bool, ghost sees: bool, hasPrev: bool, prev: Entry)
      returns (err: Err)
      requires Spot(all, k, l) && k < |all| && e == all[k] && e.len > 1 && l == e.lblk && 0 < p < P48
      requires !Already(e, l, p, uninit) && PrevIs(all, k, hasPrev, prev)
      requires SetReady(all, k) && Runs(SetList(all, k, l, p, uninit, sees), 0, U32)
      modifies this`disk, this`path, this`depth, this`iBlocks, balloc
      ensures path != [] && path[0].end == old(path)[0].end && iBlocks < U32
      ensures balloc.Valid() && Granted(err, old(path), old(depth), Slots(all, k, l, p, uninit, sees), old(balloc.FreeBlocks()), balloc.FreeBlocks(), old(balloc.InUse()), balloc.InUse())
      ensures err != Ok ==> Became(all) && (old(Exact(disk, path[0].buf.entries, depth)) ==> Exact(disk, path[0].buf.entries, depth))
      ensures err == Ok ==> Tidy() && Listing() == SetList(all, k, l, p, uninit, sees)
      ensures err == Ok && !Crosses(all, k, old(path), l, p, uninit) ==> Ordered() && (old(Exact(disk, path[0].buf.entries, depth)) ==> Exact(disk, path[0].buf.entries, depth))
      ensures err == Ok && Crosses(all, k, old(path), l, p, uninit) ==>
        depth == old(depth) > 0 && path[0].buf == old(path)[0].buf && Alike(old(disk), disk, path[0].buf.entries, depth)
      ensures path != [] && balloc.Valid() && Squared(err, old(Ledger()), Ledger(), unit)
    {
      hide LedgerOf, Formed, Foot, Leaves, Keyed, Exact, Steady, Runs, Sets, SetAt, SetList, OrderAt, ExactAt, LowOf, HighOf,
           OnTrack, Alike, Crosses, SeesNext, PrevIs, Blocks.InUse, Blocks.Settled, Blocks.FreeBlocks, Blocks.Valid, Stuck, OpenAt;
      ReadyFacts(all, k, l);
      FirstList(all, k, l, p, uninit, sees);
      var ext := e;
      err, ext := RemapFirst(all, k, e, l, p, uninit, hasPrev, prev);
      if err != Ok {
        return;
      }
      ghost var disk1 := disk;
      Trim(NoFirst(ext));
      if Crosses(all, k, old(path), l, p, uninit) {
        AlikeThen(old(disk), disk1, disk, path[0].buf.entries, depth);
      }
    }

    /** Without a new mapping the entry only shrinks, and no key follows its new start. */
    method UnmapFirst(ghost all: seq<Entry>, ghost k: nat, e: Entry)
      requires Spot(all, k, e.lblk) && k < |all| && e == all[k] && e.len > 1 && Runs(all[k := NoFirst(e)], 0, U32)
      modifies this`disk, this`path
      ensures path != [] && path[0].end == old(path)[0].end && Tidy() && Listing() == all[k := NoFirst(e)] && Ordered()
      ensures old(Exact(disk, path[0].buf.entries, depth)) ==> (Exact(disk, path[0].buf.entries, depth) <==> !(depth > 0 && Top(old(path)).curr == 0))
      ensures path != [] && balloc.Valid() && Ledger() == old(Ledger())
    {
      hide LedgerOf, Formed, Foot, Leaves, Keyed, Exact, Steady, Runs, OrderAt, ExactAt, LowOf, HighOf, OnTrack, Alike,
           Blocks.InUse, Blocks.Settled, Blocks.FreeBlocks, Blocks.Valid, OpenAt;
      ReadyFacts(all, k, e.lblk);
      Trim(NoFirst(e));
      ExactFlat(disk, path[0].buf.entries);
      Uneven(old(Exact(disk, path[0].buf.entries, depth)), old(path), e);
    }

    /** The parents still have the old start. */
    lemma Uneven(exact: bool, path0: seq<Level>, e: Entry)
      requires AtEntry() && path0 != [] && Top(path0).curr == Top(path).curr && e.len > 0 && Top(path).buf.entries[Top(path).curr] == NoFirst(e)
      requires exact && Top(path).curr == 0 && depth > 0 ==> LowOf(path, depth) == e.lblk
      ensures exact && depth > 0 && Top(path).curr == 0 ==> !Exact(disk, path[0].buf.entries, depth)
    {
      hide Formed, Foot, Leaves, Keyed, Exact, OrderAt, ExactAt, LowOf, HighOf, LeftOf, RightOf;
      Zip(disk, path, depth, depth);
    }

    /** The new mapping of the first block joins the previous entry, or becomes one; then on to the entry. */
    method RemapFirst(ghost all: seq<Entry>, ghost k: nat, e: Entry, l: nat, p: nat, uninit: bool, hasPrev: bool, prev: Entry)
      returns (err: Err, ext: Entry)
      requires Spot(all, k, l) && k < |all| && e == all[k] && e.len > 1 && l == e.lblk && 0 < p < P48
      requires !Already(e, l, p, uninit) && PrevIs(all, k, hasPrev, prev)
      modifies this`disk, this`path, this`depth, this`iBlocks, balloc
      ensures path != [] && path[0].end == old(path)[0].end && iBlocks < U32
      ensures balloc.Valid() && Granted(err, old(path), old(depth), if k > 0 && AppendsTo(all[k - 1], l, p, uninit) then 0 else 1, old(balloc.FreeBlocks()), balloc.FreeBlocks(), old(balloc.InUse()), balloc.InUse())
      ensures err != Ok ==> Became(all) && (old(Exact(disk, path[0].buf.entries, depth)) ==> Exact(disk, path[0].buf.entries, depth))
      ensures err == Ok ==> AtEntry() && ext == e == Top(path).buf.entries[Top(path).curr]
      ensures err == Ok ==>
        if k > 0 && AppendsTo(all[k - 1], l, p, uninit) then Pos() == k && Listing() == all[k - 1 := Appended(all[k - 1])]
        else Pos() == k + 1 && Listing() == InsertAt(all, k, Fresh(l, p, uninit))
      ensures err == Ok && !Crosses(all, k, old(path), l, p, uninit) ==> Top(path).curr > 0 && Snug() && (old(Exact(disk, path[0].buf.entries, depth)) ==> SnugExact())
      ensures err == Ok && Crosses(all, k, old(path), l, p, uninit) ==>
        && depth == old(depth) > 0 && path[0].buf == old(path)[0].buf && Alike(old(disk), disk, path[0].buf.entries, depth)
        && Top(path).curr == 0
      ensures path != [] && balloc.Valid() && Squared(err, old(Ledger()), Ledger(), unit)
    {
      hide LedgerOf, Formed, Foot, Leaves, Keyed, Exact, Steady, Runs, OrderAt, ExactAt, LowOf, HighOf, OnTrack, Alike,
           Blocks.InUse, Blocks.Settled, Blocks.FreeBlocks, Blocks.Valid, Stuck, OpenAt, Increasing, Again;
      ReadyFacts(all, k, l);
      if hasPrev && AppendsTo(prev, l, p, uninit) {
        ext := JoinFirst(all, k, e, l, p, uninit, prev);
      } else {
        err, ext := PutFirst(all, k, e, l, p, uninit);
        return;
      }
      return Ok, ext;
    }

    /** A new entry before the entry takes the first block; and on to the entry. */
    method PutFirst(ghost all: seq<Entry>, ghost k: nat, e: Entry, l: nat, p: nat, uninit: bool) returns (err: Err, ext: Entry)
      requires Ready(all, k, l) && k < |all| && e == all[k] && l == e.lblk && 0 < p < P48
      modifies this`disk, this`path, this`depth, this`iBlocks, balloc
      ensures path != [] && path[0].end == old(path)[0].end && iBlocks < U32
      ensures balloc.Valid() && Granted(err, old(path), old(depth), 1, old(balloc.FreeBlocks()), balloc.FreeBlocks(), old(balloc.InUse()), balloc.InUse())
      ensures err != Ok ==> Became(all) && (old(Exact(disk, path[0].buf.entries, depth)) ==> Exact(disk, path[0].buf.entries, depth))
      ensures err == Ok ==> AtEntry() && ext == e == Top(path).buf.entries[Top(path).curr] && Pos() == k + 1 && Listing() == InsertAt(all, k, Fresh(l, p, uninit))
      ensures err == Ok ==> Top(path).curr > 0 && Snug() && (old(Exact(disk, path[0].buf.entries, depth)) ==> SnugExact())
      ensures path != [] && balloc.Valid() && Squared(err, old(Ledger()), Ledger(), unit)
    {
      hide LedgerOf, Formed, Foot, Leaves, Keyed, Exact, Steady, Runs, OrderAt, ExactAt, LowOf, HighOf, OnTrack, Again,
           Blocks.InUse, Blocks.Settled, Blocks.FreeBlocks, Blocks.Valid, Stuck;
      ReadyFacts(all, k, l);
      err := Add(all, k, l, false, Fresh(l, p, uninit));
      if err != Ok {
        return err, e;
      }
      SteadyTop(disk, path, depth);
      AgainNext(disk, path, depth);
      ext := GoNext();
      return Ok, ext;
    }

    /** The previous entry takes the first block; and back. */
    method JoinFirst(ghost all: seq<Entry>, ghost k: nat, e: Entry, l: nat, p: nat, uninit: bool, prev: Entry) returns (ext: Entry)
      requires Spot(all, k, l) && 0 < k < |all| && e == all[k] && prev == all[k - 1] && AppendsTo(prev, l, p, uninit) && l == e.lblk
      modifies this`disk, this`path
      ensures AtEntry() && path[0].end == old(path)[0].end && Pos() == k && ext == e == Top(path).buf.entries[Top(path).curr]
      ensures Listing() == all[k - 1 := Appended(prev)]
      ensures Top(old(path)).curr > 0 ==> Top(path).curr > 0 && Snug() && (old(Exact(disk, path[0].buf.entries, depth)) ==> SnugExact())
      ensures Top(old(path)).curr == 0 ==>
        depth > 0 && path[0].buf == old(path)[0].buf && Alike(old(disk), disk, path[0].buf.entries, depth) && Top(path).curr == 0
      ensures path != [] && balloc.Valid() && Ledger() == old(Ledger())
    {
      hide LedgerOf, Formed, Foot, Leaves, Keyed, Exact, Steady, Runs, OrderAt, ExactAt, LowOf, HighOf, OnTrack, Alike, Again,
           Blocks.InUse, Blocks.Settled, Blocks.FreeBlocks, Blocks.Valid, OpenAt;
      ReadyFacts(all, k, l);
      TakeFirst(all, k, e, l, p, uninit, prev);
      SameStarts(all, k - 1, Appended(prev));
      ext := GoNext();
    }

    /** ... up to the way on. */
    method TakeFirst(ghost all: seq<Entry>, ghost k: nat, ghost e: Entry, l: nat, p: nat, uninit: bool, prev: Entry)
      requires Spot(all, k, l) && 0 < k < |all| && e == all[k] && prev == all[k - 1] && AppendsTo(prev, l, p, uninit) && l == e.lblk
      modifies this`disk, this`path
      ensures AtEntry() && path[0].end == old(path)[0].end && Pos() == k - 1 && Listing() == all[k - 1 := Appended(prev)]
      ensures var again := Again(disk, path, depth, |path|); again != [] && again[0] == e
      ensures Top(old(path)).curr > 0 ==> Top(path).left > 0 && Snug() && (old(Exact(disk, path[0].buf.entries, depth)) ==> SnugExact())
      ensures Top(old(path)).curr == 0 ==> Top(path).left == 0 && depth > 0 && path[0].buf == old(path)[0].buf && Alike(old(disk), disk, path[0].buf.entries, depth)
      ensures path != [] && balloc.Valid() && Ledger() == old(Ledger())
    {
      hide LedgerOf, Formed, Foot, Leaves, Keyed, Exact, Steady, Runs, OrderAt, ExactAt, LowOf, HighOf, OnTrack, Alike, Again,
           Blocks.InUse, Blocks.Settled, Blocks.FreeBlocks, Blocks.Valid, OpenAt, Leads, Here, Increasing;
      ReadyFacts(all, k, l);
      OtherFits(all, k - 1);
      ghost var path0 := path;
      SteadyTop(disk, path, depth);
      var n := GoPrev();
      SteadyTop(disk, path, depth);
      if Top(path0).curr == 0 {
        LeadsSome(disk, path, depth, e);
      }
      ghost var disk1, path1 := disk, path;
      Change(Appended(prev));
      SteadyTop(disk, path, depth);
      BackNext(disk1, path1, depth, disk, path, e);
    }

    /** Setting a block in the middle of an entry: it is cut before the block; the new entry and the rest
        go in after it, as far as there is room. */
    method SetInner(ghost all: seq<Entry>, ghost k: nat, e: Entry, l: nat, p: nat, uninit: bool, ghost sees: bool) returns (err: Err)
      requires Ready(all, k, l) && k < |all| && e == all[k] && Within(e, l) && p < P48 && !Already(e, l, p, uninit)
      modifies this`disk, this`path, this`depth, this`iBlocks, balloc
      ensures path != [] && path[0].end == old(path)[0].end && SetReady(all, k) && iBlocks < U32
      ensures balloc.Valid() && Granted(err, old(path), old(depth), Slots(all, k, l, p, uninit, sees), old(balloc.FreeBlocks()), balloc.FreeBlocks(), old(balloc.InUse()), balloc.InUse())
      ensures err == Ok ==> Became(SetList(all, k, l, p, uninit, sees))
      ensures err != Ok ==> Became(Half(all, k, l, p, uninit, p != 0 && |Top(old(path)).buf.entries| < Top(old(path)).buf.max))
      ensures old(Exact(disk, path[0].buf.entries, depth)) ==> Exact(disk, path[0].buf.entries, depth)
      ensures path != [] && balloc.Valid() && Squared(err, old(Ledger()), Ledger(), unit)
    {
      hide LedgerOf, Formed, Foot, Leaves, Keyed, Exact, Steady, Runs, Sets, SetAt, SetList, OrderAt, ExactAt, LowOf, HighOf,
           OnTrack, Alike, Half, Torn, Blocks.InUse, Blocks.Settled, Blocks.FreeBlocks, Blocks.Valid, Blind, Took, Cost, NewNodes;
      ReadyFacts(all, k, l);
      SetListRight(all, k, l, p, uninit, sees);
      SetsRuns(all, SetList(all, k, l, p, uninit, sees), l, p, uninit);
      InnerList(all, k, l, p, uninit, sees);
      InnerSlots(all, k, l, p, uninit, sees);
      err := CutInner(all, k, e, l, p, uninit);
      if err == Ok {
        Halves(all, k, l, p, uninit);
        InnerRoom(old(path), old(depth), old(balloc.FreeBlocks()), p);
        err := AddAfter(Half(all, k, l, p, uninit, p != 0), Pos(), e.lblk + e.len - 1, After(e, l));
      }
    }

    /** Where the last part finds room. */
    lemma InnerRoom(path0: seq<Level>, depth0: nat, free0: nat, p: nat)
      requires balloc.Valid() && |path| == depth + 1 && |path0| == depth0 + 1
      requires if p == 0 then Resized(path0, path) && depth == depth0 && balloc.FreeBlocks() == free0
        else Room(path0, depth0, 1, free0) && Took(path0, depth0, free0, path, depth, balloc.FreeBlocks())
      ensures Room(path, depth, 1, balloc.FreeBlocks()) <==> Room(path0, depth0, if p == 0 then 1 else 2, free0)
      ensures Cost(path, 1) + (if p == 0 then 0 else Cost(path0, 1)) == Cost(path0, if p == 0 then 1 else 2)
      ensures p != 0 ==> balloc.FreeBlocks() + Cost(path0, 1) == free0
      ensures !Room(path, depth, 1, balloc.FreeBlocks()) ==>
        && Blind(path, depth) == Blind(path0, depth0) && NewNodes(path) == NewNodes(path0) && balloc.FreeBlocks() == free0
        && (p != 0 ==> |Top(path0).buf.entries| < Top(path0).buf.max)
    {
      hide Blind, NewNodes, Room, Took, Blocks.FreeBlocks, Blocks.Valid;
      if p == 0 {
        SizeSame(path0, path, depth);
      } else {
        TookRoom(path0, depth0, free0, path, depth, balloc.FreeBlocks());
      }
    }

    /** The entry is cut, and the new one goes in after it. */
    method CutInner(ghost all: seq<Entry>, ghost k: nat, e: Entry, l: nat, p: nat, uninit: bool) returns (err: Err)
      requires Ready(all, k, l) && k < |all| && e == all[k] && Within(e, l) && p < P48
      modifies this`disk, this`path, this`depth, this`iBlocks, balloc
      ensures path != [] && path[0].end == old(path)[0].end && iBlocks < U32
      ensures Became(Half(all, k, l, p, uninit, p != 0 && err == Ok))
      ensures if p == 0 then
          err == Ok && Resized(old(path), path) && depth == old(depth)
          && balloc.FreeBlocks() == old(balloc.FreeBlocks()) && balloc.InUse() == old(balloc.InUse())
        else Granted(err, old(path), old(depth), 1, old(balloc.FreeBlocks()), balloc.FreeBlocks(), old(balloc.InUse()), balloc.InUse())
             && (err == Ok ==> Took(old(path), old(depth), old(balloc.FreeBlocks()), path, depth, balloc.FreeBlocks()))
      ensures err == Ok ==> AtEntry() && Pos() == k + (if p != 0 then 1 else 0) && e.lblk + e.len <= HighOf(path, depth)
      ensures old(Exact(disk, path[0].buf.entries, depth)) ==> Exact(disk, path[0].buf.entries, depth)
      ensures path != [] && balloc.Valid() && Squared(err, old(Ledger()), Ledger(), unit)
    {
      hide LedgerOf, Formed, Foot, Leaves, Keyed, Exact, Steady, Runs, Sets, SetAt, SetList, OrderAt, ExactAt, LowOf, HighOf,
           OnTrack, Alike, Half, Torn, Blocks.InUse, Blocks.Settled, Blocks.FreeBlocks, Blocks.Valid, Blind, Took, Room, NewNodes;
      ReadyFacts(all, k, l);
      EntryBelow();
      Halves(all, k, l, p, uninit);
      HalfCut(all, k, l, p, uninit);
      Trim(Before(e, l));
      if p == 0 {
        return Ok;
      }
      SizeSame(old(path), path, depth);
      ghost var path1 := path;
      err := AddAfter(Half(all, k, l, p, uninit, false), k, e.lblk + e.len - 1, Fresh(l, p, uninit));
      if err == Ok {
        TookSame(old(path), path1, old(depth), old(balloc.FreeBlocks()), path, depth, balloc.FreeBlocks());
      }
    }

    lemma EntryBelow()
      requires AtEntry() && Ordered()
      ensures var e := Top(path).buf.entries[Top(path).curr]; e.lblk + e.len <= HighOf(path, depth)
    {
      hide Formed, Foot, Leaves, Keyed, Exact, OrderAt, ExactAt, LeftOf, RightOf, LowOf, HighOf;
      Zip(disk, path, depth, depth);
      KeyedLeaves(disk, Top(path).buf.entries, 0, LowOf(path, depth), HighOf(path, depth));
      LeavesFlat(disk, Top(path).buf.entries);
    }

    /** Both halves are in order, and in both the entry after the cut starts beyond the old entry. */
    lemma Halves(all: seq<Entry>, k: nat, l: nat, p: nat, uninit: bool)
      requires k < |all| && Runs(all, 0, U32) && AllFit(all) && Within(all[k], l)
      ensures all[k].lblk + all[k].len <= U32 && Runs(Half(all, k, l, p, uninit, false), 0, U32) && (p != 0 && p < P48 ==> Runs(Half(all, k, l, p, uninit, true), 0, U32))
      ensures forall more :: var h, j := Half(all, k, l, p, uninit, more), k + if more then 2 else 1;
        j <= |h| && h[j - 1].lblk < all[k].lblk + all[k].len && (j < |h| ==> all[k].lblk + all[k].len <= h[j].lblk)
    {
      hide Runs;
      RunsShrinkAt(all, k);
      HalfRight(all, k, l, 1, uninit, false);
      if 0 < p < P48 {
        HalfRight(all, k, l, p, uninit, true);
      }
      if k + 1 < |all| {
        RunsApart(all, 0, U32, k, k + 1);
      }
    }

    /** Another new entry after entry k, below block t, which is before the entry after it. */
    method AddAfter(ghost all: seq<Entry>, ghost k: nat, ghost t: nat, e: Entry) returns (err: Err)
      requires AtEntry() && Ordered() && Listing() == all && Pos() == k < |all| && iBlocks < U32 && Storable(e)
      requires all[k].lblk <= t < HighOf(path, depth) && (k + 1 < |all| ==> t < all[k + 1].lblk) && e.lblk + e.len <= t + 1 && t < U32
      requires Runs(InsertAt(all, k + 1, e), 0, U32)
      modifies this`disk, this`path, this`depth, this`iBlocks, balloc
      ensures path != [] && path[0].end == old(path)[0].end && iBlocks < U32
      ensures Became(if err == Ok then InsertAt(all, k + 1, e) else all)
      ensures Granted(err, old(path), old(depth), 1, old(balloc.FreeBlocks()), balloc.FreeBlocks(), old(balloc.InUse()), balloc.InUse())
      ensures err == Ok ==> Took(old(path), old(depth), old(balloc.FreeBlocks()), path, depth, balloc.FreeBlocks())
      ensures err == Ok ==> AtEntry() && Pos() == k + 1 && t < HighOf(path, depth)
      ensures old(Exact(disk, path[0].buf.entries, depth)) ==> Exact(disk, path[0].buf.entries, depth)
      ensures path != [] && balloc.Valid() && Squared(err, old(Ledger()), Ledger(), unit)
    {
      hide LedgerOf, Formed, Foot, Leaves, Keyed, Exact, Steady, Runs, OrderAt, ExactAt, LowOf, HighOf, OnTrack, Blocks.InUse,
           Blocks.Settled, Blocks.FreeBlocks, Blocks.Valid, Stuck;
      EntryHere();
      GapOnTrack(disk, path, depth, t);
      err := Add(all, k, t, true, e);
      if err == Ok {
        SnugOrdered();
      }
    }

    // ---------- ext2fs_extent_set_bmap ----------

    /** The goto of set_bmap. */
    method GotoBlock(l: nat) returns (mapped: bool)
      requires (Valid() || Rooted()) && Housed() && Ordered() && path[0].buf.entries != [] && AllFit(Listing()) && iBlocks < U32 && l < U32
      modifies this`path
      ensures path != [] && path[0].buf == old(path)[0].buf && path[0].end == old(path)[0].end
      ensures |path| == depth + 1 && Spot(old(Listing()), Pos(), l) && Pos() < |old(Listing())| && mapped == Covers(old(Listing())[Pos()], l)
    {
      hide Formed, Foot, Leaves, Keyed, Exact, Steady, OnTrack, Blocks.InUse, Blocks.Settled, Blocks.FreeBlocks,
           Blocks.Valid, OpenAt, InfoOf, Pick;
      var err := Goto(0, l);
      SteadyTop(disk, path, depth);
      EntryHere();
      LeafReach(Top(path), l);
      return err == Ok;
    }

    /** Back to the same entry, after a move. */
    method ComeAgain(ghost all: seq<Entry>, ghost k: nat, l: nat, ghost at: seq<Level>)
      requires Tidy() && Ordered() && path[0].buf.entries != [] && AllFit(all) && Listing() == all && iBlocks < U32 && l < U32
      requires Steady(disk, at, depth) && |at| == depth + 1 && at[0].buf == path[0].buf && at[0].end == path[0].end && OnTrack(at, |at|, l)
      requires (forall i | 0 <= i < depth :: OpenAt(at[i], l)) && k == Here(disk, at, depth)
      modifies this`path
      ensures Spot(all, k, l) && path[0].end == old(path)[0].end && SameSpot(at, path) && SeesNext(path) == SeesNext(at)
    {
      hide Formed, Foot, Leaves, Keyed, Exact, Steady, OnTrack, Blocks.InUse, Blocks.Settled, Blocks.FreeBlocks,
           Blocks.Valid, Pick;
      var mapped := GotoBlock(l);
      TrackHere(disk, at, path, depth, l);
    }

    /** A look at what NEXT_LEAF leads to. */
    method LookNext(ghost all: seq<Entry>, ghost k: nat, l: nat) returns (hasNext: bool, next: Entry)
      requires Spot(all, k, l)
      modifies this`path
      ensures Spot(all, k, l) && path[0].end == old(path)[0].end && SameSpot(old(path), path) && SeesNext(path) == SeesNext(old(path))
      ensures NextIs(all, k, SeesNext(path), Top(path).buf.entries[0], hasNext, next)
    {
      hide Formed, Foot, Leaves, Keyed, Exact, Steady, OnTrack, Blocks.InUse, Blocks.Settled, Blocks.FreeBlocks, Blocks.Valid, OpenAt,
           InfoOf, SeesNext, Again;
      SteadyTop(disk, path, depth);
      RootSome(disk, path, depth);
      ghost var at := path;
      hasNext, next := Peek(all, k, l);
      ComeAgain(all, k, l, at);
    }

    /** NEXT_LEAF, from where the descent led. */
    method Peek(ghost all: seq<Entry>, ghost k: nat, l: nat) returns (hasNext: bool, next: Entry)
      requires Spot(all, k, l)
      modifies this`path
      ensures path != [] && old(path) != [] && path[0].buf == old(path)[0].buf && path[0].end == old(path)[0].end && Tidy()
      ensures NextIs(all, k, SeesNext(old(path)), Top(old(path)).buf.entries[0], hasNext, next)
    {
      hide Formed, Foot, Leaves, Keyed, Exact, Steady, OnTrack, Blocks.InUse, Blocks.Settled, Blocks.FreeBlocks, Blocks.Valid, OpenAt,
           InfoOf, SeesNext, Again, Coming, Around, AllFit;
      SteadyTop(disk, path, depth);
      NextSeen(disk, path, depth, l);
      var err, info := GetNextLeaf();
      hasNext, next := err == Ok, Entry(info.lblk, info.pblk, info.len, info.uninit);
      SteadyTop(disk, path, depth);
      if err == Ok {
        LeafEntry(Top(path));
      }
    }

    /** A look at the entry before. */
    method LookPrev(ghost all: seq<Entry>, ghost k: nat, l: nat) returns (hasPrev: bool, prev: Entry)
      requires Spot(all, k, l)
      modifies this`path
      ensures Spot(all, k, l) && path[0].end == old(path)[0].end && SameSpot(old(path), path) && SeesNext(path) == SeesNext(old(path))
      ensures PrevIs(all, k, hasPrev, prev)
    {
      hide Formed, Foot, Leaves, Keyed, Exact, Steady, OnTrack, Blocks.InUse, Blocks.Settled, Blocks.FreeBlocks, Blocks.Valid, OpenAt,
           InfoOf, SeesNext, Leads;
      SteadyTop(disk, path, depth);
      RootSome(disk, path, depth);
      EntryHere();
      ghost var at := path;
      var err, info := GetPrevLeaf();
      hasPrev, prev := err == Ok, Entry(info.lblk, info.pblk, info.len, info.uninit);
      SteadyTop(disk, path, depth);
      if err == Ok {
        LeafEntry(Top(path));
        EntryHere();
      }
      ComeAgain(all, k, l, at);
    }

    /** One of the six cases. */
    method Dispatch(ghost all: seq<Entry>, ghost k: nat, e: Entry, l: nat, p: nat, uninit: bool, hasNext: bool, next: Entry, hasPrev: bool, prev: Entry)
      returns (err: Err)
      requires Spot(all, k, l) && k < |all| && e == all[k] && p < P48 && !Already(e, l, p, uninit)
      requires NextIs(all, k, SeesNext(path), Top(path).buf.entries[0], hasNext, next) && PrevIs(all, k, hasPrev, prev)
      modifies this`disk, this`path, this`depth, this`iBlocks, balloc
      ensures path != [] && path[0].end == old(path)[0].end && SetReady(all, k) && iBlocks < U32
      ensures err == Ok || err == NoSpace || err == NotFound
      ensures Listing() == [] ==> depth == 0
      ensures balloc.Valid() && (Made(err, e, p) <==> Room(old(path), old(depth), Slots(all, k, l, p, uninit, SeesNext(old(path))), old(balloc.FreeBlocks())))
      ensures err == Ok && !(p == 0 && e.len == 1 && Covers(e, l)) ==>
        Spent(old(path), Slots(all, k, l, p, uninit, SeesNext(old(path))), old(balloc.FreeBlocks()), balloc.FreeBlocks(), old(balloc.InUse()), balloc.InUse())
      ensures Made(err, e, p) || Failed(err, old(path), old(depth), old(balloc.FreeBlocks()), balloc.FreeBlocks())
      ensures Made(err, e, p) ==> Tidy() && Listing() == SetList(all, k, l, p, uninit, SeesNext(old(path)))
      ensures Made(err, e, p) && !Crosses(all, k, old(path), l, p, uninit) ==> Ordered()
      ensures Made(err, e, p) && Crosses(all, k, old(path), l, p, uninit) ==>
        depth == old(depth) > 0 && path[0].buf == old(path)[0].buf && Alike(old(disk), disk, path[0].buf.entries, depth)
      ensures !Made(err, e, p) ==> Became(if Within(e, l) then Half(all, k, l, p, uninit, p != 0 && Spare(old(path))) else all)
      ensures old(Exact(disk, path[0].buf.entries, depth)) && !Made(err, e, p) ==> Exact(disk, path[0].buf.entries, depth)
      ensures old(Exact(disk, path[0].buf.entries, depth)) && Made(err, e, p) && !Crosses(all, k, old(path), l, p, uninit) ==>
        err == Ok && (Exact(disk, path[0].buf.entries, depth) <==> !CutsStart(all, k, old(path), l, p))
      ensures path != [] && balloc.Valid() && Squared(err, old(Ledger()), Ledger(), unit)
      ensures Made(err, e, p) && err != Ok ==> err == NotFound && Covers(e, l)
    {
      hide LedgerOf, Formed, Foot, Leaves, Keyed, Exact, Steady, Runs, SetAt, SetList, SetReady, OnTrack, Alike, Half, Blind,
           NewNodes, Cost, Slots, OpenAt, SeesNext, NextIs, PrevIs, Blocks.InUse, Blocks.Settled, Blocks.FreeBlocks, Blocks.Valid;
      ghost var sees := SeesNext(path);
      SpotFacts(all, k, l);
      ListSome(all, k, l, p, uninit, sees);
      if e.len == 1 && l == e.lblk {
        OnlySlots(all, k, l, p, uninit, sees);
      }
      NothingSpent(path, balloc.FreeBlocks(), balloc.InUse());
      if !Covers(e, l) {
        err := SetUnmapped(all, k, e, l, p, uninit, hasNext, next);
      } else if l == e.lblk && e.len == 1 {
        if p != 0 {
          SetOnly(all, k, e, l, p, uninit, sees);
          err := Ok;
        } else {
          err := RemoveOnly(all, k, e, l, uninit, sees);
        }
      } else if l == e.lblk + e.len - 1 {
        err := SetLast(all, k, e, l, p, uninit, hasNext, next);
      } else if l == e.lblk {
        err := SetFirst(all, k, e, l, p, uninit, sees, hasPrev, prev);
      } else {
        err := SetInner(all, k, e, l, p, uninit, sees);
      }
    }

    /** Without the way back to the original position. */
    method SetHere(l: nat, p: nat, uninit: bool) returns (err: Err, ghost at: seq<Level>, ghost k: nat)
      requires (Valid() || Rooted()) && Housed() && Ordered() && path[0].buf.entries != [] && AllFit(Listing()) && iBlocks < U32 && l < U32 && p < P48
      modifies this`disk, this`path, this`depth, this`iBlocks, balloc
      ensures path != [] && path[0].end == old(path)[0].end && iBlocks < U32
      ensures err == Ok || err == NoSpace || err == NotFound
      ensures Listing() == [] ==> depth == 0
      ensures Arrived(old(disk), old(path)[0], old(depth), at, l) && k == Here(old(disk), at, old(depth)) && SetReady(old(Listing()), k)
      ensures var e, free0 := old(Listing())[k], old(balloc.FreeBlocks());
        && balloc.Valid() && (Made(err, e, p) <==> Room(at, old(depth), Slots(old(Listing()), k, l, p, uninit, SeesNext(at)), free0))
        && (Made(err, e, p) || Failed(err, at, old(depth), free0, balloc.FreeBlocks()))
        && (err == Ok && !(p == 0 && e.len == 1 && Covers(e, l)) ==>
              Spent(at, Slots(old(Listing()), k, l, p, uninit, SeesNext(at)), free0, balloc.FreeBlocks(), old(balloc.InUse()), balloc.InUse()))
      ensures var e, crosses := old(Listing())[k], Crosses(old(Listing()), k, at, l, p, uninit);
        && (Made(err, e, p) ==> Tidy() && Listing() == SetList(old(Listing()), k, l, p, uninit, SeesNext(at)))
        && (Made(err, e, p) ==>
             if crosses then depth == old(depth) > 0 && path[0].buf == old(path)[0].buf && Alike(old(disk), disk, path[0].buf.entries, depth)
             else Ordered())
        && (!Made(err, e, p) ==>
             Became(if Within(e, l) then Half(old(Listing()), k, l, p, uninit, p != 0 && Spare(at)) else old(Listing())))
        && (old(Exact(disk, path[0].buf.entries, depth)) && !crosses ==>
             if Made(err, e, p) then err == Ok && (Exact(disk, path[0].buf.entries, depth) <==> !CutsStart(old(Listing()), k, at, l, p))
             else Exact(disk, path[0].buf.entries, depth))
        && (old(Exact(disk, path[0].buf.entries, depth)) && !Made(err, e, p) ==> Exact(disk, path[0].buf.entries, depth))
      ensures path != [] && balloc.Valid() && Squared(err, old(Ledger()), Ledger(), unit)
      ensures var e := old(Listing())[k]; Made(err, e, p) && err != Ok ==> err == NotFound && Covers(e, l)
    {
      hide LedgerOf, Formed, Foot, Leaves, Keyed, Exact, Steady, Runs, SetAt, SetList, SetReady, OnTrack, Alike, Half, Blind,
           NewNodes, Cost, Slots, OpenAt, SeesNext, NextIs, PrevIs, InfoOf, AllFit, Blocks.InUse, Blocks.Settled, Blocks.FreeBlocks, Blocks.Valid;
      ghost var all := Listing();
      var mapped := GotoBlock(l);
      k := Pos();
      SpotFacts(all, k, l);
      at := path;
      NothingSpent(at, balloc.FreeBlocks(), balloc.InUse());
      if !mapped && p == 0 {
        SameList(all, k, l, p, uninit, SeesNext(at));
        OnlySlots(all, k, l, p, uninit, SeesNext(at));
        return Ok, at, k;
      }
      var e, hasNext, next, hasPrev, prev := LookAround(all, k, l);
      SpotFacts(all, k, l);
      at := path;
      NothingSpent(at, balloc.FreeBlocks(), balloc.InUse());
      if mapped && uninit == e.uninit && e.pblk + (l - e.lblk) == p {
        SameList(all, k, l, p, uninit, SeesNext(at));
        OnlySlots(all, k, l, p, uninit, SeesNext(at));
        return Ok, at, k;
      }
      err := Dispatch(all, k, e, l, p, uninit, hasNext, next, hasPrev, prev);
    }

    lemma SpotFacts(all: seq<Entry>, k: nat, l: nat)
      requires Spot(all, k, l)
      ensures SetReady(all, k) && path != [] && Arrived(disk, path[0], depth, path, l) && k == Here(disk, path, depth) && Became(all)
      ensures all[k] == Top(path).buf.entries[Top(path).curr] && Placed(Top(path)) && Top(path).curr >= 0 && all[k].pblk > 0
    {
      hide Formed, Foot, Leaves, Keyed, Exact, Steady, OnTrack, OpenAt, Blocks.InUse, Blocks.Settled,
           Blocks.FreeBlocks, Blocks.Valid;
      ReadyFacts(all, k, l);
    }

    /** The entry itself, and those that NEXT_LEAF and PREV_LEAF lead to. */
    method LookAround(ghost all: seq<Entry>, ghost k: nat, l: nat)
      returns (e: Entry, hasNext: bool, next: Entry, hasPrev: bool, prev: Entry)
      requires Spot(all, k, l)
      modifies this`path
      ensures Spot(all, k, l) && path[0].buf == old(path)[0].buf && path[0].end == old(path)[0].end && k < |all| && e == all[k]
      ensures NextIs(all, k, SeesNext(path), Top(path).buf.entries[0], hasNext, next) && PrevIs(all, k, hasPrev, prev)
    {
      hide Formed, Foot, Leaves, Keyed, Exact, Steady, OnTrack, OpenAt, SeesNext, NextIs, PrevIs, InfoOf, Blocks.InUse,
           Blocks.Settled, Blocks.FreeBlocks, Blocks.Valid;
      SpotFacts(all, k, l);
      var err, info := Get(Current);
      LeafEntry(Top(path));
      e := Entry(info.lblk, info.pblk, info.len, info.uninit);
      hasNext, next := LookNext(all, k, l);
      hasPrev, prev := LookPrev(all, k, l);
    }

    /** The same nodes, the same blocks in use, and the same counts. */
    twostate predicate Still()
      requires old(path) != [] && path != [] && old(balloc.Valid()) && balloc.Valid()
      reads this, balloc
    {
      && Foot(disk, path[0].buf.entries, depth) == old(Foot(disk, path[0].buf.entries, depth))
      && balloc.InUse() == old(balloc.InUse()) && balloc.FreeBlocks() == old(balloc.FreeBlocks()) && iBlocks == old(iBlocks)
    }

    /** The block is set, whatever the position of the handle. */
    method SetFound(l: nat, p: nat, uninit: bool) returns (err: Err, ghost at: seq<Level>, ghost k: nat)
      requires (Valid() || Rooted()) && Housed() && Ordered() && path[0].buf.entries != [] && AllFit(Listing()) && iBlocks < U32 && l < U32 && p < P48
      modifies this`disk, this`path, this`depth, this`iBlocks, balloc
      ensures Tidy() && AllFit(Listing()) && path[0].end == old(path)[0].end && iBlocks < U32
      ensures err == Ok || err == NoSpace || err == NotFound
      ensures old(path) != [] && Booked(err, old(Foot(disk, path[0].buf.entries, depth)), old(balloc.InUse()), old(iBlocks),
                                        Foot(disk, path[0].buf.entries, depth), balloc.InUse(), iBlocks, unit)
      ensures Listing() == [] ==> depth == 0
      ensures Arrived(old(disk), old(path)[0], old(depth), at, l) && k == Here(old(disk), at, old(depth)) < |old(Listing())|
      ensures SetReady(old(Listing()), k)
        && (Made(err, old(Listing())[k], p) <==> Room(at, old(depth), Slots(old(Listing()), k, l, p, uninit, SeesNext(at)), old(balloc.FreeBlocks())))
      ensures var all, e, crosses := old(Listing()), old(Listing())[k], Crosses(old(Listing()), k, at, l, p, uninit);
        if Made(err, e, p) then
          && Sets(all, Listing(), l, p, uninit, 0, U32) && (err != Ok ==> err == NotFound && Covers(e, l))
          && LooksSet(old(disk), old(path)[0].buf.entries, old(depth), disk, path[0].buf.entries, depth, l, if crosses then 0 else p, uninit)
          && (Ordered() <==> !crosses) && (crosses ==> p != 0)
        else
          && Ordered() && Failed(err, at, old(depth), old(balloc.FreeBlocks()), balloc.FreeBlocks())
          && (if Within(e, l) then Torn(all, Listing(), e, l, if p != 0 && Spare(at) then Some((p, uninit)) else None)
              else Listing() == all)
          && (e.lblk < l && Within(e, l) ==>
                Listing() == all[..k] + ([e.(len := l - e.lblk)] + if p != 0 && Spare(at) then [Entry(l, p, 1, uninit)] else []) + all[k + 1..])
      ensures old(Exact(disk, path[0].buf.entries, depth)) ==> var all, e := old(Listing()), old(Listing())[k];
        if Made(err, e, p) then
          && (err == Ok || Crosses(all, k, at, l, p, uninit))
          && (Exact(disk, path[0].buf.entries, depth) <==> !Crosses(all, k, at, l, p, uninit) && !CutsStart(all, k, at, l, p))
        else Exact(disk, path[0].buf.entries, depth)
      ensures Made(err, old(Listing())[k], p) ==> Listing() == SetList(old(Listing()), k, l, p, uninit, SeesNext(at))
      ensures var e, cost := old(Listing())[k], Cost(at, Slots(old(Listing()), k, l, p, uninit, SeesNext(at)));
        err == Ok && !(p == 0 && e.len == 1 && Covers(e, l)) ==> balloc.FreeBlocks() + cost == old(balloc.FreeBlocks()) && (cost == 0 ==> Still())
      ensures Lengthens(err, Still(), Listing(), old(Listing()), k, l, p, uninit, SeesNext(at))
    {
      hide LedgerOf, Books, Booked, Formed, Foot, Leaves, Keyed, Exact, Steady, Runs, Sets, SetAt, SetList, SetReady, OnTrack, Alike, Stuck,
           Arrived, Look, LooksSet, Crosses, CutsStart, Torn, SeesNext, InfoOf, Made, Within, Room, Slots, Failed,
           Spare, AllFit, Cost, Lengthens,
           Blocks.InUse, Blocks.Settled, Blocks.FreeBlocks, Blocks.Valid;
      FootUsed();
      ghost var disk0, root, depth0, all := disk, path[0], depth, Listing();
      err, at, k := SetHere(l, p, uninit);
      Came(disk0, root, depth0, at, l, all);
      if Made(err, all[k], p) {
        SteadyFormed0(disk, path, depth);
        BlockSet(disk0, at, depth0, disk, path[0].buf.entries, depth, l, p, uninit);
      } else {
        Cut(all, k, l, p, uninit, p != 0 && Spare(at));
      }
      BooksKept(err, old(Foot(disk, path[0].buf.entries, depth)), old(balloc.InUse()), old(iBlocks));
      NoCost(at, depth0, Slots(all, k, l, p, uninit, SeesNext(at)), old(balloc.FreeBlocks()));
      if err == Ok && balloc.InUse() == old(balloc.InUse()) {
        BookedStill(old(Foot(disk, path[0].buf.entries, depth)), old(balloc.InUse()), old(iBlocks),
                    Foot(disk, path[0].buf.entries, depth), balloc.InUse(), iBlocks, unit);
      }
      MadeOk(err, all[k], p);
      Joins(err, Still(), Listing(), all, k, l, p, uninit, SeesNext(at));
    }

    /** ext2fs_extent_set_bmap in a tree that is not empty.  The descent for l leads to entry k.  The list
        of leaf entries comes to stand for the map with l set; but when the mapping is merged into an
        entry of another leaf, its key is left as it is, and l is not found.  This succeeds exactly when
        the entries that it adds find room.  Otherwise an entry that had to be cut in the middle loses
        its rest, and nothing else changes. */
    method SetBmap(l: nat, p: nat, uninit: bool) returns (err: Err, ghost at: seq<Level>, ghost k: nat)
      requires Placeable() && Housed() && Ordered() && path[0].buf.entries != [] && AllFit(Listing()) && iBlocks < U32 && l < U32 && p < P48
      modifies this`disk, this`path, this`depth, this`iBlocks, balloc
      ensures Tidy() && AllFit(Listing()) && path[0].end == old(path)[0].end && iBlocks < U32
      ensures err == Ok || err == NoSpace || err == NotFound
      ensures old(path) != [] && Booked(err, old(Foot(disk, path[0].buf.entries, depth)), old(balloc.InUse()), old(iBlocks),
                                        Foot(disk, path[0].buf.entries, depth), balloc.InUse(), iBlocks, unit)
      ensures path[0].buf.entries == [] ==> depth == 0 && |path| == 1 && path[0].curr == -1 && path[0].left == 0
      ensures Arrived(old(disk), old(path)[0], old(depth), at, l) && k == Here(old(disk), at, old(depth)) < |old(Listing())|
      ensures SetReady(old(Listing()), k)
        && (Made(err, old(Listing())[k], p) <==> Room(at, old(depth), Slots(old(Listing()), k, l, p, uninit, SeesNext(at)), old(balloc.FreeBlocks())))
      ensures var all, e, crosses := old(Listing()), old(Listing())[k], Crosses(old(Listing()), k, at, l, p, uninit);
        if Made(err, e, p) then
          && Sets(all, Listing(), l, p, uninit, 0, U32) && (err != Ok ==> err == NotFound && Covers(e, l))
          && LooksSet(old(disk), old(path)[0].buf.entries, old(depth), disk, path[0].buf.entries, depth, l, if crosses then 0 else p, uninit)
          && (Ordered() <==> !crosses) && (crosses ==> p != 0)
        else
          && Ordered() && Failed(err, at, old(depth), old(balloc.FreeBlocks()), balloc.FreeBlocks())
          && (if Within(e, l) then Torn(all, Listing(), e, l, if p != 0 && Spare(at) then Some((p, uninit)) else None)
              else Listing() == all)
          && (e.lblk < l && Within(e, l) ==>
                Listing() == all[..k] + ([e.(len := l - e.lblk)] + if p != 0 && Spare(at) then [Entry(l, p, 1, uninit)] else []) + all[k + 1..])
      ensures old(Exact(disk, path[0].buf.entries, depth)) ==> var all, e := old(Listing()), old(Listing())[k];
        if Made(err, e, p) then
          && (err == Ok || Crosses(all, k, at, l, p, uninit))
          && (Exact(disk, path[0].buf.entries, depth) <==> !Crosses(all, k, at, l, p, uninit) && !CutsStart(all, k, at, l, p))
        else Exact(disk, path[0].buf.entries, depth)
      ensures Made(err, old(Listing())[k], p) ==> Listing() == SetList(old(Listing()), k, l, p, uninit, SeesNext(at))
      ensures var e, cost := old(Listing())[k], Cost(at, Slots(old(Listing()), k, l, p, uninit, SeesNext(at)));
        err == Ok && !(p == 0 && e.len == 1 && Covers(e, l)) ==> balloc.FreeBlocks() + cost == old(balloc.FreeBlocks()) && (cost == 0 ==> Still())
      ensures Lengthens(err, Still(), Listing(), old(Listing()), k, l, p, uninit, SeesNext(at))
      ensures Ordered() && path[0].buf.entries != [] ==>
        var h := if old(depth) + 1 - |old(path)| > depth then depth else old(depth) + 1 - |old(path)|;
        |path| == depth + 1 - h && OnTrack(path, |path|, if Top(old(path)).curr >= 0 then KeyOf(Top(old(path))) else 0)
    {
      hide LedgerOf, Books, Booked, Formed, Foot, Leaves, Keyed, Exact, Steady, Runs, Sets, SetAt, SetList, SetReady, OnTrack, Alike, Stuck,
           Arrived, Look, LooksSet, Crosses, CutsStart, Torn, SeesNext, InfoOf, Made, Within, Room, Slots, Failed,
           Spare, AllFit, Cost, Lengthens,
           Blocks.InUse, Blocks.Settled, Blocks.FreeBlocks, Blocks.Valid;
      ValidPlaceable();
      var origLblk := if Top(path).curr >= 0 then Top(path).buf.entries[Top(path).curr].lblk else 0;
      var origHeight := depth - (|path| - 1);
      err, at, k := SetFound(l, p, uninit);
      if origHeight > depth {
        origHeight := depth;
      }
      var err0 := Goto(origHeight, origLblk);
      NothingBelow(disk, path, depth);
    }

    /** What is left of an entry that was cut. */
    lemma Cut(all: seq<Entry>, k: nat, l: nat, p: nat, uninit: bool, more: bool)
      requires k < |all| && Runs(all, 0, U32) && AllFit(all) && p < P48 && (more ==> p != 0)
      requires Became(if Within(all[k], l) then Half(all, k, l, p, uninit, more) else all)
      ensures Tidy() && Ordered() && AllFit(Listing())
      ensures if Within(all[k], l) then Torn(all, Listing(), all[k], l, if more then Some((p, uninit)) else None) else Listing() == all
      ensures Within(all[k], l) ==>
        Listing() == all[..k] + ([all[k].(len := l - all[k].lblk)] + if more then [Entry(l, p, 1, uninit)] else []) + all[k + 1..]
    {
      hide Formed, Foot, Leaves, Keyed, Exact, Steady, Runs, AllFit, Torn, Blocks.InUse, Blocks.Settled,
           Blocks.FreeBlocks, Blocks.Valid;
      if Within(all[k], l) {
        if more {
          HalfRight(all, k, l, p, uninit, true);
        } else {
          HalfRight(all, k, l, 1, uninit, false);
          HalfPlain(all, k, l, 1, p, uninit);
        }
      }
    }

    /** ext2fs_extent_set_bmap in an empty tree: the entry is there, but until the handle goes back to
        the root it believes that one more follows.  That does not disturb the next set_bmap, which
        starts by going there. */
    method SetBmapEmpty(l: nat, p: nat, uninit: bool)
      requires |path| == 1 && path[0].buf.entries == [] && path[0].curr == -1 && path[0].left == 0 && depth == 0
      requires 0 < p < P48 && l < U32
      modifies this`path
      ensures path == [old(path)[0].(buf := old(path)[0].buf.(entries := [Fresh(l, p, uninit)]), curr := 0, left := 1)]
      ensures !Placed(path[0]) && Steady(disk, [path[0].(left := 0)], 0)
      ensures Leaves(disk, path[0].buf.entries, depth) == [Fresh(l, p, uninit)] && path[0].end == old(path)[0].end
      ensures Placeable() && Ordered() && AllFit(Listing()) && (old(Housed()) ==> Housed())
    {
      RunsOne(Fresh(l, p, uninit), 0, U32);
      KeyedRuns(disk, [Fresh(l, p, uninit)], 0, U32);
      var root := path[0];
      path := [root.(buf := root.buf.(entries := [Fresh(l, p, uninit)]), curr := 0, left := root.left + 1)];
    }
  }
}
