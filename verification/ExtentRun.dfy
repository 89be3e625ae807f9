/**
 Runs of ext2fs_extent_set_bmap on one handle (as source/block.c and source/bmap.c make them), from the
 empty tree on, against a map from logical blocks to blocks; and a call that finds no room.
 */
module ExtentRun {
  import opened ExtentTree
  import opened ExtentWalk
  import opened ExtentGrowth
  import opened ExtentMap
  import opened ExtentEdit
  import opened ExtentMoves
  import opened ExtentCross
  import opened Extents
  import BlockAlloc

  type Blockmap = map<nat, (nat, bool)>

  /** A handle between two calls. */
  ghost predicate Idle(h: Handle)
    reads h, h.balloc
  {
    && h.Placeable() && h.Housed() && h.Ordered() && AllFit(h.Listing()) && h.iBlocks < U32
    && (h.path[0].buf.entries == [] ==> h.depth == 0 && |h.path| == 1 && h.path[0].curr == -1 && h.path[0].left == 0)
  }

  /** Looking any block up gives what the map says. */
  ghost predicate Shows(h: Handle, m: Blockmap)
    reads h, h.balloc
    requires Idle(h)
  {
    forall b: nat :: Look(h.disk, h.path[0].buf.entries, h.depth, b) == At(h.Listing(), b) == if b in m then Some(m[b]) else None
  }

  datatype Step = MapBlock(l: nat, p: nat, uninit: bool) | UnmapBlock(l: nat) | RemapBlock(l: nat, p: nat, uninit: bool)

  datatype Answer = Found(p: nat, uninit: bool) | Done | Skipped | Refused(err: Err)

  /** Without the blocks of [l, to). */
  function Without(m: Blockmap, l: nat, to: nat): Blockmap { map b | b in m && !(l <= b < to) :: m[b] }

  /** Why set_bmap refuses: no block is left for a node of the tree; or a node is not found again, and
      then something is mapped at or beyond the recorded end of the file. */
  ghost predicate Denied(err: Err, m: Blockmap, end: nat, left: nat) {
    (err == NoSpace && left == 0) || (err == NotFound && exists b :: b in m && end % U32 <= b)
  }

  /** Two or more blocks from l on that are mapped in a row. */
  ghost predicate InRow(m: Blockmap, l: nat, to: nat) {
    l + 1 < to && l in m && forall b | l <= b < to :: b in m && m[b] == (m[l].0 + (b - l), m[l].1)
  }

  /** A neighbour of l is mapped to a neighbour of p. */
  predicate Adjacent(m: Blockmap, l: nat, p: nat, uninit: bool) {
    || (l + 1 in m && m[l + 1] == (p + 1, uninit))
    || (l > 0 && p > 0 && l - 1 in m && m[l - 1] == (p - 1, uninit))
  }

  /** What a step may do, with so many blocks left free after it.  A mapping that is there is only
      reported; one that finds no room changes nothing.  Unmapping or remapping inside a row without room
      takes the rest of the row; unmapping a single block can also succeed without finding the way back. */
  ghost predicate Moved(m: Blockmap, step: Step, answer: Answer, m': Blockmap, end: nat, left: nat) {
    match step
    case MapBlock(l, p, uninit) =>
      (match answer
       case Found(q, u) => l in m && m[l] == (q, u) && m' == m
       case Done => l !in m && m' == m[l := (p, uninit)]
       case Skipped => false
       case Refused(err) => l !in m && m' == m && Denied(err, m, end, left))
    case UnmapBlock(l) =>
      (match answer
       case Found(q, u) => false
       case Done => m' == m - {l}
       case Skipped => false
       case Refused(err) =>
         || (err == NotFound && l in m && m' == m - {l})
         || (Denied(err, m, end, left) && exists to :: InRow(m, l, to) && m' == Without(m, l, to)))
    case RemapBlock(l, p, uninit) =>
      (match answer
       case Found(q, u) => false
       case Done => !Adjacent(m, l, p, uninit) && m' == m[l := (p, uninit)]
       case Skipped => Adjacent(m, l, p, uninit) && m' == m
       case Refused(err) =>
         && !Adjacent(m, l, p, uninit) && Denied(err, m, end, left)
         && (m' == m || exists to :: InRow(m, l, to) && (m' == Without(m, l, to) || m' == Without(m, l, to)[l := (p, uninit)])))
  }

  predicate InRange(step: Step) { step.l < U32 && (!step.UnmapBlock? ==> 0 < step.p < P48) }

  /** Any run of mappings, unmappings and remappings on one handle, started from a tree that shows m:
      after every step each lookup gives what the map of that moment says. */
  method Run(h: Handle, steps: seq<Step>, ghost m: Blockmap)
    returns (answers: seq<Answer>, ghost maps: seq<Blockmap>, ghost lefts: seq<nat>)
    requires Idle(h) && Shows(h, m) && forall i | 0 <= i < |steps| :: InRange(steps[i])
    modifies h`disk, h`path, h`depth, h`iBlocks, h.balloc
    ensures |answers| == |steps| && |maps| == |steps| + 1 && maps[0] == m
    ensures Idle(h) && Shows(h, maps[|steps|]) && h.path[0].end == old(h.path[0].end)
    ensures |lefts| == |steps| && (steps != [] ==> lefts[|steps| - 1] == h.balloc.FreeBlocks())
    ensures forall i | 0 <= i < |steps| :: Moved(maps[i], steps[i], answers[i], maps[i + 1], h.path[0].end, lefts[i])
  {
    hide Shows, Moved, Handle.Placeable, Handle.Ordered, AllFit, Handle.Listing;
    answers, maps, lefts := [], [m], [];
    ghost var end := h.path[0].end;
    for i := 0 to |steps|
      invariant Idle(h) && |answers| == |lefts| == i && |maps| == i + 1 && maps[0] == m && Shows(h, maps[i])
      invariant h.path[0].end == end && (i > 0 ==> lefts[i - 1] == h.balloc.FreeBlocks())
      invariant forall j | 0 <= j < i :: Moved(maps[j], steps[j], answers[j], maps[j + 1], end, lefts[j])
    {
      var answer;
      ghost var next;
      answer, next := Perform(h, steps[i], maps[i]);
      answers, maps, lefts := answers + [answer], maps + [next], lefts + [h.balloc.FreeBlocks()];
    }
  }

  /** One step: a block to be mapped is looked up first, as extent_bmap does; before remapping the
      neighbours are. */
  method Perform(h: Handle, step: Step, ghost m: Blockmap) returns (answer: Answer, ghost m': Blockmap)
    requires Idle(h) && Shows(h, m) && InRange(step)
    modifies h`disk, h`path, h`depth, h`iBlocks, h.balloc
    ensures Idle(h) && Shows(h, m') && Kept(h, old(h.path)) && Moved(m, step, answer, m', h.path[0].end, h.balloc.FreeBlocks())
  {
    hide Look, At, Handle.Valid, Handle.Rooted, Handle.Placeable, Keyed, Leaves, Without, Denied, InRow, Adjacent;
    match step {
      case MapBlock(l, p, uninit) =>
        answer, m' := MapOne(h, l, p, uninit, m);
      case UnmapBlock(l) =>
        answer, m' := UnmapOne(h, l, m);
      case RemapBlock(l, p, uninit) =>
        answer, m' := RemapOne(h, l, p, uninit, m);
    }
  }

  /** The recorded end of the file stays. */
  ghost predicate Kept(h: Handle, path0: seq<Level>)
    reads h
  {
    h.path != [] && path0 != [] && h.path[0].end == path0[0].end
  }

  /** What the list says of each block, lookups say. */
  lemma ShowsIf(h: Handle, m: Blockmap)
    requires Idle(h) && forall b: nat :: At(h.Listing(), b) == if b in m then Some(m[b]) else None
    ensures Shows(h, m)
  {
    hide Foot, Leaves, Keyed, Look, At, AllFit;
    h.ValidPlaceable();
    forall b: nat ensures Look(h.disk, h.path[0].buf.entries, h.depth, b) == At(h.Listing(), b) {
      LookAt(h.disk, h.path[0].buf.entries, h.depth, b);
    }
  }

  /** The list in order, and what it says of each block. */
  lemma Listed(h: Handle, m: Blockmap)
    requires Idle(h) && Shows(h, m)
    ensures h.path != [] && Formed(h.disk, h.path[0].buf.entries, h.depth) && Runs(h.Listing(), 0, U32)
    ensures forall b: nat :: b in m <==> At(h.Listing(), b) != None
  {
    hide Foot, Leaves, Keyed, Look, At;
    h.ValidPlaceable();
    KeyedList(h.disk, h.path[0].buf.entries, h.depth, 0, U32);
  }

  lemma NotCovered(all: seq<Entry>, l: nat)
    requires Runs(all, 0, U32) && At(all, l) == None
    ensures forall x | x in all :: !Covers(x, l)
  {
    hide Runs, At;
    forall x | x in all ensures !Covers(x, l) {
      var i :| 0 <= i < |all| && all[i] == x;
      if Covers(x, l) {
        AtEntryOf(all, i, l, 0, U32);
      }
    }
  }

  method MapOne(h: Handle, l: nat, p: nat, uninit: bool, ghost m: Blockmap) returns (answer: Answer, ghost m': Blockmap)
    requires Idle(h) && Shows(h, m) && l < U32 && 0 < p < P48
    modifies h`disk, h`path, h`depth, h`iBlocks, h.balloc
    ensures Idle(h) && Shows(h, m') && Kept(h, old(h.path)) && Moved(m, MapBlock(l, p, uninit), answer, m', h.path[0].end, h.balloc.FreeBlocks())
  {
    hide Formed, Foot, Steady, Leaves, Keyed, Exact, Look, At, Runs, OnTrack, Shows, Denied, Handle.Placeable, Handle.Rooted, AllFit;
    Listed(h, m);
    var found, e := Seeked(h, l, m);
    if found {
      return Found(e.pblk + (l - e.lblk), e.uninit), m;
    }
    var err := SetHole(h, l, p, uninit, m);
    return if err == Ok then Done else Refused(err), if err == Ok then m[l := (p, uninit)] else m;
  }

  /** The goto that looks a block up. */
  method Seeked(h: Handle, l: nat, ghost m: Blockmap) returns (found: bool, e: Entry)
    requires Idle(h) && Shows(h, m)
    modifies h`path
    ensures Idle(h) && Shows(h, m) && Kept(h, old(h.path)) && (found <==> l in m)
    ensures found ==> Covers(e, l) && m[l] == (e.pblk + (l - e.lblk), e.uninit)
  {
    hide Formed, Foot, Leaves, Keyed, Exact, Look, At, Runs, Pick, AllFit;
    h.ValidPlaceable();
    Listed(h, m);
    ghost var all := h.Listing();
    var err := h.ExtentGoto(l);
    NothingBelow(h.disk, h.path, h.depth);
    if err != Ok {
      if h.path[0].buf.entries == [] {
        NoLeaves(h.disk, h.depth);
      }
      AtNoEntry(all, l);
      return false, Entry(0, 0, 0, false);
    }
    SteadyTop(h.disk, h.path, h.depth);
    e := Top(h.path).buf.entries[Top(h.path).curr];
    ghost var i :| 0 <= i < |all| && all[i] == e;
    AtEntryOf(all, i, l, 0, U32);
    return true, e;
  }

  /** A split that does not find its way back has something mapped at or beyond the recorded end. */
  lemma BeyondEnd(disk: Disk, root: Level, depth: nat, m: Blockmap, at: seq<Level>, l: nat)
    requires Arrived(disk, root, depth, at, l) && Keyed(disk, root.buf.entries, depth, 0, U32) && Blind(at, depth)
    requires forall b: nat :: b in m <==> At(Leaves(disk, root.buf.entries, depth), b) != None
    ensures exists b :: b in m && root.end % U32 <= b
  {
    hide Formed, Foot, Keyed, Leaves, At, Runs, OnTrack, OpenAt, Blind, LeftOf, RightOf;
    var all, k, e := Leaves(disk, root.buf.entries, depth), Here(disk, at, depth), Top(at).buf.entries[Top(at).curr];
    BlindAtEnd(disk, at, depth);
    var i :| 0 <= i < |at| && i < depth && at[0].end % U32 == KeyOf(at[i]);
    KeysDown(disk, at, depth, i, depth);
    Came(disk, root, depth, at, l, all);
    AtLeaf(disk, at, depth);
    RunsShrinkAt(all, k);
    AtEntryOf(all, k, e.lblk, 0, U32);
    assert e.lblk in m;
  }

  /** A refusal of set_bmap, in terms of the map. */
  lemma DeniedIf(disk: Disk, root: Level, depth: nat, m: Blockmap, at: seq<Level>, l: nat, err: Err, free: nat, left: nat)
    requires Arrived(disk, root, depth, at, l) && Keyed(disk, root.buf.entries, depth, 0, U32)
    requires forall b: nat :: b in m <==> At(Leaves(disk, root.buf.entries, depth), b) != None
    ensures Failed(err, at, depth, free, left) ==> Denied(err, m, root.end, left)
  {
    hide Arrived, Blind, NewNodes, Keyed, Leaves, At;
    if Blind(at, depth) {
      BeyondEnd(disk, root, depth, m, at, l);
    }
  }

  /** The blocks of an entry, from l on, are mapped in a row. */
  lemma EntryInRow(all: seq<Entry>, k: nat, m: Blockmap, l: nat)
    requires Runs(all, 0, U32) && k < |all| && Within(all[k], l)
    requires forall b: nat :: At(all, b) == if b in m then Some(m[b]) else None
    ensures InRow(m, l, all[k].lblk + all[k].len)
  {
    hide Runs, At;
    var e := all[k];
    AtEntryOf(all, k, l, 0, U32);
    forall b | l <= b < e.lblk + e.len ensures b in m && m[b] == (m[l].0 + (b - l), m[l].1) {
      AtEntryOf(all, k, b, 0, U32);
    }
  }

  /** Only what would join a neighbour is merged across the end of a leaf. */
  lemma CrossesAdjacent(all: seq<Entry>, k: nat, at: seq<Level>, l: nat, p: nat, uninit: bool, m: Blockmap)
    requires at != [] && Runs(all, 0, U32) && Crosses(all, k, at, l, p, uninit)
    requires forall b: nat :: At(all, b) == if b in m then Some(m[b]) else None
    ensures Adjacent(m, l, p, uninit)
  {
    hide Runs, At, SeesNext;
    if l == all[k].lblk + all[k].len - 1 {
      RunsShrinkAt(all, k + 1);
      AtEntryOf(all, k + 1, l + 1, 0, U32);
    } else {
      RunsShrinkAt(all, k - 1);
      AtEntryOf(all, k - 1, l - 1, 0, U32);
    }
  }

  /** ext2fs_extent_set_bmap for a block that is not mapped. */
  method SetHole(h: Handle, l: nat, p: nat, uninit: bool, ghost m: Blockmap) returns (err: Err)
    requires Idle(h) && Shows(h, m) && l < U32 && 0 < p < P48 && l !in m
    modifies h`disk, h`path, h`depth, h`iBlocks, h.balloc
    ensures Idle(h) && Shows(h, if err == Ok then m[l := (p, uninit)] else m) && Kept(h, old(h.path))
    ensures err == Ok || Denied(err, m, h.path[0].end, h.balloc.FreeBlocks())
  {
    hide Formed, Foot, Steady, Leaves, Keyed, Exact, Look, LooksSet, At, Runs, OnTrack, AllFit, Handle.Rooted,
         Room, Failed, Denied, Slots, Torn, Arrived, BlockAlloc.Blocks.Valid, BlockAlloc.Blocks.FreeBlocks, Booked;
    Listed(h, m);
    ghost var all, disk0, root, depth0 := h.Listing(), h.disk, h.path[0], h.depth;
    NotCovered(all, l);
    if h.depth == 0 && h.path[0].buf.entries == [] {
      NoLeaves(h.disk, h.depth);
      FirstBlock(all, l, p, uninit);
      h.SetBmapEmpty(l, p, uninit);
      err := Ok;
    } else {
      ghost var at, k, free := [], 0, h.balloc.FreeBlocks();
      err, at, k := h.SetBmap(l, p, uninit);
      assert all[k] in all;
      DeniedIf(disk0, root, depth0, m, at, l, err, free, h.balloc.FreeBlocks());
    }
    ShowsIf(h, if err == Ok then m[l := (p, uninit)] else m);
  }

  lemma FirstBlock(all: seq<Entry>, l: nat, p: nat, uninit: bool)
    requires p > 0
    ensures all == [] ==> forall b: nat :: At([Fresh(l, p, uninit)], b) == if b == l then Some((p, uninit)) else At(all, b)
  {
    AtEach(Fresh(l, p, uninit));
  }

  method UnmapOne(h: Handle, l: nat, ghost m: Blockmap) returns (answer: Answer, ghost m': Blockmap)
    requires Idle(h) && Shows(h, m) && l < U32
    modifies h`disk, h`path, h`depth, h`iBlocks, h.balloc
    ensures Idle(h) && Shows(h, m') && Kept(h, old(h.path)) && Moved(m, UnmapBlock(l), answer, m', h.path[0].end, h.balloc.FreeBlocks())
  {
    hide Formed, Foot, Steady, Leaves, Keyed, Exact, Look, LooksSet, At, Runs, OnTrack, AllFit, Handle.Rooted,
         Failed, Denied, Slots, Arrived, BlockAlloc.Blocks.Valid, BlockAlloc.Blocks.FreeBlocks, Blind, NewNodes, Booked, InRow;
    Listed(h, m);
    ghost var all, disk0, root, depth0 := h.Listing(), h.disk, h.path[0], h.depth;
    if h.path[0].buf.entries == [] {
      NoLeaves(h.disk, h.depth);
      NoneAt();
      assert m - {l} == m;
      return Done, m;
    }
    var err;
    ghost var at, k, free := [], 0, h.balloc.FreeBlocks();
    err, at, k := h.SetBmap(l, 0, false);
    Came(disk0, root, depth0, at, l, all);
    ghost var e := all[k];
    if Within(e, l) {
      EntryInRow(all, k, m, l);
    } else {
      UnmapSlots(all, k, l, false, SeesNext(at));
    }
    if Covers(e, l) {
      AtEntryOf(all, k, l, 0, U32);
    }
    DeniedIf(disk0, root, depth0, m, at, l, err, free, h.balloc.FreeBlocks());
    ghost var to := if Made(err, e, 0) then l + 1 else e.lblk + e.len;
    m' := Without(m, l, to);
    assert Made(err, e, 0) ==> m' == m - {l};
    ShowsIf(h, m');
    return if err == Ok then Done else Refused(err), m';
  }

  /** Whether a neighbour of l is mapped to a neighbour of p. */
  method Joins(h: Handle, l: nat, p: nat, uninit: bool, ghost m: Blockmap) returns (near: bool)
    requires Idle(h) && Shows(h, m) && p > 0
    modifies h`path
    ensures Idle(h) && Shows(h, m) && Kept(h, old(h.path)) && (near <==> Adjacent(m, l, p, uninit))
  {
    hide Idle, Shows;
    var found, e := Seeked(h, l + 1, m);
    if found && e.pblk + (l + 1 - e.lblk) == p + 1 && e.uninit == uninit {
      return true;
    }
    if l == 0 {
      return false;
    }
    found, e := Seeked(h, l - 1, m);
    near := found && e.pblk + (l - 1 - e.lblk) == p - 1 && e.uninit == uninit;
  }

  /** extent_bmap with BMAP_SET, where the block would not join a neighbour. */
  method RemapOne(h: Handle, l: nat, p: nat, uninit: bool, ghost m: Blockmap) returns (answer: Answer, ghost m': Blockmap)
    requires Idle(h) && Shows(h, m) && l < U32 && 0 < p < P48
    modifies h`disk, h`path, h`depth, h`iBlocks, h.balloc
    ensures Idle(h) && Shows(h, m') && Kept(h, old(h.path)) && Moved(m, RemapBlock(l, p, uninit), answer, m', h.path[0].end, h.balloc.FreeBlocks())
  {
    hide Look, At, Handle.Valid, Handle.Rooted, Handle.Placeable, Keyed, Leaves, Without, Denied, InRow, Adjacent, Formed, Foot;
    var near := Joins(h, l, p, uninit, m);
    if near {
      return Skipped, m;
    }
    var err;
    err, m' := SetAny(h, l, p, uninit, m);
    answer := if err == Ok then Done else Refused(err);
  }

  /** ext2fs_extent_set_bmap where it does not merge across the end of a leaf. */
  method SetAny(h: Handle, l: nat, p: nat, uninit: bool, ghost m: Blockmap) returns (err: Err, ghost m': Blockmap)
    requires Idle(h) && Shows(h, m) && l < U32 && 0 < p < P48 && !Adjacent(m, l, p, uninit)
    modifies h`disk, h`path, h`depth, h`iBlocks, h.balloc
    ensures Idle(h) && Shows(h, m') && Kept(h, old(h.path))
    ensures if err == Ok then m' == m[l := (p, uninit)]
      else && Denied(err, m, h.path[0].end, h.balloc.FreeBlocks())
           && (m' == m || exists to :: InRow(m, l, to) && (m' == Without(m, l, to) || m' == Without(m, l, to)[l := (p, uninit)]))
  {
    hide Formed, Foot, Steady, Leaves, Keyed, Exact, Look, LooksSet, At, Runs, OnTrack, AllFit, Handle.Rooted,
         Room, Failed, Denied, Slots, Arrived, BlockAlloc.Blocks.Valid, BlockAlloc.Blocks.FreeBlocks, Booked, InRow, Adjacent, Crosses;
    Listed(h, m);
    ghost var all, disk0, root, depth0 := h.Listing(), h.disk, h.path[0], h.depth;
    m' := m[l := (p, uninit)];
    if h.depth == 0 && h.path[0].buf.entries == [] {
      NoLeaves(h.disk, h.depth);
      FirstBlock(all, l, p, uninit);
      h.SetBmapEmpty(l, p, uninit);
      err := Ok;
    } else {
      ghost var at, k, free := [], 0, h.balloc.FreeBlocks();
      err, at, k := h.SetBmap(l, p, uninit);
      Came(disk0, root, depth0, at, l, all);
      if Crosses(all, k, at, l, p, uninit) {
        CrossesAdjacent(all, k, at, l, p, uninit, m);
      }
      DeniedIf(disk0, root, depth0, m, at, l, err, free, h.balloc.FreeBlocks());
      if err != Ok {
        m' := m;
        if Within(all[k], l) {
          EntryInRow(all, k, m, l);
          m' := Without(m, l, all[k].lblk + all[k].len);
          if Spare(at) {
            m' := m'[l := (p, uninit)];
          }
        }
      }
    }
    ShowsIf(h, m');
  }

  /** The handle of a file without blocks: nothing is mapped. */
  method NewFile(balloc: BlockAlloc.Blocks, end: nat, iBlocks: nat, blocksize: nat, goal: nat) returns (h: Handle)
    requires balloc.Valid() && balloc.sb.blocksCount <= P48 && blocksize >= 1024 && iBlocks < U32
    ensures fresh(h) && h.balloc == balloc && Idle(h) && Shows(h, map[])
  {
    hide At, Look, BlockAlloc.Blocks.Valid, BlockAlloc.Blocks.Settled;
    h := new Handle(map[], Node(4, []), 0, end, iBlocks, balloc, blocksize, goal);
    NoneAt();
    ShowsIf(h, map[]);
  }

  // ---------- No room ----------

  /** The full root of a file with one long entry. */
  const FullRoot: seq<Entry> := [Entry(0, 100, 5, false), Entry(10, 200, 1, false), Entry(20, 300, 1, false), Entry(30, 400, 1, false)]

  /** On a file system without a free block, setting block 1 there, to p or to nothing, fails and takes
      blocks 1 to 4 with it. */
  method NoRoomInside(blocks: BlockAlloc.Blocks, p: nat) returns (h: Handle, err: Err)
    requires blocks.Valid() && blocks.FreeBlocks() == 0 && blocks.sb.blocksCount <= P48 && p < P48 && p != 101
    modifies blocks
    ensures h.path != [] && err == NoSpace && Torn(FullRoot, h.Listing(), FullRoot[0], 1, None)
  {
    hide Torn, At, Look, LooksSet, BlockAlloc.Blocks.Valid, BlockAlloc.Blocks.Settled, BlockAlloc.Blocks.FreeBlocks;
    h := new Handle(map[], Node(4, FullRoot), 0, 40, 0, blocks, 1024, 0);
    FullRootRuns();
    KeyedRuns(h.disk, FullRoot, 0, U32);
    ghost var at, k;
    err, at, k := h.SetBmap(1, p, false);
    FullRootSlots(at, k, p);
  }

  lemma FullRootRuns()
    ensures Runs(FullRoot, 0, U32) && AllFit(FullRoot)
  {
    var b, c, d := FullRoot[1..], FullRoot[2..], FullRoot[3..];
    assert b[1..] == c && c[1..] == d && d[1..] == [];
  }

  lemma {:induction false} FullRootSlots(at: seq<Level>, k: nat, p: nat)
    requires |at| == 1 && at[0].buf == Node(4, FullRoot) && OnTrack(at, 1, 1) && k == Here(map[], at, 0) && SetReady(FullRoot, k) && p != 101
    ensures k == 0 && Within(FullRoot[0], 1) && !Spare(at)
    ensures !Room(at, 0, Slots(FullRoot, k, 1, p, false, SeesNext(at)), 0) && !Blind(at, 0)
  {
    hide Slots, Blind, NewNodes, LeftOf, SeesNext, Pick, Leaves, Lefts;
    FirstPicked();
    FirstHere(at);
    InnerSlots(FullRoot, 0, 1, p, false, SeesNext(at));
    BlindStep(at, 0);
  }

  /** A block behind the last one of a full leaf whose start is the recorded end of the file: setting it
      fails, and nothing is set, although there are blocks for the new nodes. */
  method WayLost(blocks: BlockAlloc.Blocks, n: nat, p: nat, blocksize: nat) returns (h: Handle, err: Err)
    requires blocks.Valid() && blocks.FreeBlocks() >= 2 && blocks.sb.blocksCount <= P48 && {10, 11, 12, 13} <= blocks.Settled()
    requires 8 <= (blocksize - 12) / 12 <= 1000 && 6 <= n <= (blocksize - 12) / 12 && 1024 <= blocksize
    requires 0 < p < P48 && p != 1005 + 2 * n
    modifies blocks
    ensures h.path != [] && err == NotFound && h.Listing() == Leaves(FullTree(n), FourKeys, 1)
  {
    hide Formed, Foot, Keyed, Exact, Leaves, Torn, At, Look, LooksSet, FullTree, Slots, Room, Failed, Arrived, Crosses,
         Booked, SetReady, AllFit, Covers, BlockAlloc.Blocks.Valid, BlockAlloc.Blocks.Settled, BlockAlloc.Blocks.FreeBlocks;
    FullFormed(n);
    h := new Handle(FullTree(n), Node(4, FourKeys), 1, 6, 0, blocks, blocksize, 0);
    FullHouse(n);
    ghost var root, free, at, k := h.path[0], blocks.FreeBlocks(), [], 0;
    err, at, k := h.SetBmap(5 + 2 * n, p, false);
    LostThere(n, root, at, k, p, err, free, blocks.FreeBlocks());
  }

  lemma FullHouse(n: nat)
    ensures forall b | b in {10, 11, 12, 13} :: b in FullTree(n) && FullTree(n)[b].max == n
  {
  }

  lemma LostThere(n: nat, root: Level, at: seq<Level>, k: nat, p: nat, err: Err, free: nat, left: nat)
    requires 6 <= n <= 1000 && root.buf == Node(4, FourKeys) && root.end == 6 && Arrived(FullTree(n), root, 1, at, 5 + 2 * n)
    requires k == Here(FullTree(n), at, 1) && 0 < p != 1005 + 2 * n && free >= 2
    requires SetReady(Leaves(FullTree(n), FourKeys, 1), k)
    ensures var all := Leaves(FullTree(n), FourKeys, 1);
      && !Covers(all[k], 5 + 2 * n) && !Within(all[k], 5 + 2 * n) && !Room(at, 1, Slots(all, k, 5 + 2 * n, p, false, SeesNext(at)), free)
      && (Failed(err, at, 1, free, left) ==> err == NotFound)
  {
    hide Formed, Foot, Leaves, LeftOf, Spaced, SeesNext;
    var all, l, disk := Leaves(FullTree(n), FourKeys, 1), 5 + 2 * n, FullTree(n);
    SpacedLast(n, 6);
    FullPick(l);
    assert Linked(disk, at[0], at[1]);
    AtLeaf(disk, at, 1);
    NoLeaves(disk, 1);
    NoLeaves(disk, 0);
    assert all[k] == Entry(4 + 2 * n, 1004 + 2 * n, 1, false);
    assert Rights(at[0]) == [];
    assert RightOf(disk, at, 1, 1) == [];
    assert k == |all| - 1;
    UnmappedList(all, k, l, p, false, SeesNext(at));
    assert Slots(all, k, l, p, false, SeesNext(at)) == 1;
    BlindStep(at, 1);
    BlindStep(at[..1], 1);
  }

  lemma FullPick(l: nat)
    requires l >= 6
    ensures Pick(FourKeys, l) == 3
  {
    var b, c, d := FourKeys[1..], FourKeys[2..], FourKeys[3..];
    assert b[1..] == c && c[1..] == d;
    assert Pick(d, l) == 0 && Pick(c, l) == 1 && Pick(b, l) == 2;
  }

  lemma FirstPicked()
    ensures Pick(FullRoot, 1) == 0
  {
  }

  lemma {:induction false} FirstHere(at: seq<Level>)
    requires |at| == 1 && at[0].curr == 0 && at[0].buf.entries != []
    ensures Here(map[], at, 0) == 0
  {
    NothingLeft(map[], at, 0);
  }
}
