/** Iterating over the blocks that lead to a given block: first through the permanent
    files, then through the volatile tree. */
module StorageIterator {
  import opened Wrappers
  import opened StorageState
  import opened StorageAncestry
  import opened StorageBlockStore
  import opened StorageFlush

  datatype IteratorState =
    | ReadingPermanent(position: nat, currentLength: nat, stopAtLength: nat)
    | ReadingVolatile(ids: seq<Id>)

  /** The first `n` ids of the path from `to` up. */
  function PathIds(s: Store, to: Id, n: nat): seq<Id>
    requires TreeOk(s) && BlockExists(s, to) && n <= LengthOf(s, to) + 1
  {
    seq(n, i requires 0 <= i < n => Follow(s, to, i))
  }

  /** The ids from `to` up to the block at the given length, newest first; an error if the
      path leaves the volatile part before. */
  function GatherIds(s: Store, to: Id, stopAtLength: nat): Result<seq<Id>, Error>
    requires TreeOk(s)
  {
    if to !in s.info || LengthOf(s, to) < stopAtLength then Ok([])
    else if stopAtLength < Fork(s, to) then Err(Inconsistent(MissingParentBlock))
    else Ok(PathIds(s, to, LengthOf(s, to) - stopAtLength + 1))
  }

  /** The blocks that the iterator is still going to yield. */
  function Remaining(s: Store, to: Id, state: IteratorState): seq<Value>
    requires TreeOk(s) && StateOk(s, state)
  {
    match state
    case ReadingVolatile(ids) => VolatileBlocks(s, ids)
    case ReadingPermanent(_, current, stop) =>
      if current <= stop <= |s.permanent.blocks| then s.permanent.blocks[current..stop]
      else s.permanent.blocks[current..] + VolatileTail(s, to)
  }

  ghost predicate StateOk(s: Store, state: IteratorState) {
    match state
    case ReadingVolatile(ids) => forall i :: 0 <= i < |ids| ==> ids[i] in s.blocks
    case ReadingPermanent(position, current, _) => position == current <= |s.permanent.blocks|
  }

  function VolatileBlocks(s: Store, ids: seq<Id>): seq<Value>
    requires forall i :: 0 <= i < |ids| ==> ids[i] in s.blocks
  {
    seq(|ids|, i requires 0 <= i < |ids| => s.blocks[ids[|ids| - 1 - i]])
  }

  /** What follows the permanent part on the way to `to`. */
  function VolatileTail(s: Store, to: Id): seq<Value>
    requires TreeOk(s)
  {
    GatherIdsVolatile(s, to, |s.permanent.blocks|);
    VolatileBlocks(s, GatherIds(s, to, |s.permanent.blocks|).value)
  }

  lemma GatherIdsVolatile(s: Store, to: Id, stopAtLength: nat)
    requires TreeOk(s) && |s.permanent.ids| <= stopAtLength
    ensures var r := GatherIds(s, to, stopAtLength);
            r.Ok? && forall i :: 0 <= i < |r.value| ==> r.value[i] in s.blocks
  {
    if to in s.info && stopAtLength <= LengthOf(s, to) {
      forall i: nat | i <= LengthOf(s, to) - stopAtLength ensures Follow(s, to, i) in s.blocks {
        FollowFork(s, to, i);
      }
    }
  }

  /** What popping the last id and reading its block gives in the store of that moment. */
  function Popped(t: Store, ids: seq<Id>): Option<Value>
    requires ids != []
  {
    var id := ids[|ids| - 1];
    if id in t.blocks then Some(t.blocks[id]) else None
  }

  lemma PoppedFirst(s: Store, ids: seq<Id>)
    requires forall i :: 0 <= i < |ids| ==> ids[i] in s.blocks
    ensures ids != [] ==>
              && Popped(s, ids) == Some(VolatileBlocks(s, ids)[0])
              && VolatileBlocks(s, ids[..|ids| - 1]) == VolatileBlocks(s, ids)[1..]
  {
  }

  class StorageIterator {
    const store: BlockStore
    const to: Id
    var state: IteratorState

    constructor (store: BlockStore, to: Id, state: IteratorState)
      ensures this.store == store && this.to == to && this.state == state
    {
      this.store, this.to, this.state := store, to, state;
    }

    ghost predicate Valid()
      reads this, store, store.permanent
    {
      TreeOk(store.Snapshot()) && StateOk(store.Snapshot(), state)
    }

    function Rest(): seq<Value>
      requires Valid()
      reads this, store, store.permanent
    {
      Remaining(store.Snapshot(), to, state)
    }

    /** Yields the next block, or nothing when all blocks were yielded; never an error. */
    method Next() returns (item: Option<Result<Value, Error>>)
      requires Valid()
      modifies this
      ensures Valid()
      ensures old(Rest()) == [] ==> item == None && Rest() == []
      ensures old(Rest()) != [] ==> item == Some(Ok(old(Rest())[0])) && Rest() == old(Rest())[1..]
    {
      if state.ReadingPermanent? {
        if state.currentLength == state.stopAtLength {
          return None;
        }
        if state.position < |store.permanent.blocks| {
          item := Some(Ok(store.permanent.blocks[state.position]));
          state := state.(position := state.position + 1, currentLength := state.currentLength + 1);
          return;
        }
        EnterVolatile();
      }
      PoppedFirst(store.Snapshot(), state.ids);
      item := NextVolatile();
    }

    /** Goes on to the volatile part once the permanent part is exhausted. Gathering the ids
        cannot fail there. */
    method EnterVolatile()
      requires Valid() && state.ReadingPermanent?
      requires state.position == |store.permanent.blocks| && state.currentLength != state.stopAtLength
      modifies this
      ensures Valid() && state.ReadingVolatile? && Rest() == old(Rest())
    {
      GatherIdsVolatile(store.Snapshot(), to, state.currentLength);
      var ids := GatherBlocksIds(store, to, state.currentLength);
      state := ReadingVolatile(ids.value);
    }

    /** Pops the next id and reads its block. */
    method NextVolatile() returns (item: Option<Result<Value, Error>>)
      requires state.ReadingVolatile?
      modifies this
      ensures state.ReadingVolatile?
      ensures state.ids == if old(state.ids) == [] then [] else old(state.ids)[..|old(state.ids)| - 1]
      ensures old(state.ids) == [] ==> item == None
      ensures old(state.ids) != [] ==>
                item == match Popped(store.Snapshot(), old(state.ids)) case Some(block) => Some(Ok(block)) case None => None
    {
      if state.ids == [] {
        return None;
      }
      var id := state.ids[|state.ids| - 1];
      state := ReadingVolatile(state.ids[..|state.ids| - 1]);
      if id in store.blocksTree {
        item := Some(Ok(store.blocksTree[id]));
      } else {
        item := None;
      }
    }
  }

  /** Follows parent links in the info tree from `to` up to the given length. */
  method GatherBlocksIds(store: BlockStore, to: Id, stopAtLength: nat) returns (r: Result<seq<Id>, Error>)
    requires TreeOk(store.Snapshot())
    ensures r == GatherIds(store.Snapshot(), to, stopAtLength)
  {
    ghost var s := store.Snapshot();
    if to !in store.infoTree {
      return Ok([]);
    }
    var ids := [];
    var current := store.infoTree[to];
    while current.chainLength >= stopAtLength
      invariant |ids| <= LengthOf(s, to)
      invariant Follow(s, to, |ids|) in s.info && current == s.info[Follow(s, to, |ids|)]
      invariant current.chainLength < stopAtLength ==> ids == []
      invariant forall i :: 0 <= i < |ids| ==> ids[i] == Follow(s, to, i)
      decreases current.chainLength
    {
      StepUp(s, to, |ids|);
      FollowFork(s, to, |ids|);
      ids := ids + [current.id];
      if current.chainLength == stopAtLength {
        assert ids == PathIds(s, to, |ids|);
        break;
      }
      FollowFork(s, to, |ids|);
      if current.parentId !in store.infoTree {
        return Err(Inconsistent(MissingParentBlock));
      }
      current := store.infoTree[current.parentId];
    }
    r := Ok(ids);
  }

  /** How an iterator over the last `distance` blocks up to `to` starts. */
  function Start(s: Store, to: Id, distance: nat): Result<IteratorState, Error>
    requires TreeOk(s)
  {
    if !BlockExists(s, to) then Err(BlockNotFound)
    else if LengthOf(s, to) + 1 < distance then Err(CannotIterate)
    else
      var from := LengthOf(s, to) + 1 - distance;
      if from < |s.permanent.blocks| then Ok(ReadingPermanent(from, from, LengthOf(s, to)))
      else Ok(ReadingVolatile(if to in s.info then PathIds(s, to, distance) else []))
  }

  /** An iterator cannot start exactly on unknown blocks, and on distances that reach below the root. */
  lemma StartErrors(s: Store, to: Id, distance: nat)
    requires TreeOk(s)
    ensures Start(s, to, distance).Err? <==> !BlockExists(s, to) || LengthOf(s, to) + 1 < distance
    ensures Start(s, to, distance).Err? ==>
              Start(s, to, distance) == Err(if BlockExists(s, to) then CannotIterate else BlockNotFound)
  {
  }

  method Iterate(store: BlockStore, to: Id, distance: nat) returns (r: Result<StorageIterator, Error>)
    requires TreeOk(store.Snapshot())
    ensures match Start(store.Snapshot(), to, distance)
            case Ok(state) => r.Ok? && fresh(r.value) && r.value.store == store && r.value.to == to && r.value.state == state
            case Err(e) => r == Err(e)
  {
    var toInfo: BlockInfo;
    if to in store.infoTree {
      toInfo := store.infoTree[to];
    } else {
      PermanentInfo(store.Snapshot(), to);
      var info := store.permanent.Snapshot().GetBlockInfo(to, store.rootId).value;
      if info.None? {
        return Err(BlockNotFound);
      }
      toInfo := info.value;
    }
    if toInfo.chainLength + 1 < distance {
      return Err(CannotIterate);
    }
    var fromLength := toInfo.chainLength + 1 - distance;
    var state;
    if store.permanent.Snapshot().GetBlockByChainLength(fromLength).Some? {
      state := ReadingPermanent(fromLength, fromLength, toInfo.chainLength);
    } else {
      GatherIdsVolatile(store.Snapshot(), to, fromLength);
      var ids := GatherBlocksIds(store, to, fromLength);
      state := ReadingVolatile(ids.value);
    }
    var started := new StorageIterator(store, to, state);
    return Ok(started);
  }

  // ---- What an iterator yields ----

  function Content(s: Store, id: Id): (block: Value)
    requires TreeOk(s) && BlockExists(s, id)
    ensures GetBlock(s, id) == Ok(block)
    ensures if id in s.info then id in s.blocks && block == s.blocks[id] else block == s.permanent.blocks[LengthOf(s, id)]
  {
    if id in s.permanent.index then s.permanent.blocks[s.permanent.index[id]] else s.blocks[id]
  }

  /** The last `distance` blocks of the path to `to`, in ascending chain length. */
  function PathBlocks(s: Store, to: Id, distance: nat): seq<Value>
    requires TreeOk(s) && BlockExists(s, to) && distance <= LengthOf(s, to) + 1
  {
    seq(distance, i requires 0 <= i < distance => Content(s, Follow(s, to, distance - 1 - i)))
  }

  lemma PathBlock(s: Store, to: Id, distance: nat, i: nat)
    requires TreeOk(s) && BlockExists(s, to) && i < distance <= LengthOf(s, to) + 1
    ensures var length := LengthOf(s, to) + 1 - distance + i;
            if length < Fork(s, to) then
              PathBlocks(s, to, distance)[i] == s.permanent.blocks[length]
            else
              && Follow(s, to, distance - 1 - i) in s.blocks
              && PathBlocks(s, to, distance)[i] == s.blocks[Follow(s, to, distance - 1 - i)]
  {
    FollowFork(s, to, distance - 1 - i);
    assert PathBlocks(s, to, distance)[i] == Content(s, Follow(s, to, distance - 1 - i));
  }

  lemma StartOk(s: Store, to: Id, distance: nat)
    requires TreeOk(s) && Start(s, to, distance).Ok?
    ensures StateOk(s, Start(s, to, distance).value)
  {
    if Start(s, to, distance).value.ReadingVolatile? && to in s.info {
      forall i: nat | i < distance ensures Follow(s, to, i) in s.blocks {
        FollowFork(s, to, i);
      }
    }
  }

  /** The stretch of the permanent part from `from` up to `end` has the contents of the path to
      `to`, also above the fork, where the path consists of other blocks. */
  ghost predicate SameContents(s: Store, to: Id, from: nat, end: nat)
    requires TreeOk(s) && BlockExists(s, to) && end <= |s.permanent.ids| && end <= LengthOf(s, to) + 1
  {
    forall i :: from <= i < end && Fork(s, to) <= i ==>
      s.permanent.blocks[i] == Content(s, Follow(s, to, LengthOf(s, to) - i))
  }

  /** An iterator yields exactly the path it was asked for if it starts in the volatile part.
      Otherwise it does so exactly if it ends above the first volatile length and the permanent
      blocks it passes have the contents of the path. */
  lemma IteratorComplete(s: Store, to: Id, distance: nat)
    requires TreeOk(s) && BlockExists(s, to) && distance <= LengthOf(s, to) + 1
    ensures Start(s, to, distance).Ok? && StateOk(s, Start(s, to, distance).value)
    ensures Remaining(s, to, Start(s, to, distance).value) == PathBlocks(s, to, distance) <==>
            || |s.permanent.ids| <= LengthOf(s, to) + 1 - distance
            || (|s.permanent.ids| < LengthOf(s, to) &&
                SameContents(s, to, LengthOf(s, to) + 1 - distance, |s.permanent.ids|))
  {
    if |s.permanent.ids| <= LengthOf(s, to) + 1 - distance {
      VolatileStart(s, to, distance);
    } else if distance == 0 {
      IteratorOverruns(s, to);
    } else if |s.permanent.ids| < LengthOf(s, to) {
      MixedStart(s, to, distance);
    } else {
      IteratorMissesLast(s, to, distance);
    }
  }

  /** On a path that does not come from a stale branch there are no contents to compare. */
  lemma IteratorCompleteUnlessStale(s: Store, to: Id, distance: nat)
    requires TreeOk(s) && BlockExists(s, to) && distance <= LengthOf(s, to) + 1
    requires NoStaleBranch(s) || (to in s.info ==> Fork(s, to) == |s.permanent.ids|)
    ensures Start(s, to, distance).Ok? && StateOk(s, Start(s, to, distance).value)
    ensures Remaining(s, to, Start(s, to, distance).value) == PathBlocks(s, to, distance) <==>
            || |s.permanent.ids| <= LengthOf(s, to) + 1 - distance
            || |s.permanent.ids| < LengthOf(s, to)
  {
    IteratorComplete(s, to, distance);
    if to in s.info && NoStaleBranch(s) {
      NoStaleFork(s, to);
    }
  }

  /** Above the permanent part the path consists of volatile blocks. */
  lemma VolatilePath(s: Store, to: Id, n: nat)
    requires TreeOk(s) && to in s.info && Fork(s, to) + n <= LengthOf(s, to) + 1
    ensures forall id :: id in PathIds(s, to, n) ==> id in s.blocks
    ensures VolatileBlocks(s, PathIds(s, to, n)) == PathBlocks(s, to, n)
  {
    var ids := PathIds(s, to, n);
    forall i: nat | i < n ensures Follow(s, to, i) in s.info {
      FollowFork(s, to, i);
    }
    forall i: nat | i < n ensures VolatileBlocks(s, ids)[i] == PathBlocks(s, to, n)[i] {
      var x := Follow(s, to, n - 1 - i);
      assert ids[n - 1 - i] == x && x in s.info;
      assert PathBlocks(s, to, n)[i] == Content(s, x);
    }
  }

  lemma VolatileStart(s: Store, to: Id, distance: nat)
    requires TreeOk(s) && BlockExists(s, to) && distance <= LengthOf(s, to) + 1
    requires |s.permanent.ids| <= LengthOf(s, to) + 1 - distance
    ensures Start(s, to, distance).Ok? && StateOk(s, Start(s, to, distance).value)
    ensures Remaining(s, to, Start(s, to, distance).value) == PathBlocks(s, to, distance)
  {
    StartOk(s, to, distance);
    if to in s.info {
      VolatilePath(s, to, distance);
    } else {
      assert distance == 0;
    }
  }

  /** An iterator that starts in the permanent part takes all it can from there, whatever the
      path, and goes on above it. It stops before its last block if that is not above the
      first volatile length. */
  lemma PermanentStart(s: Store, to: Id, distance: nat)
    requires TreeOk(s) && BlockExists(s, to) && 0 < distance <= LengthOf(s, to) + 1
    requires LengthOf(s, to) + 1 - distance < |s.permanent.ids|
    ensures Start(s, to, distance).Ok? && StateOk(s, Start(s, to, distance).value)
    ensures var (from, n, last) := (LengthOf(s, to) + 1 - distance, |s.permanent.ids|, LengthOf(s, to));
            Remaining(s, to, Start(s, to, distance).value) ==
            if n < last then s.permanent.blocks[from..] + PathBlocks(s, to, last + 1 - n)
            else s.permanent.blocks[from..last]
  {
    StartOk(s, to, distance);
    if |s.permanent.ids| < LengthOf(s, to) {
      VolatilePath(s, to, LengthOf(s, to) + 1 - |s.permanent.ids|);
    }
  }

  /** A path is its part below the length `end` and its part from there on. */
  lemma PathPrefix(s: Store, to: Id, distance: nat, end: nat)
    requires TreeOk(s) && BlockExists(s, to) && distance <= LengthOf(s, to) + 1
    requires LengthOf(s, to) + 1 - distance <= end <= LengthOf(s, to) && end <= |s.permanent.ids|
    ensures var (from, path) := (LengthOf(s, to) + 1 - distance, PathBlocks(s, to, distance));
            && path == path[..end - from] + PathBlocks(s, to, LengthOf(s, to) + 1 - end)
            && (path[..end - from] == s.permanent.blocks[from..end] <==> SameContents(s, to, from, end))
  {
    var from, path := LengthOf(s, to) + 1 - distance, PathBlocks(s, to, distance);
    assert path == path[..end - from] + PathBlocks(s, to, LengthOf(s, to) + 1 - end);
    forall i: nat | from <= i < end
      ensures path[i - from] == s.permanent.blocks[i] <==>
              (Fork(s, to) <= i ==> s.permanent.blocks[i] == Content(s, Follow(s, to, LengthOf(s, to) - i)))
    {
      PathBlock(s, to, distance, i - from);
    }
    PointwiseEqual(path[..end - from], s.permanent.blocks, from, end);
  }

  lemma MixedStart(s: Store, to: Id, distance: nat)
    requires TreeOk(s) && BlockExists(s, to) && 0 < distance <= LengthOf(s, to) + 1
    requires LengthOf(s, to) + 1 - distance < |s.permanent.ids| < LengthOf(s, to)
    ensures Start(s, to, distance).Ok? && StateOk(s, Start(s, to, distance).value)
    ensures Remaining(s, to, Start(s, to, distance).value) == PathBlocks(s, to, distance) <==>
            SameContents(s, to, LengthOf(s, to) + 1 - distance, |s.permanent.ids|)
  {
    var n, from, blocks := |s.permanent.ids|, LengthOf(s, to) + 1 - distance, s.permanent.blocks;
    PermanentStart(s, to, distance);
    PathPrefix(s, to, distance, n);
    var tail := PathBlocks(s, to, LengthOf(s, to) + 1 - n);
    var head := PathBlocks(s, to, distance)[..n - from];
    assert PathBlocks(s, to, distance) == head + tail;
    assert blocks[from..n] == blocks[from..];
    SamePrefix(head, blocks[from..], tail);
  }

  lemma SamePrefix(a: seq<Value>, b: seq<Value>, c: seq<Value>)
    requires |a| == |b|
    ensures a + c == b + c <==> a == b
  {
    if a + c == b + c {
      assert a == (a + c)[..|a|] == (b + c)[..|b|] == b;
    }
  }

  lemma PointwiseEqual(path: seq<Value>, blocks: seq<Value>, from: nat, end: nat)
    requires from <= end <= |blocks| && |path| == end - from
    ensures path == blocks[from..end] <==> forall i :: from <= i < end ==> path[i - from] == blocks[i]
  {
    if forall i :: from <= i < end ==> path[i - from] == blocks[i] {
      forall k | 0 <= k < |path| ensures path[k] == blocks[from..end][k] {
        assert path[k + from - from] == blocks[k + from];
      }
    } else {
      var i :| from <= i < end && path[i - from] != blocks[i];
      assert blocks[from..end][i - from] == blocks[i];
    }
  }

  /** In the remaining cases of a positive distance the last block, `to` itself, is not yielded,
      and what is yielded is the rest exactly if the permanent part has its contents. */
  lemma IteratorMissesLast(s: Store, to: Id, distance: nat)
    requires TreeOk(s) && BlockExists(s, to) && 0 < distance <= LengthOf(s, to) + 1
    requires LengthOf(s, to) + 1 - distance < |s.permanent.ids|
    requires LengthOf(s, to) <= |s.permanent.ids|
    ensures Start(s, to, distance).Ok? && StateOk(s, Start(s, to, distance).value)
    ensures |Remaining(s, to, Start(s, to, distance).value)| == distance - 1
    ensures Remaining(s, to, Start(s, to, distance).value) == PathBlocks(s, to, distance)[..distance - 1] <==>
            SameContents(s, to, LengthOf(s, to) + 1 - distance, LengthOf(s, to))
  {
    PermanentStart(s, to, distance);
    PathPrefix(s, to, distance, LengthOf(s, to));
  }

  /** On a stale path an iterator silently yields permanent blocks of another branch. */
  lemma IteratorStrays(s: Store, to: Id, distance: nat, i: nat)
    requires TreeOk(s) && BlockExists(s, to) && 0 < distance <= LengthOf(s, to) + 1
    requires LengthOf(s, to) + 1 - distance <= i < |s.permanent.ids|
    requires Fork(s, to) <= i < LengthOf(s, to)
    ensures Start(s, to, distance).Ok? && StateOk(s, Start(s, to, distance).value)
    ensures var (from, rest) := (LengthOf(s, to) + 1 - distance, Remaining(s, to, Start(s, to, distance).value));
            && i - from < |rest| && rest[i - from] == s.permanent.blocks[i]
            && Follow(s, to, LengthOf(s, to) - i) != s.permanent.ids[i]
  {
    PermanentStart(s, to, distance);
    FollowFork(s, to, LengthOf(s, to) - i);
  }

  /** An iterator over no blocks yields nothing exactly if the permanent part has no block above
      `to`. Otherwise its stop test never fires, and it yields all permanent blocks above `to`. */
  lemma IteratorOverruns(s: Store, to: Id)
    requires TreeOk(s) && BlockExists(s, to)
    ensures PathBlocks(s, to, 0) == []
    ensures Start(s, to, 0).Ok? && StateOk(s, Start(s, to, 0).value)
    ensures Remaining(s, to, Start(s, to, 0).value) == [] <==> |s.permanent.ids| <= LengthOf(s, to) + 1
    ensures LengthOf(s, to) + 1 < |s.permanent.ids| ==>
              Remaining(s, to, Start(s, to, 0).value) == s.permanent.blocks[LengthOf(s, to) + 1..]
    ensures NoStaleBranch(s) && LengthOf(s, to) + 1 < |s.permanent.ids| ==> to in s.permanent.index
  {
    StartOk(s, to, 0);
    if to in s.info && NoStaleBranch(s) {
      NoStaleFork(s, to);
    }
    if LengthOf(s, to) + 1 < |s.permanent.ids| {
      assert VolatileTail(s, to) == [];
    }
  }

  // ---- Iterating while a flush goes on ----

  /** The blocks yielded from gathered ids until nothing is yielded, when the steps of the iteration
      see one store after the other. */
  function Yielded(stores: seq<Store>, ids: seq<Id>): seq<Value>
    requires |stores| == |ids|
    decreases |ids|
  {
    if ids == [] then [] else
      match Popped(stores[0], ids)
      case None => []
      case Some(block) => [block] + Yielded(stores[1..], ids[..|ids| - 1])
  }

  /** The first `n` steps find their blocks. */
  predicate AllFound(stores: seq<Store>, ids: seq<Id>, n: nat)
    requires |stores| == |ids| && n <= |ids|
  {
    forall i :: 0 <= i < n ==> ids[|ids| - 1 - i] in stores[i].blocks
  }

  /** The blocks that a store in the middle of a flush still has are those of its beginning. */
  ghost predicate OlderBlocks(s: Store, stores: seq<Store>) {
    forall i, id :: 0 <= i < |stores| && id in stores[i].blocks ==> id in s.blocks && stores[i].blocks[id] == s.blocks[id]
  }

  /** What is yielded is a beginning of the path, and it ends at the first block that is gone by the
      time of its step. */
  lemma {:induction false} YieldedWhen(s: Store, stores: seq<Store>, ids: seq<Id>, n: nat)
    requires |stores| == |ids| && n <= |ids| && OlderBlocks(s, stores)
    requires forall i :: 0 <= i < |ids| ==> ids[i] in s.blocks
    ensures Yielded(stores, ids) <= VolatileBlocks(s, ids)
    ensures n <= |Yielded(stores, ids)| <==> AllFound(stores, ids, n)
    decreases |ids|
  {
    if ids != [] {
      var (rest, later) := (ids[..|ids| - 1], stores[1..]);
      PoppedFirst(s, ids);
      assert VolatileBlocks(s, ids) == [VolatileBlocks(s, ids)[0]] + VolatileBlocks(s, rest);
      assert OlderBlocks(s, later) by {
        assert forall i :: 0 <= i < |later| ==> later[i] == stores[i + 1];
      }
      YieldedWhen(s, later, rest, if n > 0 then n - 1 else 0);
      if n > 0 {
        AllFoundStep(stores, ids, n);
      }
    }
  }

  lemma AllFoundStep(stores: seq<Store>, ids: seq<Id>, n: nat)
    requires |stores| == |ids| && 0 < n <= |ids|
    ensures AllFound(stores, ids, n) <==>
            ids[|ids| - 1] in stores[0].blocks && AllFound(stores[1..], ids[..|ids| - 1], n - 1)
  {
    var (rest, later) := (ids[..|ids| - 1], stores[1..]);
    assert forall i :: 0 <= i < n - 1 ==> rest[|rest| - 1 - i] == ids[|ids| - 1 - (i + 1)] && later[i] == stores[i + 1];
    if AllFound(stores, ids, n) {
      forall i | 0 <= i < n - 1 ensures rest[|rest| - 1 - i] in later[i].blocks {
        assert ids[|ids| - 1 - (i + 1)] in stores[i + 1].blocks;
      }
    }
    if ids[|ids| - 1] in stores[0].blocks && AllFound(later, rest, n - 1) {
      forall i | 0 <= i < n ensures ids[|ids| - 1 - i] in stores[i].blocks {
        if i > 0 {
          assert rest[|rest| - 1 - (i - 1)] in later[i - 1].blocks;
        }
      }
    }
  }

  /** An iterator gathers its ids once. When its steps see states of a flush, it yields the whole
      path exactly if every block is still volatile at its own step; the iteration just ends
      before, although all blocks can be read. */
  lemma IterateAcrossFlush(s: Store, stores: seq<Store>, flushed: Id, to: Id, n: nat)
    requires TreeOk(s) && Attached(s, Branch(s, flushed))
    requires to in s.info && Fork(s, to) + n <= LengthOf(s, to) + 1 && |stores| == n
    requires forall i :: 0 <= i < n ==> MidFlush(s, stores[i], Branch(s, flushed))
    ensures Yielded(stores, PathIds(s, to, n)) <= PathBlocks(s, to, n)
    ensures Yielded(stores, PathIds(s, to, n)) == PathBlocks(s, to, n) <==> AllFound(stores, PathIds(s, to, n), n)
    ensures forall i :: 0 <= i < n ==> ReadersAgree(s, stores[i])
  {
    var ids := PathIds(s, to, n);
    VolatilePath(s, to, n);
    YieldedWhen(s, stores, ids, n);
    forall i | 0 <= i < n ensures ReadersAgree(s, stores[i]) {
      MidFlushInvisible(s, stores[i], flushed);
    }
  }

  lemma BranchClosed(s: Store, flushed: Id, id: Id)
    requires LinksOk(s) && id in Branch(s, flushed) && id in s.info && s.info[id].parentId in s.info
    ensures s.info[id].parentId in Branch(s, flushed)
  {
    var branch := Branch(s, flushed);
    BranchShape(s, flushed);
    var i :| 0 <= i < |branch| && branch[i] == id;
    assert branch[i + 1] == s.info[id].parentId;
  }

  /** If a flush takes a block of the path, it takes the older volatile ones as well. */
  lemma {:induction false} OldestFlushed(s: Store, flushed: Id, to: Id, i: nat, j: nat)
    requires TreeOk(s) && to in s.info && i <= j && Fork(s, to) + j <= LengthOf(s, to)
    requires Follow(s, to, i) in Branch(s, flushed)
    ensures Follow(s, to, j) in Branch(s, flushed)
    decreases j
  {
    if i < j {
      OldestFlushed(s, flushed, to, i, j - 1);
      FollowFork(s, to, j - 1);
      FollowFork(s, to, j);
      FollowOneMore(s, to, j - 1);
      BranchClosed(s, flushed, Follow(s, to, j - 1));
    }
  }

  /** A branch without the oldest block of a path has none of its blocks. */
  lemma PathLeft(s: Store, flushed: Id, to: Id, n: nat)
    requires TreeOk(s)
    requires to in s.info && 0 < n && Fork(s, to) + n <= LengthOf(s, to) + 1
    requires Follow(s, to, n - 1) !in Branch(s, flushed)
    ensures forall i: nat :: i < n ==> Follow(s, to, i) in s.blocks && Follow(s, to, i) !in Branch(s, flushed)
  {
    forall i: nat | i < n ensures Follow(s, to, i) in s.blocks && Follow(s, to, i) !in Branch(s, flushed) {
      FollowFork(s, to, i);
      if Follow(s, to, i) in Branch(s, flushed) {
        OldestFlushed(s, flushed, to, i, n - 1);
      }
    }
  }

  lemma FoundAfterFlush(s: Store, stores: seq<Store>, flushed: Id, to: Id, n: nat)
    requires TreeOk(s) && |stores| == n
    requires to in s.info && 0 < n && Fork(s, to) + n <= LengthOf(s, to) + 1
    requires forall i, id :: 0 <= i < n ==> (id in stores[i].blocks <==> id in s.blocks && id !in Branch(s, flushed))
    ensures AllFound(stores, PathIds(s, to, n), if Follow(s, to, n - 1) in Branch(s, flushed) then 0 else n)
    ensures AllFound(stores, PathIds(s, to, n), 1) <==> Follow(s, to, n - 1) !in Branch(s, flushed)
  {
    FollowFork(s, to, n - 1);
    if Follow(s, to, n - 1) !in Branch(s, flushed) {
      PathLeft(s, flushed, to, n);
    } else {
      assert PathIds(s, to, n)[n - 1] !in stores[0].blocks;
    }
  }

  /** After a whole flush an iterator that has gathered its ids before yields all of its path, or
      nothing at all if the flush took the oldest block of the path. */
  lemma IterateAfterFlush(s: Store, s': Store, stores: seq<Store>, flushed: Id, to: Id, n: nat)
    requires TreeOk(s) && Flushed(s, s', Branch(s, flushed))
    requires to in s.info && 0 < n && Fork(s, to) + n <= LengthOf(s, to) + 1
    requires |stores| == n && forall i :: 0 <= i < n ==> stores[i] == s'
    ensures Yielded(stores, PathIds(s, to, n)) ==
            if Follow(s, to, n - 1) in Branch(s, flushed) then [] else PathBlocks(s, to, n)
  {
    var ids := PathIds(s, to, n);
    VolatilePath(s, to, n);
    FoundAfterFlush(s, stores, flushed, to, n);
    YieldedWhen(s, stores, ids, n);
    YieldedWhen(s, stores, ids, 1);
  }
}
