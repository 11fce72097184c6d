/** The block store itself: trees and files as fields that its operations change in place.
    Each transaction works on copies of the trees and commits them at its end. */
module StorageBlockStore {
  import opened Wrappers
  import opened StorageState
  import opened StoragePut
  import opened StoragePrune
  import opened StorageFlush
  import opened StorageAncestry

  class PermanentStore {
    var blocks: seq<Value>
    var chainLengthIndex: seq<Id>
    var blockIdIndex: map<Id, nat>

    constructor ()
      ensures Snapshot() == Permanent([], [], map[])
    {
      blocks, chainLengthIndex, blockIdIndex := [], [], map[];
    }

    function Snapshot(): Permanent
      reads this
    {
      Permanent(blocks, chainLengthIndex, blockIdIndex)
    }

    /** Appends to both files, then inserts the ids one by one. `writes` lists the states
        after each single write. */
    method PutBlocks(start: nat, ids: seq<Id>, newBlocks: seq<Value>) returns (ghost writes: seq<Permanent>)
      requires |ids| == |newBlocks|
      modifies this
      ensures blocks == old(blocks) + newBlocks
      ensures chainLengthIndex == old(chainLengthIndex) + ids
      ensures blockIdIndex == IndexInserted(old(blockIdIndex), start, ids, |ids|)
      ensures |writes| == |ids| + 2
      ensures writes[0] == old(Snapshot()).(blocks := blocks)
      ensures forall i :: 0 <= i <= |ids| ==>
                writes[i + 1] == Permanent(blocks, chainLengthIndex, IndexInserted(old(blockIdIndex), start, ids, i))
    {
      blocks := blocks + newBlocks;
      writes := [Snapshot()];
      chainLengthIndex := chainLengthIndex + ids;
      writes := writes + [Snapshot()];
      for i := 0 to |ids|
        invariant blocks == old(blocks) + newBlocks
        invariant chainLengthIndex == old(chainLengthIndex) + ids
        invariant blockIdIndex == IndexInserted(old(blockIdIndex), start, ids, i)
        invariant |writes| == i + 2
        invariant writes[0] == old(Snapshot()).(blocks := blocks)
        invariant forall j :: 0 <= j <= i ==>
                    writes[j + 1] == Permanent(blocks, chainLengthIndex, IndexInserted(old(blockIdIndex), start, ids, j))
      {
        blockIdIndex := blockIdIndex[ids[i] := start + i];
        writes := writes + [Snapshot()];
      }
    }
  }

  class BlockStore {
    const rootId: Id
    const permanent: PermanentStore
    var blocksTree: map<Id, Value>
    var infoTree: map<Id, BlockInfo>
    var chainLengthIndexTree: set<LengthEntry>
    var branchesTipsTree: set<Id>
    var tagsTree: map<string, Id>

    constructor (rootId: Id)
      ensures this.rootId == rootId && fresh(permanent)
      ensures Snapshot() == EmptyStore(rootId)
    {
      this.rootId := rootId;
      permanent := new PermanentStore();
      blocksTree, infoTree, chainLengthIndexTree, branchesTipsTree, tagsTree := map[], map[], {}, {}, map[];
    }

    function Snapshot(): Store
      reads this, permanent
    {
      Store(rootId, permanent.Snapshot(), blocksTree, infoTree, chainLengthIndexTree, branchesTipsTree, tagsTree)
    }

    /** Writes a block below its parent, in one transaction. */
    method PutBlock(block: Value, info: BlockInfo) returns (r: Result<(), Error>)
      modifies this
      ensures match StoragePut.PutBlock(old(Snapshot()), block, info)
              case Ok(s) => r == Ok(()) && Snapshot() == s
              case Err(e) => r == Err(e) && Snapshot() == old(Snapshot())
    {
      if BlockExists(Snapshot(), info.id) {
        return Err(BlockAlreadyPresent);
      }
      var parentInPermanentStore := info.parentId in permanent.blockIdIndex;
      var parentInVolatileStore;
      if parentInPermanentStore || info.parentId == rootId {
        parentInVolatileStore := false;
      } else if info.parentId !in infoTree {
        return Err(MissingParent);
      } else {
        parentInVolatileStore := true;
      }
      if parentInVolatileStore {
        infoTree := infoTree[info.parentId := AddParentRef(infoTree[info.parentId])];
      }
      branchesTipsTree := branchesTipsTree - {info.parentId};
      branchesTipsTree := branchesTipsTree + {info.id};
      chainLengthIndexTree := chainLengthIndexTree + {LengthEntry(info.chainLength, info.id)};
      blocksTree := blocksTree[info.id := block];
      infoTree := infoTree[info.id := info];
      return Ok(());
    }

    /** Sets a tag, in one transaction that changes nothing when it fails. */
    method PutTag(tag: string, id: Id) returns (r: Result<(), Error>)
      modifies this
      ensures match StoragePut.PutTag(old(Snapshot()), tag, id)
              case Ok(s) => r == Ok(()) && Snapshot() == s
              case Err(e) => r == Err(e) && Snapshot() == old(Snapshot())
    {
      var info, tags := infoTree, tagsTree;
      if id in info {
        info := info[id := AddTagRef(info[id])];
      } else if id !in permanent.blockIdIndex {
        return Err(BlockNotFound);
      }
      tags := tags[tag := id];
      if tag in tagsTree {
        var oldId := tagsTree[tag];
        if oldId !in info {
          return Err(Inconsistent(TaggedBlock));
        }
        if info[oldId].tagsRefCount == 0 {
          return Err(CounterUnderflow);
        }
        info := info[oldId := info[oldId].(tagsRefCount := info[oldId].tagsRefCount - 1)];
      }
      infoTree, tagsTree := info, tags;
      return Ok(());
    }

    /** One round of the pruning transaction on copies of the trees. */
    static method RemoveTipRound(s: Store, id: Id) returns (r: Result<Removal, Error>)
      ensures r == RemoveTip(s, id)
    {
      if id in s.permanent.index {
        return Ok(Removal(s, Done));
      }
      if id !in s.info {
        return Err(Inconsistent(MissingBlockInfo));
      }
      var blockInfo := s.info[id];
      if blockInfo.RefCount() != 0 {
        return Ok(Removal(s, Done));
      }
      var info := s.info - {id};
      var blocks := s.blocks - {id};
      var lengths := s.lengths - {LengthEntry(blockInfo.chainLength, id)};
      var tips := s.tips - {id};
      var parentId := blockInfo.parentId;
      if parentId == s.root {
        return Ok(Removal(s.(info := info, blocks := blocks, lengths := lengths, tips := tips), Done));
      }
      if parentId in s.permanent.index {
        return Ok(Removal(
          s.(info := info, blocks := blocks, lengths := lengths, tips := tips), HitPermanentStore(parentId)));
      }
      if parentId !in info {
        return Err(Inconsistent(MissingParentBlock));
      }
      var parentInfo := info[parentId];
      if parentInfo.parentRefCount == 0 {
        return Err(CounterUnderflow);
      }
      parentInfo := parentInfo.(parentRefCount := parentInfo.parentRefCount - 1);
      info := info[parentId := parentInfo];
      var result := Done;
      if parentInfo.parentRefCount == 0 {
        tips := tips + {parentId};
        if parentInfo.RefCount() == 0 {
          result := NextTip(parentId);
        }
      }
      return Ok(Removal(s.(info := info, blocks := blocks, lengths := lengths, tips := tips), result));
    }

    /** The pruning transaction: rounds until no further tip is free. */
    static method RemoveTipRounds(s: Store, tip: Id) returns (r: Result<Removal, Error>)
      ensures r == RemoveTips(s, tip)
    {
      var current := Removal(s, NextTip(tip));
      while current.result.NextTip?
        invariant RemoveTips(s, tip) ==
                  if current.result.NextTip? then RemoveTips(current.store, current.result.id) else Ok(current)
        decreases current.result.NextTip?, |current.store.info|
      {
        var step := RemoveTipRound(current.store, current.result.id);
        if step.Err? {
          return step;
        }
        if step.value.result.NextTip? {
          RemoveTipShrinks(current.store, current.result.id);
        }
        current := step.value;
      }
      return Ok(current);
    }

    /** Prunes the branch that ends in `tip`: one transaction removes blocks going up, then
        the permanent block below the branch may become a tip. */
    method PruneBranch(tip: Id) returns (r: Result<(), Error>)
      requires Consistent(Snapshot())
      modifies this
      ensures match StoragePrune.PruneBranch(old(Snapshot()), tip)
              case Ok(s) => r == Ok(()) && Snapshot() == s
              case Err(e) => r == Err(e) && Snapshot() == old(Snapshot())
    {
      PruneBranchRemovesRun(Snapshot(), tip);
      if tip !in branchesTipsTree {
        return Err(BranchNotFound);
      }
      var removal := RemoveTipRounds(Snapshot(), tip);
      RemoveTipsKeeps(Snapshot(), tip);
      var store, result := removal.value.store, removal.value.result;
      infoTree, blocksTree, chainLengthIndexTree, branchesTipsTree := store.info, store.blocks, store.lengths, store.tips;
      assert Snapshot() == store;
      if result.HitPermanentStore? {
        ListIfFree(result.id);
      }
      return Ok(());
    }

    /** Makes a permanent block a tip if nothing is stored one length above it. */
    method ListIfFree(id: Id)
      requires ListPermanentTip(Snapshot(), id).Ok?
      modifies `branchesTipsTree
      ensures ListPermanentTip(old(Snapshot()), id) == Ok(Snapshot())
    {
      var info := GetBlockInfo(Snapshot(), id).value;
      var above := GetBlocksByChainLength(Snapshot(), info.chainLength + 1).value;
      if above == {} {
        branchesTipsTree := branchesTipsTree + {info.id};
      }
    }

    /** Moves the branch that ends in `to` to the permanent part, if it is long enough.
        `states` lists the states of the store before, after each single write, and after. */
    method FlushToPermanentStore(to: Id, minNumber: nat) returns (flushed: nat, ghost states: seq<Store>)
      requires minNumber > 0
      requires Consistent(Snapshot())
      requires to in infoTree ==> Attached(Snapshot(), Branch(Snapshot(), to))
      modifies this, permanent
      ensures FlushOutcome(old(Snapshot()), Snapshot(), to, minNumber, flushed, states)
      ensures SeenByReaders(old(Snapshot()), states)
    {
      var branch := BranchToFlush(to, minNumber);
      NoWritesSeen(Snapshot());
      if branch == [] {
        return 0, [Snapshot()];
      }
      ghost var s := Snapshot();
      BranchIsVolatile(s, to);
      states := MoveBranch(to, branch);
      InvisibleWritesAgree(s, states, to);
      flushed := |branch|;
    }

    /** The writes of a flush: append to the permanent part, then remove from the volatile part. */
    method MoveBranch(to: Id, branch: seq<Id>) returns (ghost states: seq<Store>)
      requires TreeOk(Snapshot()) && branch == Branch(Snapshot(), to) && Attached(Snapshot(), branch)
      requires forall id :: id in branch ==> id in infoTree && id in blocksTree && id !in permanent.blockIdIndex
      modifies this, permanent
      ensures Flushed(old(Snapshot()), Snapshot(), branch)
      ensures InvisibleWrites(old(Snapshot()), states, branch)
      ensures |states| == 3 + 4 * |branch| && states[|states| - 1] == Snapshot()
    {
      ghost var s := Snapshot();
      AttachedLengths(s, to);
      var start := infoTree[branch[|branch| - 1]].chainLength;
      states := AppendBranch(to, branch, start);
      UnlinkingStarts(s, branch);
      states := UnlinkBranch(s, states, branch, start);
      UnlinkedIsFlushed(s, Snapshot(), branch);
    }

    /** The branch to flush, or nothing if there is too little of it. */
    method BranchToFlush(to: Id, minNumber: nat) returns (branch: seq<Id>)
      requires minNumber > 0 && LinksOk(Snapshot())
      ensures branch == [] <==> !FlushTriggers(Snapshot(), to, minNumber)
      ensures branch != [] ==> to in infoTree && branch == Branch(Snapshot(), to)
    {
      if to !in infoTree {
        return [];
      }
      var blockInfo := infoTree[to];
      if blockInfo.chainLength < minNumber {
        return [];
      }
      if EntriesAt(Snapshot(), blockInfo.chainLength - minNumber) == {} {
        return [];
      }
      branch := GatherBranch(to);
      if |branch| < minNumber {
        return [];
      }
    }

    /** Appends the blocks, oldest first, to the permanent part. */
    method AppendBranch(to: Id, branch: seq<Id>, start: nat) returns (ghost states: seq<Store>)
      requires TreeOk(Snapshot()) && branch == Branch(Snapshot(), to) && Attached(Snapshot(), branch)
      requires start == |permanent.chainLengthIndex|
      requires forall i :: 0 <= i < |branch| ==> branch[i] in infoTree && branch[i] in blocksTree
      modifies permanent
      ensures Snapshot() == old(Snapshot()).(permanent := AppendedPermanent(old(Snapshot()), branch))
      ensures |states| == |branch| + 3 && states[|branch| + 2] == Snapshot()
      ensures InvisibleWrites(old(Snapshot()), states, branch)
    {
      ghost var s := Snapshot();
      ghost var n := |branch|;
      InsertedIndex(s, to, n);
      ghost var writes := permanent.PutBlocks(start, OldestFirst(branch), OldestContents(blocksTree, branch));
      states := [s] + seq(n + 2, i requires 0 <= i < n + 2 => s.(permanent := writes[i]));
      forall i | 0 < i < |states| ensures writes[i - 1] == AppendStep(s, branch, i) {
        assert i > 1 ==> writes[i - 2 + 1] == AppendStep(s, branch, i);
      }
      AppendingWrites(s, to, states);
    }

    /** The blocks of the branch are volatile, and the oldest has the length `start`. */
    ghost predicate Unlinkable(s: Store, branch: seq<Id>, start: nat) {
      && |branch| > 0
      && (forall id :: id in branch ==> id in s.info && id in s.blocks && id !in s.permanent.index)
      && start == s.info[branch[|branch| - 1]].chainLength
    }

    /** Removes the blocks, newest first, from the volatile part. */
    method UnlinkBranch(ghost s: Store, ghost before: seq<Store>, branch: seq<Id>, start: nat)
      returns (ghost states: seq<Store>)
      requires Unlinkable(s, branch, start)
      requires Unlinking(s, Snapshot(), branch, 0, 0, 0)
      requires InvisibleWrites(s, before, branch) && EndAt(before, Snapshot())
      modifies this
      ensures Unlinking(s, Snapshot(), branch, |branch|, |branch|, |branch|)
      ensures |states| == |before| + 3 * |branch| && EndAt(states, Snapshot())
      ensures InvisibleWrites(s, states, branch)
    {
      states := before;
      for i := 0 to |branch|
        invariant |states| == |before| + 3 * i
        invariant InvisibleWrites(s, states, branch) && EndAt(states, Snapshot())
        invariant Unlinking(s, Snapshot(), branch, i, i, i)
      {
        states := UnlinkOne(s, states, branch, start, i);
      }
    }

    /** One round of the loop: three writes, one to each tree. */
    method UnlinkOne(ghost s: Store, ghost before: seq<Store>, branch: seq<Id>, start: nat, i: nat)
      returns (ghost states: seq<Store>)
      requires i < |branch| && Unlinkable(s, branch, start)
      requires InvisibleWrites(s, before, branch) && EndAt(before, Snapshot())
      requires Unlinking(s, Snapshot(), branch, i, i, i)
      modifies this
      ensures |states| == |before| + 3
      ensures InvisibleWrites(s, states, branch) && EndAt(states, Snapshot())
      ensures Unlinking(s, Snapshot(), branch, i + 1, i + 1, i + 1)
    {
      var key := branch[i];
      ghost var t0 := Snapshot();
      ghost var t1 := t0.(info := t0.info - {key});
      ghost var t2 := t1.(blocks := t1.blocks - {key});
      ghost var t3 := t2.(lengths := t2.lengths - {LengthEntry(start + i, key)});
      infoTree := infoTree - {key};
      blocksTree := blocksTree - {key};
      chainLengthIndexTree := chainLengthIndexTree - {LengthEntry(start + i, key)};
      assert Snapshot() == t3;
      UnlinkRound(s, branch, i, before, t0, t1, t2, t3);
      states := before + [t1, t2, t3];
    }

    /** The ids of the volatile blocks from `to` up, newest first. */
    method GatherBranch(to: Id) returns (ids: seq<Id>)
      requires LinksOk(Snapshot()) && to in infoTree
      ensures ids == Branch(Snapshot(), to)
    {
      ids := [to];
      var currentId := infoTree[to].parentId;
      while currentId in infoTree
        invariant Branch(Snapshot(), to) == ids + Branch(Snapshot(), currentId)
        decreases |Branch(Snapshot(), currentId)|
      {
        ids := ids + [currentId];
        currentId := infoTree[currentId].parentId;
      }
    }

    /** The block `distance` parent links above the given one, if no stale branch is in the way. */
    method GetNthAncestor(id: Id, distance: nat) returns (r: Result<BlockInfo, Error>)
      requires TreeOk(Snapshot()) && LengthsOk(Snapshot())
      ensures r == NthAncestor(Snapshot(), id, distance)
    {
      NthAncestorCases(Snapshot(), id, distance);
      var info := GetBlockInfo(Snapshot(), id);
      if info.Err? {
        return info;
      }
      if distance > info.value.chainLength {
        return Err(CannotIterate);
      }
      var target := info.value.chainLength - distance;
      var permanentInfo := permanent.Snapshot().GetBlockInfoByChainLength(target, rootId);
      if permanentInfo.Some? {
        return Ok(permanentInfo.value);
      }
      var entries := EntriesAt(Snapshot(), target);
      if entries != {} {
        var entry :| entry in entries;
        if entries - {entry} == {} {
          OnlyEntryIsAncestor(Snapshot(), id, distance, entry);
          return GetBlockInfo(Snapshot(), entry.id);
        }
      }
      var ancestor := WalkToLength(id, info.value, target);
      return Ok(ancestor);
    }

    /** Follows parent links through the volatile part down to the given length. */
    method WalkToLength(id: Id, info: BlockInfo, target: nat) returns (current: BlockInfo)
      requires TreeOk(Snapshot()) && BlockExists(Snapshot(), id) && info == Info(Snapshot(), id)
      requires |permanent.chainLengthIndex| <= target <= info.chainLength
      ensures current == Info(Snapshot(), Follow(Snapshot(), id, info.chainLength - target))
    {
      ghost var s := Snapshot();
      current := info;
      while target < current.chainLength
        invariant target <= current.chainLength <= info.chainLength
        invariant current == Info(s, Follow(s, id, info.chainLength - current.chainLength))
      {
        StepUp(s, id, info.chainLength - current.chainLength);
        FollowFork(s, id, info.chainLength - current.chainLength + 1);
        current := infoTree[current.parentId];
      }
    }

    /** Whether, and at what distance, `ancestorId` is an ancestor of `descendantId`. */
    method IsAncestorOf(ancestorId: Id, descendantId: Id) returns (r: Result<Option<nat>, Error>)
      requires TreeOk(Snapshot()) && LengthsOk(Snapshot())
      ensures r == AncestorDistance(Snapshot(), ancestorId, descendantId)
    {
      AncestorDistanceCases(Snapshot(), ancestorId, descendantId);
      var descendantInfo := GetBlockInfo(Snapshot(), descendantId);
      if descendantInfo.Err? {
        return Err(descendantInfo.error);
      }
      var descendant := descendantInfo.value;
      if ancestorId == descendantId {
        return Ok(Some(0));
      }
      if ancestorId == rootId {
        return Ok(Some(descendant.chainLength));
      }
      if ancestorId in permanent.blockIdIndex {
        var ancestorLength := permanent.blockIdIndex[ancestorId];
        if ancestorLength < descendant.chainLength {
          return Ok(Some(descendant.chainLength - ancestorLength));
        }
        return Ok(None);
      }
      if ancestorId !in infoTree {
        return Err(BlockNotFound);
      }
      if infoTree[ancestorId].chainLength >= descendant.chainLength {
        return Ok(None);
      }
      r := IsVolatileAncestorOf(ancestorId, descendantId, descendant);
    }

    /** The query for a volatile ancestor shorter than the descendant. */
    method IsVolatileAncestorOf(ancestorId: Id, descendantId: Id, descendant: BlockInfo)
      returns (r: Result<Option<nat>, Error>)
      requires TreeOk(Snapshot()) && LengthsOk(Snapshot())
      requires BlockExists(Snapshot(), descendantId) && descendant == Info(Snapshot(), descendantId)
      requires ancestorId in infoTree && infoTree[ancestorId].chainLength < descendant.chainLength
      ensures r == AncestorDistance(Snapshot(), ancestorId, descendantId)
    {
      AncestorDistanceCases(Snapshot(), ancestorId, descendantId);
      var ancestor := infoTree[ancestorId];
      if descendant.parentId == ancestor.id {
        return Ok(Some(1));
      }
      var entries := EntriesAt(Snapshot(), ancestor.chainLength);
      OwnEntry(Snapshot(), ancestorId);
      if entries != {} {
        var entry :| entry in entries;
        if entries - {entry} == {} {
          return Ok(Some(descendant.chainLength - ancestor.chainLength));
        }
      }
      r := WalkToAncestor(ancestorId, descendantId);
    }

    /** Follows parent links through the volatile part. */
    method WalkToAncestor(ancestorId: Id, descendantId: Id) returns (r: Result<Option<nat>, Error>)
      requires TreeOk(Snapshot())
      requires ancestorId in infoTree && BlockExists(Snapshot(), descendantId)
      requires infoTree[ancestorId].chainLength < LengthOf(Snapshot(), descendantId)
      ensures r == Ok(TrueDistance(Snapshot(), ancestorId, descendantId))
    {
      ghost var s := Snapshot();
      ghost var gap := LengthOf(s, descendantId) - LengthOf(s, ancestorId);
      var current := GetBlockInfo(Snapshot(), descendantId).value;
      var distance := 0;
      while current.parentId in infoTree
        invariant distance <= LengthOf(s, descendantId)
        invariant current == Info(s, Follow(s, descendantId, distance))
        invariant forall j :: 1 <= j <= distance ==> Follow(s, descendantId, j) != ancestorId
        decreases LengthOf(s, descendantId) - distance
      {
        StepUp(s, descendantId, distance);
        var parent := infoTree[current.parentId];
        distance := distance + 1;
        if parent.id == ancestorId {
          return Ok(Some(distance));
        }
        current := parent;
      }
      if distance < gap {
        StepUp(s, descendantId, distance);
        PermanentAbove(s, descendantId, distance + 1, gap);
      }
      return Ok(None);
    }

    /** The common ancestor of two blocks with the greatest chain length, if no stale branch is in the way. */
    method FindLowestCommonAncestor(block1: Id, block2: Id) returns (r: Result<Option<BlockInfo>, Error>)
      requires TreeOk(Snapshot()) && LengthsOk(Snapshot())
      ensures r == LowestCommonAncestorInfo(Snapshot(), block1, block2)
    {
      LowestCommonAncestorCases(Snapshot(), block1, block2);
      var pstore1 := permanent.Snapshot().GetBlockInfo(block1, rootId).value;
      var pstore2 := permanent.Snapshot().GetBlockInfo(block2, rootId).value;
      match (pstore1, pstore2) {
        case (Some(info1), Some(info2)) =>
          if info1.chainLength < info2.chainLength {
            return Ok(Some(info1));
          } else {
            return Ok(Some(info2));
          }
        case (Some(info), None) =>
          if block2 in infoTree {
            return Ok(Some(info));
          }
          return Err(BlockNotFound);
        case (None, Some(info)) =>
          if block1 in infoTree {
            return Ok(Some(info));
          }
          return Err(BlockNotFound);
        case (None, None) =>
      }
      if block1 !in infoTree || block2 !in infoTree {
        return Err(BlockNotFound);
      }
      r := FindAmongVolatile(block1, block2);
    }

    /** The search among volatile blocks: bring both to the same length, then go down together. */
    method FindAmongVolatile(block1: Id, block2: Id) returns (r: Result<Option<BlockInfo>, Error>)
      requires TreeOk(Snapshot()) && LengthsOk(Snapshot()) && block1 in infoTree && block2 in infoTree
      ensures r == LowestCommonAncestorInfo(Snapshot(), block1, block2)
    {
      VolatilePair(Snapshot(), block1, block2);
      var current1, current2 := infoTree[block1], infoTree[block2];
      if current1.chainLength > current2.chainLength {
        current1, current2 := current2, current1;
      }
      r := FindFromShorter(current1, current2);
    }

    /** Brings the longer of two volatile blocks to the length of the shorter one. */
    method FindFromShorter(current1: BlockInfo, info2: BlockInfo) returns (r: Result<Option<BlockInfo>, Error>)
      requires TreeOk(Snapshot()) && LengthsOk(Snapshot()) && current1.id in infoTree && info2.id in infoTree
      requires current1 == infoTree[current1.id] && info2 == infoTree[info2.id]
      requires current1.chainLength <= info2.chainLength
      ensures r == Ok(InfoOption(Snapshot(), MeetBelow(Snapshot(), current1.id, info2.id)))
    {
      ghost var s := Snapshot();
      var distance := info2.chainLength - current1.chainLength;
      var current2 := GetNthAncestor(info2.id, distance);
      MeetBelowCases(s, current1, info2, current2);
      r := MeetInLockstep(current1, current2.value);
    }

    /** Goes down from two blocks of equal length until they meet. */
    method MeetInLockstep(info1: BlockInfo, info2: BlockInfo) returns (r: Result<Option<BlockInfo>, Error>)
      requires TreeOk(Snapshot())
      requires BlockExists(Snapshot(), info1.id) && info1 == Info(Snapshot(), info1.id)
      requires BlockExists(Snapshot(), info2.id) && info2 == Info(Snapshot(), info2.id)
      requires info1.chainLength == info2.chainLength
      ensures r == Ok(InfoOption(Snapshot(), Meet(Snapshot(), info1.id, info2.id)))
    {
      ghost var s := Snapshot();
      var current1, current2 := info1, info2;
      while current2.id != current1.id && current1.chainLength > 0
        invariant BlockExists(s, current1.id) && current1 == Info(s, current1.id)
        invariant BlockExists(s, current2.id) && current2 == Info(s, current2.id)
        invariant current1.chainLength == current2.chainLength
        invariant Meet(s, current1.id, current2.id) == Meet(s, info1.id, info2.id)
        decreases current1.chainLength
      {
        LockstepRound(s, current1, current2);
        current1 := GetBlockInfo(Snapshot(), current1.parentId).value;
        current2 := GetBlockInfo(Snapshot(), current2.parentId).value;
      }
      if current1.id != current2.id {
        return Ok(None);
      }
      return Ok(Some(current1));
    }
  }
}
