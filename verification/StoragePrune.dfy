/** Pruning a branch: removing a tip block by block, what the whole loop removes, and
    why the store stays consistent. */
module StoragePrune {
  import opened Wrappers
  import opened StorageState

  datatype RemoveTipResult =
    | NextTip(id: Id)
    | HitPermanentStore(id: Id)
    | Done

  datatype Removal = Removal(store: Store, result: RemoveTipResult)

  function RemoveBlock(s: Store, id: Id): Store
    requires id in s.info
  {
    s.(
      info := s.info - {id},
      blocks := s.blocks - {id},
      lengths := s.lengths - {LengthEntry(s.info[id].chainLength, id)},
      tips := s.tips - {id})
  }

  /** One round of the pruning loop, inside its transaction. */
  function RemoveTip(s: Store, id: Id): Result<Removal, Error> {
    if id in s.permanent.index then
      Ok(Removal(s, Done))
    else if id !in s.info then
      Err(Inconsistent(MissingBlockInfo))
    else if s.info[id].RefCount() != 0 then
      Ok(Removal(s, Done))
    else
      var parentId := s.info[id].parentId;
      var s1 := RemoveBlock(s, id);
      if parentId == s.root then
        Ok(Removal(s1, Done))
      else if parentId in s.permanent.index then
        Ok(Removal(s1, HitPermanentStore(parentId)))
      else if parentId !in s1.info then
        Err(Inconsistent(MissingParentBlock))
      else if s1.info[parentId].parentRefCount == 0 then
        Err(CounterUnderflow)
      else
        var parent := s1.info[parentId].(parentRefCount := s1.info[parentId].parentRefCount - 1);
        var s2 := s1.(info := s1.info[parentId := parent]);
        if parent.parentRefCount != 0 then
          Ok(Removal(s2, Done))
        else
          var s3 := s2.(tips := s2.tips + {parentId});
          if parent.RefCount() != 0 then
            Ok(Removal(s3, Done))
          else
            Ok(Removal(s3, NextTip(parentId)))
  }

  lemma RemoveTipShrinks(s: Store, id: Id)
    requires RemoveTip(s, id).Ok? && RemoveTip(s, id).value.result.NextTip?
    ensures |RemoveTip(s, id).value.store.info| < |s.info|
  {
    var s' := RemoveTip(s, id).value.store;
    assert s'.info.Keys == s.info.Keys - {id};
    assert |s'.info| == |s'.info.Keys| && |s.info| == |s.info.Keys|;
  }

  /** The pruning loop: remove the tip and go on with its parent as long as it is free. */
  function RemoveTips(s: Store, id: Id): Result<Removal, Error>
    decreases |s.info|
  {
    var r := RemoveTip(s, id);
    if r.Ok? && r.value.result.NextTip? then
      RemoveTipShrinks(s, id);
      RemoveTips(r.value.store, r.value.result.id)
    else
      r
  }

  /** The transaction leaves the permanent part and the tags alone. */
  lemma {:induction false} RemoveTipsKeeps(s: Store, id: Id)
    ensures RemoveTips(s, id).Ok? ==> SameFrame(s, RemoveTips(s, id).value.store)
    decreases |s.info|
  {
    RemoveTipKeeps(s, id);
    var r := RemoveTip(s, id);
    if r.Ok? && r.value.result.NextTip? {
      RemoveTipShrinks(s, id);
      RemoveTipsKeeps(r.value.store, r.value.result.id);
    }
  }

  predicate SameFrame(s: Store, s': Store) {
    s'.root == s.root && s'.permanent == s.permanent && s'.tags == s.tags
  }

  lemma RemoveTipKeeps(s: Store, id: Id)
    ensures RemoveTip(s, id).Ok? ==> SameFrame(s, RemoveTip(s, id).value.store)
  {
  }

  function PruneBranch(s: Store, tip: Id): Result<Store, Error> {
    if tip !in s.tips then
      Err(BranchNotFound)
    else
      match RemoveTips(s, tip)
      case Err(e) => Err(e)
      case Ok(removal) =>
        if removal.result.HitPermanentStore? then
          ListPermanentTip(removal.store, removal.result.id)
        else
          Ok(removal.store)
  }

  /** After the last volatile block on top of a permanent one is gone, the permanent block
      becomes a tip, provided nothing is stored one length above it. */
  function ListPermanentTip(s: Store, id: Id): Result<Store, Error> {
    match GetBlockInfo(s, id)
    case Err(BlockNotFound) => Err(Inconsistent(MissingPermanentBlock))
    case Err(e) => Err(e)
    case Ok(info) =>
      match GetBlocksByChainLength(s, info.chainLength + 1)
      case Err(e) => Err(e)
      case Ok(blocks) => if blocks == {} then Ok(s.(tips := s.tips + {info.id})) else Ok(s)
  }

  // ---- What one round does ----

  /** `s'` is `s` without the free tip `id`. */
  ghost predicate TipRemoved(s: Store, s': Store, id: Id) {
    && id in s.info && Children(s.info, id) == {} && TagsOf(s.tags, id) == {}
    && s'.root == s.root && s'.permanent == s.permanent && s'.tags == s.tags
    && (forall c :: c in s'.info <==> c in s.info && c != id)
    && (forall c :: c in s'.info ==>
          s'.info[c] == s.info[c].(parentRefCount := s'.info[c].parentRefCount))
    && (forall c :: c in s'.info ==>
          s'.info[c].parentRefCount ==
          s.info[c].parentRefCount - if c == s.info[id].parentId then 1 else 0)
    && s'.blocks == s.blocks - {id}
    && s'.lengths == s.lengths - {LengthEntry(s.info[id].chainLength, id)}
    && (forall t :: t in s'.tips <==>
          || (t in s.tips && t != id)
          || (t == s.info[id].parentId && t in s.info && Children(s.info, t) == {id}))
  }

  lemma RemoveTipEffect(s: Store, id: Id)
    requires Consistent(s) && id in s.info && Children(s.info, id) == {}
    ensures RemoveTip(s, id).Ok?
    ensures TagsOf(s.tags, id) != {} ==> RemoveTip(s, id).value == Removal(s, Done)
    ensures TagsOf(s.tags, id) == {} ==> TipRemoved(s, RemoveTip(s, id).value.store, id)
  {
    assert s.info[id].RefCount() == |TagsOf(s.tags, id)|;
    assert Linked(s, s.info[id].parentId, s.info[id].chainLength);
    if s.info[id].parentId in s.info {
      ParentCounters(s, id);
    }
  }

  lemma RemoveTipOutcome(s: Store, id: Id)
    requires Consistent(s) && Free(s, id, {})
    ensures RemoveTip(s, id).Ok?
    ensures var parentId := s.info[id].parentId;
            RemoveTip(s, id).value.result ==
            if parentId == s.root then Done
            else if parentId in s.permanent.index then HitPermanentStore(parentId)
            else if Children(s.info, parentId) == {id} && TagsOf(s.tags, parentId) == {} then NextTip(parentId)
            else Done
  {
    assert s.info[id].RefCount() == |TagsOf(s.tags, id)|;
    assert Linked(s, s.info[id].parentId, s.info[id].chainLength);
    if s.info[id].parentId in s.info {
      ParentCounters(s, id);
    }
  }

  lemma ParentCounters(s: Store, id: Id)
    requires CountsOk(s) && id in s.info && s.info[id].parentId in s.info
    ensures var parent := s.info[s.info[id].parentId];
            && parent.parentRefCount > 0
            && (parent.parentRefCount == 1 <==> Children(s.info, s.info[id].parentId) == {id})
            && (parent.tagsRefCount == 0 <==> TagsOf(s.tags, s.info[id].parentId) == {})
  {
    var parentId := s.info[id].parentId;
    assert id in Children(s.info, parentId);
    assert s.info[parentId].parentRefCount == |Children(s.info, parentId)|;
    assert s.info[parentId].tagsRefCount == |TagsOf(s.tags, parentId)|;
    OneChild(s.info, parentId, id);
  }

  lemma OneChild(info: map<Id, BlockInfo>, parentId: Id, id: Id)
    requires id in Children(info, parentId)
    ensures |Children(info, parentId)| == 1 <==> Children(info, parentId) == {id}
  {
    if |Children(info, parentId)| == 1 {
      assert |Children(info, parentId) - {id}| == 0;
    }
  }

  lemma TipRemovedChildren(s: Store, s': Store, id: Id)
    requires TipRemoved(s, s', id)
    ensures forall x :: Children(s'.info, x) == Children(s.info, x) - {id}
  {
  }

  lemma TipRemovedLinks(s: Store, s': Store, id: Id)
    requires LinksOk(s) && TagsOk(s) && LengthsOk(s) && TipRemoved(s, s', id)
    ensures LinksOk(s') && TagsOk(s') && LengthsOk(s')
  {
    forall x | x in s'.info
      ensures s'.info[x].id == x && Linked(s', s'.info[x].parentId, s'.info[x].chainLength)
    {
      assert Linked(s, s.info[x].parentId, s.info[x].chainLength);
      assert x !in Children(s.info, id);
    }
    forall t | t in s'.tags ensures BlockExists(s', s'.tags[t]) {
      assert t !in TagsOf(s.tags, id);
    }
  }

  lemma TipRemovedCounts(s: Store, s': Store, id: Id)
    requires CountsOk(s) && TipRemoved(s, s', id)
    ensures CountsOk(s')
  {
    TipRemovedChildren(s, s', id);
    forall x | x in s'.info ensures s'.info[x].parentRefCount == |Children(s'.info, x)| {
      assert s.info[x].parentRefCount == |Children(s.info, x)|;
      assert id in Children(s.info, x) <==> x == s.info[id].parentId;
    }
  }

  lemma TipRemovedTips(s: Store, s': Store, id: Id)
    requires LinksOk(s) && TipsOk(s) && TipRemoved(s, s', id)
    ensures TipsOk(s')
  {
    TipRemovedChildren(s, s', id);
    forall t | t in s'.tips ensures IsLeaf(s', t) {
      if t in s.tips {
        assert IsLeaf(s, t);
      }
    }
    forall x | x in s'.info && Children(s'.info, x) == {} ensures x in s'.tips {
      if x != s.info[id].parentId {
        assert Children(s.info, x) == {};
      } else {
        assert Children(s.info, x) == {id};
      }
    }
  }

  lemma TipRemovedConsistent(s: Store, s': Store, id: Id)
    requires Consistent(s) && TipRemoved(s, s', id)
    ensures Consistent(s')
  {
    TipRemovedLinks(s, s', id);
    TipRemovedCounts(s, s', id);
    TipRemovedTips(s, s', id);
  }

  // ---- What the whole loop removes ----

  /** A volatile, untagged block whose only children are `below`. */
  ghost predicate Free(s: Store, id: Id, below: set<Id>) {
    id in s.info && TagsOf(s.tags, id) == {} && Children(s.info, id) == below
  }

  /** The free blocks met when going up from `id`, as long as they are free. */
  ghost function FreeRun(s: Store, id: Id, below: set<Id>): seq<Id>
    requires LinksOk(s)
    decreases if id in s.info then s.info[id].chainLength + 1 else 0
  {
    if Free(s, id, below) then
      assert Linked(s, s.info[id].parentId, s.info[id].chainLength);
      [id] + FreeRun(s, s.info[id].parentId, {id})
    else
      []
  }

  /** The i-th block of a run is free but for its predecessor in the run, whose parent it is. */
  ghost predicate FreeAt(s: Store, id: Id, below: set<Id>, run: seq<Id>, i: nat)
    requires i < |run|
  {
    if i == 0 then
      run[0] == id && Free(s, id, below)
    else
      && run[i - 1] in s.info
      && run[i] == s.info[run[i - 1]].parentId
      && Free(s, run[i], {run[i - 1]})
  }

  /** A run going up from `id`: every block is volatile and untagged, and has no child
      outside the run, apart from the children `below` of the first block. */
  ghost predicate IsFreeRun(s: Store, id: Id, below: set<Id>, run: seq<Id>) {
    forall i :: 0 <= i < |run| ==> FreeAt(s, id, below, run, i)
  }

  /** `FreeRun` is the longest such run. */
  lemma {:induction false} FreeRunIsLongest(s: Store, id: Id, below: set<Id>, run: seq<Id>)
    requires LinksOk(s)
    ensures IsFreeRun(s, id, below, FreeRun(s, id, below))
    ensures IsFreeRun(s, id, below, run) ==> run <= FreeRun(s, id, below)
    decreases |FreeRun(s, id, below)|
  {
    if Free(s, id, below) {
      var parentId, rest := s.info[id].parentId, FreeRun(s, s.info[id].parentId, {id});
      FreeRunIsLongest(s, parentId, {id}, if |run| > 0 then run[1..] else []);
      forall i | 0 <= i < |[id] + rest| ensures FreeAt(s, id, below, [id] + rest, i) {
        if i > 0 {
          assert FreeAt(s, parentId, {id}, rest, i - 1);
        }
      }
      if IsFreeRun(s, id, below, run) && |run| > 0 {
        assert FreeAt(s, id, below, run, 0);
        forall i | 0 <= i < |run[1..]| ensures FreeAt(s, parentId, {id}, run[1..], i) {
          assert FreeAt(s, id, below, run, i + 1);
        }
        assert run == [id] + run[1..];
      }
    } else if |run| > 0 {
      assert !FreeAt(s, id, below, run, 0);
    }
  }

  /** `s'` is `s` without the blocks of `run`; every other block keeps its contents and
      its place in the tree. */
  ghost predicate RunRemoved(s: Store, s': Store, run: seq<Id>) {
    && s'.root == s.root && s'.permanent == s.permanent && s'.tags == s.tags
    && (forall c :: c in s'.info <==> c in s.info && c !in run)
    && (forall c :: c in s'.info ==>
          s'.info[c] == s.info[c].(parentRefCount := s'.info[c].parentRefCount))
    && (forall c :: c in s'.blocks <==> c in s.blocks && c !in run)
    && (forall c :: c in s'.blocks ==> s'.blocks[c] == s.blocks[c])
    && (forall e :: e in s'.lengths <==> e in s.lengths && e.id !in run)
  }

  /** Removing the tip does not change what lies above its parent. */
  lemma {:induction false} FreeRunUnaffected(s: Store, s': Store, id: Id, x: Id, below: set<Id>)
    requires LinksOk(s) && LinksOk(s') && TipRemoved(s, s', id)
    requires x != id
    requires x in s.info && s.info[id].parentId in s.info ==>
               s.info[x].chainLength < s.info[s.info[id].parentId].chainLength
    ensures FreeRun(s', x, below) == FreeRun(s, x, below)
    decreases if x in s.info then s.info[x].chainLength + 1 else 0
  {
    TipRemovedChildren(s, s', id);
    if x in s.info {
      assert id !in Children(s.info, x);
    }
    if Free(s, x, below) {
      assert Linked(s, s.info[x].parentId, s.info[x].chainLength);
      assert x !in Children(s.info, id);
      FreeRunUnaffected(s, s', id, s.info[x].parentId, {x});
    }
  }

  lemma TipRemovedIsRun(s: Store, s': Store, id: Id)
    requires LinksOk(s) && LengthsOk(s) && TipRemoved(s, s', id)
    ensures RunRemoved(s, s', [id])
  {
    forall e | e in s.lengths && e.id == id ensures e == LengthEntry(s.info[id].chainLength, id) {
    }
  }

  lemma TipRemovedRun(s: Store, s': Store, id: Id)
    requires LinksOk(s) && LinksOk(s') && TipRemoved(s, s', id)
    ensures FreeRun(s, id, {}) == [id] + FreeRun(s', s.info[id].parentId, {})
  {
    var parentId := s.info[id].parentId;
    assert Free(s, id, {});
    if parentId in s.info {
      TipRemovedParent(s, s', id);
    }
  }

  lemma TipRemovedParent(s: Store, s': Store, id: Id)
    requires LinksOk(s) && LinksOk(s') && TipRemoved(s, s', id)
    requires s.info[id].parentId in s.info
    ensures FreeRun(s', s.info[id].parentId, {}) == FreeRun(s, s.info[id].parentId, {id})
  {
    var parentId := s.info[id].parentId;
    TipRemovedChildren(s, s', id);
    assert id in Children(s.info, parentId);
    assert parentId != id by {
      assert Linked(s, parentId, s.info[id].chainLength);
    }
    assert Free(s, parentId, {id}) <==> Free(s', parentId, {});
    if Free(s, parentId, {id}) {
      assert Linked(s, s.info[parentId].parentId, s.info[parentId].chainLength);
      FreeRunUnaffected(s, s', id, s.info[parentId].parentId, {parentId});
    }
  }

  lemma RunRemovedTransitive(s0: Store, s1: Store, s2: Store, r1: seq<Id>, r2: seq<Id>)
    requires RunRemoved(s0, s1, r1) && RunRemoved(s1, s2, r2)
    ensures RunRemoved(s0, s2, r1 + r2)
  {
  }

  /** How the loop ends: on the permanent block below the run, if there is one. */
  ghost function RunEnd(s: Store, run: seq<Id>): RemoveTipResult {
    if run != [] && run[|run| - 1] in s.info && s.info[run[|run| - 1]].parentId in s.permanent.index
    then HitPermanentStore(s.info[run[|run| - 1]].parentId)
    else Done
  }

  ghost predicate RemovesRun(s: Store, removal: Removal, run: seq<Id>) {
    && Consistent(removal.store)
    && RunRemoved(s, removal.store, run)
    && SamePermanentTips(s, removal.store)
    && removal.result == RunEnd(s, run)
  }

  ghost predicate SamePermanentTips(s: Store, s': Store) {
    forall t :: t !in s.info ==> (t in s'.tips <==> t in s.tips)
  }

  /** The loop started on a volatile leaf removes exactly the longest free run above it. */
  lemma {:induction false} RemoveTipsRemovesRun(s: Store, id: Id)
    requires Consistent(s) && id in s.info && Children(s.info, id) == {}
    ensures RemoveTips(s, id).Ok?
    ensures RemovesRun(s, RemoveTips(s, id).value, FreeRun(s, id, {}))
    decreases |s.info|
  {
    if !Free(s, id, {}) {
      NothingFree(s, id);
    } else {
      FirstOfRun(s, id);
      var first := RemoveTip(s, id).value;
      if first.result.NextTip? {
        RemoveTipShrinks(s, id);
        RemoveTipsRemovesRun(first.store, first.result.id);
        ExtendRun(s, first.store, id, RemoveTips(first.store, first.result.id).value);
      } else {
        LastOfRun(s, id);
      }
    }
  }

  lemma NothingFree(s: Store, id: Id)
    requires Consistent(s) && id in s.info && Children(s.info, id) == {} && !Free(s, id, {})
    ensures RemoveTip(s, id) == Ok(Removal(s, Done))
    ensures RemovesRun(s, Removal(s, Done), FreeRun(s, id, {}))
  {
    RemoveTipEffect(s, id);
    assert FreeRun(s, id, {}) == [];
  }

  lemma LastOfRun(s: Store, id: Id)
    requires Consistent(s) && Free(s, id, {})
    requires RemoveTip(s, id).Ok? && !RemoveTip(s, id).value.result.NextTip?
    ensures RemovesRun(s, RemoveTip(s, id).value, FreeRun(s, id, {}))
  {
    FirstOfRun(s, id);
    assert FreeRun(s, id, {}) == [id];
  }

  /** After the first round: the run goes on from the parent, or the loop is over. */
  lemma FirstOfRun(s: Store, id: Id)
    requires Consistent(s) && Free(s, id, {})
    ensures RemoveTip(s, id).Ok?
    ensures var Removal(s1, step) := RemoveTip(s, id).value; var parentId := s.info[id].parentId;
            && Consistent(s1) && TipRemoved(s, s1, id) && RunRemoved(s, s1, [id]) && SamePermanentTips(s, s1)
            && FreeRun(s, id, {}) == [id] + FreeRun(s1, parentId, {})
            && (step.NextTip? ==> step.id == parentId && Free(s1, parentId, {}))
            && (!step.NextTip? ==> !Free(s1, parentId, {}) && step == RunEnd(s, [id]))
  {
    RemoveTipEffect(s, id);
    RemoveTipOutcome(s, id);
    var s1 := RemoveTip(s, id).value.store;
    TipRemovedConsistent(s, s1, id);
    TipRemovedIsRun(s, s1, id);
    TipRemovedRun(s, s1, id);
    AfterFirst(s, s1, id);
  }

  lemma AfterFirst(s: Store, s1: Store, id: Id)
    requires LinksOk(s) && TipRemoved(s, s1, id)
    ensures SamePermanentTips(s, s1)
    ensures var parentId := s.info[id].parentId;
            Free(s1, parentId, {}) <==>
            parentId in s.info && TagsOf(s.tags, parentId) == {} && Children(s.info, parentId) == {id}
  {
    var parentId := s.info[id].parentId;
    assert Linked(s, parentId, s.info[id].chainLength);
    TipRemovedChildren(s, s1, id);
    if parentId in s.info {
      assert id in Children(s.info, parentId);
    }
  }

  lemma ExtendRun(s: Store, s1: Store, id: Id, removal: Removal)
    requires LinksOk(s1) && TipRemoved(s, s1, id) && RunRemoved(s, s1, [id]) && SamePermanentTips(s, s1)
    requires Free(s1, s.info[id].parentId, {})
    requires RemovesRun(s1, removal, FreeRun(s1, s.info[id].parentId, {}))
    ensures RemovesRun(s, removal, [id] + FreeRun(s1, s.info[id].parentId, {}))
  {
    var run1 := FreeRun(s1, s.info[id].parentId, {});
    RunRemovedTransitive(s, s1, removal.store, [id], run1);
    RunEndExtends(s, s1, id);
  }

  lemma RunEndExtends(s: Store, s1: Store, id: Id)
    requires LinksOk(s1) && TipRemoved(s, s1, id)
    requires Free(s1, s.info[id].parentId, {})
    ensures RunEnd(s, [id] + FreeRun(s1, s.info[id].parentId, {})) ==
            RunEnd(s1, FreeRun(s1, s.info[id].parentId, {}))
  {
    var parentId := s.info[id].parentId;
    var run1 := FreeRun(s1, parentId, {});
    FreeRunIsLongest(s1, parentId, {}, []);
    assert FreeAt(s1, parentId, {}, run1, |run1| - 1);
    assert ([id] + run1)[|run1|] == run1[|run1| - 1];
  }

  /** Pruning succeeds on every tip, removes the longest free run above it and nothing
      else, and keeps the store consistent. */
  lemma PruneBranchRemovesRun(s: Store, tip: Id)
    requires Consistent(s)
    ensures tip !in s.tips ==> PruneBranch(s, tip) == Err(BranchNotFound)
    ensures tip in s.tips ==>
              && PruneBranch(s, tip).Ok?
              && Consistent(PruneBranch(s, tip).value)
              && RunRemoved(s, PruneBranch(s, tip).value, FreeRun(s, tip, {}))
  {
    if tip in s.tips {
      assert IsLeaf(s, tip);
      if tip in s.info {
        RemoveTipsRemovesRun(s, tip);
        var Removal(s', result) := RemoveTips(s, tip).value;
        if result.HitPermanentStore? {
          ListPermanentTipEffect(s', result.id);
        }
      } else {
        assert FreeRun(s, tip, {}) == [];
      }
    }
  }

  /** Listing a permanent block never fails; it lists the block exactly when no volatile
      block and no permanent block sits one length above it. */
  lemma ListPermanentTipEffect(s: Store, id: Id)
    requires Consistent(s) && id in s.permanent.index
    ensures ListPermanentTip(s, id).Ok?
    ensures Consistent(ListPermanentTip(s, id).value)
    ensures ListPermanentTip(s, id).value == s.(tips := s.tips + if NothingAbove(s, id) then {id} else {})
  {
    BlocksAbove(s, id);
    PermanentLength(s, id);
    if NothingAbove(s, id) {
      ListLeaf(s, id);
    } else {
      assert s.(tips := s.tips + {}) == s;
    }
  }

  lemma PermanentLength(s: Store, id: Id)
    requires s.permanent.Consistent() && id in s.permanent.index
    ensures GetBlockInfo(s, id).Ok?
    ensures GetBlockInfo(s, id).value.id == id && GetBlockInfo(s, id).value.chainLength == s.permanent.index[id]
  {
  }

  lemma BlocksAbove(s: Store, id: Id)
    requires s.permanent.Consistent() && LinksOk(s) && LengthsOk(s) && id in s.permanent.index
    ensures GetBlocksByChainLength(s, s.permanent.index[id] + 1).Ok?
    ensures GetBlocksByChainLength(s, s.permanent.index[id] + 1).value == {} <==> NothingAbove(s, id)
  {
    if s.permanent.index[id] + 1 == |s.permanent.ids| {
      EntriesAbove(s);
      BlocksOfEntries(s, |s.permanent.ids|);
    }
  }

  lemma BlocksOfEntries(s: Store, chainLength: nat)
    requires chainLength == |s.permanent.blocks|
    requires forall e :: e in EntriesAt(s, chainLength) ==> e.id in s.blocks
    ensures GetBlocksByChainLength(s, chainLength).Ok?
    ensures GetBlocksByChainLength(s, chainLength).value == {} <==> EntriesAt(s, chainLength) == {}
  {
    var entries, blocks := EntriesAt(s, chainLength), GetBlocksByChainLength(s, chainLength).value;
    if entries != {} {
      var e :| e in entries;
      assert s.blocks[e.id] in blocks;
    }
  }

  /** The entries above the permanent part are those of volatile blocks. */
  lemma EntriesAbove(s: Store)
    requires s.permanent.Consistent() && LinksOk(s) && LengthsOk(s)
    ensures forall e :: e in EntriesAt(s, |s.permanent.ids|) ==>
              e.id in s.blocks && e.id in s.info && s.info[e.id].chainLength == |s.permanent.ids|
    ensures EntriesAt(s, |s.permanent.ids|) == {} <==>
            forall x :: x in s.info ==> s.info[x].chainLength != |s.permanent.ids|
  {
    forall e | e in EntriesAt(s, |s.permanent.ids|) ensures e.id in s.info {
      assert LengthOf(s, e.id) == |s.permanent.ids|;
    }
    forall x | x in s.info && s.info[x].chainLength == |s.permanent.ids|
      ensures LengthEntry(s.info[x].chainLength, x) in EntriesAt(s, |s.permanent.ids|)
    {
    }
  }

  ghost predicate NothingAbove(s: Store, id: Id)
    requires id in s.permanent.index
  {
    && s.permanent.index[id] + 1 == |s.permanent.ids|
    && forall x :: x in s.info ==> s.info[x].chainLength != |s.permanent.ids|
  }

  lemma ListLeaf(s: Store, id: Id)
    requires Consistent(s) && id in s.permanent.index && NothingAbove(s, id)
    ensures Consistent(s.(tips := s.tips + {id}))
  {
    var s' := s.(tips := s.tips + {id});
    forall x | x in s.info ensures s.info[x].parentId != id {
      assert Linked(s, s.info[x].parentId, s.info[x].chainLength);
    }
    forall x | x in s'.info ensures Linked(s', s'.info[x].parentId, s'.info[x].chainLength) {
      assert Linked(s, s.info[x].parentId, s.info[x].chainLength);
    }
    forall t | t in s'.tips ensures IsLeaf(s', t) {
      if t in s.tips {
        assert IsLeaf(s, t);
      }
    }
  }
}
