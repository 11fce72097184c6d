/** Whole runs of the block store: what holds in every state that puts, tags, prunes and
    flushes can reach from an empty store. */
module StorageRuns {
  import opened Wrappers
  import opened StorageState
  import opened StoragePut
  import opened StoragePrune
  import opened StorageFlush
  import opened StorageAncestry

  datatype Operation =
    | Put(block: Value, info: BlockInfo)
    | Tag(tag: string, id: Id)
    | Prune(tip: Id)
    | Flush(to: Id, minNumber: nat)

  /** What callers promise: fresh metadata that extends its parent by one, and flushes of
      branches that descend from the last permanent block. */
  ghost predicate Allowed(s: Store, op: Operation) {
    match op
    case Put(block, info) => WellFormedInfo(s, info)
    case Tag(_, _) => true
    case Prune(_) => true
    case Flush(to, minNumber) =>
      minNumber > 0 && LinksOk(s) && (to in s.info ==> Attached(s, Branch(s, to)))
  }

  /** The effect of one operation; an operation that fails changes nothing. */
  ghost predicate Next(s: Store, op: Operation, s': Store) {
    match op
    case Put(block, info) => s' == Committed(s, PutBlock(s, block, info))
    case Tag(tag, id) => s' == Committed(s, PutTag(s, tag, id))
    case Prune(tip) => s' == Committed(s, PruneBranch(s, tip))
    case Flush(to, minNumber) =>
      LinksOk(s) && if FlushTriggers(s, to, minNumber) then Flushed(s, s', Branch(s, to)) else s' == s
  }

  function Committed(s: Store, r: Result<Store, Error>): Store {
    if r.Ok? then r.value else s
  }

  ghost predicate Run(root: Id, states: seq<Store>, ops: seq<Operation>) {
    && |states| == |ops| + 1
    && states[0] == EmptyStore(root)
    && forall i, j :: 0 <= i && j == i + 1 && j < |states| ==>
         Step(states[i], ops[i], states[j])
  }

  ghost predicate Step(s: Store, op: Operation, s': Store) {
    Allowed(s, op) && Next(s, op, s')
  }

  lemma EmptyStoreConsistent(root: Id)
    ensures Consistent(EmptyStore(root)) && TopListed(EmptyStore(root))
  {
  }

  lemma NextConsistent(s: Store, op: Operation, s': Store)
    requires Consistent(s) && Allowed(s, op) && Next(s, op, s')
    ensures Consistent(s')
    ensures TopListed(s) && !op.Prune? ==> TopListed(s')
  {
    match op
    case Put(block, info) =>
      if PutBlock(s, block, info).Ok? {
        PutBlockConsistent(s, block, info);
      }
    case Tag(tag, id) =>
      if PutTag(s, tag, id).Ok? {
        PutTagConsistent(s, tag, id);
      }
    case Prune(tip) =>
      PruneBranchRemovesRun(s, tip);
    case Flush(to, minNumber) =>
      if FlushTriggers(s, to, minNumber) {
        FlushedConsistent(s, s', to);
      }
  }

  /** Every reachable state is consistent. */
  lemma {:induction false} ReachableConsistent(root: Id, states: seq<Store>, ops: seq<Operation>, i: nat)
    requires Run(root, states, ops) && i < |states|
    ensures Consistent(states[i])
  {
    if i == 0 {
      EmptyStoreConsistent(root);
    } else {
      ReachableConsistent(root, states, ops, i - 1);
      NextConsistent(states[i - 1], ops[i - 1], states[i]);
    }
  }

  // ---- Tips ----

  lemma LeavesAreTips(s: Store, id: Id)
    requires Consistent(s) && TopListed(s)
    ensures id in s.tips <==> IsLeaf(s, id)
  {
  }

  /** If no branch was stale at any prune so far, the tips are exactly the leaves. */
  lemma {:induction false} ReachableTips(root: Id, states: seq<Store>, ops: seq<Operation>, i: nat, id: Id)
    requires Run(root, states, ops) && i < |states|
    requires forall j :: 0 <= j < i && ops[j].Prune? ==> NoStaleBranch(states[j])
    ensures TopListed(states[i])
    ensures id in states[i].tips <==> IsLeaf(states[i], id)
  {
    ReachableConsistent(root, states, ops, i);
    if i == 0 {
      EmptyStoreConsistent(root);
    } else {
      ReachableTips(root, states, ops, i - 1, id);
      ReachableConsistent(root, states, ops, i - 1);
      NextConsistent(states[i - 1], ops[i - 1], states[i]);
      if ops[i - 1].Prune? {
        PruneListsTop(states[i - 1], ops[i - 1].tip);
      }
    }
    LeavesAreTips(states[i], id);
  }

  /** Pruning the branch takes the last child of the last permanent block, while a block of
      another, stale branch stays at the same length. */
  ghost predicate TopHidden(s: Store, run: seq<Id>) {
    && |run| > 0
    && run[|run| - 1] in s.info
    && |s.permanent.ids| > 0
    && Children(s.info, Top(s)) == {run[|run| - 1]}
    && exists x :: x in s.info && x !in run && s.info[x].chainLength == |s.permanent.ids|
  }

  /** A prune keeps the last permanent block listed unless a stale branch hides it. */
  lemma PruneListsTopWhen(s: Store, tip: Id)
    requires Consistent(s) && TopListed(s) && tip in s.tips
    ensures PruneBranch(s, tip).Ok?
    ensures TopListed(PruneBranch(s, tip).value) <==> !TopHidden(s, FreeRun(s, tip, {}))
  {
    PruneBranchRemovesRun(s, tip);
    assert IsLeaf(s, tip);
    if tip in s.info && |s.permanent.ids| > 0 {
      PruneTopTips(s, tip);
      PruneTopChildren(s, PruneBranch(s, tip).value, tip);
      TopChildrenGone(s, FreeRun(s, tip, {}));
    }
  }

  lemma TopChildrenGone(s: Store, run: seq<Id>)
    requires s.permanent.Consistent() && |s.permanent.ids| > 0
    ensures var C := Children(s.info, Top(s)); var hit := RunEnd(s, run) == HitPermanentStore(Top(s));
            C != {} ==> ((C - (if hit then {run[|run| - 1]} else {}) == {}) <==>
                          |run| > 0 && run[|run| - 1] in s.info && C == {run[|run| - 1]})
  {
  }

  /** Whether the last permanent block is a tip after the prune. */
  lemma PruneTopTips(s: Store, tip: Id)
    requires Consistent(s) && tip in s.tips && tip in s.info && Children(s.info, tip) == {}
    ensures PruneBranch(s, tip).Ok?
    ensures var run := FreeRun(s, tip, {}); var s' := PruneBranch(s, tip).value;
            && (|s.permanent.ids| > 0 ==>
                 (Top(s) in s'.tips <==>
                  || Top(s) in s.tips
                  || (RunEnd(s, run) == HitPermanentStore(Top(s)) &&
                      forall x :: x in s.info && x !in run ==> s.info[x].chainLength != |s.permanent.ids|)))
  {
    RemoveTipsRemovesRun(s, tip);
    var removal := RemoveTips(s, tip).value;
    if removal.result.HitPermanentStore? {
      ListPermanentTipEffect(removal.store, removal.result.id);
      if |s.permanent.ids| > 0 {
        AboveTop(s, removal.store, FreeRun(s, tip, {}));
      }
    }
  }

  lemma AboveTop(s: Store, s': Store, run: seq<Id>)
    requires Consistent(s) && RunRemoved(s, s', run) && |s.permanent.ids| > 0
    ensures NothingAbove(s', Top(s)) <==> forall x :: x in s.info && x !in run ==> s.info[x].chainLength != |s.permanent.ids|
  {
  }

  /** Which children of the last permanent block remain after the prune. */
  lemma PruneTopChildren(s: Store, s': Store, tip: Id)
    requires Consistent(s) && tip in s.info && |s.permanent.ids| > 0
    requires RunRemoved(s, s', FreeRun(s, tip, {}))
    ensures var run := FreeRun(s, tip, {});
            && Children(s'.info, Top(s)) ==
               Children(s.info, Top(s)) - if RunEnd(s, run) == HitPermanentStore(Top(s)) then {run[|run| - 1]} else {}
  {
    var run := FreeRun(s, tip, {});
    forall c | c in Children(s.info, Top(s)) && c in run ensures c == run[|run| - 1] {
      RunParent(s, tip, c);
    }
    RunEndAtTop(s, run);
    assert forall c :: c in Children(s'.info, Top(s)) <==> c in Children(s.info, Top(s)) && c !in run;
  }

  lemma RunEndAtTop(s: Store, run: seq<Id>)
    requires s.permanent.Consistent() && |s.permanent.ids| > 0
    ensures RunEnd(s, run) == HitPermanentStore(Top(s)) <==>
            run != [] && run[|run| - 1] in Children(s.info, Top(s))
  {
  }

  /** A block of the run is its last one, or its parent is volatile. */
  lemma RunParent(s: Store, tip: Id, c: Id)
    requires LinksOk(s) && c in FreeRun(s, tip, {})
    ensures c in s.info
    ensures c == FreeRun(s, tip, {})[|FreeRun(s, tip, {})| - 1] || s.info[c].parentId in s.info
  {
    var run := FreeRun(s, tip, {});
    FreeRunIsLongest(s, tip, {}, []);
    var i :| 0 <= i < |run| && run[i] == c;
    assert FreeAt(s, tip, {}, run, i);
    if i + 1 < |run| {
      assert FreeAt(s, tip, {}, run, i + 1);
    }
  }

  /** Without a stale branch a prune keeps the last permanent block listed. */
  lemma PruneListsTop(s: Store, tip: Id)
    requires Consistent(s) && TopListed(s) && NoStaleBranch(s)
    ensures TopListed(Committed(s, PruneBranch(s, tip)))
  {
    PruneBranchRemovesRun(s, tip);
    if tip in s.tips {
      PruneListsTopWhen(s, tip);
      forall x | |s.permanent.ids| > 0 && x in s.info && s.info[x].chainLength == |s.permanent.ids|
        ensures x in Children(s.info, Top(s))
      {
        LowestIsChild(s, x);
      }
    }
  }

  lemma LowestIsChild(s: Store, x: Id)
    requires Consistent(s) && NoStaleBranch(s) && |s.permanent.ids| > 0
    requires x in s.info && s.info[x].chainLength <= |s.permanent.ids|
    ensures s.info[x].parentId == Top(s)
  {
    NoStaleFork(s, x);
    if s.info[x].parentId in s.info {
      NoStaleFork(s, s.info[x].parentId);
      ParentExists(s, x);
    }
  }

  // ---- What no operation can undo ----

  /** The permanent part of `s'` continues that of `s`. */
  ghost predicate PermanentGrows(s: Store, s': Store) {
    s'.root == s.root && Grows(s.permanent, s'.permanent)
  }

  lemma NextPermanentGrows(s: Store, op: Operation, s': Store)
    requires Consistent(s) && Allowed(s, op) && Next(s, op, s')
    ensures PermanentGrows(s, s')
  {
    match op
    case Prune(tip) =>
      PruneBranchRemovesRun(s, tip);
    case Flush(to, minNumber) =>
      if FlushTriggers(s, to, minNumber) {
        AppendedGrows(s, to);
      }
    case _ =>
  }

  lemma StepPermanentGrows(root: Id, states: seq<Store>, ops: seq<Operation>, i: nat)
    requires Run(root, states, ops) && i + 1 < |states|
    ensures PermanentGrows(states[i], states[i + 1])
  {
    ReachableConsistent(root, states, ops, i);
    NextPermanentGrows(states[i], ops[i], states[i + 1]);
  }

  lemma {:induction false} RunPermanentGrows(root: Id, states: seq<Store>, ops: seq<Operation>, i: nat, j: nat)
    requires Run(root, states, ops) && i <= j < |states|
    ensures PermanentGrows(states[i], states[j])
    decreases j - i
  {
    if i < j {
      RunPermanentGrows(root, states, ops, i, j - 1);
      StepPermanentGrows(root, states, ops, j - 1);
      PermanentGrowsTransitive(states[i], states[j - 1], states[j]);
    }
  }

  lemma PermanentGrowsTransitive(s0: Store, s1: Store, s2: Store)
    requires PermanentGrows(s0, s1) && PermanentGrows(s1, s2)
    ensures PermanentGrows(s0, s2)
  {
  }

  /** Once a block is permanent, every later read of it gives the same answers. */
  lemma PermanentForever(root: Id, states: seq<Store>, ops: seq<Operation>, i: nat, j: nat, id: Id)
    requires Run(root, states, ops) && i <= j < |states|
    requires id in states[i].permanent.index
    ensures GetBlock(states[i], id).Ok? && GetBlock(states[j], id) == GetBlock(states[i], id)
    ensures GetBlockInfo(states[i], id).Ok? && GetBlockInfo(states[j], id) == GetBlockInfo(states[i], id)
  {
    ReachableConsistent(root, states, ops, i);
    RunPermanentGrows(root, states, ops, i, j);
  }

  /** A block that an operation does not remove keeps its contents and its metadata. */
  lemma NextKeepsBlock(s: Store, op: Operation, s': Store, id: Id)
    requires Consistent(s) && Allowed(s, op) && Next(s, op, s')
    requires BlockExists(s, id) && (op.Prune? ==> BlockExists(s', id))
    ensures GetBlock(s', id) == GetBlock(s, id)
    ensures SameHeader(GetBlockInfo(s', id), GetBlockInfo(s, id))
  {
    if op.Flush? {
      if FlushTriggers(s, op.to, op.minNumber) {
        FlushedIsMidFlush(s, s', op.to);
        MidFlushInvisible(s, s', op.to);
      }
    } else {
      NextKeepsVolatile(s, op, s', id);
    }
  }

  /** The metadata and contents of a volatile block are as before. */
  ghost predicate SameVolatile(s: Store, s': Store, id: Id) {
    && s'.permanent == s.permanent && s'.root == s.root
    && (id in s.info ==>
          && id in s'.info && s'.info[id].Header() == s.info[id].Header()
          && (id in s.blocks ==> id in s'.blocks && s'.blocks[id] == s.blocks[id]))
  }

  lemma PutKeepsVolatile(s: Store, block: Value, info: BlockInfo, id: Id)
    requires Consistent(s) && WellFormedInfo(s, info) && PutBlock(s, block, info).Ok?
    ensures SameVolatile(s, PutBlock(s, block, info).value, id)
  {
    PutBlockExtends(s, block, info);
  }

  lemma TagKeepsVolatile(s: Store, tag: string, id: Id, x: Id)
    requires PutTag(s, tag, id).Ok? && LinksOk(s)
    ensures SameVolatile(s, PutTag(s, tag, id).value, x)
  {
  }

  lemma PruneKeepsVolatile(s: Store, tip: Id, id: Id)
    requires Consistent(s) && tip in s.tips
    ensures PruneBranch(s, tip).Ok?
    ensures var s' := PruneBranch(s, tip).value; BlockExists(s', id) ==> SameVolatile(s, s', id)
  {
    PruneBranchRemovesRun(s, tip);
  }

  lemma NextKeepsVolatile(s: Store, op: Operation, s': Store, id: Id)
    requires Consistent(s) && Allowed(s, op) && Next(s, op, s') && !op.Flush?
    requires BlockExists(s, id) && (op.Prune? ==> BlockExists(s', id))
    ensures SameVolatile(s, s', id)
  {
    match op
    case Put(block, info) =>
      if PutBlock(s, block, info).Ok? {
        PutKeepsVolatile(s, block, info, id);
      }
    case Tag(tag, target) =>
      if PutTag(s, tag, target).Ok? {
        TagKeepsVolatile(s, tag, target, id);
      }
    case Prune(tip) =>
      if tip in s.tips {
        PruneKeepsVolatile(s, tip, id);
      }
  }

  /** A prune never removes a tagged block or an ancestor of a block that stays. */
  lemma PruneSpares(s: Store, tip: Id, id: Id)
    requires Consistent(s) && tip in s.tips && id in s.info
    ensures PruneBranch(s, tip).Ok?
    ensures TagsOf(s.tags, id) != {} ==> id in PruneBranch(s, tip).value.info
    ensures Children(PruneBranch(s, tip).value.info, id) != {} ==> id in PruneBranch(s, tip).value.info
  {
    PruneBranchRemovesRun(s, tip);
    var s', run := PruneBranch(s, tip).value, FreeRun(s, tip, {});
    FreeRunIsLongest(s, tip, {}, []);
    if id in run {
      var i :| 0 <= i < |run| && run[i] == id;
      assert FreeAt(s, tip, {}, run, i);
      assert Children(s'.info, id) <= Children(s.info, id) <= set c | c in run;
      assert forall c :: c in Children(s'.info, id) ==> c !in run;
    }
  }

  /** A tag on a permanent block can never be moved again: every later attempt fails. */
  lemma {:induction false} TagStuck(root: Id, states: seq<Store>, ops: seq<Operation>, i: nat, j: nat, tag: string)
    requires Run(root, states, ops) && i <= j < |states|
    requires Stuck(states[i], tag)
    ensures Stuck(states[j], tag) && states[j].tags[tag] == states[i].tags[tag]
    ensures forall id :: !PutTag(states[j], tag, id).Ok?
    decreases j - i
  {
    if i < j {
      TagStuck(root, states, ops, i, j - 1, tag);
      StepKeepsStuckTag(root, states, ops, j - 1, tag);
    }
    StuckFails(root, states, ops, j, tag);
  }

  /** Only setting a tag changes the tags, and only that one. */
  lemma NextTags(s: Store, op: Operation, s': Store)
    requires Consistent(s) && Allowed(s, op) && Next(s, op, s')
    ensures s'.tags == if op.Tag? && PutTag(s, op.tag, op.id).Ok? then s.tags[op.tag := op.id] else s.tags
  {
    match op
    case Put(block, info) =>
      if PutBlock(s, block, info).Ok? {
        PutBlockReads(s, block, info);
      }
    case Tag(tag, id) =>
      if PutTag(s, tag, id).Ok? {
        PutTagSets(s, tag, id);
      }
    case Prune(tip) =>
      PruneBranchRemovesRun(s, tip);
    case Flush(_, _) =>
  }

  /** The step sets the tag. */
  predicate Sets(s: Store, op: Operation, tag: string) {
    op.Tag? && op.tag == tag && PutTag(s, tag, op.id).Ok?
  }

  /** What the tag resolves to, if it is set. */
  function Resolved(s: Store, tag: string): Option<Id> {
    if tag in s.tags then Some(s.tags[tag]) else None
  }

  lemma StepResolved(root: Id, states: seq<Store>, ops: seq<Operation>, n: nat, tag: string)
    requires Run(root, states, ops) && n < |ops|
    ensures Resolved(states[n + 1], tag) == if Sets(states[n], ops[n], tag) then Some(ops[n].id) else Resolved(states[n], tag)
  {
    ReachableConsistent(root, states, ops, n);
    assert Step(states[n], ops[n], states[n + 1]);
    NextTags(states[n], ops[n], states[n + 1]);
  }

  /** A value that only settings change is that of the last setting. */
  lemma {:induction false} LastSetting(values: seq<Option<Id>>, sets: seq<bool>, ids: seq<Id>, i: nat, j: nat)
    requires |values| == |sets| + 1 && |ids| == |sets| && i < j < |values|
    requires forall n, m :: 0 <= n && m == n + 1 && m < |values| ==>
               values[m] == if sets[n] then Some(ids[n]) else values[n]
    requires sets[i] && forall n :: i < n < j ==> !sets[n]
    ensures values[j] == Some(ids[i])
    decreases j
  {
    if i + 1 < j {
      LastSetting(values, sets, ids, i, j - 1);
    }
  }

  /** A tag that was set resolves to its block until the next successful setting of the same tag. */
  lemma TagResolves(root: Id, states: seq<Store>, ops: seq<Operation>, i: nat, j: nat, tag: string)
    requires Run(root, states, ops) && i < j < |states| && Sets(states[i], ops[i], tag)
    requires forall n :: i < n < j ==> !Sets(states[n], ops[n], tag)
    ensures Resolved(states[j], tag) == Some(ops[i].id)
  {
    var values := seq(|states|, n requires 0 <= n < |states| => Resolved(states[n], tag));
    var sets := seq(|ops|, n requires 0 <= n < |ops| => Sets(states[n], ops[n], tag));
    var ids := seq(|ops|, n requires 0 <= n < |ops| => if ops[n].Tag? then ops[n].id else root);
    forall n, m | 0 <= n && m == n + 1 && m < |values| ensures values[m] == if sets[n] then Some(ids[n]) else values[n] {
      StepResolved(root, states, ops, n, tag);
    }
    LastSetting(values, sets, ids, i, j);
  }

  /** What a tag resolves to is stored. */
  lemma ResolvedExists(root: Id, states: seq<Store>, ops: seq<Operation>, i: nat, tag: string)
    requires Run(root, states, ops) && i < |states|
    ensures Resolved(states[i], tag).Some? ==> BlockExists(states[i], Resolved(states[i], tag).value)
  {
    ReachableConsistent(root, states, ops, i);
  }

  /** A block that was put is found with its contents as long as no prune removes it. */
  lemma {:induction false} PutIsFound(root: Id, states: seq<Store>, ops: seq<Operation>, i: nat, j: nat)
    requires Run(root, states, ops) && i < j < |states|
    requires ops[i].Put? && PutBlock(states[i], ops[i].block, ops[i].info).Ok?
    requires forall n :: i < n < j && ops[n].Prune? ==> BlockExists(states[n + 1], ops[i].info.id)
    ensures BlockExists(states[j], ops[i].info.id) && GetBlock(states[j], ops[i].info.id) == Ok(ops[i].block)
    ensures SameHeader(GetBlockInfo(states[j], ops[i].info.id), Ok(ops[i].info))
    decreases j - i
  {
    var id := ops[i].info.id;
    ReachableConsistent(root, states, ops, j - 1);
    assert Step(states[j - 1], ops[j - 1], states[j]);
    if i + 1 < j {
      PutIsFound(root, states, ops, i, j - 1);
      NextKeepsBlock(states[j - 1], ops[j - 1], states[j], id);
      ReachableConsistent(root, states, ops, j);
      FoundExists(states[j], id);
    } else {
      PutBlockReads(states[i], ops[i].block, ops[i].info);
    }
  }

  lemma FoundExists(s: Store, id: Id)
    requires LinksOk(s) && GetBlock(s, id).Ok?
    ensures BlockExists(s, id)
  {
  }

  predicate Stuck(s: Store, tag: string) {
    tag in s.tags && s.tags[tag] in s.permanent.index
  }

  lemma StepKeepsStuckTag(root: Id, states: seq<Store>, ops: seq<Operation>, i: nat, tag: string)
    requires Run(root, states, ops) && i + 1 < |states| && Stuck(states[i], tag)
    ensures Stuck(states[i + 1], tag) && states[i + 1].tags[tag] == states[i].tags[tag]
  {
    ReachableConsistent(root, states, ops, i);
    StepPermanentGrows(root, states, ops, i);
    NextKeepsStuckTag(states[i], ops[i], states[i + 1], tag);
  }

  lemma StuckFails(root: Id, states: seq<Store>, ops: seq<Operation>, i: nat, tag: string)
    requires Run(root, states, ops) && i < |states| && Stuck(states[i], tag)
    ensures forall id :: !PutTag(states[i], tag, id).Ok?
  {
    ReachableConsistent(root, states, ops, i);
    forall id ensures !PutTag(states[i], tag, id).Ok? {
      PutTagOutcome(states[i], tag, id);
    }
  }

  lemma NextKeepsStuckTag(s: Store, op: Operation, s': Store, tag: string)
    requires Consistent(s) && Allowed(s, op) && Next(s, op, s')
    requires tag in s.tags && s.tags[tag] in s.permanent.index
    ensures tag in s'.tags && s'.tags[tag] == s.tags[tag]
  {
    match op
    case Tag(t, id) =>
      PutTagOutcome(s, t, id);
    case Prune(tip) =>
      PruneBranchRemovesRun(s, tip);
    case _ =>
  }
}
