/** Moving a branch to the permanent part: the effect of the whole operation, why it
    keeps the store consistent, and why readers cannot see it happen. */
module StorageFlush {
  import opened Wrappers
  import opened StorageState

  /** The volatile blocks met when following parent links from `id`. */
  function Branch(s: Store, id: Id): seq<Id>
    requires LinksOk(s)
    decreases if id in s.info then s.info[id].chainLength + 1 else 0
  {
    if id in s.info then
      assert Linked(s, s.info[id].parentId, s.info[id].chainLength);
      [id] + Branch(s, s.info[id].parentId)
    else
      []
  }

  lemma {:induction false} BranchShape(s: Store, id: Id)
    requires LinksOk(s)
    ensures var branch := Branch(s, id);
            && (forall i :: 0 <= i < |branch| ==> branch[i] in s.info)
            && (|branch| > 0 <==> id in s.info)
            && (|branch| > 0 ==> branch[0] == id && s.info[branch[|branch| - 1]].parentId !in s.info)
            && (forall i :: 0 < i < |branch| ==> branch[i] == s.info[branch[i - 1]].parentId)
            && (forall i :: 0 <= i < |branch| ==> s.info[branch[i]].chainLength == s.info[id].chainLength - i)
    decreases |Branch(s, id)|
  {
    if id in s.info {
      var parentId := s.info[id].parentId;
      assert Linked(s, parentId, s.info[id].chainLength);
      BranchShape(s, parentId);
      assert Branch(s, id) == [id] + Branch(s, parentId);
    }
  }

  lemma BranchIsVolatile(s: Store, to: Id)
    requires LinksOk(s)
    ensures forall id :: id in Branch(s, to) ==> id in s.info && id in s.blocks && id !in s.permanent.index
  {
    BranchShape(s, to);
  }

  /** A branch that descends from the last permanent block, as a caller of the flush promises. */
  ghost predicate Attached(s: Store, branch: seq<Id>) {
    && |branch| > 0
    && branch[|branch| - 1] in s.info
    && s.info[branch[|branch| - 1]].parentId == Top(s)
  }

  /** Whether a flush of at least `minNumber` blocks up to `to` goes ahead. */
  predicate FlushTriggers(s: Store, to: Id, minNumber: nat)
    requires LinksOk(s)
  {
    && to in s.info
    && minNumber <= s.info[to].chainLength
    && EntriesAt(s, s.info[to].chainLength - minNumber) != {}
    && minNumber <= |Branch(s, to)|
  }

  /** `s'` is `s` with the blocks of `branch`, listed from the newest to the oldest, moved
      to the permanent part. The length index loses the entries that pair the i-th newest
      block with the i-th lowest length. */
  ghost predicate Flushed(s: Store, s': Store, branch: seq<Id>) {
    && (forall i :: 0 <= i < |branch| ==> branch[i] in s.info && branch[i] in s.blocks)
    && s'.root == s.root && s'.tags == s.tags && s'.tips == s.tips
    && s'.permanent == AppendedPermanent(s, branch)
    && (forall id :: id in s'.info <==> id in s.info && id !in branch)
    && (forall id :: id in s'.info ==> s'.info[id] == s.info[id])
    && (forall id :: id in s'.blocks <==> id in s.blocks && id !in branch)
    && (forall id :: id in s'.blocks ==> s'.blocks[id] == s.blocks[id])
    && (forall e :: e in s'.lengths <==> e in s.lengths && !Unlisted(s, branch, e))
  }

  function AppendedPermanent(s: Store, branch: seq<Id>): Permanent
    requires forall i :: 0 <= i < |branch| ==> branch[i] in s.info && branch[i] in s.blocks
  {
    Permanent(
      s.permanent.blocks + OldestContents(s.blocks, branch),
      s.permanent.ids + OldestFirst(branch),
      s.permanent.index + map id | id in branch :: s.info[id].chainLength)
  }

  function OldestFirst(branch: seq<Id>): seq<Id> {
    seq(|branch|, i requires 0 <= i < |branch| => branch[|branch| - 1 - i])
  }

  function OldestContents(blocks: map<Id, Value>, branch: seq<Id>): seq<Value>
    requires forall i :: 0 <= i < |branch| ==> branch[i] in blocks
  {
    seq(|branch|, i requires 0 <= i < |branch| => blocks[branch[|branch| - 1 - i]])
  }

  /** The entries of the length index that the flush removes. */
  predicate Unlisted(s: Store, branch: seq<Id>, e: LengthEntry)
    requires forall i :: 0 <= i < |branch| ==> branch[i] in s.info
  {
    exists i :: 0 <= i < |branch| && e.id == branch[i] && e.chainLength == s.info[branch[|branch| - 1]].chainLength + i
  }

  // ---- Consistency ----

  /** The lengths of an attached branch continue those of the permanent part. */
  lemma AttachedLengths(s: Store, to: Id)
    requires s.permanent.Consistent() && LinksOk(s) && Attached(s, Branch(s, to))
    ensures var branch := Branch(s, to);
            forall i :: 0 <= i < |branch| ==>
              branch[i] in s.info && s.info[branch[i]].chainLength == |s.permanent.ids| + |branch| - 1 - i
  {
    BranchShape(s, to);
    var last := Branch(s, to)[|Branch(s, to)| - 1];
    assert Linked(s, s.info[last].parentId, s.info[last].chainLength);
  }

  lemma FlushedPermanent(s: Store, s': Store, to: Id)
    requires s.permanent.Consistent() && LinksOk(s) && Attached(s, Branch(s, to))
    requires Flushed(s, s', Branch(s, to))
    ensures s'.permanent.Consistent()
  {
    BranchIsVolatile(s, to);
    AppendedConsistent(s, to);
  }

  lemma AppendedConsistent(s: Store, to: Id)
    requires s.permanent.Consistent() && LinksOk(s) && Attached(s, Branch(s, to))
    requires forall x :: x in Branch(s, to) ==> x in s.info && x in s.blocks
    ensures AppendedPermanent(s, Branch(s, to)).Consistent()
  {
    var p := AppendedPermanent(s, Branch(s, to));
    AttachedLengths(s, to);
    forall i | 0 <= i < |p.ids| ensures p.ids[i] in p.index && p.index[p.ids[i]] == i {
      AppendedAt(s, to, i);
    }
    forall id | id in p.index ensures p.index[id] < |p.ids| && p.ids[p.index[id]] == id {
      AppendedIndex(s, to, id);
    }
  }

  lemma AppendedAt(s: Store, to: Id, i: nat)
    requires s.permanent.Consistent() && LinksOk(s) && Attached(s, Branch(s, to))
    requires forall x :: x in Branch(s, to) ==> x in s.info && x in s.blocks
    requires i < |AppendedPermanent(s, Branch(s, to)).ids|
    ensures var p := AppendedPermanent(s, Branch(s, to)); p.ids[i] in p.index && p.index[p.ids[i]] == i
  {
    var branch, p := Branch(s, to), s.permanent;
    if i < |p.ids| {
      assert AppendedPermanent(s, branch).ids[i] == p.ids[i] && p.ids[i] !in branch;
    } else {
      FlushedEntry(s, to, |branch| - 1 - (i - |p.ids|));
    }
  }

  lemma AppendedIndex(s: Store, to: Id, id: Id)
    requires s.permanent.Consistent() && LinksOk(s) && Attached(s, Branch(s, to))
    requires forall x :: x in Branch(s, to) ==> x in s.info && x in s.blocks
    requires id in AppendedPermanent(s, Branch(s, to)).index
    ensures var p := AppendedPermanent(s, Branch(s, to)); p.index[id] < |p.ids| && p.ids[p.index[id]] == id
  {
    var branch := Branch(s, to);
    if id in branch {
      var j :| 0 <= j < |branch| && branch[j] == id;
      FlushedEntry(s, to, j);
    }
  }

  /** Where a block of the branch ends up in the permanent part. */
  lemma FlushedEntry(s: Store, to: Id, j: nat)
    requires s.permanent.Consistent() && LinksOk(s) && Attached(s, Branch(s, to))
    requires j < |Branch(s, to)|
    ensures var branch := Branch(s, to); var i := |s.permanent.ids| + |branch| - 1 - j;
            && (forall x :: x in branch ==> x in s.info && x in s.blocks)
            && branch[j] in AppendedPermanent(s, branch).index
            && AppendedPermanent(s, branch).index[branch[j]] == i
            && AppendedPermanent(s, branch).ids[i] == branch[j]
            && AppendedPermanent(s, branch).blocks[i] == s.blocks[branch[j]]
  {
    BranchShape(s, to);
    AttachedLengths(s, to);
  }

  lemma FlushedLinks(s: Store, s': Store, to: Id)
    requires LinksOk(s) && Flushed(s, s', Branch(s, to))
    ensures LinksOk(s')
  {
    forall x | x in s'.info ensures Linked(s', s'.info[x].parentId, s'.info[x].chainLength) {
      assert Linked(s, s.info[x].parentId, s.info[x].chainLength);
    }
  }

  /** The parent of a block of the branch is in the branch, or not volatile. */
  lemma BranchParent(s: Store, to: Id, c: Id)
    requires LinksOk(s) && c in Branch(s, to)
    ensures c in s.info && s.info[c].parentId != to
    ensures s.info[c].parentId in Branch(s, to) || s.info[c].parentId !in s.info
  {
    var branch := Branch(s, to);
    BranchShape(s, to);
    var i :| 0 <= i < |branch| && branch[i] == c;
    assert Linked(s, s.info[c].parentId, s.info[c].chainLength);
    if i + 1 < |branch| {
      assert branch[i + 1] == s.info[c].parentId;
    }
  }

  /** Blocks outside the branch keep their children. */
  lemma FlushedChildren(s: Store, s': Store, to: Id, x: Id)
    requires LinksOk(s) && Flushed(s, s', Branch(s, to))
    requires x in s'.info || x == to
    ensures Children(s'.info, x) == Children(s.info, x)
  {
    forall c | c in Branch(s, to) ensures s.info[c].parentId != x {
      BranchParent(s, to, c);
    }
  }

  lemma FlushedCounts(s: Store, s': Store, to: Id)
    requires LinksOk(s) && CountsOk(s) && TagsOk(s) && Flushed(s, s', Branch(s, to))
    ensures CountsOk(s') && TagsOk(s')
  {
    forall x | x in s'.info ensures s'.info[x].parentRefCount == |Children(s'.info, x)| {
      FlushedChildren(s, s', to, x);
    }
  }

  lemma FlushedIndex(s: Store, s': Store, to: Id)
    requires LinksOk(s) && LengthsOk(s) && Flushed(s, s', Branch(s, to))
    ensures LengthsOk(s')
  {
    forall e | e in s'.lengths ensures BlockExists(s', e.id) && LengthOf(s', e.id) == e.chainLength {
      assert LengthOf(s, e.id) == e.chainLength;
    }
  }

  lemma FlushedTips(s: Store, s': Store, to: Id)
    requires s.permanent.Consistent() && LinksOk(s) && TipsOk(s)
    requires Attached(s, Branch(s, to)) && Flushed(s, s', Branch(s, to))
    ensures TipsOk(s') && TopListed(s')
  {
    var branch := Branch(s, to);
    BranchShape(s, to);
    forall t | t in s'.tips ensures IsLeaf(s', t) {
      assert IsLeaf(s, t);
      FlushedTip(s, s', to, t);
    }
    forall x | x in s'.info && Children(s'.info, x) == {} ensures x in s'.tips {
      FlushedChildren(s, s', to, x);
    }
    FlushedChildren(s, s', to, to);
    assert Top(s') == to;
  }

  lemma FlushedTip(s: Store, s': Store, to: Id, t: Id)
    requires s.permanent.Consistent() && LinksOk(s) && IsLeaf(s, t)
    requires Attached(s, Branch(s, to)) && Flushed(s, s', Branch(s, to))
    ensures IsLeaf(s', t)
  {
    BranchNotLeaves(s, to);
    BranchShape(s, to);
    assert Children(s'.info, t) <= Children(s.info, t);
    if t in Branch(s, to) {
      assert t == to;
      FlushedEntry(s, to, 0);
    } else {
      assert t != Top(s);
      assert t in s.info;
    }
  }

  /** Flushing `to` covers blocks that have a child, apart from `to` itself. */
  lemma BranchNotLeaves(s: Store, to: Id)
    requires LinksOk(s) && Attached(s, Branch(s, to))
    ensures var branch := Branch(s, to);
            && branch[0] == to
            && (forall x :: x in branch && x != to ==> Children(s.info, x) != {})
            && branch[|branch| - 1] in Children(s.info, Top(s))
  {
    var branch := Branch(s, to);
    BranchShape(s, to);
    forall x | x in branch && x != to ensures Children(s.info, x) != {} {
      var i :| 0 <= i < |branch| && branch[i] == x;
      assert branch[i - 1] in Children(s.info, x);
    }
  }

  lemma FlushedConsistent(s: Store, s': Store, to: Id)
    requires Consistent(s) && Attached(s, Branch(s, to)) && Flushed(s, s', Branch(s, to))
    ensures Consistent(s') && TopListed(s')
  {
    FlushedPermanent(s, s', to);
    FlushedLinks(s, s', to);
    FlushedCounts(s, s', to);
    FlushedIndex(s, s', to);
    FlushedTips(s, s', to);
  }

  /** A flush keeps the store consistent exactly if the branch descends from the last permanent
      block. */
  lemma FlushedConsistentWhen(s: Store, s': Store, to: Id)
    requires Consistent(s) && to in s.info && Flushed(s, s', Branch(s, to))
    ensures Consistent(s') <==> Attached(s, Branch(s, to))
  {
    if Attached(s, Branch(s, to)) {
      FlushedConsistent(s, s', to);
    }
    if s'.permanent.Consistent() {
      ConsistentIsAttached(s, s', to);
    }
  }

  lemma ConsistentIsAttached(s: Store, s': Store, to: Id)
    requires s.permanent.Consistent() && LinksOk(s) && to in s.info
    requires Flushed(s, s', Branch(s, to)) && s'.permanent.Consistent()
    ensures Attached(s, Branch(s, to))
  {
    OldestLength(s, Branch(s, to));
    OldestParent(s, to);
  }

  /** The oldest block of a branch sits on the last permanent block if its length is the next one. */
  lemma OldestParent(s: Store, to: Id)
    requires s.permanent.Consistent() && LinksOk(s) && to in s.info
    ensures var branch := Branch(s, to);
            && |branch| > 0 && branch[|branch| - 1] in s.info
            && (s.info[branch[|branch| - 1]].chainLength == |s.permanent.ids| ==> Attached(s, branch))
  {
    var branch := Branch(s, to);
    BranchEnds(s, to);
    var last := s.info[branch[|branch| - 1]];
    if last.chainLength == |s.permanent.ids| {
      LinkedAtTop(s, last.parentId);
    }
  }

  lemma BranchEnds(s: Store, to: Id)
    requires LinksOk(s) && to in s.info
    ensures var branch := Branch(s, to);
            && |branch| > 0 && branch[|branch| - 1] in s.info
            && var last := s.info[branch[|branch| - 1]];
               last.parentId !in s.info && Linked(s, last.parentId, last.chainLength)
  {
    BranchShape(s, to);
  }

  lemma LinkedAtTop(s: Store, parentId: Id)
    requires s.permanent.Consistent() && parentId !in s.info && Linked(s, parentId, |s.permanent.ids|)
    ensures parentId == Top(s)
  {
  }

  /** Where a consistent permanent part has the oldest block of the branch. */
  lemma OldestLength(s: Store, branch: seq<Id>)
    requires |branch| > 0 && forall i :: 0 <= i < |branch| ==> branch[i] in s.info && branch[i] in s.blocks
    requires AppendedPermanent(s, branch).Consistent()
    ensures s.info[branch[|branch| - 1]].chainLength == |s.permanent.ids|
  {
    var p := AppendedPermanent(s, branch);
    assert p.ids[|s.permanent.ids|] == OldestFirst(branch)[0] == branch[|branch| - 1];
  }

  // ---- What stays in the length index ----

  /** Ids and lengths are paired in opposite orders, so of all the entries of the branch only that of
      its middle block goes, if there is one. Entries of other blocks stay. */
  lemma LeftoverEntries(s: Store, s': Store, to: Id)
    requires LinksOk(s) && LengthsOk(s) && to in s.info && Flushed(s, s', Branch(s, to))
    ensures var branch := Branch(s, to);
            && (forall i :: 0 <= i < |branch| ==>
                  branch[i] in s.info &&
                  (LengthEntry(s.info[branch[i]].chainLength, branch[i]) in s'.lengths <==> 2 * i != |branch| - 1))
            && (forall e :: e in s.lengths && e.id !in branch ==> e in s'.lengths)
            && (forall e :: e in s'.lengths ==> e in s.lengths)
  {
    var branch := Branch(s, to);
    BranchShape(s, to);
    forall i | 0 <= i < |branch|
      ensures LengthEntry(s.info[branch[i]].chainLength, branch[i]) in s'.lengths <==> 2 * i != |branch| - 1
    {
      var e := LengthEntry(s.info[branch[i]].chainLength, branch[i]);
      assert e in s.lengths;
      BranchDistinct(s, to, i);
      if 2 * i == |branch| - 1 {
        assert Unlisted(s, branch, e);
      }
    }
  }

  lemma BranchDistinct(s: Store, to: Id, i: nat)
    requires LinksOk(s) && i < |Branch(s, to)|
    ensures forall j :: 0 <= j < |Branch(s, to)| && Branch(s, to)[j] == Branch(s, to)[i] ==> j == i
  {
    BranchShape(s, to);
  }

  // ---- What readers see ----

  /** Every read of a block or of its metadata gives the same answer in both stores. */
  ghost predicate ReadersAgree(s: Store, t: Store) {
    forall id ::
      && GetBlock(t, id) == GetBlock(s, id)
      && SameHeader(GetBlockInfo(t, id), GetBlockInfo(s, id))
  }

  predicate SameHeader(a: Result<BlockInfo, Error>, b: Result<BlockInfo, Error>) {
    if a.Ok? && b.Ok? then a.value.Header() == b.value.Header() else a == b
  }

  /** A store in the middle of a flush: some writes are done, the remaining ones are not. */
  ghost predicate MidFlush(s: Store, t: Store, branch: seq<Id>) {
    && t.root == s.root && t.tags == s.tags && t.tips == s.tips
    && (forall i :: 0 <= i < |branch| ==> branch[i] in s.info && branch[i] in s.blocks)
    && PermanentPart(s.permanent, t.permanent, AppendedPermanent(s, branch))
    && (forall id :: id in t.info ==> id in s.info && t.info[id] == s.info[id])
    && (forall id :: id in t.blocks ==> id in s.blocks && t.blocks[id] == s.blocks[id])
    && (forall id :: id in s.info && id !in t.info ==> id in t.permanent.index)
    && (forall id :: id in s.blocks && id !in t.blocks ==> id in t.permanent.index)
  }

  /** `p` lies between `before` and `after`; it indexes a new block only once both files
      are complete. */
  ghost predicate PermanentPart(before: Permanent, p: Permanent, after: Permanent) {
    && (p.blocks == before.blocks || p.blocks == after.blocks)
    && (p.ids == before.ids || p.ids == after.ids)
    && (forall id :: id in before.index ==> id in p.index)
    && (forall id :: id in p.index ==> id in after.index && p.index[id] == after.index[id])
    && (forall id :: id in p.index && id !in before.index ==> p.blocks == after.blocks && p.ids == after.ids)
  }

  /** At no point of a flush does a reader see a difference. */
  lemma MidFlushInvisible(s: Store, t: Store, to: Id)
    requires s.permanent.Consistent() && LinksOk(s) && Attached(s, Branch(s, to))
    requires MidFlush(s, t, Branch(s, to))
    ensures ReadersAgree(s, t)
  {
    forall id
      ensures GetBlock(t, id) == GetBlock(s, id)
      ensures SameHeader(GetBlockInfo(t, id), GetBlockInfo(s, id))
    {
      if id in s.permanent.index {
        IndexedBefore(s, t, to, id);
      } else if id in t.permanent.index {
        IndexedDuring(s, t, to, id);
      }
    }
  }

  /** A reader looks into the permanent part first and into the volatile part later. */
  function GetBlockAcross(t1: Store, t2: Store, id: Id): Result<Value, Error> {
    match t1.permanent.GetBlock(id)
    case Some(block) => Ok(block)
    case None => if id in t2.blocks then Ok(t2.blocks[id]) else Err(BlockNotFound)
  }

  function GetBlockInfoAcross(t1: Store, t2: Store, id: Id): Result<BlockInfo, Error> {
    match t1.permanent.GetBlockInfo(id, t1.root)
    case Ok(Some(info)) => Ok(info)
    case Ok(None) => GetBlockInfoVolatile(t2, id)
    case Err(e) => Err(e)
  }

  /** A block that is indexed during a flush is read from the permanent part alone. */
  lemma IndexedReads(s: Store, t: Store, to: Id, id: Id)
    requires s.permanent.Consistent() && LinksOk(s) && Attached(s, Branch(s, to))
    requires MidFlush(s, t, Branch(s, to)) && id in t.permanent.index
    ensures t.permanent.GetBlock(id).Some? && GetBlock(s, id) == Ok(t.permanent.GetBlock(id).value)
    ensures var r := t.permanent.GetBlockInfo(id, s.root);
            r.Ok? && r.value.Some? && SameHeader(Ok(r.value.value), GetBlockInfo(s, id))
  {
    if id in s.permanent.index {
      AppendedGrows(s, to);
      GrownReads(s.permanent, t.permanent, AppendedPermanent(s, Branch(s, to)), id, s.root);
    } else {
      NewlyIndexed(s, t, Branch(s, to), id);
      var j :| 0 <= j < |Branch(s, to)| && Branch(s, to)[j] == id;
      FlushedReads(s, to, j);
    }
  }

  /** A reader whose two looks fall into two states of a flush misses a block exactly if the
      block was volatile, is not yet indexed at the first look, and is gone at the second. */
  lemma ReadAcrossFlush(s: Store, t1: Store, t2: Store, to: Id, id: Id)
    requires s.permanent.Consistent() && LinksOk(s) && Attached(s, Branch(s, to))
    requires MidFlush(s, t1, Branch(s, to)) && MidFlush(s, t2, Branch(s, to))
    ensures GetBlockAcross(t1, t2, id) ==
            if id in s.blocks && id !in t1.permanent.index && id !in t2.blocks then Err(BlockNotFound) else GetBlock(s, id)
    ensures if id in s.info && id !in t1.permanent.index && id !in t2.info then
              GetBlockInfoAcross(t1, t2, id) == Err(BlockNotFound)
            else SameHeader(GetBlockInfoAcross(t1, t2, id), GetBlockInfo(s, id))
  {
    if id in t1.permanent.index {
      IndexedReads(s, t1, to, id);
    }
  }

  /** A flush that completes between the two looks hides every block it moves. */
  lemma FlushBetweenLooks(s: Store, s': Store, to: Id, id: Id)
    requires Consistent(s) && Attached(s, Branch(s, to)) && Flushed(s, s', Branch(s, to)) && id in Branch(s, to)
    ensures GetBlock(s, id).Ok? && GetBlock(s', id) == GetBlock(s, id)
    ensures GetBlockAcross(s, s', id) == Err(BlockNotFound)
  {
    FlushedIsMidFlush(s, s', to);
    MidFlushInvisible(s, s', to);
    BranchIsVolatile(s, to);
  }

  lemma IndexedBefore(s: Store, t: Store, to: Id, id: Id)
    requires s.permanent.Consistent() && LinksOk(s) && Attached(s, Branch(s, to))
    requires MidFlush(s, t, Branch(s, to)) && id in s.permanent.index
    ensures GetBlock(t, id) == GetBlock(s, id)
    ensures SameHeader(GetBlockInfo(t, id), GetBlockInfo(s, id))
  {
    AppendedGrows(s, to);
    GrownReads(s.permanent, t.permanent, AppendedPermanent(s, Branch(s, to)), id, s.root);
  }

  ghost predicate Grows(before: Permanent, after: Permanent) {
    && before.blocks <= after.blocks
    && before.ids <= after.ids
    && forall id :: id in before.index ==> id in after.index && after.index[id] == before.index[id]
  }

  lemma AppendedGrows(s: Store, to: Id)
    requires LinksOk(s)
    ensures forall x :: x in Branch(s, to) ==> x in s.info && x in s.blocks
    ensures Grows(s.permanent, AppendedPermanent(s, Branch(s, to)))
  {
    BranchShape(s, to);
  }

  lemma GrownReads(before: Permanent, p: Permanent, after: Permanent, id: Id, root: Id)
    requires before.Consistent() && Grows(before, after) && PermanentPart(before, p, after)
    requires id in before.index
    ensures p.GetBlock(id) == before.GetBlock(id)
    ensures p.GetBlockInfo(id, root) == before.GetBlockInfo(id, root)
  {
    assert before.blocks <= p.blocks && before.ids <= p.ids;
    assert p.index[id] == before.index[id];
  }

  lemma IndexedDuring(s: Store, t: Store, to: Id, id: Id)
    requires s.permanent.Consistent() && LinksOk(s) && Attached(s, Branch(s, to))
    requires MidFlush(s, t, Branch(s, to)) && id in t.permanent.index && id !in s.permanent.index
    ensures GetBlock(t, id) == GetBlock(s, id)
    ensures SameHeader(GetBlockInfo(t, id), GetBlockInfo(s, id))
  {
    NewlyIndexed(s, t, Branch(s, to), id);
    var j :| 0 <= j < |Branch(s, to)| && Branch(s, to)[j] == id;
    FlushedReads(s, to, j);
  }

  lemma NewlyIndexed(s: Store, t: Store, branch: seq<Id>, id: Id)
    requires MidFlush(s, t, branch)
    requires id in t.permanent.index && id !in s.permanent.index
    ensures id in branch
    ensures t.permanent.GetBlock(id) == AppendedPermanent(s, branch).GetBlock(id)
    ensures t.permanent.GetBlockInfo(id, s.root) == AppendedPermanent(s, branch).GetBlockInfo(id, s.root)
  {
    var p, after := t.permanent, AppendedPermanent(s, branch);
    assert p.blocks == after.blocks && p.ids == after.ids && p.index[id] == after.index[id];
  }

  /** What the permanent part answers about a block it has taken over. */
  lemma FlushedReads(s: Store, to: Id, j: nat)
    requires s.permanent.Consistent() && LinksOk(s) && Attached(s, Branch(s, to))
    requires j < |Branch(s, to)|
    ensures var branch := Branch(s, to);
            && (forall x :: x in branch ==> x in s.info && x in s.blocks)
            && branch[j] in AppendedPermanent(s, branch).index
            && AppendedPermanent(s, branch).GetBlock(branch[j]) == Some(s.blocks[branch[j]])
            && AppendedPermanent(s, branch).GetBlockInfo(branch[j], s.root) ==
               Ok(Some(FreshInfo(branch[j], s.info[branch[j]].parentId, s.info[branch[j]].chainLength)))
  {
    var branch := Branch(s, to);
    FlushedEntry(s, to, j);
    BranchShape(s, to);
    if j + 1 < |branch| {
      FlushedEntry(s, to, j + 1);
      assert branch[j + 1] == s.info[branch[j]].parentId;
    } else {
      AttachedLengths(s, to);
      AppendedGrows(s, to);
    }
  }

  /** The end of a flush looks to readers like its beginning. */
  lemma FlushedIsMidFlush(s: Store, s': Store, to: Id)
    requires LinksOk(s) && Flushed(s, s', Branch(s, to))
    ensures MidFlush(s, s', Branch(s, to))
  {
    BranchShape(s, to);
  }

  /** Two states of the store that differ by one write to one file or tree. */
  ghost predicate OneWrite(t: Store, t': Store) {
    || t' == t.(permanent := t.permanent.(blocks := t'.permanent.blocks))
    || t' == t.(permanent := t.permanent.(ids := t'.permanent.ids))
    || t' == t.(permanent := t.permanent.(index := t'.permanent.index))
    || t' == t.(info := t'.info)
    || t' == t.(blocks := t'.blocks)
    || t' == t.(lengths := t'.lengths)
  }

  /** A sequence of good states, each of which follows from the one before by a step. */
  ghost predicate Chain<T(!new)>(states: seq<T>, good: T -> bool, step: (T, T) -> bool) {
    && (forall i :: 0 <= i < |states| ==> good(states[i]))
    && (forall i, j :: 0 <= i && j == i + 1 && j < |states| ==> step(states[i], states[j]))
  }

  lemma ChainExtends<T(!new)>(states: seq<T>, t: T, good: T -> bool, step: (T, T) -> bool)
    requires Chain(states, good, step) && |states| > 0
    requires good(t) && step(states[|states| - 1], t)
    ensures Chain(states + [t], good, step)
  {
  }

  /** The states of a flush of `branch` that starts at `s`: one write separates each from
      the next, and to a reader they are all the same. */
  ghost predicate InvisibleWrites(s: Store, states: seq<Store>, branch: seq<Id>) {
    && |states| > 0 && states[0] == s
    && Chain(states, t => MidFlush(s, t, branch), OneWrite)
  }

  /** What a flush does: `flushed` blocks move, by the writes that lead through `states`. */
  ghost predicate FlushOutcome(s: Store, s': Store, to: Id, minNumber: nat, flushed: nat, states: seq<Store>)
    requires LinksOk(s)
  {
    if FlushTriggers(s, to, minNumber) then
      && flushed == |Branch(s, to)|
      && Flushed(s, s', Branch(s, to))
      && InvisibleWrites(s, states, Branch(s, to))
      && |states| == 3 + 4 * flushed
      && states[|states| - 1] == s'
    else
      flushed == 0 && s' == s && states == [s]
  }

  /** Readers get the same answers in all of the states as in `s`. */
  ghost predicate SeenByReaders(s: Store, states: seq<Store>) {
    forall i :: 0 <= i < |states| ==> ReadersAgree(s, states[i])
  }

  lemma NoWritesSeen(s: Store)
    ensures SeenByReaders(s, [s])
  {
  }

  lemma InvisibleWritesAgree(s: Store, states: seq<Store>, to: Id)
    requires s.permanent.Consistent() && LinksOk(s) && Attached(s, Branch(s, to))
    requires InvisibleWrites(s, states, Branch(s, to))
    ensures SeenByReaders(s, states)
  {
    forall i | 0 <= i < |states| ensures ReadersAgree(s, states[i]) {
      assert (t => MidFlush(s, t, Branch(s, to)))(states[i]);
      MidFlushInvisible(s, states[i], to);
    }
  }

  // ---- The two phases of a flush ----

  /** The id index after the first `n` of the new blocks are inserted. */
  function IndexInserted(index: map<Id, nat>, start: nat, ids: seq<Id>, n: nat): map<Id, nat>
    requires n <= |ids|
  {
    if n == 0 then index else IndexInserted(index, start, ids, n - 1)[ids[n - 1] := start + n - 1]
  }

  lemma {:induction false} IndexInsertedEntries(index: map<Id, nat>, start: nat, ids: seq<Id>, n: nat, value: map<Id, nat>)
    requires n <= |ids|
    requires forall i :: 0 <= i < n ==> ids[i] in value && value[ids[i]] == start + i
    ensures var r := IndexInserted(index, start, ids, n);
            && (forall id :: id in r <==> id in index || id in ids[..n])
            && (forall id :: id in r ==> r[id] == if id in ids[..n] then value[id] else index[id])
  {
    if n > 0 {
      IndexInsertedEntries(index, start, ids, n - 1, value);
      assert ids[..n] == ids[..n - 1] + [ids[n - 1]];
    }
  }

  /** The permanent part once both files are complete and the first `n` new blocks are indexed. */
  function Inserting(s: Store, branch: seq<Id>, n: nat): Permanent
    requires forall i :: 0 <= i < |branch| ==> branch[i] in s.info && branch[i] in s.blocks
    requires n <= |branch|
  {
    AppendedPermanent(s, branch).(
      index := IndexInserted(s.permanent.index, |s.permanent.ids|, OldestFirst(branch), n))
  }

  lemma InsertedIndex(s: Store, to: Id, n: nat)
    requires s.permanent.Consistent() && LinksOk(s) && Attached(s, Branch(s, to)) && n <= |Branch(s, to)|
    ensures var branch := Branch(s, to);
            && (forall i :: 0 <= i < |branch| ==> branch[i] in s.info && branch[i] in s.blocks)
            && PermanentPart(s.permanent, Inserting(s, branch, n), AppendedPermanent(s, branch))
            && (n == |branch| ==> Inserting(s, branch, n) == AppendedPermanent(s, branch))
  {
    AttachedLengths(s, to);
    IndexingBranch(s, Branch(s, to), n);
  }

  lemma IndexedLengths(s: Store, branch: seq<Id>, n: nat)
    requires n <= |branch| && forall id :: id in branch ==> id in s.info && id in s.blocks && id !in s.permanent.index
    requires forall i :: 0 <= i < |branch| ==>
               s.info[branch[i]].chainLength == |s.permanent.ids| + |branch| - 1 - i
    ensures var (index, ids) := (Inserting(s, branch, n).index, OldestFirst(branch));
            && (forall id :: id in ids[..n] ==> id in branch)
            && (forall id :: id in index <==> id in s.permanent.index || id in ids[..n])
            && (forall id :: id in index ==> index[id] == if id in ids[..n] then s.info[id].chainLength else s.permanent.index[id])
  {
    var ids := OldestFirst(branch);
    var value := map id | id in branch :: s.info[id].chainLength;
    IndexInsertedEntries(s.permanent.index, |s.permanent.ids|, ids, n, value);
  }

  lemma IndexingBranch(s: Store, branch: seq<Id>, n: nat)
    requires n <= |branch| && forall id :: id in branch ==> id in s.info && id in s.blocks && id !in s.permanent.index
    requires forall i :: 0 <= i < |branch| ==>
               s.info[branch[i]].chainLength == |s.permanent.ids| + |branch| - 1 - i
    ensures PermanentPart(s.permanent, Inserting(s, branch, n), AppendedPermanent(s, branch))
    ensures n == |branch| ==> Inserting(s, branch, n) == AppendedPermanent(s, branch)
  {
    IndexedLengths(s, branch, n);
    if n == |branch| {
      SameMembers(branch);
      assert OldestFirst(branch)[..n] == OldestFirst(branch);
      assert Inserting(s, branch, n).index == AppendedPermanent(s, branch).index;
    }
  }

  lemma SameMembers(branch: seq<Id>)
    ensures forall id :: id in OldestFirst(branch) <==> id in branch
  {
    forall id | id in branch ensures id in OldestFirst(branch) {
      var j :| 0 <= j < |branch| && branch[j] == id;
      assert OldestFirst(branch)[|branch| - 1 - j] == id;
    }
  }

  lemma PermanentPartIsMidFlush(s: Store, p: Permanent, branch: seq<Id>)
    requires forall i :: 0 <= i < |branch| ==> branch[i] in s.info && branch[i] in s.blocks
    requires PermanentPart(s.permanent, p, AppendedPermanent(s, branch))
    ensures MidFlush(s, s.(permanent := p), branch)
  {
  }

  /** The permanent part after `i` writes of the appending phase: both files grow, then the
      ids are indexed one by one. */
  function AppendStep(s: Store, branch: seq<Id>, i: nat): Permanent
    requires forall i :: 0 <= i < |branch| ==> branch[i] in s.info && branch[i] in s.blocks
    requires i <= |branch| + 2
  {
    if i == 0 then s.permanent
    else if i == 1 then s.permanent.(blocks := AppendedPermanent(s, branch).blocks)
    else Inserting(s, branch, i - 2)
  }

  lemma AppendingWrites(s: Store, to: Id, states: seq<Store>)
    requires s.permanent.Consistent() && LinksOk(s) && Attached(s, Branch(s, to))
    requires forall i :: 0 <= i < |Branch(s, to)| ==> Branch(s, to)[i] in s.info && Branch(s, to)[i] in s.blocks
    requires |states| == |Branch(s, to)| + 3
    requires forall i :: 0 <= i < |states| ==> states[i] == s.(permanent := AppendStep(s, Branch(s, to), i))
    ensures InvisibleWrites(s, states, Branch(s, to))
  {
    forall i | 0 <= i < |states| ensures MidFlush(s, states[i], Branch(s, to)) {
      AppendStepPart(s, to, i);
      PermanentPartIsMidFlush(s, AppendStep(s, Branch(s, to), i), Branch(s, to));
    }
    forall i, j | 0 <= i && j == i + 1 && j < |states| ensures OneWrite(states[i], states[j]) {
      AppendStepIsWrite(s, Branch(s, to), i);
    }
  }

  lemma AppendStepPart(s: Store, to: Id, i: nat)
    requires s.permanent.Consistent() && LinksOk(s) && Attached(s, Branch(s, to)) && i <= |Branch(s, to)| + 2
    requires forall i :: 0 <= i < |Branch(s, to)| ==> Branch(s, to)[i] in s.info && Branch(s, to)[i] in s.blocks
    ensures PermanentPart(s.permanent, AppendStep(s, Branch(s, to), i), AppendedPermanent(s, Branch(s, to)))
  {
    InsertedIndex(s, to, if i < 2 then 0 else i - 2);
  }

  lemma AppendStepIsWrite(s: Store, branch: seq<Id>, i: nat)
    requires forall i :: 0 <= i < |branch| ==> branch[i] in s.info && branch[i] in s.blocks
    requires i <= |branch| + 1
    ensures OneWrite(s.(permanent := AppendStep(s, branch, i)), s.(permanent := AppendStep(s, branch, i + 1)))
  {
    var p, p' := AppendStep(s, branch, i), AppendStep(s, branch, i + 1);
    assert i == 0 ==> p' == p.(blocks := p'.blocks);
    assert i == 1 ==> p' == p.(ids := p'.ids);
    assert i > 1 ==> p' == p.(index := p'.index);
  }

  /** The first `n` blocks of the branch are gone from the info tree, the first `m` from the
      blocks tree, and the first `k` removals from the length index are done. */
  ghost predicate Unlinking(s: Store, t: Store, branch: seq<Id>, n: nat, m: nat, k: nat)
    requires forall i :: 0 <= i < |branch| ==> branch[i] in s.info && branch[i] in s.blocks
    requires n <= |branch| && m <= |branch| && k <= |branch|
  {
    && t == s.(permanent := AppendedPermanent(s, branch), info := t.info, blocks := t.blocks, lengths := t.lengths)
    && Without(s.info, t.info, branch[..n])
    && Without(s.blocks, t.blocks, branch[..m])
    && (forall e :: e in t.lengths <==> e in s.lengths && !UnlistedBefore(s, branch, e, k))
  }

  /** `after` is `before` without some of its keys. */
  ghost predicate Without<V>(before: map<Id, V>, after: map<Id, V>, gone: seq<Id>) {
    forall id :: (id in after <==> id in before && id !in gone) && (id in after ==> after[id] == before[id])
  }

  predicate UnlistedBefore(s: Store, branch: seq<Id>, e: LengthEntry, k: nat)
    requires k <= |branch| && forall i :: 0 <= i < |branch| ==> branch[i] in s.info
  {
    exists i :: 0 <= i < k && e.id == branch[i] && e.chainLength == s.info[branch[|branch| - 1]].chainLength + i
  }

  lemma UnlinkingIsMidFlush(s: Store, t: Store, branch: seq<Id>, n: nat, m: nat, k: nat)
    requires forall id :: id in branch ==> id in s.info && id in s.blocks && id !in s.permanent.index
    requires n <= |branch| && m <= |branch| && k <= |branch|
    requires Unlinking(s, t, branch, n, m, k)
    ensures MidFlush(s, t, branch)
  {
    assert forall id :: id in branch[..n] ==> id in branch;
    assert forall id :: id in branch[..m] ==> id in branch;
  }

  lemma UnlinkInfo(s: Store, t: Store, branch: seq<Id>, i: nat)
    requires forall id :: id in branch ==> id in s.info && id in s.blocks
    requires i < |branch| && Unlinking(s, t, branch, i, i, i)
    ensures Unlinking(s, t.(info := t.info - {branch[i]}), branch, i + 1, i, i)
  {
    assert branch[..i + 1] == branch[..i] + [branch[i]];
  }

  lemma UnlinkBlock(s: Store, t: Store, branch: seq<Id>, i: nat)
    requires forall id :: id in branch ==> id in s.info && id in s.blocks
    requires i < |branch| && Unlinking(s, t, branch, i + 1, i, i)
    ensures Unlinking(s, t.(blocks := t.blocks - {branch[i]}), branch, i + 1, i + 1, i)
  {
    assert branch[..i + 1] == branch[..i] + [branch[i]];
  }

  lemma UnlinkEntry(s: Store, t: Store, branch: seq<Id>, i: nat)
    requires forall id :: id in branch ==> id in s.info && id in s.blocks
    requires i < |branch| && Unlinking(s, t, branch, i + 1, i + 1, i)
    ensures var e := LengthEntry(s.info[branch[|branch| - 1]].chainLength + i, branch[i]);
            Unlinking(s, t.(lengths := t.lengths - {e}), branch, i + 1, i + 1, i + 1)
  {
    var e0 := LengthEntry(s.info[branch[|branch| - 1]].chainLength + i, branch[i]);
    forall e ensures UnlistedBefore(s, branch, e, i + 1) <==> e == e0 || UnlistedBefore(s, branch, e, i) {
    }
  }

  /** One round of the removal loop: three writes for the i-th newest block. */
  ghost predicate EndAt(states: seq<Store>, last: Store) {
    |states| > 0 && states[|states| - 1] == last
  }

  lemma UnlinkRound(s: Store, branch: seq<Id>, i: nat, states: seq<Store>, t0: Store, t1: Store, t2: Store, t3: Store)
    requires i < |branch| && forall id :: id in branch ==> id in s.info && id in s.blocks && id !in s.permanent.index
    requires InvisibleWrites(s, states, branch) && EndAt(states, t0)
    requires Unlinking(s, t0, branch, i, i, i)
    requires t1 == t0.(info := t0.info - {branch[i]})
    requires t2 == t1.(blocks := t1.blocks - {branch[i]})
    requires t3 == t2.(lengths := t2.lengths - {LengthEntry(s.info[branch[|branch| - 1]].chainLength + i, branch[i])})
    ensures Unlinking(s, t3, branch, i + 1, i + 1, i + 1)
    ensures InvisibleWrites(s, states + [t1, t2, t3], branch) && EndAt(states + [t1, t2, t3], t3)
  {
    UnlinkInfo(s, t0, branch, i);
    UnlinkBlock(s, t1, branch, i);
    UnlinkEntry(s, t2, branch, i);
    UnlinkingIsMidFlush(s, t1, branch, i + 1, i, i);
    UnlinkingIsMidFlush(s, t2, branch, i + 1, i + 1, i);
    UnlinkingIsMidFlush(s, t3, branch, i + 1, i + 1, i + 1);
    ChainThreeMore(states, t1, t2, t3, t => MidFlush(s, t, branch), OneWrite);
  }

  lemma ChainThreeMore<T(!new)>(states: seq<T>, t1: T, t2: T, t3: T, good: T -> bool, step: (T, T) -> bool)
    requires Chain(states, good, step) && |states| > 0
    requires good(t1) && good(t2) && good(t3)
    requires step(states[|states| - 1], t1) && step(t1, t2) && step(t2, t3)
    ensures Chain(states + [t1, t2, t3], good, step)
  {
    ChainExtends(states, t1, good, step);
    ChainExtends(states + [t1], t2, good, step);
    ChainExtends(states + [t1] + [t2], t3, good, step);
    assert states + [t1, t2, t3] == states + [t1] + [t2] + [t3];
  }

  lemma UnlinkingStarts(s: Store, branch: seq<Id>)
    requires forall id :: id in branch ==> id in s.info && id in s.blocks
    ensures Unlinking(s, s.(permanent := AppendedPermanent(s, branch)), branch, 0, 0, 0)
  {
  }

  lemma UnlinkedIsFlushed(s: Store, t: Store, branch: seq<Id>)
    requires forall id :: id in branch ==> id in s.info && id in s.blocks
    requires Unlinking(s, t, branch, |branch|, |branch|, |branch|)
    ensures Flushed(s, t, branch)
  {
    assert branch[..|branch|] == branch;
  }

  // ---- When a flush goes ahead ----

  /** With more than `minNumber` blocks to move a flush goes ahead, with fewer it does not;
      with exactly `minNumber` it depends on a leftover of the length index: an entry, of a
      stale block or of the last permanent one, just below the branch. */
  lemma FlushTriggersWhen(s: Store, to: Id, minNumber: nat)
    requires Consistent(s) && to in s.info && Attached(s, Branch(s, to)) && minNumber > 0
    ensures FlushTriggers(s, to, minNumber) <==>
            |Branch(s, to)| > minNumber || (|Branch(s, to)| == minNumber && EntryBelow(s))
  {
    TargetLength(s, to);
    if |Branch(s, to)| > minNumber {
      VolatileListed(s, to, minNumber);
    }
  }

  predicate EntryBelow(s: Store) {
    |s.permanent.ids| > 0 && EntriesAt(s, |s.permanent.ids| - 1) != {}
  }

  lemma TargetLength(s: Store, to: Id)
    requires s.permanent.Consistent() && LinksOk(s) && to in s.info && Attached(s, Branch(s, to))
    ensures s.info[to].chainLength == |s.permanent.ids| + |Branch(s, to)| - 1
  {
    BranchShape(s, to);
    AttachedLengths(s, to);
  }

  lemma VolatileListed(s: Store, to: Id, i: nat)
    requires LinksOk(s) && LengthsOk(s) && to in s.info && i < |Branch(s, to)|
    ensures i <= s.info[to].chainLength
    ensures EntriesAt(s, s.info[to].chainLength - i) != {}
  {
    BranchShape(s, to);
    var id := Branch(s, to)[i];
    assert LengthEntry(s.info[id].chainLength, id) in EntriesAt(s, s.info[to].chainLength - i);
  }
}
