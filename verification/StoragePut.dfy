/** Writing a block and tagging a block: the effect of each transaction on the store,
    and why it keeps the store consistent. */
module StoragePut {
  import opened Wrappers
  import opened StorageState

  function AddParentRef(info: BlockInfo): BlockInfo {
    info.(parentRefCount := info.parentRefCount + 1)
  }

  function AddTagRef(info: BlockInfo): BlockInfo {
    info.(tagsRefCount := info.tagsRefCount + 1)
  }

  function PutBlock(s: Store, block: Value, info: BlockInfo): Result<Store, Error> {
    if BlockExists(s, info.id) then
      Err(BlockAlreadyPresent)
    else if info.parentId in s.permanent.index || info.parentId == s.root then
      Ok(Inserted(s, block, info))
    else if info.parentId !in s.info then
      Err(MissingParent)
    else
      Ok(Inserted(s.(info := s.info[info.parentId := AddParentRef(s.info[info.parentId])]), block, info))
  }

  function Inserted(s: Store, block: Value, info: BlockInfo): Store {
    s.(
      tips := s.tips - {info.parentId} + {info.id},
      lengths := s.lengths + {LengthEntry(info.chainLength, info.id)},
      blocks := s.blocks[info.id := block],
      info := s.info[info.id := info])
  }

  function PutTag(s: Store, tag: string, id: Id): Result<Store, Error> {
    if !BlockExists(s, id) then
      Err(BlockNotFound)
    else
      var info := if id in s.info then s.info[id := AddTagRef(s.info[id])] else s.info;
      if tag !in s.tags then
        Ok(s.(info := info, tags := s.tags[tag := id]))
      else
        var oldId := s.tags[tag];
        if oldId !in info then
          Err(Inconsistent(TaggedBlock))
        else if info[oldId].tagsRefCount == 0 then
          Err(CounterUnderflow)
        else
          var oldInfo := info[oldId].(tagsRefCount := info[oldId].tagsRefCount - 1);
          Ok(s.(info := info[oldId := oldInfo], tags := s.tags[tag := id]))
  }

  /** What a caller of `PutBlock` promises about the metadata it passes. */
  ghost predicate WellFormedInfo(s: Store, info: BlockInfo) {
    && info == FreshInfo(info.id, info.parentId, info.chainLength)
    && info.id != s.root
    && (info.parentId == s.root ==> info.chainLength == 0)
    && (BlockExists(s, info.parentId) ==> info.chainLength == LengthOf(s, info.parentId) + 1)
  }

  /** Putting a block succeeds exactly if its id is new and its parent is known, and then keeps
      the store consistent. */
  lemma PutBlockConsistent(s: Store, block: Value, info: BlockInfo)
    requires Consistent(s) && WellFormedInfo(s, info)
    ensures var r := PutBlock(s, block, info);
            && (r.Ok? <==> !BlockExists(s, info.id) && (info.parentId == s.root || BlockExists(s, info.parentId)))
            && (r.Err? ==> r == Err(if BlockExists(s, info.id) then BlockAlreadyPresent else MissingParent))
            && (r.Ok? ==> Consistent(r.value) && (TopListed(s) ==> TopListed(r.value)))
  {
    if PutBlock(s, block, info).Ok? {
      var s' := PutBlock(s, block, info).value;
      PutBlockExtends(s, block, info);
      ExtendedLinks(s, s', block, info);
      ExtendedLengths(s, s', block, info);
      ExtendedCounts(s, s', block, info);
      ExtendedTips(s, s', block, info);
    }
  }

  /** A block that was put is read back, and its metadata with it. */
  lemma PutBlockReads(s: Store, block: Value, info: BlockInfo)
    requires LinksOk(s) && PutBlock(s, block, info).Ok?
    ensures var s' := PutBlock(s, block, info).value;
            && GetBlock(s', info.id) == Ok(block) && GetBlockInfo(s', info.id) == Ok(info)
            && s'.tags == s.tags && s'.permanent == s.permanent && s'.root == s.root
  {
  }

  /** `s'` is `s` with a new block below its parent. */
  ghost predicate Extended(s: Store, s': Store, block: Value, info: BlockInfo) {
    && !BlockExists(s, info.id)
    && Linked(s, info.parentId, info.chainLength)
    && s'.root == s.root && s'.permanent == s.permanent && s'.tags == s.tags
    && s'.tips == s.tips - {info.parentId} + {info.id}
    && s'.lengths == s.lengths + {LengthEntry(info.chainLength, info.id)}
    && s'.blocks == s.blocks[info.id := block]
    && (forall c :: c in s'.info <==> c in s.info || c == info.id)
    && s'.info[info.id] == info
    && forall c :: c in s.info ==>
         s'.info[c] == if c == info.parentId then AddParentRef(s.info[c]) else s.info[c]
  }

  lemma PutBlockExtends(s: Store, block: Value, info: BlockInfo)
    requires LinksOk(s) && WellFormedInfo(s, info)
    requires PutBlock(s, block, info).Ok?
    ensures Extended(s, PutBlock(s, block, info).value, block, info)
  {
  }

  /** The new block becomes a child of its parent; no other parent gains or loses one. */
  lemma ExtendedChildren(s: Store, s': Store, block: Value, info: BlockInfo)
    requires LinksOk(s) && WellFormedInfo(s, info) && Extended(s, s', block, info)
    ensures Children(s'.info, info.parentId) == Children(s.info, info.parentId) + {info.id}
    ensures Children(s'.info, info.id) == {}
    ensures forall id :: id != info.parentId ==> Children(s'.info, id) == Children(s.info, id)
  {
    forall c | c in s.info ensures s.info[c].parentId != info.id {
      assert Linked(s, s.info[c].parentId, s.info[c].chainLength);
    }
  }

  lemma ExtendedLinks(s: Store, s': Store, block: Value, info: BlockInfo)
    requires LinksOk(s) && WellFormedInfo(s, info) && Extended(s, s', block, info)
    ensures LinksOk(s')
  {
    forall id | id in s'.info
      ensures s'.info[id].id == id && Linked(s', s'.info[id].parentId, s'.info[id].chainLength)
    {
      if id != info.id {
        assert Linked(s, s.info[id].parentId, s.info[id].chainLength);
      }
    }
  }

  lemma ExtendedLengths(s: Store, s': Store, block: Value, info: BlockInfo)
    requires LinksOk(s) && LengthsOk(s) && WellFormedInfo(s, info) && Extended(s, s', block, info)
    ensures LengthsOk(s')
  {
  }

  lemma ExtendedCounts(s: Store, s': Store, block: Value, info: BlockInfo)
    requires LinksOk(s) && CountsOk(s) && TagsOk(s) && WellFormedInfo(s, info)
    requires Extended(s, s', block, info)
    ensures CountsOk(s') && TagsOk(s')
  {
    ExtendedChildren(s, s', block, info);
    assert TagsOf(s.tags, info.id) == {};
    assert info.id !in Children(s.info, info.parentId);
  }

  lemma ExtendedTips(s: Store, s': Store, block: Value, info: BlockInfo)
    requires LinksOk(s) && TipsOk(s) && WellFormedInfo(s, info) && Extended(s, s', block, info)
    ensures TipsOk(s')
    ensures TopListed(s) ==> TopListed(s')
  {
    ExtendedChildren(s, s', block, info);
    forall t | t in s'.tips ensures IsLeaf(s', t) {
      if t != info.id {
        assert IsLeaf(s, t);
      }
    }
  }

  /** Setting a tag fails exactly when its new target does not exist, or its current target has
      left the volatile part. */
  lemma PutTagOutcome(s: Store, tag: string, id: Id)
    requires Consistent(s)
    ensures PutTag(s, tag, id).Ok? <==>
            BlockExists(s, id) && (tag in s.tags ==> s.tags[tag] in s.info)
    ensures PutTag(s, tag, id).Err? ==>
            PutTag(s, tag, id) == Err(if BlockExists(s, id) then Inconsistent(TaggedBlock) else BlockNotFound)
  {
    if BlockExists(s, id) && tag in s.tags && s.tags[tag] in s.info {
      assert tag in TagsOf(s.tags, s.tags[tag]);
    }
  }

  /** Afterwards the tag resolves to the block, and all that changes besides is counters. */
  lemma PutTagSets(s: Store, tag: string, id: Id)
    requires PutTag(s, tag, id).Ok?
    ensures var s' := PutTag(s, tag, id).value;
            && s'.tags == s.tags[tag := id]
            && s'.root == s.root && s'.permanent == s.permanent && s'.blocks == s.blocks
            && s'.lengths == s.lengths && s'.tips == s.tips && s'.info.Keys == s.info.Keys
            && forall x :: x in s.info ==> s'.info[x].Header() == s.info[x].Header()
                                           && s'.info[x].parentRefCount == s.info[x].parentRefCount
  {
  }

  lemma PutTagConsistent(s: Store, tag: string, id: Id)
    requires Consistent(s)
    requires PutTag(s, tag, id).Ok?
    ensures Consistent(PutTag(s, tag, id).value)
    ensures TopListed(s) ==> TopListed(PutTag(s, tag, id).value)
  {
    var s' := PutTag(s, tag, id).value;
    SameTreeKeeps(s, s');
    PutTagCounts(s, tag, id);
  }

  lemma PutTagCounts(s: Store, tag: string, id: Id)
    requires CountsOk(s) && TagsOk(s)
    requires PutTag(s, tag, id).Ok?
    ensures CountsOk(PutTag(s, tag, id).value) && TagsOk(PutTag(s, tag, id).value)
  {
    var s' := PutTag(s, tag, id).value;
    assert s'.tags == s.tags[tag := id];
    forall x | x in s'.info
      ensures s'.info[x].parentRefCount == |Children(s'.info, x)|
      ensures s'.info[x].tagsRefCount == |TagsOf(s'.tags, x)|
    {
      assert Children(s'.info, x) == Children(s.info, x);
      TagCount(s.tags, tag, id, x);
      assert s.info[x].tagsRefCount == |TagsOf(s.tags, x)|;
    }
  }

  /** How setting one tag changes the number of tags that resolve to a block. */
  lemma TagCount(tags: map<string, Id>, tag: string, id: Id, x: Id)
    ensures |TagsOf(tags[tag := id], x)| ==
            |TagsOf(tags, x)| + (if x == id then 1 else 0) - (if tag in tags && tags[tag] == x then 1 else 0)
  {
    var before, after := TagsOf(tags, x), TagsOf(tags[tag := id], x);
    if x == id {
      assert after == before + {tag};
    } else {
      assert after == before - {tag};
    }
  }

  /** Two stores that differ at most in tags and tag counters. */
  ghost predicate SameTree(s: Store, s': Store) {
    && s' == s.(info := s'.info, tags := s'.tags)
    && (forall x :: x in s'.info <==> x in s.info)
    && forall x :: x in s.info ==> s'.info[x] == s.info[x].(tagsRefCount := s'.info[x].tagsRefCount)
  }

  lemma SameTreeKeeps(s: Store, s': Store)
    requires SameTree(s, s')
    requires LinksOk(s) && LengthsOk(s) && TipsOk(s)
    ensures LinksOk(s') && LengthsOk(s') && TipsOk(s')
    ensures TopListed(s) ==> TopListed(s')
  {
    forall x ensures Children(s'.info, x) == Children(s.info, x) {
    }
    forall x | x in s'.info ensures Linked(s', s'.info[x].parentId, s'.info[x].chainLength) {
      assert Linked(s, s.info[x].parentId, s.info[x].chainLength);
    }
    forall t | t in s'.tips ensures IsLeaf(s', t) {
      assert IsLeaf(s, t);
    }
  }
}
