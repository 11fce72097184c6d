/** The state of the block store: a permanent, linear part and a volatile tree of
    blocks, together with the consistency conditions that tie the parts together. */
module StorageState {
  import opened Wrappers

  /** Serialized data: block identifiers and block contents are both byte strings, and
      the store only ever compares them for equality. */
  type Value(==, !new)

  type Id = Value

  datatype BlockInfo = BlockInfo(
    id: Id,
    parentId: Id,
    chainLength: nat,
    parentRefCount: nat,
    tagsRefCount: nat)
  {
    function RefCount(): nat {
      parentRefCount + tagsRefCount
    }

    /** What a reader may rely on; the counters are internal to the volatile part. */
    function Header(): (Id, Id, nat) {
      (id, parentId, chainLength)
    }
  }

  function FreshInfo(id: Id, parentId: Id, chainLength: nat): BlockInfo {
    BlockInfo(id, parentId, chainLength, 0, 0)
  }

  datatype ConsistencyFailure =
    | MissingParentBlock
    | ChainLength
    | MissingBlockInfo
    | TaggedBlock
    | MissingPermanentBlock

  datatype Error =
    | BlockNotFound
    | BlockAlreadyPresent
    | MissingParent
    | BranchNotFound
    | CannotIterate
    | Inconsistent(failure: ConsistencyFailure)
    | CounterUnderflow // not a value of the source: its unsigned subtraction panics here

  /** Key of the chain length index: `bytes(chain_length) ++ block_id`. */
  datatype LengthEntry = LengthEntry(chainLength: nat, id: Id)

  /** The permanent part: two append-only files indexed by chain length, and a tree
      from block id to chain length. */
  datatype Permanent = Permanent(blocks: seq<Value>, ids: seq<Id>, index: map<Id, nat>)
  {
    function GetBlockByChainLength(chainLength: nat): Option<Value> {
      if chainLength < |blocks| then Some(blocks[chainLength]) else None
    }

    function GetBlock(id: Id): Option<Value> {
      if id in index then GetBlockByChainLength(index[id]) else None
    }

    function GetBlockInfo(id: Id, root: Id): Result<Option<BlockInfo>, Error> {
      if id !in index then Ok(None)
      else if index[id] == 0 then Ok(Some(FreshInfo(id, root, 0)))
      else if index[id] - 1 < |ids| then Ok(Some(FreshInfo(id, ids[index[id] - 1], index[id])))
      else Err(Inconsistent(ChainLength))
    }

    function GetBlockInfoByChainLength(chainLength: nat, root: Id): Option<BlockInfo> {
      if |ids| <= chainLength then None
      else if chainLength == 0 then Some(FreshInfo(ids[0], root, 0))
      else Some(FreshInfo(ids[chainLength], ids[chainLength - 1], chainLength))
    }

    /** The id index and the chain length index are inverses of each other. */
    ghost predicate Consistent() {
      && |blocks| == |ids|
      && (forall i :: 0 <= i < |ids| ==> ids[i] in index && index[ids[i]] == i)
      && (forall id :: id in index ==> index[id] < |ids| && ids[index[id]] == id)
    }
  }

  datatype Store = Store(
    root: Id,
    permanent: Permanent,
    blocks: map<Id, Value>,
    info: map<Id, BlockInfo>,
    lengths: set<LengthEntry>,
    tips: set<Id>,
    tags: map<string, Id>)

  function EmptyStore(root: Id): Store {
    Store(root, Permanent([], [], map[]), map[], map[], {}, {}, map[])
  }

  // ---- Two-level reads ----

  function GetBlock(s: Store, id: Id): Result<Value, Error> {
    match s.permanent.GetBlock(id)
    case Some(block) => Ok(block)
    case None => if id in s.blocks then Ok(s.blocks[id]) else Err(BlockNotFound)
  }

  function GetBlockInfoVolatile(s: Store, id: Id): Result<BlockInfo, Error> {
    if id in s.info then Ok(s.info[id]) else Err(BlockNotFound)
  }

  function GetBlockInfo(s: Store, id: Id): Result<BlockInfo, Error> {
    match s.permanent.GetBlockInfo(id, s.root)
    case Ok(Some(info)) => Ok(info)
    case Ok(None) => GetBlockInfoVolatile(s, id)
    case Err(e) => Err(e)
  }

  predicate BlockExists(s: Store, id: Id) {
    id in s.permanent.index || id in s.info
  }

  /** The entries of the chain length index that share a chain length prefix. */
  function EntriesAt(s: Store, chainLength: nat): set<LengthEntry> {
    set e | e in s.lengths && e.chainLength == chainLength
  }

  /** The contents of all blocks at a chain length; a permanent block hides the others. */
  function GetBlocksByChainLength(s: Store, chainLength: nat): Result<set<Value>, Error> {
    match s.permanent.GetBlockByChainLength(chainLength)
    case Some(block) => Ok({block})
    case None =>
      if forall e :: e in EntriesAt(s, chainLength) ==> e.id in s.blocks then
        Ok(set e | e in EntriesAt(s, chainLength) :: s.blocks[e.id])
      else
        Err(Inconsistent(ChainLength))
  }

  // ---- The tree of blocks ----

  /** The length at which a known block sits. */
  function LengthOf(s: Store, id: Id): nat
    requires BlockExists(s, id)
  {
    if id in s.permanent.index then s.permanent.index[id] else s.info[id].chainLength
  }

  /** The block, or root id, a known block refers to as its parent. */
  function ParentOf(s: Store, id: Id): Id
    requires s.permanent.Consistent() && BlockExists(s, id)
  {
    if id in s.permanent.index then
      if s.permanent.index[id] == 0 then s.root else s.permanent.ids[s.permanent.index[id] - 1]
    else
      s.info[id].parentId
  }

  ghost function Children(info: map<Id, BlockInfo>, id: Id): set<Id> {
    set c | c in info && info[c].parentId == id
  }

  ghost function TagsOf(tags: map<string, Id>, id: Id): set<string> {
    set t | t in tags && tags[t] == id
  }

  /** No block of either part names this block as its parent. */
  ghost predicate IsLeaf(s: Store, id: Id) {
    && BlockExists(s, id)
    && Children(s.info, id) == {}
    && (id in s.permanent.index ==> s.permanent.index[id] + 1 == |s.permanent.ids|)
  }

  // ---- Consistency ----

  /** A block extends the root, a permanent block or a volatile block by exactly one. */
  ghost predicate Linked(s: Store, parentId: Id, chainLength: nat) {
    || (parentId == s.root && chainLength == 0)
    || (parentId in s.permanent.index && chainLength == s.permanent.index[parentId] + 1)
    || (parentId in s.info && chainLength == s.info[parentId].chainLength + 1)
  }

  ghost predicate LinksOk(s: Store) {
    && (forall id :: id in s.blocks <==> id in s.info)
    && (forall id :: id in s.info ==> id !in s.permanent.index)
    && !BlockExists(s, s.root)
    && (forall id :: id in s.info ==> s.info[id].id == id)
    && forall id {:trigger Linked(s, s.info[id].parentId, s.info[id].chainLength)} ::
         id in s.info ==> Linked(s, s.info[id].parentId, s.info[id].chainLength)
  }

  ghost predicate CountsOk(s: Store) {
    forall id :: id in s.info ==>
      && s.info[id].parentRefCount == |Children(s.info, id)|
      && s.info[id].tagsRefCount == |TagsOf(s.tags, id)|
  }

  ghost predicate TagsOk(s: Store) {
    forall t :: t in s.tags ==> BlockExists(s, s.tags[t])
  }

  /** Every volatile block is listed; any other entry belongs to a permanent block. */
  ghost predicate LengthsOk(s: Store) {
    && (forall id :: id in s.info ==> LengthEntry(s.info[id].chainLength, id) in s.lengths)
    && (forall e :: e in s.lengths ==> BlockExists(s, e.id) && LengthOf(s, e.id) == e.chainLength)
  }

  /** Every tip is a leaf, and every volatile leaf is a tip. */
  ghost predicate TipsOk(s: Store) {
    && (forall t :: t in s.tips ==> IsLeaf(s, t))
    && (forall id :: id in s.info && Children(s.info, id) == {} ==> id in s.tips)
  }

  ghost predicate Consistent(s: Store) {
    && s.permanent.Consistent()
    && LinksOk(s)
    && CountsOk(s)
    && TagsOk(s)
    && LengthsOk(s)
    && TipsOk(s)
  }

  /** The last permanent block, or the root id while there is none. */
  function Top(s: Store): Id {
    if |s.permanent.ids| == 0 then s.root else s.permanent.ids[|s.permanent.ids| - 1]
  }

  /** No volatile branch starts below the last permanent block. */
  ghost predicate NoStaleBranch(s: Store) {
    forall id :: id in s.info ==> s.info[id].parentId in s.info || s.info[id].parentId == Top(s)
  }

  /** A last permanent block without children is itself listed as a tip. */
  ghost predicate TopListed(s: Store) {
    |s.permanent.ids| > 0 && Children(s.info, Top(s)) == {} ==> Top(s) in s.tips
  }
}
