/** A run of the block store in which a stale branch hides the last permanent block from the tips. */
module StorageStaleRun {
  import opened Wrappers
  import opened StorageState
  import opened StoragePut
  import opened StoragePrune
  import opened StorageFlush
  import opened StorageRuns

  /** Two branches from the root, `a0`, `a1` and `b0`, `b1`, `d`; block `c` extends the first. */
  datatype Names = Names(root: Id, a0: Id, a1: Id, b0: Id, b1: Id, c: Id, d: Id, block: Value)

  predicate Different(n: Names) {
    && n.root !in {n.a0, n.a1, n.b0, n.b1, n.c, n.d}
    && n.a0 !in {n.a1, n.b0, n.b1, n.c, n.d}
    && n.a1 !in {n.b0, n.b1, n.c, n.d}
    && n.b0 !in {n.b1, n.c, n.d}
    && n.b1 !in {n.c, n.d}
    && n.c != n.d
  }

  // ---- The states of the run ----

  function NothingPermanent(): Permanent {
    Permanent([], [], map[])
  }

  function WithA0(n: Names): Store {
    Store(n.root, NothingPermanent(), map[n.a0 := n.block], map[n.a0 := FreshInfo(n.a0, n.root, 0)],
          {LengthEntry(0, n.a0)}, {n.a0}, map[])
  }

  function FirstBranch(n: Names): map<Id, BlockInfo> {
    map[n.a0 := BlockInfo(n.a0, n.root, 0, 1, 0), n.a1 := FreshInfo(n.a1, n.a0, 1)]
  }

  function WithA1(n: Names): Store {
    Store(n.root, NothingPermanent(), map[n.a0 := n.block, n.a1 := n.block], FirstBranch(n),
          {LengthEntry(0, n.a0), LengthEntry(1, n.a1)}, {n.a1}, map[])
  }

  function WithB0(n: Names): Store {
    Store(n.root, NothingPermanent(), map[n.a0 := n.block, n.a1 := n.block, n.b0 := n.block],
          FirstBranch(n)[n.b0 := FreshInfo(n.b0, n.root, 0)],
          {LengthEntry(0, n.a0), LengthEntry(1, n.a1), LengthEntry(0, n.b0)}, {n.a1, n.b0}, map[])
  }

  function WithB1(n: Names): Store {
    Store(n.root, NothingPermanent(), map[n.a0 := n.block, n.a1 := n.block, n.b0 := n.block, n.b1 := n.block],
          FirstBranch(n)[n.b0 := BlockInfo(n.b0, n.root, 0, 1, 0)][n.b1 := FreshInfo(n.b1, n.b0, 1)],
          {LengthEntry(0, n.a0), LengthEntry(1, n.a1), LengthEntry(0, n.b0), LengthEntry(1, n.b1)},
          {n.a1, n.b1}, map[])
  }

  function SecondBranch(n: Names): map<Id, BlockInfo> {
    map[n.b0 := BlockInfo(n.b0, n.root, 0, 1, 0), n.b1 := BlockInfo(n.b1, n.b0, 1, 1, 0), n.d := FreshInfo(n.d, n.b1, 2)]
  }

  function Entries(n: Names): set<LengthEntry> {
    {LengthEntry(0, n.a0), LengthEntry(1, n.a1), LengthEntry(0, n.b0), LengthEntry(1, n.b1), LengthEntry(2, n.d)}
  }

  function WithD(n: Names): Store {
    Store(n.root, NothingPermanent(),
          map[n.a0 := n.block, n.a1 := n.block, n.b0 := n.block, n.b1 := n.block, n.d := n.block],
          FirstBranch(n) + SecondBranch(n), Entries(n), {n.a1, n.d}, map[])
  }

  function TwoPermanent(n: Names): Permanent {
    Permanent([n.block, n.block], [n.a0, n.a1], map[n.a0 := 0, n.a1 := 1])
  }

  /** The first branch is permanent; its entries in the length index stay. */
  function AfterFlush(n: Names): Store {
    Store(n.root, TwoPermanent(n), map[n.b0 := n.block, n.b1 := n.block, n.d := n.block],
          SecondBranch(n), Entries(n), {n.a1, n.d}, map[])
  }

  function WithC(n: Names): Store {
    Store(n.root, TwoPermanent(n), map[n.b0 := n.block, n.b1 := n.block, n.d := n.block, n.c := n.block],
          SecondBranch(n)[n.c := FreshInfo(n.c, n.a1, 2)], Entries(n) + {LengthEntry(2, n.c)}, {n.c, n.d}, map[])
  }

  function AfterPrune(n: Names): Store {
    AfterFlush(n).(tips := {n.d})
  }

  // ---- The steps ----

  /** A put gives a state whose trees have the new entries. */
  lemma Puts(s: Store, block: Value, info: BlockInfo, t: Store)
    requires !BlockExists(s, info.id)
    requires info.parentId in s.permanent.index || info.parentId == s.root || info.parentId in s.info
    requires t.root == s.root && t.permanent == s.permanent && t.tags == s.tags
    requires forall id :: id in t.blocks <==> id in s.blocks || id == info.id
    requires forall id :: id in t.blocks ==> t.blocks[id] == if id == info.id then block else s.blocks[id]
    requires forall id :: id in t.info <==> id in s.info || id == info.id
    requires forall id :: id in t.info ==>
               t.info[id] == if id == info.id then info
                             else if id == info.parentId && id !in s.permanent.index && id != s.root then AddParentRef(s.info[id])
                             else s.info[id]
    requires forall e :: e in t.lengths <==> e in s.lengths || e == LengthEntry(info.chainLength, info.id)
    requires forall id :: id in t.tips <==> (id in s.tips && id != info.parentId) || id == info.id
    ensures PutBlock(s, block, info) == Ok(t)
  {
    var r := PutBlock(s, block, info).value;
    assert r.info == t.info && r.blocks == t.blocks;
    assert r.lengths == t.lengths && r.tips == t.tips;
  }

  lemma PutA0(n: Names)
    requires Different(n)
    ensures Step(EmptyStore(n.root), Put(n.block, FreshInfo(n.a0, n.root, 0)), WithA0(n))
  {
    Puts(EmptyStore(n.root), n.block, FreshInfo(n.a0, n.root, 0), WithA0(n));
  }

  lemma PutA1(n: Names)
    requires Different(n)
    ensures Step(WithA0(n), Put(n.block, FreshInfo(n.a1, n.a0, 1)), WithA1(n))
  {
    Puts(WithA0(n), n.block, FreshInfo(n.a1, n.a0, 1), WithA1(n));
  }

  lemma PutB0(n: Names)
    requires Different(n)
    ensures Step(WithA1(n), Put(n.block, FreshInfo(n.b0, n.root, 0)), WithB0(n))
  {
    Puts(WithA1(n), n.block, FreshInfo(n.b0, n.root, 0), WithB0(n));
  }

  lemma PutB1(n: Names)
    requires Different(n)
    ensures Step(WithB0(n), Put(n.block, FreshInfo(n.b1, n.b0, 1)), WithB1(n))
  {
    Puts(WithB0(n), n.block, FreshInfo(n.b1, n.b0, 1), WithB1(n));
  }

  lemma PutD(n: Names)
    requires Different(n)
    ensures Step(WithB1(n), Put(n.block, FreshInfo(n.d, n.b1, 2)), WithD(n))
  {
    Puts(WithB1(n), n.block, FreshInfo(n.d, n.b1, 2), WithD(n));
  }

  lemma LinksBeforeFlush(n: Names)
    requires Different(n)
    ensures LinksOk(WithD(n)) && Branch(WithD(n), n.a1) == [n.a1, n.a0]
  {
    var s := WithD(n);
    assert Linked(s, n.root, 0) && Linked(s, n.a0, 1) && Linked(s, n.b0, 1) && Linked(s, n.b1, 2);
    assert LinksOk(s);
    assert Branch(s, n.root) == [];
    assert Branch(s, n.a0) == [n.a0] + [];
    assert Branch(s, n.a1) == [n.a1] + [n.a0];
  }

  lemma FlushedParts(n: Names)
    requires Different(n)
    ensures var (s, branch) := (WithD(n), [n.a1, n.a0]);
            && (forall id :: id in branch <==> id == n.a0 || id == n.a1)
            && (forall i :: 0 <= i < |branch| ==> branch[i] in s.info && branch[i] in s.blocks)
            && AppendedPermanent(s, branch) == TwoPermanent(n)
            && forall e :: e in s.lengths ==> !Unlisted(s, branch, e)
  {
    var (s, branch) := (WithD(n), [n.a1, n.a0]);
    assert OldestFirst(branch) == [n.a0, n.a1];
    assert OldestContents(s.blocks, branch) == [n.block, n.block];
    assert AppendedPermanent(s, branch).index == TwoPermanent(n).index;
  }

  lemma FlushA1(n: Names)
    requires Different(n)
    ensures Step(WithD(n), Flush(n.a1, 1), AfterFlush(n))
  {
    LinksBeforeFlush(n);
    FlushedParts(n);
    assert LengthEntry(0, n.a0) in EntriesAt(WithD(n), 0);
    assert FlushTriggers(WithD(n), n.a1, 1);
    assert Flushed(WithD(n), AfterFlush(n), [n.a1, n.a0]);
  }

  lemma PutC(n: Names)
    requires Different(n)
    ensures Step(AfterFlush(n), Put(n.block, FreshInfo(n.c, n.a1, 2)), WithC(n))
  {
    Puts(AfterFlush(n), n.block, FreshInfo(n.c, n.a1, 2), WithC(n));
  }

  /** The stale block `d` sits one length above `a1`, so `a1` does not become a tip. */
  lemma PruneC(n: Names)
    requires Different(n)
    ensures Step(WithC(n), Prune(n.c), AfterPrune(n))
  {
    var (s, s') := (WithC(n), AfterPrune(n));
    assert s.info - {n.c} == s'.info && s.blocks - {n.c} == s'.blocks;
    assert s.lengths - {LengthEntry(2, n.c)} == s'.lengths && s.tips - {n.c} == s'.tips;
    assert RemoveTip(s, n.c) == Ok(Removal(s', HitPermanentStore(n.a1)));
    assert LengthEntry(2, n.d) in EntriesAt(s', 2);
    var above := GetBlocksByChainLength(s', 2);
    assert above.Ok? && n.block in above.value;
    assert PruneBranch(s, n.c) == Ok(s');
  }

  // ---- The run ----

  function States(n: Names): seq<Store> {
    [EmptyStore(n.root), WithA0(n), WithA1(n), WithB0(n), WithB1(n), WithD(n), AfterFlush(n), WithC(n), AfterPrune(n)]
  }

  function Operations(n: Names): seq<Operation> {
    [Put(n.block, FreshInfo(n.a0, n.root, 0)), Put(n.block, FreshInfo(n.a1, n.a0, 1)),
     Put(n.block, FreshInfo(n.b0, n.root, 0)), Put(n.block, FreshInfo(n.b1, n.b0, 1)),
     Put(n.block, FreshInfo(n.d, n.b1, 2)), Flush(n.a1, 1), Put(n.block, FreshInfo(n.c, n.a1, 2)), Prune(n.c)]
  }

  lemma EightSteps(
    root: Id, s0: Store, s1: Store, s2: Store, s3: Store, s4: Store,
    s5: Store, s6: Store, s7: Store, s8: Store,
    o0: Operation, o1: Operation, o2: Operation, o3: Operation,
    o4: Operation, o5: Operation, o6: Operation, o7: Operation)
    requires s0 == EmptyStore(root)
    requires Step(s0, o0, s1) && Step(s1, o1, s2) && Step(s2, o2, s3) && Step(s3, o3, s4)
    requires Step(s4, o4, s5) && Step(s5, o5, s6) && Step(s6, o6, s7) && Step(s7, o7, s8)
    ensures Run(root, [s0, s1, s2, s3, s4, s5, s6, s7, s8], [o0, o1, o2, o3, o4, o5, o6, o7])
  {
  }

  lemma IsRun(n: Names)
    requires Different(n)
    ensures Run(n.root, States(n), Operations(n))
  {
    PutA0(n);
    PutA1(n);
    PutB0(n);
    PutB1(n);
    PutD(n);
    FlushA1(n);
    PutC(n);
    PruneC(n);
    EightSteps(
      n.root, EmptyStore(n.root), WithA0(n), WithA1(n), WithB0(n), WithB1(n), WithD(n), AfterFlush(n), WithC(n), AfterPrune(n),
      Put(n.block, FreshInfo(n.a0, n.root, 0)), Put(n.block, FreshInfo(n.a1, n.a0, 1)),
      Put(n.block, FreshInfo(n.b0, n.root, 0)), Put(n.block, FreshInfo(n.b1, n.b0, 1)),
      Put(n.block, FreshInfo(n.d, n.b1, 2)), Flush(n.a1, 1), Put(n.block, FreshInfo(n.c, n.a1, 2)), Prune(n.c));
  }

  /** In this run the last prune leaves the last permanent block a leaf that is no tip; the
      state before it has a stale branch, as it must. */
  lemma StaleBranchHidesTop(n: Names)
    requires Different(n)
    ensures Run(n.root, States(n), Operations(n))
    ensures States(n)[7] == WithC(n) && Operations(n)[7] == Prune(n.c) && States(n)[8] == AfterPrune(n)
    ensures !NoStaleBranch(WithC(n))
    ensures IsLeaf(AfterPrune(n), n.a1) && n.a1 !in AfterPrune(n).tips
  {
    IsRun(n);
    assert WithC(n).info[n.b0].parentId == n.root;
  }
}
