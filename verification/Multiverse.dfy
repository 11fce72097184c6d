/** The multiverse: states of all branches by header id, garbage collected with gaps that
    grow with age. */
module Multiverse {
  import opened Arithmetic
  import opened Wrappers

  type HeaderId(==, !new)

  /** A reference-counted state; the address stands for the allocation. */
  datatype Arc<State> = Arc(address: nat, state: State)

  /** An entry holds its allocation strongly or weakly. */
  datatype GcEntry<State> = Retained(arc: Arc<State>) | Collectable(arc: Arc<State>)

  type ByHash<State> = map<HeaderId, GcEntry<State>>

  type ByLength = map<nat, set<HeaderId>>

  // ---- Invariant ----

  ghost predicate Listed(byLength: ByLength, length: nat, k: HeaderId) {
    length in byLength && k in byLength[length]
  }

  /** The length index partitions the keys of the hash map into non-empty sets. */
  ghost predicate Partitioned<State>(byHash: ByHash<State>, byLength: ByLength) {
    && (forall length, k :: Listed(byLength, length, k) ==> k in byHash)
    && (forall k :: k in byHash ==> exists length :: Listed(byLength, length, k))
    && (forall k, l1, l2 :: Listed(byLength, l1, k) && Listed(byLength, l2, k) ==> l1 == l2)
    && (forall length :: length in byLength ==> byLength[length] != {})
  }

  // ---- Which lengths the gap rule keeps ----

  /** The first key of a range of the length index. */
  function FirstKey(keys: set<nat>, from: nat, limit: nat): (r: Option<nat>)
    requires from <= limit
    ensures r.Some? ==> from <= r.value < limit && r.value in keys && (forall x :: from <= x < r.value ==> x !in keys)
    ensures r.None? ==> (forall x :: from <= x < limit ==> x !in keys)
    decreases limit - from
  {
    if limit == from then None
    else if from in keys then Some(from)
    else FirstKey(keys, from + 1, limit)
  }

  /** The lengths in `from..threshold` that the rule keeps, when the next one to keep is at
      least `toKeep`. */
  function KeptFrom(keys: set<nat>, longest: nat, threshold: nat, from: nat, toKeep: nat): seq<nat>
    requires from <= threshold <= longest
    decreases threshold - from
  {
    match FirstKey(keys, from, threshold)
    case None => []
    case Some(length) =>
      if length >= toKeep then
        [length] + KeptFrom(keys, longest, threshold, length + 1, length + (longest - length) / 2)
      else
        KeptFrom(keys, longest, threshold, length + 1, toKeep)
  }

  function Kept(keys: set<nat>, longest: nat, threshold: nat): seq<nat>
    requires threshold <= longest
  {
    KeptFrom(keys, longest, threshold, 0, 0)
  }

  lemma {:induction false} KeptFromShape(keys: set<nat>, longest: nat, threshold: nat, from: nat, toKeep: nat)
    requires from <= threshold <= longest
    ensures var kept := KeptFrom(keys, longest, threshold, from, toKeep);
            && (forall i :: 0 <= i < |kept| ==> from <= kept[i] < threshold && kept[i] in keys)
            && (|kept| > 0 ==> kept[0] >= toKeep)
            && (forall i, j :: 0 <= i && j == i + 1 && j < |kept| ==>
                  kept[i] < kept[j] && kept[j] >= kept[i] + (longest - kept[i]) / 2)
    decreases threshold - from
  {
    match FirstKey(keys, from, threshold)
    case None =>
    case Some(length) =>
      if length >= toKeep {
        KeptFromShape(keys, longest, threshold, length + 1, length + (longest - length) / 2);
      } else {
        KeptFromShape(keys, longest, threshold, length + 1, toKeep);
      }
  }

  /** A length that is not kept lies in the gap behind a kept one (or below `toKeep`). */
  lemma {:induction false} DroppedInGap(keys: set<nat>, longest: nat, threshold: nat, from: nat, toKeep: nat, x: nat)
    requires from <= x < threshold <= longest && x in keys
    requires x !in KeptFrom(keys, longest, threshold, from, toKeep)
    ensures x < toKeep || InGap(KeptFrom(keys, longest, threshold, from, toKeep), longest, x)
    decreases threshold - from
  {
    var length := FirstKey(keys, from, threshold).value;
    var kept := KeptFrom(keys, longest, threshold, from, toKeep);
    assert length <= x;
    if length >= toKeep {
      var next := length + (longest - length) / 2;
      var rest := KeptFrom(keys, longest, threshold, length + 1, next);
      assert kept == [length] + rest && length in kept && x != length && x !in rest;
      DroppedInGap(keys, longest, threshold, length + 1, next, x);
      if x < next {
        assert length in kept && length < x < length + (longest - length) / 2;
      } else {
        var l :| l in rest && l < x < l + (longest - l) / 2;
        assert l in kept;
      }
    } else if x != length {
      DroppedInGap(keys, longest, threshold, length + 1, toKeep, x);
    }
  }

  lemma {:induction false} KeptApart(kept: seq<nat>, longest: nat, i: nat, j: nat)
    requires i < j < |kept| && forall i :: 0 <= i < |kept| ==> kept[i] <= longest
    requires forall i, j :: 0 <= i && j == i + 1 && j < |kept| ==> kept[i] < kept[j] && kept[j] >= kept[i] + (longest - kept[i]) / 2
    ensures kept[i] < kept[j] && kept[j] >= kept[i] + (longest - kept[i]) / 2
    decreases j
  {
    if i < j - 1 {
      KeptApart(kept, longest, i, j - 1);
      assert kept[j - 1] < kept[j];
    }
  }

  /** A length below the threshold is kept exactly if it lies in no gap behind a kept one. */
  lemma KeptWhen(keys: set<nat>, longest: nat, threshold: nat, x: nat)
    requires threshold <= longest && x in keys && x < threshold
    ensures x in Kept(keys, longest, threshold) <==>
            !exists l :: l in Kept(keys, longest, threshold) && l < x < l + (longest - l) / 2
  {
    var kept := Kept(keys, longest, threshold);
    if x in kept {
      KeptFromShape(keys, longest, threshold, 0, 0);
      var j :| 0 <= j < |kept| && kept[j] == x;
      forall l | l in kept && l < x ensures x >= l + (longest - l) / 2 {
        var i :| 0 <= i < |kept| && kept[i] == l;
        if j < i {
          KeptApart(kept, longest, j, i);
        } else {
          KeptApart(kept, longest, i, j);
        }
      }
    } else {
      DroppedInGap(keys, longest, threshold, 0, 0, x);
    }
  }

  ghost predicate InGap(kept: seq<nat>, longest: nat, x: nat) {
    exists l :: l in kept && l < x < l + (longest - l) / 2
  }

  function Lengths(kept: seq<nat>): set<nat> {
    set l | l in kept
  }

  /** Each kept length halves the distance to the longest chain. */
  lemma {:induction false} GapsHalve(kept: seq<nat>, longest: nat, threshold: nat, depth: nat)
    requires |kept| > 0 && threshold + depth == longest
    requires forall i :: 0 <= i < |kept| ==> kept[i] < threshold
    requires forall i, j :: 0 <= i && j == i + 1 && j < |kept| ==> kept[j] >= kept[i] + (longest - kept[i]) / 2
    ensures depth * Pow2(|kept| - 1) <= longest - kept[0] - 1
    decreases |kept|
  {
    if |kept| > 1 {
      var rest := kept[1..];
      forall i, j | 0 <= i && j == i + 1 && j < |rest| ensures rest[j] >= rest[i] + (longest - rest[i]) / 2 {
        assert kept[j + 1] >= kept[i + 1] + (longest - kept[i + 1]) / 2;
      }
      GapsHalve(rest, longest, threshold, depth);
      assert 2 * (longest - kept[1] - 1) <= longest - kept[0] - 1;
      assert depth * Pow2(|kept| - 1) == 2 * (depth * Pow2(|kept| - 2));
    }
  }

  /** The number of lengths kept below the threshold is logarithmic in the chain length. */
  lemma KeptIsLogarithmic(keys: set<nat>, longest: nat, depth: nat)
    requires 1 <= depth <= longest
    requires |Kept(keys, longest, longest - depth)| > 0
    ensures depth * Pow2(|Kept(keys, longest, longest - depth)| - 1) < longest
  {
    KeptFromShape(keys, longest, longest - depth, 0, 0);
    GapsHalve(Kept(keys, longest, longest - depth), longest, longest - depth, depth);
  }

  // ---- What a collection does ----

  /** What becomes of one entry that the gap rule does not keep. */
  ghost predicate CollectedEntry<State>(before: ByHash<State>, after: ByHash<State>, k: HeaderId, pinned: set<nat>)
    requires k in before
  {
    if before[k].arc.address in pinned then k in after && after[k] == Collectable(before[k].arc) else k !in after
  }

  /** The effect of a collection on the lengths below `scanned`: those kept by the gap rule
      and all others at or above are untouched, the rest loses its unpinned states. */
  ghost predicate Collected<State>(
    byHash: ByHash<State>, byLength: ByLength, byHash': ByHash<State>, byLength': ByLength,
    kept: set<nat>, scanned: nat, pinned: set<nat>)
  {
    && (forall k :: k in byHash' ==> k in byHash)
    && (forall length, k :: Listed(byLength', length, k) ==> Listed(byLength, length, k))
    && (forall length, k :: Listed(byLength, length, k) && k in byHash ==>
          && (Listed(byLength', length, k) <==> k in byHash')
          && if length in kept || scanned <= length then k in byHash' && byHash'[k] == byHash[k]
             else CollectedEntry(byHash, byHash', k, pinned))
    && (forall length :: length in byLength' ==> byLength'[length] != {})
  }

  lemma CollectedPartitioned<State>(
    byHash: ByHash<State>, byLength: ByLength, byHash': ByHash<State>, byLength': ByLength,
    kept: set<nat>, scanned: nat, pinned: set<nat>)
    requires Partitioned(byHash, byLength)
    requires Collected(byHash, byLength, byHash', byLength', kept, scanned, pinned)
    ensures Partitioned(byHash', byLength')
  {
    forall k | k in byHash' ensures exists length :: Listed(byLength', length, k) {
      var length :| Listed(byLength, length, k);
      assert Listed(byLength', length, k);
    }
  }

  /** The entries of `done` are collected, all others untouched. */
  ghost predicate PartlyCollected<State>(
    before: ByHash<State>, after: ByHash<State>, done: set<HeaderId>, pinned: set<nat>)
  {
    && (forall k :: k in done ==> k in before && CollectedEntry(before, after, k, pinned))
    && (forall k :: k !in done ==> (k in after <==> k in before))
    && (forall k :: k !in done && k in after ==> after[k] == before[k])
  }

  lemma CollectOne<State>(
    before: ByHash<State>, after: ByHash<State>, done: set<HeaderId>, k: HeaderId, pinned: set<nat>)
    requires PartlyCollected(before, after, done, pinned) && k in before && k !in done
    ensures k in after && after[k] == before[k]
    ensures var collected := if before[k].arc.address in pinned then after[k := Collectable(before[k].arc)] else after - {k};
            PartlyCollected(before, collected, done + {k}, pinned)
  {
  }

  function PinnedOf<State>(byHash: ByHash<State>, hashes: set<HeaderId>, pinned: set<nat>): set<HeaderId>
    requires forall k :: k in hashes ==> k in byHash
  {
    set k | k in hashes && byHash[k].arc.address in pinned
  }

  function WithHashes(byLength: ByLength, length: nat, hashes: set<HeaderId>): ByLength {
    if hashes == {} then byLength - {length} else byLength[length := hashes]
  }

  /** The effect of collecting the states at one length. */
  ghost predicate LengthCollected<State>(
    byHash: ByHash<State>, byLength: ByLength, byHash': ByHash<State>, byLength': ByLength, length: nat, pinned: set<nat>)
    requires length in byLength && forall k :: k in byLength[length] ==> k in byHash
  {
    var hashes := byLength[length];
    && PartlyCollected(byHash, byHash', hashes, pinned)
    && byLength' == WithHashes(byLength, length, PinnedOf(byHash, hashes, pinned))
  }

  lemma CollectLength<State>(
    m0: ByHash<State>, i0: ByLength, m: ByHash<State>, i: ByLength, m': ByHash<State>, i': ByLength,
    kept: set<nat>, scanned: nat, length: nat, pinned: set<nat>)
    requires Partitioned(m0, i0) && Partitioned(m, i) && Collected(m0, i0, m, i, kept, scanned, pinned)
    requires scanned <= length && length in i && length !in kept
    requires forall l :: scanned <= l < length ==> l !in i
    requires forall k :: k in i[length] ==> k in m
    requires LengthCollected(m, i, m', i', length, pinned)
    ensures Collected(m0, i0, m', i', kept, length + 1, pinned)
  {
    var hashes := i[length];
    forall k | k in hashes ensures Listed(i, length, k) {
    }
    forall l: nat, k ensures Listed(i', l, k) <==> Listed(i, l, k) && (l == length ==> k in m && m[k].arc.address in pinned) {
      if l == length {
        assert Listed(i', l, k) <==> k in PinnedOf(m, hashes, pinned);
      }
    }
    NothingBetween(m0, i0, m, i, kept, scanned, length, pinned);
    forall l: nat, k | Listed(i0, l, k) && k in m0
      ensures Listed(i', l, k) <==> k in m'
      ensures if l in kept || length + 1 <= l then k in m' && m'[k] == m0[k] else CollectedEntry(m0, m', k, pinned)
    {
      if l == length {
        assert Listed(i, l, k);
      } else {
        assert k !in hashes;
      }
    }
  }

  lemma KeepLength<State>(
    m0: ByHash<State>, i0: ByLength, m: ByHash<State>, i: ByLength,
    kept: set<nat>, scanned: nat, length: nat, pinned: set<nat>)
    requires Collected(m0, i0, m, i, kept, scanned, pinned)
    requires Partitioned(m0, i0) && scanned <= length && forall l :: scanned <= l < length ==> l !in i
    ensures Collected(m0, i0, m, i, kept + {length}, length + 1, pinned)
  {
    NothingBetween(m0, i0, m, i, kept, scanned, length, pinned);
  }

  lemma NothingBetween<State>(
    m0: ByHash<State>, i0: ByLength, m: ByHash<State>, i: ByLength,
    kept: set<nat>, scanned: nat, length: nat, pinned: set<nat>)
    requires Collected(m0, i0, m, i, kept, scanned, pinned)
    requires forall l :: scanned <= l < length ==> l !in i
    ensures forall l: nat, k :: Listed(i0, l, k) && k in m0 && scanned <= l ==> length <= l
  {
    forall l: nat, k | Listed(i0, l, k) && k in m0 && scanned <= l ensures Listed(i, l, k) {
    }
  }

  /** Once no length is left below the threshold, the scan is complete. */
  lemma NothingLeft<State>(
    m0: ByHash<State>, i0: ByLength, m: ByHash<State>, i: ByLength,
    kept: set<nat>, scanned: nat, threshold: nat, pinned: set<nat>)
    requires Collected(m0, i0, m, i, kept, scanned, pinned) && scanned <= threshold
    requires forall l :: scanned <= l < threshold ==> l !in i
    ensures Collected(m0, i0, m, i, kept, threshold, pinned)
  {
    NothingBetween(m0, i0, m, i, kept, scanned, threshold, pinned);
  }

  // ---- References from outside ----

  /** A strong reference outside the multiverse: a `Ref`, or a bare pointer taken from one or
      returned by a lookup. */
  datatype Holder<State> = Ref(id: HeaderId, arc: Arc<State>) | Pointer(arc: Arc<State>)

  /** The live references, under one handle each. */
  type Holders<State> = map<nat, Holder<State>>

  /** The number of outside references to an allocation. */
  function Count<State>(holders: Holders<State>, address: nat): nat {
    |set h | h in holders && holders[h].arc.address == address|
  }

  /** The entries that hold an allocation strongly. */
  function Owners<State>(byHash: ByHash<State>, address: nat): set<HeaderId> {
    set k | k in byHash && byHash[k].Retained? && byHash[k].arc.address == address
  }

  function StrongCount<State>(byHash: ByHash<State>, holders: Holders<State>, address: nat): nat {
    Count(holders, address) + |Owners(byHash, address)|
  }

  /** A weak entry can be upgraded while its allocation has a strong reference. */
  function Lookup<State>(byHash: ByHash<State>, holders: Holders<State>, k: HeaderId): Option<Arc<State>> {
    if k !in byHash then None
    else
      match byHash[k]
      case Retained(arc) => Some(arc)
      case Collectable(arc) => if StrongCount(byHash, holders, arc.address) > 0 then Some(arc) else None
  }

  /** The allocations that outside references keep alive. */
  function Pinned<State>(holders: Holders<State>): set<nat> {
    set h | h in holders :: holders[h].arc.address
  }

  lemma PinnedIsCounted<State>(holders: Holders<State>, address: nat)
    ensures address in Pinned(holders) <==> Count(holders, address) > 0
  {
    var counted := set h | h in holders && holders[h].arc.address == address;
    if address in Pinned(holders) {
      var h :| h in holders && holders[h].arc.address == address;
      assert h in counted;
    } else {
      assert forall h :: h in holders ==> holders[h].arc.address in Pinned(holders);
      assert counted == {};
    }
  }

  /** Every entry has an allocation of its own. */
  ghost predicate Distinct<State>(byHash: ByHash<State>) {
    forall a, b :: a in byHash && b in byHash && byHash[a].arc.address == byHash[b].arc.address ==> a == b
  }

  /** The strong count of an entry that has given up its own reference. */
  lemma CountAfterDowngrade<State>(byHash: ByHash<State>, holders: Holders<State>, k: HeaderId)
    requires Distinct(byHash) && k in byHash && byHash[k].Collectable?
    ensures StrongCount(byHash, holders, byHash[k].arc.address) == Count(holders, byHash[k].arc.address)
  {
    assert Owners(byHash, byHash[k].arc.address) == {};
  }

  // ---- The multiverse ----

  function WithId(byLength: ByLength, length: nat, k: HeaderId): ByLength {
    byLength[length := (if length in byLength then byLength[length] else {}) + {k}]
  }

  lemma MaxExists(keys: set<nat>)
    requires keys != {}
    ensures exists m :: m in keys && forall x :: x in keys ==> x <= m
  {
    var y :| y in keys;
    if keys != {y} {
      MaxExists(keys - {y});
      var m :| m in keys - {y} && forall x :: x in keys - {y} ==> x <= m;
      assert forall x :: x in keys ==> x == y || x in keys - {y};
      assert (if y <= m then m else y) in keys;
    }
  }

  /** The last key of the length index. */
  function LastKey(keys: set<nat>): (m: nat)
    requires keys != {}
    ensures m in keys && forall x :: x in keys ==> x <= m
  {
    MaxExists(keys);
    var m :| m in keys && forall x :: x in keys ==> x <= m;
    m
  }

  lemma FirstKeyAgrees(keys: set<nat>, keys': set<nat>, from: nat, limit: nat)
    requires from <= limit && forall x :: from <= x < limit ==> (x in keys <==> x in keys')
    ensures FirstKey(keys, from, limit) == FirstKey(keys', from, limit)
  {
    var a, b := FirstKey(keys, from, limit), FirstKey(keys', from, limit);
    if a.Some? && b.Some? {
      assert a.value <= b.value && b.value <= a.value;
    }
  }

  /** The effect of a whole collection. */
  ghost predicate GcEffect<State>(
    byHash: ByHash<State>, byLength: ByLength, byHash': ByHash<State>, byLength': ByLength,
    cutToDepth: nat, pinned: set<nat>)
  {
    if byLength == map[] || LastKey(byLength.Keys) < cutToDepth then
      byHash' == byHash && byLength' == byLength
    else
      var longest := LastKey(byLength.Keys);
      var kept := Lengths(Kept(byLength.Keys, longest, longest - cutToDepth));
      Collected(byHash, byLength, byHash', byLength', kept, longest - cutToDepth, pinned)
  }

  lemma CollectedDistinct<State>(
    byHash: ByHash<State>, byLength: ByLength, byHash': ByHash<State>, byLength': ByLength,
    kept: set<nat>, scanned: nat, pinned: set<nat>)
    requires Partitioned(byHash, byLength) && Distinct(byHash)
    requires Collected(byHash, byLength, byHash', byLength', kept, scanned, pinned)
    ensures forall k :: k in byHash' ==> k in byHash && byHash'[k].arc == byHash[k].arc
    ensures Distinct(byHash')
  {
    forall k | k in byHash' ensures byHash'[k].arc == byHash[k].arc {
      var length :| Listed(byLength, length, k);
      assert Listed(byLength', length, k) <==> k in byHash';
    }
  }

  lemma PartlyDistinct<State>(
    before: ByHash<State>, after: ByHash<State>, done: set<HeaderId>, pinned: set<nat>)
    requires Distinct(before) && PartlyCollected(before, after, done, pinned)
    ensures Distinct(after)
  {
    forall k | k in after ensures k in before && after[k].arc == before[k].arc {
    }
  }

  /** One header of a set moves from those still to do to those done. */
  lemma CollectStep<State>(
    before: ByHash<State>, after: ByHash<State>, hashes: set<HeaderId>, todo: set<HeaderId>, k: HeaderId, pinned: set<nat>)
    requires todo <= hashes && k in todo && (forall x :: x in hashes ==> x in before)
    requires Distinct(before) && PartlyCollected(before, after, hashes - todo, pinned)
    ensures Distinct(after) && k in after && after[k] == before[k]
    ensures var (done, kept) := (hashes - (todo - {k}), before[k].arc.address in pinned);
            && PartlyCollected(before, if kept then after[k := Collectable(before[k].arc)] else after - {k}, done, pinned)
            && PinnedOf(before, done, pinned) == PinnedOf(before, hashes - todo, pinned) + if kept then {k} else {}
  {
    CollectOne(before, after, hashes - todo, k, pinned);
    PartlyDistinct(before, after, hashes - todo, pinned);
    assert hashes - todo + {k} == hashes - (todo - {k});
  }

  // ---- Worlds ----

  /** A multiverse and the references to its states. */
  datatype World<State> = World(byHash: ByHash<State>, byLength: ByLength, holders: Holders<State>)

  datatype Operation<State> =
    | Add(length: nat, k: HeaderId, arc: Arc<State>, handle: nat)
    | GetState(k: HeaderId, handle: nat)
    | GetRef(k: HeaderId, handle: nat)
    | CloneHolder(source: nat, handle: nat)
    | TakeState(source: nat, handle: nat)
    | DropHolder(handle: nat)
    | Collect(cutToDepth: nat)

  /** An allocation is in use as long as a strong or a weak reference to it is left. */
  ghost predicate InUse<State>(w: World<State>, address: nat) {
    || (exists k :: k in w.byHash && w.byHash[k].arc.address == address)
    || (exists h :: h in w.holders && w.holders[h].arc.address == address)
  }

  /** New allocations and new references are new, and only live references are used. */
  ghost predicate Possible<State>(w: World<State>, op: Operation<State>) {
    match op
    case Add(_, _, arc, handle) => handle !in w.holders && !InUse(w, arc.address)
    case GetState(_, handle) => handle !in w.holders
    case GetRef(_, handle) => handle !in w.holders
    case CloneHolder(source, handle) => source in w.holders && handle !in w.holders
    case TakeState(source, handle) => source in w.holders && handle !in w.holders
    case DropHolder(handle) => handle in w.holders
    case Collect(_) => true
  }

  /** What callers promise: a header has one chain length, and is not inserted again while a
      `Ref` to it is live. */
  ghost predicate Promised<State>(w: World<State>, op: Operation<State>) {
    op.Add? ==>
      && (forall l :: Listed(w.byLength, l, op.k) ==> l == op.length)
      && (forall h :: h in w.holders && w.holders[h].Ref? ==> w.holders[h].id != op.k)
  }

  ghost predicate Next<State>(w: World<State>, op: Operation<State>, w': World<State>)
    requires Possible(w, op)
  {
    match op
    case Add(length, k, arc, handle) =>
      w' == World(w.byHash[k := Retained(arc)], WithId(w.byLength, length, k), w.holders[handle := Ref(k, arc)])
    case GetState(k, handle) =>
      var found := Lookup(w.byHash, w.holders, k);
      w' == if found.Some? then w.(holders := w.holders[handle := Pointer(found.value)]) else w
    case GetRef(k, handle) =>
      var found := Lookup(w.byHash, w.holders, k);
      w' == if found.Some? then w.(holders := w.holders[handle := Ref(k, found.value)]) else w
    case CloneHolder(source, handle) => w' == w.(holders := w.holders[handle := w.holders[source]])
    case TakeState(source, handle) => w' == w.(holders := w.holders[handle := Pointer(w.holders[source].arc)])
    case DropHolder(handle) => w' == w.(holders := w.holders - {handle})
    case Collect(cutToDepth) =>
      w'.holders == w.holders
      && GcEffect(w.byHash, w.byLength, w'.byHash, w'.byLength, cutToDepth, Pinned(w.holders))
  }

  /** The allocator: which references are live, and which names are still unused. */
  class Memory<State> {
    var holders: Holders<State>
    var nextHandle: nat
    var nextAddress: nat

    constructor ()
      ensures holders == map[] && Valid()
    {
      holders, nextHandle, nextAddress := map[], 0, 0;
    }

    ghost predicate Valid()
      reads this
    {
      forall h :: h in holders ==> h < nextHandle && holders[h].arc.address < nextAddress
    }

    /** A new allocation. */
    method Allocate(state: State) returns (arc: Arc<State>)
      requires Valid()
      modifies `nextAddress
      ensures Valid() && arc == Arc(old(nextAddress), state) && nextAddress == old(nextAddress) + 1
    {
      arc := Arc(nextAddress, state);
      nextAddress := nextAddress + 1;
    }

    /** A new reference. */
    method Hold(holder: Holder<State>) returns (handle: nat)
      requires Valid() && holder.arc.address < nextAddress
      modifies `holders, `nextHandle
      ensures Valid() && handle !in old(holders) && holders == old(holders)[handle := holder]
    {
      handle := nextHandle;
      holders := holders[handle := holder];
      nextHandle := nextHandle + 1;
    }

    method Clone(source: nat) returns (handle: nat)
      requires Valid() && source in holders
      modifies `holders, `nextHandle
      ensures Valid() && handle !in old(holders) && holders == old(holders)[handle := old(holders)[source]]
    {
      handle := Hold(holders[source]);
    }

    /** The bare pointer of a reference. */
    method TakeState(source: nat) returns (handle: nat)
      requires Valid() && source in holders
      modifies `holders, `nextHandle
      ensures Valid() && handle !in old(holders)
      ensures holders == old(holders)[handle := Pointer(old(holders)[source].arc)]
    {
      handle := Hold(Pointer(holders[source].arc));
    }

    method Drop(handle: nat)
      requires Valid() && handle in holders
      modifies `holders
      ensures Valid() && holders == old(holders) - {handle}
    {
      holders := holders - {handle};
    }
  }

  class Multiverse<State> {
    const memory: Memory<State>
    var statesByHash: ByHash<State>
    var statesByChainLength: ByLength

    constructor (memory: Memory<State>)
      ensures this.memory == memory && statesByHash == map[] && statesByChainLength == map[]
      ensures Valid()
    {
      this.memory, statesByHash, statesByChainLength := memory, map[], map[];
    }

    ghost predicate Valid()
      reads this
    {
      Partitioned(statesByHash, statesByChainLength) && Distinct(statesByHash)
    }

    /** The addresses of the entries were given out by the allocator. */
    ghost predicate Allocated()
      reads this, memory
    {
      memory.Valid() && forall k :: k in statesByHash ==> statesByHash[k].arc.address < memory.nextAddress
    }

    ghost function Snapshot(): World<State>
      reads this, memory
    {
      World(statesByHash, statesByChainLength, memory.holders)
    }

    /** A pointer to the state, if it is still there. */
    method Get(k: HeaderId) returns (handle: Option<nat>)
      requires Allocated()
      modifies memory
      ensures Allocated()
      ensures handle.Some? <==> Lookup(statesByHash, old(memory.holders), k).Some?
      ensures handle.None? ==> Snapshot() == old(Snapshot())
      ensures handle.Some? ==>
                Possible(old(Snapshot()), GetState(k, handle.value)) &&
                Next(old(Snapshot()), GetState(k, handle.value), Snapshot())
    {
      var found := Lookup(statesByHash, memory.holders, k);
      if found.None? {
        return None;
      }
      var h := memory.Hold(Pointer(found.value));
      return Some(h);
    }

    method GetReference(k: HeaderId) returns (handle: Option<nat>)
      requires Allocated()
      modifies memory
      ensures Allocated()
      ensures handle.Some? <==> Lookup(statesByHash, old(memory.holders), k).Some?
      ensures handle.None? ==> Snapshot() == old(Snapshot())
      ensures handle.Some? ==>
                Possible(old(Snapshot()), GetRef(k, handle.value)) &&
                Next(old(Snapshot()), GetRef(k, handle.value), Snapshot())
    {
      var found := Lookup(statesByHash, memory.holders, k);
      if found.None? {
        return None;
      }
      var h := memory.Hold(Ref(k, found.value));
      return Some(h);
    }

    /** Adds a state in a new allocation and returns a reference that pins it. */
    method Insert(chainLength: nat, k: HeaderId, state: State) returns (handle: nat)
      requires Allocated()
      modifies this, memory
      ensures Allocated() && handle in memory.holders
      ensures var op := Add(chainLength, k, memory.holders[handle].arc, handle);
              && op.arc.state == state
              && Possible(old(Snapshot()), op) && Next(old(Snapshot()), op, Snapshot())
    {
      if chainLength !in statesByChainLength {
        statesByChainLength := statesByChainLength[chainLength := {}];
      }
      statesByChainLength := statesByChainLength[chainLength := statesByChainLength[chainLength] + {k}];
      var arc := memory.Allocate(state);
      statesByHash := statesByHash[k := Retained(arc)];
      handle := memory.Hold(Ref(k, arc));
    }

    /** Collects the states below `cutToDepth`, except in gaps that grow with age. */
    method Gc(cutToDepth: nat)
      requires Valid() && Allocated()
      modifies this
      ensures Valid() && Allocated()
      ensures Next(old(Snapshot()), Collect(cutToDepth), Snapshot())
    {
      if statesByChainLength == map[] {
        return;
      }
      var longest := LastKey(statesByChainLength.Keys);
      if longest < cutToDepth {
        return;
      }
      Scan(longest, longest - cutToDepth, memory.holders);
      ghost var kept := Lengths(Kept(old(statesByChainLength).Keys, longest, longest - cutToDepth));
      CollectedPartitioned(old(statesByHash), old(statesByChainLength), statesByHash, statesByChainLength,
                           kept, longest - cutToDepth, Pinned(memory.holders));
      CollectedDistinct(old(statesByHash), old(statesByChainLength), statesByHash, statesByChainLength,
                        kept, longest - cutToDepth, Pinned(memory.holders));
    }

    /** Visits the lengths below the threshold in ascending order. */
    method Scan(longest: nat, threshold: nat, holders: Holders<State>)
      requires Valid() && threshold <= longest
      modifies this
      ensures Collected(old(statesByHash), old(statesByChainLength), statesByHash, statesByChainLength,
                        Lengths(Kept(old(statesByChainLength).Keys, longest, threshold)), threshold, Pinned(holders))
    {
      ghost var keys := statesByChainLength.Keys;
      ghost var kept: seq<nat> := [];
      var scanLength: nat, toKeep: nat := 0, 0;
      var next := FirstKey(statesByChainLength.Keys, scanLength, threshold);
      while next.Some?
        invariant scanLength <= threshold && next == FirstKey(keys, scanLength, threshold)
        invariant Progress(old(statesByHash), old(statesByChainLength), kept, longest, threshold, scanLength, toKeep, holders)
        decreases threshold - scanLength
      {
        toKeep, kept := CollectAt(
          old(statesByHash), old(statesByChainLength), kept, longest, threshold, scanLength, toKeep, next.value, holders);
        scanLength := next.value + 1;
        next := FirstKey(statesByChainLength.Keys, scanLength, threshold);
        FirstKeyAgrees(statesByChainLength.Keys, keys, scanLength, threshold);
      }
      NothingLeft(old(statesByHash), old(statesByChainLength), statesByHash, statesByChainLength,
                  Lengths(kept), scanLength, threshold, Pinned(holders));
    }

    /** The scan has dealt with all lengths below `scanLength`, of which the rule kept `kept`. */
    ghost predicate Progress(
      m0: ByHash<State>, i0: ByLength, kept: seq<nat>,
      longest: nat, threshold: nat, scanLength: nat, toKeep: nat, holders: Holders<State>)
      requires scanLength <= threshold <= longest
      reads this
    {
      && (forall l :: scanLength <= l ==> (l in statesByChainLength <==> l in i0))
      && Kept(i0.Keys, longest, threshold) == kept + KeptFrom(i0.Keys, longest, threshold, scanLength, toKeep)
      && (forall l :: l in kept ==> l < scanLength)
      && Collected(m0, i0, statesByHash, statesByChainLength, Lengths(kept), scanLength, Pinned(holders))
    }

    /** The loop body: keep the length, or collect its states. */
    method CollectAt(
      ghost m0: ByHash<State>, ghost i0: ByLength, ghost kept: seq<nat>,
      longest: nat, ghost threshold: nat, ghost scanLength: nat, toKeep: nat, chainLength: nat, holders: Holders<State>)
      returns (toKeep': nat, ghost kept': seq<nat>)
      requires scanLength <= threshold <= longest && Partitioned(m0, i0) && Distinct(m0)
      requires Progress(m0, i0, kept, longest, threshold, scanLength, toKeep, holders)
      requires FirstKey(i0.Keys, scanLength, threshold) == Some(chainLength)
      modifies this
      ensures Progress(m0, i0, kept', longest, threshold, chainLength + 1, toKeep', holders)
    {
      ghost var m, i := statesByHash, statesByChainLength;
      CollectedPartitioned(m0, i0, m, i, Lengths(kept), scanLength, Pinned(holders));
      CollectedDistinct(m0, i0, m, i, Lengths(kept), scanLength, Pinned(holders));
      if chainLength >= toKeep {
        toKeep' := chainLength + (longest - chainLength) / 2;
        kept' := kept + [chainLength];
        KeepLength(m0, i0, m, i, Lengths(kept), scanLength, chainLength, Pinned(holders));
        assert Lengths(kept') == Lengths(kept) + {chainLength};
      } else {
        toKeep', kept' := toKeep, kept;
        RetainPinned(chainLength, holders);
        CollectLength(m0, i0, m, i, statesByHash, statesByChainLength, Lengths(kept), scanLength, chainLength, Pinned(holders));
      }
    }

    /** Keeps, of the states at one length, those that some reference pins. */
    method RetainPinned(chainLength: nat, holders: Holders<State>)
      requires Valid() && chainLength in statesByChainLength
      modifies this
      ensures forall k :: k in old(statesByChainLength)[chainLength] ==> k in old(statesByHash)
      ensures LengthCollected(old(statesByHash), old(statesByChainLength), statesByHash, statesByChainLength, chainLength, Pinned(holders))
    {
      var hashes := statesByChainLength[chainLength];
      forall k | k in hashes ensures k in statesByHash {
        assert Listed(statesByChainLength, chainLength, k);
      }
      var retained := CollectHashes(hashes, holders);
      statesByChainLength := statesByChainLength[chainLength := retained];
      if retained == {} {
        statesByChainLength := statesByChainLength - {chainLength};
      }
    }

    /** Each header has an entry: the index never dangles. */
    method CollectHashes(hashes: set<HeaderId>, holders: Holders<State>) returns (retained: set<HeaderId>)
      requires Distinct(statesByHash) && forall k :: k in hashes ==> k in statesByHash
      modifies `statesByHash
      ensures PartlyCollected(old(statesByHash), statesByHash, hashes, Pinned(holders))
      ensures retained == PinnedOf(old(statesByHash), hashes, Pinned(holders))
    {
      retained := {};
      var todo := hashes;
      while todo != {}
        invariant todo <= hashes
        invariant PartlyCollected(old(statesByHash), statesByHash, hashes - todo, Pinned(holders))
        invariant retained == PinnedOf(old(statesByHash), hashes - todo, Pinned(holders))
        decreases |todo|
      {
        var k :| k in todo;
        CollectStep(old(statesByHash), statesByHash, hashes, todo, k, Pinned(holders));
        todo := todo - {k};
        ghost var before := statesByHash;
        var dead := CollectEntry(k, holders);
        if dead {
          statesByHash := statesByHash - {k};
          assert statesByHash == before - {k};
        } else {
          retained := retained + {k};
        }
      }
      assert hashes - todo == hashes;
    }

    /** Gives up the strong reference of an entry; the state is dead if nothing else holds it. */
    method CollectEntry(k: HeaderId, holders: Holders<State>) returns (dead: bool)
      requires Distinct(statesByHash) && k in statesByHash
      modifies `statesByHash
      ensures statesByHash == old(statesByHash)[k := Collectable(old(statesByHash)[k].arc)]
      ensures dead <==> old(statesByHash)[k].arc.address !in Pinned(holders)
    {
      var arc := statesByHash[k].arc;
      if statesByHash[k].Retained? {
        statesByHash := statesByHash[k := Collectable(arc)];
      } else {
        assert statesByHash == statesByHash[k := Collectable(arc)];
      }
      CountAfterDowngrade(statesByHash, holders, k);
      PinnedIsCounted(holders, arc.address);
      dead := StrongCount(statesByHash, holders, arc.address) == 0;
    }
  }

  // ---- What a collection keeps and drops ----

  /** A collection drops a state exactly if it is deep enough, lies in a gap, and no reference
      to it is left. Of the other states it makes those in a gap collectable, and leaves the
      entries of the recent ones and of the kept lengths as they are. */
  lemma GcDropsExactly<State>(w: World<State>, cutToDepth: nat, w': World<State>, length: nat, k: HeaderId)
    requires Partitioned(w.byHash, w.byLength) && Listed(w.byLength, length, k)
    requires Next(w, Collect(cutToDepth), w')
    ensures k in w.byHash
    ensures var longest := LastKey(w.byLength.Keys);
            var inGap := length + cutToDepth < longest && length !in Kept(w.byLength.Keys, longest, longest - cutToDepth);
            && (k !in w'.byHash <==> inGap && Count(w.holders, w.byHash[k].arc.address) == 0)
            && (k in w'.byHash ==>
                  && w'.byHash[k] == (if inGap then Collectable(w.byHash[k].arc) else w.byHash[k])
                  && Listed(w'.byLength, length, k))
  {
    PinnedIsCounted(w.holders, w.byHash[k].arc.address);
  }

  /** A collection leaves the allocation of every entry alone, and keeps the entry if its
      allocation has a reference. */
  lemma GcEntries<State>(w: World<State>, cutToDepth: nat, w': World<State>)
    requires Partitioned(w.byHash, w.byLength) && Next(w, Collect(cutToDepth), w')
    ensures forall k :: k in w'.byHash ==> k in w.byHash && w'.byHash[k].arc == w.byHash[k].arc
    ensures forall k :: k in w'.byHash && w.byHash[k].Collectable? ==> w'.byHash[k].Collectable?
    ensures forall k :: k in w.byHash && w.byHash[k].arc.address in Pinned(w.holders) ==> k in w'.byHash
  {
    forall k | k in w.byHash
      ensures k in w'.byHash ==>
                w'.byHash[k].arc == w.byHash[k].arc && (w.byHash[k].Collectable? ==> w'.byHash[k].Collectable?)
      ensures w.byHash[k].arc.address in Pinned(w.holders) ==> k in w'.byHash
    {
      var length :| Listed(w.byLength, length, k);
      assert Listed(w'.byLength, length, k) <==> k in w'.byHash;
    }
  }

  // ---- Runs ----

  ghost predicate Run<State>(worlds: seq<World<State>>, ops: seq<Operation<State>>) {
    && |worlds| == |ops| + 1
    && worlds[0] == World(map[], map[], map[])
    && forall i, j :: 0 <= i && j == i + 1 && j < |worlds| ==> Steps(worlds[i], ops[i], worlds[j])
  }

  ghost predicate Steps<State>(w: World<State>, op: Operation<State>, w': World<State>) {
    Possible(w, op) && Promised(w, op) && Next(w, op, w')
  }

  /** What holds in every reachable world: the index is a partition, an address stands for one
      allocation, and every live `Ref` agrees with the entry of its header. */
  ghost predicate Sound<State>(w: World<State>) {
    && Partitioned(w.byHash, w.byLength)
    && Distinct(w.byHash)
    && (forall k, h :: k in w.byHash && h in w.holders && w.byHash[k].arc.address == w.holders[h].arc.address ==>
          w.byHash[k].arc == w.holders[h].arc)
    && (forall h1, h2 :: h1 in w.holders && h2 in w.holders && w.holders[h1].arc.address == w.holders[h2].arc.address ==>
          w.holders[h1].arc == w.holders[h2].arc)
    && (forall h :: h in w.holders && w.holders[h].Ref? ==> Agrees(w.byHash, w.holders[h]))
  }

  ghost predicate Agrees<State>(byHash: ByHash<State>, ref: Holder<State>)
    requires ref.Ref?
  {
    ref.id in byHash && byHash[ref.id].arc == ref.arc
  }

  /** Adding a state keeps the index a partition exactly if the header has no other length. */
  lemma AddPartitions<State>(w: World<State>, length: nat, k: HeaderId, arc: Arc<State>)
    requires Partitioned(w.byHash, w.byLength)
    ensures Partitioned(w.byHash[k := Retained(arc)], WithId(w.byLength, length, k)) <==>
            forall l :: Listed(w.byLength, l, k) ==> l == length
  {
    ListedWithId(w.byLength, length, k);
    if forall l :: Listed(w.byLength, l, k) ==> l == length {
      AddKeepsPartition(w.byHash, w.byLength, length, k, Retained(arc));
    } else {
      var l :| Listed(w.byLength, l, k) && l != length;
      assert Listed(WithId(w.byLength, length, k), l, k) && Listed(WithId(w.byLength, length, k), length, k);
    }
  }

  lemma AddKeepsPartition<State>(
    byHash: ByHash<State>, byLength: ByLength, length: nat, k: HeaderId, entry: GcEntry<State>)
    requires Partitioned(byHash, byLength) && forall l :: Listed(byLength, l, k) ==> l == length
    ensures Partitioned(byHash[k := entry], WithId(byLength, length, k))
  {
    var byLength' := WithId(byLength, length, k);
    ListedWithId(byLength, length, k);
    forall x | x in byHash || x == k ensures exists l :: Listed(byLength', l, x) {
      if x == k {
        assert Listed(byLength', length, x);
      } else {
        var l :| Listed(byLength, l, x);
        assert Listed(byLength', l, x);
      }
    }
  }

  lemma ListedWithId(byLength: ByLength, length: nat, k: HeaderId)
    ensures forall l, x :: Listed(WithId(byLength, length, k), l, x) <==> Listed(byLength, l, x) || (l == length && x == k)
  {
  }

  /** An insert keeps all live references in agreement with the entries exactly if none of them
      is to its header. */
  lemma AddKeepsRefs<State>(w: World<State>, op: Operation<State>, w': World<State>)
    requires Sound(w) && op.Add? && Possible(w, op) && Next(w, op, w')
    ensures (forall h :: h in w.holders && w.holders[h].Ref? ==> Agrees(w'.byHash, w.holders[h])) <==>
            (forall h :: h in w.holders && w.holders[h].Ref? ==> w.holders[h].id != op.k)
  {
    forall h | h in w.holders && w.holders[h].Ref? && w.holders[h].id == op.k ensures !Agrees(w'.byHash, w.holders[h]) {
      assert w'.byHash[op.k].arc.address == op.arc.address;
    }
  }

  lemma AddSound<State>(w: World<State>, op: Operation<State>, w': World<State>)
    requires Sound(w) && op.Add? && Steps(w, op, w')
    ensures Sound(w')
  {
    AddPartitions(w, op.length, op.k, op.arc);
    AddKeepsRefs(w, op, w');
  }

  lemma CollectSound<State>(w: World<State>, op: Operation<State>, w': World<State>)
    requires Sound(w) && op.Collect? && Steps(w, op, w')
    ensures Sound(w')
  {
    GcEntries(w, op.cutToDepth, w');
    if w.byLength != map[] && op.cutToDepth <= LastKey(w.byLength.Keys) {
      var longest := LastKey(w.byLength.Keys);
      CollectedPartitioned(w.byHash, w.byLength, w'.byHash, w'.byLength,
                           Lengths(Kept(w.byLength.Keys, longest, longest - op.cutToDepth)),
                           longest - op.cutToDepth, Pinned(w.holders));
    }
    forall h | h in w.holders && w.holders[h].Ref? ensures Agrees(w'.byHash, w.holders[h]) {
      assert Agrees(w.byHash, w.holders[h]);
      assert w.holders[h].arc.address in Pinned(w.holders);
    }
  }

  /** Taking and dropping references. */
  lemma HoldSound<State>(w: World<State>, op: Operation<State>, w': World<State>)
    requires Sound(w) && !op.Add? && !op.Collect? && Steps(w, op, w')
    ensures Sound(w')
  {
  }

  lemma NextSound<State>(w: World<State>, op: Operation<State>, w': World<State>)
    requires Sound(w) && Steps(w, op, w')
    ensures Sound(w')
  {
    if op.Add? {
      AddSound(w, op, w');
    } else if op.Collect? {
      CollectSound(w, op, w');
    } else {
      HoldSound(w, op, w');
    }
  }

  /** Every reachable world is sound; in particular no collection meets a dangling index entry. */
  lemma {:induction false} ReachableSound<State>(worlds: seq<World<State>>, ops: seq<Operation<State>>, i: nat)
    requires Run(worlds, ops) && i < |worlds|
    ensures Sound(worlds[i])
  {
    if i > 0 {
      ReachableSound(worlds, ops, i - 1);
      NextSound(worlds[i - 1], ops[i - 1], worlds[i]);
    }
  }

  /** A lookup answers exactly if the entry is retained or its allocation has a reference. */
  lemma LookupWhen<State>(worlds: seq<World<State>>, ops: seq<Operation<State>>, i: nat, k: HeaderId)
    requires Run(worlds, ops) && i < |worlds|
    ensures var (w, found) := (worlds[i], Lookup(worlds[i].byHash, worlds[i].holders, k));
            && (found.Some? <==> k in w.byHash && (w.byHash[k].Retained? || Count(w.holders, w.byHash[k].arc.address) > 0))
            && (found.Some? ==> found.value == w.byHash[k].arc)
  {
    ReachableSound(worlds, ops, i);
    var w := worlds[i];
    if k in w.byHash && w.byHash[k].Collectable? {
      CountAfterDowngrade(w.byHash, w.holders, k);
    }
  }

  /** The header of every live `Ref` is found, with the allocation that the `Ref` holds. */
  lemma LiveRefIsFound<State>(worlds: seq<World<State>>, ops: seq<Operation<State>>, i: nat, h: nat)
    requires Run(worlds, ops) && i < |worlds| && h in worlds[i].holders && worlds[i].holders[h].Ref?
    ensures var ref := worlds[i].holders[h];
            Lookup(worlds[i].byHash, worlds[i].holders, ref.id) == Some(ref.arc)
  {
    var (w, ref) := (worlds[i], worlds[i].holders[h]);
    ReachableSound(worlds, ops, i);
    LookupWhen(worlds, ops, i, ref.id);
    assert Agrees(w.byHash, ref);
    assert ref.arc.address in Pinned(w.holders);
    PinnedIsCounted(w.holders, ref.arc.address);
  }

  /** From the step that takes a `Ref` until the one that drops it, its header is found with
      the same allocation, whatever is collected. */
  lemma {:induction false} HeldRefIsFound<State>(
    worlds: seq<World<State>>, ops: seq<Operation<State>>, i: nat, j: nat, h: nat)
    requires Run(worlds, ops) && i <= j < |worlds| && h in worlds[i].holders && worlds[i].holders[h].Ref?
    requires forall n :: i <= n < j ==> ops[n] != DropHolder(h)
    ensures h in worlds[j].holders && worlds[j].holders[h] == worlds[i].holders[h]
    ensures var ref := worlds[i].holders[h];
            Lookup(worlds[j].byHash, worlds[j].holders, ref.id) == Some(ref.arc)
    decreases j - i
  {
    if i < j {
      HeldRefIsFound(worlds, ops, i, j - 1, h);
      assert Steps(worlds[j - 1], ops[j - 1], worlds[j]);
    }
    LiveRefIsFound(worlds, ops, j, h);
  }

  /** The header `k` is listed at `length` and holds its state by itself. */
  ghost predicate Holds<State>(w: World<State>, length: nat, k: HeaderId, arc: Arc<State>) {
    k in w.byHash && w.byHash[k] == Retained(arc) && Listed(w.byLength, length, k)
  }

  /** The operation neither inserts `k` anew nor collects its length. */
  ghost predicate Leaves<State>(w: World<State>, op: Operation<State>, length: nat, k: HeaderId) {
    match op
    case Add(_, x, _, _) => x != k
    case Collect(cutToDepth) =>
      w.byLength != map[] ==>
        var longest := LastKey(w.byLength.Keys);
        longest <= length + cutToDepth || length in Kept(w.byLength.Keys, longest, longest - cutToDepth)
    case _ => true
  }

  lemma NextHolds<State>(w: World<State>, op: Operation<State>, w': World<State>, length: nat, k: HeaderId, arc: Arc<State>)
    requires Sound(w) && Steps(w, op, w') && Holds(w, length, k, arc) && Leaves(w, op, length, k)
    ensures Holds(w', length, k, arc)
  {
    if op.Collect? {
      GcDropsExactly(w, op.cutToDepth, w', length, k);
    }
  }

  /** An inserted state is found without any reference to it, until a collection takes its length or
      its header is inserted anew. */
  lemma {:induction false} InsertedIsFound<State>(worlds: seq<World<State>>, ops: seq<Operation<State>>, i: nat, j: nat)
    requires Run(worlds, ops) && i < j < |worlds| && ops[i].Add?
    requires forall n :: i < n < j ==> Leaves(worlds[n], ops[n], ops[i].length, ops[i].k)
    ensures Holds(worlds[j], ops[i].length, ops[i].k, ops[i].arc)
    ensures Lookup(worlds[j].byHash, worlds[j].holders, ops[i].k) == Some(ops[i].arc)
    decreases j - i
  {
    assert Steps(worlds[j - 1], ops[j - 1], worlds[j]);
    if i + 1 < j {
      InsertedIsFound(worlds, ops, i, j - 1);
      ReachableSound(worlds, ops, j - 1);
      NextHolds(worlds[j - 1], ops[j - 1], worlds[j], ops[i].length, ops[i].k, ops[i].arc);
    }
    LookupWhen(worlds, ops, j, ops[i].k);
  }

  /** What the new handle of an operation is: an insertion and a lookup by reference give a reference
      to the header, the other lookup and taking the state a pointer, and cloning the same again. */
  lemma NewHandles<State>(w: World<State>, op: Operation<State>, w': World<State>)
    requires Sound(w) && Steps(w, op, w')
    ensures match op
            case Add(_, k, arc, handle) => w'.holders == w.holders[handle := Ref(k, arc)]
            case GetState(k, handle) =>
              (match Lookup(w.byHash, w.holders, k)
               case Some(arc) => w'.holders == w.holders[handle := Pointer(arc)]
               case None => w' == w)
            case GetRef(k, handle) =>
              (match Lookup(w.byHash, w.holders, k)
               case Some(arc) => w'.holders == w.holders[handle := Ref(k, arc)]
               case None => w' == w)
            case CloneHolder(source, handle) => w'.holders == w.holders[handle := w.holders[source]]
            case TakeState(source, handle) => w'.holders == w.holders[handle := Pointer(w.holders[source].arc)]
            case DropHolder(handle) => w'.holders == w.holders - {handle}
            case Collect(_) => w'.holders == w.holders
  {
  }

  /** Nothing holds the state of `k` any more. */
  ghost predicate Dead<State>(w: World<State>, k: HeaderId) {
    k in w.byHash ==> w.byHash[k].Collectable? && w.byHash[k].arc.address !in Pinned(w.holders)
  }

  lemma NextDead<State>(w: World<State>, op: Operation<State>, w': World<State>, k: HeaderId)
    requires Sound(w) && Steps(w, op, w') && Dead(w, k)
    requires op.Add? ==> op.k != k
    ensures Dead(w', k)
  {
    if op.Collect? {
      GcEntries(w, op.cutToDepth, w');
    } else if k in w.byHash && (op.GetState? || op.GetRef?) {
      var found := Lookup(w.byHash, w.holders, op.k);
      if found.Some? && found.value.address == w.byHash[k].arc.address {
        CountAfterDowngrade(w.byHash, w.holders, k);
        PinnedIsCounted(w.holders, w.byHash[k].arc.address);
      }
    }
  }

  /** A dead state is never found again, until its header is inserted anew. */
  lemma {:induction false} DeadStaysDead<State>(
    worlds: seq<World<State>>, ops: seq<Operation<State>>, i: nat, j: nat, k: HeaderId)
    requires Run(worlds, ops) && i <= j < |worlds| && Dead(worlds[i], k)
    requires forall n :: i <= n < j && ops[n].Add? ==> ops[n].k != k
    ensures Dead(worlds[j], k) && Lookup(worlds[j].byHash, worlds[j].holders, k) == None
    decreases j - i
  {
    if i < j {
      DeadStaysDead(worlds, ops, i, j - 1, k);
      ReachableSound(worlds, ops, j - 1);
      NextDead(worlds[j - 1], ops[j - 1], worlds[j], k);
    }
    LookupWhen(worlds, ops, j, k);
    if k in worlds[j].byHash {
      PinnedIsCounted(worlds[j].holders, worlds[j].byHash[k].arc.address);
    }
  }
}
