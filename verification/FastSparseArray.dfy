/** A sparse array that forgets removed indices but keeps their values until it is shrunk. */
module FastSparseArrays {
  import opened Bitmap
  import opened SparseArrays
  import opened Wrappers

  /** The state of the array: the live indices, and values for these and for stale indices. */
  datatype Fast<V> = Fast(index: BitmapIndex, data: SparseArray<V>) {
    ghost predicate Valid() {
      index.Valid() && data.Valid() && forall i: nat :: index.Has(i) ==> data.index.Has(i)
    }

    /** What the array stands for: stale values do not count. */
    ghost function Contents(): map<nat, V>
      requires Valid()
    {
      Restricted(data, index)
    }

    function Get(idx: nat): Option<V>
      requires Valid() && idx < SIZE
    {
      if !index.GetIndex(idx) then None else data.Get(idx)
    }

    function Set(idx: nat, value: V): Fast<V>
      requires Valid() && idx < SIZE
    {
      Fast(index.SetIndex(idx), data.Set(idx, value))
    }

    function Remove(idx: nat): (Fast<V>, Option<V>)
      requires Valid() && idx < SIZE
    {
      if index.GetIndex(idx) then (this.(index := index.RemoveIndex(idx)), data.Get(idx)) else (this, None)
    }
  }

  // ---- Refinement of a map ----

  lemma FastGet<V>(a: Fast<V>, idx: nat)
    requires a.Valid() && idx < SIZE
    ensures a.Get(idx) == if idx in a.Contents() then Some(a.Contents()[idx]) else None
    ensures a.index.GetIndex(idx) <==> idx in a.Contents()
  {
    GetIndexIsHas(a.index, idx);
    GetIsLookup(a.data, idx);
  }

  lemma FastSet<V>(a: Fast<V>, idx: nat, value: V)
    requires a.Valid() && idx < SIZE
    ensures a.Set(idx, value).Valid() && a.Set(idx, value).Contents() == a.Contents()[idx := value]
  {
    var a' := a.Set(idx, value);
    SetIndexAdds(a.index, idx);
    SetIsUpdate(a.data, idx, value);
    forall i: nat | i < SIZE && a'.index.Has(i)
      ensures a'.data.At(i) == if i == idx then value else a.data.At(i)
    {
      assert i in a'.data.Contents();
    }
  }

  lemma FastRemove<V>(a: Fast<V>, idx: nat)
    requires a.Valid() && idx < SIZE
    ensures var (a', v) := a.Remove(idx);
            a'.Valid() && a'.Contents() == a.Contents() - {idx} && v == a.Get(idx)
  {
    GetIndexIsHas(a.index, idx);
    RestrictedWithout(a.data, a.index, idx);
  }

  lemma FastEmpty<V>(a: Fast<V>)
    requires a.Valid()
    ensures a.index.IsEmpty() <==> a.Contents() == map[]
  {
    FirstIndexIsLeast(a.index);
    if i: nat :| a.index.Has(i) {
      assert i in a.Contents();
    }
  }

  /** Any sequence of operations on the array is the same sequence on a plain map. Shrinking
      may replace the values by any dense array of the same contents. */
  datatype Operation<V> = SetValue(idx: nat, value: V) | RemoveValue(idx: nat) | ShrinkTo(data: SparseArray<V>)

  ghost predicate Allowed<V>(a: Fast<V>, op: Operation<V>)
    requires a.Valid()
  {
    match op
    case SetValue(idx, _) => idx < SIZE
    case RemoveValue(idx) => idx < SIZE
    case ShrinkTo(data) => data.Valid() && data.Contents() == a.Contents()
  }

  function Applied<V>(a: Fast<V>, op: Operation<V>): Fast<V>
    requires a.Valid() && Allowed(a, op)
  {
    match op
    case SetValue(idx, value) => a.Set(idx, value)
    case RemoveValue(idx) => a.Remove(idx).0
    case ShrinkTo(data) => a.(data := data)
  }

  function OnMap<V>(m: map<nat, V>, op: Operation<V>): map<nat, V> {
    match op
    case SetValue(idx, value) => m[idx := value]
    case RemoveValue(idx) => m - {idx}
    case ShrinkTo(_) => m
  }

  function MapAfter<V>(m: map<nat, V>, ops: seq<Operation<V>>): map<nat, V> {
    if ops == [] then m else OnMap(MapAfter(m, ops[..|ops| - 1]), ops[|ops| - 1])
  }

  ghost predicate Moves<V>(a: Fast<V>, op: Operation<V>, a': Fast<V>) {
    a.Valid() ==> Allowed(a, op) && a' == Applied(a, op)
  }

  lemma {:induction false} RunAgreesWithMap<V>(states: seq<Fast<V>>, ops: seq<Operation<V>>, n: nat)
    requires |states| == |ops| + 1 && n <= |ops| && states[0].Valid()
    requires forall i, j :: 0 <= i && j == i + 1 && j < |states| ==> Moves(states[i], ops[i], states[j])
    ensures states[n].Valid() && states[n].Contents() == MapAfter(states[0].Contents(), ops[..n])
    decreases n
  {
    if n > 0 {
      RunAgreesWithMap(states, ops, n - 1);
      assert Moves(states[n - 1], ops[n - 1], states[n]);
      AppliedOnMap(states[n - 1], ops[n - 1]);
      assert ops[..n][..n - 1] == ops[..n - 1];
    }
  }

  lemma AppliedOnMap<V>(a: Fast<V>, op: Operation<V>)
    requires a.Valid() && Allowed(a, op)
    ensures Applied(a, op).Valid() && Applied(a, op).Contents() == OnMap(a.Contents(), op)
  {
    match op
    case SetValue(idx, value) => FastSet(a, idx, value);
    case RemoveValue(idx) => FastRemove(a, idx);
    case ShrinkTo(data) => Compacted(a, data);
  }

  // ---- The array ----

  class FastSparseArray<V> {
    var index: BitmapIndex
    var data: SparseArray<V>

    ghost function State(): Fast<V>
      reads this
    {
      Fast(index, data)
    }

    ghost predicate Valid()
      reads this
    {
      State().Valid()
    }

    ghost function Contents(): map<nat, V>
      reads this
      requires Valid()
    {
      State().Contents()
    }

    constructor ()
      ensures Valid() && Contents() == map[]
    {
      index, data := NO_INDEX, Empty();
      new;
      NoIndexIsEmpty();
      EmptyIsEmpty<V>();
    }

    /** A copy of another array's state. */
    constructor Clone(a: Fast<V>)
      requires a.Valid()
      ensures Valid() && State() == a
    {
      index, data := a.index, a.data;
    }

    method Get(idx: nat) returns (r: Option<V>)
      requires Valid() && idx < SIZE
      ensures r == if idx in Contents() then Some(Contents()[idx]) else None
    {
      FastGet(State(), idx);
      r := if !index.GetIndex(idx) then None else data.Get(idx);
    }

    method Set(idx: nat, value: V)
      requires Valid() && idx < SIZE
      modifies this
      ensures Valid() && Contents() == old(Contents())[idx := value]
      ensures State() == old(State()).Set(idx, value)
    {
      FastSet(State(), idx, value);
      data := data.Set(idx, value);
      index := index.SetIndex(idx);
    }

    method Remove(idx: nat) returns (r: Option<V>)
      requires Valid() && idx < SIZE
      modifies this
      ensures Valid() && Contents() == old(Contents()) - {idx}
      ensures r == if idx in old(Contents()) then Some(old(Contents())[idx]) else None
      ensures (State(), r) == old(State()).Remove(idx)
    {
      FastGet(State(), idx);
      FastRemove(State(), idx);
      if index.GetIndex(idx) {
        index := index.RemoveIndex(idx);
        return data.Get(idx);
      }
      return None;
    }

    method IsEmpty() returns (r: bool)
      requires Valid()
      ensures r <==> Contents() == map[]
    {
      FastEmpty(State());
      r := index.IsEmpty();
    }

    method ContainsKey(idx: nat) returns (r: bool)
      requires Valid() && idx < SIZE
      ensures r <==> idx in Contents()
    {
      FastGet(State(), idx);
      r := index.GetIndex(idx);
    }

    /** Drops the stale values. */
    method Shrink()
      requires Valid()
      modifies this
      ensures Valid() && Contents() == old(Contents())
      ensures forall i: nat :: data.index.Has(i) <==> index.Has(i)
    {
      var compact := CopyLive(Fast(index, data));
      Compacted(State(), compact);
      data := compact;
    }
  }

  /** Builds a dense array of the live values. */
  method CopyLive<V>(a: Fast<V>) returns (data: SparseArray<V>)
    requires a.Valid()
    ensures data.Valid() && data.Contents() == a.Contents()
  {
    var values := new FastSparseArrayIter(a);
    var builder := new SparseArrayBuilder();
    var entry := values.Next();
    CopiedStart(a.Contents(), entry, values.Left());
    while entry.Some?
      invariant fresh(values) && fresh(builder) && values.Valid() && builder.Valid()
      invariant Copied(a.Contents(), builder.Contents(), entry, values.Left())
      decreases |values.Left()| + if entry.Some? then 1 else 0
    {
      ghost var done, left, copied := builder.Contents(), values.Left(), entry;
      builder.Set(entry.value.0, entry.value.1);
      entry := values.Next();
      CopiedNext(a.Contents(), done, copied, left, entry, values.Left());
    }
    CopiedAll(a.Contents(), builder.Contents(), entry, values.Left());
    data := builder.Build();
  }

  lemma Compacted<V>(a: Fast<V>, data: SparseArray<V>)
    requires a.Valid() && data.Valid() && data.Contents() == a.Contents()
    ensures forall i: nat :: data.index.Has(i) <==> a.index.Has(i)
    ensures Fast(a.index, data).Valid() && Fast(a.index, data).Contents() == a.Contents()
  {
    forall i: nat ensures data.index.Has(i) <==> a.index.Has(i) {
      assert i in data.Contents() <==> i in a.Contents();
    }
    forall i: nat | data.index.Has(i) ensures data.At(i) == a.data.At(i) {
      assert data.Contents()[i] == a.Contents()[i];
    }
  }

  /** Taking the next entry of the rest. */
  ghost predicate Taken<V>(left: map<nat, V>, entry: Option<(nat, V)>, left': map<nat, V>) {
    if entry.None? then left == map[] && left' == left
    else
      entry.value.0 < SIZE && entry.value.0 in left && left[entry.value.0] == entry.value.1 && left' == left - {entry.value.0}
  }

  lemma CopiedStart<V>(contents: map<nat, V>, next: Option<(nat, V)>, left': map<nat, V>)
    requires Taken(contents, next, left')
    ensures Copied(contents, map[], next, left')
  {
  }

  lemma CopiedNext<V>(
    contents: map<nat, V>, done: map<nat, V>, entry: Option<(nat, V)>, left: map<nat, V>,
    next: Option<(nat, V)>, left': map<nat, V>)
    requires entry.Some? && Copied(contents, done, entry, left) && Taken(left, next, left')
    ensures Copied(contents, done[entry.value.0 := entry.value.1], next, left')
    ensures |left'| + (if next.Some? then 1 else 0) == |left|
  {
    if next.Some? {
      assert left == left'[next.value.0 := next.value.1];
    }
  }

  lemma CopiedAll<V>(contents: map<nat, V>, done: map<nat, V>, entry: Option<(nat, V)>, left: map<nat, V>)
    requires entry.None? && Copied(contents, done, entry, left)
    ensures done == contents
  {
  }

  /** Of the contents, a part has been copied, an entry is at hand, and the rest is left. */
  ghost predicate Copied<V>(contents: map<nat, V>, done: map<nat, V>, entry: Option<(nat, V)>, left: map<nat, V>) {
    && (forall k :: k in done ==> k in contents && done[k] == contents[k])
    && (forall k :: k in left ==> k in contents && left[k] == contents[k])
    && (entry.Some? ==> entry.value.0 in contents && entry.value.0 < SIZE && contents[entry.value.0] == entry.value.1)
    && (forall k :: k in contents ==> k in done || k in left || (entry.Some? && entry.value.0 == k))
    && (entry.None? ==> left == map[])
  }

  class FastSparseArrayBuilder<V> {
    var index: BitmapIndex
    const data: SparseArrayBuilder<V>

    ghost predicate Valid()
      reads this, data
    {
      Fast(index, SparseArray(data.index, data.data)).Valid()
    }

    ghost function Contents(): map<nat, V>
      reads this, data
      requires Valid()
    {
      Fast(index, SparseArray(data.index, data.data)).Contents()
    }

    constructor ()
      ensures Valid() && Contents() == map[] && fresh(data)
    {
      index := NO_INDEX;
      data := new SparseArrayBuilder();
      new;
      NoIndexIsEmpty();
    }

    method Set(idx: nat, value: V)
      requires Valid() && idx < SIZE
      modifies this, data
      ensures Valid() && Contents() == old(Contents())[idx := value]
    {
      FastSet(Fast(index, SparseArray(data.index, data.data)), idx, value);
      index := index.SetIndex(idx);
      data.Set(idx, value);
    }

    method Build() returns (a: Fast<V>)
      requires Valid()
      ensures a.Valid() && a.Contents() == Contents()
    {
      a := Fast(index, SparseArray(data.index, data.data));
    }
  }

  class FastSparseArrayIter<V> {
    var bitmap: BitmapIndex
    const sparseArray: Fast<V>

    ghost predicate Valid()
      reads this
    {
      bitmap.Valid() && sparseArray.Valid() && forall i: nat :: bitmap.Has(i) ==> sparseArray.index.Has(i)
    }

    /** What the iteration still has to yield. */
    ghost function Left(): map<nat, V>
      reads this
      requires Valid()
    {
      Restricted(sparseArray.data, bitmap)
    }

    constructor (a: Fast<V>)
      requires a.Valid()
      ensures Valid() && sparseArray == a && Left() == a.Contents()
    {
      bitmap, sparseArray := a.index, a;
    }

    /** Yields the least key left, which always has a value. */
    method Next() returns (r: Option<(nat, V)>)
      requires Valid()
      modifies this
      ensures Valid()
      ensures var (before, after) := (old(Left()), Left());
              Taken(before, r, after)
              && EntriesFrom(before, 0) == (if r.Some? then [r.value] else []) + EntriesFrom(after, 0)
    {
      FirstEntry(sparseArray.data, bitmap);
      FirstIndexIsLeast(bitmap);
      match bitmap.GetFirstIndex()
      case None =>
        r := None;
      case Some(idx) =>
        FastGet(sparseArray, idx);
        bitmap := bitmap.RemoveIndex(idx);
        r := Some((idx, sparseArray.Get(idx).value));
    }
  }
}
