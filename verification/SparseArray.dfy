/** An array of up to 256 values stored densely, in the order of their indices. */
module SparseArrays {
  import opened Bitmap
  import opened Wrappers

  datatype SparseArray<V> = SparseArray(index: BitmapIndex, data: seq<V>) {
    /** One value for each member of the index. */
    ghost predicate Valid() {
      index.Valid() && |data| == index.Rank(SIZE)
    }

    function Get(idx: nat): Option<V>
      requires Valid() && idx < SIZE
    {
      RealIndexIsRank(index, idx);
      RankGrows(index, idx, SIZE);
      var position := index.GetRealIndex(idx);
      if position.Some? then Some(data[position.value]) else None
    }

    function Set(idx: nat, value: V): SparseArray<V>
      requires Valid() && idx < SIZE
    {
      RealIndexIsRank(index, idx);
      RankGrows(index, idx, SIZE);
      match index.GetRealIndex(idx)
      case Some(position) => SparseArray(index, data[position := value])
      case None =>
        var index' := index.SetIndex(idx);
        RealIndexAfterSet(index, idx);
        var position := index'.GetRealIndex(idx).value;
        SparseArray(index', data[..position] + [value] + data[position..])
    }

    function Remove(idx: nat): (SparseArray<V>, Option<V>)
      requires Valid() && idx < SIZE
    {
      RealIndexIsRank(index, idx);
      RankGrows(index, idx, SIZE);
      match index.GetRealIndex(idx)
      case Some(position) =>
        (SparseArray(index.RemoveIndex(idx), data[..position] + data[position + 1..]), Some(data[position]))
      case None => (SparseArray(index.RemoveIndex(idx), data), None)
    }

    /** What the array stands for. */
    ghost function Contents(): map<nat, V>
      requires Valid()
    {
      map i: nat | i < SIZE && index.Has(i) :: At(i)
    }

    ghost function At(i: nat): V
      requires Valid() && index.Has(i)
    {
      RankGrows(index, i, SIZE);
      data[index.Rank(i)]
    }
  }

  function Empty<V>(): SparseArray<V> {
    SparseArray(NO_INDEX, [])
  }

  lemma EmptyIsEmpty<V>()
    ensures Empty<V>().Valid() && Empty<V>().Contents() == map[]
  {
    NoIndexIsEmpty();
    NoRank(NO_INDEX, SIZE);
  }

  lemma {:induction false} NoRank(b: BitmapIndex, i: nat)
    requires forall j :: !b.Has(j)
    ensures b.Rank(i) == 0
    decreases i
  {
    if i > 0 {
      NoRank(b, i - 1);
    }
  }

  lemma RealIndexAfterSet(b: BitmapIndex, idx: nat)
    requires b.Valid() && idx < SIZE && !b.Has(idx)
    ensures b.SetIndex(idx).GetRealIndex(idx) == Some(b.Rank(idx))
    ensures b.Rank(idx) <= b.Rank(SIZE)
  {
    SetIndexAdds(b, idx);
    RealIndexIsRank(b.SetIndex(idx), idx);
    RankWith(b, b.SetIndex(idx), idx, idx);
    RankGrows(b, idx, SIZE);
  }

  // ---- Refinement of a map ----

  lemma GetIsLookup<V>(a: SparseArray<V>, idx: nat)
    requires a.Valid() && idx < SIZE
    ensures a.Get(idx) == if idx in a.Contents() then Some(a.Contents()[idx]) else None
  {
    RealIndexIsRank(a.index, idx);
  }

  lemma SetIsUpdate<V>(a: SparseArray<V>, idx: nat, value: V)
    requires a.Valid() && idx < SIZE
    ensures a.Set(idx, value).Valid() && a.Set(idx, value).Contents() == a.Contents()[idx := value]
    ensures forall i: nat :: a.Set(idx, value).index.Has(i) <==> a.index.Has(i) || i == idx
  {
    if a.index.Has(idx) {
      Overwrite(a, idx, value);
    } else {
      Insert(a, idx, value);
    }
  }

  lemma Overwrite<V>(a: SparseArray<V>, idx: nat, value: V)
    requires a.Valid() && a.index.Has(idx)
    ensures var a' := a.Set(idx, value);
            a'.Valid() && a'.index == a.index && a'.Contents() == a.Contents()[idx := value]
  {
    var a' := a.Set(idx, value);
    RealIndexIsRank(a.index, idx);
    RankGrows(a.index, idx, SIZE);
    assert a' == SparseArray(a.index, a.data[a.index.Rank(idx) := value]);
    forall i: nat | i < SIZE && a.index.Has(i)
      ensures a'.At(i) == if i == idx then value else a.At(i)
    {
      RankGrows(a.index, i, SIZE);
      if i != idx {
        DistinctRanks(a.index, i, idx);
      }
    }
  }

  lemma DistinctRanks(b: BitmapIndex, i: nat, j: nat)
    requires b.Has(i) && b.Has(j) && i != j
    ensures b.Rank(i) != b.Rank(j)
  {
    RankGrows(b, if i < j then i else j, if i < j then j else i);
  }

  lemma Insert<V>(a: SparseArray<V>, idx: nat, value: V)
    requires a.Valid() && idx < SIZE && !a.index.Has(idx)
    ensures var a' := a.Set(idx, value);
            && a'.Valid() && a'.Contents() == a.Contents()[idx := value]
            && forall i: nat :: a'.index.Has(i) <==> a.index.Has(i) || i == idx
  {
    var a' := a.Set(idx, value);
    RealIndexIsRank(a.index, idx);
    RealIndexAfterSet(a.index, idx);
    SetIndexAdds(a.index, idx);
    RankWith(a.index, a'.index, idx, SIZE);
    forall i: nat | i < SIZE && a'.index.Has(i)
      ensures a'.At(i) == if i == idx then value else a.At(i)
    {
      RankWith(a.index, a'.index, idx, i);
      RankGrows(a.index, if i < idx then i else idx, if i < idx then idx else i);
      RankGrows(a.index, i, SIZE);
    }
  }

  lemma RemoveIsRemoval<V>(a: SparseArray<V>, idx: nat)
    requires a.Valid() && idx < SIZE
    ensures var (a', v) := a.Remove(idx);
            && a'.Valid() && a'.Contents() == a.Contents() - {idx}
            && v == a.Get(idx)
  {
    RemoveIndexRemoves(a.index, idx);
    RealIndexIsRank(a.index, idx);
    if a.index.Has(idx) {
      RankGrows(a.index, idx, SIZE);
      Shift(a, a.index.RemoveIndex(idx), idx);
    } else {
      Reindex(a, a.index.RemoveIndex(idx));
    }
  }

  /** The values above a removed one move down. */
  lemma Shift<V>(a: SparseArray<V>, index: BitmapIndex, idx: nat)
    requires a.Valid() && a.index.Has(idx) && index.Valid()
    requires forall i: nat :: index.Has(i) <==> a.index.Has(i) && i != idx
    ensures var r := a.index.Rank(idx);
            && r < |a.data|
            && var a' := SparseArray(index, a.data[..r] + a.data[r + 1..]);
            a'.Valid() && a'.Contents() == a.Contents() - {idx}
  {
    var r := a.index.Rank(idx);
    RankGrows(a.index, idx, SIZE);
    RankWith(index, a.index, idx, SIZE);
    var a' := SparseArray(index, a.data[..r] + a.data[r + 1..]);
    assert a'.Valid();
    forall i: nat | i < SIZE && index.Has(i) ensures a'.At(i) == a.At(i) {
      RankWith(index, a.index, idx, i);
      RankGrows(a.index, if i < idx then i else idx, if i < idx then idx else i);
      RankGrows(a.index, i, SIZE);
    }
  }

  lemma Reindex<V>(a: SparseArray<V>, index: BitmapIndex)
    requires a.Valid() && index.Valid() && forall i: nat :: index.Has(i) <==> a.index.Has(i)
    ensures var a' := SparseArray(index, a.data); a'.Valid() && a'.Contents() == a.Contents()
  {
    RankSame(a.index, index, SIZE);
    var a' := SparseArray(index, a.data);
    forall i: nat | i < SIZE && index.Has(i) ensures a'.At(i) == a.At(i) {
      RankSame(a.index, index, i);
    }
  }

  // ---- Building and iterating ----

  class SparseArrayBuilder<V> {
    var index: BitmapIndex
    var data: seq<V>

    ghost predicate Valid()
      reads this
    {
      SparseArray(index, data).Valid()
    }

    ghost function Contents(): map<nat, V>
      reads this
      requires Valid()
    {
      SparseArray(index, data).Contents()
    }

    constructor ()
      ensures Valid() && Contents() == map[]
    {
      index, data := NO_INDEX, [];
      new;
      EmptyIsEmpty<V>();
    }

    method Set(idx: nat, value: V)
      requires Valid() && idx < SIZE
      modifies this
      ensures Valid() && Contents() == old(Contents())[idx := value]
      ensures SparseArray(index, data) == old(SparseArray(index, data).Set(idx, value))
    {
      SetIsUpdate(SparseArray(index, data), idx, value);
      RealIndexIsRank(index, idx);
      match index.GetRealIndex(idx)
      case Some(position) =>
        RankGrows(index, idx, SIZE);
        data := data[position := value];
      case None =>
        RealIndexAfterSet(index, idx);
        index := index.SetIndex(idx);
        var position := index.GetRealIndex(idx).value;
        data := data[..position] + [value] + data[position..];
    }

    method Build() returns (a: SparseArray<V>)
      requires Valid()
      ensures a.Valid() && a.Contents() == Contents()
    {
      a := SparseArray(index, data);
    }
  }

  /** The entries of a map from `from` on, by ascending key. */
  ghost function EntriesFrom<V>(m: map<nat, V>, from: nat): seq<(nat, V)>
    decreases SIZE - from
  {
    if from >= SIZE then []
    else (if from in m then [(from, m[from])] else []) + EntriesFrom(m, from + 1)
  }

  lemma {:induction false} EntriesFromFirst<V>(m: map<nat, V>, from: nat, first: nat)
    requires from <= first < SIZE && first in m && forall i: nat :: from <= i < first ==> i !in m
    ensures EntriesFrom(m, from) == [(first, m[first])] + EntriesFrom(m, first + 1)
    decreases first - from
  {
    if from < first {
      EntriesFromFirst(m, from + 1, first);
    }
  }

  lemma {:induction false} EntriesSame<V>(m: map<nat, V>, m': map<nat, V>, from: nat)
    requires forall i: nat :: from <= i ==> (i in m <==> i in m') && (i in m ==> m[i] == m'[i])
    ensures EntriesFrom(m, from) == EntriesFrom(m', from)
    decreases SIZE - from
  {
    if from < SIZE {
      EntriesSame(m, m', from + 1);
    }
  }

  lemma {:induction false} EntriesNone<V>(m: map<nat, V>, from: nat)
    requires forall i: nat :: from <= i < SIZE ==> i !in m
    ensures EntriesFrom(m, from) == []
    decreases SIZE - from
  {
    if from < SIZE {
      EntriesNone(m, from + 1);
    }
  }

  /** Taking out the least key takes the first entry away. */
  lemma EntriesWithout<V>(m: map<nat, V>, first: nat)
    requires first < SIZE && first in m && forall i: nat :: i < first ==> i !in m
    ensures EntriesFrom(m, 0) == [(first, m[first])] + EntriesFrom(m - {first}, 0)
  {
    EntriesFromFirst(m, 0, first);
    EntriesSame(m, m - {first}, first + 1);
    if forall i: nat :: first < i < SIZE ==> i !in m {
      EntriesNone(m, first + 1);
      EntriesNone(m - {first}, 0);
    } else {
      EntriesSkip(m - {first}, 0, first + 1);
    }
  }

  lemma {:induction false} EntriesSkip<V>(m: map<nat, V>, from: nat, limit: nat)
    requires from <= limit && forall i: nat :: from <= i < limit ==> i !in m
    ensures EntriesFrom(m, from) == EntriesFrom(m, limit)
    decreases limit - from
  {
    if from < limit {
      EntriesSkip(m, from + 1, limit);
    }
  }

  ghost predicate Ascending<V>(es: seq<(nat, V)>, from: nat) {
    && (forall i :: 0 <= i < |es| ==> from <= es[i].0)
    && (forall i, j :: 0 <= i < j < |es| ==> es[i].0 < es[j].0)
  }

  lemma ConsAscends<V>(e: (nat, V), rest: seq<(nat, V)>)
    requires Ascending(rest, e.0 + 1)
    ensures Ascending([e] + rest, e.0)
  {
    var es := [e] + rest;
    forall i | 0 <= i < |es| ensures e.0 <= es[i].0 {
      assert i > 0 ==> es[i] == rest[i - 1];
    }
    forall i, j | 0 <= i < j < |es| ensures es[i].0 < es[j].0 {
      assert es[j] == rest[j - 1];
      assert i > 0 ==> es[i] == rest[i - 1];
    }
  }

  lemma {:induction false} EntriesAscend<V>(m: map<nat, V>, from: nat)
    ensures Ascending(EntriesFrom(m, from), from)
    decreases SIZE - from
  {
    if from < SIZE {
      EntriesAscend(m, from + 1);
      var rest := EntriesFrom(m, from + 1);
      if from in m {
        ConsAscends((from, m[from]), rest);
      } else {
        assert EntriesFrom(m, from) == rest;
      }
    }
  }

  lemma {:induction false} EntriesContain<V>(m: map<nat, V>, from: nat, e: (nat, V))
    ensures e in EntriesFrom(m, from) <==> from <= e.0 < SIZE && e.0 in m && m[e.0] == e.1
    decreases SIZE - from
  {
    if from < SIZE {
      EntriesContain(m, from + 1, e);
      var rest := EntriesFrom(m, from + 1);
      if from in m {
        assert EntriesFrom(m, from) == [(from, m[from])] + rest;
        assert e in [(from, m[from])] <==> e == (from, m[from]);
      } else {
        assert EntriesFrom(m, from) == rest;
      }
    }
  }

  /** The entries are the map, in ascending order of keys. */
  lemma EntriesAreTheMap<V>(m: map<nat, V>, e: (nat, V))
    ensures var es := EntriesFrom(m, 0);
            && Ascending(es, 0)
            && (e in es <==> e.0 < SIZE && e.0 in m && m[e.0] == e.1)
  {
    EntriesAscend(m, 0);
    EntriesContain(m, 0, e);
  }

  /** The values of an array at the members of a bitmap. */
  ghost function Restricted<V>(a: SparseArray<V>, bitmap: BitmapIndex): map<nat, V>
    requires a.Valid() && forall i: nat :: bitmap.Has(i) ==> a.index.Has(i)
  {
    map i: nat | i < SIZE && bitmap.Has(i) :: a.At(i)
  }

  lemma FirstEntry<V>(a: SparseArray<V>, bitmap: BitmapIndex)
    requires a.Valid() && bitmap.Valid() && forall i: nat :: bitmap.Has(i) ==> a.index.Has(i)
    ensures match bitmap.GetFirstIndex()
            case None => EntriesFrom(Restricted(a, bitmap), 0) == []
            case Some(idx) =>
              && idx < SIZE && bitmap.Has(idx) && bitmap.RemoveIndex(idx).Valid()
              && (forall i: nat :: bitmap.RemoveIndex(idx).Has(i) <==> bitmap.Has(i) && i != idx)
              && Restricted(a, bitmap.RemoveIndex(idx)) == Restricted(a, bitmap) - {idx}
              && EntriesFrom(Restricted(a, bitmap), 0)
                 == [(idx, a.At(idx))] + EntriesFrom(Restricted(a, bitmap) - {idx}, 0)
  {
    FirstIndexIsLeast(bitmap);
    match bitmap.GetFirstIndex()
    case None =>
      EntriesNone(Restricted(a, bitmap), 0);
    case Some(idx) =>
      RestrictedWithout(a, bitmap, idx);
      EntriesWithout(Restricted(a, bitmap), idx);
  }

  lemma RestrictedWithout<V>(a: SparseArray<V>, bitmap: BitmapIndex, idx: nat)
    requires a.Valid() && bitmap.Valid() && idx < SIZE && forall i: nat :: bitmap.Has(i) ==> a.index.Has(i)
    ensures bitmap.RemoveIndex(idx).Valid()
    ensures forall i: nat :: bitmap.RemoveIndex(idx).Has(i) <==> bitmap.Has(i) && i != idx
    ensures Restricted(a, bitmap.RemoveIndex(idx)) == Restricted(a, bitmap) - {idx}
  {
    RemoveIndexRemoves(bitmap, idx);
  }

  class SparseArrayIter<V> {
    var bitmap: BitmapIndex
    const sparseArray: SparseArray<V>

    ghost predicate Valid()
      reads this
    {
      bitmap.Valid() && sparseArray.Valid() && forall i: nat :: bitmap.Has(i) ==> sparseArray.index.Has(i)
    }

    /** What the iteration still has to yield. */
    ghost function Left(): map<nat, V>
      reads this
      requires Valid()
    {
      Restricted(sparseArray, bitmap)
    }

    constructor (a: SparseArray<V>)
      requires a.Valid()
      ensures Valid() && sparseArray == a && Left() == a.Contents()
    {
      bitmap, sparseArray := a.index, a;
    }

    method Next() returns (r: Option<(nat, V)>)
      requires Valid()
      modifies this
      ensures Valid()
      ensures var before := EntriesFrom(old(Left()), 0);
              if r.None? then before == [] && Left() == old(Left())
              else before == [r.value] + EntriesFrom(Left(), 0) && Left() == old(Left()) - {r.value.0}
    {
      FirstEntry(sparseArray, bitmap);
      match bitmap.GetFirstIndex()
      case None =>
        r := None;
      case Some(idx) =>
        GetIsLookup(sparseArray, idx);
        bitmap := bitmap.RemoveIndex(idx);
        r := Some((idx, sparseArray.Get(idx).value));
    }
  }
}
