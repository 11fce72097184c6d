/** Iteration over all unspent outputs, transaction by transaction. */
module UtxoIter {
  import opened Bitmap
  import opened FastSparseArrays
  import opened SparseArrays
  import opened Utxo
  import opened Wrappers

  datatype Entry = Entry(fragmentId: FragmentId, outputIndex: nat, output: Output)

  function Tagged(id: FragmentId, es: seq<(nat, Output)>): seq<Entry> {
    seq(|es|, i requires 0 <= i < |es| => Entry(id, es[i].0, es[i].1))
  }

  /** The transactions that the tree iterator still has to yield, in its own order. */
  type Pending = seq<(FragmentId, TransactionUnspents)>

  ghost predicate AllValid(pending: Pending) {
    forall i :: 0 <= i < |pending| ==> pending[i].1.Valid()
  }

  ghost function Flattened(pending: Pending): seq<Entry>
    requires AllValid(pending)
  {
    if pending == [] then [] else
      Tagged(pending[0].0, EntriesFrom(pending[0].1.Contents(), 0)) + Flattened(pending[1..])
  }

  /** The list has every transaction of the ledger once. */
  ghost predicate Lists(l: Ledger, pending: Pending) {
    && (forall i :: 0 <= i < |pending| ==> pending[i].0 in l && l[pending[i].0] == pending[i].1)
    && (forall tid :: tid in l ==> exists i :: 0 <= i < |pending| && pending[i].0 == tid)
    && (forall i, j :: 0 <= i < j < |pending| ==> pending[i].0 != pending[j].0)
  }

  class Iter {
    var pending: Pending
    var unspents: Option<(FragmentId, FastSparseArrayIter<Output>)>

    ghost function Inner(): set<object>
      reads this
    {
      if unspents.Some? then {unspents.value.1} else {}
    }

    ghost predicate Valid()
      reads this, Inner()
    {
      AllValid(pending) && (unspents.Some? ==> unspents.value.1.Valid())
    }

    /** What the iteration still has to yield. */
    ghost function Left(): seq<Entry>
      reads this, Inner()
      requires Valid()
    {
      (if unspents.Some? then Tagged(unspents.value.0, EntriesFrom(unspents.value.1.Left(), 0)) else [])
      + Flattened(pending)
    }

    constructor (pending: Pending)
      requires AllValid(pending)
      ensures Valid() && fresh(Inner()) && Left() == Flattened(pending)
    {
      this.pending, unspents := pending, None;
      new;
      assert [] + Flattened(pending) == Flattened(pending);
    }

    /** Yields the first entry left, or nothing if none is left. */
    method Next() returns (r: Option<Entry>)
      requires Valid()
      modifies this, Inner()
      ensures Valid() && fresh(Inner() - old(Inner()))
      ensures old(Left()) == (if r.Some? then [r.value] else []) + Left()
      ensures r.None? ==> Left() == []
    {
      r := None;
      while r.None?
        invariant Valid() && fresh(Inner() - old(Inner()))
        invariant old(Left()) == (if r.Some? then [r.value] else []) + Left()
        decreases r.None?, |pending|, unspents.Some?
      {
        match unspents
        case None =>
          if pending == [] {
            break;
          }
          Open();
        case Some(_) =>
          r := Pull();
      }
    }

    /** Turns to the next transaction. */
    method Open()
      requires Valid() && unspents.None? && pending != []
      modifies this
      ensures Valid() && fresh(Inner())
      ensures |pending| == |old(pending)| - 1
      ensures Left() == old(Left())
    {
      var (id, u) := pending[0];
      var inner := new FastSparseArrayIter(u);
      unspents, pending := Some((id, inner)), pending[1..];
    }

    /** Takes the next output of the transaction at hand, or leaves it. */
    method Pull() returns (r: Option<Entry>)
      requires Valid() && unspents.Some?
      modifies this, Inner()
      ensures Valid() && Inner() <= old(Inner()) && pending == old(pending)
      ensures r.None? ==> unspents.None?
      ensures old(Left()) == (if r.Some? then [r.value] else []) + Left()
    {
      var (id, inner) := unspents.value;
      ghost var before, rest := EntriesFrom(inner.Left(), 0), Flattened(pending);
      EntriesNone<Output>(map[], 0);
      var x := inner.Next();
      TaggedStep(id, before, x, EntriesFrom(inner.Left(), 0), rest);
      if x.Some? {
        r := Some(Entry(id, x.value.0, x.value.1));
      } else {
        unspents, r := None, None;
      }
    }
  }

  lemma TaggedStep(id: FragmentId, before: seq<(nat, Output)>, x: Option<(nat, Output)>, after: seq<(nat, Output)>, rest: seq<Entry>)
    requires before == if x.Some? then [x.value] + after else []
    ensures Tagged(id, before) + rest
            == if x.Some? then [Entry(id, x.value.0, x.value.1)] + (Tagged(id, after) + rest) else [] + ([] + rest)
  {
  }

  lemma TaggedContains(id: FragmentId, es: seq<(nat, Output)>, e: Entry)
    ensures e in Tagged(id, es) <==> e.fragmentId == id && (e.outputIndex, e.output) in es
  {
    if e.fragmentId == id && (e.outputIndex, e.output) in es {
      var i :| 0 <= i < |es| && es[i] == (e.outputIndex, e.output);
      assert Tagged(id, es)[i] == e;
    }
  }

  ghost predicate Holds(p: (FragmentId, TransactionUnspents), e: Entry)
    requires p.1.Valid()
  {
    p.0 == e.fragmentId && e.outputIndex < SIZE && e.outputIndex in p.1.Contents() && p.1.Contents()[e.outputIndex] == e.output
  }

  lemma {:induction false} FlattenedContains(pending: Pending, e: Entry)
    requires AllValid(pending)
    ensures e in Flattened(pending) <==> exists i :: 0 <= i < |pending| && Holds(pending[i], e)
    decreases |pending|
  {
    if pending != [] {
      var rest := pending[1..];
      FlattenedContains(rest, e);
      FirstHolds(pending[0], e);
      assert forall i :: 0 <= i < |rest| ==> rest[i] == pending[i + 1];
      assert forall i :: 0 < i < |pending| ==> pending[i] == rest[i - 1];
    }
  }

  lemma FirstHolds(p: (FragmentId, TransactionUnspents), e: Entry)
    requires p.1.Valid()
    ensures e in Tagged(p.0, EntriesFrom(p.1.Contents(), 0)) <==> Holds(p, e)
  {
    TaggedContains(p.0, EntriesFrom(p.1.Contents(), 0), e);
    EntriesAreTheMap(p.1.Contents(), (e.outputIndex, e.output));
  }

  /** The entries of a ledger are exactly its unspent outputs. */
  lemma EntriesAreUnspent(l: Ledger, pending: Pending, e: Entry)
    requires Utxo.Valid(l) && Lists(l, pending)
    ensures AllValid(pending)
    ensures e in Flattened(pending) <==>
            (e.fragmentId, e.outputIndex) in Unspent(l) && Unspent(l)[(e.fragmentId, e.outputIndex)] == e.output
  {
    FlattenedContains(pending, e);
    if e.fragmentId in l {
      UnspentOf(l, e.fragmentId);
    }
  }

  /** No output is listed twice. */
  lemma {:induction false} EntriesAreDistinct(pending: Pending)
    requires AllValid(pending) && forall i, j :: 0 <= i < j < |pending| ==> pending[i].0 != pending[j].0
    ensures Distinct(Flattened(pending))
    decreases |pending|
  {
    if pending != [] {
      var (id, u) := pending[0];
      var rest := pending[1..];
      EntriesAreDistinct(rest);
      EntriesAscend(u.Contents(), 0);
      forall e | e in Flattened(rest) ensures e.fragmentId != id {
        FlattenedContains(rest, e);
        assert forall i :: 0 <= i < |rest| ==> rest[i] == pending[i + 1];
      }
      DistinctConcat(id, EntriesFrom(u.Contents(), 0), Flattened(rest));
    }
  }

  predicate SameKey(a: Entry, b: Entry) {
    a.fragmentId == b.fragmentId && a.outputIndex == b.outputIndex
  }

  ghost predicate Distinct(es: seq<Entry>) {
    forall i, j :: 0 <= i < j < |es| ==> !SameKey(es[i], es[j])
  }

  lemma DistinctConcat(id: FragmentId, es: seq<(nat, Output)>, rest: seq<Entry>)
    requires Ascending(es, 0) && forall e :: e in rest ==> e.fragmentId != id
    requires Distinct(rest)
    ensures Distinct(Tagged(id, es) + rest)
  {
  }
}
