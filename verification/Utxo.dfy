/** The ledger of unspent transaction outputs. */
module Utxo {
  import opened Bitmap
  import opened FastSparseArrays
  import opened Wrappers

  type FragmentId(==, !new)

  type Address(==, !new)

  datatype Output = Output(address: Address, value: nat)

  /** The source's errors, and a failed assertion on an index. */
  datatype Error = AlreadyExists | TransactionNotFound | IndexNotFound | Panicked

  /** The unspent outputs of one transaction. */
  type TransactionUnspents = Fast<Output>

  type Ledger = map<FragmentId, TransactionUnspents>

  /** Indices and numbers of outputs have to be smaller, where they are checked. */
  const LIMIT: nat := 255

  /** No transaction is kept without unspent outputs. */
  ghost predicate Valid(l: Ledger) {
    forall tid :: tid in l ==> l[tid].Valid() && l[tid].Contents() != map[]
  }

  /** Everything that can be spent. */
  ghost function Unspent(l: Ledger): map<(FragmentId, nat), Output>
    requires Valid(l)
  {
    map tid, i: nat | tid in l && i < SIZE && i in l[tid].Contents() :: (tid, i) := l[tid].Contents()[i]
  }

  // ---- One transaction ----

  /** Later outputs with the same index replace earlier ones. */
  function Listed(outs: seq<(nat, Output)>): map<nat, Output> {
    if outs == [] then map[] else
      var last := outs[|outs| - 1];
      Listed(outs[..|outs| - 1])[last.0 := last.1]
  }

  method FromOutputs(outs: seq<(nat, Output)>) returns (u: TransactionUnspents)
    requires |outs| < LIMIT && forall i :: 0 <= i < |outs| ==> outs[i].0 < SIZE
    ensures u.Valid() && u.Contents() == Listed(outs)
  {
    var sa := new FastSparseArrayBuilder();
    for i := 0 to |outs|
      invariant fresh(sa) && fresh(sa.data) && sa.Valid() && sa.Contents() == Listed(outs[..i])
    {
      assert outs[..i + 1][..i] == outs[..i];
      sa.Set(outs[i].0, outs[i].1);
    }
    assert outs[..|outs|] == outs;
    u := sa.Build();
  }

  function InputRemoved(u: TransactionUnspents, index: nat): Result<(TransactionUnspents, Output), Error>
    requires u.Valid()
  {
    if index >= LIMIT then Err(Panicked)
    else
      var (t, o) := u.Remove(index);
      if o.None? then Err(IndexNotFound) else Ok((t, o.value))
  }

  method RemoveInput(u: TransactionUnspents, index: nat) returns (r: Result<(TransactionUnspents, Output), Error>)
    requires u.Valid()
    ensures r == InputRemoved(u, index)
  {
    if index >= LIMIT {
      return Err(Panicked);
    }
    var t := new FastSparseArray.Clone(u);
    var o := t.Remove(index);
    match o
    case None => r := Err(IndexNotFound);
    case Some(output) => r := Ok((Fast(t.index, t.data), output));
  }

  lemma InputRemovedEffect(u: TransactionUnspents, index: nat)
    requires u.Valid()
    ensures var r := InputRemoved(u, index);
            && (r.Ok? <==> index < LIMIT && index in u.Contents())
            && (r.Ok? ==> r.value.0.Valid() && r.value.0.Contents() == u.Contents() - {index} && r.value.1 == u.Contents()[index])
            && (r.Err? ==> r == Err(if index < LIMIT then IndexNotFound else Panicked))
  {
    if index < LIMIT {
      FastRemove(u, index);
      FastGet(u, index);
    }
  }

  // ---- The ledger ----

  function Replaced(l: Ledger, tid: FragmentId, u: TransactionUnspents): Ledger {
    if u.index.IsEmpty() then l - {tid} else l[tid := u]
  }

  function Removed(l: Ledger, tid: FragmentId, index: nat): Result<(Ledger, Output), Error>
    requires tid in l ==> l[tid].Valid()
  {
    if tid !in l then Err(TransactionNotFound)
    else
      var r := InputRemoved(l[tid], index);
      if r.Err? then Err(r.error) else Ok((Replaced(l, tid, r.value.0), r.value.1))
  }

  /** Removes inputs one after the other, from the front of the list. */
  function InputsRemoved(u: TransactionUnspents, indices: seq<nat>): (r: Result<(TransactionUnspents, seq<Output>), Error>)
    requires u.Valid()
    ensures r.Ok? ==> r.value.0.Valid()
    ensures r.Err? ==> r.error in {IndexNotFound, Panicked}
    decreases |indices|
  {
    if indices == [] then Ok((u, [])) else
      InputRemovedEffect(u, indices[0]);
      var first := InputRemoved(u, indices[0]);
      if first.Err? then Err(first.error)
      else
        var rest := InputsRemoved(first.value.0, indices[1..]);
        if rest.Err? then rest else Ok((rest.value.0, [first.value.1] + rest.value.1))
  }

  function MultipleRemoved(l: Ledger, tid: FragmentId, indices: seq<nat>): Result<(Ledger, seq<Output>), Error>
    requires tid in l ==> l[tid].Valid()
  {
    if tid !in l then Err(TransactionNotFound)
    else
      var r := InputsRemoved(l[tid], indices);
      if r.Err? then Err(r.error) else Ok((Replaced(l, tid, r.value.0), r.value.1))
  }

  method Add(l: Ledger, tid: FragmentId, outs: seq<(nat, Output)>) returns (r: Result<Ledger, Error>)
    requires Valid(l) && 0 < |outs| < LIMIT && forall i :: 0 <= i < |outs| ==> outs[i].0 < SIZE
    ensures r.Err? <==> tid in l
    ensures r.Err? ==> r == Err(AlreadyExists)
    ensures r.Ok? ==> Valid(r.value) && r.value.Keys == l.Keys + {tid} && r.value - {tid} == l
                      && r.value[tid].Contents() == Listed(outs)
  {
    var u := FromOutputs(outs);
    if tid in l {
      return Err(AlreadyExists);
    }
    assert outs[|outs| - 1].0 in Listed(outs);
    r := Ok(l[tid := u]);
  }

  method Remove(l: Ledger, tid: FragmentId, index: nat) returns (r: Result<(Ledger, Output), Error>)
    requires Valid(l)
    ensures r == Removed(l, tid, index)
  {
    if tid !in l {
      return Err(TransactionNotFound);
    }
    var removed := RemoveInput(l[tid], index);
    if removed.Err? {
      return Err(removed.error);
    }
    var (treemap, output) := removed.value;
    r := Ok((if treemap.index.IsEmpty() then l - {tid} else l[tid := treemap], output));
  }

  method RemoveMultiple(l: Ledger, tid: FragmentId, indices: seq<nat>) returns (r: Result<(Ledger, seq<Output>), Error>)
    requires Valid(l)
    ensures r == MultipleRemoved(l, tid, indices)
  {
    if tid !in l {
      return Err(TransactionNotFound);
    }
    var removed := RemoveInputs(l[tid], indices);
    if removed.Err? {
      return Err(removed.error);
    }
    var (treemap, outputs) := removed.value;
    r := Ok((if treemap.index.IsEmpty() then l - {tid} else l[tid := treemap], outputs));
  }

  /** The loop of the above. */
  method RemoveInputs(u: TransactionUnspents, indices: seq<nat>) returns (r: Result<(TransactionUnspents, seq<Output>), Error>)
    requires u.Valid()
    ensures r == InputsRemoved(u, indices)
  {
    var treemap, outputs := u, [];
    assert indices[0..] == indices;
    PrependedNone(InputsRemoved(u, indices));
    for i := 0 to |indices|
      invariant treemap.Valid()
      invariant InputsRemoved(u, indices) == Prepended(outputs, InputsRemoved(treemap, indices[i..]))
    {
      var removed := RemoveInput(treemap, indices[i]);
      RemovedStep(treemap, indices, i);
      if removed.Err? {
        return Err(removed.error);
      }
      PrependedTwice(outputs, removed.value.1, InputsRemoved(removed.value.0, indices[i + 1..]));
      outputs := outputs + [removed.value.1];
      treemap := removed.value.0;
    }
    assert outputs + [] == outputs;
    r := Ok((treemap, outputs));
  }

  lemma RemovedStep(u: TransactionUnspents, indices: seq<nat>, i: nat)
    requires u.Valid() && i < |indices|
    ensures var first := InputRemoved(u, indices[i]);
            if first.Err? then InputsRemoved(u, indices[i..]) == Err(first.error)
            else
              first.value.0.Valid()
              && InputsRemoved(u, indices[i..]) == Prepended([first.value.1], InputsRemoved(first.value.0, indices[i + 1..]))
  {
    InputRemovedEffect(u, indices[i]);
    assert indices[i..][1..] == indices[i + 1..];
  }

  lemma PrependedNone(r: Result<(TransactionUnspents, seq<Output>), Error>)
    ensures Prepended([], r) == r
  {
    if r.Ok? {
      assert [] + r.value.1 == r.value.1;
    }
  }

  function Prepended(front: seq<Output>, r: Result<(TransactionUnspents, seq<Output>), Error>)
    : Result<(TransactionUnspents, seq<Output>), Error>
  {
    if r.Err? then r else Ok((r.value.0, front + r.value.1))
  }

  lemma PrependedTwice(front: seq<Output>, o: Output, r: Result<(TransactionUnspents, seq<Output>), Error>)
    ensures Prepended(front, Prepended([o], r)) == Prepended(front + [o], r)
  {
    if r.Ok? {
      assert front + ([o] + r.value.1) == front + [o] + r.value.1;
    }
  }

  // ---- Conservation ----

  lemma ReplacedEffect(l: Ledger, tid: FragmentId, u: TransactionUnspents)
    requires Valid(l) && u.Valid()
    ensures Valid(Replaced(l, tid, u))
    ensures forall k: (FragmentId, nat) :: k in Unspent(Replaced(l, tid, u)) <==>
              if k.0 == tid then k.1 in u.Contents() else k in Unspent(l)
    ensures forall k: (FragmentId, nat) :: k in Unspent(Replaced(l, tid, u)) ==>
              Unspent(Replaced(l, tid, u))[k] == if k.0 == tid then u.Contents()[k.1] else Unspent(l)[k]
  {
    FastEmpty(u);
  }

  type Outputs = map<(FragmentId, nat), Output>

  /** The step that spends one output. */
  ghost predicate Spends(before: Outputs, after: Outputs, k: (FragmentId, nat), o: Output) {
    k in before && before[k] == o && after == before - {k}
  }

  lemma ReplacedSpends(l: Ledger, tid: FragmentId, index: nat, u: TransactionUnspents)
    requires Valid(l) && tid in l && index in l[tid].Contents()
    requires u.Valid() && u.Contents() == l[tid].Contents() - {index}
    ensures Valid(Replaced(l, tid, u))
    ensures Spends(Unspent(l), Unspent(Replaced(l, tid, u)), (tid, index), l[tid].Contents()[index])
  {
    ReplacedEffect(l, tid, u);
    UnspentOf(l, tid);
    Without(Unspent(l), Unspent(Replaced(l, tid, u)), tid, index, l[tid].Contents());
  }

  lemma UnspentOf(l: Ledger, tid: FragmentId)
    requires Valid(l) && tid in l
    ensures forall i :: (tid, i) in Unspent(l) <==> i in l[tid].Contents()
    ensures forall i :: (tid, i) in Unspent(l) ==> Unspent(l)[(tid, i)] == l[tid].Contents()[i]
  {
  }

  lemma Without(before: Outputs, after: Outputs, tid: FragmentId, index: nat, own: map<nat, Output>)
    requires forall i :: (tid, i) in before <==> i in own
    requires forall i :: (tid, i) in before ==> before[(tid, i)] == own[i]
    requires index in own
    requires forall k: (FragmentId, nat) :: k in after <==> if k.0 == tid then k.1 in own - {index} else k in before
    requires forall k: (FragmentId, nat) :: k in after ==> after[k] == if k.0 == tid then (own - {index})[k.1] else before[k]
    ensures Spends(before, after, (tid, index), own[index])
  {
    forall k: (FragmentId, nat) ensures k in after <==> k in before && k != (tid, index) {
      assert k == (k.0, k.1);
    }
    forall k | k in after ensures after[k] == before[k] {
      assert k == (k.0, k.1);
    }
  }

  /** Removing spends exactly the output asked for, and fails exactly if it is not there or has
      the largest index. */
  lemma RemovedSpends(l: Ledger, tid: FragmentId, index: nat)
    requires Valid(l)
    ensures Removed(l, tid, index).Ok? <==> (tid, index) in Unspent(l) && index < 255
    ensures Removed(l, tid, index).Ok? ==>
              var (l', o) := Removed(l, tid, index).value;
              Valid(l') && Spends(Unspent(l), Unspent(l'), (tid, index), o)
    ensures Removed(l, tid, index).Err? ==>
              Removed(l, tid, index)
              == Err(if tid !in l then TransactionNotFound else if index < 255 then IndexNotFound else Panicked)
  {
    if tid in l {
      InputRemovedEffect(l[tid], index);
      UnspentOf(l, tid);
      if index < LIMIT && index in l[tid].Contents() {
        ReplacedSpends(l, tid, index, InputRemoved(l[tid], index).value.0);
      }
    }
  }

  ghost function Total(m: map<(FragmentId, nat), Output>): nat
  {
    if m == map[] then 0 else
      var k :| k in m;
      m[k].value + Total(m - {k})
  }

  lemma {:induction false} TotalWithout(m: map<(FragmentId, nat), Output>, k: (FragmentId, nat))
    requires k in m
    ensures Total(m) == m[k].value + Total(m - {k})
    decreases |m|
  {
    var x :| x in m && Total(m) == m[x].value + Total(m - {x});
    if x != k {
      TotalWithout(m - {x}, k);
      TotalWithout(m - {k}, x);
      assert m - {x} - {k} == m - {k} - {x};
    }
  }

  /** No value is created or lost when an output is spent. */
  lemma RemovedConserves(l: Ledger, tid: FragmentId, index: nat)
    requires Valid(l) && Removed(l, tid, index).Ok?
    ensures var (l', o) := Removed(l, tid, index).value;
            Valid(l') && Total(Unspent(l)) == Total(Unspent(l')) + o.value
  {
    RemovedSpends(l, tid, index);
    TotalWithout(Unspent(l), (tid, index));
  }

  // ---- Several inputs at once ----

  /** The same indices removed one by one. */
  function EachRemoved(l: Ledger, tid: FragmentId, indices: seq<nat>): (r: Result<(Ledger, seq<Output>), Error>)
    requires forall tid :: tid in l ==> l[tid].Valid()
    decreases |indices|
  {
    if indices == [] then Ok((l, [])) else
      var first := Removed(l, tid, indices[0]);
      if first.Err? then Err(first.error)
      else
        InputRemovedEffect(l[tid], indices[0]);
        var rest := EachRemoved(first.value.0, tid, indices[1..]);
        if rest.Err? then rest else Ok((rest.value.0, [first.value.1] + rest.value.1))
  }

  lemma ReplacedTwice(l: Ledger, tid: FragmentId, u: TransactionUnspents, v: TransactionUnspents)
    requires tid in l
    ensures Replaced(Replaced(l, tid, u), tid, v) == Replaced(l, tid, v)
  {
  }

  /** Several inputs removed together: the same ledger and outputs as one by one, and success
      in the same cases. Only the error differs once the last output is gone. */
  lemma {:induction false} MultipleIsEach(l: Ledger, tid: FragmentId, indices: seq<nat>)
    requires Valid(l) && indices != []
    ensures MultipleRemoved(l, tid, indices).Ok? <==> EachRemoved(l, tid, indices).Ok?
    ensures MultipleRemoved(l, tid, indices).Ok? ==> MultipleRemoved(l, tid, indices) == EachRemoved(l, tid, indices)
    decreases |indices|
  {
    if Removed(l, tid, indices[0]).Err? {
      FirstMissing(l, tid, indices);
    } else if |indices| == 1 {
      LastOfMultiple(l, tid, indices);
    } else {
      EachStep(l, tid, indices);
      var (l', o) := Removed(l, tid, indices[0]).value;
      MultipleStep(l, tid, indices, l', o);
      MultipleIsEach(l', tid, indices[1..]);
    }
  }

  lemma FirstMissing(l: Ledger, tid: FragmentId, indices: seq<nat>)
    requires Valid(l) && indices != []
    requires Removed(l, tid, indices[0]).Err?
    ensures MultipleRemoved(l, tid, indices).Err? && EachRemoved(l, tid, indices).Err?
  {
  }

  function With(o: Output, r: Result<(Ledger, seq<Output>), Error>): Result<(Ledger, seq<Output>), Error> {
    if r.Err? then r else Ok((r.value.0, [o] + r.value.1))
  }

  lemma EachStep(l: Ledger, tid: FragmentId, indices: seq<nat>)
    requires Valid(l) && indices != []
    requires Removed(l, tid, indices[0]).Ok?
    ensures var (l', o) := Removed(l, tid, indices[0]).value;
            Valid(l') && EachRemoved(l, tid, indices) == With(o, EachRemoved(l', tid, indices[1..]))
  {
    RemovedSpends(l, tid, indices[0]);
  }

  lemma LastOfMultiple(l: Ledger, tid: FragmentId, indices: seq<nat>)
    requires Valid(l) && |indices| == 1 && Removed(l, tid, indices[0]).Ok?
    ensures var (l', o) := Removed(l, tid, indices[0]).value;
            MultipleRemoved(l, tid, indices) == Ok((l', [o])) == EachRemoved(l, tid, indices)
  {
    InputRemovedEffect(l[tid], indices[0]);
    var u := InputRemoved(l[tid], indices[0]).value.0;
    assert indices[1..] == [] && InputsRemoved(u, []) == Ok((u, []));
    var o := InputRemoved(l[tid], indices[0]).value.1;
    assert [o] + [] == [o];
    assert InputsRemoved(l[tid], indices) == Ok((u, [o]));
  }

  /** Removing the first input leaves the others for the new ledger, also if there is no
      transaction left in it: then the others are missing either way. */
  lemma MultipleStep(l: Ledger, tid: FragmentId, indices: seq<nat>, l': Ledger, o: Output)
    requires Valid(l) && |indices| > 1
    requires Removed(l, tid, indices[0]) == Ok((l', o)) && Valid(l')
    ensures var (all, others) := (MultipleRemoved(l, tid, indices), With(o, MultipleRemoved(l', tid, indices[1..])));
            if tid in l' then all == others else all.Err? && others.Err?
  {
    InputRemovedEffect(l[tid], indices[0]);
    var u := InputRemoved(l[tid], indices[0]).value.0;
    FirstOfMultiple(l[tid], indices, u, o);
    if u.index.IsEmpty() {
      EmptyHasNoInputs(u, indices[1..]);
    } else {
      MultipleAfter(l, tid, u, indices[1..]);
    }
  }

  lemma FirstOfMultiple(v: TransactionUnspents, indices: seq<nat>, u: TransactionUnspents, o: Output)
    requires v.Valid() && indices != []
    requires InputRemoved(v, indices[0]) == Ok((u, o)) && u.Valid()
    ensures InputsRemoved(v, indices) == Prepended([o], InputsRemoved(u, indices[1..]))
  {
  }

  lemma MultipleAfter(l: Ledger, tid: FragmentId, u: TransactionUnspents, rest: seq<nat>)
    requires tid in l && u.Valid() && !u.index.IsEmpty()
    ensures MultipleRemoved(Replaced(l, tid, u), tid, rest)
            == if InputsRemoved(u, rest).Err? then Err(InputsRemoved(u, rest).error)
               else Ok((Replaced(l, tid, InputsRemoved(u, rest).value.0), InputsRemoved(u, rest).value.1))
  {
    if InputsRemoved(u, rest).Ok? {
      ReplacedTwice(l, tid, u, InputsRemoved(u, rest).value.0);
    }
  }

  lemma EmptyHasNoInputs(u: TransactionUnspents, indices: seq<nat>)
    requires u.Valid() && u.index.IsEmpty() && indices != []
    ensures InputsRemoved(u, indices).Err?
  {
    FastEmpty(u);
    InputRemovedEffect(u, indices[0]);
  }

  /** The input `n` is the first one that cannot be removed: its index is not below 255, it is not
      there, or it was removed before. */
  ghost predicate FailsAt(u: TransactionUnspents, indices: seq<nat>, n: nat)
    requires u.Valid() && n <= |indices|
  {
    && (forall i :: 0 <= i < n ==> indices[i] < 255 && indices[i] in u.Contents() && indices[i] !in indices[..i])
    && (n < |indices| ==> indices[n] >= 255 || indices[n] !in u.Contents() || indices[n] in indices[..n])
  }

  lemma {:induction false} InputsFailAt(u: TransactionUnspents, indices: seq<nat>) returns (n: nat)
    requires u.Valid()
    ensures n <= |indices| && FailsAt(u, indices, n)
    ensures InputsRemoved(u, indices).Ok? <==> n == |indices|
    ensures n < |indices| ==> InputsRemoved(u, indices) == Err(if indices[n] < 255 then IndexNotFound else Panicked)
    decreases |indices|
  {
    if indices == [] {
      n := 0;
    } else {
      InputRemovedEffect(u, indices[0]);
      var first := InputRemoved(u, indices[0]);
      if first.Err? {
        n := 0;
      } else {
        var rest := InputsFailAt(first.value.0, indices[1..]);
        n := rest + 1;
        FailsLater(u, first.value.0, indices, rest);
      }
    }
  }

  lemma FailsLater(u: TransactionUnspents, u': TransactionUnspents, indices: seq<nat>, n: nat)
    requires u.Valid() && u'.Valid() && n < |indices| && FailsAt(u', indices[1..], n)
    requires indices[0] < 255 && indices[0] in u.Contents() && u'.Contents() == u.Contents() - {indices[0]}
    ensures FailsAt(u, indices, n + 1)
  {
    forall i | 0 < i <= n ensures indices[i] < 255 && indices[i] in u.Contents() && indices[i] !in indices[..i] {
      assert indices[1..][i - 1] == indices[i] && indices[1..][..i - 1] == indices[..i][1..];
      assert indices[..i] == [indices[0]] + indices[..i][1..];
    }
    if n + 1 < |indices| {
      assert indices[1..][n] == indices[n + 1] && indices[1..][..n] == indices[..n + 1][1..];
      assert indices[..n + 1] == [indices[0]] + indices[..n + 1][1..];
    }
  }

  /** Removing several inputs fails exactly on a missing transaction, and at the first input that
      cannot be removed, with the error of that input. */
  lemma MultipleFailsAt(l: Ledger, tid: FragmentId, indices: seq<nat>) returns (n: nat)
    requires Valid(l)
    ensures tid !in l ==> MultipleRemoved(l, tid, indices) == Err(TransactionNotFound)
    ensures tid in l ==>
              && n <= |indices| && FailsAt(l[tid], indices, n)
              && (MultipleRemoved(l, tid, indices).Ok? <==> n == |indices|)
              && (n < |indices| ==>
                    MultipleRemoved(l, tid, indices) == Err(if indices[n] < 255 then IndexNotFound else Panicked))
  {
    n := 0;
    if tid in l {
      n := InputsFailAt(l[tid], indices);
    }
  }

  /** Removing no input needs the transaction, unlike removing inputs one by one. */
  lemma MultipleOfNone(l: Ledger, tid: FragmentId)
    requires Valid(l)
    ensures EachRemoved(l, tid, []) == Ok((l, []))
    ensures MultipleRemoved(l, tid, []) == if tid in l then Ok((l, [])) else Err(TransactionNotFound)
  {
    if tid in l {
      FastEmpty(l[tid]);
      assert l[tid := l[tid]] == l;
    }
  }

  function Values(outputs: seq<Output>): nat {
    if outputs == [] then 0 else outputs[0].value + Values(outputs[1..])
  }

  lemma ValuesCons(o: Output, outputs: seq<Output>)
    ensures Values([o] + outputs) == o.value + Values(outputs)
  {
    assert ([o] + outputs)[1..] == outputs;
  }

  /** The step that spends several outputs of a transaction. */
  ghost predicate SpendsAll(before: Outputs, after: Outputs, tid: FragmentId, indices: seq<nat>, outputs: seq<Output>) {
    && |outputs| == |indices|
    && (forall k :: 0 <= k < |indices| ==> (tid, indices[k]) in before && outputs[k] == before[(tid, indices[k])])
    && (forall k :: k in after <==> k in before && !(k.0 == tid && k.1 in indices))
    && (forall k :: k in after ==> after[k] == before[k])
  }

  lemma SpendsThenAll(
    before: Outputs, between: Outputs, after: Outputs, tid: FragmentId, indices: seq<nat>, o: Output, outputs: seq<Output>)
    requires indices != []
    requires Spends(before, between, (tid, indices[0]), o) && SpendsAll(between, after, tid, indices[1..], outputs)
    ensures SpendsAll(before, after, tid, indices, [o] + outputs)
  {
    var all := [o] + outputs;
    forall k | 0 <= k < |indices| ensures (tid, indices[k]) in before && all[k] == before[(tid, indices[k])] {
      if k > 0 {
        assert indices[k] == indices[1..][k - 1];
      }
    }
    forall k: (FragmentId, nat) ensures k in after <==> k in before && !(k.0 == tid && k.1 in indices) {
      assert k == (k.0, k.1);
      assert k.1 in indices <==> k.1 == indices[0] || k.1 in indices[1..];
    }
  }

  /** The outputs returned are those spent, and no value is created or lost. */
  ghost predicate Conserves(before: Outputs, after: Outputs, tid: FragmentId, indices: seq<nat>, outputs: seq<Output>) {
    SpendsAll(before, after, tid, indices, outputs) && Total(before) == Total(after) + Values(outputs)
  }

  lemma SpendsThenAllConserves(
    before: Outputs, between: Outputs, after: Outputs, tid: FragmentId, indices: seq<nat>, o: Output, outputs: seq<Output>)
    requires indices != []
    requires Spends(before, between, (tid, indices[0]), o) && Conserves(between, after, tid, indices[1..], outputs)
    ensures Conserves(before, after, tid, indices, [o] + outputs)
  {
    TotalWithout(before, (tid, indices[0]));
    ValuesCons(o, outputs);
    SpendsThenAll(before, between, after, tid, indices, o, outputs);
  }

  lemma ConservesStep(
    l: Ledger, l1: Ledger, l': Ledger, tid: FragmentId, indices: seq<nat>, o: Output, outputs: seq<Output>)
    requires Valid(l) && Valid(l1) && Valid(l') && indices != []
    requires Removed(l, tid, indices[0]) == Ok((l1, o))
    requires Conserves(Unspent(l1), Unspent(l'), tid, indices[1..], outputs)
    ensures Conserves(Unspent(l), Unspent(l'), tid, indices, [o] + outputs)
  {
    RemovedSpends(l, tid, indices[0]);
    SpendsThenAllConserves(Unspent(l), Unspent(l1), Unspent(l'), tid, indices, o, outputs);
  }

  lemma {:induction false} EachConserves(l: Ledger, tid: FragmentId, indices: seq<nat>)
    requires Valid(l) && EachRemoved(l, tid, indices).Ok?
    ensures var (l', outputs) := EachRemoved(l, tid, indices).value;
            Valid(l') && Conserves(Unspent(l), Unspent(l'), tid, indices, outputs)
    decreases |indices|
  {
    if indices != [] {
      EachStep(l, tid, indices);
      var (l1, o) := Removed(l, tid, indices[0]).value;
      EachConserves(l1, tid, indices[1..]);
      var (l', outputs) := EachRemoved(l1, tid, indices[1..]).value;
      ConservesStep(l, l1, l', tid, indices, o, outputs);
    }
  }

  /** What several removals return and what remains is what was there. */
  lemma MultipleConserves(l: Ledger, tid: FragmentId, indices: seq<nat>)
    requires Valid(l) && MultipleRemoved(l, tid, indices).Ok?
    ensures var (l', outputs) := MultipleRemoved(l, tid, indices).value;
            Valid(l') && Conserves(Unspent(l), Unspent(l'), tid, indices, outputs)
  {
    if indices == [] {
      MultipleOfNone(l, tid);
    } else {
      MultipleIsEach(l, tid, indices);
    }
    EachConserves(l, tid, indices);
  }

  // ---- Over whole runs ----

  /** `c` consists of the disjoint parts `a` and `b`. */
  ghost predicate Joined(a: Outputs, b: Outputs, c: Outputs) {
    && (forall k :: k in c <==> k in a || k in b)
    && (forall k :: k in a ==> k !in b && c[k] == a[k])
    && (forall k :: k in b ==> c[k] == b[k])
  }

  lemma {:induction false} TotalJoined(a: Outputs, b: Outputs, c: Outputs)
    requires Joined(a, b, c)
    ensures Total(c) == Total(a) + Total(b)
    decreases |a|
  {
    if a == map[] {
      assert c == b;
    } else {
      var k :| k in a;
      TotalWithout(a, k);
      TotalWithout(c, k);
      TotalJoined(a - {k}, b, c - {k});
    }
  }

  /** The outputs of one transaction as outputs of the ledger. */
  ghost function Own(tid: FragmentId, m: map<nat, Output>): Outputs {
    map i | i in m :: (tid, i) := m[i]
  }

  lemma OwnOutputs(tid: FragmentId, m: map<nat, Output>)
    ensures forall k: (FragmentId, nat) :: k in Own(tid, m) <==> k.0 == tid && k.1 in m
    ensures forall k: (FragmentId, nat) :: k in Own(tid, m) ==> Own(tid, m)[k] == m[k.1]
  {
    forall k: (FragmentId, nat) ensures k in Own(tid, m) <==> k.0 == tid && k.1 in m {
      assert k == (k.0, k.1);
    }
  }

  lemma JoinedWithOwn(before: Outputs, own: Outputs, all: Outputs, tid: FragmentId, m: map<nat, Output>)
    requires forall k: (FragmentId, nat) :: k in before ==> k.0 != tid
    requires forall k: (FragmentId, nat) :: k in own <==> k.0 == tid && k.1 in m
    requires forall k: (FragmentId, nat) :: k in own ==> own[k] == m[k.1]
    requires forall k: (FragmentId, nat) :: k in all <==> if k.0 == tid then k.1 in m else k in before
    requires forall k: (FragmentId, nat) :: k in all ==> all[k] == if k.0 == tid then m[k.1] else before[k]
    ensures Joined(before, own, all)
  {
  }

  /** The value of all outputs of a list. */
  function Amount(outs: seq<(nat, Output)>): nat {
    if outs == [] then 0 else outs[0].1.value + Amount(outs[1..])
  }

  /** A later output of the list has the same index. */
  predicate Overwritten(outs: seq<(nat, Output)>, i: nat)
    requires i < |outs|
  {
    exists j :: i < j < |outs| && outs[j].0 == outs[i].0
  }

  /** The value of the overwritten outputs. */
  function Lost(outs: seq<(nat, Output)>): nat {
    if outs == [] then 0 else (if Overwritten(outs, 0) then outs[0].1.value else 0) + Lost(outs[1..])
  }

  lemma OverwrittenLater(outs: seq<(nat, Output)>, i: nat)
    requires i + 1 < |outs|
    ensures Overwritten(outs, i + 1) <==> Overwritten(outs[1..], i)
  {
    var rest := outs[1..];
    if Overwritten(outs, i + 1) {
      var j :| i + 1 < j < |outs| && outs[j].0 == outs[i + 1].0;
      assert rest[j - 1].0 == rest[i].0;
    }
    if Overwritten(rest, i) {
      var j :| i < j < |rest| && rest[j].0 == rest[i].0;
      assert outs[j + 1].0 == outs[i + 1].0;
    }
  }

  /** Nothing is lost exactly if every overwritten output is worth nothing. */
  lemma {:induction false} LostNothing(outs: seq<(nat, Output)>)
    ensures Lost(outs) == 0 <==> forall i :: 0 <= i < |outs| && Overwritten(outs, i) ==> outs[i].1.value == 0
  {
    if outs != [] {
      var rest := outs[1..];
      LostNothing(rest);
      forall i | 0 <= i < |rest| ensures Overwritten(outs, i + 1) <==> Overwritten(rest, i) {
        OverwrittenLater(outs, i);
      }
      if Lost(outs) == 0 {
        forall i | 0 <= i < |outs| && Overwritten(outs, i) ensures outs[i].1.value == 0 {
          if i > 0 {
            assert Overwritten(rest, i - 1) && rest[i - 1] == outs[i];
          }
        }
      } else if Lost(rest) != 0 {
        var i :| 0 <= i < |rest| && Overwritten(rest, i) && rest[i].1.value != 0;
        assert Overwritten(outs, i + 1) && outs[i + 1].1.value != 0;
      }
    }
  }

  lemma {:induction false} ListedKeys(outs: seq<(nat, Output)>, k: nat)
    ensures k in Listed(outs) <==> exists i :: 0 <= i < |outs| && outs[i].0 == k
  {
    if outs != [] {
      var n := |outs| - 1;
      ListedKeys(outs[..n], k);
      if k in Listed(outs[..n]) {
        var i :| 0 <= i < n && outs[..n][i].0 == k;
        assert outs[i].0 == k;
      }
      if i :| 0 <= i < |outs| && outs[i].0 == k {
        assert i == n || outs[..n][i].0 == k;
      }
    }
  }

  /** The first output is stored exactly if it is not overwritten. */
  lemma {:induction false} ListedFirst(outs: seq<(nat, Output)>)
    requires outs != []
    ensures Overwritten(outs, 0) <==> outs[0].0 in Listed(outs[1..])
    ensures Listed(outs) == if Overwritten(outs, 0) then Listed(outs[1..]) else Listed(outs[1..])[outs[0].0 := outs[0].1]
    decreases |outs|
  {
    var n, rest := |outs| - 1, outs[1..];
    ListedKeys(rest, outs[0].0);
    if Overwritten(outs, 0) {
      var j :| 0 < j < |outs| && outs[j].0 == outs[0].0;
      assert rest[j - 1].0 == outs[0].0;
    }
    if i :| 0 <= i < |rest| && rest[i].0 == outs[0].0 {
      assert outs[i + 1].0 == outs[0].0;
    }
    if n > 0 {
      ListedFirst(outs[..n]);
      assert outs[..n][1..] == rest[..n - 1] && rest[n - 1] == outs[n];
      ListedKeys(rest[..n - 1], outs[0].0);
    }
  }

  lemma TotalAdded(m: Outputs, k: (FragmentId, nat), o: Output)
    requires k !in m
    ensures Total(m[k := o]) == Total(m) + o.value
  {
    TotalWithout(m[k := o], k);
    assert m[k := o] - {k} == m;
  }

  /** What is stored of a list and what is lost make up the whole list. */
  lemma {:induction false} ListedValue(tid: FragmentId, outs: seq<(nat, Output)>)
    ensures Total(Own(tid, Listed(outs))) + Lost(outs) == Amount(outs)
  {
    if outs == [] {
      assert Own(tid, Listed(outs)) == map[];
    } else {
      var (k, o) := outs[0];
      var rest := outs[1..];
      ListedValue(tid, rest);
      ListedFirst(outs);
      if !Overwritten(outs, 0) {
        OwnAdded(tid, Listed(rest), k, o);
        TotalAdded(Own(tid, Listed(rest)), (tid, k), o);
      }
    }
  }

  lemma OwnAdded(tid: FragmentId, m: map<nat, Output>, k: nat, o: Output)
    ensures Own(tid, m[k := o]) == Own(tid, m)[(tid, k) := o]
    ensures (tid, k) in Own(tid, m) <==> k in m
  {
    OwnOutputs(tid, m);
    OwnOutputs(tid, m[k := o]);
  }

  /** A list of outputs that the ledger accepts, and what it stores for it. */
  ghost predicate Stores(u: TransactionUnspents, outs: seq<(nat, Output)>) {
    && 0 < |outs| < LIMIT
    && (forall i :: 0 <= i < |outs| ==> outs[i].0 < SIZE)
    && u.Valid() && u.Contents() == Listed(outs)
  }

  /** A new transaction adds its own outputs and nothing else. The value grows by all that is
      listed exactly if every overwritten output is worth nothing. */
  lemma AddedConserves(l: Ledger, tid: FragmentId, outs: seq<(nat, Output)>, u: TransactionUnspents)
    requires Valid(l) && tid !in l && Stores(u, outs)
    ensures Valid(l[tid := u])
    ensures Joined(Unspent(l), Own(tid, Listed(outs)), Unspent(l[tid := u]))
    ensures Total(Unspent(l[tid := u])) + Lost(outs) == Total(Unspent(l)) + Amount(outs)
    ensures Total(Unspent(l[tid := u])) == Total(Unspent(l)) + Amount(outs)
            <==> forall i :: 0 <= i < |outs| && Overwritten(outs, i) ==> outs[i].1.value == 0
  {
    AddedOwn(l, tid, outs, u);
    ListedValue(tid, outs);
    LostNothing(outs);
    TotalJoined(Unspent(l), Own(tid, Listed(outs)), Unspent(l[tid := u]));
  }

  lemma AddedOwn(l: Ledger, tid: FragmentId, outs: seq<(nat, Output)>, u: TransactionUnspents)
    requires Valid(l) && tid !in l && Stores(u, outs)
    ensures Valid(l[tid := u])
    ensures Joined(Unspent(l), Own(tid, Listed(outs)), Unspent(l[tid := u]))
  {
    assert outs[|outs| - 1].0 in Listed(outs);
    FastEmpty(u);
    ReplacedEffect(l, tid, u);
    OwnOutputs(tid, Listed(outs));
    assert Replaced(l, tid, u) == l[tid := u];
    JoinedWithOwn(Unspent(l), Own(tid, Listed(outs)), Unspent(l[tid := u]), tid, Listed(outs));
  }

  datatype Step =
    | Create(tid: FragmentId, outs: seq<(nat, Output)>, unspents: TransactionUnspents)
    | Spend(tid: FragmentId, index: nat, output: Output)
    | SpendMany(tid: FragmentId, indices: seq<nat>, outputs: seq<Output>)

  ghost predicate Next(l: Ledger, step: Step, l': Ledger)
    requires Valid(l)
  {
    match step
    case Create(tid, outs, u) => tid !in l && Stores(u, outs) && l' == l[tid := u]
    case Spend(tid, index, o) => Removed(l, tid, index) == Ok((l', o))
    case SpendMany(tid, indices, outputs) => MultipleRemoved(l, tid, indices) == Ok((l', outputs))
  }

  ghost predicate Run(ledgers: seq<Ledger>, steps: seq<Step>) {
    && |ledgers| == |steps| + 1
    && ledgers[0] == map[]
    && forall i, j :: 0 <= i && j == i + 1 && j < |ledgers| ==> Follows(ledgers[i], steps[i], ledgers[j])
  }

  ghost predicate Follows(l: Ledger, step: Step, l': Ledger) {
    Valid(l) ==> Next(l, step, l')
  }

  /** The value a step lists, the part of it that is overwritten at once, and the value it
      takes out. */
  function Created(step: Step): nat {
    if step.Create? then Amount(step.outs) else 0
  }

  function Discarded(step: Step): nat {
    if step.Create? then Lost(step.outs) else 0
  }

  function Spent(step: Step): nat {
    match step
    case Create(_, _, _) => 0
    case Spend(_, _, o) => o.value
    case SpendMany(_, _, outputs) => Values(outputs)
  }

  /** The sum over the first `n` steps. */
  function Sum(value: Step -> nat, steps: seq<Step>, n: nat): nat
    requires n <= |steps|
  {
    if n == 0 then 0 else Sum(value, steps, n - 1) + value(steps[n - 1])
  }

  lemma StepConserves(l: Ledger, step: Step, l': Ledger)
    requires Valid(l) && Next(l, step, l')
    ensures Valid(l')
    ensures Total(Unspent(l')) + Spent(step) + Discarded(step) == Total(Unspent(l)) + Created(step)
  {
    match step
    case Create(tid, outs, u) => AddedConserves(l, tid, outs, u);
    case Spend(tid, index, _) =>
      RemovedSpends(l, tid, index);
      RemovedConserves(l, tid, index);
    case SpendMany(tid, indices, _) => MultipleConserves(l, tid, indices);
  }

  /** In every reachable ledger no transaction is empty, and all value ever listed is spent,
      unspent, or was overwritten in its own list. */
  lemma {:induction false} RunConserves(ledgers: seq<Ledger>, steps: seq<Step>, n: nat)
    requires Run(ledgers, steps) && n < |ledgers|
    ensures Valid(ledgers[n])
    ensures Sum(Created, steps, n)
            == Sum(Spent, steps, n) + Sum(Discarded, steps, n) + Total(Unspent(ledgers[n]))
    decreases n
  {
    if n == 0 {
      assert Unspent(ledgers[0]) == map[];
    } else {
      RunConserves(ledgers, steps, n - 1);
      assert Follows(ledgers[n - 1], steps[n - 1], ledgers[n]);
      StepConserves(ledgers[n - 1], steps[n - 1], ledgers[n]);
    }
  }

  // ---- The largest index ----

  lemma RemovedBelowLimit(l: Ledger, tid: FragmentId, index: nat)
    requires Valid(l) && Removed(l, tid, index).Ok?
    ensures index < LIMIT
  {
    RemovedSpends(l, tid, index);
  }

  lemma {:induction false} EachBelowLimit(l: Ledger, tid: FragmentId, indices: seq<nat>)
    requires Valid(l) && EachRemoved(l, tid, indices).Ok?
    ensures forall i :: 0 <= i < |indices| ==> indices[i] < LIMIT
    decreases |indices|
  {
    if indices != [] {
      RemovedBelowLimit(l, tid, indices[0]);
      EachStep(l, tid, indices);
      EachBelowLimit(Removed(l, tid, indices[0]).value.0, tid, indices[1..]);
      forall i | 0 <= i < |indices| ensures indices[i] < LIMIT {
        assert i > 0 ==> indices[i] == indices[1..][i - 1];
      }
    }
  }

  /** The output with the largest index of transaction `tid` is `o`, and unspent. */
  ghost predicate HasLast(l: Ledger, tid: FragmentId, o: Output) {
    Valid(l) && (tid, 255) in Unspent(l) && Unspent(l)[(tid, 255)] == o
  }

  lemma SpendsKeeps(before: Outputs, after: Outputs, k: (FragmentId, nat), o: Output, kept: (FragmentId, nat))
    requires Spends(before, after, k, o) && kept in before && kept != k
    ensures kept in after && after[kept] == before[kept]
  {
  }

  lemma RemovalKeepsLast(l: Ledger, tid: FragmentId, o: Output, other: FragmentId, index: nat, l': Ledger, p: Output)
    requires HasLast(l, tid, o) && Removed(l, other, index) == Ok((l', p))
    ensures HasLast(l', tid, o)
  {
    RemovedSpends(l, other, index);
    SpendsKeeps(Unspent(l), Unspent(l'), (other, index), p, (tid, LIMIT));
  }

  lemma RemovalsKeepLast(l: Ledger, tid: FragmentId, o: Output, other: FragmentId, indices: seq<nat>)
    requires HasLast(l, tid, o) && MultipleRemoved(l, other, indices).Ok?
    ensures HasLast(MultipleRemoved(l, other, indices).value.0, tid, o)
  {
    MultipleConserves(l, other, indices);
    if indices != [] {
      MultipleIsEach(l, other, indices);
      EachBelowLimit(l, other, indices);
    }
  }

  lemma AdditionKeepsLast(l: Ledger, tid: FragmentId, o: Output, other: FragmentId, outs: seq<(nat, Output)>, u: TransactionUnspents)
    requires HasLast(l, tid, o) && other !in l && Stores(u, outs)
    ensures HasLast(l[other := u], tid, o)
  {
    AddedOwn(l, other, outs, u);
  }

  lemma NextKeepsLast(l: Ledger, step: Step, l': Ledger, tid: FragmentId, o: Output)
    requires HasLast(l, tid, o) && Next(l, step, l')
    ensures HasLast(l', tid, o)
  {
    match step
    case Create(other, outs, u) => AdditionKeepsLast(l, tid, o, other, outs, u);
    case Spend(other, index, p) => RemovalKeepsLast(l, tid, o, other, index, l', p);
    case SpendMany(other, indices, _) => RemovalsKeepLast(l, tid, o, other, indices);
  }

  lemma AddedHasLast(l: Ledger, tid: FragmentId, outs: seq<(nat, Output)>, u: TransactionUnspents)
    requires Valid(l) && tid !in l && Stores(u, outs) && LIMIT in Listed(outs)
    ensures HasLast(l[tid := u], tid, Listed(outs)[LIMIT])
  {
    AddedOwn(l, tid, outs, u);
    OwnOutputs(tid, Listed(outs));
    assert (tid, LIMIT) in Own(tid, Listed(outs));
  }

  lemma RunStep(ledgers: seq<Ledger>, steps: seq<Step>, n: nat)
    requires Run(ledgers, steps) && n < |steps|
    ensures Valid(ledgers[n]) && Next(ledgers[n], steps[n], ledgers[n + 1])
  {
    RunConserves(ledgers, steps, n);
    assert Follows(ledgers[n], steps[n], ledgers[n + 1]);
  }

  lemma CreatedHasLast(l: Ledger, step: Step, l': Ledger)
    requires Valid(l) && Next(l, step, l') && step.Create? && LIMIT in Listed(step.outs)
    ensures HasLast(l', step.tid, Listed(step.outs)[LIMIT])
  {
    AddedHasLast(l, step.tid, step.outs, step.unspents);
  }

  lemma LastStaysOnce(ledgers: seq<Ledger>, steps: seq<Step>, n: nat, tid: FragmentId, o: Output)
    requires Run(ledgers, steps) && n < |steps|
    ensures HasLast(ledgers[n], tid, o) ==> HasLast(ledgers[n + 1], tid, o)
  {
    RunStep(ledgers, steps, n);
    if HasLast(ledgers[n], tid, o) {
      NextKeepsLast(ledgers[n], steps[n], ledgers[n + 1], tid, o);
    }
  }

  /** What once holds and is kept by every step holds from then on. */
  lemma {:induction false} Lasts(p: seq<bool>, m: nat, n: nat)
    requires m <= n < |p| && p[m] && forall i, j :: 0 <= i && j == i + 1 && j < |p| && p[i] ==> p[j]
    ensures p[n]
    decreases n
  {
    if m < n {
      Lasts(p, m, n - 1);
    }
  }

  /** An output with the largest index is stored, and stays unspent in every continuation. */
  lemma LargestIndexIsStuck(ledgers: seq<Ledger>, steps: seq<Step>, i: nat, n: nat)
    requires Run(ledgers, steps) && i < n < |ledgers|
    requires steps[i].Create? && 255 in Listed(steps[i].outs)
    ensures HasLast(ledgers[n], steps[i].tid, Listed(steps[i].outs)[255])
  {
    RunStep(ledgers, steps, i);
    CreatedHasLast(ledgers[i], steps[i], ledgers[i + 1]);
    var (tid, o) := (steps[i].tid, Listed(steps[i].outs)[LIMIT]);
    var p := seq(|ledgers|, k requires 0 <= k < |ledgers| => HasLast(ledgers[k], tid, o));
    forall k, k' | 0 <= k && k' == k + 1 && k' < |p| && p[k] ensures p[k'] {
      LastStaysOnce(ledgers, steps, k, tid, o);
    }
    Lasts(p, i + 1, n);
  }
}
