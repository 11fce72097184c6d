/** Update governance: proposals, votes, and what an epoch change makes of them. */
module Update {
  import opened Settings
  import opened Wrappers

  const U32: nat := 0x1_0000_0000

  type ProposalId = nat // a hash; hashes are ordered like big-endian numbers

  datatype BlockDate = BlockDate(epoch: nat, slotId: nat) {
    predicate Before(other: BlockDate) {
      epoch < other.epoch || (epoch == other.epoch && slotId < other.slotId)
    }
  }

  datatype Proposal = Proposal(changes: seq<ConfigParam>, proposerId: Key)

  datatype ProposalState = ProposalState(proposal: Proposal, proposalDate: BlockDate, votes: set<Key>)

  type Proposals = map<ProposalId, ProposalState>

  datatype Error =
    | BadProposer(id: ProposalId, proposer: Key)
    | DuplicateProposal(id: ProposalId)
    | VoteForMissingProposal(id: ProposalId)
    | BadVoter(id: ProposalId, voter: Key)
    | DuplicateVote(id: ProposalId, voter: Key)
    | BadChanges(error: SettingsError)

  // ---- Proposals and votes ----

  function ApplyProposal(
    proposals: Proposals, id: ProposalId, proposal: Proposal, settings: Settings, curDate: BlockDate)
    : Result<Proposals, Error>
  {
    var applied := Applied(settings, proposal.changes);
    if applied.Err? then Err(BadChanges(applied.error))
    else if proposal.proposerId !in settings.bftLeaders then Err(BadProposer(id, proposal.proposerId))
    else if id in proposals then Err(DuplicateProposal(id))
    else Ok(proposals[id := ProposalState(proposal, curDate, {})])
  }

  function ApplyVote(proposals: Proposals, id: ProposalId, voter: Key, settings: Settings): Result<Proposals, Error> {
    if voter !in settings.bftLeaders then Err(BadVoter(id, voter))
    else if id !in proposals then Err(VoteForMissingProposal(id))
    else if voter in proposals[id].votes then Err(DuplicateVote(id, voter))
    else Ok(proposals[id := proposals[id].(votes := proposals[id].votes + {voter})])
  }

  /** A proposal is stored exactly if its changes apply to any settings, its proposer leads,
      and its id is new. */
  lemma ApplyProposalWhen(
    proposals: Proposals, id: ProposalId, proposal: Proposal, settings: Settings, curDate: BlockDate)
    ensures var r := ApplyProposal(proposals, id, proposal, settings, curDate);
            && (r.Ok? <==> Valid(proposal.changes) && proposal.proposerId in settings.bftLeaders && id !in proposals)
            && (r.Ok? ==> r.value - {id} == proposals && r.value[id] == ProposalState(proposal, curDate, {}))
            && (!Valid(proposal.changes) ==>
                  Applied(settings, proposal.changes).Err? && r == Err(BadChanges(Applied(settings, proposal.changes).error)))
            && (r.Err? && Valid(proposal.changes) ==>
                  r.error == if proposal.proposerId in settings.bftLeaders then DuplicateProposal(id)
                             else BadProposer(id, proposal.proposerId))
  {
    AppliedWhenValid(settings, proposal.changes);
  }

  /** A vote counts once, for one proposal. */
  lemma VoteCountsOnce(proposals: Proposals, id: ProposalId, voter: Key, settings: Settings)
    ensures var r := ApplyVote(proposals, id, voter, settings);
            && (r.Ok? <==> voter in settings.bftLeaders && id in proposals && voter !in proposals[id].votes)
            && (r.Ok? ==>
                  && r.value.Keys == proposals.Keys && r.value - {id} == proposals - {id}
                  && |r.value[id].votes| == |proposals[id].votes| + 1
                  && r.value[id] == proposals[id].(votes := proposals[id].votes + {voter})
                  && ApplyVote(r.value, id, voter, settings) == Err(DuplicateVote(id, voter)))
            && (r.Err? ==>
                  r.error == if voter !in settings.bftLeaders then BadVoter(id, voter)
                             else if id !in proposals then VoteForMissingProposal(id)
                             else DuplicateVote(id, voter))
  {
  }

  // ---- The order of processing ----

  /** By date, then by id. */
  predicate Precedes(proposals: Proposals, a: ProposalId, b: ProposalId)
    requires a in proposals && b in proposals
  {
    var (da, db) := (proposals[a].proposalDate, proposals[b].proposalDate);
    da.Before(db) || (da == db && a < b)
  }

  ghost predicate InOrder(proposals: Proposals, ids: seq<ProposalId>) {
    && (forall id :: id in ids <==> id in proposals)
    && (forall i, j :: 0 <= i < j < |ids| ==> Precedes(proposals, ids[i], ids[j]))
  }

  /** There is only one order. */
  lemma {:induction false} OrderIsUnique(proposals: Proposals, a: seq<ProposalId>, b: seq<ProposalId>)
    requires InOrder(proposals, a) && InOrder(proposals, b)
    ensures a == b
    decreases |a|
  {
    if b != [] {
      assert b[0] in b;
    }
    if a != [] {
      assert a[0] in b && b != [] && b[0] in a;
      var i :| 0 <= i < |a| && a[i] == b[0];
      var j :| 0 <= j < |b| && b[j] == a[0];
      assert i == 0;
      var rest := proposals - {a[0]};
      Tail(proposals, a);
      Tail(proposals, b);
      OrderIsUnique(rest, a[1..], b[1..]);
    }
  }

  /** By epoch, then by slot, then by id. */
  lemma OrderIsByDate(proposals: Proposals, ids: seq<ProposalId>, i: nat, j: nat)
    requires InOrder(proposals, ids) && i < j < |ids|
    ensures ids[i] in proposals && ids[j] in proposals
    ensures var (a, b) := (proposals[ids[i]].proposalDate, proposals[ids[j]].proposalDate);
            || a.epoch < b.epoch
            || (a.epoch == b.epoch && (a.slotId < b.slotId || (a.slotId == b.slotId && ids[i] < ids[j])))
  {
    assert ids[i] in ids && ids[j] in ids;
    assert Precedes(proposals, ids[i], ids[j]);
  }

  lemma Tail(proposals: Proposals, ids: seq<ProposalId>)
    requires InOrder(proposals, ids) && ids != []
    ensures InOrder(proposals - {ids[0]}, ids[1..])
  {
    forall id ensures id in ids[1..] <==> id in proposals - {ids[0]} {
      if id in proposals && id != ids[0] {
        var i :| 0 <= i < |ids| && ids[i] == id;
        assert id == ids[1..][i - 1];
      }
    }
  }

  function Inserted(proposals: Proposals, ids: seq<ProposalId>, id: ProposalId): (r: seq<ProposalId>)
    requires id in proposals && forall x :: x in ids ==> x in proposals
    ensures forall x :: x in r <==> x in ids || x == id
  {
    if ids == [] || Precedes(proposals, id, ids[0]) then [id] + ids
    else [ids[0]] + Inserted(proposals, ids[1..], id)
  }

  ghost predicate Ascending(proposals: Proposals, ids: seq<ProposalId>) {
    && (forall x :: x in ids ==> x in proposals)
    && (forall i, j :: 0 <= i < j < |ids| ==> Precedes(proposals, ids[i], ids[j]))
  }

  lemma {:induction false} InsertedAscends(proposals: Proposals, ids: seq<ProposalId>, id: ProposalId)
    requires Ascending(proposals, ids) && id in proposals && id !in ids
    ensures Ascending(proposals, Inserted(proposals, ids, id))
    decreases |ids|
  {
    if ids != [] && !Precedes(proposals, id, ids[0]) {
      assert Precedes(proposals, ids[0], id);
      InsertedAscends(proposals, ids[1..], id);
      var rest := Inserted(proposals, ids[1..], id);
      forall x | x in rest ensures Precedes(proposals, ids[0], x) {
        assert x in ids[1..] || x == id;
      }
    }
  }

  method Sort(proposals: Proposals) returns (ids: seq<ProposalId>)
    ensures InOrder(proposals, ids)
  {
    ids := [];
    var todo := proposals.Keys;
    while todo != {}
      invariant todo <= proposals.Keys && Ascending(proposals, ids)
      invariant forall id :: id in ids <==> id in proposals && id !in todo
      decreases |todo|
    {
      var id :| id in todo;
      todo := todo - {id};
      InsertedAscends(proposals, ids, id);
      ids := Inserted(proposals, ids, id);
    }
  }

  // ---- Epoch changes ----

  ghost predicate AllValid(proposals: Proposals) {
    forall id :: id in proposals ==> Valid(proposals[id].proposal.changes)
  }

  /** More distinct voters than half of the leaders. */
  predicate Accepted(p: ProposalState, settings: Settings) {
    |p.votes| > |settings.bftLeaders| / 2
  }

  /** The sum of two epochs does not fit its 32 bits. */
  predicate ExpiryOverflows(p: ProposalState, settings: Settings) {
    p.proposalDate.epoch + settings.proposalExpiration >= U32
  }

  predicate Expired(p: ProposalState, settings: Settings, epoch: nat) {
    p.proposalDate.epoch + settings.proposalExpiration < epoch
  }

  /** The accepted changes, applied one proposal after the other. */
  function SettingsAfter(settings: Settings, proposals: Proposals, ids: seq<ProposalId>): Settings
    requires AllValid(proposals) && forall id :: id in ids ==> id in proposals
  {
    if ids == [] then settings else
      var id := ids[|ids| - 1];
      var s := SettingsAfter(settings, proposals, ids[..|ids| - 1]);
      var p := proposals[id];
      AppliedWhenValid(s, p.proposal.changes);
      if Accepted(p, s) then Applied(s, p.proposal.changes).value else s
  }

  /** What becomes of the proposal whose turn is `k`, under the settings in force by then. */
  predicate LeavesAt(settings: Settings, proposals: Proposals, ids: seq<ProposalId>, k: nat, epoch: nat)
    requires AllValid(proposals) && (forall id :: id in ids ==> id in proposals) && k < |ids|
  {
    var s := SettingsAfter(settings, proposals, ids[..k]);
    Accepted(proposals[ids[k]], s) || Expired(proposals[ids[k]], s, epoch)
  }

  /** Whether the turn `k` computes an expiry that does not fit. An accepted proposal computes none. */
  predicate OverflowsAt(settings: Settings, proposals: Proposals, ids: seq<ProposalId>, k: nat)
    requires AllValid(proposals) && (forall id :: id in ids ==> id in proposals) && k < |ids|
  {
    var s := SettingsAfter(settings, proposals, ids[..k]);
    !Accepted(proposals[ids[k]], s) && ExpiryOverflows(proposals[ids[k]], s)
  }

  predicate Overflows(settings: Settings, proposals: Proposals, ids: seq<ProposalId>)
    requires AllValid(proposals) && forall id :: id in ids ==> id in proposals
  {
    exists k :: 0 <= k < |ids| && OverflowsAt(settings, proposals, ids, k)
  }

  /** The proposals that leave, in the order of their turns. */
  function Leavers(settings: Settings, proposals: Proposals, ids: seq<ProposalId>, epoch: nat): seq<ProposalId>
    requires AllValid(proposals) && forall id :: id in ids ==> id in proposals
  {
    if ids == [] then [] else
      var n := |ids| - 1;
      Leavers(settings, proposals, ids[..n], epoch)
      + if LeavesAt(settings, proposals, ids, n, epoch) then [ids[n]] else []
  }

  lemma {:induction false} LeaversLeave(settings: Settings, proposals: Proposals, ids: seq<ProposalId>, epoch: nat)
    requires AllValid(proposals) && forall id :: id in ids ==> id in proposals
    requires forall i, j :: 0 <= i < j < |ids| ==> ids[i] != ids[j]
    ensures var leavers := Leavers(settings, proposals, ids, epoch);
            && (forall id :: id in leavers ==> id in ids)
            && (forall i, j :: 0 <= i < j < |leavers| ==> leavers[i] != leavers[j])
    decreases |ids|
  {
    if ids != [] {
      var front := ids[..|ids| - 1];
      LeaversLeave(settings, proposals, front, epoch);
      assert ids[|ids| - 1] !in front;
    }
  }

  lemma {:induction false} LeavesAtItsTurn(
    settings: Settings, proposals: Proposals, ids: seq<ProposalId>, epoch: nat, k: nat)
    requires AllValid(proposals) && (forall id :: id in ids ==> id in proposals) && k < |ids|
    requires forall i, j :: 0 <= i < j < |ids| ==> ids[i] != ids[j]
    ensures ids[k] in Leavers(settings, proposals, ids, epoch) <==> LeavesAt(settings, proposals, ids, k, epoch)
    decreases |ids|
  {
    var n := |ids| - 1;
    var front := ids[..n];
    LeaversLeave(settings, proposals, front, epoch);
    if k < n {
      LeavesAtItsTurn(settings, proposals, front, epoch, k);
      assert front[..k] == ids[..k] && front[k] == ids[k];
    } else {
      assert ids[n] !in front;
    }
  }

  /** What the turn `k` decides, in numbers. The proposal stays exactly if at most half as many keys
      as there are leaders voted for it and its expiry lies not before the epoch; more votes apply
      its changes; the expiry is computed, and may overflow, only without them. */
  lemma TurnDecides(settings: Settings, proposals: Proposals, ids: seq<ProposalId>, epoch: nat, k: nat)
    requires AllValid(proposals) && (forall id :: id in ids ==> id in proposals) && k < |ids|
    requires forall i, j :: 0 <= i < j < |ids| ==> ids[i] != ids[j]
    ensures SettingsAfter(settings, proposals, ids[..0]) == settings
    ensures var (s, p) := (SettingsAfter(settings, proposals, ids[..k]), proposals[ids[k]]);
            var accepted := 2 * |p.votes| > |s.bftLeaders|;
            && (ids[k] !in Leavers(settings, proposals, ids, epoch) <==>
                !accepted && epoch <= p.proposalDate.epoch + s.proposalExpiration)
            && Applied(s, p.proposal.changes).Ok?
            && SettingsAfter(settings, proposals, ids[..k + 1]) == (if accepted then Applied(s, p.proposal.changes).value else s)
            && (OverflowsAt(settings, proposals, ids, k) <==>
                !accepted && p.proposalDate.epoch + s.proposalExpiration >= 0x1_0000_0000)
  {
    LeavesAtItsTurn(settings, proposals, ids, epoch, k);
    Turn(settings, proposals, ids, k, epoch);
  }

  /** The proposals neither accepted nor expired at their turn, with their votes. */
  ghost predicate Remaining(
    settings: Settings, before: Proposals, ids: seq<ProposalId>, epoch: nat, after: Proposals)
    requires AllValid(before) && InOrder(before, ids)
  {
    && (forall id :: id in after ==> id in before && after[id] == before[id])
    && (forall k :: 0 <= k < |ids| ==> (ids[k] in after <==> !LeavesAt(settings, before, ids, k, epoch)))
  }

  /** Takes the accepted and expired proposals out and applies the accepted changes. Neither
      applying changes nor removing a proposal can fail. The pass stops with an overflow exactly
      if the expiry of a proposal that is not accepted at its turn does not fit. */
  method ProcessProposals(proposals: Proposals, settings: Settings, prevDate: BlockDate, newDate: BlockDate)
    returns (r: Result<(Proposals, Settings), Overflow>)
    requires prevDate.Before(newDate) && AllValid(proposals)
    ensures prevDate.epoch == newDate.epoch ==> r == Ok((proposals, settings))
    ensures prevDate.epoch < newDate.epoch ==> forall ids :: InOrder(proposals, ids) ==>
              Processed(settings, proposals, ids, newDate.epoch, r)
  {
    r := Ok((proposals, settings));
    if prevDate.epoch < newDate.epoch {
      var order := Sort(proposals);
      var applied := ApplyAccepted(proposals, settings, order, newDate.epoch);
      if applied.Err? {
        r := Err(applied.error);
      } else {
        var (settings', expired) := applied.value;
        LeaversLeave(settings, proposals, order, newDate.epoch);
        var proposals' := RemoveAll(proposals, expired);
        LeaversRemoved(settings, proposals, order, newDate.epoch, proposals');
        r := Ok((proposals', settings'));
      }
      forall ids | InOrder(proposals, ids) ensures ids == order {
        OrderIsUnique(proposals, ids, order);
      }
    }
  }

  /** What a pass over the proposals results in. */
  ghost predicate Processed(
    settings: Settings, proposals: Proposals, ids: seq<ProposalId>, epoch: nat, r: Result<(Proposals, Settings), Overflow>)
    requires AllValid(proposals) && InOrder(proposals, ids)
  {
    && (r.Err? <==> Overflows(settings, proposals, ids))
    && (r.Ok? ==>
          && r.value.1 == SettingsAfter(settings, proposals, ids)
          && Remaining(settings, proposals, ids, epoch, r.value.0))
  }

  /** The result of a pass, in numbers. */
  lemma ProcessedInNumbers(
    settings: Settings, proposals: Proposals, ids: seq<ProposalId>, epoch: nat, r: Result<(Proposals, Settings), Overflow>)
    requires AllValid(proposals) && InOrder(proposals, ids) && Processed(settings, proposals, ids, epoch, r)
    ensures r.Err? <==>
            exists k :: 0 <= k < |ids| &&
              var s := SettingsAfter(settings, proposals, ids[..k]);
              && 2 * |proposals[ids[k]].votes| <= |s.bftLeaders|
              && proposals[ids[k]].proposalDate.epoch + s.proposalExpiration >= 0x1_0000_0000
    ensures r.Ok? ==>
              && r.value.1 == SettingsAfter(settings, proposals, ids)
              && (forall id :: id in r.value.0 ==> id in proposals && r.value.0[id] == proposals[id])
              && (forall k :: 0 <= k < |ids| ==>
                    (ids[k] in r.value.0 <==>
                     var s := SettingsAfter(settings, proposals, ids[..k]);
                     && 2 * |proposals[ids[k]].votes| <= |s.bftLeaders|
                     && epoch <= proposals[ids[k]].proposalDate.epoch + s.proposalExpiration))
  {
    forall k: nat | k < |ids|
      ensures OverflowsAt(settings, proposals, ids, k) <==>
              var s := SettingsAfter(settings, proposals, ids[..k]);
              && 2 * |proposals[ids[k]].votes| <= |s.bftLeaders|
              && proposals[ids[k]].proposalDate.epoch + s.proposalExpiration >= 0x1_0000_0000
      ensures LeavesAt(settings, proposals, ids, k, epoch) <==>
              var s := SettingsAfter(settings, proposals, ids[..k]);
              || 2 * |proposals[ids[k]].votes| > |s.bftLeaders|
              || proposals[ids[k]].proposalDate.epoch + s.proposalExpiration < epoch
    {
    }
  }

  lemma LeaversRemoved(settings: Settings, before: Proposals, ids: seq<ProposalId>, epoch: nat, after: Proposals)
    requires AllValid(before) && InOrder(before, ids)
    requires forall id :: id in after <==> id in before && id !in Leavers(settings, before, ids, epoch)
    requires forall id :: id in after ==> after[id] == before[id]
    ensures Remaining(settings, before, ids, epoch, after)
  {
    forall k: nat | k < |ids| ensures ids[k] in after <==> !LeavesAt(settings, before, ids, k, epoch) {
      LeavesAtItsTurn(settings, before, ids, epoch, k);
    }
  }

  method ApplyAccepted(proposals: Proposals, settings: Settings, order: seq<ProposalId>, epoch: nat)
    returns (r: Result<(Settings, seq<ProposalId>), Overflow>)
    requires AllValid(proposals) && forall id :: id in order ==> id in proposals
    ensures r.Err? <==> Overflows(settings, proposals, order)
    ensures r.Ok? ==> r.value == (SettingsAfter(settings, proposals, order), Leavers(settings, proposals, order, epoch))
  {
    var settings', expired := settings, [];
    for i := 0 to |order|
      invariant settings' == SettingsAfter(settings, proposals, order[..i])
      invariant expired == Leavers(settings, proposals, order[..i], epoch)
      invariant forall k :: 0 <= k < i ==> !OverflowsAt(settings, proposals, order, k)
    {
      var p := proposals[order[i]];
      Turn(settings, proposals, order, i, epoch);
      if Accepted(p, settings') {
        var applied := TryApply(settings', p.proposal.changes);
        settings' := applied.value;
        expired := expired + [order[i]];
      } else if ExpiryOverflows(p, settings') {
        assert OverflowsAt(settings, proposals, order, i);
        return Err(Overflow);
      } else if Expired(p, settings', epoch) {
        expired := expired + [order[i]];
      }
    }
    assert order[..|order|] == order;
    r := Ok((settings', expired));
  }

  /** What one turn makes of the settings and of the list of leavers. */
  lemma Turn(settings: Settings, proposals: Proposals, order: seq<ProposalId>, i: nat, epoch: nat)
    requires AllValid(proposals) && (forall id :: id in order ==> id in proposals) && i < |order|
    ensures var (p, s) := (proposals[order[i]], SettingsAfter(settings, proposals, order[..i]));
            && Applied(s, p.proposal.changes).Ok?
            && SettingsAfter(settings, proposals, order[..i + 1])
               == (if Accepted(p, s) then Applied(s, p.proposal.changes).value else s)
            && Leavers(settings, proposals, order[..i + 1], epoch)
               == Leavers(settings, proposals, order[..i], epoch)
                  + if Accepted(p, s) || Expired(p, s, epoch) then [order[i]] else []
  {
    var (p, s) := (proposals[order[i]], SettingsAfter(settings, proposals, order[..i]));
    assert order[..i + 1][..i] == order[..i];
    AppliedWhenValid(s, p.proposal.changes);
  }

  method RemoveAll(proposals: Proposals, ids: seq<ProposalId>) returns (proposals': Proposals)
    requires forall id :: id in ids ==> id in proposals
    requires forall i, j :: 0 <= i < j < |ids| ==> ids[i] != ids[j]
    ensures forall id :: id in proposals' <==> id in proposals && id !in ids
    ensures forall id :: id in proposals' ==> proposals'[id] == proposals[id]
  {
    proposals' := proposals;
    for i := 0 to |ids|
      invariant forall id :: id in proposals' <==> id in proposals && id !in ids[..i]
      invariant forall id :: id in proposals' ==> proposals'[id] == proposals[id]
    {
      assert ids[i] !in ids[..i];
      assert ids[i] in proposals'; // the removal succeeds
      proposals' := proposals' - {ids[i]};
      assert ids[..i + 1] == ids[..i] + [ids[i]];
    }
    assert ids[..|ids|] == ids;
  }

  // ---- Over whole runs ----

  datatype Operation =
    | Propose(id: ProposalId, proposal: Proposal, settings: Settings, curDate: BlockDate)
    | Vote(id: ProposalId, voter: Key, settings: Settings)
    | Advance(settings: Settings, prevDate: BlockDate, newDate: BlockDate)

  /** An operation that is refused or overflows changes nothing. The settings may differ from step
      to step. */
  ghost predicate Next(before: Proposals, op: Operation, after: Proposals) {
    match op
    case Propose(id, proposal, settings, curDate) =>
      var r := ApplyProposal(before, id, proposal, settings, curDate);
      after == if r.Ok? then r.value else before
    case Vote(id, voter, settings) =>
      var r := ApplyVote(before, id, voter, settings);
      after == if r.Ok? then r.value else before
    case Advance(settings, prevDate, newDate) =>
      if prevDate.epoch >= newDate.epoch || !AllValid(before) then after == before
      else
        exists ids :: InOrder(before, ids) &&
          if Overflows(settings, before, ids) then after == before
          else Remaining(settings, before, ids, newDate.epoch, after)
  }

  /** What a pass leaves is a step of a run. */
  lemma ProcessedIsStep(
    settings: Settings, prevDate: BlockDate, newDate: BlockDate, before: Proposals, ids: seq<ProposalId>,
    r: Result<(Proposals, Settings), Overflow>)
    requires AllValid(before) && InOrder(before, ids)
    requires if prevDate.epoch < newDate.epoch then Processed(settings, before, ids, newDate.epoch, r)
             else r == Ok((before, settings))
    ensures Next(before, Advance(settings, prevDate, newDate), if r.Ok? then r.value.0 else before)
  {
  }

  ghost predicate Run(states: seq<Proposals>, ops: seq<Operation>) {
    && |states| == |ops| + 1
    && states[0] == map[]
    && forall i, j :: 0 <= i && j == i + 1 && j < |states| ==> Next(states[i], ops[i], states[j])
  }

  /** In every reachable state every stored proposal applies to whatever settings are in force
      when it is processed: accepting it cannot fail. */
  lemma {:induction false} ReachableValid(states: seq<Proposals>, ops: seq<Operation>, i: nat, settings: Settings)
    requires Run(states, ops) && i < |states|
    ensures AllValid(states[i])
    ensures forall id :: id in states[i] ==> Applied(settings, states[i][id].proposal.changes).Ok?
    decreases i
  {
    if i > 0 {
      ReachableValid(states, ops, i - 1, settings);
      assert Next(states[i - 1], ops[i - 1], states[i]);
      if ops[i - 1].Propose? {
        AppliedWhenValid(ops[i - 1].settings, ops[i - 1].proposal.changes);
      }
    }
    forall id | id in states[i] ensures Applied(settings, states[i][id].proposal.changes).Ok? {
      AppliedWhenValid(settings, states[i][id].proposal.changes);
    }
  }

  /** At step `v` the key voted for the proposal, being a leader at the time. */
  predicate Voted(ops: seq<Operation>, v: nat, id: ProposalId, k: Key) {
    v < |ops| && ops[v].Vote? && ops[v].id == id && ops[v].voter == k && k in ops[v].settings.bftLeaders
  }

  /** The key voted for the proposal after step `j` and before step `i`. */
  ghost predicate VotedSince(ops: seq<Operation>, j: nat, i: nat, id: ProposalId, k: Key) {
    exists v :: j < v < i && Voted(ops, v, id, k)
  }

  predicate Proposed(ops: seq<Operation>, j: nat, id: ProposalId, p: ProposalState) {
    && j < |ops| && ops[j].Propose? && ops[j].id == id
    && ops[j].proposal == p.proposal && ops[j].curDate == p.proposalDate
    && p.proposal.proposerId in ops[j].settings.bftLeaders && Valid(p.proposal.changes)
  }

  /** Every stored proposal was made by a leader, and its votes are those cast for it by leaders
      since, each counted once. */
  lemma {:induction false} ProposalHistory(states: seq<Proposals>, ops: seq<Operation>, i: nat, id: ProposalId)
    returns (j: nat)
    requires Run(states, ops) && i < |states| && id in states[i]
    ensures j < i && Proposed(ops, j, id, states[i][id])
    ensures forall k :: k in states[i][id].votes <==> VotedSince(ops, j, i, id, k)
    decreases i
  {
    assert i > 0;
    var op := ops[i - 1];
    assert Next(states[i - 1], op, states[i]);
    if id in states[i - 1] {
      j := ProposalHistory(states, ops, i - 1, id);
      forall k ensures k in states[i][id].votes <==> VotedSince(ops, j, i, id, k) {
        VoteStep(states[i - 1], op, states[i], id, k);
        assert VotedSince(ops, j, i, id, k) <==> VotedSince(ops, j, i - 1, id, k) || Voted(ops, i - 1, id, k);
      }
    } else {
      j := i - 1;
      AppliedWhenValid(op.settings, op.proposal.changes);
      assert Proposed(ops, j, id, states[i][id]);
    }
  }

  /** A step adds to the votes of a stored proposal exactly the vote of a leader for it. */
  lemma VoteStep(before: Proposals, op: Operation, after: Proposals, id: ProposalId, k: Key)
    requires Next(before, op, after) && id in before && id in after
    ensures after[id].proposal == before[id].proposal && after[id].proposalDate == before[id].proposalDate
    ensures k in after[id].votes <==>
            k in before[id].votes || (op.Vote? && op.id == id && op.voter == k && k in op.settings.bftLeaders)
  {
    if op.Vote? {
      VoteCountsOnce(before, op.id, op.voter, op.settings);
    }
  }

  /** While the leaders do not change, only they have votes. */
  lemma VotersAreLeaders(states: seq<Proposals>, ops: seq<Operation>, i: nat, leaders: seq<Key>, id: ProposalId)
    requires Run(states, ops) && i < |states| && id in states[i]
    requires forall op | op in ops :: op.settings.bftLeaders == leaders
    ensures forall k :: k in states[i][id].votes ==> k in leaders
  {
    var j := ProposalHistory(states, ops, i, id);
    forall k | k in states[i][id].votes ensures k in leaders {
      var v :| j < v < i && Voted(ops, v, id, k);
      assert ops[v] in ops;
    }
  }

  function KeySet(keys: seq<Key>): (s: set<Key>)
    ensures |s| <= |keys| && forall k :: k in s <==> k in keys
  {
    if keys == [] then {} else {keys[0]} + KeySet(keys[1..])
  }

  /** Any two accepted proposals share a voter. */
  lemma QuorumsIntersect(
    states: seq<Proposals>, ops: seq<Operation>, i: nat, settings: Settings, a: ProposalId, b: ProposalId)
    requires Run(states, ops) && i < |states| && a in states[i] && b in states[i]
    requires forall op | op in ops :: op.settings.bftLeaders == settings.bftLeaders
    requires Accepted(states[i][a], settings) && Accepted(states[i][b], settings)
    ensures states[i][a].votes * states[i][b].votes != {}
  {
    VotersAreLeaders(states, ops, i, settings.bftLeaders, a);
    VotersAreLeaders(states, ops, i, settings.bftLeaders, b);
    var (va, vb, leaders) := (states[i][a].votes, states[i][b].votes, KeySet(settings.bftLeaders));
    Subset(va + vb, leaders);
  }

  lemma {:induction false} Subset(a: set<Key>, b: set<Key>)
    requires a <= b
    ensures |a| <= |b|
    decreases a
  {
    if a != {} {
      var k :| k in a;
      Subset(a - {k}, b - {k});
    }
  }

  /** A proposal may set the largest expiration. Once accepted, it stops the pass at the next
      proposal that is not accepted. */
  lemma LargestExpirationStops(s: Settings, k: Key, first: ProposalState, second: ProposalState)
    requires s.bftLeaders == [k] && first.votes == {k} && second.votes == {}
    requires first.proposal.changes == [ProposalExpiration(U32 - 1)] && second.proposal.changes == []
    requires second.proposalDate == first.proposalDate && second.proposalDate.epoch > 0
    ensures var proposals: Proposals := map[0 := first, 1 := second];
            InOrder(proposals, [0, 1]) && AllValid(proposals) && Overflows(s, proposals, [0, 1])
  {
    var proposals: Proposals := map[0 := first, 1 := second];
    var changes := first.proposal.changes;
    assert InOrder(proposals, [0, 1]) by {
      assert proposals[0] == first && proposals[1] == second;
    }
    LastParamDecides(s, changes, Expiration);
    assert Last(changes, Expiration) == Some(changes[0]);
    assert [0][..0] == [] && [0, 1][..1] == [0];
    assert SettingsAfter(s, proposals, [0]) == Applied(s, changes).value;
    assert Reflects(Applied(s, changes).value, changes[0]);
    assert OverflowsAt(s, proposals, [0, 1], 1);
  }

  /** A quorum of leaders. Votes are distinct keys, but a leader may be listed more than once. */
  predicate Quorum(votes: set<Key>, leaders: seq<Key>) {
    (forall k :: k in votes ==> k in leaders) && |votes| > |leaders| / 2
  }

  /** There is a quorum exactly if the distinct leaders are more than half of the list. */
  lemma QuorumExistsWhen(leaders: seq<Key>)
    ensures (exists votes :: Quorum(votes, leaders)) <==> |KeySet(leaders)| > |leaders| / 2
  {
    forall votes | Quorum(votes, leaders) ensures |KeySet(leaders)| > |leaders| / 2 {
      Subset(votes, KeySet(leaders));
    }
    if |KeySet(leaders)| > |leaders| / 2 {
      assert Quorum(KeySet(leaders), leaders);
    }
  }

  /** Otherwise no proposal of any run is ever accepted. */
  lemma RepeatedLeadersStop(
    states: seq<Proposals>, ops: seq<Operation>, i: nat, settings: Settings, id: ProposalId)
    requires Run(states, ops) && i < |states| && id in states[i]
    requires forall op | op in ops :: op.settings.bftLeaders == settings.bftLeaders
    requires |KeySet(settings.bftLeaders)| <= |settings.bftLeaders| / 2
    ensures !Accepted(states[i][id], settings)
  {
    VotersAreLeaders(states, ops, i, settings.bftLeaders, id);
    QuorumExistsWhen(settings.bftLeaders);
    if Accepted(states[i][id], settings) {
      assert Quorum(states[i][id].votes, settings.bftLeaders);
    }
  }

  /** A valid change that adds the only leader again leads there. */
  lemma AddingLeaderTwice(s: Settings, k: Key)
    requires s.bftLeaders == [k]
    ensures Valid([AddBftLeader(k)]) && Applied(s, [AddBftLeader(k)]).Ok?
    ensures var leaders := Applied(s, [AddBftLeader(k)]).value.bftLeaders;
            leaders == [k, k] && |KeySet(leaders)| <= |leaders| / 2
  {
    var d := Draft(s, None, None);
    var changes := [AddBftLeader(k)];
    assert changes[..0] == [];
    assert ApplyParams(d, changes) == ApplyParam(d, AddBftLeader(k));
    assert KeySet([k, k]) == {k};
  }

  lemma RemoveLeader(s: Settings, k: Key)
    ensures var r := Applied(s, [RemoveBftLeader(k)]);
            Valid([RemoveBftLeader(k)]) && r.Ok? && r.value.bftLeaders == Without(s.bftLeaders, k)
  {
    var d := Draft(s, None, None);
    var changes := [RemoveBftLeader(k)];
    assert changes[..0] == [];
    assert ApplyParams(d, changes) == ApplyParam(d, RemoveBftLeader(k));
  }

  /** Votes and settings before the pass do not decide acceptance: an accepted proposal that
      removes a leader can carry a later one below the former majority. */
  lemma EarlierProposalMatters(s: Settings, k1: Key, k2: Key, first: ProposalState, second: ProposalState)
    requires k1 != k2 && s.bftLeaders == [k1, k2]
    requires first.votes == {k1, k2} && first.proposal.changes == [RemoveBftLeader(k2)]
    requires |second.votes| == 1 && second.proposal.changes == [] && second.proposalDate == first.proposalDate
    ensures var proposals: Proposals := map[0 := first, 1 := second];
            && InOrder(proposals, [0, 1]) && AllValid(proposals)
            && !Accepted(second, s)
            && Accepted(second, SettingsAfter(s, proposals, [0]))
  {
    var proposals: Proposals := map[0 := first, 1 := second];
    assert |{k1, k2}| == 2;
    assert InOrder(proposals, [0, 1]) by {
      assert proposals[0] == first && proposals[1] == second;
    }
    RemoveLeader(s, k2);
    assert [0][..0] == [];
    assert SettingsAfter(s, proposals, [0]) == Applied(s, first.proposal.changes).value;
    assert [k1, k2][1..] == [k2] && [k2][1..] == [];
    assert Without([k2], k2) == [];
    assert Without([k1, k2], k2) == [k1];
  }
}
