/** The blockchain settings and the parameter lists that change them. */
module Settings {
  import opened Wrappers

  /** A public key. A BFT leader and a committee member are both identified by one. */
  type Key(==, !new)

  /** Parameters that are stored and never inspected here. */
  type Payload(==, !new)

  datatype LinearFee = LinearFee(base: Payload, perCertificateFees: Payload, perVoteCertificateFees: Payload)

  datatype FeesGoesTo = Rewards | Treasury

  datatype Settings = Settings(
    consensusVersion: Payload,
    slotsPerEpoch: nat,
    slotDuration: nat,
    epochStabilityDepth: nat,
    activeSlotsCoeff: nat, // in thousandths
    blockContentMaxSize: nat,
    bftLeaders: seq<Key>,
    linearFees: LinearFee,
    proposalExpiration: nat,
    rewardParams: Option<Payload>,
    treasuryParams: Option<Payload>,
    feesGoesTo: FeesGoesTo,
    rewardsLimit: Option<Payload>,
    poolParticipationCapping: Option<Payload>,
    committees: seq<Key>,
    transactionMaxExpiryEpochs: nat)

  datatype ConfigParam =
    | Block0Date(date: Payload)
    | Discrimination(discrimination: Payload)
    | ConsensusVersion(version: Payload)
    | SlotsPerEpoch(slots: nat)
    | SlotDuration(seconds: nat)
    | EpochStabilityDepth(depth: nat)
    | ConsensusGenesisPraosActiveSlotsCoeff(millis: nat)
    | BlockContentMaxSize(size: nat)
    | AddBftLeader(leader: Key)
    | RemoveBftLeader(leader: Key)
    | LinearFeeParam(fee: LinearFee)
    | ProposalExpiration(epochs: nat)
    | KesUpdateSpeed(speed: nat)
    | TreasuryAdd(added: nat)
    | TreasuryParams(tax: Payload)
    | RewardPot(pot: nat)
    | RewardParams(params: Payload)
    | PerCertificateFees(fees: Payload)
    | FeesInTreasury(value: bool)
    | RewardLimitNone
    | RewardLimitByAbsoluteStake(ratio: Payload)
    | PoolRewardParticipationCapping(capping: Payload)
    | AddCommitteeId(committee: Key)
    | RemoveCommitteeId(committee: Key)
    | PerVoteCertificateFees(fees: Payload)
    | TransactionMaxExpiryEpochs(maxExpiry: nat)

  datatype SettingsError = ReadOnlySetting | BadActiveSlotsCoeff(millis: nat)

  const MILLI_ONE: nat := 1000

  function Without(keys: seq<Key>, k: Key): (r: seq<Key>)
    ensures forall x :: x in r <==> x in keys && x != k
  {
    if keys == [] then []
    else if keys[0] == k then Without(keys[1..], k)
    else [keys[0]] + Without(keys[1..], k)
  }

  /** Settings under construction; the two certificate fees are held back until the end. */
  datatype Draft = Draft(settings: Settings, perCertificateFees: Option<Payload>, perVoteCertificateFees: Option<Payload>)

  function ApplyParam(d: Draft, param: ConfigParam): Result<Draft, SettingsError> {
    var s := d.settings;
    match param
    case Block0Date(_) => Err(ReadOnlySetting)
    case Discrimination(_) => Err(ReadOnlySetting)
    case TreasuryAdd(_) => Err(ReadOnlySetting)
    case RewardPot(_) => Err(ReadOnlySetting)
    case KesUpdateSpeed(_) => Err(ReadOnlySetting)
    case ConsensusVersion(v) => Ok(d.(settings := s.(consensusVersion := v)))
    case SlotsPerEpoch(v) => Ok(d.(settings := s.(slotsPerEpoch := v)))
    case SlotDuration(v) => Ok(d.(settings := s.(slotDuration := v)))
    case EpochStabilityDepth(v) => Ok(d.(settings := s.(epochStabilityDepth := v)))
    case ConsensusGenesisPraosActiveSlotsCoeff(v) =>
      if 0 < v <= MILLI_ONE then Ok(d.(settings := s.(activeSlotsCoeff := v))) else Err(BadActiveSlotsCoeff(v))
    case BlockContentMaxSize(v) => Ok(d.(settings := s.(blockContentMaxSize := v)))
    case AddBftLeader(k) =>
      Ok(d.(settings := s.(bftLeaders := s.bftLeaders + [k], committees := s.committees + [k])))
    case RemoveBftLeader(k) => Ok(d.(settings := s.(bftLeaders := Without(s.bftLeaders, k))))
    case LinearFeeParam(v) => Ok(d.(settings := s.(linearFees := v)))
    case ProposalExpiration(v) => Ok(d.(settings := s.(proposalExpiration := v)))
    case RewardParams(v) => Ok(d.(settings := s.(rewardParams := Some(v))))
    case TreasuryParams(v) => Ok(d.(settings := s.(treasuryParams := Some(v))))
    case PerCertificateFees(v) => Ok(d.(perCertificateFees := Some(v)))
    case PerVoteCertificateFees(v) => Ok(d.(perVoteCertificateFees := Some(v)))
    case FeesInTreasury(v) => Ok(d.(settings := s.(feesGoesTo := if v then Treasury else Rewards)))
    case RewardLimitNone => Ok(d.(settings := s.(rewardsLimit := None)))
    case RewardLimitByAbsoluteStake(v) => Ok(d.(settings := s.(rewardsLimit := Some(v))))
    case PoolRewardParticipationCapping(v) => Ok(d.(settings := s.(poolParticipationCapping := Some(v))))
    case AddCommitteeId(k) => Ok(d.(settings := s.(committees := s.committees + [k])))
    case RemoveCommitteeId(k) => Ok(d.(settings := s.(committees := Without(s.committees, k))))
    case TransactionMaxExpiryEpochs(v) => Ok(d.(settings := s.(transactionMaxExpiryEpochs := v)))
  }

  function ApplyParams(d: Draft, changes: seq<ConfigParam>): Result<Draft, SettingsError> {
    if changes == [] then Ok(d) else
      var front := ApplyParams(d, changes[..|changes| - 1]);
      if front.Err? then front else ApplyParam(front.value, changes[|changes| - 1])
  }

  function Finished(d: Draft): Settings {
    var s := match d.perCertificateFees
      case Some(v) => d.settings.(linearFees := d.settings.linearFees.(perCertificateFees := v))
      case None => d.settings;
    match d.perVoteCertificateFees
    case Some(v) => s.(linearFees := s.linearFees.(perVoteCertificateFees := v))
    case None => s
  }

  function Applied(settings: Settings, changes: seq<ConfigParam>): Result<Settings, SettingsError> {
    var d := ApplyParams(Draft(settings, None, None), changes);
    if d.Err? then Err(d.error) else Ok(Finished(d.value))
  }

  /** Applies a list of changes, or none of them. */
  method TryApply(settings: Settings, changes: seq<ConfigParam>) returns (r: Result<Settings, SettingsError>)
    ensures r == Applied(settings, changes)
  {
    var draft := Draft(settings, None, None);
    for i := 0 to |changes|
      invariant ApplyParams(Draft(settings, None, None), changes[..i]) == Ok(draft)
    {
      var next := ApplyParam(draft, changes[i]);
      assert changes[..i + 1][..i] == changes[..i];
      if next.Err? {
        FirstErrorStays(Draft(settings, None, None), changes, i + 1);
        return Err(next.error);
      }
      draft := next.value;
    }
    assert changes[..|changes|] == changes;
    r := Ok(Finished(draft));
  }

  lemma {:induction false} FirstErrorStays(d: Draft, changes: seq<ConfigParam>, i: nat)
    requires i <= |changes| && ApplyParams(d, changes[..i]).Err?
    ensures ApplyParams(d, changes) == ApplyParams(d, changes[..i])
    decreases |changes|
  {
    if i < |changes| {
      var front := changes[..|changes| - 1];
      assert front[..i] == changes[..i];
      FirstErrorStays(d, front, i);
    } else {
      assert changes[..i] == changes;
    }
  }

  // ---- When a list of changes is valid ----

  predicate Acceptable(param: ConfigParam) {
    && !param.Block0Date? && !param.Discrimination? && !param.TreasuryAdd? && !param.RewardPot? && !param.KesUpdateSpeed?
    && (param.ConsensusGenesisPraosActiveSlotsCoeff? ==> 0 < param.millis <= MILLI_ONE)
  }

  predicate Valid(changes: seq<ConfigParam>) {
    forall i :: 0 <= i < |changes| ==> Acceptable(changes[i])
  }

  lemma {:induction false} ApplyParamsValid(d: Draft, changes: seq<ConfigParam>)
    ensures ApplyParams(d, changes).Ok? <==> Valid(changes)
    decreases |changes|
  {
    if changes != [] {
      var n := |changes| - 1;
      ApplyParamsValid(d, changes[..n]);
      assert Valid(changes) <==> Valid(changes[..n]) && Acceptable(changes[n]);
    }
  }

  /** Whether changes apply depends on the changes alone; the first bad one decides the error. */
  lemma AppliedWhenValid(settings: Settings, changes: seq<ConfigParam>)
    ensures Applied(settings, changes).Ok? <==> Valid(changes)
    ensures Valid(changes) <==>
            forall i :: 0 <= i < |changes| ==>
              match changes[i]
              case Block0Date(_) => false
              case Discrimination(_) => false
              case TreasuryAdd(_) => false
              case RewardPot(_) => false
              case KesUpdateSpeed(_) => false
              case ConsensusGenesisPraosActiveSlotsCoeff(millis) => 0 < millis <= 1000
              case _ => true
    ensures forall i :: 0 <= i < |changes| && Valid(changes[..i]) && !Acceptable(changes[i]) ==>
              Applied(settings, changes) == Err(if changes[i].ConsensusGenesisPraosActiveSlotsCoeff?
                                                then BadActiveSlotsCoeff(changes[i].millis) else ReadOnlySetting)
  {
    var d := Draft(settings, None, None);
    ApplyParamsValid(d, changes);
    forall i | 0 <= i < |changes| && Valid(changes[..i]) && !Acceptable(changes[i])
      ensures Applied(settings, changes) == Err(if changes[i].ConsensusGenesisPraosActiveSlotsCoeff?
                                                then BadActiveSlotsCoeff(changes[i].millis) else ReadOnlySetting)
    {
      ApplyParamsValid(d, changes[..i]);
      assert changes[..i + 1][..i] == changes[..i];
      FirstErrorStays(d, changes, i + 1);
    }
  }

  // ---- What valid changes achieve ----

  /** The last parameter that says whether `k` is a leader, if any does. */
  function LeaderMention(changes: seq<ConfigParam>, k: Key): Option<bool> {
    if changes == [] then None
    else
      var last := changes[|changes| - 1];
      if last == AddBftLeader(k) then Some(true)
      else if last == RemoveBftLeader(k) then Some(false)
      else LeaderMention(changes[..|changes| - 1], k)
  }

  /** Adding a leader makes it a committee member; removing a leader does not undo that. */
  function CommitteeMention(changes: seq<ConfigParam>, k: Key): Option<bool> {
    if changes == [] then None
    else
      var last := changes[|changes| - 1];
      if last == AddBftLeader(k) || last == AddCommitteeId(k) then Some(true)
      else if last == RemoveCommitteeId(k) then Some(false)
      else CommitteeMention(changes[..|changes| - 1], k)
  }

  /** The parameters that set one and the same field. */
  datatype Kind =
    | Version | Slots | Duration | Depth | Coefficient | Size | Fees | Expiration | Reward | Tax | Goes | Limit
    | Capping | Expiry | Certificate | VoteCertificate | Other

  function KindOf(param: ConfigParam): Kind {
    match param
    case ConsensusVersion(_) => Version
    case SlotsPerEpoch(_) => Slots
    case SlotDuration(_) => Duration
    case EpochStabilityDepth(_) => Depth
    case ConsensusGenesisPraosActiveSlotsCoeff(_) => Coefficient
    case BlockContentMaxSize(_) => Size
    case LinearFeeParam(_) => Fees
    case ProposalExpiration(_) => Expiration
    case RewardParams(_) => Reward
    case TreasuryParams(_) => Tax
    case FeesInTreasury(_) => Goes
    case RewardLimitNone => Limit
    case RewardLimitByAbsoluteStake(_) => Limit
    case PoolRewardParticipationCapping(_) => Capping
    case TransactionMaxExpiryEpochs(_) => Expiry
    case PerCertificateFees(_) => Certificate
    case PerVoteCertificateFees(_) => VoteCertificate
    case _ => Other
  }

  function Last(changes: seq<ConfigParam>, kind: Kind): (r: Option<ConfigParam>)
    ensures r.Some? ==> KindOf(r.value) == kind && r.value in changes
  {
    if changes == [] then None
    else
      var last := changes[|changes| - 1];
      if KindOf(last) == kind then Some(last) else Last(changes[..|changes| - 1], kind)
  }

  /** The field that a parameter sets has the value it asks for. */
  predicate Reflects(s: Settings, param: ConfigParam) {
    match param
    case ConsensusVersion(v) => s.consensusVersion == v
    case SlotsPerEpoch(v) => s.slotsPerEpoch == v
    case SlotDuration(v) => s.slotDuration == v
    case EpochStabilityDepth(v) => s.epochStabilityDepth == v
    case ConsensusGenesisPraosActiveSlotsCoeff(v) => s.activeSlotsCoeff == v
    case BlockContentMaxSize(v) => s.blockContentMaxSize == v
    case LinearFeeParam(v) => s.linearFees.base == v.base
    case ProposalExpiration(v) => s.proposalExpiration == v
    case RewardParams(v) => s.rewardParams == Some(v)
    case TreasuryParams(v) => s.treasuryParams == Some(v)
    case FeesInTreasury(v) => s.feesGoesTo.Treasury? == v
    case RewardLimitNone => s.rewardsLimit == None
    case RewardLimitByAbsoluteStake(v) => s.rewardsLimit == Some(v)
    case PoolRewardParticipationCapping(v) => s.poolParticipationCapping == Some(v)
    case TransactionMaxExpiryEpochs(v) => s.transactionMaxExpiryEpochs == v
    case PerCertificateFees(v) => s.linearFees.perCertificateFees == v
    case PerVoteCertificateFees(v) => s.linearFees.perVoteCertificateFees == v
    case _ => true
  }

  predicate SameField(s: Settings, s': Settings, kind: Kind) {
    match kind
    case Version => s.consensusVersion == s'.consensusVersion
    case Slots => s.slotsPerEpoch == s'.slotsPerEpoch
    case Duration => s.slotDuration == s'.slotDuration
    case Depth => s.epochStabilityDepth == s'.epochStabilityDepth
    case Coefficient => s.activeSlotsCoeff == s'.activeSlotsCoeff
    case Size => s.blockContentMaxSize == s'.blockContentMaxSize
    case Fees => s.linearFees.base == s'.linearFees.base
    case Expiration => s.proposalExpiration == s'.proposalExpiration
    case Reward => s.rewardParams == s'.rewardParams
    case Tax => s.treasuryParams == s'.treasuryParams
    case Goes => s.feesGoesTo == s'.feesGoesTo
    case Limit => s.rewardsLimit == s'.rewardsLimit
    case Capping => s.poolParticipationCapping == s'.poolParticipationCapping
    case Expiry => s.transactionMaxExpiryEpochs == s'.transactionMaxExpiryEpochs
    case _ => true
  }

  /** The certificate fees come from the last parameter for them, wherever linear fees stand. */
  predicate HeldBack(fees: Option<Payload>, before: Option<Payload>, last: Option<ConfigParam>)
    requires last.Some? ==> last.value.PerCertificateFees? || last.value.PerVoteCertificateFees?
  {
    fees == if last.Some? then Some(last.value.fees) else before
  }

  function Decided<T>(mention: Option<T>, otherwise: T): T {
    if mention.Some? then mention.value else otherwise
  }

  lemma {:induction false} DraftKeys(d: Draft, changes: seq<ConfigParam>, k: Key)
    requires Valid(changes)
    ensures var r := ApplyParams(d, changes);
            && r.Ok?
            && (k in r.value.settings.bftLeaders <==> Decided(LeaderMention(changes, k), k in d.settings.bftLeaders))
            && (k in r.value.settings.committees <==> Decided(CommitteeMention(changes, k), k in d.settings.committees))
    decreases |changes|
  {
    ApplyParamsValid(d, changes);
    if changes != [] {
      assert changes[|changes| - 1] in changes;
      DraftKeys(d, changes[..|changes| - 1], k);
    }
  }

  lemma ParamSetsItsField(d: Draft, param: ConfigParam, kind: Kind)
    requires ApplyParam(d, param).Ok? && kind != Certificate && kind != VoteCertificate
    ensures var s := ApplyParam(d, param).value.settings;
            if KindOf(param) == kind then Reflects(s, param) else SameField(s, d.settings, kind)
  {
  }

  lemma SameFieldReflects(s: Settings, s': Settings, param: ConfigParam)
    requires SameField(s, s', KindOf(param)) && Reflects(s', param)
    requires !param.PerCertificateFees? && !param.PerVoteCertificateFees?
    ensures Reflects(s, param)
  {
  }

  lemma {:induction false} DraftFields(d: Draft, changes: seq<ConfigParam>, kind: Kind)
    requires Valid(changes) && kind != Certificate && kind != VoteCertificate
    ensures var (r, last) := (ApplyParams(d, changes), Last(changes, kind));
            && r.Ok?
            && (if last.Some? then Reflects(r.value.settings, last.value) else SameField(r.value.settings, d.settings, kind))
    decreases |changes|
  {
    ApplyParamsValid(d, changes);
    if changes != [] {
      var front := changes[..|changes| - 1];
      var before := ApplyParams(d, front);
      DraftFields(d, front, kind);
      ParamSetsItsField(before.value, changes[|changes| - 1], kind);
      if Last(changes, kind).Some? && KindOf(changes[|changes| - 1]) != kind {
        SameFieldReflects(ApplyParams(d, changes).value.settings, before.value.settings, Last(changes, kind).value);
      }
    }
  }

  lemma {:induction false} DraftFees(d: Draft, changes: seq<ConfigParam>)
    requires Valid(changes)
    ensures var r := ApplyParams(d, changes);
            && r.Ok?
            && HeldBack(r.value.perCertificateFees, d.perCertificateFees, Last(changes, Certificate))
            && HeldBack(r.value.perVoteCertificateFees, d.perVoteCertificateFees, Last(changes, VoteCertificate))
    decreases |changes|
  {
    ApplyParamsValid(d, changes);
    if changes != [] {
      DraftFees(d, changes[..|changes| - 1]);
    }
  }

  /** The linear fees, until the separate certificate fees are put in. */
  function LinearFeesLeft(settings: Settings, changes: seq<ConfigParam>): LinearFee {
    var last := Last(changes, Fees);
    if last.Some? then last.value.fee else settings.linearFees
  }

  /** The certificate fees of a parameter for them, if there is one. */
  function FeesOf(param: Option<ConfigParam>, otherwise: Payload): Payload
    requires param.Some? ==> param.value.PerCertificateFees? || param.value.PerVoteCertificateFees?
  {
    if param.Some? then param.value.fees else otherwise
  }

  lemma {:induction false} DraftLinearFees(d: Draft, changes: seq<ConfigParam>)
    requires Valid(changes)
    ensures ApplyParams(d, changes).Ok?
    ensures ApplyParams(d, changes).value.settings.linearFees == LinearFeesLeft(d.settings, changes)
    decreases |changes|
  {
    ApplyParamsValid(d, changes);
    if changes != [] {
      DraftLinearFees(d, changes[..|changes| - 1]);
    }
  }

  /** In every field the last parameter for it decides. The two certificate fees even win over
      linear fees that come after them; without a parameter of their own they are those of the
      last linear fees, or stay as they were. */
  lemma LastParamDecides(settings: Settings, changes: seq<ConfigParam>, kind: Kind)
    requires Valid(changes)
    ensures var (r, last) := (Applied(settings, changes), Last(changes, kind));
            && r.Ok?
            && (if last.Some? then Reflects(r.value, last.value) else SameField(r.value, settings, kind))
    ensures var (fees, left) := (Applied(settings, changes).value.linearFees, LinearFeesLeft(settings, changes));
            && fees.base == left.base
            && fees.perCertificateFees == FeesOf(Last(changes, Certificate), left.perCertificateFees)
            && fees.perVoteCertificateFees == FeesOf(Last(changes, VoteCertificate), left.perVoteCertificateFees)
  {
    var d := Draft(settings, None, None);
    DraftFees(d, changes);
    DraftLinearFees(d, changes);
    if kind != Certificate && kind != VoteCertificate {
      DraftFields(d, changes, kind);
    }
  }

  /** The last mention of a key decides whether it is a leader or a committee member. */
  lemma LastMentionDecides(settings: Settings, changes: seq<ConfigParam>, k: Key)
    requires Valid(changes)
    ensures var r := Applied(settings, changes);
            && r.Ok?
            && (k in r.value.bftLeaders <==> Decided(LeaderMention(changes, k), k in settings.bftLeaders))
            && (k in r.value.committees <==> Decided(CommitteeMention(changes, k), k in settings.committees))
  {
    DraftKeys(Draft(settings, None, None), changes, k);
  }

  // ---- The order of leaders and committee members ----

  /** What a parameter does to a list of keys. */
  datatype Edit = Push(key: Key) | Drop(key: Key) | Nothing

  function LeaderEdit(param: ConfigParam): Edit {
    match param
    case AddBftLeader(k) => Push(k)
    case RemoveBftLeader(k) => Drop(k)
    case _ => Nothing
  }

  function CommitteeEdit(param: ConfigParam): Edit {
    match param
    case AddBftLeader(k) => Push(k)
    case AddCommitteeId(k) => Push(k)
    case RemoveCommitteeId(k) => Drop(k)
    case _ => Nothing
  }

  function Edits(edit: ConfigParam -> Edit, changes: seq<ConfigParam>): seq<Edit> {
    seq(|changes|, i requires 0 <= i < |changes| => edit(changes[i]))
  }

  /** The old keys that no edit drops, in their order. */
  function Survivors(keys: seq<Key>, edits: seq<Edit>): seq<Key> {
    if keys == [] then [] else (if Drop(keys[0]) in edits then [] else [keys[0]]) + Survivors(keys[1..], edits)
  }

  /** The new keys that no later edit drops, in the order of the edits. */
  function Additions(edits: seq<Edit>): seq<Key> {
    if edits == [] then [] else
      (if edits[0].Push? && Drop(edits[0].key) !in edits[1..] then [edits[0].key] else []) + Additions(edits[1..])
  }

  lemma {:induction false} WithoutConcat(a: seq<Key>, b: seq<Key>, k: Key)
    ensures Without(a + b, k) == Without(a, k) + Without(b, k)
  {
    if a == [] {
      assert a + b == b;
    } else {
      assert (a + b)[1..] == a[1..] + b;
      WithoutConcat(a[1..], b, k);
    }
  }

  function Edited(keys: seq<Key>, edit: Edit): seq<Key> {
    match edit
    case Push(k) => keys + [k]
    case Drop(k) => Without(keys, k)
    case Nothing => keys
  }

  /** One more edit drops its key from the survivors, if it is to be dropped. */
  lemma {:induction false} SurvivorsStep(keys: seq<Key>, edits: seq<Edit>, last: Edit)
    ensures Survivors(keys, edits + [last]) ==
            if last.Drop? then Without(Survivors(keys, edits), last.key) else Survivors(keys, edits)
    decreases |keys|
  {
    if keys != [] {
      SurvivorsStep(keys[1..], edits, last);
      assert Drop(keys[0]) in edits + [last] <==> Drop(keys[0]) in edits || Drop(keys[0]) == last;
      if last.Drop? {
        WithoutConcat(if Drop(keys[0]) in edits then [] else [keys[0]], Survivors(keys[1..], edits), last.key);
        WithoutOne(keys[0], last.key);
      }
    }
  }

  lemma WithoutOne(x: Key, k: Key)
    ensures Without([x], k) == if x == k then [] else [x]
    ensures Without([], k) == []
  {
    assert [x][1..] == [];
  }

  lemma {:induction false} AdditionsStep(edits: seq<Edit>, last: Edit)
    ensures Additions(edits + [last]) == Edited(Additions(edits), last)
    decreases |edits|
  {
    if edits == [] {
      assert edits + [last] == [last] && [last][1..] == [];
    } else {
      var rest := edits[1..];
      assert (edits + [last])[1..] == rest + [last] && (edits + [last])[0] == edits[0];
      AdditionsStep(rest, last);
      FirstAddition(edits[0], rest, last, Additions(rest));
    }
  }

  lemma FirstAddition(first: Edit, rest: seq<Edit>, last: Edit, more: seq<Key>)
    ensures (if first.Push? && Drop(first.key) !in rest + [last] then [first.key] else []) + Edited(more, last) ==
            Edited((if first.Push? && Drop(first.key) !in rest then [first.key] else []) + more, last)
  {
    assert first.Push? ==> (Drop(first.key) in rest + [last] <==> Drop(first.key) in rest || Drop(first.key) == last);
    var head := if first.Push? && Drop(first.key) !in rest then [first.key] else [];
    match last
    case Drop(k) =>
      WithoutConcat(head, more, k);
      if head != [] {
        WithoutOne(first.key, k);
      }
    case Push(k) => assert head + more + [k] == head + (more + [k]);
    case Nothing =>
  }

  /** All edits of a list keep the order: the survivors come first, then what was added. */
  lemma EditedStep(keys: seq<Key>, edits: seq<Edit>, last: Edit)
    ensures Survivors(keys, edits + [last]) + Additions(edits + [last])
            == Edited(Survivors(keys, edits) + Additions(edits), last)
  {
    SurvivorsStep(keys, edits, last);
    AdditionsStep(edits, last);
    match last
    case Drop(k) => WithoutConcat(Survivors(keys, edits), Additions(edits), k);
    case Push(k) =>
      assert Survivors(keys, edits) + (Additions(edits) + [k]) == Survivors(keys, edits) + Additions(edits) + [k];
    case Nothing =>
  }

  lemma {:induction false} NoEdits(keys: seq<Key>)
    ensures Survivors(keys, []) + Additions([]) == keys
  {
    if keys != [] {
      NoEdits(keys[1..]);
    }
  }

  lemma ParamEdits(d: Draft, param: ConfigParam)
    requires ApplyParam(d, param).Ok?
    ensures var s := ApplyParam(d, param).value.settings;
            && s.bftLeaders == Edited(d.settings.bftLeaders, LeaderEdit(param))
            && s.committees == Edited(d.settings.committees, CommitteeEdit(param))
  {
  }

  /** The leaders that a draft lists. */
  lemma {:induction false} DraftLists(d: Draft, changes: seq<ConfigParam>)
    requires Valid(changes)
    ensures ApplyParams(d, changes).Ok?
    ensures var (s, leaders, committees) :=
              (ApplyParams(d, changes).value.settings, Edits(LeaderEdit, changes), Edits(CommitteeEdit, changes));
            && s.bftLeaders == Survivors(d.settings.bftLeaders, leaders) + Additions(leaders)
            && s.committees == Survivors(d.settings.committees, committees) + Additions(committees)
    decreases |changes|
  {
    ApplyParamsValid(d, changes);
    if changes == [] {
      NoEdits(d.settings.bftLeaders);
      NoEdits(d.settings.committees);
      assert Edits(LeaderEdit, changes) == [] && Edits(CommitteeEdit, changes) == [];
    } else {
      var (front, last) := (changes[..|changes| - 1], changes[|changes| - 1]);
      DraftLists(d, front);
      ParamEdits(ApplyParams(d, front).value, last);
      assert Edits(LeaderEdit, changes) == Edits(LeaderEdit, front) + [LeaderEdit(last)];
      assert Edits(CommitteeEdit, changes) == Edits(CommitteeEdit, front) + [CommitteeEdit(last)];
      EditedStep(d.settings.bftLeaders, Edits(LeaderEdit, front), LeaderEdit(last));
      EditedStep(d.settings.committees, Edits(CommitteeEdit, front), CommitteeEdit(last));
    }
  }

  /** Leaders and committee members keep their order and multiplicity: first the old ones that no
      change removes, then the added ones that no later change removes, in the order of the changes. */
  lemma ListsInOrder(settings: Settings, changes: seq<ConfigParam>)
    requires Valid(changes)
    ensures Applied(settings, changes).Ok?
    ensures var (s, leaders, committees) :=
              (Applied(settings, changes).value, Edits(LeaderEdit, changes), Edits(CommitteeEdit, changes));
            && s.bftLeaders == Survivors(settings.bftLeaders, leaders) + Additions(leaders)
            && s.committees == Survivors(settings.committees, committees) + Additions(committees)
  {
    DraftLists(Draft(settings, None, None), changes);
  }

  /** The active slots coefficient never leaves the range (0, 1]. */
  lemma CoefficientInRange(settings: Settings, changes: seq<ConfigParam>)
    requires Valid(changes) && 0 < settings.activeSlotsCoeff <= MILLI_ONE
    ensures Applied(settings, changes).Ok? && 0 < Applied(settings, changes).value.activeSlotsCoeff <= MILLI_ONE
  {
    LastParamDecides(settings, changes, Coefficient);
    var last := Last(changes, Coefficient);
    if last.Some? {
      var i :| 0 <= i < |changes| && changes[i] == last.value;
      assert Acceptable(changes[i]);
    }
  }
}
