/** Staking: input validation, the transaction planner and the lesser/greater
    neighbour scan of src/features/validators/stakeToken.ts.

    The helpers this file imports but does not define (address normalization and
    checks, the nearly-equal test on amounts, the staking maximum, the amount
    adjustment, amount validation) are fields of `Helpers`: arbitrary total
    functions about which nothing is assumed. The network reads become parameters. */
module StakeToken {
  import opened Wrappers
  import opened ValidatorTypes

  datatype StakeActionType = Vote | Activate | Revoke
    /** A value of the action field that is none of the three kinds. */
    | Unrecognized

  datatype TransactionType =
    | ValidatorVoteCelo
    | ValidatorActivateCelo
    | ValidatorRevokePendingCelo
    | ValidatorRevokeActiveCelo

  /** The user's intent. `amountInWei` is `None` when the amount string is empty or absent. */
  datatype StakeTokenParams = StakeTokenParams(
    action: StakeActionType,
    amountInWei: Option<int>,
    groupAddress: Address)

  /** One planned on-chain call. */
  datatype TxPlanItem = TxPlanItem(
    txType: TransactionType,
    amountInWei: int,
    groupAddress: Address,
    voterAddress: Address)

  type TxPlan = seq<TxPlanItem>

  /** The errors the planner and the vote-list zip throw. */
  datatype StakeError =
    | MissingGroupVotes     // `currentVotes[groupAddress]` is undefined, so reading `.pending` throws
    | RevokeExceedsVotes    // 'Cannot revoke more votes than active + pending'
    | InvalidAction         // 'Invalid stakeToken tx type'
    | VoteListMismatch      // fewer vote totals than eligible groups: `BigNumber.from(undefined)` throws

  /** The keys of an error state: the four fields `validate` flags itself, and any
      other field name a helper reports. */
  datatype Field = GroupAddressField | ActionField | AmountField | LockedCeloField | OtherField(name: string)

  /** Field-keyed input errors: `fields` maps a field to its help text. */
  datatype ErrorState = ErrorState(isValid: bool, fields: map<Field, string>)

  /** The imported helpers that the core calls but does not define. Each closes over
      the balances and votes it is given by the caller. */
  datatype Helpers = Helpers(
    normalizeAddress: Address -> Address,
    isValidAddress: Address -> bool,
    areAmountsNearlyEqual: (int, int) -> bool,
    /** getStakingMaxAmount(action, voterBalances, votes, groupAddress) */
    getStakingMaxAmount: (StakeActionType, Address) -> int,
    /** getAdjustedAmount(amount, maxAmount, CELO) */
    getAdjustedAmount: (int, int) -> int,
    /** validateAmount(amount, CELO, null, maxAmount, MIN_VOTE_AMOUNT); `None` is a null result */
    validateAmount: (int, int) -> Option<ErrorState>)

  // ---------------------------------------------------------------------------
  // validate

  /** invalidInput(field, helpText): an invalid error state flagging exactly one field,
      with that help text. */
  function InvalidInput(field: Field, helpText: string): (e: ErrorState)
    ensures !e.isValid
    ensures e.fields.Keys == {field} && e.fields[field] == helpText
  {
    ErrorState(false, map[field := helpText])
  }

  /** `{ ...errors, ...extra }`: the fields of `extra` are added (overriding equal
      keys), and so is its `isValid`; spreading `null` changes nothing. */
  function Spread(errors: ErrorState, extra: Option<ErrorState>): (r: ErrorState)
    ensures r.isValid == if extra.None? then errors.isValid else extra.value.isValid
  {
    match extra
    case None => errors
    case Some(e) => ErrorState(e.isValid, errors.fields + e.fields)
  }

  /** Spreading keeps every field, adds the helper's, and lets the helper's text win. */
  lemma SpreadFields(errors: ErrorState, extra: Option<ErrorState>)
    ensures var r := Spread(errors, extra);
      && r.fields.Keys == errors.fields.Keys + KeysOf(extra)
      && (forall k :: k in errors.fields && k !in KeysOf(extra) ==> r.fields[k] == errors.fields[k])
      && (forall k :: k in KeysOf(extra) ==> r.fields[k] == extra.value.fields[k])
      && (extra.None? ==> r == errors)
  {
  }

  function KeysOf(e: Option<ErrorState>): set<Field>
  {
    if e.Some? then e.value.fields.Keys else {}
  }

  /** True when the helper result leaves a valid state valid. */
  predicate LeavesValid(e: Option<ErrorState>)
  {
    e.None? || e.value.isValid
  }

  /** True when the helper result leaves an invalid state invalid. */
  predicate KeepsInvalid(e: Option<ErrorState>)
  {
    e.None? || !e.value.isValid
  }

  /** The result of validateAmount, when the amount is present. */
  ghost function AmountResult(params: StakeTokenParams, h: Helpers): Option<ErrorState>
  {
    if params.amountInWei.Some?
    then h.validateAmount(params.amountInWei.value, h.getStakingMaxAmount(params.action, params.groupAddress))
    else None
  }

  /** No helper result that `validate` spreads turns a valid state invalid. */
  ghost predicate HelpersLeaveValid(params: StakeTokenParams, h: Helpers, validateFee: bool,
                                    feeEstimateErrors: Option<ErrorState>,
                                    amountWithFeesErrors: Option<ErrorState>)
  {
    LeavesValid(AmountResult(params, h))
    && (validateFee ==> LeavesValid(feeEstimateErrors) && LeavesValid(amountWithFeesErrors))
  }

  /** No helper result that `validate` spreads turns an invalid state valid. */
  ghost predicate HelpersKeepInvalid(params: StakeTokenParams, h: Helpers, validateFee: bool,
                                     feeEstimateErrors: Option<ErrorState>,
                                     amountWithFeesErrors: Option<ErrorState>)
  {
    KeepsInvalid(AmountResult(params, h))
    && (validateFee ==> KeepsInvalid(feeEstimateErrors) && KeepsInvalid(amountWithFeesErrors))
  }

  /** The field names some helper result reports. */
  ghost function HelperFields(params: StakeTokenParams, h: Helpers, validateFee: bool,
                              feeEstimateErrors: Option<ErrorState>,
                              amountWithFeesErrors: Option<ErrorState>): set<Field>
  {
    (if params.amountInWei.Some?
     then KeysOf(h.validateAmount(params.amountInWei.value,
                                  h.getStakingMaxAmount(params.action, params.groupAddress)))
     else {})
    + (if validateFee then KeysOf(feeEstimateErrors) + KeysOf(amountWithFeesErrors) else {})
  }

  /** The group-address check: absent, malformed, or (except for a revoke) not a known group. */
  ghost predicate GroupAddressRejected(params: StakeTokenParams, h: Helpers, groups: seq<ValidatorGroup>)
  {
    || params.groupAddress == ""
    || !h.isValidAddress(params.groupAddress)
    || (params.action != Revoke &&
        forall i :: 0 <= i < |groups| ==> groups[i].address != h.normalizeAddress(params.groupAddress))
  }

  /** What each check of `validate` spreads into the error state, in order. */
  ghost function GroupAddressError(params: StakeTokenParams, h: Helpers, groups: seq<ValidatorGroup>)
    : Option<ErrorState>
  {
    if params.groupAddress == "" then Some(InvalidInput(GroupAddressField, "Validator Group Required"))
    else if !h.isValidAddress(params.groupAddress) then Some(InvalidInput(GroupAddressField, "Invalid Group Address"))
    else if GroupAddressRejected(params, h, groups) then Some(InvalidInput(GroupAddressField, "Invalid Validator Group"))
    else None
  }

  ghost function ActionError(params: StakeTokenParams): Option<ErrorState>
  {
    if params.action == Unrecognized then Some(InvalidInput(ActionField, "Invalid Action Type")) else None
  }

  ghost function AmountError(params: StakeTokenParams, h: Helpers): Option<ErrorState>
  {
    if params.amountInWei.None? then Some(InvalidInput(AmountField, "Amount Missing")) else AmountResult(params, h)
  }

  ghost function LockedError(params: StakeTokenParams, voterLocked: int, minLockedGoldToVote: int): Option<ErrorState>
  {
    if params.action == Vote && voterLocked <= minLockedGoldToVote
    then Some(InvalidInput(LockedCeloField, "Insufficient locked CELO"))
    else None
  }

  /** The error state after the four checks, before the fee checks. */
  ghost function ChecksErrors(params: StakeTokenParams, h: Helpers, groups: seq<ValidatorGroup>,
                              voterLocked: int, minLockedGoldToVote: int): ErrorState
  {
    Spread(Spread(Spread(Spread(ErrorState(true, map[]), GroupAddressError(params, h, groups)),
                         ActionError(params)),
                  AmountError(params, h)),
           LockedError(params, voterLocked, minLockedGoldToVote))
  }

  ghost function FeeErrors(e: ErrorState, validateFee: bool,
                           feeEstimateErrors: Option<ErrorState>, amountWithFeesErrors: Option<ErrorState>)
    : ErrorState
  {
    if validateFee then Spread(Spread(e, feeEstimateErrors), amountWithFeesErrors) else e
  }

  /** The error state `validate` returns: the four checks, then the two fee checks. */
  ghost function ValidationErrors(params: StakeTokenParams, h: Helpers, groups: seq<ValidatorGroup>,
                                  voterLocked: int, minLockedGoldToVote: int, validateFee: bool,
                                  feeEstimateErrors: Option<ErrorState>, amountWithFeesErrors: Option<ErrorState>)
    : ErrorState
  {
    FeeErrors(ChecksErrors(params, h, groups, voterLocked, minLockedGoldToVote),
              validateFee, feeEstimateErrors, amountWithFeesErrors)
  }

  /** Checks a staking request and accumulates one error per failing field, without
      stopping at the first. `voterLocked` is the voter's locked CELO; the results of
      validateFeeEstimates and validateAmountWithFees are passed in, and are consulted
      only when `validateFee` is set. */
  method Validate(params: StakeTokenParams, h: Helpers, groups: seq<ValidatorGroup>,
                  voterLocked: int, minLockedGoldToVote: int, validateFee: bool,
                  feeEstimateErrors: Option<ErrorState>, amountWithFeesErrors: Option<ErrorState>)
    returns (errors: ErrorState)
    ensures errors == ValidationErrors(params, h, groups, voterLocked, minLockedGoldToVote, validateFee,
                                       feeEstimateErrors, amountWithFeesErrors)
  {
    var amountInWei, groupAddress, action := params.amountInWei, params.groupAddress, params.action;
    errors := ErrorState(true, map[]);

    if groupAddress == "" {
      errors := Spread(errors, Some(InvalidInput(GroupAddressField, "Validator Group Required")));
      assert GroupAddressError(params, h, groups) == Some(InvalidInput(GroupAddressField, "Validator Group Required"));
    } else if !h.isValidAddress(groupAddress) {
      errors := Spread(errors, Some(InvalidInput(GroupAddressField, "Invalid Group Address")));
      assert GroupAddressError(params, h, groups) == Some(InvalidInput(GroupAddressField, "Invalid Group Address"));
    } else {
      var formattedAddress := h.normalizeAddress(groupAddress);
      var isAddressUnknown := forall i | 0 <= i < |groups| :: groups[i].address != formattedAddress;
      assert GroupAddressRejected(params, h, groups) <==> action != Revoke && isAddressUnknown;
      if action != Revoke && isAddressUnknown {
        errors := Spread(errors, Some(InvalidInput(GroupAddressField, "Invalid Validator Group")));
        assert GroupAddressError(params, h, groups) == Some(InvalidInput(GroupAddressField, "Invalid Validator Group"));
      } else {
        assert GroupAddressError(params, h, groups) == None;
      }
    }
    ghost var afterGroup := errors;
    assert afterGroup == Spread(ErrorState(true, map[]), GroupAddressError(params, h, groups));

    if action == Unrecognized {
      errors := Spread(errors, Some(InvalidInput(ActionField, "Invalid Action Type")));
    }
    ghost var afterAction := errors;
    assert afterAction == Spread(afterGroup, ActionError(params));

    if amountInWei.None? {
      errors := Spread(errors, Some(InvalidInput(AmountField, "Amount Missing")));
      assert AmountError(params, h) == Some(InvalidInput(AmountField, "Amount Missing"));
    } else {
      var maxAmount := h.getStakingMaxAmount(params.action, params.groupAddress);
      errors := Spread(errors, h.validateAmount(amountInWei.value, maxAmount));
      assert AmountError(params, h) == h.validateAmount(amountInWei.value, maxAmount);
    }
    ghost var afterAmount := errors;
    assert afterAmount == Spread(afterAction, AmountError(params, h));

    if action == Vote && voterLocked <= minLockedGoldToVote {
      errors := Spread(errors, Some(InvalidInput(LockedCeloField, "Insufficient locked CELO")));
    }
    assert errors == Spread(afterAmount, LockedError(params, voterLocked, minLockedGoldToVote));

    if validateFee {
      errors := Spread(Spread(errors, feeEstimateErrors), amountWithFeesErrors);
    }
  }

  /** What `validate` reports: each check flags its own field whenever its condition
      holds, whatever the other checks find (errors accumulate); a revoke is never
      rejected for naming an unknown group; and the state is invalid when some check
      fires, unless a helper reports success over it. */
  lemma ValidationReport(params: StakeTokenParams, h: Helpers, groups: seq<ValidatorGroup>,
                         voterLocked: int, minLockedGoldToVote: int, validateFee: bool,
                         feeEstimateErrors: Option<ErrorState>, amountWithFeesErrors: Option<ErrorState>)
    ensures var e := ValidationErrors(params, h, groups, voterLocked, minLockedGoldToVote, validateFee,
                                      feeEstimateErrors, amountWithFeesErrors);
            var helpers := HelperFields(params, h, validateFee, feeEstimateErrors, amountWithFeesErrors);
      // which fields are flagged: the checks' own fields plus those of the helpers, no others
      && (GroupAddressField in e.fields <==> GroupAddressRejected(params, h, groups) || GroupAddressField in helpers)
      && (ActionField in e.fields <==> params.action == Unrecognized || ActionField in helpers)
      && (params.amountInWei.None? ==> AmountField in e.fields)
      && (params.amountInWei.Some? ==> (AmountField in e.fields <==> AmountField in helpers))
      && (LockedCeloField in e.fields <==>
            (params.action == Vote && voterLocked <= minLockedGoldToVote) || LockedCeloField in helpers)
      && e.fields.Keys <= {GroupAddressField, ActionField, AmountField, LockedCeloField} + helpers
      // the help texts of the checks shown here, unless a later helper reports the same field
      && (GroupAddressField !in helpers ==>
            (params.groupAddress == "" ==>
                  GroupAddressField in e.fields && e.fields[GroupAddressField] == "Validator Group Required")
            && (params.groupAddress != "" && !h.isValidAddress(params.groupAddress) ==>
                  GroupAddressField in e.fields && e.fields[GroupAddressField] == "Invalid Group Address")
            && (params.groupAddress != "" && h.isValidAddress(params.groupAddress)
                && GroupAddressRejected(params, h, groups) ==>
                  GroupAddressField in e.fields && e.fields[GroupAddressField] == "Invalid Validator Group"))
      && (params.action == Unrecognized && ActionField !in helpers ==>
            ActionField in e.fields && e.fields[ActionField] == "Invalid Action Type")
      && (params.amountInWei.None? && AmountField !in helpers ==>
            AmountField in e.fields && e.fields[AmountField] == "Amount Missing")
      && (params.action == Vote && voterLocked <= minLockedGoldToVote && LockedCeloField !in helpers ==>
            LockedCeloField in e.fields && e.fields[LockedCeloField] == "Insufficient locked CELO")
      // validity: nothing flagged and no helper objecting means valid; an own error is never
      // masked by helpers that themselves report invalid or null
      && (e.fields.Keys == {} && HelpersLeaveValid(params, h, validateFee, feeEstimateErrors, amountWithFeesErrors)
          ==> e.isValid)
      && ((GroupAddressRejected(params, h, groups) || params.action == Unrecognized
           || params.amountInWei.None? || (params.action == Vote && voterLocked <= minLockedGoldToVote))
          && HelpersKeepInvalid(params, h, validateFee, feeEstimateErrors, amountWithFeesErrors)
          ==> !e.isValid)
  {
    ReportFlags(params, h, groups, voterLocked, minLockedGoldToVote, validateFee, feeEstimateErrors, amountWithFeesErrors);
    ReportTexts(params, h, groups, voterLocked, minLockedGoldToVote, validateFee, feeEstimateErrors, amountWithFeesErrors);
    ReportValidity(params, h, groups, voterLocked, minLockedGoldToVote, validateFee, feeEstimateErrors, amountWithFeesErrors);
  }

  /** The fields `validate` flags. */
  lemma ReportFlags(params: StakeTokenParams, h: Helpers, groups: seq<ValidatorGroup>,
                    voterLocked: int, minLockedGoldToVote: int, validateFee: bool,
                    feeEstimateErrors: Option<ErrorState>, amountWithFeesErrors: Option<ErrorState>)
    ensures var e := ValidationErrors(params, h, groups, voterLocked, minLockedGoldToVote, validateFee,
                                      feeEstimateErrors, amountWithFeesErrors);
            var helpers := HelperFields(params, h, validateFee, feeEstimateErrors, amountWithFeesErrors);
      && (GroupAddressField in e.fields <==> GroupAddressRejected(params, h, groups) || GroupAddressField in helpers)
      && (ActionField in e.fields <==> params.action == Unrecognized || ActionField in helpers)
      && (params.amountInWei.None? ==> AmountField in e.fields)
      && (params.amountInWei.Some? ==> (AmountField in e.fields <==> AmountField in helpers))
      && (LockedCeloField in e.fields <==>
            (params.action == Vote && voterLocked <= minLockedGoldToVote) || LockedCeloField in helpers)
      && e.fields.Keys <= {GroupAddressField, ActionField, AmountField, LockedCeloField} + helpers
  {
    var checked := ChecksErrors(params, h, groups, voterLocked, minLockedGoldToVote);
    FeeChecksKeep(checked, validateFee, feeEstimateErrors, amountWithFeesErrors);
    var extra := if validateFee then KeysOf(feeEstimateErrors) + KeysOf(amountWithFeesErrors) else {};
    assert HelperFields(params, h, validateFee, feeEstimateErrors, amountWithFeesErrors)
        == KeysOf(AmountResult(params, h)) + extra;
    ChecksFlagFields(params, h, groups, voterLocked, minLockedGoldToVote);
  }

  /** The help texts `validate` reports for its own checks. */
  lemma ReportTexts(params: StakeTokenParams, h: Helpers, groups: seq<ValidatorGroup>,
                    voterLocked: int, minLockedGoldToVote: int, validateFee: bool,
                    feeEstimateErrors: Option<ErrorState>, amountWithFeesErrors: Option<ErrorState>)
    ensures var e := ValidationErrors(params, h, groups, voterLocked, minLockedGoldToVote, validateFee,
                                      feeEstimateErrors, amountWithFeesErrors);
            var helpers := HelperFields(params, h, validateFee, feeEstimateErrors, amountWithFeesErrors);
      // the help texts of the checks shown here, unless a later helper reports the same field
      && (GroupAddressField !in helpers ==>
            (params.groupAddress == "" ==>
                  GroupAddressField in e.fields && e.fields[GroupAddressField] == "Validator Group Required")
            && (params.groupAddress != "" && !h.isValidAddress(params.groupAddress) ==>
                  GroupAddressField in e.fields && e.fields[GroupAddressField] == "Invalid Group Address")
            && (params.groupAddress != "" && h.isValidAddress(params.groupAddress)
                && GroupAddressRejected(params, h, groups) ==>
                  GroupAddressField in e.fields && e.fields[GroupAddressField] == "Invalid Validator Group"))
      && (params.action == Unrecognized && ActionField !in helpers ==>
            ActionField in e.fields && e.fields[ActionField] == "Invalid Action Type")
      && (params.amountInWei.None? && AmountField !in helpers ==>
            AmountField in e.fields && e.fields[AmountField] == "Amount Missing")
      && (params.action == Vote && voterLocked <= minLockedGoldToVote && LockedCeloField !in helpers ==>
            LockedCeloField in e.fields && e.fields[LockedCeloField] == "Insufficient locked CELO")
  {
    var checked := ChecksErrors(params, h, groups, voterLocked, minLockedGoldToVote);
    FeeChecksKeep(checked, validateFee, feeEstimateErrors, amountWithFeesErrors);
    var extra := if validateFee then KeysOf(feeEstimateErrors) + KeysOf(amountWithFeesErrors) else {};
    assert HelperFields(params, h, validateFee, feeEstimateErrors, amountWithFeesErrors)
        == KeysOf(AmountResult(params, h)) + extra;
    ChecksHelpTexts(params, h, groups, voterLocked, minLockedGoldToVote);
    var e := ValidationErrors(params, h, groups, voterLocked, minLockedGoldToVote, validateFee,
                              feeEstimateErrors, amountWithFeesErrors);
    assert e == FeeErrors(checked, validateFee, feeEstimateErrors, amountWithFeesErrors);
    forall k: Field | k in checked.fields && k !in extra
      ensures k in e.fields && e.fields[k] == checked.fields[k]
    {
    }
  }

  /** Whether `validate` reports the state valid. */
  lemma ReportValidity(params: StakeTokenParams, h: Helpers, groups: seq<ValidatorGroup>,
                       voterLocked: int, minLockedGoldToVote: int, validateFee: bool,
                       feeEstimateErrors: Option<ErrorState>, amountWithFeesErrors: Option<ErrorState>)
    ensures var e := ValidationErrors(params, h, groups, voterLocked, minLockedGoldToVote, validateFee,
                                      feeEstimateErrors, amountWithFeesErrors);
      // validity: nothing flagged and no helper objecting means valid; an own error is never
      // masked by helpers that themselves report invalid or null
      && (e.fields.Keys == {} && HelpersLeaveValid(params, h, validateFee, feeEstimateErrors, amountWithFeesErrors)
          ==> e.isValid)
      && ((GroupAddressRejected(params, h, groups) || params.action == Unrecognized
           || params.amountInWei.None? || (params.action == Vote && voterLocked <= minLockedGoldToVote))
          && HelpersKeepInvalid(params, h, validateFee, feeEstimateErrors, amountWithFeesErrors)
          ==> !e.isValid)
  {
    var checked := ChecksErrors(params, h, groups, voterLocked, minLockedGoldToVote);
    FeeChecksKeep(checked, validateFee, feeEstimateErrors, amountWithFeesErrors);
    ChecksFlagFields(params, h, groups, voterLocked, minLockedGoldToVote);
    ChecksValidity(params, h, groups, voterLocked, minLockedGoldToVote);
  }

  /** The fields the four checks flag. */
  lemma ChecksFlagFields(params: StakeTokenParams, h: Helpers, groups: seq<ValidatorGroup>,
                         voterLocked: int, minLockedGoldToVote: int)
    ensures var e := ChecksErrors(params, h, groups, voterLocked, minLockedGoldToVote);
      && (GroupAddressField in e.fields <==>
            GroupAddressRejected(params, h, groups) || GroupAddressField in KeysOf(AmountResult(params, h)))
      && (ActionField in e.fields <==>
            params.action == Unrecognized || ActionField in KeysOf(AmountResult(params, h)))
      && (params.amountInWei.None? ==> AmountField in e.fields)
      && (params.amountInWei.Some? ==> (AmountField in e.fields <==> AmountField in KeysOf(AmountResult(params, h))))
      && (LockedCeloField in e.fields <==>
            (params.action == Vote && voterLocked <= minLockedGoldToVote)
            || LockedCeloField in KeysOf(AmountResult(params, h)))
      && e.fields.Keys <= {GroupAddressField, ActionField, AmountField, LockedCeloField} + KeysOf(AmountResult(params, h))
  {
    ChecksKeys(params, h, groups, voterLocked, minLockedGoldToVote);
    FlaggedKeys(ChecksErrors(params, h, groups, voterLocked, minLockedGoldToVote).fields.Keys,
                GroupAddressRejected(params, h, groups), params.action == Unrecognized, params.amountInWei.None?,
                params.action == Vote && voterLocked <= minLockedGoldToVote, KeysOf(AmountResult(params, h)));
  }

  /** Membership in a key set built from the four checks' conditions. */
  lemma FlaggedKeys(keys: set<Field>, rejected: bool, unrecognized: bool, missing: bool, locked: bool,
                    helpers: set<Field>)
    requires missing ==> helpers == {}
    requires keys == (if rejected then {GroupAddressField} else {})
                   + (if unrecognized then {ActionField} else {})
                   + (if missing then {AmountField} else helpers)
                   + (if locked then {LockedCeloField} else {})
    ensures GroupAddressField in keys <==> rejected || GroupAddressField in helpers
    ensures ActionField in keys <==> unrecognized || ActionField in helpers
    ensures missing ==> AmountField in keys
    ensures !missing ==> (AmountField in keys <==> AmountField in helpers)
    ensures LockedCeloField in keys <==> locked || LockedCeloField in helpers
    ensures keys <= {GroupAddressField, ActionField, AmountField, LockedCeloField} + helpers
  {
  }

  /** The keys after the four checks: one per failing check, and the amount helper's own. */
  lemma ChecksKeys(params: StakeTokenParams, h: Helpers, groups: seq<ValidatorGroup>,
                   voterLocked: int, minLockedGoldToVote: int)
    ensures ChecksErrors(params, h, groups, voterLocked, minLockedGoldToVote).fields.Keys
         == (if GroupAddressRejected(params, h, groups) then {GroupAddressField} else {})
          + (if params.action == Unrecognized then {ActionField} else {})
          + (if params.amountInWei.None? then {AmountField} else KeysOf(AmountResult(params, h)))
          + (if params.action == Vote && voterLocked <= minLockedGoldToVote then {LockedCeloField} else {})
  {
    var helpers := KeysOf(AmountResult(params, h));
    var e0 := ErrorState(true, map[]);
    var e1 := Spread(e0, GroupAddressError(params, h, groups));
    SpreadFields(e0, GroupAddressError(params, h, groups));
    assert e1.fields.Keys == if GroupAddressRejected(params, h, groups) then {GroupAddressField} else {};
    var e2 := Spread(e1, ActionError(params));
    SpreadFields(e1, ActionError(params));
    assert e2.fields.Keys == e1.fields.Keys + if params.action == Unrecognized then {ActionField} else {};
    var e3 := Spread(e2, AmountError(params, h));
    SpreadFields(e2, AmountError(params, h));
    assert e3.fields.Keys == e2.fields.Keys + if params.amountInWei.None? then {AmountField} else helpers;
    var e4 := Spread(e3, LockedError(params, voterLocked, minLockedGoldToVote));
    SpreadFields(e3, LockedError(params, voterLocked, minLockedGoldToVote));
    assert e4.fields.Keys == e3.fields.Keys
        + if params.action == Vote && voterLocked <= minLockedGoldToVote then {LockedCeloField} else {};
  }

  /** The help texts the four checks write, where no later step overrides them. */
  lemma ChecksHelpTexts(params: StakeTokenParams, h: Helpers, groups: seq<ValidatorGroup>,
                        voterLocked: int, minLockedGoldToVote: int)
    ensures var e := ChecksErrors(params, h, groups, voterLocked, minLockedGoldToVote);
      && (GroupAddressField !in KeysOf(AmountResult(params, h)) ==>
            (GroupAddressRejected(params, h, groups) ==> GroupAddressField in e.fields)
            && (params.groupAddress == "" ==> e.fields[GroupAddressField] == "Validator Group Required")
            && (params.groupAddress != "" && !h.isValidAddress(params.groupAddress) ==>
                  e.fields[GroupAddressField] == "Invalid Group Address")
            && (params.groupAddress != "" && h.isValidAddress(params.groupAddress)
                && GroupAddressRejected(params, h, groups) ==>
                  e.fields[GroupAddressField] == "Invalid Validator Group"))
      && (params.action == Unrecognized && ActionField !in KeysOf(AmountResult(params, h)) ==>
            ActionField in e.fields && e.fields[ActionField] == "Invalid Action Type")
      && (params.amountInWei.None? ==> AmountField in e.fields && e.fields[AmountField] == "Amount Missing")
      && (params.action == Vote && voterLocked <= minLockedGoldToVote ==>
            LockedCeloField in e.fields && e.fields[LockedCeloField] == "Insufficient locked CELO")
  {
    if GroupAddressField !in KeysOf(AmountResult(params, h)) && GroupAddressRejected(params, h, groups) {
      ChecksGroupText(params, h, groups, voterLocked, minLockedGoldToVote);
    }
    if params.action == Unrecognized && ActionField !in KeysOf(AmountResult(params, h)) {
      ChecksActionText(params, h, groups, voterLocked, minLockedGoldToVote);
    }
    if params.amountInWei.None? {
      ChecksAmountText(params, h, groups, voterLocked, minLockedGoldToVote);
    }
  }

  /** A rejected group address keeps its check's help text unless validateAmount overrides it. */
  lemma ChecksGroupText(params: StakeTokenParams, h: Helpers, groups: seq<ValidatorGroup>,
                        voterLocked: int, minLockedGoldToVote: int)
    requires GroupAddressField !in KeysOf(AmountResult(params, h)) && GroupAddressRejected(params, h, groups)
    ensures var e := ChecksErrors(params, h, groups, voterLocked, minLockedGoldToVote);
            GroupAddressField in e.fields
            && e.fields[GroupAddressField] == GroupAddressError(params, h, groups).value.fields[GroupAddressField]
  {
    var e0 := ErrorState(true, map[]);
    var e1 := Spread(e0, GroupAddressError(params, h, groups));
    var e2 := Spread(e1, ActionError(params));
    var e3 := Spread(e2, AmountError(params, h));
    SpreadFields(e0, GroupAddressError(params, h, groups));
    SpreadFields(e1, ActionError(params));
    SpreadFields(e2, AmountError(params, h));
    SpreadFields(e3, LockedError(params, voterLocked, minLockedGoldToVote));
    var text := GroupAddressError(params, h, groups).value.fields[GroupAddressField];
    assert e1.fields[GroupAddressField] == text;
    assert e2.fields[GroupAddressField] == text;
    assert e3.fields[GroupAddressField] == text;
  }

  /** An unrecognised action keeps 'Invalid Action Type' unless validateAmount reports that field. */
  lemma ChecksActionText(params: StakeTokenParams, h: Helpers, groups: seq<ValidatorGroup>,
                         voterLocked: int, minLockedGoldToVote: int)
    requires params.action == Unrecognized && ActionField !in KeysOf(AmountResult(params, h))
    ensures var e := ChecksErrors(params, h, groups, voterLocked, minLockedGoldToVote);
            ActionField in e.fields && e.fields[ActionField] == "Invalid Action Type"
  {
    var e1 := Spread(ErrorState(true, map[]), GroupAddressError(params, h, groups));
    var e2 := Spread(e1, ActionError(params));
    var e3 := Spread(e2, AmountError(params, h));
    SpreadFields(e1, ActionError(params));
    SpreadFields(e2, AmountError(params, h));
    SpreadFields(e3, LockedError(params, voterLocked, minLockedGoldToVote));
    assert e2.fields[ActionField] == "Invalid Action Type";
    assert e3.fields[ActionField] == "Invalid Action Type";
  }

  /** A missing amount keeps 'Amount Missing'. */
  lemma ChecksAmountText(params: StakeTokenParams, h: Helpers, groups: seq<ValidatorGroup>,
                         voterLocked: int, minLockedGoldToVote: int)
    requires params.amountInWei.None?
    ensures var e := ChecksErrors(params, h, groups, voterLocked, minLockedGoldToVote);
            AmountField in e.fields && e.fields[AmountField] == "Amount Missing"
  {
    var e1 := Spread(ErrorState(true, map[]), GroupAddressError(params, h, groups));
    var e3 := Spread(Spread(e1, ActionError(params)), AmountError(params, h));
    SpreadFields(e3, LockedError(params, voterLocked, minLockedGoldToVote));
    assert e3.fields[AmountField] == "Amount Missing";
  }

  /** Validity after the four checks. */
  lemma ChecksValidity(params: StakeTokenParams, h: Helpers, groups: seq<ValidatorGroup>,
                       voterLocked: int, minLockedGoldToVote: int)
    ensures var e := ChecksErrors(params, h, groups, voterLocked, minLockedGoldToVote);
      && (e.fields.Keys == {} && LeavesValid(AmountResult(params, h)) ==> e.isValid)
      && ((GroupAddressRejected(params, h, groups) || params.action == Unrecognized
           || params.amountInWei.None? || (params.action == Vote && voterLocked <= minLockedGoldToVote))
          && KeepsInvalid(AmountResult(params, h))
          ==> !e.isValid)
  {
    var e := ChecksErrors(params, h, groups, voterLocked, minLockedGoldToVote);
    if e.fields.Keys == {} {
      assert GroupAddressField !in e.fields && ActionField !in e.fields;
      assert AmountField !in e.fields && LockedCeloField !in e.fields;
    }
  }

  /** The fee checks add their fields on top and keep the rest. */
  lemma FeeChecksKeep(e: ErrorState, validateFee: bool,
                      feeEstimateErrors: Option<ErrorState>, amountWithFeesErrors: Option<ErrorState>)
    ensures var r := FeeErrors(e, validateFee, feeEstimateErrors, amountWithFeesErrors);
      var extra := if validateFee then KeysOf(feeEstimateErrors) + KeysOf(amountWithFeesErrors) else {};
      && r.fields.Keys == e.fields.Keys + extra
      && (forall k :: k in e.fields && k !in extra ==> r.fields[k] == e.fields[k])
      && (!validateFee ==> r == e)
      && (validateFee && LeavesValid(feeEstimateErrors) && LeavesValid(amountWithFeesErrors) && e.isValid ==> r.isValid)
      && (validateFee && KeepsInvalid(feeEstimateErrors) && KeepsInvalid(amountWithFeesErrors) && !e.isValid ==> !r.isValid)
  {
  }

  // ---------------------------------------------------------------------------
  // getStakeActionTxPlan

  function Min(a: int, b: int): int
  {
    if a <= b then a else b
  }

  predicate IsRevokeType(t: TransactionType)
  {
    t == ValidatorRevokePendingCelo || t == ValidatorRevokeActiveCelo
  }

  predicate HasType(plan: TxPlan, t: TransactionType)
  {
    exists i :: 0 <= i < |plan| && plan[i].txType == t
  }

  /** The total amount a plan moves. */
  function PlanTotal(plan: TxPlan): int
  {
    if plan == [] then 0 else plan[0].amountInWei + PlanTotal(plan[1..])
  }

  /** At most two revoke items, each for a positive amount, for group `g` and voter
      `voter`; every pending-revoke item comes before every active-revoke item, so in
      particular there is at most one of each. */
  ghost predicate RevokeItemsWellFormed(plan: TxPlan, g: Address, voter: Address)
  {
    && |plan| <= 2
    && (forall i :: 0 <= i < |plan| ==>
          IsRevokeType(plan[i].txType) && plan[i].amountInWei > 0
          && plan[i].groupAddress == g && plan[i].voterAddress == voter)
    && (|plan| == 2 ==>
          plan[0].txType == ValidatorRevokePendingCelo && plan[1].txType == ValidatorRevokeActiveCelo)
  }

  /** The amount drained from pending votes: all of them when they nearly equal the
      request, otherwise the smaller of the two. */
  ghost function PendingToRevoke(requested: int, votes: GroupVote, nearlyEqual: (int, int) -> bool): int
  {
    if nearlyEqual(votes.pending, requested) then votes.pending else Min(votes.pending, requested)
  }

  /** What is left to revoke after the pending item, if one is emitted. */
  ghost function RemainingAfterPending(requested: int, votes: GroupVote, nearlyEqual: (int, int) -> bool): int
  {
    var p := PendingToRevoke(requested, votes, nearlyEqual);
    if p > 0 then requested - p else requested
  }

  /** The revoke plan for `requested` against the buckets `votes`: pending first, then
      active, with the minimum-vote cut-off, the nearly-equal snap and the failure when
      the request exceeds what there is. */
  ghost predicate RevokePlanned(requested: int, votes: GroupVote, nearlyEqual: (int, int) -> bool,
                                minVoteAmount: int, g: Address, voter: Address,
                                r: Result<TxPlan, StakeError>)
  {
    var pendingToRevoke := PendingToRevoke(requested, votes, nearlyEqual);
    var remaining := RemainingAfterPending(requested, votes, nearlyEqual);
    && (r.Failure? ==> r.error == RevokeExceedsVotes)
    && (r.Success? ==> RevokeItemsWellFormed(r.value, g, voter))
    && (r.Success? ==> (HasType(r.value, ValidatorRevokePendingCelo) <==> pendingToRevoke > 0))
    && (r.Success? && pendingToRevoke > 0 ==> r.value[0].amountInWei == pendingToRevoke)
    && (remaining < minVoteAmount ==> r.Success? && !HasType(r.value, ValidatorRevokeActiveCelo))
    && (remaining >= minVoteAmount ==>
          (r.Success? <==> nearlyEqual(votes.active, remaining) || remaining < votes.active))
    && (remaining >= minVoteAmount && r.Success? ==>
          var activeToRevoke := if nearlyEqual(votes.active, remaining) then votes.active else remaining;
          (HasType(r.value, ValidatorRevokeActiveCelo) <==> activeToRevoke > 0)
          && (activeToRevoke > 0 ==> r.value[|r.value| - 1].amountInWei == activeToRevoke))
  }

  /** Turns a staking intent into the ordered list of transactions that carry it out.
      The caller has validated the request, so the amount is present. */
  method GetStakeActionTxPlan(params: StakeTokenParams, voterAddress: Address, h: Helpers,
                              minVoteAmount: int, currentVotes: GroupVotes)
    returns (r: Result<TxPlan, StakeError>)
    requires params.amountInWei.Some?
    ensures params.action == Vote ==>
              var g := h.normalizeAddress(params.groupAddress);
              r == Success([TxPlanItem(ValidatorVoteCelo,
                                       h.getAdjustedAmount(params.amountInWei.value, h.getStakingMaxAmount(Vote, g)),
                                       g, voterAddress)])
    ensures params.action == Activate ==>
              r == Success([TxPlanItem(ValidatorActivateCelo, params.amountInWei.value,
                                       h.normalizeAddress(params.groupAddress), voterAddress)])
    ensures params.action == Unrecognized ==> r == Failure(InvalidAction)
    ensures params.action == Revoke && h.normalizeAddress(params.groupAddress) !in currentVotes ==>
              r == Failure(MissingGroupVotes)
    ensures params.action == Revoke && h.normalizeAddress(params.groupAddress) in currentVotes ==>
              RevokePlanned(params.amountInWei.value, currentVotes[h.normalizeAddress(params.groupAddress)],
                            h.areAmountsNearlyEqual, minVoteAmount,
                            h.normalizeAddress(params.groupAddress), voterAddress, r)
  {
    var action, amountInWei := params.action, params.amountInWei.value;
    var groupAddress := h.normalizeAddress(params.groupAddress);

    if action == Vote {
      var maxAmount := h.getStakingMaxAmount(action, groupAddress);
      var adjustedAmount := h.getAdjustedAmount(amountInWei, maxAmount);
      return Success([TxPlanItem(ValidatorVoteCelo, adjustedAmount, groupAddress, voterAddress)]);
    } else if action == Activate {
      return Success([TxPlanItem(ValidatorActivateCelo, amountInWei, groupAddress, voterAddress)]);
    } else if action == Revoke {
      if groupAddress !in currentVotes {
        return Failure(MissingGroupVotes);
      }
      var txs: TxPlan := [];
      var groupVotes := currentVotes[groupAddress];
      var amountRemaining := amountInWei;
      var amountPending, amountActive := groupVotes.pending, groupVotes.active;

      // Pending votes are revoked first.
      var pendingToRevoke;
      if h.areAmountsNearlyEqual(amountPending, amountRemaining) {
        pendingToRevoke := amountPending;
      } else {
        pendingToRevoke := Min(amountPending, amountRemaining);
      }
      if pendingToRevoke > 0 {
        txs := txs + [TxPlanItem(ValidatorRevokePendingCelo, pendingToRevoke, groupAddress, voterAddress)];
        amountRemaining := amountRemaining - pendingToRevoke;
      }

      assert pendingToRevoke > 0 ==> txs[0].txType == ValidatorRevokePendingCelo;

      // A remainder below the minimum vote is left in place.
      if amountRemaining < minVoteAmount {
        return Success(txs);
      }

      // The rest comes out of the active votes.
      var activeToRevoke;
      if h.areAmountsNearlyEqual(amountActive, amountRemaining) {
        activeToRevoke := amountActive;
      } else if amountRemaining < amountActive {
        activeToRevoke := amountRemaining;
      } else {
        return Failure(RevokeExceedsVotes);
      }
      if activeToRevoke > 0 {
        txs := txs + [TxPlanItem(ValidatorRevokeActiveCelo, activeToRevoke, groupAddress, voterAddress)];
        assert txs[|txs| - 1].txType == ValidatorRevokeActiveCelo;
      }
      assert pendingToRevoke > 0 ==> txs[0].txType == ValidatorRevokePendingCelo;
      return Success(txs);
    } else {
      return Failure(InvalidAction);
    }
  }

  /** When the remainder after the pending item is not snapped to the active bucket,
      the plan revokes exactly the requested amount, with nothing lost to rounding. */
  lemma RevokeTotalIsRequested(requested: int, votes: GroupVote, nearlyEqual: (int, int) -> bool,
                               minVoteAmount: int, g: Address, voter: Address,
                               r: Result<TxPlan, StakeError>)
    requires RevokePlanned(requested, votes, nearlyEqual, minVoteAmount, g, voter, r)
    requires r.Success?
    requires RemainingAfterPending(requested, votes, nearlyEqual) >= minVoteAmount
    requires RemainingAfterPending(requested, votes, nearlyEqual) >= 0
    requires !nearlyEqual(votes.active, RemainingAfterPending(requested, votes, nearlyEqual))
    ensures PlanTotal(r.value) == requested
  {
    RevokeTotal(requested, votes, nearlyEqual, minVoteAmount, g, voter, r);
  }

  /** A remainder below the minimum vote amount is dropped: the plan revokes only the
      pending part, and that is not an error. */
  lemma RevokeDropsSmallRemainder(requested: int, votes: GroupVote, nearlyEqual: (int, int) -> bool,
                                  minVoteAmount: int, g: Address, voter: Address,
                                  r: Result<TxPlan, StakeError>)
    requires RevokePlanned(requested, votes, nearlyEqual, minVoteAmount, g, voter, r)
    requires RemainingAfterPending(requested, votes, nearlyEqual) < minVoteAmount
    ensures r.Success?
    ensures PlanTotal(r.value) == requested - RemainingAfterPending(requested, votes, nearlyEqual)
  {
    RevokeTotal(requested, votes, nearlyEqual, minVoteAmount, g, voter, r);
  }

  /** A well-formed revoke plan is the pending item (if any) followed by the active item (if any). */
  lemma RevokeTotal(requested: int, votes: GroupVote, nearlyEqual: (int, int) -> bool,
                    minVoteAmount: int, g: Address, voter: Address,
                    r: Result<TxPlan, StakeError>)
    requires RevokePlanned(requested, votes, nearlyEqual, minVoteAmount, g, voter, r)
    requires r.Success?
    ensures PlanTotal(r.value) ==
              (if HasType(r.value, ValidatorRevokePendingCelo)
               then PendingToRevoke(requested, votes, nearlyEqual) else 0)
              + (if HasType(r.value, ValidatorRevokeActiveCelo)
                 then r.value[|r.value| - 1].amountInWei else 0)
  {
    var plan := r.value;
    if |plan| == 2 {
      assert plan[1..][1..] == [];
      assert PlanTotal(plan[1..]) == plan[1].amountInWei;
      assert plan[0].txType == ValidatorRevokePendingCelo && plan[1].txType == ValidatorRevokeActiveCelo;
      assert HasType(plan, ValidatorRevokePendingCelo) && HasType(plan, ValidatorRevokeActiveCelo);
    } else if |plan| == 1 {
      assert plan[1..] == [];
      assert PlanTotal(plan) == plan[0].amountInWei;
      if plan[0].txType == ValidatorRevokePendingCelo {
        assert !HasType(plan, ValidatorRevokeActiveCelo);
      } else {
        assert !HasType(plan, ValidatorRevokePendingCelo);
      }
    }
  }

  /** The branch where both buckets are exhausted is unreachable: when the nearly-equal
      test holds at least for equal amounts and the request does not exceed pending plus
      active, the planner does not fail. */
  lemma RevokeWithinVotesSucceeds(requested: int, votes: GroupVote, nearlyEqual: (int, int) -> bool,
                                  minVoteAmount: int, g: Address, voter: Address,
                                  r: Result<TxPlan, StakeError>)
    requires RevokePlanned(requested, votes, nearlyEqual, minVoteAmount, g, voter, r)
    requires forall x :: nearlyEqual(x, x)
    requires 0 <= votes.pending && 0 <= votes.active
    requires requested <= votes.pending + votes.active
    ensures r.Success?
  {
    var remaining := RemainingAfterPending(requested, votes, nearlyEqual);
    if remaining >= minVoteAmount && remaining >= votes.active {
      assert remaining == votes.active;
      assert nearlyEqual(votes.active, remaining);
    }
  }

  /** Exact equality, as a nearly-equal test with no tolerance. */
  function ExactlyEqual(x: int, y: int): bool
  {
    x == y
  }

  /** Revoking 30 from pending 10 and active 25 with a minimum vote of 5 (exact equality
      as the nearly-equal test) revokes 10 pending and then 20 active. */
  lemma RevokeFromBothBuckets(r: Result<TxPlan, StakeError>, g: Address, voter: Address)
    requires RevokePlanned(30, GroupVote(10, 25), ExactlyEqual, 5, g, voter, r)
    ensures r == Success([TxPlanItem(ValidatorRevokePendingCelo, 10, g, voter),
                          TxPlanItem(ValidatorRevokeActiveCelo, 20, g, voter)])
  {
    assert PendingToRevoke(30, GroupVote(10, 25), ExactlyEqual) == 10;
    assert RemainingAfterPending(30, GroupVote(10, 25), ExactlyEqual) == 20;
    assert r.Success?;
    var plan := r.value;
    assert HasType(plan, ValidatorRevokePendingCelo) && HasType(plan, ValidatorRevokeActiveCelo);
    var p :| 0 <= p < |plan| && plan[p].txType == ValidatorRevokePendingCelo;
    var a :| 0 <= a < |plan| && plan[a].txType == ValidatorRevokeActiveCelo;
    assert p == 0 && a == 1 && |plan| == 2;
    assert !ExactlyEqual(25, 20);
    assert plan[0] == TxPlanItem(ValidatorRevokePendingCelo, 10, g, voter);
    assert plan[1] == TxPlanItem(ValidatorRevokeActiveCelo, 20, g, voter);
    assert plan == [plan[0], plan[1]];
  }

  /** Revoking 10 from pending 8 with a minimum vote of 5: the remainder 2 is dropped,
      leaving the single pending item. */
  lemma RevokePendingOnly(r: Result<TxPlan, StakeError>, active: int, g: Address, voter: Address)
    requires RevokePlanned(10, GroupVote(8, active), ExactlyEqual, 5, g, voter, r)
    ensures r == Success([TxPlanItem(ValidatorRevokePendingCelo, 8, g, voter)])
  {
    assert PendingToRevoke(10, GroupVote(8, active), ExactlyEqual) == 8;
    assert RemainingAfterPending(10, GroupVote(8, active), ExactlyEqual) == 2;
    var plan := r.value;
    assert HasType(plan, ValidatorRevokePendingCelo);
    var p :| 0 <= p < |plan| && plan[p].txType == ValidatorRevokePendingCelo;
    assert p == 0;
    assert !HasType(plan, ValidatorRevokeActiveCelo);
    assert plan[|plan| - 1].txType == ValidatorRevokeActiveCelo ==> HasType(plan, ValidatorRevokeActiveCelo);
    assert |plan| == 1;
    assert plan[0] == TxPlanItem(ValidatorRevokePendingCelo, 8, g, voter);
    assert plan == [plan[0]];
  }

  // ---------------------------------------------------------------------------
  // getEligibleGroupVotes and findLesserAndGreaterAfterVote

  type GroupVoteTotal = (Address, int)

  /** Zips the eligible group addresses with their vote totals, which the network
      returns as two parallel lists. Extra vote totals are ignored; a missing one throws. */
  method GetEligibleGroupVotes(eligibleGroups: seq<Address>, groupVotes: seq<int>)
    returns (r: Result<seq<GroupVoteTotal>, StakeError>)
    ensures r.Success? <==> |eligibleGroups| <= |groupVotes|
    ensures r.Failure? ==> r.error == VoteListMismatch
    ensures r.Success? ==>
              |r.value| == |eligibleGroups|
              && forall i :: 0 <= i < |eligibleGroups| ==> r.value[i] == (eligibleGroups[i], groupVotes[i])
  {
    var result: seq<GroupVoteTotal> := [];
    for i := 0 to |eligibleGroups|
      invariant i <= |groupVotes|
      invariant |result| == i
      invariant forall k :: 0 <= k < i ==> result[k] == (eligibleGroups[k], groupVotes[k])
    {
      if i >= |groupVotes| {
        return Failure(VoteListMismatch);
      }
      result := result + [(eligibleGroups[i], groupVotes[i])];
    }
    return Success(result);
  }

  /** `i` is the first entry whose address is equal to `target`. */
  ghost predicate FirstMatchAt(list: seq<GroupVoteTotal>, target: Address,
                               eq: (Address, Address) -> bool, i: int)
  {
    0 <= i < |list| && eq(list[i].0, target)
    && forall j :: 0 <= j < i ==> !eq(list[j].0, target)
  }

  /** `currentVotes.find(...)`: the votes of the first entry for `target`, if any. */
  function FindGroupVotes(list: seq<GroupVoteTotal>, target: Address, eq: (Address, Address) -> bool)
    : (r: Option<int>)
    ensures r.Some? <==> exists i :: 0 <= i < |list| && eq(list[i].0, target)
    ensures r.Some? ==> exists i :: FirstMatchAt(list, target, eq, i) && r.value == list[i].1
  {
    if list == [] then None
    else if eq(list[0].0, target) then
      assert FirstMatchAt(list, target, eq, 0);
      Some(list[0].1)
    else
      var r := FindGroupVotes(list[1..], target, eq);
      assert forall i :: 0 < i < |list| ==> list[i] == list[1..][i - 1];
      assert r.Some? ==> exists i :: FirstMatchAt(list, target, eq, i) && r.value == list[i].1 by {
        if r.Some? {
          var i :| FirstMatchAt(list[1..], target, eq, i) && r.value == list[1..][i].1;
          assert FirstMatchAt(list, target, eq, i + 1);
        }
      }
      r
  }

  /** The target's total after adding `voteWeight`: its first entry's votes plus the
      weight; a group that is not in the list counts from zero. */
  function ProjectedTotal(list: seq<GroupVoteTotal>, target: Address, voteWeight: int,
                          eq: (Address, Address) -> bool): (total: int)
    ensures forall i :: FirstMatchAt(list, target, eq, i) ==> total == list[i].1 + voteWeight
    ensures (forall i :: 0 <= i < |list| ==> !eq(list[i].0, target)) ==> total == voteWeight
  {
    match FindGroupVotes(list, target, eq)
    case Some(votes) => votes + voteWeight
    case None => voteWeight
  }

  /** No entry before `k`, other than the target, has at most `total` votes. */
  ghost predicate NoLesserBefore(list: seq<GroupVoteTotal>, target: Address, total: int,
                                 eq: (Address, Address) -> bool, k: int)
  {
    forall j :: 0 <= j < k && j < |list| && !eq(list[j].0, target) ==> list[j].1 > total
  }

  /** Entry `k` is the first one, other than the target, with at most `total` votes. */
  ghost predicate LesserAt(list: seq<GroupVoteTotal>, target: Address, total: int,
                           eq: (Address, Address) -> bool, k: int)
  {
    0 <= k < |list| && !eq(list[k].0, target) && list[k].1 <= total
    && NoLesserBefore(list, target, total, eq, k)
  }

  /** The address of the last entry before `k` other than the target, or `nullAddress`. */
  ghost function LastOtherBefore(list: seq<GroupVoteTotal>, target: Address,
                                 eq: (Address, Address) -> bool, k: nat, nullAddress: Address): Address
    requires k <= |list|
  {
    if k == 0 then nullAddress
    else if !eq(list[k - 1].0, target) then list[k - 1].0
    else LastOtherBefore(list, target, eq, k - 1, nullAddress)
  }

  /** The outcome of the neighbour scan: `lesser` is the first entry other than the
      target with at most `total` votes, `greater` the last entry other than the target
      before it; each is `nullAddress` when there is no such entry. */
  ghost predicate IsNeighbourScan(list: seq<GroupVoteTotal>, target: Address, total: int,
                                  eq: (Address, Address) -> bool, nullAddress: Address,
                                  lesser: Address, greater: Address)
  {
    || (exists k :: LesserAt(list, target, total, eq, k)
                    && lesser == list[k].0 && greater == LastOtherBefore(list, target, eq, k, nullAddress))
    || (NoLesserBefore(list, target, total, eq, |list|)
        && lesser == nullAddress && greater == LastOtherBefore(list, target, eq, |list|, nullAddress))
  }

  /** The insertion hint for changing `targetGroup`'s votes by `voteWeight` (negative for
      a revoke). `currentVotes` is the eligible-group list the network returns, sorted by
      votes, descending; the contract holds whatever the order. */
  method FindLesserAndGreaterAfterVote(currentVotes: seq<GroupVoteTotal>, targetGroup: Address,
                                       voteWeight: int, eq: (Address, Address) -> bool,
                                       nullAddress: Address)
    returns (lesser: Address, greater: Address)
    ensures IsNeighbourScan(currentVotes, targetGroup, ProjectedTotal(currentVotes, targetGroup, voteWeight, eq),
                            eq, nullAddress, lesser, greater)
  {
    var selectedGroup := FindGroupVotes(currentVotes, targetGroup, eq);
    var voteTotal := if selectedGroup.Some? then selectedGroup.value + voteWeight else voteWeight;
    greater := nullAddress;
    lesser := nullAddress;

    // The first other group at or below the projected total stops the scan; the contract
    // does not depend on the list's order (SortedLesserSplits says what order adds).
    for i := 0 to |currentVotes|
      invariant NoLesserBefore(currentVotes, targetGroup, voteTotal, eq, i)
      invariant lesser == nullAddress
      invariant greater == LastOtherBefore(currentVotes, targetGroup, eq, i, nullAddress)
    {
      var (address, votes) := currentVotes[i];
      if !eq(address, targetGroup) {
        if votes <= voteTotal {
          lesser := address;
          assert LesserAt(currentVotes, targetGroup, voteTotal, eq, i);
          return;
        }
        greater := address;
      }
    }
  }

  /** The scan is a function of its inputs: run again on an unchanged list with the same
      target and weight, it gives the same pair. */
  lemma NeighbourScanDeterministic(list: seq<GroupVoteTotal>, target: Address, total: int,
                                   eq: (Address, Address) -> bool, nullAddress: Address,
                                   lesser1: Address, greater1: Address, lesser2: Address, greater2: Address)
    requires IsNeighbourScan(list, target, total, eq, nullAddress, lesser1, greater1)
    requires IsNeighbourScan(list, target, total, eq, nullAddress, lesser2, greater2)
    ensures lesser1 == lesser2 && greater1 == greater2
  {
    if k1 :| LesserAt(list, target, total, eq, k1) {
      LesserUnique(list, target, total, eq, k1);
    }
  }

  /** Only one entry can be the first lesser one, and when there is one, the scan
      cannot reach the end of the list without finding it. */
  lemma LesserUnique(list: seq<GroupVoteTotal>, target: Address, total: int,
                     eq: (Address, Address) -> bool, k: int)
    requires LesserAt(list, target, total, eq, k)
    ensures forall k' :: LesserAt(list, target, total, eq, k') ==> k' == k
    ensures !NoLesserBefore(list, target, total, eq, |list|)
  {
    forall k' | LesserAt(list, target, total, eq, k') ensures k' == k {
    }
  }

  /** A target whose projected total is not below any other group's is the new
      maximum: `greater` is the null address. */
  lemma NewMaximumHasNoGreater(list: seq<GroupVoteTotal>, target: Address, total: int,
                               eq: (Address, Address) -> bool, nullAddress: Address,
                               lesser: Address, greater: Address)
    requires IsNeighbourScan(list, target, total, eq, nullAddress, lesser, greater)
    requires forall i :: 0 <= i < |list| && !eq(list[i].0, target) ==> list[i].1 <= total
    ensures greater == nullAddress
  {
    if k :| LesserAt(list, target, total, eq, k) {
      LesserUnique(list, target, total, eq, k);
      NoOtherBefore(list, target, eq, k, nullAddress);
    } else {
      NoOtherBefore(list, target, eq, |list|, nullAddress);
    }
  }

  /** When every entry before `k` is the target itself, there is no other entry before `k`. */
  lemma {:induction false} NoOtherBefore(list: seq<GroupVoteTotal>, target: Address,
                                         eq: (Address, Address) -> bool, k: nat, nullAddress: Address)
    requires k <= |list|
    requires forall j :: 0 <= j < k ==> eq(list[j].0, target)
    ensures LastOtherBefore(list, target, eq, k, nullAddress) == nullAddress
  {
    if k > 0 {
      NoOtherBefore(list, target, eq, k - 1, nullAddress);
    }
  }

  /** A target whose projected total is below every other group's is the new minimum:
      `lesser` is the null address and `greater` the last group other than the target. */
  lemma NewMinimumHasNoLesser(list: seq<GroupVoteTotal>, target: Address, total: int,
                              eq: (Address, Address) -> bool, nullAddress: Address,
                              lesser: Address, greater: Address)
    requires IsNeighbourScan(list, target, total, eq, nullAddress, lesser, greater)
    requires forall i :: 0 <= i < |list| && !eq(list[i].0, target) ==> list[i].1 > total
    ensures lesser == nullAddress
    ensures greater == LastOtherBefore(list, target, eq, |list|, nullAddress)
  {
  }

  /** On a list sorted by votes, descending, the entry found as `lesser` splits the other
      groups: those before it have more votes than the projected total, those after it
      have at most that many. */
  lemma SortedLesserSplits(list: seq<GroupVoteTotal>, target: Address, total: int,
                           eq: (Address, Address) -> bool, k: int)
    requires forall i, j :: 0 <= i < j < |list| ==> list[i].1 >= list[j].1
    requires LesserAt(list, target, total, eq, k)
    ensures forall j :: 0 <= j < |list| && !eq(list[j].0, target) ==> (list[j].1 > total <==> j < k)
  {
  }

  /** Plain string equality, as an address comparison. */
  function SameAddress(a: Address, b: Address): bool
  {
    a == b
  }

  /** Groups [G1:100, G2:80, G3:50], target G3, weight +40: the projected total is 90,
      so `lesser` is G2 and `greater` G1. */
  lemma NeighbourScanExample(lesser: Address, greater: Address)
    requires IsNeighbourScan([("G1", 100), ("G2", 80), ("G3", 50)], "G3",
                             ProjectedTotal([("G1", 100), ("G2", 80), ("G3", 50)], "G3", 40,
                                            SameAddress),
                             SameAddress, "0x0", lesser, greater)
    ensures lesser == "G2" && greater == "G1"
  {
    var list: seq<GroupVoteTotal> := [("G1", 100), ("G2", 80), ("G3", 50)];
    var eq := SameAddress;
    assert FindGroupVotes(list, "G3", eq) == Some(50) by {
      assert list[1..][1..] == [("G3", 50)];
    }
    assert LesserAt(list, "G3", 90, eq, 1);
    LesserUnique(list, "G3", 90, eq, 1);
    assert eq(list[0].0, "G3") == false;
  }
}
