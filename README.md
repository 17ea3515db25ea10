# Staking core of the Celo web wallet, in Dafny

This project models three pieces of the Celo web wallet:

- **Staking** (`src/features/validators/stakeToken.ts`). `validate` checks a
  Vote, Activate or Revoke request and collects one error per failing field.
  `getStakeActionTxPlan` turns the request into an ordered list of transactions:
  - a Vote is one vote transaction, with the amount adjusted to the staking maximum;
  - an Activate is one activate transaction;
  - a Revoke takes from *pending* votes first, then from *active* votes. It has a
    minimum-vote cut-off and a "nearly equal" snap, and it fails when the request
    is more than the group holds.

  `findLesserAndGreaterAfterVote` scans the eligible groups, sorted by votes from
  most to least. It looks for the neighbours the election contract needs as an
  insertion hint. `getEligibleGroupVotes` zips the two lists the contract returns.
- **Validator groups** (`src/features/validators/fetchValidators.ts`).
  `fetchValidatorGroupInfo` groups the registered validators by affiliation and
  tags each one Elected or NotElected. It then fills in each group's name and
  URL, and finally the eligibility, capacity and votes of the eligible groups.
  `fetchValidatorGroupVotes` does only the last step, on copies of groups fetched
  earlier. `fetchValidators` chooses between a full refresh, a votes-only refresh
  and no refresh.
- **Select input** (`src/components/input/SelectInput.tsx`). `sortAndFilter`
  sorts the options by display text and keeps those whose lower-cased display
  contains the lower-cased input. It can put the raw input first, and it can
  truncate the list. `getDisplayValue` finds the text shown for a selected value.

Modules:

- `Wrappers` holds `Option` and `Result`.
- `ValidatorTypes` holds the validator and group records.
- `StakeToken`, `FetchValidators` and `SelectInput` follow the three source files.

Modelling choices:

- Network reads are parameters that hold the already-fetched data.
- Imported helpers the core does not define are parameters about which nothing
  is assumed. Most are fields of `StakeToken.Helpers`. The others are separate
  parameters: `areAddressesEqual` is `eq` (used by `StakeToken.FindGroupVotes` and
  `StakeToken.FindLesserAndGreaterAfterVote`), `isStale` is `isStale` and
  `toLowerCase` is `lower`.
- The constants imported from `src/consts.ts` are parameters, because that file
  is not part of this model: MIN_VOTE_AMOUNT, MIN_LOCKED_GOLD_TO_VOTE,
  MAX_NUM_ELECTABLE_VALIDATORS, NULL_ADDRESS, and VALIDATOR_LIST_STALE_TIME and
  VALIDATOR_VOTES_STALE_TIME (`listStaleTime` and `votesStaleTime` of
  `FetchValidators.RefreshDecision`).
- Thrown errors are `Failure` values. Amounts are unbounded integers, as with
  BigNumber.
- The source fills local dictionaries in place. Here they are `map`s that the
  loops reassign. The key order that `Object.keys` and `Object.values` follow is
  an explicit sequence next to the map.

## Model

| member | source | states |
|---|---|---|
| `StakeToken.InvalidInput` | src/features/validators/stakeToken.ts:50-80 | `invalidInput(field, text)`: an invalid state flagging exactly that one field, with that help text |
| `StakeToken.Spread` | src/features/validators/stakeToken.ts:50-88 | `{...errors, ...extra}`: `isValid` is the extra's, and is left as it was when the extra is null |
| `StakeToken.SpreadFields` | src/features/validators/stakeToken.ts:50-88 | the flagged fields are the union; the extra's help texts win on shared fields; the others keep theirs; spreading null changes nothing |
| `StakeToken.Validate` | src/features/validators/stakeToken.ts:38-92 | returns exactly `ValidationErrors`: the group-address, action, amount and locked-CELO checks spread in that order onto `{isValid: true}`, then the two fee results when `validateFee` is set |
| `StakeToken.ValidationReport` | src/features/validators/stakeToken.ts:47-91 | each field is flagged iff its own check fires or a helper reports it; an unknown group is flagged only for a non-Revoke; no amount flags `amount`; a Vote with locked ≤ the minimum flags `lockedCelo`; the checks accumulate; each check's help text ('Validator Group Required', 'Invalid Group Address', 'Invalid Validator Group', 'Invalid Action Type', 'Amount Missing', 'Insufficient locked CELO') is reported under its field unless a helper reports that field; no other fields; the result is valid when nothing is flagged and no helper objects, and invalid when a check fires and the helpers do not report valid |
| `StakeToken.ReportFlags` | src/features/validators/stakeToken.ts:47-91 | each field is flagged iff its own check fires or a helper reports it, and no field outside the four and the helpers' is flagged |
| `StakeToken.ReportTexts` | src/features/validators/stakeToken.ts:49-91 | each check's help text (the three group-address texts, 'Invalid Action Type', 'Amount Missing', 'Insufficient locked CELO') is reported under its field whenever its check fires, unless validateAmount or a fee check reports that field too |
| `StakeToken.ReportValidity` | src/features/validators/stakeToken.ts:47-91 | nothing flagged and no helper objecting means valid; a failing check under helpers that report invalid or null means invalid |
| `StakeToken.ChecksFlagFields` | src/features/validators/stakeToken.ts:49-81 | after the four checks, the flagged fields are exactly those whose condition holds, plus those validateAmount reports |
| `StakeToken.ChecksKeys` | src/features/validators/stakeToken.ts:49-81 | the fields after the four checks are the union of each failing check's own field and the fields validateAmount reports |
| `StakeToken.ChecksHelpTexts` | src/features/validators/stakeToken.ts:49-81 | after the four checks, the help texts are 'Validator Group Required', 'Invalid Group Address', 'Invalid Validator Group', 'Invalid Action Type', 'Amount Missing' and 'Insufficient locked CELO', each under its own condition and unless validateAmount reports that field |
| `StakeToken.ChecksGroupText` | src/features/validators/stakeToken.ts:49-81 | a rejected group address is still flagged after the four checks, with its own check's help text, unless validateAmount reports that field |
| `StakeToken.ChecksActionText` | src/features/validators/stakeToken.ts:61-81 | an unrecognised action is still flagged 'Invalid Action Type' after the four checks, unless validateAmount reports that field |
| `StakeToken.ChecksAmountText` | src/features/validators/stakeToken.ts:67-81 | a missing amount is still flagged 'Amount Missing' after the four checks |
| `StakeToken.ChecksValidity` | src/features/validators/stakeToken.ts:47-81 | after the four checks: nothing flagged and validateAmount not objecting means valid; a failing check, with validateAmount reporting invalid or null, means invalid |
| `StakeToken.FeeChecksKeep` | src/features/validators/stakeToken.ts:83-89 | the fee checks add only their own fields and keep the others; without `validateFee` nothing changes |
| `StakeToken.GetStakeActionTxPlan` | src/features/validators/stakeToken.ts:136-209 | Vote: one `ValidatorVoteCelo` item for `getAdjustedAmount(amount, getStakingMaxAmount(...))`; Activate: one `ValidatorActivateCelo` item for the amount unchanged; both for the normalized group and the given voter; Revoke with no votes recorded for the group fails; any other action fails; otherwise `RevokePlanned`: at most two items, pending before active, every amount > 0, the same group and voter; the pending item is the whole pending bucket when nearly equal, else `min(pending, requested)`; a remainder below the minimum gives no active item and no error; otherwise the active item is `active` when nearly equal, else the remainder when below `active`, else failure |
| `StakeToken.RevokeTotal` | src/features/validators/stakeToken.ts:160-205 | a revoke plan's total is the pending amount (if that item is there) plus the active amount (if that item is there) |
| `StakeToken.RevokeTotalIsRequested` | src/features/validators/stakeToken.ts:168-196 | when the remainder after the pending item is at least MIN_VOTE_AMOUNT (and not negative) and is not snapped to the active bucket by the nearly-equal test, a successful revoke moves exactly the requested amount |
| `StakeToken.RevokeDropsSmallRemainder` | src/features/validators/stakeToken.ts:184-185 | a remainder below MIN_VOTE_AMOUNT is dropped: the plan succeeds and moves the request minus that remainder |
| `StakeToken.RevokeWithinVotesSucceeds` | src/features/validators/stakeToken.ts:187-196 | the 'should never happen' branch is unreachable when the request is at most pending + active and the nearly-equal test holds for equal amounts |
| `StakeToken.RevokeFromBothBuckets` | src/features/validators/stakeToken.ts:160-205 | revoking 30 from pending 10 and active 25 plans pending 10, then active 20 |
| `StakeToken.RevokePendingOnly` | src/features/validators/stakeToken.ts:174-185 | revoking 10 from pending 8 with a minimum of 5 plans only pending 8 |
| `StakeToken.GetEligibleGroupVotes` | src/features/validators/stakeToken.ts:313-327 | zips the addresses with their totals, position by position; fails exactly when there are fewer totals than addresses |
| `StakeToken.ProjectedTotal` | src/features/validators/stakeToken.ts:293-294 | `voteTotal`: the first matching entry's votes plus the weight, or the weight alone when no entry matches |
| `StakeToken.FindGroupVotes` | src/features/validators/stakeToken.ts:293-294 | finds a total iff some entry matches the target, and then it is the first matching entry's total |
| `StakeToken.FindLesserAndGreaterAfterVote` | src/features/validators/stakeToken.ts:288-311 | `lesser` is the first entry other than the target whose votes are ≤ the projected total; `greater` is the last entry other than the target before it; both default to the null address; the projected total is the target's votes plus the weight, or the weight alone when the target is absent |
| `StakeToken.NeighbourScanDeterministic` | src/features/validators/stakeToken.ts:300-308 | the scan's outcome is unique for given inputs |
| `StakeToken.LesserUnique` | src/features/validators/stakeToken.ts:300-305 | there is at most one first-lesser entry, and when there is one the scan cannot pass the whole list |
| `StakeToken.NewMaximumHasNoGreater` | src/features/validators/stakeToken.ts:295-308 | a target whose projected total is at least every other group's gets the null address as `greater` |
| `StakeToken.NoOtherBefore` | src/features/validators/stakeToken.ts:301-306 | while only the target has been visited, `greater` is still the null address |
| `StakeToken.NewMinimumHasNoLesser` | src/features/validators/stakeToken.ts:295-308 | a target whose projected total is below every other group's gets the null address as `lesser`, and the last other group as `greater` |
| `StakeToken.SortedLesserSplits` | src/features/validators/stakeToken.ts:298-305 | on a list sorted by votes, descending, the other groups before `lesser` have more votes than the projected total, and those after it have at most that many |
| `StakeToken.NeighbourScanExample` | src/features/validators/stakeToken.ts:293-310 | G1:100, G2:80, G3:50, target G3 with weight +40: `lesser` is G2 and `greater` is G1 |
| `FetchValidators.Dedup` | src/features/validators/fetchValidators.ts:79-95 | the group keys, created once per distinct affiliation: the same elements as the affiliations, with no repeats |
| `FetchValidators.DedupFirstAppearance` | src/features/validators/fetchValidators.ts:85-95 | the keys are in order of first appearance: of two keys, the earlier one first occurs earlier among the affiliations |
| `FetchValidators.ValuesInOrder` | src/features/validators/fetchValidators.ts:144 | `Object.values(groups)`: one record per key, the k-th being the record of the k-th key in insertion order |
| `FetchValidators.ValidatorFrom` | src/features/validators/fetchValidators.ts:97-106 | a member record's address and name are the validator address; score and signer come from the details; the status is Elected iff the signer is an elected signer |
| `FetchValidators.NewGroup` | src/features/validators/fetchValidators.ts:86-94 | a new group has no members, is not eligible, and has capacity 0 and votes 0 |
| `FetchValidators.MemberRecords` | src/features/validators/fetchValidators.ts:97-107 | every member of an assembled group carries its own address and name, the score and signer of one of its detail entries with that group's affiliation, and Elected iff the signer is elected |
| `FetchValidators.MemberOnlyOfItsAffiliation` | src/features/validators/fetchValidators.ts:80-107 | with distinct validator addresses, a validator is a member only of the group its affiliation names |
| `FetchValidators.GroupValidators` | src/features/validators/fetchValidators.ts:79-108 | one group per distinct affiliation, in order of first appearance; every validator is a member of its affiliation's group; every member comes from a validator with that affiliation, with the record of the last such entry; name, URL and vote fields are still the initial ones |
| `FetchValidators.ApplyGroupDetails` | src/features/validators/fetchValidators.ts:122-128 | the k-th group gets the k-th name and URL; nothing else changes and no group is added |
| `FetchValidators.ElectableDivisor` | src/features/validators/fetchValidators.ts:197 | the divisor is the smaller of MAX_NUM_ELECTABLE_VALIDATORS and the validator count |
| `FetchValidators.Capacity` | src/features/validators/fetchValidators.ts:189-199 | the capacity c is the floor quotient: `c·d ≤ totalLocked·(members+1) < (c+1)·d` |
| `FetchValidators.GroupCapacity` | src/features/validators/fetchValidators.ts:189-199 | fails exactly when the divisor is zero; otherwise gives `Capacity` of the group's member count |
| `FetchValidators.CapacityGrowsWithMembers` | src/features/validators/fetchValidators.ts:194-198 | a group with more members never has a smaller capacity |
| `FetchValidators.StepFailure` | src/features/validators/fetchValidators.ts:134-141 | one eligible entry fails iff its group is unknown, the divisor is zero or its vote total is missing, with the error of the first of these in that order |
| `FetchValidators.ApplyEligibleVotes` | src/features/validators/fetchValidators.ts:134-141 | succeeds iff no entry fails, and otherwise reports the first failing entry's error; on success the keys are unchanged, groups not listed come out unchanged, and a listed group becomes eligible with its capacity and the votes of its last listing |
| `FetchValidators.FetchValidatorGroupInfo` | src/features/validators/fetchValidators.ts:47-145 | fails when there are no validators, then when there are no elected signers, then when the details differ in length from the addresses, then when the names or URLs differ in length from the groups, then at the first failing eligible entry; on success, one group per distinct affiliation in first-appearance order, each with its name, URL and exactly its members; listed groups are eligible with capacity (divisor from the registered-validator count) and votes; the others are not eligible and have capacity 0 and votes 0 |
| `FetchValidators.CopyGroups` | src/features/validators/fetchValidators.ts:160-164 | one record per distinct address, in order of first appearance, each the copy of the last group carrying that address |
| `FetchValidators.MemberCount` | src/features/validators/fetchValidators.ts:149 | the `reduce` over `Object.keys(g.members).length`: no group has more members than the count, and groups without members count zero |
| `FetchValidators.MemberCountAppend` | src/features/validators/fetchValidators.ts:149 | the count over two lists of groups is the sum of their counts |
| `FetchValidators.TotalValidators` | src/features/validators/fetchValidators.ts:149-155 | the member count across all groups, unless it is below the electable maximum, in which case the registered-validator count |
| `FetchValidators.FetchValidatorGroupVotes` | src/features/validators/fetchValidators.ts:148-176 | fails exactly at the first failing eligible entry; on success, one record per distinct group address in first-appearance order; a record is its input group unchanged when not listed, and otherwise that group marked eligible with new capacity and votes |
| `FetchValidators.RefreshDecision` | src/features/validators/fetchValidators.ts:34-45 | full refresh iff forced, no groups, no `lastUpdated` (null or 0) or the list is stale; votes-only iff none of those holds and the votes are stale; otherwise none |
| `SelectInput.LexLess` | src/components/input/SelectInput.tsx:142 | the comparator's `a.display < b.display`: true iff `a` is a proper prefix of `b` or, at the first position where they differ, `a` has the smaller character |
| `SelectInput.LexLessIrreflexive` | src/components/input/SelectInput.tsx:142 | no display sorts before itself |
| `SelectInput.LexLessTransitive` | src/components/input/SelectInput.tsx:142 | the string order is transitive |
| `SelectInput.LexLessTotal` | src/components/input/SelectInput.tsx:142 | two different displays are ordered one way or the other |
| `SelectInput.NotLessTransitive` | src/components/input/SelectInput.tsx:142 | "not after" is transitive |
| `SelectInput.InsertByDisplay` | src/components/input/SelectInput.tsx:142 | inserting adds exactly the one option |
| `SelectInput.InsertKeepsSorted` | src/components/input/SelectInput.tsx:142 | inserting into a sorted list keeps it sorted by display |
| `SelectInput.PrependSorted` | src/components/input/SelectInput.tsx:142 | an option not after the head of a sorted list may go first |
| `SelectInput.ConsSorted` | src/components/input/SelectInput.tsx:142 | an option not after any element of a sorted list may go first |
| `SelectInput.SortByDisplay` | src/components/input/SelectInput.tsx:141-142 | sorting rearranges the copied options: the same options, each as often |
| `SelectInput.SortByDisplaySorted` | src/components/input/SelectInput.tsx:142 | the sorted list is in non-decreasing display order |
| `SelectInput.Contains` | src/components/input/SelectInput.tsx:143 | `includes`: every string contains the empty string and itself, and never a longer string |
| `SelectInput.Matches` | src/components/input/SelectInput.tsx:143 | `o.display.toLowerCase().includes(input.toLowerCase())`: an input that lower-cases to '' or to the lower-cased display matches; and a matching input lower-cases to something no longer than the lower-cased display |
| `SelectInput.FilterMatching` | src/components/input/SelectInput.tsx:143 | an option is kept, as often as it occurs, iff its lower-cased display contains the lower-cased input |
| `SelectInput.FilterKeepsOrder` | src/components/input/SelectInput.tsx:142-143 | filtering a sorted list keeps it sorted |
| `SelectInput.FilterAllMatch` | src/components/input/SelectInput.tsx:143 | every kept option passes the filter |
| `SelectInput.FilterPermutes` | src/components/input/SelectInput.tsx:141-143 | filtering before or after sorting keeps the same options |
| `SelectInput.SortedMatches` | src/components/input/SelectInput.tsx:141-143 | sorting and then filtering gives a sorted list of exactly the options that pass the filter, each as often |
| `SelectInput.SliceEnd` | src/components/input/SelectInput.tsx:147 | `slice(0, m)` keeps `min(m, len)` options for m ≥ 0, and `max(len + m, 0)` for m < 0 |
| `SelectInput.Truncate` | src/components/input/SelectInput.tsx:147 | truncation keeps a prefix |
| `SelectInput.TruncatedMatch` | src/components/input/SelectInput.tsx:143-147 | after truncation, every option past the raw one still passes the filter |
| `SelectInput.TruncatedSorted` | src/components/input/SelectInput.tsx:142-147 | after truncation, the options past the raw one are still sorted |
| `SelectInput.TruncationIsPrefix` | src/components/input/SelectInput.tsx:147 | a truncated list is a prefix, at most `maxOptions` long for a positive value, and shorter by `-maxOptions` for a negative one |
| `SelectInput.RawOptionFirst` | src/components/input/SelectInput.tsx:144-146 | putting the raw option in front, when the input is non-empty and raw input is allowed, gives the untruncated list the component builds |
| `SelectInput.TruncatedShape` | src/components/input/SelectInput.tsx:141-147 | a truncation of that list is at most `maxOptions` long for a positive value, starts with the raw option when there is one, and past it is sorted and matching |
| `SelectInput.SortAndFilter` | src/components/input/SelectInput.tsx:135-148 | the result is a truncation of a list that has the raw option `{display: input, value: input}` first when the input is non-empty and raw input is allowed, then exactly the matching options in non-decreasing display order; no truncation when `maxOptions` is absent or 0; at most `maxOptions` options when it is positive |
| `SelectInput.EmptyInputListsAll` | src/components/input/SelectInput.tsx:143-147 | with an empty input (lower-casing to itself) the untruncated list is all the options, sorted |
| `SelectInput.FindByValue` | src/components/input/SelectInput.tsx:152 | finds an option iff one carries the value, and then it is the first such option |
| `SelectInput.GetDisplayValue` | src/components/input/SelectInput.tsx:150-156 | '' for no value or ''; the first matching option's display when it is non-empty; otherwise the value itself when raw input is allowed, else '' |
| `SelectInput.DisplayValueOrigin` | src/components/input/SelectInput.tsx:150-156 | the text shown is '', the raw value (only when allowed), or the display of an option carrying the value |
| `SelectInput.DisplayOfSelectedOption` | src/components/input/SelectInput.tsx:150-156 | with distinct option values, selecting an option (non-empty display) shows its display |

## Left out

- The redux-saga generators are not modelled. This covers `stakeToken`, with its fee-estimate length check and `executeTxPlan`, the `createMonitoredSaga` exports, and the store updates in `fetchValidators` (`resetValidatorGroups`, `updateValidatorGroups`, `Date.now`). They sequence effects.
- Contract calls and signing are not modelled: `getContract`, `batchCall`, `fetchVotesAndTotalLocked`, `getGroupsVotedForByAccount`, `populateTransaction.*`, `signTransaction`. The model starts from their results, which are parameters.
- The `create*Tx` helpers and `createPlaceholderTx` are not modelled. They wrap network and signing calls.
- The imported helpers are parameters with no properties: `normalizeAddress`, `isValidAddress`, `areAddressesEqual`, `areAmountsNearlyEqual`, `getStakingMaxAmount`, `getAdjustedAmount`, `validateAmount`, `validateFeeEstimates`, `validateAmountWithFees`, `isStale`, `toLowerCase`. `BigNumberMin` is the plain minimum.
- `src/consts.ts`, `src/utils/validation.ts` and `src/features/validators/types.ts` are not part of this model:
  - the constants are parameters;
  - `invalidInput(field, text)` is taken to be `{isValid: false, [field]: text}`;
  - a record keeps only the fields the core touches.
- `StakeToken.Validate`: a helper may report a field under the same name as one of the four named fields ("groupAddress", "action", "amount", "lockedCelo"). In JavaScript that would merge with the named field. In the model `OtherField(name)` is always a distinct key, so that merging is not modelled.
- `StakeToken.Validate` receives the voter's locked CELO as a number, and the results of the two fee helpers as values. The fee estimates are not modelled otherwise.
- `StakeToken.GetStakeActionTxPlan` requires the amount to be present. At its only call site (stakeToken.ts:102-107), `validateOrThrow` runs `validate` first, and `validate` flags a missing amount as 'Amount Missing'. The planner's behaviour on an empty amount string is therefore not modelled.
- Amounts, scores, capacities and vote counts are integers. The decimal strings that `toString()` produces are not modelled.
- `numMembers + 1` is a JavaScript number in the source. Precision loss beyond 2^53 is not modelled.
- Key order follows insertion. JavaScript puts integer-like keys first, but "0x…" addresses never are integer-like.
- Keys that collide with `Object.prototype` members (such as `constructor`) are not modelled.
- `fetchValidatorGroupVotes` copies groups shallowly, so a copy shares `members` with its input. Records are values here, so that aliasing is not captured. Nothing writes to `members` after the copy.
- `FetchValidators.FetchValidatorGroupVotes`: the `Object.values` result is stated per record. The model does not claim that the inputs are unchanged, because values already guarantee it.
- The sort is an insertion sort standing in for `Array.prototype.sort`. The source comparator never returns 0, so the order among equal displays is up to the engine. `SortAndFilter` promises only non-decreasing order and the same options.
- `SelectInput.LexLess` compares characters by code point. JavaScript compares UTF-16 code units, which differs for characters outside the Basic Multilingual Plane.
- `toLowerCase` is abstract. `SelectInput.EmptyInputListsAll` assumes only that it maps '' to ''.
- A fractional or NaN `maxOptions` is not modelled. `maxOptions` is an optional integer.
- A `null` list from the network is not modelled. Lists are always present.
- React rendering, hooks, `getInputStyles` and `console.log` are presentation, and are not modelled.
