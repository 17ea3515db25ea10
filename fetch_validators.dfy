/** Validator-group assembly of src/features/validators/fetchValidators.ts.

    The network reads (registered validators, elected signers, validator details,
    group names and metadata URLs, eligible groups with their votes, total locked
    gold) are parameters, already fetched. The local `Record<string, ValidatorGroup>`
    the source fills in place is a `map` that the loops reassign; a JavaScript
    object's key order, which `Object.keys` and `Object.values` follow, is kept as
    an explicit insertion-order sequence beside it. */
module FetchValidators {
  import opened Wrappers
  import opened ValidatorTypes

  /** The fields of a `getValidator` result that the assembly reads. */
  datatype ValidatorRaw = ValidatorRaw(affiliation: Address, score: int, signer: Address)

  /** What the fetchers throw. */
  datatype FetchError =
    | NoRegisteredValidators    // 'No registered validators found'
    | NoElectedSigners          // 'No elected signers found'
    | ValidatorDetailsMismatch  // 'Validator list / details size mismatch'
    | GroupDetailsMismatch      // 'Group list / details size mismatch'
    | UnknownEligibleGroup      // an eligible group with no record: `group.eligible = true` on undefined
    | DivisionByZero            // the capacity divisor is zero: BigNumber division throws
    | MissingGroupVotes         // fewer vote totals than eligible groups: `numVotes.toString()` on undefined

  // ---------------------------------------------------------------------------
  // Sequence helpers

  /** The index of the first occurrence of `x` in `s`. */
  function FirstIndex(s: seq<Address>, x: Address): (k: nat)
    requires x in s
    ensures k < |s| && s[k] == x
    ensures forall j :: 0 <= j < k ==> s[j] != x
  {
    var init := s[..|s| - 1];
    if x in init then
      var k := FirstIndex(init, x);
      assert forall j :: 0 <= j <= k ==> s[j] == init[j];
      k
    else
      assert forall j :: 0 <= j < |s| - 1 ==> s[j] == init[j];
      |s| - 1
  }

  /** The distinct elements of `s`, in the order of their first occurrence: the key
      order of an object filled by assigning the keys of `s` one after another. */
  function Dedup(s: seq<Address>): (r: seq<Address>)
    ensures forall x :: x in r <==> x in s
    ensures forall i, j :: 0 <= i < j < |r| ==> r[i] != r[j]
  {
    if |s| == 0 then []
    else
      var p := Dedup(s[..|s| - 1]);
      if s[|s| - 1] in s[..|s| - 1] then p else p + [s[|s| - 1]]
  }

  /** `Dedup` keeps the order of first appearance: of two of its elements, the earlier
      one occurs first in `s`. */
  lemma {:induction false} DedupFirstAppearance(s: seq<Address>)
    ensures forall i, j :: 0 <= i < j < |Dedup(s)| ==> FirstIndex(s, Dedup(s)[i]) < FirstIndex(s, Dedup(s)[j])
  {
    if |s| > 0 {
      var init := s[..|s| - 1];
      var p := Dedup(init);
      var r := Dedup(s);
      DedupFirstAppearance(init);
      assert forall a, b :: 0 <= a < b < |p| ==> FirstIndex(init, p[a]) < FirstIndex(init, p[b]);
      assert r == if s[|s| - 1] in init then p else p + [s[|s| - 1]];
      forall i, j | 0 <= i < j < |r|
        ensures FirstIndex(s, r[i]) < FirstIndex(s, r[j])
      {
        assert r[i] == p[i] && p[i] in init;
        assert FirstIndex(s, p[i]) == FirstIndex(init, p[i]);
        if j < |p| {
          assert r[j] == p[j] && p[j] in init;
          assert FirstIndex(s, p[j]) == FirstIndex(init, p[j]);
          assert FirstIndex(init, p[i]) < FirstIndex(init, p[j]);
        } else {
          assert r[j] == s[|s| - 1] && r[j] !in init;
          assert FirstIndex(s, r[j]) == |s| - 1;
          assert FirstIndex(init, p[i]) < |init|;
        }
      }
    }
  }

  /** The index of the last occurrence of `x` among the first `n` elements of `s`,
      or -1 when there is none. */
  function LastIndex(s: seq<Address>, x: Address, n: nat): (k: int)
    requires n <= |s|
    ensures -1 <= k < n
    ensures k >= 0 ==> s[k] == x
    ensures forall j :: k < j < n ==> s[j] != x
    ensures n == |s| ==> (k >= 0 <==> x in s)
  {
    if n == 0 then -1
    else if s[n - 1] == x then n - 1
    else LastIndex(s, x, n - 1)
  }

  function Affiliations(details: seq<ValidatorRaw>): (r: seq<Address>)
    ensures |r| == |details| && forall i :: 0 <= i < |details| ==> r[i] == details[i].affiliation
  {
    seq(|details|, i requires 0 <= i < |details| => details[i].affiliation)
  }

  function Addresses(groups: seq<ValidatorGroup>): (r: seq<Address>)
    ensures |r| == |groups| && forall i :: 0 <= i < |groups| ==> r[i] == groups[i].address
  {
    seq(|groups|, i requires 0 <= i < |groups| => groups[i].address)
  }

  /** `Object.values(groups)` for an object whose keys, in order, are `keys`. */
  function ValuesInOrder(groups: map<Address, ValidatorGroup>, keys: seq<Address>): (r: seq<ValidatorGroup>)
    requires forall g :: g in keys ==> g in groups
    ensures |r| == |keys| && forall i :: 0 <= i < |keys| ==> r[i] == groups[keys[i]]
  {
    seq(|keys|, i requires 0 <= i < |keys| => groups[keys[i]])
  }

  // ---------------------------------------------------------------------------
  // Capacity

  /** `Math.min(MAX_NUM_ELECTABLE_VALIDATORS, totalValidators)`. */
  function ElectableDivisor(maxElectable: nat, totalValidators: nat): (d: nat)
    ensures d <= maxElectable && d <= totalValidators
    ensures d == maxElectable || d == totalValidators
  {
    if maxElectable <= totalValidators then maxElectable else totalValidators
  }

  /** The most a group with `numMembers` members may hold: the locked total times
      `numMembers + 1`, divided by the electable count and rounded down. */
  function Capacity(numMembers: nat, totalValidators: nat, totalLocked: nat, maxElectable: nat): (c: nat)
    requires ElectableDivisor(maxElectable, totalValidators) > 0
    ensures c * ElectableDivisor(maxElectable, totalValidators) <= totalLocked * (numMembers + 1)
    ensures totalLocked * (numMembers + 1) < (c + 1) * ElectableDivisor(maxElectable, totalValidators)
  {
    totalLocked * (numMembers + 1) / ElectableDivisor(maxElectable, totalValidators)
  }

  /** A group with more members never has a smaller capacity. */
  lemma CapacityGrowsWithMembers(fewer: nat, more: nat, totalValidators: nat, totalLocked: nat, maxElectable: nat)
    requires ElectableDivisor(maxElectable, totalValidators) > 0
    requires fewer <= more
    ensures Capacity(fewer, totalValidators, totalLocked, maxElectable)
            <= Capacity(more, totalValidators, totalLocked, maxElectable)
  {
    var d := ElectableDivisor(maxElectable, totalValidators);
    var c1 := Capacity(fewer, totalValidators, totalLocked, maxElectable);
    var c2 := Capacity(more, totalValidators, totalLocked, maxElectable);
    MulMonotone(totalLocked, fewer + 1, more + 1);
    QuotientMonotone(totalLocked * (fewer + 1), totalLocked * (more + 1), d, c1, c2);
  }

  /** Rounded-down quotients keep the order of their dividends. */
  lemma QuotientMonotone(a: nat, b: nat, d: nat, q1: nat, q2: nat)
    requires a <= b
    requires q1 * d <= a && b < (q2 + 1) * d
    ensures q1 <= q2
  {
    if q1 > q2 {
      MulMonotone(d, q2 + 1, q1);
      assert false;
    }
  }

  lemma MulMonotone(x: nat, y: nat, z: nat)
    requires y <= z
    ensures x * y <= x * z
  {
    assert x * z == x * y + x * (z - y);
  }

  /** getValidatorGroupCapacity: fails exactly when the divisor is zero. */
  function GroupCapacity(group: ValidatorGroup, totalValidators: nat, totalLocked: nat, maxElectable: nat)
    : (r: Result<nat, FetchError>)
    ensures r.Failure? <==> ElectableDivisor(maxElectable, totalValidators) == 0
    ensures r.Failure? ==> r.error == DivisionByZero
    ensures r.Success? ==> r.value == Capacity(|group.members|, totalValidators, totalLocked, maxElectable)
  {
    if ElectableDivisor(maxElectable, totalValidators) == 0 then Failure(DivisionByZero)
    else Success(Capacity(|group.members|, totalValidators, totalLocked, maxElectable))
  }

  // ---------------------------------------------------------------------------
  // Grouping validators by affiliation

  /** The record a group starts from when its first member is seen. */
  function NewGroup(g: Address): (grp: ValidatorGroup)
    ensures grp.address == g && grp.members == map[]
    ensures !grp.eligible && grp.capacity == 0 && grp.votes == 0
  {
    ValidatorGroup(g, "", "", map[], false, 0, 0)
  }

  /** The member record of validator `addr`: Elected exactly when its signer is one
      of the elected signers. */
  function ValidatorFrom(addr: Address, raw: ValidatorRaw, electedSigners: seq<Address>): (v: Validator)
    ensures v.address == addr && v.name == addr && v.score == raw.score && v.signer == raw.signer
    ensures v.status == Elected <==> raw.signer in electedSigners
  {
    Validator(addr, addr, raw.score, raw.signer,
              if raw.signer in electedSigners then Elected else NotElected)
  }

  /** `members` holds exactly the validators among the first `n` whose affiliation is
      `g`, each with the record built from its last such entry. */
  ghost predicate MembersAssembled(g: Address, members: map<Address, Validator>,
                                   validatorAddrs: seq<Address>, details: seq<ValidatorRaw>,
                                   electedSigners: seq<Address>, n: nat)
    requires n <= |validatorAddrs| == |details|
  {
    && (forall k :: 0 <= k < n && details[k].affiliation == g ==> validatorAddrs[k] in members)
    && (forall va :: va in members ==>
          exists k :: 0 <= k < n && validatorAddrs[k] == va && details[k].affiliation == g
                   && members[va] == ValidatorFrom(va, details[k], electedSigners)
                   && forall j :: k < j < n ==> !(validatorAddrs[j] == va && details[j].affiliation == g))
  }

  /** One more entry, affiliated with `g`, keeps `MembersAssembled` for `g`. */
  lemma MembersAssembledAdd(g: Address, members: map<Address, Validator>,
                            validatorAddrs: seq<Address>, details: seq<ValidatorRaw>,
                            electedSigners: seq<Address>, n: nat)
    requires n < |validatorAddrs| == |details|
    requires details[n].affiliation == g
    requires MembersAssembled(g, members, validatorAddrs, details, electedSigners, n)
    ensures MembersAssembled(g, members[validatorAddrs[n] := ValidatorFrom(validatorAddrs[n], details[n], electedSigners)],
                             validatorAddrs, details, electedSigners, n + 1)
  {
    var va := validatorAddrs[n];
    var updated := members[va := ValidatorFrom(va, details[n], electedSigners)];
    forall x | x in updated
      ensures exists k :: 0 <= k < n + 1 && validatorAddrs[k] == x && details[k].affiliation == g
                       && updated[x] == ValidatorFrom(x, details[k], electedSigners)
                       && forall j :: k < j < n + 1 ==> !(validatorAddrs[j] == x && details[j].affiliation == g)
    {
      if x != va {
        var k :| 0 <= k < n && validatorAddrs[k] == x && details[k].affiliation == g
              && members[x] == ValidatorFrom(x, details[k], electedSigners)
              && forall j :: k < j < n ==> !(validatorAddrs[j] == x && details[j].affiliation == g);
        assert updated[x] == members[x];
      } else {
        assert updated[x] == ValidatorFrom(x, details[n], electedSigners);
      }
    }
  }

  /** An entry affiliated elsewhere keeps `MembersAssembled` for `g`. */
  lemma MembersAssembledSkip(g: Address, members: map<Address, Validator>,
                             validatorAddrs: seq<Address>, details: seq<ValidatorRaw>,
                             electedSigners: seq<Address>, n: nat)
    requires n < |validatorAddrs| == |details|
    requires details[n].affiliation != g
    requires MembersAssembled(g, members, validatorAddrs, details, electedSigners, n)
    ensures MembersAssembled(g, members, validatorAddrs, details, electedSigners, n + 1)
  {
    forall x | x in members
      ensures exists k :: 0 <= k < n + 1 && validatorAddrs[k] == x && details[k].affiliation == g
                       && members[x] == ValidatorFrom(x, details[k], electedSigners)
                       && forall j :: k < j < n + 1 ==> !(validatorAddrs[j] == x && details[j].affiliation == g)
    {
      var k :| 0 <= k < n && validatorAddrs[k] == x && details[k].affiliation == g
            && members[x] == ValidatorFrom(x, details[k], electedSigners)
            && forall j :: k < j < n ==> !(validatorAddrs[j] == x && details[j].affiliation == g);
    }
  }

  /** The state of the grouping loop after its first `n` entries. */
  ghost predicate GroupedUpTo(order: seq<Address>, groups: map<Address, ValidatorGroup>,
                              validatorAddrs: seq<Address>, details: seq<ValidatorRaw>,
                              electedSigners: seq<Address>, n: nat)
    requires n <= |validatorAddrs| == |details|
  {
    && GroupKeysUpTo(order, groups, details, n)
    && (forall g :: g in groups ==>
          MembersAssembled(g, groups[g].members, validatorAddrs, details, electedSigners, n))
  }

  /** The keys, their order and the untouched fields of the groups after `n` entries. */
  ghost predicate GroupKeysUpTo(order: seq<Address>, groups: map<Address, ValidatorGroup>,
                                details: seq<ValidatorRaw>, n: nat)
    requires n <= |details|
  {
    && order == Dedup(Affiliations(details)[..n])
    && (forall g :: g in groups <==> g in order)
    && (forall g :: g in groups ==> groups[g] == NewGroup(g).(members := groups[g].members))
  }

  /** The group records after entry `n` is added to `groups`: the group of its
      affiliation is created if missing, then the validator is put among its members. */
  function AddEntry(groups: map<Address, ValidatorGroup>, validatorAddrs: seq<Address>,
                    details: seq<ValidatorRaw>, electedSigners: seq<Address>, n: nat)
    : (r: map<Address, ValidatorGroup>)
    requires n < |validatorAddrs| == |details|
    ensures r.Keys == groups.Keys + {details[n].affiliation}
  {
    var g := details[n].affiliation;
    var created := if g in groups then groups else groups[g := NewGroup(g)];
    created[g := created[g].(members := created[g].members[validatorAddrs[n] :=
                                          ValidatorFrom(validatorAddrs[n], details[n], electedSigners)])]
  }

  /** One iteration of the grouping loop keeps its invariant. */
  lemma GroupedStep(order: seq<Address>, groups: map<Address, ValidatorGroup>,
                    validatorAddrs: seq<Address>, details: seq<ValidatorRaw>,
                    electedSigners: seq<Address>, n: nat)
    requires n < |validatorAddrs| == |details|
    requires GroupedUpTo(order, groups, validatorAddrs, details, electedSigners, n)
    ensures var g := details[n].affiliation;
            GroupedUpTo(if g in groups then order else order + [g],
                        AddEntry(groups, validatorAddrs, details, electedSigners, n),
                        validatorAddrs, details, electedSigners, n + 1)
  {
    var groups' := AddEntry(groups, validatorAddrs, details, electedSigners, n);
    GroupedOrderStep(order, groups, validatorAddrs, details, electedSigners, n);
    forall h | h in groups'
      ensures MembersAssembled(h, groups'[h].members, validatorAddrs, details, electedSigners, n + 1)
    {
      GroupedMembersStep(order, groups, validatorAddrs, details, electedSigners, n, h);
    }
  }

  /** The key order and the fresh-group fields after one iteration of the grouping loop. */
  lemma GroupedOrderStep(order: seq<Address>, groups: map<Address, ValidatorGroup>,
                         validatorAddrs: seq<Address>, details: seq<ValidatorRaw>,
                         electedSigners: seq<Address>, n: nat)
    requires n < |validatorAddrs| == |details|
    requires GroupKeysUpTo(order, groups, details, n)
    ensures var g := details[n].affiliation;
            GroupKeysUpTo(if g in groups then order else order + [g],
                          AddEntry(groups, validatorAddrs, details, electedSigners, n), details, n + 1)
  {
    var affs := Affiliations(details);
    var g := details[n].affiliation;
    var groups' := AddEntry(groups, validatorAddrs, details, electedSigners, n);
    assert affs[..n + 1][..n] == affs[..n] && affs[..n + 1][n] == g;
    assert g in affs[..n] <==> g in groups;
    assert Dedup(affs[..n + 1]) == if g in groups then order else order + [g];
    forall h | h in groups'
      ensures groups'[h] == NewGroup(h).(members := groups'[h].members)
    {
      if h != g {
        assert groups'[h] == groups[h];
      }
    }
  }

  /** The members of each group after one iteration of the grouping loop. */
  lemma GroupedMembersStep(order: seq<Address>, groups: map<Address, ValidatorGroup>,
                           validatorAddrs: seq<Address>, details: seq<ValidatorRaw>,
                           electedSigners: seq<Address>, n: nat, h: Address)
    requires n < |validatorAddrs| == |details|
    requires GroupedUpTo(order, groups, validatorAddrs, details, electedSigners, n)
    requires h in AddEntry(groups, validatorAddrs, details, electedSigners, n)
    ensures MembersAssembled(h, AddEntry(groups, validatorAddrs, details, electedSigners, n)[h].members,
                             validatorAddrs, details, electedSigners, n + 1)
  {
    var g := details[n].affiliation;
    var groups' := AddEntry(groups, validatorAddrs, details, electedSigners, n);
    if h == g {
      var members := if g in groups then groups[g].members else map[];
      if g !in groups {
        var affs := Affiliations(details);
        assert g !in affs[..n];
        forall k | 0 <= k < n
          ensures details[k].affiliation != g
        {
          assert affs[..n][k] == details[k].affiliation;
        }
      }
      assert MembersAssembled(g, members, validatorAddrs, details, electedSigners, n);
      MembersAssembledAdd(g, members, validatorAddrs, details, electedSigners, n);
    } else {
      assert groups'[h] == groups[h];
      MembersAssembledSkip(h, groups[h].members, validatorAddrs, details, electedSigners, n);
    }
  }

  /** Every member record is the validator's own: its address and name are the
      validator address, and it is Elected exactly when its signer is an elected signer. */
  lemma MemberRecords(g: Address, members: map<Address, Validator>,
                      validatorAddrs: seq<Address>, details: seq<ValidatorRaw>,
                      electedSigners: seq<Address>, va: Address)
    requires |validatorAddrs| == |details|
    requires MembersAssembled(g, members, validatorAddrs, details, electedSigners, |details|)
    requires va in members
    ensures members[va].address == va && members[va].name == va
    ensures members[va].status == Elected <==> members[va].signer in electedSigners
    ensures exists k :: 0 <= k < |details| && validatorAddrs[k] == va && details[k].affiliation == g
                     && members[va].signer == details[k].signer && members[va].score == details[k].score
  {
    var k :| 0 <= k < |details| && validatorAddrs[k] == va && details[k].affiliation == g
          && members[va] == ValidatorFrom(va, details[k], electedSigners);
  }

  /** When the registered validator addresses are distinct, a validator is a member
      only of the group its affiliation names. */
  lemma MemberOnlyOfItsAffiliation(g: Address, members: map<Address, Validator>,
                                   validatorAddrs: seq<Address>, details: seq<ValidatorRaw>,
                                   electedSigners: seq<Address>, i: nat)
    requires |validatorAddrs| == |details|
    requires forall a, b :: 0 <= a < b < |validatorAddrs| ==> validatorAddrs[a] != validatorAddrs[b]
    requires MembersAssembled(g, members, validatorAddrs, details, electedSigners, |details|)
    requires i < |validatorAddrs| && validatorAddrs[i] in members
    ensures g == details[i].affiliation
  {
    var va := validatorAddrs[i];
    var k :| 0 <= k < |details| && validatorAddrs[k] == va && details[k].affiliation == g;
    assert k == i;
  }

  /** The first loop of fetchValidatorGroupInfo: one group per distinct affiliation,
      created once, in order of first appearance, each holding exactly its validators. */
  method GroupValidators(validatorAddrs: seq<Address>, details: seq<ValidatorRaw>, electedSigners: seq<Address>)
    returns (order: seq<Address>, groups: map<Address, ValidatorGroup>)
    requires |validatorAddrs| == |details|
    ensures order == Dedup(Affiliations(details))
    ensures forall g :: g in groups <==> g in order
    ensures forall g :: g in groups ==> groups[g] == NewGroup(g).(members := groups[g].members)
    ensures forall g :: g in groups ==>
              MembersAssembled(g, groups[g].members, validatorAddrs, details, electedSigners, |details|)
  {
    order := [];
    groups := map[];
    for i := 0 to |validatorAddrs|
      invariant GroupedUpTo(order, groups, validatorAddrs, details, electedSigners, i)
    {
      GroupedStep(order, groups, validatorAddrs, details, electedSigners, i);
      var groupAddr := details[i].affiliation;
      if groupAddr !in groups {
        groups := groups[groupAddr := NewGroup(groupAddr)];
        order := order + [groupAddr];
      }
      var validator := ValidatorFrom(validatorAddrs[i], details[i], electedSigners);
      groups := groups[groupAddr := groups[groupAddr].(members := groups[groupAddr].members[validatorAddrs[i] := validator])];
    }
    assert Affiliations(details)[..|details|] == Affiliations(details);
  }

  /** The second loop of fetchValidatorGroupInfo: the k-th group gets the k-th
      name and URL; nothing else changes. */
  method ApplyGroupDetails(groups: map<Address, ValidatorGroup>, groupAddrs: seq<Address>,
                           groupNames: seq<string>, groupUrls: seq<string>)
    returns (updated: map<Address, ValidatorGroup>)
    requires forall g :: g in groups <==> g in groupAddrs
    requires forall i, j :: 0 <= i < j < |groupAddrs| ==> groupAddrs[i] != groupAddrs[j]
    requires |groupNames| == |groupAddrs| && |groupUrls| == |groupAddrs|
    ensures forall g :: g in updated <==> g in groups
    ensures forall k :: 0 <= k < |groupAddrs| ==>
              updated[groupAddrs[k]] == groups[groupAddrs[k]].(name := groupNames[k], url := groupUrls[k])
  {
    updated := groups;
    for i := 0 to |groupAddrs|
      invariant forall g :: g in updated <==> g in groups
      invariant forall k :: 0 <= k < i ==>
                  updated[groupAddrs[k]] == groups[groupAddrs[k]].(name := groupNames[k], url := groupUrls[k])
      invariant forall k :: i <= k < |groupAddrs| ==> updated[groupAddrs[k]] == groups[groupAddrs[k]]
    {
      var groupAddr := groupAddrs[i];
      updated := updated[groupAddr := updated[groupAddr].(name := groupNames[i], url := groupUrls[i])];
    }
  }

  // ---------------------------------------------------------------------------
  // Applying the eligible groups' votes

  /** The first error the eligible-groups loop hits at entry `i`, if any: the group
      record is looked up, then the capacity divided, then the vote total read. */
  function StepFailure(known: bool, divisor: nat, i: nat, voteCount: nat): (e: Option<FetchError>)
    ensures e.None? <==> known && divisor > 0 && i < voteCount
    ensures !known ==> e == Some(UnknownEligibleGroup)
    ensures known && divisor == 0 ==> e == Some(DivisionByZero)
    ensures known && divisor > 0 && i >= voteCount ==> e == Some(MissingGroupVotes)
  {
    if !known then Some(UnknownEligibleGroup)
    else if divisor == 0 then Some(DivisionByZero)
    else if i >= voteCount then Some(MissingGroupVotes)
    else None
  }

  /** `after` is `before`, the record of group `g`, once the eligible groups'
      votes are applied: unchanged unless `g` is listed; if it is, marked eligible,
      with its capacity and the vote total of its last listing. */
  ghost predicate VotesApplied(after: ValidatorGroup, before: ValidatorGroup, g: Address,
                               eligibleGroups: seq<Address>, groupVotes: seq<int>,
                               totalValidators: nat, totalLocked: nat, maxElectable: nat)
  {
    && (g !in eligibleGroups ==> after == before)
    && (g in eligibleGroups ==>
          var k := LastIndex(eligibleGroups, g, |eligibleGroups|);
          && 0 <= k < |groupVotes|
          && ElectableDivisor(maxElectable, totalValidators) > 0
          && after == before.(eligible := true,
                              capacity := Capacity(|before.members|, totalValidators, totalLocked, maxElectable),
                              votes := groupVotes[k]))
  }

  /** The record of group `g` after the first `n` eligible entries are processed. */
  ghost function VotedUpTo(before: ValidatorGroup, g: Address, eligibleGroups: seq<Address>,
                           groupVotes: seq<int>, totalValidators: nat, totalLocked: nat,
                           maxElectable: nat, n: nat): ValidatorGroup
    requires n <= |eligibleGroups| && n <= |groupVotes|
    requires n > 0 ==> ElectableDivisor(maxElectable, totalValidators) > 0
  {
    var k := LastIndex(eligibleGroups, g, n);
    if k < 0 then before
    else before.(eligible := true,
                 capacity := Capacity(|before.members|, totalValidators, totalLocked, maxElectable),
                 votes := groupVotes[k])
  }

  /** The state of the vote-processing loop after its first `n` entries, none of
      which failed. */
  ghost predicate VotesUpTo(updated: map<Address, ValidatorGroup>, groups: map<Address, ValidatorGroup>,
                            eligibleGroups: seq<Address>, groupVotes: seq<int>, totalValidators: nat,
                            totalLocked: nat, maxElectable: nat, n: nat)
  {
    && n <= |eligibleGroups| && n <= |groupVotes|
    && (n > 0 ==> ElectableDivisor(maxElectable, totalValidators) > 0)
    && (forall j :: 0 <= j < n ==>
          StepFailure(eligibleGroups[j] in groups, ElectableDivisor(maxElectable, totalValidators),
                      j, |groupVotes|).None?)
    && (forall g :: g in updated <==> g in groups)
    && (forall g :: g in groups ==>
          updated[g] == VotedUpTo(groups[g], g, eligibleGroups, groupVotes, totalValidators,
                                  totalLocked, maxElectable, n))
  }

  /** A successful iteration of the vote-processing loop keeps its invariant. */
  lemma VotesStep(updated: map<Address, ValidatorGroup>, groups: map<Address, ValidatorGroup>,
                  eligibleGroups: seq<Address>, groupVotes: seq<int>, totalValidators: nat,
                  totalLocked: nat, maxElectable: nat, n: nat)
    requires n < |eligibleGroups|
    requires VotesUpTo(updated, groups, eligibleGroups, groupVotes, totalValidators, totalLocked, maxElectable, n)
    requires StepFailure(eligibleGroups[n] in groups, ElectableDivisor(maxElectable, totalValidators),
                         n, |groupVotes|).None?
    ensures var g := eligibleGroups[n];
            VotesUpTo(updated[g := updated[g].(eligible := true,
                                               capacity := Capacity(|updated[g].members|, totalValidators,
                                                                    totalLocked, maxElectable),
                                               votes := groupVotes[n])],
                      groups, eligibleGroups, groupVotes, totalValidators, totalLocked, maxElectable, n + 1)
  {
    var g := eligibleGroups[n];
    var updated' := updated[g := updated[g].(eligible := true,
                                             capacity := Capacity(|updated[g].members|, totalValidators,
                                                                  totalLocked, maxElectable),
                                             votes := groupVotes[n])];
    forall h | h in groups
      ensures updated'[h] == VotedUpTo(groups[h], h, eligibleGroups, groupVotes, totalValidators,
                                       totalLocked, maxElectable, n + 1)
    {
      if h != g {
        assert LastIndex(eligibleGroups, h, n + 1) == LastIndex(eligibleGroups, h, n);
      }
    }
  }

  /** Once all entries are processed, each group's record is as `VotesApplied` says. */
  lemma VotesDone(updated: map<Address, ValidatorGroup>, groups: map<Address, ValidatorGroup>,
                  eligibleGroups: seq<Address>, groupVotes: seq<int>, totalValidators: nat,
                  totalLocked: nat, maxElectable: nat, g: Address)
    requires VotesUpTo(updated, groups, eligibleGroups, groupVotes, totalValidators, totalLocked,
                       maxElectable, |eligibleGroups|)
    requires g in groups
    ensures VotesApplied(updated[g], groups[g], g, eligibleGroups, groupVotes,
                         totalValidators, totalLocked, maxElectable)
  {
    var k := LastIndex(eligibleGroups, g, |eligibleGroups|);
    if k >= 0 {
      assert g in eligibleGroups;
    }
  }

  /** The vote-processing loop shared by fetchValidatorGroupInfo and
      fetchValidatorGroupVotes. It stops at the first entry that throws. */
  method ApplyEligibleVotes(groups: map<Address, ValidatorGroup>, eligibleGroups: seq<Address>,
                            groupVotes: seq<int>, totalValidators: nat, totalLocked: nat,
                            maxElectable: nat)
    returns (r: Result<map<Address, ValidatorGroup>, FetchError>)
    ensures r.Success? <==>
              forall i :: 0 <= i < |eligibleGroups| ==>
                StepFailure(eligibleGroups[i] in groups, ElectableDivisor(maxElectable, totalValidators),
                            i, |groupVotes|).None?
    ensures r.Failure? ==>
              exists i :: 0 <= i < |eligibleGroups|
                && StepFailure(eligibleGroups[i] in groups, ElectableDivisor(maxElectable, totalValidators),
                               i, |groupVotes|) == Some(r.error)
                && forall j :: 0 <= j < i ==>
                     StepFailure(eligibleGroups[j] in groups, ElectableDivisor(maxElectable, totalValidators),
                                 j, |groupVotes|).None?
    ensures r.Success? ==> forall g :: g in r.value <==> g in groups
    ensures r.Success? ==> forall g :: g in groups ==>
              VotesApplied(r.value[g], groups[g], g, eligibleGroups, groupVotes,
                           totalValidators, totalLocked, maxElectable)
  {
    var updated := groups;
    for i := 0 to |eligibleGroups|
      invariant VotesUpTo(updated, groups, eligibleGroups, groupVotes, totalValidators, totalLocked,
                          maxElectable, i)
    {
      var groupAddr := eligibleGroups[i];
      if groupAddr !in updated {
        return Failure(UnknownEligibleGroup);
      }
      var capacity := GroupCapacity(updated[groupAddr], totalValidators, totalLocked, maxElectable);
      if capacity.Failure? {
        return Failure(capacity.error);
      }
      if i >= |groupVotes| {
        return Failure(MissingGroupVotes);
      }
      VotesStep(updated, groups, eligibleGroups, groupVotes, totalValidators, totalLocked, maxElectable, i);
      updated := updated[groupAddr := updated[groupAddr].(eligible := true, capacity := capacity.value,
                                                          votes := groupVotes[i])];
    }
    forall g | g in groups
      ensures VotesApplied(updated[g], groups[g], g, eligibleGroups, groupVotes,
                           totalValidators, totalLocked, maxElectable)
    {
      VotesDone(updated, groups, eligibleGroups, groupVotes, totalValidators, totalLocked, maxElectable, g);
    }
    return Success(updated);
  }

  // ---------------------------------------------------------------------------
  // fetchValidatorGroupInfo

  /** The whole assembly of validator groups from the fetched lists, with its four
      explicit failure checks and the failures of the vote-processing loop. On
      success the groups come out in order of first affiliation, each with its name,
      URL, members, and vote fields. */
  method FetchValidatorGroupInfo(validatorAddrs: seq<Address>, electedSigners: seq<Address>,
                                 details: seq<ValidatorRaw>,
                                 groupNames: seq<string>, groupUrls: seq<string>,
                                 eligibleGroups: seq<Address>, groupVotes: seq<int>,
                                 totalLocked: nat, maxElectable: nat)
    returns (r: Result<seq<ValidatorGroup>, FetchError>)
    ensures |validatorAddrs| == 0 ==> r == Failure(NoRegisteredValidators)
    ensures |validatorAddrs| > 0 && |electedSigners| == 0 ==> r == Failure(NoElectedSigners)
    ensures |validatorAddrs| > 0 && |electedSigners| > 0 && |details| != |validatorAddrs| ==>
              r == Failure(ValidatorDetailsMismatch)
    ensures |validatorAddrs| > 0 && |electedSigners| > 0 && |details| == |validatorAddrs| &&
            (|groupNames| != |Dedup(Affiliations(details))| || |groupUrls| != |Dedup(Affiliations(details))|) ==>
              r == Failure(GroupDetailsMismatch)
    ensures r.Success? ==>
              && |validatorAddrs| > 0 && |electedSigners| > 0 && |details| == |validatorAddrs|
              && |groupNames| == |Dedup(Affiliations(details))| == |groupUrls|
    ensures |validatorAddrs| > 0 && |electedSigners| > 0 && |details| == |validatorAddrs| &&
            |groupNames| == |Dedup(Affiliations(details))| == |groupUrls| ==>
              && (r.Success? <==>
                    forall i :: 0 <= i < |eligibleGroups| ==>
                      StepFailure(eligibleGroups[i] in Affiliations(details),
                                  ElectableDivisor(maxElectable, |validatorAddrs|), i, |groupVotes|).None?)
              && (r.Failure? ==>
                    exists i :: 0 <= i < |eligibleGroups|
                      && StepFailure(eligibleGroups[i] in Affiliations(details),
                                     ElectableDivisor(maxElectable, |validatorAddrs|), i, |groupVotes|)
                         == Some(r.error)
                      && forall j :: 0 <= j < i ==>
                           StepFailure(eligibleGroups[j] in Affiliations(details),
                                       ElectableDivisor(maxElectable, |validatorAddrs|), j, |groupVotes|).None?)
    ensures r.Success? ==>
              var order := Dedup(Affiliations(details));
              && |r.value| == |order|
              && forall k :: 0 <= k < |order| ==>
                   && r.value[k].address == order[k]
                   && MembersAssembled(order[k], r.value[k].members, validatorAddrs, details,
                                       electedSigners, |details|)
                   && VotesApplied(r.value[k],
                                   ValidatorGroup(order[k], groupNames[k], groupUrls[k], r.value[k].members,
                                                  false, 0, 0),
                                   order[k], eligibleGroups, groupVotes, |validatorAddrs|, totalLocked,
                                   maxElectable)
  {
    if |validatorAddrs| == 0 {
      return Failure(NoRegisteredValidators);
    }
    if |electedSigners| == 0 {
      return Failure(NoElectedSigners);
    }
    if |validatorAddrs| != |details| {
      return Failure(ValidatorDetailsMismatch);
    }
    var groupAddrs, groups := GroupValidators(validatorAddrs, details, electedSigners);
    if |groupAddrs| != |groupNames| || |groupAddrs| != |groupUrls| {
      return Failure(GroupDetailsMismatch);
    }
    var named := ApplyGroupDetails(groups, groupAddrs, groupNames, groupUrls);
    var voted := ApplyEligibleVotes(named, eligibleGroups, groupVotes, |validatorAddrs|, totalLocked, maxElectable);
    if voted.Failure? {
      return Failure(voted.error);
    }
    r := Success(ValuesInOrder(voted.value, groupAddrs));
  }

  // ---------------------------------------------------------------------------
  // fetchValidatorGroupVotes

  /** The state of the copying loop after its first `n` groups. */
  ghost predicate CopiedUpTo(order: seq<Address>, groupsMap: map<Address, ValidatorGroup>,
                             groups: seq<ValidatorGroup>, n: nat)
    requires n <= |groups|
  {
    && order == Dedup(Addresses(groups)[..n])
    && (forall a :: a in groupsMap <==> a in order)
    && (forall a :: a in groupsMap ==>
          var k := LastIndex(Addresses(groups), a, n);
          0 <= k && groupsMap[a] == groups[k])
  }

  /** One iteration of the copying loop keeps its invariant. */
  lemma CopiedStep(order: seq<Address>, groupsMap: map<Address, ValidatorGroup>,
                   groups: seq<ValidatorGroup>, n: nat)
    requires n < |groups|
    requires CopiedUpTo(order, groupsMap, groups, n)
    ensures var a := groups[n].address;
            CopiedUpTo(if a in groupsMap then order else order + [a], groupsMap[a := groups[n]], groups, n + 1)
  {
    var addrs := Addresses(groups);
    assert addrs[..n + 1][..n] == addrs[..n];
  }

  /** The copying loop of fetchValidatorGroupVotes: a record per distinct address,
      the copy of the last group listed with it, keyed in order of first appearance. */
  method CopyGroups(groups: seq<ValidatorGroup>)
    returns (order: seq<Address>, groupsMap: map<Address, ValidatorGroup>)
    ensures order == Dedup(Addresses(groups))
    ensures forall a :: a in groupsMap <==> a in order
    ensures forall a :: a in groupsMap ==>
              var k := LastIndex(Addresses(groups), a, |groups|);
              0 <= k && groupsMap[a] == groups[k]
  {
    order := [];
    groupsMap := map[];
    for i := 0 to |groups|
      invariant CopiedUpTo(order, groupsMap, groups, i)
    {
      CopiedStep(order, groupsMap, groups, i);
      var group := groups[i];
      if group.address !in groupsMap {
        order := order + [group.address];
      }
      groupsMap := groupsMap[group.address := group];
    }
    assert Addresses(groups)[..|groups|] == Addresses(groups);
  }

  /** The `reduce` of fetchValidatorGroupVotes: the members of all groups, counted. No
      group has more members than the count, and groups without members count zero. */
  function MemberCount(groups: seq<ValidatorGroup>): (c: nat)
    ensures forall i :: 0 <= i < |groups| ==> |groups[i].members| <= c
    ensures (forall i :: 0 <= i < |groups| ==> groups[i].members == map[]) ==> c == 0
  {
    if |groups| == 0 then 0
    else
      var init := groups[..|groups| - 1];
      assert forall i :: 0 <= i < |init| ==> init[i] == groups[i];
      MemberCount(init) + |groups[|groups| - 1].members|
  }

  /** The count over two lists of groups is the sum of their counts. */
  lemma {:induction false} MemberCountAppend(a: seq<ValidatorGroup>, b: seq<ValidatorGroup>)
    ensures MemberCount(a + b) == MemberCount(a) + MemberCount(b)
  {
    if |b| > 0 {
      assert (a + b)[..|a + b| - 1] == a + b[..|b| - 1];
      MemberCountAppend(a, b[..|b| - 1]);
    } else {
      assert a + b == a;
    }
  }

  /** The validator count used for capacities: the member count, unless it is below
      the electable maximum, in which case the registered-validator count fetched then. */
  function TotalValidators(groups: seq<ValidatorGroup>, registeredValidators: nat, maxElectable: nat): (t: nat)
    ensures MemberCount(groups) >= maxElectable ==> t == MemberCount(groups)
    ensures MemberCount(groups) < maxElectable ==> t == registeredValidators
  {
    var counted := MemberCount(groups);
    if counted < maxElectable then registeredValidators else counted
  }

  /** Refreshes the vote fields of already-fetched groups. The result holds one record
      per distinct group address, in order of first appearance; the records of groups
      that are not eligible come out as they went in. The input records are values, so
      they are unchanged. */
  method FetchValidatorGroupVotes(groups: seq<ValidatorGroup>, registeredValidators: nat,
                                  eligibleGroups: seq<Address>, groupVotes: seq<int>,
                                  totalLocked: nat, maxElectable: nat)
    returns (r: Result<seq<ValidatorGroup>, FetchError>)
    ensures var divisor := ElectableDivisor(maxElectable, TotalValidators(groups, registeredValidators, maxElectable));
            && (r.Success? <==>
                  forall i :: 0 <= i < |eligibleGroups| ==>
                    StepFailure(eligibleGroups[i] in Addresses(groups), divisor, i, |groupVotes|).None?)
            && (r.Failure? ==>
                  exists i :: 0 <= i < |eligibleGroups|
                    && StepFailure(eligibleGroups[i] in Addresses(groups), divisor, i, |groupVotes|)
                       == Some(r.error)
                    && forall j :: 0 <= j < i ==>
                         StepFailure(eligibleGroups[j] in Addresses(groups), divisor, j, |groupVotes|).None?)
    ensures r.Success? ==>
              var order := Dedup(Addresses(groups));
              && |r.value| == |order|
              && forall k :: 0 <= k < |order| ==>
                   VotesApplied(r.value[k], groups[LastIndex(Addresses(groups), order[k], |groups|)],
                                order[k], eligibleGroups, groupVotes,
                                TotalValidators(groups, registeredValidators, maxElectable),
                                totalLocked, maxElectable)
  {
    var totalValidators := MemberCount(groups);
    if totalValidators < maxElectable {
      totalValidators := registeredValidators;
    }
    var groupAddrs, groupsMap := CopyGroups(groups);
    var voted := ApplyEligibleVotes(groupsMap, eligibleGroups, groupVotes, totalValidators, totalLocked, maxElectable);
    if voted.Failure? {
      return Failure(voted.error);
    }
    r := Success(ValuesInOrder(voted.value, groupAddrs));
  }

  // ---------------------------------------------------------------------------
  // fetchValidators

  datatype Refresh = FullRefresh | VotesRefresh | NoRefresh

  /** JavaScript truthiness of the stored `lastUpdated` timestamp: null and 0 are false. */
  predicate IsSet(lastUpdated: Option<int>)
  {
    lastUpdated.Some? && lastUpdated.value != 0
  }

  /** What fetchValidators does with the stored groups: refetch everything when forced,
      when there are none, when they carry no timestamp or when the list is stale;
      otherwise refresh only the votes when those are stale; otherwise nothing.
      `isStale(timestamp, staleTime)` is the clock-dependent helper. */
  function RefreshDecision(force: bool, groupCount: nat, lastUpdated: Option<int>,
                           isStale: (int, int) -> bool, listStaleTime: int, votesStaleTime: int)
    : (d: Refresh)
    ensures d == FullRefresh <==>
              force || groupCount == 0 || !IsSet(lastUpdated) || isStale(lastUpdated.value, listStaleTime)
    ensures d == VotesRefresh <==>
              !force && groupCount > 0 && IsSet(lastUpdated) && !isStale(lastUpdated.value, listStaleTime)
              && isStale(lastUpdated.value, votesStaleTime)
    ensures d == NoRefresh ==> !isStale(lastUpdated.value, votesStaleTime)
  {
    if force || groupCount == 0 || !IsSet(lastUpdated) || isStale(lastUpdated.value, listStaleTime) then
      FullRefresh
    else if isStale(lastUpdated.value, votesStaleTime) then
      VotesRefresh
    else
      NoRefresh
  }
}
