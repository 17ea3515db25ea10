/** The records of src/features/validators/types.ts that the core reads and writes.
    Only the fields the core touches are kept. */
module ValidatorTypes {

  type Address = string

  datatype ValidatorStatus = Elected | NotElected

  /** One member validator of a group. */
  datatype Validator = Validator(
    address: Address,
    name: string,
    score: int,
    signer: Address,
    status: ValidatorStatus)

  /** A validator group; `members` is keyed by validator address. */
  datatype ValidatorGroup = ValidatorGroup(
    address: Address,
    name: string,
    url: string,
    members: map<Address, Validator>,
    eligible: bool,
    capacity: int,
    votes: int)

  /** A voter's stake in one group, split into its two buckets. */
  datatype GroupVote = GroupVote(pending: int, active: int)

  /** The voter's stake per group, keyed by normalized group address. */
  type GroupVotes = map<Address, GroupVote>
}
