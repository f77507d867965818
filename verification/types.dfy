/**
 The records the voting widget stores and displays (types/index.ts).
 */
module Types {

  /* The four proposal categories; the set is closed. */
  datatype Category = Prosjekt | Funksjonalitet | Forbedring | Annet

  /* An ISO-8601 instant as written by `Date.prototype.toISOString`. The model
     never inspects one: it is carried along as opaque text. */
  type Timestamp = string

  /* A proposal users can vote on. `votes` is the only field any operation
     changes. The creation instant of the source record is not modelled. */
  datatype VotingItem = VotingItem(
    id: string,
    title: string,
    description: string,
    category: Category,
    votes: int)

  /* One entry of the current user's ledger: the item voted for, and when. */
  datatype UserVote = UserVote(itemId: string, votedAt: Timestamp)
}
