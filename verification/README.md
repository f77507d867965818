# Avstemming voting widget: vote ledger, catalog and result views in Dafny

This project models the vote-accounting core of the Avstemming voting widget
and proves properties of it. Avstemming is a single-page Next.js app in which
one user browses six proposals, votes at most once per proposal, and views the
results ranked by popularity.

The browser's key-value storage holds two records:

- the item catalog, under `voting-items`;
- the user's vote ledger, under `user-votes`.

The model represents storage as `VotingData.Store`, a value with one
`Option<seq<…>>` field per key, where `None` means the key is absent. Every
operation of `lib/voting-data.ts` is a pure function from the store before
to the store after:

- `getVotingItems`, which seeds the six-item catalog on first read;
- `saveVotingItems`;
- `getUserVotes`;
- `hasUserVoted`;
- `addVote`;
- `removeVote`;
- `resetAllData`.

The two screens are modelled by the pure computations they perform:

- `HomePage` (`app/page.tsx`) covers the category filter, the voted-id set,
  and the effect of a vote click.
- `ResultsPage` (`app/resultater/page.tsx`) covers the ranking, the largest
  and total counts, each item's bar length and rounded share, and the "most
  popular" card.

Files:

- `wrappers.dfy`: `Option`.
- `seqs.dfy`: an order-preserving `Filter`, `Any` (JavaScript's `some`) and
  `FindFirst` (JavaScript's `find`), each with its relational specification.
- `types.dfy`: `Category`, `VotingItem` and `UserVote`, from `types/index.ts`.
- `voting_data.dfy`: the store, its operations, and their invariants. Here an
  absent catalog reads as a fresh copy of the seed catalog.
- `shared_seed.dfy`: the store operations as the source runs them, with the
  module's `initialVotingItems` array as part of the state (see Findings).
- `home_page.dfy`: the voting list screen.
- `results_page.dfy`: the results screen.

Main results:

- Casting and retracting are the two transitions of a per-item two-state
  machine. Repeating either one is a no-op, and neither changes any other
  item's status.
- Take a stored catalog with no negative count and an item the user has not
  yet voted for. Casting a vote for it and then retracting that vote restores
  the catalog, and restores the ledger as read. The stored ledger record is
  restored exactly when its key was present; an absent key comes back as an
  empty ledger.
- With a read that hands out a fresh copy of the seed catalog, every store
  reachable from empty storage through reads, casts, retracts and resets is
  `Consistent`:
  - the ledger has at most one entry per item;
  - catalog ids are distinct;
  - each item's count equals its number of ledger entries, so no count is
    ever negative.
- As the source is written, the read hands out the shared seed array itself,
  and this invariant fails after a cast, a reset and a read (see Findings).
  Counts still never go negative.
- The ranking is a permutation of the catalog, sorted by descending count, in
  which items with equal counts keep their catalog order. Any ranking with
  these properties equals `Rank`. This is the result a stable
  `Array.prototype.sort` produces, and `sort` is stable from ES2019 onwards.
- The "most popular" card shows the first catalog item that has the largest
  count.
- Every bar length and every rounded share lies in [0, 100].

Points where the model follows the exact behaviour of the code:

- `removeVote` drops every ledger entry for the id, not just one.
- `addVote` and `removeVote` read the catalog through `getVotingItems`. If the
  catalog key is absent, they write the seed catalog even when no item
  matches.
- `Math.round` rounds halves up. It is neither half-away-from-zero nor
  half-to-even, so the model rounds halves up too.
- `items[0]?.title || 'N/A'` also shows 'N/A' for a leader whose title is
  empty.
- The count-equals-ledger invariant is not kept by every store. Every store
  reachable from empty storage satisfies `Consistent`, which includes it, but
  only with the copying read.

## Model

| member | source | states |
|---|---|---|
| `Seqs.Filter` | lib/voting-data.ts:122 | the result keeps exactly the elements that pass the test, is no longer than the input, and keeps them in input order (`FilterIsFilterOf`) |
| `Seqs.FilterIsFilterOf` | app/page.tsx:34 | `Array.prototype.filter` keeps every occurrence of each passing element and nothing else, in input order |
| `Seqs.FilterOfIsUnique` | app/page.tsx:34 | exactly one sequence keeps the passing elements in order, so the `IsFilterOf` specification fully determines the filter |
| `Seqs.Any` | lib/voting-data.ts:89 | `some` is true iff some position holds an element that passes the test |
| `Seqs.FindFirst` | lib/voting-data.ts:106 | `find` fails iff no element passes; otherwise it returns the first position whose element passes |
| `Seqs.FilterHeadIsFirstMatch` | app/resultater/page.tsx:35 | a filter's first element is the first element of the input that passes the test |
| `VotingData.InitialCatalogShape` | lib/voting-data.ts:7-56 | the seed catalog has 6 items with distinct ids, all with 0 votes |
| `VotingData.GetVotingItems` | lib/voting-data.ts:59-69 | after a read the catalog key holds what was returned; the ledger is untouched; a present catalog (even an empty one) is returned unchanged and nothing is written; an absent one reads as the seed |
| `VotingData.GetVotingItemsIdempotent` | lib/voting-data.ts:62-68 | a second read neither writes nor returns anything different, so the seed is written at most once |
| `VotingData.SaveVotingItems` | lib/voting-data.ts:72-75 | saving replaces the catalog record and leaves the ledger alone |
| `VotingData.SaveThenGet` | lib/voting-data.ts:62-75 | a read after a save returns what was saved and writes nothing, even for an empty catalog |
| `VotingData.GetUserVotesReadsBack` | lib/voting-data.ts:78-84 | the ledger reads back as written, as empty when its key is absent, and independently of the catalog record |
| `VotingData.HasUserVoted` | lib/voting-data.ts:87-90 | true iff some ledger entry carries the id; an absent ledger has no entries |
| `VotingData.CountVote` | lib/voting-data.ts:105-110 | after a read, the first item carrying the id gains one vote and is saved; the ledger is untouched; with no matching item the catalog is unchanged |
| `VotingData.UncountVote` | lib/voting-data.ts:126-131 | after a read, the first item carrying the id loses one vote and is saved if it has a vote to lose; otherwise the catalog is unchanged |
| `VotingData.AddVote` | lib/voting-data.ts:93-111 | if the id is already voted nothing changes; otherwise exactly one entry for the id is appended to the ledger, and only the first catalog item with that id gains one vote (the catalog is unchanged when no item matches, and seeded first if absent) |
| `VotingData.RemoveVote` | lib/voting-data.ts:114-132 | if the id is not voted nothing changes; otherwise the ledger keeps exactly the entries for other ids, in order, and only the first item with that id loses one vote, and only if it has a vote to lose |
| `VotingData.ResetThenRead` | lib/voting-data.ts:135-139 | after a reset both keys are absent, the ledger reads as empty, nobody has voted, and the store is consistent; with the copying read the next catalog read yields the declared seed catalog |
| `VotingData.VotedAfterAdd` | lib/voting-data.ts:96-102 | after a cast the id is voted and every other id keeps its status |
| `VotingData.VotedAfterRemove` | lib/voting-data.ts:117-123 | after a retract the id is not voted and every other id keeps its status |
| `VotingData.AddVoteIdempotent` | lib/voting-data.ts:96-97 | casting twice is casting once, whatever the second timestamp |
| `VotingData.RemoveVoteIdempotent` | lib/voting-data.ts:117-118 | retracting twice is retracting once |
| `VotingData.AddVoteKeepsUniqueVoteIds` | lib/voting-data.ts:96-102 | casting keeps at most one ledger entry per id |
| `VotingData.RemoveVoteKeepsUniqueVoteIds` | lib/voting-data.ts:117-123 | retracting keeps at most one ledger entry per id |
| `VotingData.AddVoteKeepsNonNegative` | lib/voting-data.ts:104-110 | casting never makes a count negative |
| `VotingData.RemoveVoteKeepsNonNegative` | lib/voting-data.ts:125-131 | the `votes > 0` guard means retracting never makes a count negative |
| `VotingData.UniqueVoteCount` | lib/voting-data.ts:87-90 | with one entry per id at most, an id's ledger count is 1 if voted and 0 if not |
| `VotingData.IncrementedMatchesLedger` | lib/voting-data.ts:99-110 | one more vote on the first matching item keeps every count equal to its ledger entries after one entry is appended |
| `VotingData.DecrementedMatchesLedger` | lib/voting-data.ts:120-131 | one vote fewer on the first matching item keeps every count equal to its ledger entries after the id's entry is dropped |
| `VotingData.GetVotingItemsKeepsConsistent` | lib/voting-data.ts:62-66 | seeding on read keeps the store consistent |
| `VotingData.AddVoteKeepsConsistent` | lib/voting-data.ts:93-111 | casting keeps the store consistent |
| `VotingData.RemoveVoteKeepsConsistent` | lib/voting-data.ts:114-132 | retracting keeps the store consistent |
| `VotingData.RunKeepsConsistent` | lib/voting-data.ts:59-139 | any sequence of reads, casts, retracts and resets keeps the store consistent and every count non-negative |
| `VotingData.CastThenRetract` | lib/voting-data.ts:93-132 | from a stored catalog with no negative count and an unvoted id, cast then retract restores the catalog and the ledger as read, and restores the store exactly when the ledger key was present |
| `SharedSeed.SharedRead` | lib/voting-data.ts:62-68 | as written: a present catalog is read as in the copying model; an absent key is filled with the seed array as it is now, and that array itself is returned |
| `SharedSeed.SharedAddVote` | lib/voting-data.ts:93-111 | as written: the ledger changes as in the copying model; on an absent catalog the incremented catalog is both stored and left in the seed array; a stored catalog leaves the seed alone |
| `SharedSeed.SharedRemoveVote` | lib/voting-data.ts:114-132 | as written: the ledger changes as in the copying model; on an absent catalog the decremented catalog is both stored and left in the seed array |
| `SharedSeed.SharedReset` | lib/voting-data.ts:135-139 | a reset removes both keys and leaves the seed array as it is |
| `SharedSeed.Seeded` | lib/voting-data.ts:63-66 | writing the current seed gives a stored catalog; a present catalog is left as it is |
| `SharedSeed.SharedAddVoteIsSeededAddVote` | lib/voting-data.ts:93-111 | a cast as written is the copying cast on storage with the current seed written in, equals it outright on a stored catalog, and always leaves the same ledger |
| `SharedSeed.SharedRemoveVoteIsSeededRemoveVote` | lib/voting-data.ts:114-132 | a retract as written is the copying retract on storage with the current seed written in, equals it outright on a stored catalog, and always leaves the same ledger |
| `SharedSeed.SharedApplyMatchesCopy` | lib/voting-data.ts:59-139 | every operation leaves the same ledger under both readings, and the same storage while the seed array still holds the declared catalog |
| `SharedSeed.SharedSeedChangesOnlyWhenAbsent` | lib/voting-data.ts:63-66 | reads, resets, and casts or retracts on a stored catalog leave the seed array unchanged |
| `SharedSeed.SharedSeedBreaksConsistency` | lib/voting-data.ts:63-66 | from empty storage, cast "1", reset, read: the copying model ends consistent, but as written item "1" is re-seeded with 1 vote next to an empty ledger, which is not consistent |
| `SharedSeed.SharedRunKeepsNonNegative` | lib/voting-data.ts:125-131 | as written, any sequence of operations keeps every count in the seed array and in the catalog read non-negative |
| `SharedSeed.FreshSessionNonNegative` | lib/voting-data.ts:7-56 | on page load neither the seed array nor the catalog read has a negative count |
| `HomePage.FilteredItems` | app/page.tsx:32-34 | `'alle'` returns the items unchanged; a category returns exactly the items of that category in catalog order; the result is a subsequence and no longer than the input |
| `HomePage.FilterExample` | app/page.tsx:32-34 | filtering [project, feature, project, other] by project yields the first and third items |
| `HomePage.VotedIds` | app/page.tsx:20-23 | the initial voted set contains exactly the ids the ledger holds a vote for |
| `HomePage.MarkVoted` | app/page.tsx:28 | the id joins the set, no other id joins, and none leaves |
| `HomePage.MarkVotedIdempotent` | app/page.tsx:28 | marking an id twice is marking it once |
| `HomePage.Mount` | app/page.tsx:18-24 | after mounting, the screen holds the store the catalog read of the given storage left (seeded if the catalog was absent), shows that catalog, and marks as voted exactly the ids the given storage's ledger holds a vote for |
| `HomePage.HandleVoteKeepsSynced` | app/page.tsx:26-30 | after a click the screen holds the store `addVote` and the re-read left and shows the catalog `addVote` left: one more vote on the clicked item if it was unvoted, otherwise unchanged; the voted set still matches the ledger |
| `HomePage.HandleVoteDisablesCard` | app/page.tsx:26-30 | a click disables the clicked card, leaves every other card's state alone, and keeps the chip selection |
| `HomePage.CardDisabledMatchesLedger` | app/page.tsx:93 | on a synced screen a card's button is disabled iff the ledger holds a vote for its item |
| `HomePage.VisibleItemsFromCatalog` | app/page.tsx:89 | whichever category is chosen, the cards shown are a subsequence of the stored catalog, and all of it for `'alle'` |
| `HomePage.SelectCategoryShows` | app/page.tsx:73 | a chip click changes only the selection, keeps the screen synced, and for a category shows exactly that category's items of the stored catalog, in catalog order |
| `ResultsPage.Insert` | app/resultater/page.tsx:35 | inserting into a ranking yields a ranking holding one more item |
| `ResultsPage.Rank` | app/resultater/page.tsx:35 | the ranking is a permutation of the catalog with non-increasing counts |
| `ResultsPage.RankSameOrderWithinCounts` | app/resultater/page.tsx:35 | items with equal counts keep their catalog order |
| `ResultsPage.RankingIsUnique` | app/resultater/page.tsx:35 | two descending rankings that agree on the order within every count are equal |
| `ResultsPage.StableSortIsRank` | app/resultater/page.tsx:35 | any stable sort by descending count yields `Rank` |
| `ResultsPage.RankingExample` | app/resultater/page.tsx:35 | counts [3, 5, 5, 1] rank as items 2, 3, 1, 4 |
| `ResultsPage.MaxVotesIsLargest` | app/resultater/page.tsx:37 | `maxVotes` is 0 for an empty catalog and otherwise the largest count of any item |
| `ResultsPage.TotalVotesConcat` | app/resultater/page.tsx:40 | the total of two lists put together is the sum of their totals |
| `ResultsPage.TotalVotesPermutation` | app/resultater/page.tsx:40 | the total does not depend on item order, so the total over the ranking is the catalog's total |
| `ResultsPage.TotalVotesBounds` | app/resultater/page.tsx:40 | with no negative count the total is non-negative and at least every single count |
| `ResultsPage.PercentOfMax` | app/resultater/page.tsx:99 | the bar is 0 when `maxVotes` is not positive, lies in [0, 100] for a count between 0 and the maximum, is 100 for a count equal to the maximum, and is proportional to the count |
| `ResultsPage.ShareOfTotal` | app/resultater/page.tsx:135 | the share is 0 when the total is not positive and lies in [0, 100] for a count between 0 and the total |
| `ResultsPage.ShareIsNearest` | app/resultater/page.tsx:135 | for a positive total the share is the integer nearest to 100·votes/total, with halves rounded up |
| `ResultsPage.MostPopular` | app/resultater/page.tsx:90-91 | an empty ranking shows 'N/A' with 0 votes |
| `ResultsPage.MostPopularIsLeader` | app/resultater/page.tsx:90-91 | the card shows `maxVotes`; an empty catalog shows 'N/A'; otherwise it shows the title ('N/A' if empty) of the first catalog item with the largest count, every earlier item having fewer votes |
| `ResultsPage.FirstLeader` | app/resultater/page.tsx:90 | the first-ranked item is the first catalog item with the largest count: every item before it has fewer votes |
| `ResultsPage.Rows` | app/resultater/page.tsx:98-99 | one row per ranked item, in ranking order, numbered from 1, each with the bar length and the rounded share computed from that row's own count |
| `ResultsPage.LoadResultsShape` | app/resultater/page.tsx:32-40 | the mount effect reads the catalog (seeding it if absent), ranks it by a stable descending sort, takes as `maxVotes` the largest count (0 when empty), totals the catalog, makes one row per item, and the card shows the head of that ranking |
| `ResultsPage.RankFigures` | app/resultater/page.tsx:35-40 | the ranking is a stable descending sort of the catalog, its head count is the catalog's largest count, and its total is the catalog's total |
| `ResultsPage.RankedCountsBounded` | app/resultater/page.tsx:33-40 | with no negative count, every ranked count lies between 0 and both `maxVotes` and the total, and `maxVotes` is at most the total |
| `ResultsPage.ResultsFiguresInRange` | app/resultater/page.tsx:98-135 | with no negative count in the stored catalog, every bar and every share on the screen lies in [0, 100], and the total shown is the catalog's total |
| `ResultsPage.ResultsLeaderAndNoVotes` | app/resultater/page.tsx:99 | the first-ranked bar is 100 unless nobody has voted; with no votes every bar and share is 0 |

## Left out

- Storage I/O. `localStorage` and `JSON.stringify`/`JSON.parse` are replaced
  by the two-field `Store` value.
- Corrupt stored text. `JSON.parse` would throw on it, and the source has no
  handling for this case.
- The server-side-rendering early returns (`typeof window === 'undefined'`).
  These are environment checks, not vote logic.
- `createdAt` on `VotingItem`. It is the module-load instant, and no
  operation reads or changes it, so the field is dropped.
- `votedAt`. It is kept as opaque text, passed to `AddVote` as `now` in place
  of `new Date().toISOString()`.
- `resetAllData`: `ResetAllData` has no contract of its own. Its effect is
  stated by `ResetThenRead`.
- React state, effects and rendering. The model keeps only the state the
  screens hold (`Page`, `Results`), not JSX, styling, the rank badges or the
  card component, beyond the card's `disabled={hasVoted}`.
- PercentOfMax: uses exact real division instead of IEEE-754 doubles, so
  rounding error in `(votes / maxVotes) * 100` is not modelled.
- ShareOfTotal: uses exact integer arithmetic `(200·votes + total) div
  (2·total)` for `Math.round((votes / total) * 100)`. The floating-point
  value is not modelled, so a quotient that lands within rounding error of
  a half may round the other way in the source.
- TotalVotes: counts are unbounded integers. Double precision limits on
  counts above 2^53 are not modelled.
- AddVote: the `+= 1` on a double count is modelled as an unbounded integer
  increment.
- Concurrency between browser tabs sharing the same storage. The source
  assumes a single writer.
- GetVotingItems: an absent catalog reads as a fresh copy of the seed
  catalog. The source returns the shared `initialVotingItems` array itself;
  that behaviour is `SharedSeed.SharedRead` (see Findings).
- AddVote: on an absent catalog, the in-place increment of the shared seed
  array is not part of this member; `SharedSeed.SharedAddVote` models it.
- RemoveVote: likewise, the in-place decrement of the shared seed array is
  modelled by `SharedSeed.SharedRemoveVote` only.
- GetVotingItemsKeepsConsistent: proved for the copying read. As written, a
  read after a reset can write counts an earlier cast left in the shared
  seed array (`SharedSeed.SharedSeedBreaksConsistency`).
- AddVoteKeepsConsistent: proved for the copying read. As written, a cast on
  an absent catalog whose shared seed an earlier cast has changed can leave
  counts above the ledger's.
- RunKeepsConsistent: proved for the copying read. As written, only the
  non-negative half holds (`SharedSeed.SharedRunKeepsNonNegative`).
- ResetThenRead: the "next read yields the declared seed" clause holds for
  the copying read only. As written, the next read yields the seed array as
  earlier casts and retracts left it.

## Findings

| source | as written | input that shows it | evidently intended | confidence | as-written member | corrected member |
|---|---|---|---|---|---|---|
| lib/voting-data.ts:63-66 | with the catalog key absent, `getVotingItems` returns the module's `initialVotingItems` array itself; `addVote` (:105-108) and `removeVote` (:126-129) then change it in place, and `resetAllData` does not restore it | empty storage, `addVote('1')`, `resetAllData()`, `getVotingItems()`: item '1' is re-seeded with 1 vote while the ledger is empty | a reset returns to the declared six items with 0 votes each, so every count keeps matching the ledger; this needs the read to return a copy of the seed | high (not executed) | `SharedSeed.SharedSeedBreaksConsistency` | `VotingData.RunKeepsConsistent` |

The screens never call `resetAllData`, which the source marks as meant for
testing, and they call `addVote` only after their own mount read has seeded
the catalog key. The input above is therefore reached through the library's
exported functions, or by clearing the site's storage while a page stays
open, not through the voting screens alone.
