/**
 The vote ledger and item catalog (lib/voting-data.ts).

 The browser's key-value storage holds two records: the catalog under
 `voting-items` and the current user's ledger under `user-votes`. The store is
 modelled as a value with one optional field per key (`None` when the key is
 absent), and every operation of the source as a pure function from the store
 before to the store after (and to whatever the operation returns).
 */
module VotingData {

  import opened Wrappers
  import opened Seqs
  import opened Types

  /* The two storage records; `None` means the key is absent. */
  datatype Store = Store(items: Option<seq<VotingItem>>, votes: Option<seq<UserVote>>)

  /* Storage on first visit, and after a reset. */
  const EmptyStore := Store(None, None)

  /* The catalog written on first read (`initialVotingItems`). */
  const InitialVotingItems: seq<VotingItem> := [
    VotingItem("1", "Mørk modus i hele plattformen",
      "Implementer dark mode for å redusere øyebelastning ved langt arbeid",
      Funksjonalitet, 0),
    VotingItem("2", "Mobilapp for iOS og Android",
      "Utvikle native mobilapp for bedre tilgjengelighet på farten",
      Prosjekt, 0),
    VotingItem("3", "Slack-integrasjon",
      "Automatiske notifikasjoner og oppdateringer direkte i Slack",
      Funksjonalitet, 0),
    VotingItem("4", "Forbedret søkefunksjon",
      "Mer avansert søk med filtre og autocomplete",
      Forbedring, 0),
    VotingItem("5", "API for tredjeparts integrasjoner",
      "Åpent API for å koble til eksterne systemer",
      Prosjekt, 0),
    VotingItem("6", "Eksport til Excel/CSV",
      "Mulighet for å eksportere data til regneark",
      Funksjonalitet, 0)
  ]

  /* The tests the source passes to `find`, `some` and `filter`. */
  function HasId(id: string): VotingItem -> bool
  {
    (i: VotingItem) => i.id == id
  }

  function VoteFor(id: string): UserVote -> bool
  {
    (v: UserVote) => v.itemId == id
  }

  function VoteNotFor(id: string): UserVote -> bool
  {
    (v: UserVote) => v.itemId != id
  }

  /* What a read returns, with the store as the read left it. */
  datatype Loaded = Loaded(store: Store, items: seq<VotingItem>)

  /* `getVotingItems`: the stored catalog, or the seed catalog, which is then
     written so that later reads find it. */
  function GetVotingItems(s: Store): (r: Loaded)
    ensures r.store.items == Some(r.items)
    ensures r.store.votes == s.votes
    ensures s.items.Some? ==> r.store == s && r.items == s.items.value
    ensures s.items.None? ==> r.items == InitialVotingItems
  {
    match s.items
    case None => Loaded(s.(items := Some(InitialVotingItems)), InitialVotingItems)
    case Some(items) => Loaded(s, items)
  }

  /* The catalog a read of `s` returns. */
  function Catalog(s: Store): seq<VotingItem>
  {
    GetVotingItems(s).items
  }

  /* `saveVotingItems`: overwrite the catalog record. */
  function SaveVotingItems(s: Store, items: seq<VotingItem>): (r: Store)
    ensures r.items == Some(items)
    ensures r.votes == s.votes
  {
    s.(items := Some(items))
  }

  /* `getUserVotes`: the ledger; an absent key reads as the empty ledger. */
  function GetUserVotes(s: Store): seq<UserVote>
  {
    s.votes.UnwrapOr([])
  }

  /* `hasUserVoted`. */
  function HasUserVoted(s: Store, id: string): (r: bool)
    ensures r <==> exists k :: 0 <= k < |GetUserVotes(s)| && GetUserVotes(s)[k].itemId == id
  {
    Any(GetUserVotes(s), VoteFor(id))
  }

  /* `after` is `before` with one more vote on the first item carrying `id`. */
  ghost predicate Incremented(before: seq<VotingItem>, after: seq<VotingItem>, id: string)
  {
    && |after| == |before|
    && forall k :: 0 <= k < |before| ==>
         after[k] == if IsFirstMatch(before, HasId(id), k)
                     then before[k].(votes := before[k].votes + 1)
                     else before[k]
  }

  /* `after` is `before` with one vote fewer on the first item carrying `id`,
     provided that item has a vote to lose. */
  ghost predicate Decremented(before: seq<VotingItem>, after: seq<VotingItem>, id: string)
  {
    && |after| == |before|
    && forall k :: 0 <= k < |before| ==>
         after[k] == if IsFirstMatch(before, HasId(id), k) && before[k].votes > 0
                     then before[k].(votes := before[k].votes - 1)
                     else before[k]
  }

  /* One more vote on the first item of a catalog just read that carries `id`,
     saved; the store as the read left it when no item carries `id`. */
  function CountVote(loaded: Loaded, id: string): (r: Store)
    requires loaded.store.items == Some(loaded.items)
    ensures r.votes == loaded.store.votes
    ensures r.items.Some? && Incremented(loaded.items, r.items.value, id)
  {
    var items := loaded.items;
    match FindFirst(items, HasId(id))
    case None =>
      loaded.store
    case Some(k) =>
      SaveVotingItems(loaded.store, items[k := items[k].(votes := items[k].votes + 1)])
  }

  /* One vote fewer on the first item of a catalog just read that carries
     `id`, saved, provided that item has a vote to lose; otherwise the store
     as the read left it. */
  function UncountVote(loaded: Loaded, id: string): (r: Store)
    requires loaded.store.items == Some(loaded.items)
    ensures r.votes == loaded.store.votes
    ensures r.items.Some? && Decremented(loaded.items, r.items.value, id)
  {
    var items := loaded.items;
    var found := FindFirst(items, HasId(id));
    if found.Some? && items[found.value].votes > 0 then
      var k := found.value;
      SaveVotingItems(loaded.store, items[k := items[k].(votes := items[k].votes - 1)])
    else
      loaded.store
  }

  /* `addVote`: a no-op when the user already voted for `id`; otherwise append
     a ledger entry stamped `now`, then read the catalog (seeding it if absent)
     and count one more vote on the first item carrying `id`. */
  function AddVote(s: Store, id: string, now: Timestamp): (r: Store)
    ensures HasUserVoted(s, id) ==> r == s
    ensures !HasUserVoted(s, id) ==>
              && r.votes == Some(GetUserVotes(s) + [UserVote(id, now)])
              && r.items.Some?
              && Incremented(Catalog(s), r.items.value, id)
  {
    if HasUserVoted(s, id) then s
    else
      var ledger := GetUserVotes(s) + [UserVote(id, now)];
      CountVote(GetVotingItems(s.(votes := Some(ledger))), id)
  }

  /* `removeVote`: a no-op when the user has not voted for `id`; otherwise drop
     every ledger entry for `id`, then read the catalog (seeding it if absent)
     and take one vote off the first item carrying `id` if it has any. */
  function RemoveVote(s: Store, id: string): (r: Store)
    ensures !HasUserVoted(s, id) ==> r == s
    ensures HasUserVoted(s, id) ==>
              && r.votes.Some?
              && IsFilterOf(r.votes.value, GetUserVotes(s), VoteNotFor(id))
              && r.items.Some?
              && Decremented(Catalog(s), r.items.value, id)
  {
    if !HasUserVoted(s, id) then s
    else
      var ledger := Filter(GetUserVotes(s), VoteNotFor(id));
      FilterIsFilterOf(GetUserVotes(s), VoteNotFor(id));
      UncountVote(GetVotingItems(s.(votes := Some(ledger))), id)
  }

  /* `resetAllData`: remove both keys. */
  function ResetAllData(s: Store): Store
  {
    EmptyStore
  }

  /* ----- Invariants ----- */

  /* At most one ledger entry per item. */
  ghost predicate UniqueVoteIds(ledger: seq<UserVote>)
  {
    forall i, j :: 0 <= i < j < |ledger| ==> ledger[i].itemId != ledger[j].itemId
  }

  /* No two catalog items share an id. */
  ghost predicate UniqueItemIds(items: seq<VotingItem>)
  {
    forall i, j :: 0 <= i < j < |items| ==> items[i].id != items[j].id
  }

  ghost predicate NonNegative(items: seq<VotingItem>)
  {
    forall k :: 0 <= k < |items| ==> items[k].votes >= 0
  }

  /* The number of ledger entries for `id`. */
  function VoteCount(ledger: seq<UserVote>, id: string): nat
  {
    |Filter(ledger, VoteFor(id))|
  }

  /* The state every sequence of operations from an empty store keeps: the
     ledger has one entry per item at most, a ledger entry implies a catalog,
     catalog ids are distinct, and each item's count is its number of ledger
     entries. */
  ghost predicate Consistent(s: Store)
  {
    && UniqueVoteIds(GetUserVotes(s))
    && match s.items
       case None => GetUserVotes(s) == []
       case Some(items) =>
         && UniqueItemIds(items)
         && forall k :: 0 <= k < |items| ==> items[k].votes == VoteCount(GetUserVotes(s), items[k].id)
  }

  /* ----- Reading, seeding, saving, resetting ----- */

  lemma InitialCatalogShape()
    ensures |InitialVotingItems| == 6
    ensures forall k :: 0 <= k < 6 ==> InitialVotingItems[k].votes == 0
    ensures UniqueItemIds(InitialVotingItems)
  {
  }

  /* The ledger reads back as written, and as empty once its key is gone;
     the catalog record plays no part. */
  lemma GetUserVotesReadsBack(s: Store, ledger: seq<UserVote>, items: Option<seq<VotingItem>>)
    ensures GetUserVotes(s.(votes := Some(ledger))) == ledger
    ensures GetUserVotes(s.(votes := None)) == []
    ensures GetUserVotes(s.(items := items)) == GetUserVotes(s)
  {
  }

  /* A second read neither writes nor returns anything different. */
  lemma GetVotingItemsIdempotent(s: Store)
    ensures GetVotingItems(GetVotingItems(s).store) == GetVotingItems(s)
  {
  }

  /* A read after a save returns what was saved and writes nothing, even when
     what was saved is the empty catalog. */
  lemma SaveThenGet(s: Store, items: seq<VotingItem>)
    ensures GetVotingItems(SaveVotingItems(s, items)).items == items
    ensures GetVotingItems(SaveVotingItems(s, items)).store == SaveVotingItems(s, items)
  {
  }

  /* After a reset both keys are gone: the next catalog read reseeds, the
     ledger reads as empty, and nobody has voted for anything. */
  lemma ResetThenRead(s: Store, id: string)
    ensures ResetAllData(s).items.None? && ResetAllData(s).votes.None?
    ensures GetVotingItems(ResetAllData(s)).items == InitialVotingItems
    ensures GetUserVotes(ResetAllData(s)) == []
    ensures !HasUserVoted(ResetAllData(s), id)
    ensures Consistent(ResetAllData(s))
  {
  }

  /* ----- The per-item two-state machine ----- */

  /* Casting a vote marks `id` as voted and changes nobody else's status. */
  lemma VotedAfterAdd(s: Store, id: string, now: Timestamp, x: string)
    ensures HasUserVoted(AddVote(s, id, now), x) <==> HasUserVoted(s, x) || x == id
  {
    if !HasUserVoted(s, id) {
      var ledger := GetUserVotes(AddVote(s, id, now));
      assert ledger[|ledger| - 1].itemId == id;
      if HasUserVoted(s, x) {
        var k :| 0 <= k < |GetUserVotes(s)| && GetUserVotes(s)[k].itemId == x;
        assert ledger[k].itemId == x;
      }
    }
  }

  /* Retracting a vote marks `id` as not voted and changes nobody else's status. */
  lemma VotedAfterRemove(s: Store, id: string, x: string)
    ensures HasUserVoted(RemoveVote(s, id), x) <==> HasUserVoted(s, x) && x != id
  {
    if HasUserVoted(s, id) {
      var before := GetUserVotes(s);
      var after := GetUserVotes(RemoveVote(s, id));
      FilterIsFilterOf(before, VoteNotFor(id));
      if HasUserVoted(RemoveVote(s, id), x) {
        var k :| 0 <= k < |after| && after[k].itemId == x;
        assert after[k] in multiset(after);
        assert after[k] in before;
      }
      if HasUserVoted(s, x) && x != id {
        var k :| 0 <= k < |before| && before[k].itemId == x;
        assert before[k] in multiset(before);
        assert before[k] in multiset(after);
        assert before[k] in after;
      }
    }
  }

  /* Casting twice is casting once. */
  lemma AddVoteIdempotent(s: Store, id: string, now: Timestamp, later: Timestamp)
    ensures AddVote(AddVote(s, id, now), id, later) == AddVote(s, id, now)
  {
    VotedAfterAdd(s, id, now, id);
  }

  /* Retracting twice is retracting once. */
  lemma RemoveVoteIdempotent(s: Store, id: string)
    ensures RemoveVote(RemoveVote(s, id), id) == RemoveVote(s, id)
  {
    VotedAfterRemove(s, id, id);
  }

  /* ----- Ledger uniqueness and non-negative counts ----- */

  lemma {:induction false} FilterKeepsUniqueVoteIds(ledger: seq<UserVote>, p: UserVote -> bool)
    requires UniqueVoteIds(ledger)
    ensures UniqueVoteIds(Filter(ledger, p))
    decreases |ledger|
  {
    if |ledger| > 0 {
      var rest := Filter(ledger[1..], p);
      FilterKeepsUniqueVoteIds(ledger[1..], p);
      forall j | 0 <= j < |rest|
        ensures rest[j].itemId != ledger[0].itemId
      {
        assert rest[j] in ledger[1..];
        var i :| 0 <= i < |ledger[1..]| && ledger[1..][i] == rest[j];
        assert ledger[i + 1] == rest[j];
      }
    }
  }

  /* Casting keeps at most one ledger entry per item. */
  lemma AddVoteKeepsUniqueVoteIds(s: Store, id: string, now: Timestamp)
    requires UniqueVoteIds(GetUserVotes(s))
    ensures UniqueVoteIds(GetUserVotes(AddVote(s, id, now)))
  {
  }

  /* Retracting keeps at most one ledger entry per item. */
  lemma RemoveVoteKeepsUniqueVoteIds(s: Store, id: string)
    requires UniqueVoteIds(GetUserVotes(s))
    ensures UniqueVoteIds(GetUserVotes(RemoveVote(s, id)))
  {
    if HasUserVoted(s, id) {
      FilterKeepsUniqueVoteIds(GetUserVotes(s), VoteNotFor(id));
    }
  }

  /* Casting never makes a count negative. */
  lemma AddVoteKeepsNonNegative(s: Store, id: string, now: Timestamp)
    requires NonNegative(Catalog(s))
    ensures NonNegative(Catalog(AddVote(s, id, now)))
  {
  }

  /* Retracting never makes a count negative: a count of zero is left alone. */
  lemma RemoveVoteKeepsNonNegative(s: Store, id: string)
    requires NonNegative(Catalog(s))
    ensures NonNegative(Catalog(RemoveVote(s, id)))
  {
  }

  /* ----- Counts agree with the ledger ----- */

  /* `items` have distinct ids and each count is that item's number of ledger entries. */
  ghost predicate CountsMatch(items: seq<VotingItem>, ledger: seq<UserVote>)
  {
    && UniqueItemIds(items)
    && forall k :: 0 <= k < |items| ==> items[k].votes == VoteCount(ledger, items[k].id)
  }

  lemma ConsistentCatalog(s: Store)
    requires Consistent(s)
    ensures CountsMatch(Catalog(s), GetUserVotes(s))
  {
  }

  lemma VoteCountAppend(ledger: seq<UserVote>, v: UserVote, x: string)
    ensures VoteCount(ledger + [v], x) == VoteCount(ledger, x) + (if v.itemId == x then 1 else 0)
  {
    FilterConcat(ledger, [v], VoteFor(x));
  }

  lemma {:induction false} VoteCountAfterRemove(ledger: seq<UserVote>, id: string, x: string)
    ensures VoteCount(Filter(ledger, VoteNotFor(id)), x) == if x == id then 0 else VoteCount(ledger, x)
    decreases |ledger|
  {
    if |ledger| > 0 {
      VoteCountAfterRemove(ledger[1..], id, x);
      var head := if ledger[0].itemId != id then [ledger[0]] else [];
      assert Filter(ledger, VoteNotFor(id)) == head + Filter(ledger[1..], VoteNotFor(id));
      FilterConcat(head, Filter(ledger[1..], VoteNotFor(id)), VoteFor(x));
    }
  }

  /* With one entry per item at most, an item's count is 1 if voted and 0 if not. */
  lemma {:induction false} UniqueVoteCount(ledger: seq<UserVote>, x: string)
    requires UniqueVoteIds(ledger)
    ensures VoteCount(ledger, x) == if Any(ledger, VoteFor(x)) then 1 else 0
    decreases |ledger|
  {
    if |ledger| > 0 {
      UniqueVoteCount(ledger[1..], x);
      if ledger[0].itemId == x {
        forall k | 0 <= k < |ledger[1..]|
          ensures ledger[1..][k].itemId != x
        {
          assert ledger[1..][k] == ledger[k + 1];
        }
      }
    }
  }

  /* Counting one more vote on the first item carrying `id` matches a ledger
     grown by one entry for `id`. */
  lemma IncrementedMatchesLedger(before: seq<VotingItem>, after: seq<VotingItem>,
                                 ledger: seq<UserVote>, vote: UserVote)
    requires CountsMatch(before, ledger)
    requires Incremented(before, after, vote.itemId)
    ensures CountsMatch(after, ledger + [vote])
  {
    var id := vote.itemId;
    forall k | 0 <= k < |after|
      ensures after[k].votes == VoteCount(ledger + [vote], after[k].id)
    {
      VoteCountAppend(ledger, vote, before[k].id);
      if before[k].id == id {
        assert IsFirstMatch(before, HasId(id), k);
      }
    }
  }

  /* Taking a vote off the first item carrying `id` matches a ledger from
     which the (single) entry for `id` was dropped. */
  lemma DecrementedMatchesLedger(before: seq<VotingItem>, after: seq<VotingItem>,
                                 ledger: seq<UserVote>, id: string)
    requires CountsMatch(before, ledger)
    requires UniqueVoteIds(ledger)
    requires Any(ledger, VoteFor(id))
    requires Decremented(before, after, id)
    ensures CountsMatch(after, Filter(ledger, VoteNotFor(id)))
  {
    UniqueVoteCount(ledger, id);
    forall k | 0 <= k < |after|
      ensures after[k].votes == VoteCount(Filter(ledger, VoteNotFor(id)), after[k].id)
    {
      VoteCountAfterRemove(ledger, id, before[k].id);
      if before[k].id == id {
        assert IsFirstMatch(before, HasId(id), k);
      }
    }
  }

  /* Seeding on read keeps the store consistent. */
  lemma GetVotingItemsKeepsConsistent(s: Store)
    requires Consistent(s)
    ensures Consistent(GetVotingItems(s).store)
  {
  }

  /* Casting keeps every count equal to its number of ledger entries. */
  lemma AddVoteKeepsConsistent(s: Store, id: string, now: Timestamp)
    requires Consistent(s)
    ensures Consistent(AddVote(s, id, now))
  {
    if !HasUserVoted(s, id) {
      var r := AddVote(s, id, now);
      ConsistentCatalog(s);
      AddVoteKeepsUniqueVoteIds(s, id, now);
      IncrementedMatchesLedger(Catalog(s), r.items.value, GetUserVotes(s), UserVote(id, now));
    }
  }

  /* Retracting keeps every count equal to its number of ledger entries. */
  lemma RemoveVoteKeepsConsistent(s: Store, id: string)
    requires Consistent(s)
    ensures Consistent(RemoveVote(s, id))
  {
    if HasUserVoted(s, id) {
      var r := RemoveVote(s, id);
      ConsistentCatalog(s);
      RemoveVoteKeepsUniqueVoteIds(s, id);
      assert r.votes.value == Filter(GetUserVotes(s), VoteNotFor(id));
      DecrementedMatchesLedger(Catalog(s), r.items.value, GetUserVotes(s), id);
    }
  }

  /* ----- Every reachable store is consistent ----- */

  /* The operations the screens perform on the store. */
  datatype Op = Read | Cast(id: string, now: Timestamp) | Retract(id: string) | Reset

  function Apply(s: Store, op: Op): Store
  {
    match op
    case Read => GetVotingItems(s).store
    case Cast(id, now) => AddVote(s, id, now)
    case Retract(id) => RemoveVote(s, id)
    case Reset => ResetAllData(s)
  }

  function Run(s: Store, ops: seq<Op>): Store
    decreases |ops|
  {
    if |ops| == 0 then s else Run(Apply(s, ops[0]), ops[1..])
  }

  /* Whatever the user does from a fresh store, each ledger entry is unique,
     and every count equals its item's number of ledger entries (so it is 0
     or 1, and never negative). */
  lemma {:induction false} RunKeepsConsistent(s: Store, ops: seq<Op>)
    requires Consistent(s)
    ensures Consistent(Run(s, ops))
    ensures NonNegative(Catalog(Run(s, ops)))
    decreases |ops|
  {
    if |ops| == 0 {
      ConsistentCatalog(s);
    } else {
      match ops[0] {
        case Read => GetVotingItemsKeepsConsistent(s);
        case Cast(id, now) => AddVoteKeepsConsistent(s, id, now);
        case Retract(id) => RemoveVoteKeepsConsistent(s, id);
        case Reset => ResetThenRead(s, "");
      }
      RunKeepsConsistent(Apply(s, ops[0]), ops[1..]);
    }
  }

  lemma EmptyStoreConsistent()
    ensures Consistent(EmptyStore)
  {
  }

  /* ----- Cast then retract ----- */

  /* Undoing an increment with a decrement restores a catalog without negative counts. */
  lemma IncrementThenDecrement(before: seq<VotingItem>, mid: seq<VotingItem>,
                               after: seq<VotingItem>, id: string)
    requires NonNegative(before)
    requires Incremented(before, mid, id)
    requires Decremented(mid, after, id)
    ensures after == before
  {
    forall k | 0 <= k < |before|
      ensures after[k] == before[k]
    {
      assert IsFirstMatch(mid, HasId(id), k) <==> IsFirstMatch(before, HasId(id), k);
    }
  }

  /* From a stored catalog with no negative count, casting a vote the user has
     not cast and then retracting it restores the catalog and the ledger as
     read; the stored records are restored exactly when the ledger key was
     present (otherwise an absent key comes back as an empty ledger). */
  lemma CastThenRetract(s: Store, id: string, now: Timestamp)
    requires s.items.Some?
    requires NonNegative(s.items.value)
    requires !HasUserVoted(s, id)
    ensures RemoveVote(AddVote(s, id, now), id).items == s.items
    ensures GetUserVotes(RemoveVote(AddVote(s, id, now), id)) == GetUserVotes(s)
    ensures s.votes.Some? ==> RemoveVote(AddVote(s, id, now), id) == s
  {
    var a := AddVote(s, id, now);
    var r := RemoveVote(a, id);
    VotedAfterAdd(s, id, now, id);
    var ledger := GetUserVotes(s);
    FilterConcat(ledger, [UserVote(id, now)], VoteNotFor(id));
    FilterKeepsAll(ledger, VoteNotFor(id));
    assert r.votes.value == Filter(GetUserVotes(a), VoteNotFor(id));
    IncrementThenDecrement(s.items.value, a.items.value, r.items.value, id);
  }
}
