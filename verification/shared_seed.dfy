/**
 The store as lib/voting-data.ts actually runs it. When the catalog key is
 absent, `getVotingItems` writes the module's `initialVotingItems` array and
 then returns that same array, not a copy. `addVote` and `removeVote` change the
 item they find in place, so on that path they also change the module's seed.
 The seed outlives `resetAllData`, so a reset followed by a read writes the
 changed counts back next to an empty ledger.

 Here the seed is part of the state. `VotingData` models the read as handing
 out a fresh copy of the seed, which is what first-visit seeding evidently
 intends; the lemmas below relate the two.
 */
module SharedSeed {

  import opened Wrappers
  import opened Seqs
  import opened Types
  import opened VotingData

  /* The storage, and the current contents of the `initialVotingItems` array. */
  datatype Session = Session(store: Store, seed: seq<VotingItem>)

  /* Page load: empty storage and the seed as declared. */
  const FreshSession := Session(EmptyStore, InitialVotingItems)

  /* `getVotingItems` as written: an absent key is filled with the seed as it
     is now, and the seed array itself is returned. */
  function SharedRead(w: Session): (r: Loaded)
    ensures r.store.items == Some(r.items)
    ensures r.store.votes == w.store.votes
    ensures w.store.items.Some? ==> r == GetVotingItems(w.store)
    ensures w.store.items.None? ==> r.items == w.seed
  {
    match w.store.items
    case None => Loaded(w.store.(items := Some(w.seed)), w.seed)
    case Some(items) => Loaded(w.store, items)
  }

  /* `addVote` as written: on an absent catalog the incremented item is an
     element of the seed array, so the seed changes with the stored catalog. */
  function SharedAddVote(w: Session, id: string, now: Timestamp): (r: Session)
    ensures HasUserVoted(w.store, id) ==> r == w
    ensures !HasUserVoted(w.store, id) ==> r.store.votes == Some(GetUserVotes(w.store) + [UserVote(id, now)])
    ensures w.store.items.Some? ==> r.seed == w.seed
    ensures w.store.items.None? && !HasUserVoted(w.store, id) ==>
              && r.store.items == Some(r.seed)
              && Incremented(w.seed, r.seed, id)
  {
    if HasUserVoted(w.store, id) then w
    else
      var ledger := GetUserVotes(w.store) + [UserVote(id, now)];
      var store := CountVote(SharedRead(w.(store := w.store.(votes := Some(ledger)))), id);
      Session(store, if w.store.items.None? then store.items.value else w.seed)
  }

  /* `removeVote` as written: on an absent catalog the decremented item is an
     element of the seed array. */
  function SharedRemoveVote(w: Session, id: string): (r: Session)
    ensures !HasUserVoted(w.store, id) ==> r == w
    ensures HasUserVoted(w.store, id) ==> r.store.votes == Some(Filter(GetUserVotes(w.store), VoteNotFor(id)))
    ensures w.store.items.Some? ==> r.seed == w.seed
    ensures w.store.items.None? && HasUserVoted(w.store, id) ==>
              && r.store.items == Some(r.seed)
              && Decremented(w.seed, r.seed, id)
  {
    if !HasUserVoted(w.store, id) then w
    else
      var ledger := Filter(GetUserVotes(w.store), VoteNotFor(id));
      var store := UncountVote(SharedRead(w.(store := w.store.(votes := Some(ledger)))), id);
      Session(store, if w.store.items.None? then store.items.value else w.seed)
  }

  /* `resetAllData` removes both keys; the seed array is untouched. */
  function SharedReset(w: Session): (r: Session)
    ensures r.store == ResetAllData(w.store)
    ensures r.seed == w.seed
  {
    Session(EmptyStore, w.seed)
  }

  function SharedApply(w: Session, op: Op): Session
  {
    match op
    case Read => w.(store := SharedRead(w).store)
    case Cast(id, now) => SharedAddVote(w, id, now)
    case Retract(id) => SharedRemoveVote(w, id)
    case Reset => SharedReset(w)
  }

  function SharedRun(w: Session, ops: seq<Op>): Session
    decreases |ops|
  {
    if |ops| == 0 then w else SharedRun(SharedApply(w, ops[0]), ops[1..])
  }

  /* ----- Where the two readings agree ----- */

  /* The storage with the current seed written under an absent catalog key. */
  function Seeded(w: Session): (r: Store)
    ensures r.items.Some? && r.votes == w.store.votes
    ensures w.store.items.Some? ==> r == w.store
  {
    if w.store.items.None? then w.store.(items := Some(w.seed)) else w.store
  }

  /* A cast as written is the copying model's cast on the storage with the
     current seed written in; a cast on an absent catalog leaves the seed
     equal to the stored catalog. */
  lemma SharedAddVoteIsSeededAddVote(w: Session, id: string, now: Timestamp)
    ensures !HasUserVoted(w.store, id) ==> SharedAddVote(w, id, now).store == AddVote(Seeded(w), id, now)
    ensures w.store.items.Some? ==> SharedAddVote(w, id, now).store == AddVote(w.store, id, now)
    ensures SharedAddVote(w, id, now).store.votes == AddVote(w.store, id, now).votes
  {
    if !HasUserVoted(w.store, id) {
      var ledger := GetUserVotes(w.store) + [UserVote(id, now)];
      assert HasUserVoted(Seeded(w), id) == HasUserVoted(w.store, id);
      assert GetUserVotes(Seeded(w)) == GetUserVotes(w.store);
      assert SharedRead(w.(store := w.store.(votes := Some(ledger))))
          == GetVotingItems(Seeded(w).(votes := Some(ledger)));
    }
  }

  /* The same for a retract. */
  lemma SharedRemoveVoteIsSeededRemoveVote(w: Session, id: string)
    ensures HasUserVoted(w.store, id) ==> SharedRemoveVote(w, id).store == RemoveVote(Seeded(w), id)
    ensures w.store.items.Some? ==> SharedRemoveVote(w, id).store == RemoveVote(w.store, id)
    ensures SharedRemoveVote(w, id).store.votes == RemoveVote(w.store, id).votes
  {
    if HasUserVoted(w.store, id) {
      var ledger := Filter(GetUserVotes(w.store), VoteNotFor(id));
      assert HasUserVoted(Seeded(w), id) == HasUserVoted(w.store, id);
      assert GetUserVotes(Seeded(w)) == GetUserVotes(w.store);
      assert SharedRead(w.(store := w.store.(votes := Some(ledger))))
          == GetVotingItems(Seeded(w).(votes := Some(ledger)));
    }
  }

  /* While the seed still holds the declared catalog, each operation as
     written leaves storage exactly as the copying model does; whatever the
     seed, the ledger is the same under both. */
  lemma SharedApplyMatchesCopy(w: Session, op: Op)
    ensures SharedApply(w, op).store.votes == Apply(w.store, op).votes
    ensures w.seed == InitialVotingItems ==> SharedApply(w, op).store == Apply(w.store, op)
  {
    match op {
      case Read =>
      case Cast(id, now) =>
        SharedAddVoteIsSeededAddVote(w, id, now);
        if w.seed == InitialVotingItems && w.store.items.None? && !HasUserVoted(w.store, id) {
          var ledger := GetUserVotes(w.store) + [UserVote(id, now)];
          assert GetVotingItems(Seeded(w).(votes := Some(ledger)))
              == GetVotingItems(w.store.(votes := Some(ledger)));
        }
      case Retract(id) =>
        SharedRemoveVoteIsSeededRemoveVote(w, id);
        if w.seed == InitialVotingItems && w.store.items.None? && HasUserVoted(w.store, id) {
          var ledger := Filter(GetUserVotes(w.store), VoteNotFor(id));
          assert GetVotingItems(Seeded(w).(votes := Some(ledger)))
              == GetVotingItems(w.store.(votes := Some(ledger)));
        }
      case Reset =>
    }
  }

  /* The seed changes only under a cast or retract that finds the catalog key
     absent. */
  lemma SharedSeedChangesOnlyWhenAbsent(w: Session, op: Op)
    requires w.store.items.Some? || op.Read? || op.Reset?
    ensures SharedApply(w, op).seed == w.seed
  {
  }

  /* ----- The counterexample ----- */

  /* Empty storage, a cast for item "1", a reset and a read. With the copying
     read the store ends consistent; as written, item "1" is re-seeded with
     the vote the first cast left in the shared array, next to an empty
     ledger. */
  lemma SharedSeedBreaksConsistency(now: Timestamp)
    ensures Consistent(Run(EmptyStore, [Cast("1", now), Reset, Read]))
    ensures !Consistent(SharedRun(FreshSession, [Cast("1", now), Reset, Read]).store)
    ensures SharedRun(FreshSession, [Cast("1", now), Reset, Read]).store.items
            == Some(InitialVotingItems[0 := InitialVotingItems[0].(votes := 1)])
  {
    EmptyStoreConsistent();
    RunKeepsConsistent(EmptyStore, [Cast("1", now), Reset, Read]);
    var w1 := SharedAddVote(FreshSession, "1", now);
    assert IsFirstMatch(InitialVotingItems, HasId("1"), 0);
    assert w1.seed[0].votes == 1;
    var w2 := SharedReset(w1);
    var w3 := w2.(store := SharedRead(w2).store);
    assert [Cast("1", now), Reset, Read][1..] == [Reset, Read];
    assert [Reset, Read][1..] == [Read];
    assert SharedRun(FreshSession, [Cast("1", now), Reset, Read]) == w3;
    assert w3.store.items == Some(w1.seed);
    assert GetUserVotes(w3.store) == [];
    assert VoteCount([], "1") == 0;
  }

  /* ----- What still holds as written ----- */

  /* Neither the seed nor the catalog a read would return has a negative count. */
  ghost predicate SessionNonNegative(w: Session)
  {
    NonNegative(w.seed) && NonNegative(SharedRead(w).items)
  }

  lemma SharedApplyKeepsNonNegative(w: Session, op: Op)
    requires SessionNonNegative(w)
    ensures SessionNonNegative(SharedApply(w, op))
  {
    match op {
      case Read =>
      case Cast(id, now) =>
        if w.store.items.Some? {
          AddVoteKeepsNonNegative(w.store, id, now);
        }
      case Retract(id) =>
        if w.store.items.Some? {
          RemoveVoteKeepsNonNegative(w.store, id);
        }
      case Reset =>
    }
  }

  /* As written, no sequence of operations makes a count negative: the
     `votes > 0` guard in `removeVote` protects the seed as well. */
  lemma {:induction false} SharedRunKeepsNonNegative(w: Session, ops: seq<Op>)
    requires SessionNonNegative(w)
    ensures SessionNonNegative(SharedRun(w, ops))
    decreases |ops|
  {
    if |ops| > 0 {
      SharedApplyKeepsNonNegative(w, ops[0]);
      SharedRunKeepsNonNegative(SharedApply(w, ops[0]), ops[1..]);
    }
  }

  lemma FreshSessionNonNegative()
    ensures SessionNonNegative(FreshSession)
  {
    InitialCatalogShape();
  }
}
