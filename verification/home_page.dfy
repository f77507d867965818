/**
 The voting list screen (app/page.tsx), reduced to the state it keeps and the
 pure computations over it: the category filter, the set of items shown as
 already voted, and what a click on a card's vote button does.
 */
module HomePage {

  import opened Wrappers
  import opened Seqs
  import opened Types
  import opened VotingData

  /* The category chips: all items (`'alle'`) or one category. */
  datatype Selection = Alle | Only(category: Category)

  function InCategory(c: Category): VotingItem -> bool
  {
    (i: VotingItem) => i.category == c
  }

  /* `filteredItems`: every item for `Alle`, otherwise exactly the items of the
     chosen category, in catalog order. */
  function FilteredItems(items: seq<VotingItem>, sel: Selection): (r: seq<VotingItem>)
    ensures sel.Alle? ==> r == items
    ensures sel.Only? ==> IsFilterOf(r, items, InCategory(sel.category))
    ensures IsSubsequence(r, items)
    ensures |r| <= |items|
    ensures forall x :: x in r <==> x in items && (sel.Alle? || x.category == sel.category)
  {
    match sel
    case Alle =>
      FilterKeepsAll(items, (i: VotingItem) => true);
      FilterIsSubsequence(items, (i: VotingItem) => true);
      items
    case Only(c) =>
      FilterIsFilterOf(items, InCategory(c));
      Filter(items, InCategory(c))
  }

  /* The ids of the items the ledger holds a vote for (the initial `userVotes`
     state built from `getUserVotes`). */
  function VotedIds(s: Store): (r: set<string>)
    ensures forall id :: id in r <==> HasUserVoted(s, id)
  {
    var ledger := GetUserVotes(s);
    var r := set k | 0 <= k < |ledger| :: ledger[k].itemId;
    assert forall id :: id in r ==> exists k :: 0 <= k < |ledger| && ledger[k].itemId == id;
    r
  }

  /* The `setUserVotes` update in `handleVote`: `id` joins the set, nothing
     else joins, nothing leaves. */
  function MarkVoted(prev: set<string>, id: string): (r: set<string>)
    ensures id in r
    ensures prev <= r
    ensures r - {id} <= prev
  {
    prev + {id}
  }

  /* The screen's state next to the storage it reads. */
  datatype Page = Page(store: Store, items: seq<VotingItem>, voted: set<string>, selected: Selection)

  /* The screen shows the stored catalog, and marks as voted exactly the items
     the ledger holds a vote for. */
  ghost predicate Synced(p: Page)
  {
    && p.store.items == Some(p.items)
    && forall id :: id in p.voted <==> HasUserVoted(p.store, id)
  }

  /* The mount effect: read the catalog (seeding it if absent) and the ledger. */
  function Mount(s: Store): (p: Page)
    ensures Synced(p)
    ensures p.store == GetVotingItems(s).store
    ensures forall id :: id in p.voted <==> HasUserVoted(s, id)
    ensures p.items == Catalog(s)
    ensures p.selected == Alle
  {
    var loaded := GetVotingItems(s);
    Page(loaded.store, loaded.items, VotedIds(loaded.store), Alle)
  }

  /* `handleVote`: cast the vote, mark the item voted, re-read the catalog. */
  function HandleVote(p: Page, id: string, now: Timestamp): Page
  {
    var loaded := GetVotingItems(AddVote(p.store, id, now));
    Page(loaded.store, loaded.items, MarkVoted(p.voted, id), p.selected)
  }

  /* A chip click. */
  function SelectCategory(p: Page, sel: Selection): Page
  {
    p.(selected := sel)
  }

  /* The cards on screen. */
  function VisibleItems(p: Page): seq<VotingItem>
  {
    FilteredItems(p.items, p.selected)
  }

  /* A card's button is disabled exactly when its item is in the voted set. */
  function CardDisabled(p: Page, item: VotingItem): bool
  {
    item.id in p.voted
  }

  /* ----- Lemmas ----- */

  /* Marking an item voted twice is marking it once. */
  lemma MarkVotedIdempotent(prev: set<string>, id: string)
    ensures MarkVoted(MarkVoted(prev, id), id) == MarkVoted(prev, id)
  {
  }

  /* After a click the screen still shows the store: the displayed catalog is
     the one `addVote` left, with one more vote on the clicked item when it was
     not yet voted and unchanged when it was. */
  lemma HandleVoteKeepsSynced(p: Page, id: string, now: Timestamp)
    requires Synced(p)
    ensures Synced(HandleVote(p, id, now))
    ensures HandleVote(p, id, now).store == GetVotingItems(AddVote(p.store, id, now)).store
    ensures HandleVote(p, id, now).items == Catalog(AddVote(p.store, id, now))
    ensures id in p.voted ==> HandleVote(p, id, now).items == p.items
    ensures id !in p.voted ==> Incremented(p.items, HandleVote(p, id, now).items, id)
  {
    var r := HandleVote(p, id, now);
    forall x
      ensures x in r.voted <==> HasUserVoted(r.store, x)
    {
      VotedAfterAdd(p.store, id, now, x);
    }
  }

  /* On a synced screen a card is disabled exactly when the ledger holds a
     vote for its item. */
  lemma CardDisabledMatchesLedger(p: Page, item: VotingItem)
    requires Synced(p)
    ensures CardDisabled(p, item) <==> HasUserVoted(p.store, item.id)
  {
  }

  /* Whatever the chip, the cards on screen come from the catalog in its order. */
  lemma VisibleItemsFromCatalog(p: Page, sel: Selection)
    requires Synced(p)
    ensures IsSubsequence(VisibleItems(SelectCategory(p, sel)), Catalog(p.store))
    ensures sel.Alle? ==> VisibleItems(SelectCategory(p, sel)) == Catalog(p.store)
  {
  }

  /* A click disables the clicked card, leaves every other card as it was, and
     keeps the chip selection. */
  lemma HandleVoteDisablesCard(p: Page, id: string, now: Timestamp, item: VotingItem)
    ensures CardDisabled(HandleVote(p, id, now), item) <==> CardDisabled(p, item) || item.id == id
    ensures HandleVote(p, id, now).selected == p.selected
  {
  }

  /* A chip click changes only the selection; the screen stays synced, and
     for a category the cards shown are exactly that category's items of the
     stored catalog, in catalog order. */
  lemma SelectCategoryShows(p: Page, sel: Selection)
    requires Synced(p)
    ensures Synced(SelectCategory(p, sel))
    ensures SelectCategory(p, sel).selected == sel
    ensures SelectCategory(p, sel).(selected := p.selected) == p
    ensures sel.Only? ==>
              IsFilterOf(VisibleItems(SelectCategory(p, sel)), Catalog(p.store), InCategory(sel.category))
  {
  }

  /* Filtering [project, feature, project, other] by project keeps the first
     and the third item. */
  lemma FilterExample(a: VotingItem, b: VotingItem, c: VotingItem, d: VotingItem)
    requires a.category == Prosjekt && b.category == Funksjonalitet
    requires c.category == Prosjekt && d.category == Annet
    ensures FilteredItems([a, b, c, d], Only(Prosjekt)) == [a, c]
  {
    var p := InCategory(Prosjekt);
    assert [d][1..] == [];
    assert Filter([d], p) == [];
    assert [c, d][1..] == [d];
    assert Filter([c, d], p) == [c];
    assert [b, c, d][1..] == [c, d];
    assert Filter([b, c, d], p) == [c];
    assert [a, b, c, d][1..] == [b, c, d];
    assert Filter([a, b, c, d], p) == [a, c];
  }
}
