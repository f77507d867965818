/**
 The results screen (app/resultater/page.tsx): the catalog ranked by votes, the
 largest and the total count, each item's bar length relative to the leader,
 its rounded share of all votes, and the "most popular" card.

 Numbers in the source are JavaScript doubles; the model uses exact integers
 for counts and exact reals for the bar length.
 */
module ResultsPage {

  import opened Seqs
  import opened Types
  import opened VotingData

  /* ----- Ranking: `[...items].sort((a, b) => b.votes - a.votes)` ----- */

  ghost predicate SortedByVotesDesc(s: seq<VotingItem>)
  {
    forall i, j :: 0 <= i < j < |s| ==> s[i].votes >= s[j].votes
  }

  function WithVotes(v: int): VotingItem -> bool
  {
    (i: VotingItem) => i.votes == v
  }

  /* `r` keeps, for every vote count, the items with that count in the order
     they have in `s`; this is what a stable sort on the count guarantees. */
  ghost predicate SameOrderWithinCounts(r: seq<VotingItem>, s: seq<VotingItem>)
  {
    forall v :: Filter(r, WithVotes(v)) == Filter(s, WithVotes(v))
  }

  /* Put `x` in front of the first item of the ranked `t` that has no more
     votes than `x`. */
  function Insert(x: VotingItem, t: seq<VotingItem>): (r: seq<VotingItem>)
    requires SortedByVotesDesc(t)
    ensures SortedByVotesDesc(r)
    ensures multiset(r) == multiset(t) + multiset{x}
    ensures |r| == |t| + 1
    ensures r[0] == x || (|t| > 0 && r[0] == t[0])
  {
    if |t| == 0 || t[0].votes <= x.votes then [x] + t
    else
      var rest := Insert(x, t[1..]);
      assert t == [t[0]] + t[1..];
      [t[0]] + rest
  }

  /* The ranking shown on the results screen: a stable sort by descending
     vote count, modelled as an insertion sort. */
  function Rank(s: seq<VotingItem>): (r: seq<VotingItem>)
    ensures SortedByVotesDesc(r)
    ensures multiset(r) == multiset(s)
    ensures |r| == |s|
  {
    if |s| == 0 then []
    else
      var rest := Rank(s[1..]);
      assert s == [s[0]] + s[1..];
      Insert(s[0], rest)
  }

  lemma {:induction false} InsertSameOrderWithinCounts(x: VotingItem, t: seq<VotingItem>, v: int)
    requires SortedByVotesDesc(t)
    ensures Filter(Insert(x, t), WithVotes(v))
            == (if x.votes == v then [x] else []) + Filter(t, WithVotes(v))
    decreases |t|
  {
    var r := Insert(x, t);
    var p := WithVotes(v);
    if |t| == 0 || t[0].votes <= x.votes {
      assert r == [x] + t;
      BucketOfTail(r, v);
      assert r[1..] == t;
    } else {
      var rest := Insert(x, t[1..]);
      assert r == [t[0]] + rest;
      InsertSameOrderWithinCounts(x, t[1..], v);
      BucketOfTail(r, v);
      assert r[1..] == rest;
      BucketOfTail(t, v);
      var headX := if x.votes == v then [x] else [];
      var headT := if t[0].votes == v then [t[0]] else [];
      var tail := Filter(t[1..], p);
      assert Filter(r, p) == headT + (headX + tail);
      assert Filter(t, p) == headT + tail;
      SwapEmpty(headT, headX, tail);
    }
  }

  lemma SwapEmpty(a: seq<VotingItem>, b: seq<VotingItem>, c: seq<VotingItem>)
    requires a == [] || b == []
    ensures a + (b + c) == b + (a + c)
  {
  }

  /* Items with equal counts keep their catalog order. */
  lemma {:induction false} RankSameOrderWithinCounts(s: seq<VotingItem>)
    ensures SameOrderWithinCounts(Rank(s), s)
    decreases |s|
  {
    if |s| > 0 {
      RankSameOrderWithinCounts(s[1..]);
      forall v
        ensures Filter(Rank(s), WithVotes(v)) == Filter(s, WithVotes(v))
      {
        InsertSameOrderWithinCounts(s[0], Rank(s[1..]), v);
      }
    }
  }

  lemma BucketOfHead(b: seq<VotingItem>)
    requires |b| > 0
    ensures Filter(b, WithVotes(b[0].votes)) != []
  {
    assert b[0] in Filter(b, WithVotes(b[0].votes));
  }

  lemma BucketOfTail(a: seq<VotingItem>, v: int)
    requires |a| > 0
    ensures Filter(a, WithVotes(v)) == (if a[0].votes == v then [a[0]] else []) + Filter(a[1..], WithVotes(v))
  {
  }

  lemma HeadIsLargest(b: seq<VotingItem>, y: VotingItem)
    requires SortedByVotesDesc(b)
    requires y in b
    ensures y.votes <= b[0].votes
  {
    var j :| 0 <= j < |b| && b[j] == y;
  }

  lemma HeadVotesAgree(a: seq<VotingItem>, b: seq<VotingItem>)
    requires SortedByVotesDesc(a) && SortedByVotesDesc(b)
    requires SameOrderWithinCounts(a, b)
    requires |a| > 0 && |b| > 0
    ensures a[0].votes == b[0].votes
  {
    var m := a[0].votes;
    assert a[0] in Filter(a, WithVotes(m));
    assert a[0] in Filter(b, WithVotes(m));
    HeadIsLargest(b, a[0]);
    var n := b[0].votes;
    assert b[0] in Filter(b, WithVotes(n));
    assert b[0] in Filter(a, WithVotes(n));
    HeadIsLargest(a, b[0]);
  }

  /* Two nonempty rankings that agree on the order within every count start
     with the same item, and agree again after it. */
  lemma SameHead(a: seq<VotingItem>, b: seq<VotingItem>)
    requires SortedByVotesDesc(a) && SortedByVotesDesc(b)
    requires SameOrderWithinCounts(a, b)
    requires |a| > 0 && |b| > 0
    ensures a[0] == b[0]
    ensures SameOrderWithinCounts(a[1..], b[1..])
  {
    var m := a[0].votes;
    HeadVotesAgree(a, b);
    BucketOfTail(a, m);
    BucketOfTail(b, m);
    assert [a[0]] + Filter(a[1..], WithVotes(m)) == [b[0]] + Filter(b[1..], WithVotes(m));
    assert a[0] == ([a[0]] + Filter(a[1..], WithVotes(m)))[0];
    forall v
      ensures Filter(a[1..], WithVotes(v)) == Filter(b[1..], WithVotes(v))
    {
      BucketOfTail(a, v);
      BucketOfTail(b, v);
      var head := if a[0].votes == v then [a[0]] else [];
      var ta := Filter(a[1..], WithVotes(v));
      var tb := Filter(b[1..], WithVotes(v));
      assert head + ta == head + tb;
      assert (head + ta)[|head|..] == ta;
      assert (head + tb)[|head|..] == tb;
    }
  }

  /* Two rankings by descending count that agree on the order within every
     count are the same ranking. */
  lemma {:induction false} RankingIsUnique(a: seq<VotingItem>, b: seq<VotingItem>)
    requires SortedByVotesDesc(a) && SortedByVotesDesc(b)
    requires SameOrderWithinCounts(a, b)
    ensures a == b
    decreases |a| + |b|
  {
    if |a| == 0 && |b| > 0 {
      BucketOfHead(b);
      assert false;
    } else if |b| == 0 && |a| > 0 {
      BucketOfHead(a);
      assert false;
    } else if |a| > 0 {
      SameHead(a, b);
      RankingIsUnique(a[1..], b[1..]);
      assert a == [a[0]] + a[1..];
      assert b == [b[0]] + b[1..];
    }
  }

  /* Any stable descending sort of the catalog yields `Rank` of it. */
  lemma StableSortIsRank(s: seq<VotingItem>, r: seq<VotingItem>)
    requires SortedByVotesDesc(r)
    requires SameOrderWithinCounts(r, s)
    ensures r == Rank(s)
  {
    RankSameOrderWithinCounts(s);
    RankingIsUnique(r, Rank(s));
  }

  /* ----- Largest and total count ----- */

  /* `maxVotes`: the first ranked item's count, 0 for an empty ranking. */
  function MaxVotes(ranked: seq<VotingItem>): int
  {
    if |ranked| == 0 then 0 else ranked[0].votes
  }

  /* On the ranking of a catalog, `maxVotes` is 0 for an empty catalog and
     otherwise the largest count of any item. */
  lemma MaxVotesIsLargest(items: seq<VotingItem>)
    ensures |items| == 0 ==> MaxVotes(Rank(items)) == 0
    ensures forall k :: 0 <= k < |items| ==> items[k].votes <= MaxVotes(Rank(items))
    ensures |items| > 0 ==> exists k :: 0 <= k < |items| && items[k].votes == MaxVotes(Rank(items))
  {
    var ranked := Rank(items);
    forall k | 0 <= k < |items|
      ensures items[k].votes <= MaxVotes(ranked)
    {
      assert items[k] in multiset(items);
      assert items[k] in ranked;
      HeadIsLargest(ranked, items[k]);
    }
    if |items| > 0 {
      assert ranked[0] in multiset(ranked);
      assert ranked[0] in items;
    }
  }

  /* `totalVotes`: the counts added up from left to right, as `reduce` does. */
  function TotalVotes(items: seq<VotingItem>): int
  {
    if |items| == 0 then 0 else TotalVotes(items[..|items| - 1]) + items[|items| - 1].votes
  }

  lemma {:induction false} TotalVotesConcat(a: seq<VotingItem>, b: seq<VotingItem>)
    ensures TotalVotes(a + b) == TotalVotes(a) + TotalVotes(b)
    decreases |b|
  {
    if |b| > 0 {
      assert (a + b)[..|a + b| - 1] == a + b[..|b| - 1];
      TotalVotesConcat(a, b[..|b| - 1]);
    } else {
      assert a + b == a;
    }
  }

  /* The total does not depend on the order of the items, so the total over
     the ranking is the total over the catalog. */
  lemma {:induction false} TotalVotesPermutation(a: seq<VotingItem>, b: seq<VotingItem>)
    requires multiset(a) == multiset(b)
    ensures TotalVotes(a) == TotalVotes(b)
    decreases |a|
  {
    if |a| > 0 {
      var n := |a| - 1;
      var x := a[n];
      assert a == a[..n] + [x];
      assert x in multiset(b);
      var j :| 0 <= j < |b| && b[j] == x;
      var b' := b[..j] + b[j + 1..];
      assert b == b[..j] + [x] + b[j + 1..];
      assert multiset(b) == multiset(b[..j]) + multiset{x} + multiset(b[j + 1..]);
      assert multiset(a) == multiset(a[..n]) + multiset{x};
      assert multiset(b') == multiset(b[..j]) + multiset(b[j + 1..]);
      assert multiset(a[..n]) == multiset(a) - multiset{x};
      assert multiset(b') == multiset(b) - multiset{x};
      TotalVotesPermutation(a[..n], b');
      TotalVotesConcat(a[..n], [x]);
      TotalVotesConcat(b[..j] + [x], b[j + 1..]);
      TotalVotesConcat(b[..j], [x]);
      TotalVotesConcat(b[..j], b[j + 1..]);
    } else {
      assert |b| == |multiset(b)|;
    }
  }

  /* With no negative count, the total is at least every single count. */
  lemma {:induction false} TotalVotesBounds(items: seq<VotingItem>)
    requires NonNegative(items)
    ensures TotalVotes(items) >= 0
    ensures forall k :: 0 <= k < |items| ==> items[k].votes <= TotalVotes(items)
    decreases |items|
  {
    if |items| > 0 {
      var n := |items| - 1;
      TotalVotesBounds(items[..n]);
      assert forall k :: 0 <= k < n ==> items[..n][k] == items[k];
    }
  }

  /* ----- Per-item figures ----- */

  /* The bar length, `maxVotes > 0 ? (votes / maxVotes) * 100 : 0`. */
  function PercentOfMax(votes: int, maxVotes: int): (r: real)
    ensures maxVotes <= 0 ==> r == 0.0
    ensures 0 <= votes <= maxVotes ==> 0.0 <= r <= 100.0
    ensures 0 < maxVotes && votes == maxVotes ==> r == 100.0
    ensures 0 < maxVotes ==> r * (maxVotes as real) == 100.0 * (votes as real)
  {
    if maxVotes > 0 then (votes as real / maxVotes as real) * 100.0 else 0.0
  }

  /* The share label, `totalVotes > 0 ? Math.round((votes / totalVotes) * 100) : 0`.
     `Math.round` rounds halves up, so for a positive total this is
     floor(100 v / t + 1/2) = (200 v + t) div (2 t). */
  function ShareOfTotal(votes: int, totalVotes: int): (r: int)
    ensures totalVotes <= 0 ==> r == 0
    ensures 0 < totalVotes ==>
              && 2 * totalVotes * r <= 200 * votes + totalVotes
              && 200 * votes + totalVotes < 2 * totalVotes * (r + 1)
    ensures 0 <= votes <= totalVotes ==> 0 <= r <= 100
  {
    if totalVotes > 0 then
      var t := totalVotes;
      var r := (200 * votes + t) / (2 * t);
      assert (200 * votes + t) % (2 * t) < 2 * t;
      assert 2 * t * r + (200 * votes + t) % (2 * t) == 200 * votes + t;
      if 0 <= votes <= t then
        ShareBounds(votes, t, r);
        r
      else r
    else 0
  }

  lemma IntScaleLess(t: int, a: int, b: int)
    requires t > 0 && t * a < t * b
    ensures a < b
  {
  }

  lemma RealScaleLessEq(t: real, a: real, b: real)
    requires t > 0.0 && t * a <= t * b
    ensures a <= b
  {
  }

  lemma RealScaleLess(t: real, a: real, b: real)
    requires t > 0.0 && t * a < t * b
    ensures a < b
  {
  }

  lemma ShareBounds(v: int, t: int, r: int)
    requires 0 <= v <= t && 0 < t
    requires 2 * t * r <= 200 * v + t < 2 * t * (r + 1)
    ensures 0 <= r <= 100
  {
    assert (2 * t) * 0 < (2 * t) * (r + 1);
    IntScaleLess(2 * t, 0, r + 1);
    assert (2 * t) * r < (2 * t) * 101;
    IntScaleLess(2 * t, r, 101);
  }

  /* The rounded share is the integer nearest to 100 v / t, halves rounded up. */
  lemma ShareIsNearest(votes: int, totalVotes: int)
    requires 0 < totalVotes
    ensures var r := ShareOfTotal(votes, totalVotes) as real;
            var exact := 100.0 * (votes as real) / (totalVotes as real);
            r - 0.5 <= exact < r + 0.5
  {
    var ri := ShareOfTotal(votes, totalVotes);
    var t := totalVotes as real;
    var v := votes as real;
    var r := ri as real;
    var exact := 100.0 * v / t;
    assert (2 * totalVotes * ri) as real == 2.0 * t * r;
    assert (200 * votes + totalVotes) as real == 200.0 * v + t;
    assert (2 * totalVotes * (ri + 1)) as real == 2.0 * t * (r + 1.0);
    assert exact * t == 100.0 * v;
    NearestFromBounds(t, v, r, exact);
  }

  lemma NearestFromBounds(t: real, v: real, r: real, exact: real)
    requires t > 0.0
    requires exact * t == 100.0 * v
    requires 2.0 * t * r <= 200.0 * v + t < 2.0 * t * (r + 1.0)
    ensures r - 0.5 <= exact < r + 0.5
  {
    var lo := r - 0.5;
    var hi := r + 0.5;
    assert t * lo == t * r - 0.5 * t;
    assert t * hi == t * r + 0.5 * t;
    assert t * exact == 100.0 * v;
    assert t * lo <= t * exact;
    assert t * exact < t * hi;
    RealScaleLessEq(t, lo, exact);
    RealScaleLess(t, exact, hi);
  }

  /* ----- The "most popular" card ----- */

  datatype Headline = Headline(title: string, votes: int)

  /* `items[0]?.title || 'N/A'` and `items[0]?.votes || 0`: an empty title
     shows as 'N/A' too. */
  function MostPopular(ranked: seq<VotingItem>): (r: Headline)
    ensures |ranked| == 0 ==> r == Headline("N/A", 0)
  {
    if |ranked| == 0 then Headline("N/A", 0)
    else Headline(if ranked[0].title == "" then "N/A" else ranked[0].title, ranked[0].votes)
  }

  /* The card shows `maxVotes` and the title of the first catalog item with
     that count: the stable sort puts that item first among the leaders. */
  lemma MostPopularIsLeader(items: seq<VotingItem>)
    ensures MostPopular(Rank(items)).votes == MaxVotes(Rank(items))
    ensures |items| == 0 ==> MostPopular(Rank(items)).title == "N/A"
    ensures |items| > 0 ==>
              exists k :: && 0 <= k < |items|
                          && items[k].votes == MaxVotes(Rank(items))
                          && (forall j :: 0 <= j < k ==> items[j].votes < items[k].votes)
                          && MostPopular(Rank(items)).title == (if items[k].title == "" then "N/A" else items[k].title)
  {
    if |items| > 0 {
      var k := FirstLeader(items);
      assert items[k].votes == MaxVotes(Rank(items));
    }
  }

  /* The leader of the ranking is the first item of the catalog that has the
     largest count. */
  lemma FirstLeader(items: seq<VotingItem>) returns (k: nat)
    requires |items| > 0
    ensures k < |items| && Rank(items)[0] == items[k]
    ensures forall j :: 0 <= j < k ==> items[j].votes < items[k].votes
  {
    var ranked := Rank(items);
    var m := ranked[0].votes;
    var p := WithVotes(m);
    RankSameOrderWithinCounts(items);
    assert Filter(ranked, p) == Filter(items, p);
    FilterHeadIsFirstMatch(ranked, p, 0);
    assert ranked[0] in multiset(ranked);
    assert ranked[0] in items;
    var found := FindFirst(items, p);
    k := found.value;
    FilterHeadIsFirstMatch(items, p, k);
    MaxVotesIsLargest(items);
    forall j | 0 <= j < k
      ensures items[j].votes < items[k].votes
    {
      assert items[j].votes <= MaxVotes(ranked);
    }
  }

  /* ----- The whole screen ----- */

  datatype Row = Row(item: VotingItem, position: nat, percentOfMax: real, shareOfTotal: int)

  datatype Results = Results(
    store: Store,
    ranked: seq<VotingItem>,
    maxVotes: int,
    totalVotes: int,
    rows: seq<Row>,
    headline: Headline)

  function Rows(ranked: seq<VotingItem>, maxVotes: int, totalVotes: int): (r: seq<Row>)
    ensures |r| == |ranked|
    ensures forall k :: 0 <= k < |r| ==> r[k].item == ranked[k] && r[k].position == k + 1
    ensures forall k :: 0 <= k < |r| ==>
              && r[k].percentOfMax == PercentOfMax(ranked[k].votes, maxVotes)
              && r[k].shareOfTotal == ShareOfTotal(ranked[k].votes, totalVotes)
  {
    seq(|ranked|, k requires 0 <= k < |ranked| =>
      Row(ranked[k], k + 1, PercentOfMax(ranked[k].votes, maxVotes), ShareOfTotal(ranked[k].votes, totalVotes)))
  }

  /* The mount effect and the figures computed from it. */
  function LoadResults(s: Store): Results
  {
    var loaded := GetVotingItems(s);
    var ranked := Rank(loaded.items);
    var maxVotes := MaxVotes(ranked);
    var totalVotes := TotalVotes(ranked);
    Results(loaded.store, ranked, maxVotes, totalVotes, Rows(ranked, maxVotes, totalVotes), MostPopular(ranked))
  }

  /* `ranked` is `items` sorted by descending count, equal counts in catalog order. */
  ghost predicate StableRankingOf(ranked: seq<VotingItem>, items: seq<VotingItem>)
  {
    && SortedByVotesDesc(ranked)
    && multiset(ranked) == multiset(items)
    && SameOrderWithinCounts(ranked, items)
  }

  /* `m` is the largest count of `items`, and 0 when there are none. */
  ghost predicate IsLargestCount(m: int, items: seq<VotingItem>)
  {
    && (|items| == 0 ==> m == 0)
    && (forall k :: 0 <= k < |items| ==> items[k].votes <= m)
    && (|items| > 0 ==> exists k :: 0 <= k < |items| && items[k].votes == m)
  }

  /* The mount effect reads the catalog (seeding it if absent) and ranks it by
     a stable descending sort; `maxVotes` is the largest count (0 for an
     empty catalog), the total is the catalog's, and there is one row per
     item. */
  lemma LoadResultsShape(s: Store)
    ensures LoadResults(s).store == GetVotingItems(s).store
    ensures StableRankingOf(LoadResults(s).ranked, Catalog(s))
    ensures IsLargestCount(LoadResults(s).maxVotes, Catalog(s))
    ensures LoadResults(s).totalVotes == TotalVotes(Catalog(s))
    ensures |LoadResults(s).rows| == |Catalog(s)|
    ensures LoadResults(s).headline == MostPopular(LoadResults(s).ranked)
  {
    var items := Catalog(s);
    var res := LoadResults(s);
    assert res.ranked == Rank(items) && res.maxVotes == MaxVotes(Rank(items)) && res.totalVotes == TotalVotes(Rank(items));
    RankFigures(items);
  }

  lemma RankFigures(items: seq<VotingItem>)
    ensures StableRankingOf(Rank(items), items)
    ensures IsLargestCount(MaxVotes(Rank(items)), items)
    ensures TotalVotes(Rank(items)) == TotalVotes(items)
  {
    RankSameOrderWithinCounts(items);
    MaxVotesIsLargest(items);
    TotalVotesPermutation(Rank(items), items);
  }

  lemma PermutationNonNegative(a: seq<VotingItem>, b: seq<VotingItem>)
    requires multiset(a) == multiset(b)
    requires NonNegative(b)
    ensures NonNegative(a)
  {
    forall k | 0 <= k < |a|
      ensures a[k].votes >= 0
    {
      assert a[k] in multiset(b);
    }
  }

  /* Every bar and every share lies in [0, 100]. */
  ghost predicate FiguresInRange(rows: seq<Row>)
  {
    forall k :: 0 <= k < |rows| ==>
      && 0.0 <= rows[k].percentOfMax <= 100.0
      && 0 <= rows[k].shareOfTotal <= 100
  }

  /* Every bar and every share is 0. */
  ghost predicate AllZero(rows: seq<Row>)
  {
    forall k :: 0 <= k < |rows| ==> rows[k].percentOfMax == 0.0 && rows[k].shareOfTotal == 0
  }

  /* Every count lies between 0 and both `maxVotes` and `totalVotes`. */
  ghost predicate CountsWithin(ranked: seq<VotingItem>, maxVotes: int, totalVotes: int)
  {
    forall k :: 0 <= k < |ranked| ==> 0 <= ranked[k].votes <= maxVotes && ranked[k].votes <= totalVotes
  }

  /* Each row's figures lie in [0, 100] when its count lies between 0 and both
     the largest count and the total. */
  lemma RowsInRange(ranked: seq<VotingItem>, maxVotes: int, totalVotes: int)
    requires CountsWithin(ranked, maxVotes, totalVotes)
    ensures FiguresInRange(Rows(ranked, maxVotes, totalVotes))
  {
  }

  /* With no votes at all, nothing is drawn. */
  lemma RowsWithoutVotes(ranked: seq<VotingItem>, maxVotes: int)
    requires maxVotes <= 0
    ensures AllZero(Rows(ranked, maxVotes, 0))
  {
  }

  /* The catalog figures the results screen relies on: the total over the
     ranking is the catalog's, and every count lies between 0 and both the
     largest count and the total. */
  lemma RankedCountsBounded(items: seq<VotingItem>)
    requires NonNegative(items)
    ensures TotalVotes(Rank(items)) == TotalVotes(items)
    ensures CountsWithin(Rank(items), MaxVotes(Rank(items)), TotalVotes(Rank(items)))
    ensures MaxVotes(Rank(items)) <= TotalVotes(Rank(items))
  {
    var ranked := Rank(items);
    TotalVotesPermutation(ranked, items);
    PermutationNonNegative(ranked, items);
    TotalVotesBounds(ranked);
    MaxVotesIsLargest(items);
    forall k | 0 <= k < |ranked|
      ensures ranked[k].votes <= MaxVotes(ranked)
    {
      assert ranked[k] in multiset(items);
    }
  }

  /* With no negative count in the catalog, every bar and every share lies in
     [0, 100], and the total is the catalog's total. */
  lemma ResultsFiguresInRange(s: Store)
    requires NonNegative(Catalog(s))
    ensures LoadResults(s).totalVotes == TotalVotes(Catalog(s))
    ensures FiguresInRange(LoadResults(s).rows)
  {
    var items := Catalog(s);
    var ranked := Rank(items);
    var res := LoadResults(s);
    assert res.ranked == ranked && res.maxVotes == MaxVotes(ranked) && res.totalVotes == TotalVotes(ranked);
    assert res.rows == Rows(ranked, res.maxVotes, res.totalVotes);
    RankedCountsBounded(items);
    RowsInRange(ranked, res.maxVotes, res.totalVotes);
  }

  /* The leader's bar is full unless nobody has voted; when nobody has voted
     every bar and every share is 0. */
  lemma ResultsLeaderAndNoVotes(s: Store)
    requires NonNegative(Catalog(s))
    ensures LoadResults(s).maxVotes > 0 ==> LoadResults(s).rows[0].percentOfMax == 100.0
    ensures LoadResults(s).totalVotes == 0 ==> AllZero(LoadResults(s).rows)
  {
    var items := Catalog(s);
    var ranked := Rank(items);
    var res := LoadResults(s);
    assert res.ranked == ranked && res.maxVotes == MaxVotes(ranked) && res.totalVotes == TotalVotes(ranked);
    assert res.rows == Rows(ranked, res.maxVotes, res.totalVotes);
    RankedCountsBounded(items);
    if res.maxVotes > 0 {
      assert res.rows[0].percentOfMax == PercentOfMax(ranked[0].votes, ranked[0].votes);
    }
    if res.totalVotes == 0 {
      RowsWithoutVotes(ranked, res.maxVotes);
    }
  }

  lemma RankingExampleTail(b: VotingItem, c: VotingItem, d: VotingItem)
    requires b.votes == 5 && c.votes == 5 && d.votes == 1
    ensures Rank([b, c, d]) == [b, c, d]
  {
    assert [d][1..] == [];
    assert Rank([d]) == [d];
    assert [c, d][1..] == [d];
    assert Insert(c, [d]) == [c, d];
    assert Rank([c, d]) == [c, d];
    assert [b, c, d][1..] == [c, d];
    assert Insert(b, [c, d]) == [b, c, d];
  }

  lemma InsertExample(a: VotingItem, b: VotingItem, c: VotingItem, d: VotingItem)
    requires a.votes == 3 && b.votes == 5 && c.votes == 5 && d.votes == 1
    ensures SortedByVotesDesc([b, c, d])
    ensures Insert(a, [b, c, d]) == [b, c, a, d]
  {
    InsertExampleTail(a, c, d);
    var t := [b, c, d];
    assert t[1..] == [c, d];
    assert SortedByVotesDesc(t) by {
      forall i, j | 0 <= i < j < 3
        ensures t[i].votes >= t[j].votes
      {
      }
    }
    assert t[0].votes > a.votes;
    assert Insert(a, t) == [t[0]] + Insert(a, t[1..]);
  }

  lemma InsertExampleTail(a: VotingItem, c: VotingItem, d: VotingItem)
    requires a.votes == 3 && c.votes == 5 && d.votes == 1
    ensures SortedByVotesDesc([c, d])
    ensures Insert(a, [c, d]) == [c, a, d]
  {
    assert Insert(a, [d]) == [a, d];
    assert [c, d][1..] == [d];
    assert Insert(a, [c, d]) == [c] + Insert(a, [d]);
  }

  /* Counts [3, 5, 5, 1] rank as second, third, first, fourth: the two items
     with 5 keep their catalog order. */
  lemma RankingExample(a: VotingItem, b: VotingItem, c: VotingItem, d: VotingItem)
    requires a.votes == 3 && b.votes == 5 && c.votes == 5 && d.votes == 1
    ensures Rank([a, b, c, d]) == [b, c, a, d]
  {
    RankingExampleTail(b, c, d);
    InsertExample(a, b, c, d);
    assert [a, b, c, d][1..] == [b, c, d];
  }
}
