/**
 `sample_pagerank`: a random walk of n visits over the corpus; the rank of
 a page is the fraction of visits that landed on it. The two random choices
 of the source, the uniformly chosen first page and the page drawn from the
 current transition distribution at each later step, are inputs here: `first`
 and `picks`.
 */
module Sampling {
  import opened Sums
  import opened LinkGraph
  import opened Transition

  /** The number of pages drawn after the first one: `range(1, n)` is empty when n <= 1. */
  function Draws(n: int): nat {
    if n > 1 then n - 1 else 0
  }

  /** All pages visited by a walk: the first page, then each pick in order. */
  function Visits(first: Page, picks: seq<Page>): seq<Page> {
    [first] + picks
  }

  /** How often each page occurs in `visits`, as a real-valued function. */
  function VisitCounts(visits: seq<Page>): Page -> real {
    p => multiset(visits)[p] as real
  }

  /** Over a distinct enumeration of every visited page, the visit counts sum to the number of visits. */
  lemma {:induction false} CountsSumToVisits(keys: seq<Page>, visits: seq<Page>)
    requires Distinct(keys)
    requires forall i :: 0 <= i < |visits| ==> visits[i] in keys
    ensures Sum(keys, VisitCounts(visits)) == |visits| as real
  {
    if |visits| == 0 {
      assert ConstantOn(keys, VisitCounts(visits), 0.0);
      SumConstant(keys, VisitCounts(visits), 0.0, |keys|);
    } else {
      var pre, x := visits[..|visits| - 1], visits[|visits| - 1];
      assert visits == pre + [x];
      CountsSumToVisits(keys, pre);
      SumIndicator(keys, {x}, 1.0, |keys|);
      assert {x} <= Elements(keys);
      CountInSubset(keys, {x});
      assert SumTo(keys, Indicator({x}, 1.0), |keys|) == 1.0;
      forall i | 0 <= i < |keys|
        ensures VisitCounts(visits)(keys[i]) == VisitCounts(pre)(keys[i]) + Indicator({x}, 1.0)(keys[i])
      {
        assert multiset(visits) == multiset(pre) + multiset{x};
      }
      SumAdd(keys, VisitCounts(pre), Indicator({x}, 1.0), VisitCounts(visits), |keys|);
    }
  }

  /** Lines 94-97: a counter of 0 for every page of the corpus. */
  method ZeroCounters(c: Corpus) returns (ret: map<Page, int>)
    requires c.Valid()
    ensures ret.Keys == c.links.Keys
    ensures forall p :: p in ret ==> ret[p] == 0
  {
    ret := map[];
    var i := 0;
    while i < |c.keys|
      invariant 0 <= i <= |c.keys|
      invariant ret.Keys == Elements(c.keys[..i])
      invariant forall p :: p in ret ==> ret[p] == 0
    {
      assert c.keys[..i + 1] == c.keys[..i] + [c.keys[i]];
      ret := ret[c.keys[i] := 0];
      i := i + 1;
    }
    assert c.keys[..i] == c.keys;
  }

  /**
   The sampling estimator. The n visits are counted page by page, and each
   count is then divided by n. Before every draw the transition distribution
   of the current page is rebuilt, as in the source; the drawn page is one
   of its keys.
   */
  method SamplePageRank(c: Corpus, d: real, n: int, first: Page, picks: seq<Page>)
    returns (ranks: map<Page, real>)
    requires c.Valid()
    requires n != 0 && |picks| == Draws(n)
    requires first in c.links
    requires forall i :: 0 <= i < |picks| ==> picks[i] in c.links
    ensures ranks.Keys == c.links.Keys
    ensures forall p :: p in ranks ==> ranks[p] == multiset(Visits(first, picks))[p] as real / n as real
    ensures n >= 1 ==> Mass(c.keys, ranks) == 1.0
    ensures n >= 1 ==> forall p :: p in ranks ==> 0.0 <= ranks[p] <= 1.0
  {
    var counts := CountVisits(c, d, n, first, picks);
    ranks := DivideCounts(c, counts, n);
    if n >= 1 {
      RanksAreFrequencies(c, first, picks, ranks, n);
    }
  }

  /**
   Lines 94-113: the walk itself. The first page is counted, and before each
   later step the transition distribution of the current page is built and
   the next page is drawn from its keys.
   */
  method CountVisits(c: Corpus, d: real, n: int, first: Page, picks: seq<Page>)
    returns (counts: map<Page, int>)
    requires c.Valid()
    requires |picks| == Draws(n)
    requires first in c.links
    requires forall i :: 0 <= i < |picks| ==> picks[i] in c.links
    ensures counts.Keys == c.links.Keys
    ensures CountersMatch(counts, Visits(first, picks))
  {
    counts := ZeroCounters(c);
    CountOneMore(counts, [], first);
    counts := counts[first := counts[first] + 1];
    assert Visits(first, picks[..0]) == [] + [first];
    var previousModel := TransitionModel(c, first, d);
    var i := 1;
    while i < n
      invariant 1 <= i <= |picks| + 1
      invariant counts.Keys == c.links.Keys
      invariant previousModel.Keys >= c.links.Keys
      invariant CountersMatch(counts, Visits(first, picks[..i - 1]))
    {
      var selectedPage := picks[i - 1];
      assert selectedPage in previousModel;
      CountOneMore(counts, Visits(first, picks[..i - 1]), selectedPage);
      VisitsExtend(first, picks, i);
      counts := counts[selectedPage := counts[selectedPage] + 1];
      previousModel := TransitionModel(c, selectedPage, d);
      assert previousModel.Keys == c.links.Keys + c.links[selectedPage];
      i := i + 1;
    }
    assert picks[..i - 1] == picks;
  }

  /** The walk up to draw i is the walk up to draw i - 1, then the i-th pick. */
  lemma VisitsExtend(first: Page, picks: seq<Page>, i: nat)
    requires 1 <= i <= |picks|
    ensures Visits(first, picks[..i]) == Visits(first, picks[..i - 1]) + [picks[i - 1]]
  {
    assert picks[..i] == picks[..i - 1] + [picks[i - 1]];
  }

  /** Every counter holds the number of times its page occurs in `visits`. */
  ghost predicate CountersMatch(counts: map<Page, int>, visits: seq<Page>) {
    forall p :: p in counts ==> counts[p] == multiset(visits)[p]
  }

  /** Counting one more visit of `x` keeps the counters equal to the visit counts. */
  lemma CountOneMore(counts: map<Page, int>, visits: seq<Page>, x: Page)
    requires x in counts && CountersMatch(counts, visits)
    ensures CountersMatch(counts[x := counts[x] + 1], visits + [x])
  {
    assert multiset(visits + [x]) == multiset(visits) + multiset{x};
  }

  /** Lines 115-116: every counter divided by n. */
  method DivideCounts(c: Corpus, counts: map<Page, int>, n: int) returns (ret: map<Page, real>)
    requires c.Valid() && counts.Keys == c.links.Keys && n != 0
    ensures ret.Keys == c.links.Keys
    ensures forall p :: p in ret ==> ret[p] == counts[p] as real / n as real
  {
    ret := map[];
    var i := 0;
    while i < |c.keys|
      invariant 0 <= i <= |c.keys|
      invariant ret.Keys == Elements(c.keys[..i])
      invariant forall p :: p in ret ==> ret[p] == counts[p] as real / n as real
    {
      assert c.keys[..i + 1] == c.keys[..i] + [c.keys[i]];
      var page := c.keys[i];
      ret := ret[page := counts[page] as real / n as real];
      i := i + 1;
    }
    assert c.keys[..i] == c.keys;
  }

  /** Visit frequencies of a walk through the corpus sum to 1 and lie in [0, 1]. */
  lemma RanksAreFrequencies(c: Corpus, first: Page, picks: seq<Page>, ranks: map<Page, real>, n: int)
    requires c.Valid()
    requires n >= 1 && |picks| == n - 1
    requires first in c.links
    requires forall i :: 0 <= i < |picks| ==> picks[i] in c.links
    requires ranks.Keys == c.links.Keys
    requires forall p :: p in ranks ==> ranks[p] == multiset(Visits(first, picks))[p] as real / n as real
    ensures Mass(c.keys, ranks) == 1.0
    ensures forall p :: p in ranks ==> 0.0 <= ranks[p] <= 1.0
  {
    var visits := Visits(first, picks);
    CountersSumToN(c, first, picks, n);
    RanksAreQuotients(c, visits, ranks, n);
    ScaledCountsSumToOne(c.keys, VisitCounts(visits), ValueOf(ranks), n);
    forall p | p in ranks ensures 0.0 <= ranks[p] {
      QuotientSign(multiset(visits)[p] as real, n as real);
    }
    MassBoundsEntries(c.keys, ranks);
  }

  /** After the first page and the n - 1 draws, the visit counts of the corpus pages sum to n. */
  lemma CountersSumToN(c: Corpus, first: Page, picks: seq<Page>, n: int)
    requires c.Valid() && n >= 1 && |picks| == Draws(n)
    requires first in c.links
    requires forall i :: 0 <= i < |picks| ==> picks[i] in c.links
    ensures Sum(c.keys, VisitCounts(Visits(first, picks))) == n as real
  {
    VisitsInCorpus(c, first, picks);
    CountsSumToVisits(c.keys, Visits(first, picks));
  }

  /** Every page a walk visits is a page of the corpus. */
  lemma VisitsInCorpus(c: Corpus, first: Page, picks: seq<Page>)
    requires c.Valid()
    requires first in c.links
    requires forall i :: 0 <= i < |picks| ==> picks[i] in c.links
    ensures forall i :: 0 <= i < |Visits(first, picks)| ==> Visits(first, picks)[i] in c.keys
  {
    var visits := Visits(first, picks);
    forall i | 0 <= i < |visits| ensures visits[i] in c.keys {
      if i > 0 {
        assert visits[i] == picks[i - 1];
      }
    }
  }

  /** The entries of `ranks`, read along the keys, are the visit counts divided by n. */
  lemma RanksAreQuotients(c: Corpus, visits: seq<Page>, ranks: map<Page, real>, n: int)
    requires c.Valid() && n >= 1
    requires ranks.Keys == c.links.Keys
    requires forall p :: p in ranks ==> ranks[p] == multiset(visits)[p] as real / n as real
    ensures forall i :: 0 <= i < |c.keys| ==> ValueOf(ranks)(c.keys[i]) == VisitCounts(visits)(c.keys[i]) / n as real
  {
    forall i | 0 <= i < |c.keys| ensures ValueOf(ranks)(c.keys[i]) == VisitCounts(visits)(c.keys[i]) / n as real {
      assert c.keys[i] in ranks;
    }
  }

  /** Counts that sum to n, each divided by n, sum to 1. */
  lemma ScaledCountsSumToOne(keys: seq<Page>, counts: Page -> real, ranks: Page -> real, n: int)
    requires n >= 1
    requires Sum(keys, counts) == n as real
    requires forall i :: 0 <= i < |keys| ==> ranks(keys[i]) == counts(keys[i]) / n as real
    ensures Sum(keys, ranks) == 1.0
  {
    var m := n as real;
    QuotientsTimesDivisor(keys, counts, ranks, m);
    SumScaled(keys, counts, ranks, m, |keys|);
    CancelFactor(m, Sum(keys, ranks));
  }

  /** Pointwise, each quotient times the divisor is the dividend. */
  lemma QuotientsTimesDivisor(keys: seq<Page>, counts: Page -> real, ranks: Page -> real, m: real)
    requires m != 0.0
    requires forall i :: 0 <= i < |keys| ==> ranks(keys[i]) == counts(keys[i]) / m
    ensures forall i :: 0 <= i < |keys| ==> m * ranks(keys[i]) == counts(keys[i])
  {
    forall i | 0 <= i < |keys| ensures m * ranks(keys[i]) == counts(keys[i]) {
      TimesQuotient(m, counts(keys[i]));
    }
  }
}
