/**
 `transition_model`: given the page the surfer is on, the probability of
 visiting each page next. With probability d the surfer follows one of the
 page's out-links, chosen uniformly; otherwise it jumps to any page of the
 corpus, chosen uniformly. A page without out-links sends the surfer to
 every page with the same probability.
 */
module Transition {
  import opened Sums
  import opened LinkGraph

  /**
   The probability of moving from `page` to `q`: 1/N when `page` has no
   out-links; otherwise (1-d)/N, plus d/|links| when `page` links to `q`.
   */
  function Weight(c: Corpus, page: Page, d: real, q: Page): real
    requires c.Valid() && page in c.links
  {
    var links := c.links[page];
    var n := c.Size() as real;
    if |links| == 0 then 1.0 / n
    else if q in links then d / |links| as real + (1.0 - d) / n
    else (1.0 - d) / n
  }

  /**
   The distribution the source builds. Its keys are the pages of the corpus
   together with the page's out-links (the same set once the graph is well
   formed, see DistributionKeys).
   */
  function Distribution(c: Corpus, page: Page, d: real): (r: map<Page, real>)
    requires c.Valid() && page in c.links
    ensures r.Keys == c.links.Keys + c.links[page]
  {
    map q | q in c.links.Keys + c.links[page] :: Weight(c, page, d, q)
  }

  /**
   The source's procedure: a dangling page gets every page 1/N; otherwise
   each page it does not link to gets (1-d)/N, and then each page it links
   to gets d/|links| + (1-d)/N.
   */
  method TransitionModel(c: Corpus, page: Page, d: real) returns (ret: map<Page, real>)
    requires c.Valid() && page in c.links
    ensures ret == Distribution(c, page, d)
  {
    var addedConstant := 1.0 - d;
    var noOfPages := c.Size();
    assert page in c.keys;
    var links := c.links[page];
    if |links| == 0 {
      ret := FillPages(c, {}, 1.0 / noOfPages as real);
      DanglingIsDistribution(c, page, d, ret);
    } else {
      var jump := addedConstant / noOfPages as real;
      var follow := d / |links| as real + jump;
      var base := FillPages(c, links, jump);
      ret := FillLinks(base, links, follow);
      LinkedWeights(c, page, d, addedConstant, noOfPages, jump, follow);
      LinkedIsDistribution(c, page, d, jump, follow, base, ret);
    }
  }

  /**
   The entries of the distribution: 1/N on every page when the page has no
   out-links; otherwise (1-d)/N on every page, plus d/|links| on each linked page.
   */
  lemma DistributionEntries(c: Corpus, page: Page, d: real)
    requires c.Valid() && page in c.links
    ensures c.links[page] == {} ==> forall q :: q in Distribution(c, page, d) <==> q in c.links
    ensures c.links[page] == {} ==> forall q :: q in Distribution(c, page, d) ==>
      Distribution(c, page, d)[q] == 1.0 / c.Size() as real
    ensures forall q :: q in c.links[page] ==>
      q in Distribution(c, page, d) &&
      Distribution(c, page, d)[q] == d / |c.links[page]| as real + (1.0 - d) / c.Size() as real
    ensures c.links[page] != {} ==> forall q :: q in c.links && q !in c.links[page] ==>
      q in Distribution(c, page, d) && Distribution(c, page, d)[q] == (1.0 - d) / c.Size() as real
  {
  }

  /** For a page without out-links, 1/N on every page of the corpus is the distribution. */
  lemma DanglingIsDistribution(c: Corpus, page: Page, d: real, r: map<Page, real>)
    requires c.Valid() && page in c.links && |c.links[page]| == 0
    requires r.Keys == c.links.Keys
    requires forall q :: q in r ==> r[q] == 1.0 / c.Size() as real
    ensures r == Distribution(c, page, d)
  {
    var spec := Distribution(c, page, d);
    assert r.Keys == spec.Keys;
    forall q | q in r ensures r[q] == spec[q] {}
  }

  /**
   For a page with out-links, (1-d)/N on every page it does not link to,
   then d/|links| + (1-d)/N on every page it links to, is the distribution.
   */
  lemma LinkedIsDistribution(c: Corpus, page: Page, d: real, jump: real, follow: real, base: map<Page, real>, r: map<Page, real>)
    requires c.Valid() && page in c.links && |c.links[page]| > 0
    requires forall q :: Weight(c, page, d, q) == if q in c.links[page] then follow else jump
    requires base.Keys == c.links.Keys - c.links[page]
    requires forall q :: q in base ==> base[q] == jump
    requires r.Keys == base.Keys + c.links[page]
    requires forall q :: q in r ==> r[q] == if q in c.links[page] then follow else base[q]
    ensures r == Distribution(c, page, d)
  {
    var spec := Distribution(c, page, d);
    assert r.Keys == spec.Keys by {
      assert base.Keys + c.links[page] == c.links.Keys + c.links[page];
    }
    forall q | q in r ensures r[q] == spec[q] {
      assert spec[q] == Weight(c, page, d, q);
    }
  }

  /**
   For a page with out-links, every weight is the source's jump value
   addedConstant / noOfPages or its follow value d / |links| + jump.
   */
  lemma LinkedWeights(c: Corpus, page: Page, d: real, addedConstant: real, noOfPages: int, jump: real, follow: real)
    requires c.Valid() && page in c.links && |c.links[page]| > 0
    requires addedConstant == 1.0 - d && noOfPages == c.Size() && noOfPages != 0
    requires jump == addedConstant / noOfPages as real
    requires follow == d / |c.links[page]| as real + jump
    ensures forall q :: Weight(c, page, d, q) == if q in c.links[page] then follow else jump
  {
    SameQuotient(addedConstant, noOfPages, 1.0 - d, c.Size());
  }

  /** One loop over the pages of the corpus: every page outside `skip` gets `value`. */
  method FillPages(c: Corpus, skip: set<Page>, value: real) returns (ret: map<Page, real>)
    requires c.Valid()
    ensures ret.Keys == c.links.Keys - skip
    ensures forall q :: q in ret ==> ret[q] == value
  {
    ret := map[];
    var i := 0;
    while i < |c.keys|
      invariant 0 <= i <= |c.keys|
      invariant ret.Keys == Elements(c.keys[..i]) - skip
      invariant forall q :: q in ret ==> ret[q] == value
    {
      assert c.keys[..i + 1] == c.keys[..i] + [c.keys[i]];
      var singlePage := c.keys[i];
      if singlePage !in skip {
        ret := ret[singlePage := value];
      }
      i := i + 1;
    }
    assert c.keys[..i] == c.keys;
  }

  /** One loop over a page's out-links: each of them gets `value`, every other entry is kept. */
  method FillLinks(m: map<Page, real>, links: set<Page>, value: real) returns (ret: map<Page, real>)
    ensures ret.Keys == m.Keys + links
    ensures forall q :: q in ret ==> ret[q] == if q in links then value else m[q]
  {
    ret := m;
    var rest := links;
    while rest != {}
      invariant rest <= links
      invariant ret.Keys == m.Keys + (links - rest)
      invariant forall q :: q in ret ==> ret[q] == if q in links - rest then value else m[q]
      decreases rest
    {
      var nextPage :| nextPage in rest;
      ret := ret[nextPage := value];
      rest := rest - {nextPage};
    }
  }

  /** Once the graph is well formed the distribution covers exactly the pages of the corpus. */
  lemma DistributionKeys(c: Corpus, page: Page, d: real)
    requires c.WellFormed() && page in c.links
    ensures Distribution(c, page, d).Keys == c.links.Keys
  {
  }

  /** Over exact reals the probabilities of a well-formed graph sum to exactly 1. */
  lemma DistributionSumsToOne(c: Corpus, page: Page, d: real)
    requires c.WellFormed() && page in c.links
    ensures Mass(c.keys, Distribution(c, page, d)) == 1.0
  {
    if |c.links[page]| == 0 {
      DanglingSumsToOne(c, page, d);
    } else {
      LinkedSumsToOne(c, page, d);
    }
  }

  /** The uniform distribution of a page without out-links sums to 1. */
  lemma DanglingSumsToOne(c: Corpus, page: Page, d: real)
    requires c.Valid() && page in c.links && |c.links[page]| == 0
    ensures Mass(c.keys, Distribution(c, page, d)) == 1.0
  {
    var r := Distribution(c, page, d);
    assert page in c.keys;
    forall i | 0 <= i < |c.keys|
      ensures ValueOf(r)(c.keys[i]) == 1.0 / |c.keys| as real
    {
      assert c.keys[i] in c.links;
    }
    assert ConstantOn(c.keys, ValueOf(r), 1.0 / |c.keys| as real);
    UniformSumsToOne(c.keys, ValueOf(r));
  }

  /** The distribution of a page with out-links inside the corpus sums to 1. */
  lemma LinkedSumsToOne(c: Corpus, page: Page, d: real)
    requires c.WellFormed() && page in c.links && |c.links[page]| > 0
    ensures Mass(c.keys, Distribution(c, page, d)) == 1.0
  {
    var r := Distribution(c, page, d);
    var links := c.links[page];
    var jump := (1.0 - d) / |c.keys| as real;
    var share := d / |links| as real;
    forall i | 0 <= i < |c.keys|
      ensures ValueOf(r)(c.keys[i]) == jump + 1.0 * Indicator(links, share)(c.keys[i])
    {
      assert c.keys[i] in c.links;
    }
    assert AffineOn(c.keys, Indicator(links, share), ValueOf(r), jump, 1.0);
    assert links <= Elements(c.keys);
    JumpOrFollowSumsToOne(c.keys, ValueOf(r), links, d, jump, share);
  }

  /**
   A jump probability (1-d)/N on each of N distinct pages, plus a share
   d/|links| on each page of a non-empty set of links among them, sums to 1.
   */
  lemma JumpOrFollowSumsToOne(keys: seq<Page>, f: Page -> real, links: set<Page>, d: real, jump: real, share: real)
    requires Distinct(keys)
    requires links <= Elements(keys) && links != {}
    requires jump == (1.0 - d) / |keys| as real
    requires share == d / |links| as real
    requires AffineOn(keys, Indicator(links, share), f, jump, 1.0)
    ensures Sum(keys, f) == 1.0
  {
    assert |keys| > 0 by {
      var q :| q in links;
    }
    TimesQuotient(|keys| as real, 1.0 - d);
    TimesQuotient(|links| as real, d);
    SumAffine(keys, Indicator(links, share), f, jump, 1.0, |keys|);
    SumIndicator(keys, links, share, |keys|);
    CountInSubset(keys, links);
  }

  /** For 0 <= d <= 1 no page has negative probability; for d < 1 every page has positive probability. */
  lemma DistributionBounds(c: Corpus, page: Page, d: real)
    requires c.Valid() && page in c.links
    requires 0.0 <= d <= 1.0
    ensures forall q :: q in Distribution(c, page, d) ==> 0.0 <= Distribution(c, page, d)[q]
    ensures d < 1.0 ==> forall q :: q in Distribution(c, page, d) ==> 0.0 < Distribution(c, page, d)[q]
  {
    assert page in c.keys;
    var links := c.links[page];
    var n := |c.keys| as real;
    QuotientSign(1.0, n);
    QuotientSign(1.0 - d, n);
    if |links| > 0 {
      QuotientSign(d, |links| as real);
    }
  }
}
