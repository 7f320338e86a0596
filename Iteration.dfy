/**
 `iterate_pagerank`: start from the uniform ranking and apply the PageRank
 update PR(p) = (1-d)/N + d * sum_i PR(i)/NumLinks(i) again and again, a
 page without links counting as a link to every page, until no rank moves by
 as much as the threshold in one round. The source loops until that happens;
 here the number of rounds is bounded by a `fuel` argument.
 */
module Iteration {
  import opened Sums
  import opened LinkGraph

  /** The convergence margin of line 164. */
  const Threshold: real := 0.001

  /** |x|. */
  function Abs(x: real): real {
    if x < 0.0 then -x else x
  }

  /** The larger of a and b. */
  function Max(a: real, b: real): real {
    if a < b then b else a
  }

  /**
   What page i passes to page p in one round (lines 151-155): its rank
   divided by N when it has no out-links, divided by its number of out-links
   when it links to p, and nothing otherwise.
   */
  function Share(c: Corpus, rank: map<Page, real>, p: Page, i: Page): real
    requires c.Valid() && i in c.links
  {
    assert i in c.keys;
    if |c.links[i]| == 0 then Get(rank, i) / c.Size() as real
    else if p in c.links[i] then Get(rank, i) / |c.links[i]| as real
    else 0.0
  }

  /** Share as a two-place function of (receiver, giver), 0 for a giver outside the corpus. */
  function Shares(c: Corpus, rank: map<Page, real>): (Page, Page) -> real
    requires c.Valid()
  {
    (p, i) => if i in c.links then Share(c, rank, p, i) else 0.0
  }

  /**
   The `total` of lines 149-155 after the first n givers: what page p
   receives from them, summed in the order of the corpus. It is the same sum
   as `SumTo(c.keys, Row(Shares(c, rank), p), n)` (InboundToIsSum), written
   out with first-order recursion so that the loop and the round reason about
   it without unfolding function values; the generic form is what the
   double-sum swap of InboundMass needs.
   */
  function InboundTo(c: Corpus, rank: map<Page, real>, p: Page, n: nat): real
    requires c.Valid() && n <= |c.keys|
  {
    if n == 0 then 0.0
    else
      assert c.keys[n - 1] in c.links;
      InboundTo(c, rank, p, n - 1) + Share(c, rank, p, c.keys[n - 1])
  }

  /** What page p receives from all pages in one round. */
  function Inbound(c: Corpus, rank: map<Page, real>, p: Page): real
    requires c.Valid()
  {
    InboundTo(c, rank, p, |c.keys|)
  }

  /** Inbound as a function of the receiving page. */
  function Inbounds(c: Corpus, rank: map<Page, real>): Page -> real
    requires c.Valid()
  {
    p => Inbound(c, rank, p)
  }

  /** The random-jump part of every new rank, `added_constant` of line 133. */
  function Jump(c: Corpus, d: real): real
    requires c.Size() > 0
  {
    (1.0 - d) / c.Size() as real
  }

  /** The new rank of page p, line 156. */
  function NewRank(c: Corpus, d: real, rank: map<Page, real>, p: Page): real
    requires c.Valid() && c.Size() > 0
  {
    Jump(c, d) + d * Inbound(c, rank, p)
  }

  /** One round of the update (lines 148-156): every page's new rank, from the old ranks. */
  function Step(c: Corpus, d: real, rank: map<Page, real>): (r: map<Page, real>)
    requires c.Valid() && c.Size() > 0
    ensures r.Keys == c.links.Keys
  {
    map p | p in c.links :: NewRank(c, d, rank, p)
  }

  /** The starting ranking of lines 136-137: 1/N for every page. */
  function Uniform(c: Corpus): (r: map<Page, real>)
    requires c.Valid() && c.Size() > 0
    ensures r.Keys == c.links.Keys
  {
    map p | p in c.links :: 1.0 / c.Size() as real
  }

  /** The ranking after k rounds. */
  function Iterates(c: Corpus, d: real, k: nat): (r: map<Page, real>)
    requires c.Valid() && c.Size() > 0
    ensures r.Keys == c.links.Keys
  {
    if k == 0 then Uniform(c) else Step(c, d, Iterates(c, d, k - 1))
  }

  /**
   The `mxv` of lines 158-162 after the first n pages of `ks`: -1 maximised
   with the absolute change of each of them, in order.
   */
  function MaxChangeTo(ks: seq<Page>, before: map<Page, real>, after: map<Page, real>, n: nat): real
    requires n <= |ks|
  {
    if n == 0 then -1.0
    else Max(MaxChangeTo(ks, before, after, n - 1), Abs(Get(before, ks[n - 1]) - Get(after, ks[n - 1])))
  }

  /** The `mxv` of a whole round over the pages `ks`. */
  function MaxChange(ks: seq<Page>, before: map<Page, real>, after: map<Page, real>): real {
    MaxChangeTo(ks, before, after, |ks|)
  }

  /** Round k (k >= 1) moved no page by as much as the threshold: the test of line 164. */
  ghost predicate HasConverged(c: Corpus, d: real, k: nat)
    requires c.Valid() && c.Size() > 0 && k >= 1
  {
    MaxChange(c.keys, Iterates(c, d, k - 1), Iterates(c, d, k)) < Threshold
  }

  /** `mxv` is at least -1 and at least the change of each page it has seen. */
  lemma {:induction false} MaxChangeBounds(ks: seq<Page>, before: map<Page, real>, after: map<Page, real>, n: nat)
    requires n <= |ks|
    ensures -1.0 <= MaxChangeTo(ks, before, after, n)
    ensures forall i :: 0 <= i < n ==> Abs(Get(before, ks[i]) - Get(after, ks[i])) <= MaxChangeTo(ks, before, after, n)
  {
    if n > 0 {
      MaxChangeBounds(ks, before, after, n - 1);
    }
  }

  /**
   For a non-negative threshold t, `mxv < t` holds exactly when every page
   seen changed by less than t.
   */
  lemma {:induction false} MaxChangeBelow(ks: seq<Page>, before: map<Page, real>, after: map<Page, real>, t: real, n: nat)
    requires 0.0 <= t && n <= |ks|
    ensures MaxChangeTo(ks, before, after, n) < t <==>
      forall i :: 0 <= i < n ==> Abs(Get(before, ks[i]) - Get(after, ks[i])) < t
  {
    MaxChangeBounds(ks, before, after, n);
    if n > 0 {
      MaxChangeBelow(ks, before, after, t, n - 1);
    }
  }

  /** Lines 136-137: every page starts at 1/N. */
  method InitialRanks(c: Corpus, noOfPages: nat) returns (ret: map<Page, real>)
    requires c.Valid() && c.Size() > 0 && noOfPages == c.Size()
    ensures ret == Uniform(c)
  {
    ret := map[];
    var i := 0;
    while i < |c.keys|
      invariant 0 <= i <= |c.keys|
      invariant ret.Keys == Elements(c.keys[..i])
      invariant forall p :: p in ret ==> ret[p] == 1.0 / c.Size() as real
    {
      assert c.keys[..i + 1] == c.keys[..i] + [c.keys[i]];
      ret := ret[c.keys[i] := 1.0 / noOfPages as real];
      i := i + 1;
    }
    assert c.keys[..i] == c.keys;
  }

  /** Lines 144-146: a copy of the ranking. */
  method CopyRanks(c: Corpus, ret: map<Page, real>) returns (tmp: map<Page, real>)
    requires c.Valid() && ret.Keys == c.links.Keys
    ensures tmp == ret
  {
    tmp := map[];
    var i := 0;
    while i < |c.keys|
      invariant 0 <= i <= |c.keys|
      invariant tmp.Keys == Elements(c.keys[..i])
      invariant forall p :: p in tmp ==> tmp[p] == ret[p]
    {
      assert c.keys[..i + 1] == c.keys[..i] + [c.keys[i]];
      tmp := tmp[c.keys[i] := ret[c.keys[i]]];
      i := i + 1;
    }
    assert c.keys[..i] == c.keys;
  }

  /** Lines 149-155: the inner loop accumulating what page p receives. */
  method InboundTotal(c: Corpus, ret: map<Page, real>, p: Page, noOfPages: nat) returns (total: real)
    requires c.Valid() && c.Size() > 0 && noOfPages == c.Size()
    requires ret.Keys == c.links.Keys
    ensures total == Inbound(c, ret, p)
  {
    total := 0.0;
    var j := 0;
    while j < |c.keys|
      invariant 0 <= j <= |c.keys|
      invariant total == InboundTo(c, ret, p, j)
    {
      var i := c.keys[j];
      assert i in c.links;
      if |c.links[i]| == 0 {
        total := total + ret[i] / noOfPages as real;
      } else if p in c.links[i] {
        total := total + ret[i] / |c.links[i]| as real;
      }
      j := j + 1;
    }
  }

  /** Lines 144-156: the new ranking of one round, computed into a copy of the old one. */
  method UpdateStep(c: Corpus, d: real, ret: map<Page, real>, addedConstant: real, noOfPages: nat)
    returns (tmp: map<Page, real>)
    requires c.Valid() && c.Size() > 0 && noOfPages == c.Size()
    requires addedConstant == Jump(c, d)
    requires ret.Keys == c.links.Keys
    ensures tmp == Step(c, d, ret)
  {
    tmp := CopyRanks(c, ret);
    var k := 0;
    while k < |c.keys|
      invariant 0 <= k <= |c.keys|
      invariant tmp.Keys == c.links.Keys
      invariant forall j :: 0 <= j < |c.keys| ==>
        tmp[c.keys[j]] == if j < k then NewRank(c, d, ret, c.keys[j]) else ret[c.keys[j]]
    {
      var p := c.keys[k];
      var total := InboundTotal(c, ret, p, noOfPages);
      tmp := tmp[p := addedConstant + d * total];
      k := k + 1;
    }
    IsStep(c, d, ret, tmp);
  }

  /** A map over the corpus holding the updated rank of every page is the round's result. */
  lemma IsStep(c: Corpus, d: real, ret: map<Page, real>, tmp: map<Page, real>)
    requires c.Valid() && c.Size() > 0
    requires tmp.Keys == c.links.Keys
    requires forall j :: 0 <= j < |c.keys| ==> tmp[c.keys[j]] == NewRank(c, d, ret, c.keys[j])
    ensures tmp == Step(c, d, ret)
  {
    var spec := Step(c, d, ret);
    forall p | p in tmp ensures tmp[p] == spec[p] {
      var j :| 0 <= j < |c.keys| && c.keys[j] == p;
    }
  }

  /**
   Lines 158-162: the largest change of the round is measured while the new
   ranks are copied back, each page read before it is overwritten.
   */
  method AdoptStep(c: Corpus, ret: map<Page, real>, tmp: map<Page, real>) returns (next: map<Page, real>, mxv: real)
    requires c.Valid() && ret.Keys == c.links.Keys && tmp.Keys == c.links.Keys
    ensures next == tmp
    ensures mxv == MaxChange(c.keys, ret, tmp)
  {
    next := ret;
    mxv := -1.0;
    var i := 0;
    while i < |c.keys|
      invariant 0 <= i <= |c.keys|
      invariant next.Keys == c.links.Keys
      invariant mxv == MaxChangeTo(c.keys, ret, tmp, i)
      invariant forall j :: 0 <= j < |c.keys| ==> next[c.keys[j]] == if j < i then tmp[c.keys[j]] else ret[c.keys[j]]
    {
      var page := c.keys[i];
      mxv := Max(mxv, Abs(next[page] - tmp[page]));
      next := next[page := tmp[page]];
      i := i + 1;
    }
    forall p | p in next ensures next[p] == tmp[p] {
      var j :| 0 <= j < |c.keys| && c.keys[j] == p;
    }
  }

  /** One pass of the loop body of lines 142-165: the ranking after k rounds becomes the one after k + 1. */
  method Round(c: Corpus, d: real, ranks: map<Page, real>, addedConstant: real, noOfPages: nat, ghost k: nat)
    returns (next: map<Page, real>, mxv: real)
    requires c.Valid() && c.Size() > 0 && noOfPages == c.Size()
    requires addedConstant == Jump(c, d)
    requires ranks == Iterates(c, d, k)
    ensures next == Iterates(c, d, k + 1)
    ensures HasConverged(c, d, k + 1) <==> mxv < Threshold
  {
    var tmp := UpdateStep(c, d, ranks, addedConstant, noOfPages);
    next, mxv := AdoptStep(c, ranks, tmp);
    RoundOutcome(c, d, k + 1, ranks, next, mxv);
  }

  /**
   The iteration. It stops after the first round that moves no page by as
   much as the threshold, or after `fuel` rounds; `rounds` is the source's
   `iter` counter.
   */
  method IteratePageRank(c: Corpus, d: real, fuel: nat) returns (ranks: map<Page, real>, converged: bool, rounds: nat)
    requires c.Valid() && c.Size() > 0
    ensures rounds <= fuel
    ensures ranks.Keys == c.links.Keys
    ensures ranks == Iterates(c, d, rounds)
    ensures converged <==> rounds >= 1 && HasConverged(c, d, rounds)
    ensures !converged ==> rounds == fuel
    ensures NotConvergedBefore(c, d, rounds)
    ensures converged ==> MovedLessThan(Iterates(c, d, rounds - 1), ranks, Threshold)
    ensures c.WellFormed() ==> Mass(c.keys, ranks) == 1.0
    ensures c.WellFormed() && 0.0 <= d <= 1.0 ==> forall p :: p in ranks ==> 0.0 <= ranks[p] <= 1.0
  {
    var noOfPages := c.Size();
    var addedConstant := (1.0 - d) / noOfPages as real;
    JumpIsAddedConstant(c, d, addedConstant, noOfPages);
    ranks := InitialRanks(c, noOfPages);
    rounds := 0;
    converged := false;
    while !converged && rounds < fuel
      invariant rounds <= fuel
      invariant ranks == Iterates(c, d, rounds)
      invariant converged <==> rounds >= 1 && HasConverged(c, d, rounds)
      invariant NotConvergedBefore(c, d, rounds)
      decreases fuel - rounds
    {
      NotConvergedBeforeNext(c, d, rounds);
      var mxv;
      ranks, mxv := Round(c, d, ranks, addedConstant, noOfPages, rounds);
      rounds := rounds + 1;
      converged := mxv < Threshold;
    }
    Outcome(c, d, rounds, ranks, converged);
  }

  /** What the ranking after `rounds` rounds promises, converged or not. */
  lemma Outcome(c: Corpus, d: real, rounds: nat, ranks: map<Page, real>, converged: bool)
    requires c.Valid() && c.Size() > 0
    requires ranks == Iterates(c, d, rounds)
    requires converged ==> rounds >= 1 && HasConverged(c, d, rounds)
    ensures converged ==> MovedLessThan(Iterates(c, d, rounds - 1), ranks, Threshold)
    ensures c.WellFormed() ==> Mass(c.keys, ranks) == 1.0
    ensures c.WellFormed() && 0.0 <= d <= 1.0 ==> forall p :: p in ranks ==> 0.0 <= ranks[p] <= 1.0
  {
    if c.WellFormed() {
      IteratesMass(c, d, rounds);
      if 0.0 <= d <= 1.0 {
        IteratesBounds(c, d, rounds);
      }
    }
    if converged {
      ConvergedChanges(c, d, rounds, ranks);
    }
  }

  /** No round before round r converged. */
  ghost predicate NotConvergedBefore(c: Corpus, d: real, r: nat)
    requires c.Valid() && c.Size() > 0
  {
    forall k :: 1 <= k < r ==> !HasConverged(c, d, k)
  }

  /** A round that does not converge extends the rounds that did not. */
  lemma NotConvergedBeforeNext(c: Corpus, d: real, r: nat)
    requires c.Valid() && c.Size() > 0
    requires NotConvergedBefore(c, d, r)
    requires r >= 1 ==> !HasConverged(c, d, r)
    ensures NotConvergedBefore(c, d, r + 1)
  {
  }

  /** Round k turns the ranking after k-1 rounds into the one after k rounds, and converges exactly when its `mxv` is below the threshold. */
  lemma RoundOutcome(c: Corpus, d: real, k: nat, previous: map<Page, real>, next: map<Page, real>, mxv: real)
    requires c.Valid() && c.Size() > 0 && k >= 1
    requires previous == Iterates(c, d, k - 1)
    requires next == Step(c, d, previous)
    requires mxv == MaxChange(c.keys, previous, next)
    ensures next == Iterates(c, d, k)
    ensures HasConverged(c, d, k) <==> mxv < Threshold
  {
  }

  /** `added_constant` of line 133 is the jump part of every new rank. */
  lemma JumpIsAddedConstant(c: Corpus, d: real, addedConstant: real, noOfPages: int)
    requires c.Size() > 0 && noOfPages == c.Size()
    requires addedConstant == (1.0 - d) / noOfPages as real
    ensures addedConstant == Jump(c, d)
  {
  }

  /** After a round that converged, every page moved by less than the threshold in that round. */
  lemma ConvergedChanges(c: Corpus, d: real, k: nat, ranks: map<Page, real>)
    requires c.Valid() && c.Size() > 0 && k >= 1 && HasConverged(c, d, k)
    requires ranks == Iterates(c, d, k)
    ensures MovedLessThan(Iterates(c, d, k - 1), ranks, Threshold)
  {
    SmallChanges(c.keys, Iterates(c, d, k - 1), ranks, Threshold);
  }

  /** Every page ranked both before and after moved by less than t. */
  ghost predicate MovedLessThan(before: map<Page, real>, after: map<Page, real>, t: real) {
    forall p :: p in before && p in after ==> Abs(before[p] - after[p]) < t
  }

  /** When `mxv` is below t, every page of the corpus changed by less than t. */
  lemma SmallChanges(keys: seq<Page>, before: map<Page, real>, after: map<Page, real>, t: real)
    requires before.Keys == after.Keys
    requires forall p :: p in after ==> p in keys
    requires 0.0 <= t && MaxChange(keys, before, after) < t
    ensures MovedLessThan(before, after, t)
  {
    MaxChangeBelow(keys, before, after, t, |keys|);
    forall p | p in after ensures Abs(before[p] - after[p]) < t {
      var j :| 0 <= j < |keys| && keys[j] == p;
    }
  }

  /** In a well-formed graph every page passes on exactly its whole rank. */
  lemma ShareRowSum(c: Corpus, rank: map<Page, real>, i: Page)
    requires c.WellFormed() && i in c.links
    ensures Sum(c.keys, Row(Flip(Shares(c, rank)), i)) == Get(rank, i)
  {
    if |c.links[i]| == 0 {
      DanglingRowSum(c, rank, i);
    } else {
      LinkedRowSum(c, rank, i);
    }
  }

  /** A page without out-links passes rank/N to each of the N pages. */
  lemma DanglingRowSum(c: Corpus, rank: map<Page, real>, i: Page)
    requires c.Valid() && i in c.links && |c.links[i]| == 0
    ensures Sum(c.keys, Row(Flip(Shares(c, rank)), i)) == Get(rank, i)
  {
    var f := Row(Flip(Shares(c, rank)), i);
    assert i in c.keys;
    var u := Get(rank, i) / |c.keys| as real;
    forall j | 0 <= j < |c.keys| ensures f(c.keys[j]) == u {
      var q := c.keys[j];
      assert f(q) == Share(c, rank, q, i);
    }
    SumConstant(c.keys, f, u, |c.keys|);
    CancelQuotient(Sum(c.keys, f), |c.keys|, Get(rank, i), u);
  }

  /** A page with out-links passes rank/|links| to each page it links to, and those are pages of the corpus. */
  lemma LinkedRowSum(c: Corpus, rank: map<Page, real>, i: Page)
    requires c.WellFormed() && i in c.links && |c.links[i]| > 0
    ensures Sum(c.keys, Row(Flip(Shares(c, rank)), i)) == Get(rank, i)
  {
    var links, n := c.links[i], |c.keys|;
    var b := Get(rank, i) / |links| as real;
    LinkedRowIsIndicator(c, rank, i, b);
    SumIndicator(c.keys, links, b, n);
    var total, count := SumTo(c.keys, Row(Flip(Shares(c, rank)), i), n), CountTo(c.keys, links, n);
    assert total == count as real * b;
    assert links <= Elements(c.keys);
    CountInSubset(c.keys, links);
    CountedQuotients(total, count, |links|, Get(rank, i), b);
  }

  /** The row of a page with out-links is b on the pages it links to and 0 elsewhere. */
  lemma LinkedRowIsIndicator(c: Corpus, rank: map<Page, real>, i: Page, b: real)
    requires c.WellFormed() && i in c.links && |c.links[i]| > 0
    requires b == Get(rank, i) / |c.links[i]| as real
    ensures SumTo(c.keys, Row(Flip(Shares(c, rank)), i), |c.keys|) == SumTo(c.keys, Indicator(c.links[i], b), |c.keys|)
  {
    var f := Row(Flip(Shares(c, rank)), i);
    forall j | 0 <= j < |c.keys| ensures f(c.keys[j]) == Indicator(c.links[i], b)(c.keys[j]) {
      var q := c.keys[j];
      assert f(q) == Share(c, rank, q, i);
    }
    SumCongruence(c.keys, f, Indicator(c.links[i], b), |c.keys|);
  }

  /** The running total is the sum of the row of `Shares` at p. */
  lemma {:induction false} InboundToIsSum(c: Corpus, rank: map<Page, real>, p: Page, n: nat)
    requires c.Valid() && n <= |c.keys|
    ensures InboundTo(c, rank, p, n) == SumTo(c.keys, Row(Shares(c, rank), p), n)
  {
    if n > 0 {
      InboundToIsSum(c, rank, p, n - 1);
    }
  }

  /** In a well-formed graph the pages together receive exactly the total rank. */
  lemma InboundMass(c: Corpus, rank: map<Page, real>)
    requires c.WellFormed()
    ensures Sum(c.keys, Inbounds(c, rank)) == Mass(c.keys, rank)
  {
    var F := Shares(c, rank);
    forall j | 0 <= j < |c.keys| ensures Inbounds(c, rank)(c.keys[j]) == RowTotals(F, c.keys)(c.keys[j]) {
      InboundToIsSum(c, rank, c.keys[j], |c.keys|);
    }
    SumCongruence(c.keys, Inbounds(c, rank), RowTotals(F, c.keys), |c.keys|);
    SumSwap(c.keys, c.keys, F);
    forall j | 0 <= j < |c.keys| ensures RowTotals(Flip(F), c.keys)(c.keys[j]) == ValueOf(rank)(c.keys[j]) {
      assert c.keys[j] in c.links;
      ShareRowSum(c, rank, c.keys[j]);
    }
    SumCongruence(c.keys, RowTotals(Flip(F), c.keys), ValueOf(rank), |c.keys|);
  }

  /** In a well-formed graph one round maps total rank M to (1-d) + d * M. */
  lemma StepMass(c: Corpus, d: real, rank: map<Page, real>)
    requires c.WellFormed() && c.Size() > 0
    ensures Mass(c.keys, Step(c, d, rank)) == (1.0 - d) + d * Mass(c.keys, rank)
  {
    EntriesMass(c, d, rank, Step(c, d, rank));
  }

  /** A map holding the new rank of every page of a well-formed corpus has mass (1-d) + d * M. */
  lemma EntriesMass(c: Corpus, d: real, rank: map<Page, real>, s: map<Page, real>)
    requires c.WellFormed() && c.Size() > 0 && s.Keys == c.links.Keys
    requires forall p :: p in s ==> s[p] == NewRank(c, d, rank, p)
    ensures Mass(c.keys, s) == (1.0 - d) + d * Mass(c.keys, rank)
  {
    EntriesAffine(c, d, rank, s);
    JumpTotal(c, d);
    InboundMass(c, rank);
    AffineMass(c.keys, s, Inbounds(c, rank), Jump(c, d), d, Mass(c.keys, rank));
  }

  /**
   A map that is j + d * f along `keys`, where N * j == 1 - d and f sums to
   `total`, has mass (1-d) + d * total.
   */
  lemma AffineMass(keys: seq<Page>, m: map<Page, real>, f: Page -> real, j: real, d: real, total: real)
    requires AffineOn(keys, f, ValueOf(m), j, d)
    requires |keys| as real * j == 1.0 - d
    requires Sum(keys, f) == total
    ensures Mass(keys, m) == (1.0 - d) + d * total
  {
    SumAffine(keys, f, ValueOf(m), j, d, |keys|);
    SameAffine(Mass(keys, m), 1.0 - d, d, Sum(keys, f), total);
  }

  /** N jumps of (1-d)/N make 1-d. */
  lemma JumpTotal(c: Corpus, d: real)
    requires c.Size() > 0
    ensures |c.keys| as real * Jump(c, d) == 1.0 - d
  {
    TimesQuotient(|c.keys| as real, 1.0 - d);
  }

  /** A map holding the new rank of every page of the corpus is, along the corpus, a jump plus d times what the page receives. */
  lemma EntriesAffine(c: Corpus, d: real, rank: map<Page, real>, s: map<Page, real>)
    requires c.Valid() && c.Size() > 0 && s.Keys == c.links.Keys
    requires forall p :: p in s ==> s[p] == NewRank(c, d, rank, p)
    ensures AffineOn(c.keys, Inbounds(c, rank), ValueOf(s), Jump(c, d), d)
  {
    forall p | p in s ensures s[p] == Jump(c, d) + d * Inbounds(c, rank)(p) {
      NewRankAffine(c, d, rank, p);
    }
    forall i | 0 <= i < |c.keys| ensures c.keys[i] in s {
      assert c.keys[i] in c.links;
    }
    MapAffine(c.keys, s, Inbounds(c, rank), Jump(c, d), d);
  }

  /** A new rank is the jump plus d times what the page receives. */
  lemma NewRankAffine(c: Corpus, d: real, rank: map<Page, real>, p: Page)
    requires c.Valid() && c.Size() > 0
    ensures NewRank(c, d, rank, p) == Jump(c, d) + d * Inbounds(c, rank)(p)
  {
    assert Inbounds(c, rank)(p) == Inbound(c, rank, p);
  }

  /** The starting ranking has total mass 1. */
  lemma UniformMass(c: Corpus)
    requires c.Valid() && c.Size() > 0
    ensures Mass(c.keys, Uniform(c)) == 1.0
  {
    forall j | 0 <= j < |c.keys| ensures ValueOf(Uniform(c))(c.keys[j]) == 1.0 / |c.keys| as real {
      assert c.keys[j] in c.links;
    }
    assert ConstantOn(c.keys, ValueOf(Uniform(c)), 1.0 / |c.keys| as real);
    UniformSumsToOne(c.keys, ValueOf(Uniform(c)));
  }

  /** In a well-formed graph the ranks sum to 1 after every round. */
  lemma {:induction false} IteratesMass(c: Corpus, d: real, k: nat)
    requires c.WellFormed() && c.Size() > 0
    ensures Mass(c.keys, Iterates(c, d, k)) == 1.0
  {
    if k == 0 {
      UniformMass(c);
    } else {
      IteratesMass(c, d, k - 1);
      StepMass(c, d, Iterates(c, d, k - 1));
    }
  }

  /** What a page receives from non-negative ranks is non-negative. */
  lemma InboundNonNegative(c: Corpus, rank: map<Page, real>, p: Page)
    requires c.Valid()
    requires forall q :: q in rank ==> 0.0 <= rank[q]
    ensures 0.0 <= Inbound(c, rank, p)
  {
    InboundToNonNegative(c, rank, p, |c.keys|);
  }

  /** Every running total of non-negative shares is non-negative. */
  lemma {:induction false} InboundToNonNegative(c: Corpus, rank: map<Page, real>, p: Page, n: nat)
    requires c.Valid() && n <= |c.keys|
    requires forall q :: q in rank ==> 0.0 <= rank[q]
    ensures 0.0 <= InboundTo(c, rank, p, n)
  {
    if n > 0 {
      InboundToNonNegative(c, rank, p, n - 1);
      var i := c.keys[n - 1];
      assert i in c.links;
      if |c.links[i]| == 0 {
        QuotientSign(Get(rank, i), |c.keys| as real);
      } else if p in c.links[i] {
        QuotientSign(Get(rank, i), |c.links[i]| as real);
      }
    }
  }

  /** For 0 <= d <= 1 a round keeps ranks non-negative; for d < 1 it makes them positive. */
  lemma StepSign(c: Corpus, d: real, rank: map<Page, real>)
    requires c.Valid() && c.Size() > 0 && 0.0 <= d <= 1.0
    requires forall q :: q in rank ==> 0.0 <= rank[q]
    ensures forall p :: p in Step(c, d, rank) ==> 0.0 <= Step(c, d, rank)[p]
    ensures d < 1.0 ==> forall p :: p in Step(c, d, rank) ==> 0.0 < Step(c, d, rank)[p]
  {
    EntriesSign(c, d, rank, Step(c, d, rank));
  }

  /** New ranks computed from non-negative ranks are non-negative, and positive when d < 1. */
  lemma EntriesSign(c: Corpus, d: real, rank: map<Page, real>, s: map<Page, real>)
    requires c.Valid() && c.Size() > 0 && 0.0 <= d <= 1.0
    requires forall q :: q in rank ==> 0.0 <= rank[q]
    requires forall p :: p in s ==> s[p] == NewRank(c, d, rank, p)
    ensures forall p :: p in s ==> 0.0 <= s[p]
    ensures d < 1.0 ==> forall p :: p in s ==> 0.0 < s[p]
  {
    QuotientSign(1.0 - d, |c.keys| as real);
    forall p | p in s ensures 0.0 <= s[p] && (d < 1.0 ==> 0.0 < s[p]) {
      InboundNonNegative(c, rank, p);
      ProductSign(d, Inbound(c, rank, p));
    }
  }

  /** For 0 <= d <= 1, in a well-formed graph, every rank stays within [0, 1]. */
  lemma {:induction false} IteratesBounds(c: Corpus, d: real, k: nat)
    requires c.WellFormed() && c.Size() > 0 && 0.0 <= d <= 1.0
    ensures forall p :: p in Iterates(c, d, k) ==> 0.0 <= Iterates(c, d, k)[p] <= 1.0
  {
    var r := Iterates(c, d, k);
    if k == 0 {
      QuotientSign(1.0, |c.keys| as real);
    } else {
      IteratesBounds(c, d, k - 1);
      StepSign(c, d, Iterates(c, d, k - 1));
    }
    forall p | p in r ensures p in c.keys && 0.0 <= r[p] {
    }
    IteratesMass(c, d, k);
    MassBoundsEntries(c.keys, r);
  }
}
