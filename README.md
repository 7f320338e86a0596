# PageRank over exact reals

A model of `pagerank.py`. The program ranks the pages of a small corpus of
HTML files in two ways, both following the random-surfer model with damping
factor d:

- by sampling a random walk (`sample_pagerank`);
- by iterating the PageRank recurrence PR(p) = (1-d)/N + d * sum_i PR(i)/NumLinks(i),
  where i ranges over the pages linking to p and a page without out-links
  counts as linking to every page (NumLinks = N), until no rank changes by
  0.001 or more in a round (`iterate_pagerank`).

Both work on the link graph that `crawl` extracts from the corpus.
`sample_pagerank` calls `transition_model`, which gives the distribution of
the surfer's next page, before every draw. `iterate_pagerank` does not call
it: it applies the same random-surfer rule in its own formula, page by page.

The model keeps the program's imperative shape. Every loop that fills,
increments, copies or overwrites a dictionary is a Dafny `method` whose
`while` loop updates a `map`. Each method is proved against a specification
function (`Distribution`, `Step`, `Iterates`, `MaxChange`, visit counts).
The properties the program's docstrings promise are proved about those
functions as lemmas:

- in a well-formed graph (no self-links, every out-link a page of the
  corpus, as `crawl` returns it) the distribution of one move sums to 1, and
  for 0 <= d <= 1 its entries are non-negative;
- for n >= 1 the sampled ranks lie in [0, 1] and sum to 1;
- in a well-formed graph each iteration round maps a total rank M to
  (1-d) + d * M, so it keeps a total rank of 1; the iterated ranks sum to 1,
  and lie in [0, 1] for 0 <= d <= 1;
- on convergence, the last round moved every page by less than the threshold.

Floats are modelled as Dafny's exact `real`, so "sums to 1" holds exactly.

Files:

- `Sums.dfy`: sums of a real-valued function along a sequence of keys; the
  linearity, counting and swapping facts the other proofs use.
- `LinkGraph.dfy`: the corpus dictionary (`Corpus`: its keys in insertion
  order plus the link map) and the graph-building part of `crawl`.
- `Transition.dfy`: `transition_model`.
- `Sampling.dfy`: `sample_pagerank`. The random choices are inputs: the
  first page and the sequence of drawn pages.
- `Iteration.dfy`: `iterate_pagerank`, with a bound on the number of rounds.

Every loop over `corpus.keys()` visits the pages in the dictionary's
insertion order. The model keeps that order as the `keys` sequence of
`Corpus`; `Crawl` proves it is the order of the HTML files in the directory
listing. Over exact reals none of the computed values depends on it: `total`
is a sum and `mxv` a maximum. The order does shape the dictionary that
`transition_model` returns (corpus order from lines 69-76, then the set order
of line 79), whose keys `random.choices` pairs with its weights at line 108;
the draws are inputs here, so that pairing is not modelled. Iterating a set
(the out-links at line 79) is modelled as an arbitrary order.

## Model

| member | source | states |
|---|---|---|
| LinkGraph.Crawl | pagerank.py:35-50 | The pages are exactly the `.html` files of the listing, in listing order and distinct; a page's out-links are exactly its found links other than itself that are pages of the corpus; the result is well formed (no self-links, every out-link a page) |
| Transition.TransitionModel | pagerank.py:53-82 | The dictionary built by the two fill loops (or the dangling-page loop) is exactly `Distribution(c, page, d)` |
| LinkGraph.ScanListing | pagerank.py:35-41 | The scan inserts the `.html` files of the listing in listing order, each with its found links minus itself |
| LinkGraph.RestrictLinks | pagerank.py:44-48 | Every page keeps exactly those of its links that are pages of the corpus, and the set of pages is unchanged |
| Transition.FillPages | pagerank.py:69-76 | One pass over the corpus gives every page outside `skip` the value, and holds no other key: lines 69-70 with nothing skipped and 1/N, lines 74-76 with the page's links skipped and (1-d)/N |
| Transition.FillLinks | pagerank.py:79-80 | One pass over the out-links sets each of them to the value and keeps every other entry |
| Transition.DistributionEntries | pagerank.py:66-80 | A dangling page gives each corpus page exactly 1/N and has exactly the corpus pages as keys; otherwise each linked page gets exactly d/\|links\| + (1-d)/N and each other corpus page exactly (1-d)/N |
| Transition.DistributionKeys | pagerank.py:69-80 | In a well-formed graph the distribution's keys are exactly the pages of the corpus |
| Transition.DistributionSumsToOne | pagerank.py:58-60 | In a well-formed graph the probabilities sum to exactly 1 |
| Transition.DistributionBounds | pagerank.py:76-80 | For 0 <= d <= 1 every probability is non-negative, and for d < 1 every one is positive |
| Transition.LinkedWeights | pagerank.py:64-80 | The source's values `added_constant / no_of_pages` and `d / len(links) + added_constant / no_of_pages` are the probabilities of unlinked and linked pages |
| Sampling.SamplePageRank | pagerank.py:85-118 | The result has the corpus pages as keys, and each rank is the page's number of visits divided by n; for n >= 1 the ranks sum to 1 and lie in [0, 1] |
| Sampling.ZeroCounters | pagerank.py:94-97 | Every corpus page has a counter, and every counter is 0 |
| Sampling.CountVisits | pagerank.py:99-112 | After the walk, every counter equals the number of times its page occurs in the first page followed by the draws |
| Sampling.CountOneMore | pagerank.py:110 | Incrementing the counter of the visited page keeps the counters equal to the visit counts of the extended walk |
| Sampling.CountersSumToN | pagerank.py:102-110 | The first page plus the n - 1 draws give visit counts summing to exactly n |
| Sampling.CountsSumToVisits | pagerank.py:102-110 | Over a distinct enumeration of the visited pages, visit counts sum to the length of the walk |
| Sampling.DivideCounts | pagerank.py:115-116 | Every rank is its counter divided by n, for exactly the corpus pages |
| Sampling.RanksAreFrequencies | pagerank.py:90-92 | Visit frequencies of a walk through the corpus sum to 1 and each lies in [0, 1] |
| Iteration.IteratePageRank | pagerank.py:121-167 | The result has the corpus pages as keys and is the ranking after `rounds` rounds. It converged exactly when the last round's `mxv` was below 0.001, no earlier round converged, and otherwise the round bound was used up. On convergence every page moved by less than 0.001 in the last round. In a well-formed graph the ranks sum to 1, and lie in [0, 1] for 0 <= d <= 1 |
| Iteration.InitialRanks | pagerank.py:136-137 | The starting dictionary is 1/N on every corpus page |
| Iteration.CopyRanks | pagerank.py:144-146 | `tmpdict` starts as an exact copy of `ret` |
| Iteration.InboundTotal | pagerank.py:149-155 | `total` is what page p receives from all pages: rank/N from each page without out-links, rank/\|links\| from each page linking to p |
| Iteration.UpdateStep | pagerank.py:144-156 | The filled `tmpdict` is one round of the recurrence applied to the old ranks only |
| Iteration.AdoptStep | pagerank.py:158-162 | `ret` becomes `tmpdict`, and `mxv` is the running maximum of -1 and every page's absolute change |
| Iteration.Round | pagerank.py:142-165 | One pass of the loop turns the ranking after k rounds into the one after k + 1, and breaks exactly when that round converged |
| Iteration.RoundOutcome | pagerank.py:158-165 | Proof step: the round's `mxv` is below the threshold exactly when the round converged |
| Iteration.Outcome | pagerank.py:126-128 | For the ranking after any number of rounds: if the last round converged, every page moved by less than 0.001 in it; in a well-formed graph the ranks sum to 1, and lie in [0, 1] for 0 <= d <= 1 |
| Iteration.MaxChangeBounds | pagerank.py:158-161 | `mxv` is at least -1 and at least the absolute change of every page it has seen |
| Iteration.MaxChangeBelow | pagerank.py:158-164 | `mxv < t` (t >= 0) holds exactly when every page seen changed by less than t |
| Iteration.SmallChanges | pagerank.py:158-165 | A round whose `mxv` is below t moved every page by less than t |
| Iteration.ConvergedChanges | pagerank.py:164-165 | After a converged round, every page moved by less than 0.001 |
| Iteration.NotConvergedBeforeNext | pagerank.py:141-165 | Proof step: continuing past a non-converged round keeps "no earlier round converged" |
| Iteration.JumpIsAddedConstant | pagerank.py:132-133 | Proof step: `added_constant` is the random-jump part (1-d)/N of each new rank |
| Iteration.InboundToIsSum | pagerank.py:149-155 | The running `total` is the sum of the shares page p receives from the pages visited so far |
| Iteration.ShareRowSum | pagerank.py:151-155 | In a well-formed graph every page passes on exactly its whole rank |
| Iteration.InboundMass | pagerank.py:148-155 | In a well-formed graph the totals received by all pages add up to the total rank |
| Iteration.StepMass | pagerank.py:148-156 | In a well-formed graph one round maps total rank M to (1-d) + d * M, so it conserves a total of 1 |
| Iteration.UniformMass | pagerank.py:136-137 | The starting ranking sums to 1 |
| Iteration.IteratesMass | pagerank.py:127-128 | In a well-formed graph the ranking after every round sums to 1 |
| Iteration.StepSign | pagerank.py:156 | For 0 <= d <= 1 a round keeps ranks non-negative, and makes them positive when d < 1 |
| Iteration.IteratesBounds | pagerank.py:126-128 | For 0 <= d <= 1 in a well-formed graph every rank after every round lies in [0, 1] |

## Left out

- `main`, its argument check, and all printing and sorting (lines 10-23): the command-line front end.
- The file-system half of `crawl` (lines 35-40): listing the directory, reading files, and the anchor regular expression. `Crawl` takes the listing and, for every HTML file, the set of link targets found in it. The `.html` suffix test of line 36 is kept.
- `random.choice` and `random.choices` (lines 100 and 108) are not modelled. The first page and the drawn pages are inputs, each a page of the corpus. The weighting of the draws and the statistics of the walk are not modelled.
- Sampling.SamplePageRank: a drawn page outside the corpus is excluded by its precondition. In the source it can only come from a link outside the corpus, which `crawl` removes, and the source then fails with a `KeyError` at line 110.
- Sampling.SamplePageRank: n == 0 is excluded. The source fails there with a `ZeroDivisionError` at line 116. For negative n the ranks are still produced as the source computes them (the first page counted once, divided by n), but the sum and bound claims are stated only for n >= 1.
- Transition.TransitionModel: a page outside the corpus is excluded by its precondition. The source fails there with a `KeyError` at line 68; neither caller reaches that case, since line 100 draws a corpus page and line 110 fails first for a drawn page outside the corpus.
- An empty corpus is excluded. `random.choice` fails at line 100 and the division at line 133 fails.
- Floating-point rounding: ranks and probabilities are exact reals.
- Iteration.IteratePageRank: the source loops until convergence and does not always terminate. The model stops after `fuel` rounds and reports whether it converged. Termination of the source (a contraction argument) is not proved.
- The `iter` counter of lines 139-142 is never used; its print at line 166 is commented out. The model returns the same count as `rounds`.
- Integer counters are unbounded, as Python's are.
