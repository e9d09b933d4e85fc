# MarkovChain — a Dafny model

`MarkovChain<L, S>` is a sequence classifier. For every label it keeps a
first-order Markov chain over symbols:

- a table label → predecessor → histogram of the symbols that followed;
- the predecessor `None` stands for the start of a sequence.

**Training.** `count(prev, label, next)` records one transition. It creates
the label's map and the predecessor's histogram the first time they are
needed. Labels keep the order in which they were first counted, because the
outer map is a `LinkedHashMap`.

**Inference** reads the table and never changes it.

- `probability(sequence, label)` is the product of add-one smoothed factors.
  For each position the factor is (count + 1) / (total + distinct + 1),
  taken from the histogram of the previous symbol. A context that was never
  counted reads as an empty histogram and contributes exactly 1.
- `labelDistribution(sequence)` divides each label's likelihood by the sum
  over all labels. This is the posterior under a uniform prior.
- `bestMatchingChain(sequence)` is the first label, in insertion order, whose
  posterior is highest. It is `None` when no label has been trained.

## Modules

- `Wrappers`: `Option`, for Java's `Optional` and for the `null` that
  `bestMatchingChain` returns.
- `Histograms`: the histogram collaborator, a finite multiset of symbols.
  The count of a symbol is its multiplicity; the total is the cardinality;
  the size is the number of distinct symbols.
- `Fractions`: exact fractions of naturals. It holds the facts about
  products and comparisons of fractions that the likelihood proofs use.
- `MarkovModel`: the value-level meaning of the operations.
  - The training table `Table` and what one count does to it (`Observe`).
  - The smoothing factor (`Factor`), the partial products (`ProductUpTo`)
    and the likelihood (`Likelihood`).
  - The raw likelihood map (`Raw`), the evidence (`Evidence`) and the
    posterior (`Distribution`).
  - The first-maximum rule (`IsFirstMax`).
- `Markov`: the class `MarkovChain`.
  - Its fields are `table` (the entries of `label2symbol2symbol`) and
    `labels` (that map's key order).
  - Its methods follow the Java methods loop for loop, and each is proved
    against the functions of `MarkovModel`.
- `Scenario`: a worked classification on concrete label maps.

## Behaviour worth knowing

Two facts below follow from the code as written, and both go against what
one might expect of a classifier. The model follows the code on both.

- **Reinforcement needs a context that has been seen.** When a has never
  been a predecessor under a label, its context is empty and the factor of
  b after a is 1. Counting a → b then drops that factor to 2/3, so it
  *lowers* P([a, b] | label) (`FirstObservationLowers`). Once the context a
  is non-empty, whatever followed a before, each count of a → b strictly
  raises that likelihood (`ReinforcementRaises`). It stays below 1 as long
  as the start context is non-empty (`LikelihoodBelowOne`).
- **Unseen contexts are free.** Train `EN` on "the" and "that" and `FR` on
  "le" and "la", then classify "the".
  - `EN` pays for all three transitions: 3/4 · 3/4 · 2/5 = 9/40.
  - `FR` pays only for the first, 1/4. Under `FR`, `t` and `h` have never
    been predecessors, so their factors are 1.
  - So `FR` is the best label, not `EN` (`Scenario.FrenchWins`).

## Model

Paths are relative to the repository root. `MarkovChain.java` stands for
`src/learning/markov/MarkovChain.java`; the table cells spell it out.

| member | source | states |
|---|---|---|
| `Histograms.BumpByCount` | src/learning/markov/MarkovChain.java:41 | `bumpBy(next, 1)` raises the count of `next` by one and leaves every other symbol's count alone |
| `Histograms.EmptyIsEmpty` | src/learning/markov/MarkovChain.java:55 | a fresh histogram has count 0 for every symbol, total 0 and size 0 |
| `Histograms.CountAtMostTotal` | src/learning/markov/MarkovChain.java:56-57 | no single count exceeds the total, so no numerator exceeds its denominator |
| `Histograms.SizeBounds` | src/learning/markov/MarkovChain.java:57 | the distinct count is 0 exactly for the empty histogram, and never exceeds the total |
| `Histograms.SizeAtMostTotal` | src/learning/markov/MarkovChain.java:57 | the number of distinct symbols is at most the total count |
| `Histograms.BumpOneEffect` | src/learning/markov/MarkovChain.java:41 | one bump adds one to the total, and adds a distinct symbol exactly when the symbol was absent |
| `Fractions.TimesProper` | src/learning/markov/MarkovChain.java:59 | a product of probabilities in (0, 1] is in (0, 1], and is below 1 when either factor is |
| `Fractions.ValueBounds` | src/learning/markov/MarkovChain.java:56-59 | a fraction with 0 < num <= den denotes a real in (0, 1], equal to 1 exactly when num = den |
| `Fractions.ValueOfTimes` | src/learning/markov/MarkovChain.java:59 | multiplying fractions multiplies the reals they denote, so the exact product is the running `PV` |
| `Fractions.ExceedsValue` | src/learning/markov/MarkovChain.java:59 | comparing by cross-multiplication agrees with comparing the real values, both ways |
| `Fractions.TimesExceeds` | src/learning/markov/MarkovChain.java:59 | a common positive factor keeps a strict comparison of products |
| `MarkovModel.Observe` | src/learning/markov/MarkovChain.java:32-42 | after a count the table's labels are the old ones plus `label`, and the label's predecessors are the old ones plus `prev`; every other label's map and every other predecessor's histogram is unchanged |
| `MarkovModel.ObserveCounts` | src/learning/markov/MarkovChain.java:32-42 | a count raises exactly the (label, prev, next) transition count, by exactly one; every other count is unchanged |
| `MarkovModel.ObserveKeepsOrder` | src/learning/markov/MarkovChain.java:34-37 | a count keeps the label order duplicate-free and complete; a new label is appended at the end, a known label leaves the order alone, and the label is present afterwards |
| `MarkovModel.FactorBounds` | src/learning/markov/MarkovChain.java:55-57 | every smoothing factor is a fraction in (0, 1]; it equals 1 exactly when the context histogram is empty, such as a missing context |
| `MarkovModel.FactorValue` | src/learning/markov/MarkovChain.java:55-59 | the real value of the factor lies in (0, 1] and is 1 exactly for an empty context |
| `MarkovModel.LikelihoodOfEmpty` | src/learning/markov/MarkovChain.java:51-62 | the empty sequence has likelihood 1 under any label map |
| `MarkovModel.ProductOfPrefix` | src/learning/markov/MarkovChain.java:54-60 | extending the sequence leaves the factors of its prefix, and so their product, unchanged |
| `MarkovModel.ProductSnoc` | src/learning/markov/MarkovChain.java:54-60 | the exact product for s ++ [x] is the product for s times the factor of x in the context of the last symbol of s |
| `MarkovModel.LikelihoodSnoc` | src/learning/markov/MarkovChain.java:52-60 | P(s ++ [x]) = P(s) · factor(last(s), x), with the start context for the empty s |
| `MarkovModel.ProductBounds` | src/learning/markov/MarkovChain.java:54-59 | every partial product is a fraction in (0, 1] |
| `MarkovModel.ProductBelowOne` | src/learning/markov/MarkovChain.java:54-59 | a first factor below 1 keeps every later partial product below 1 |
| `MarkovModel.LikelihoodBounds` | src/learning/markov/MarkovChain.java:49-62 | P(s given label) lies in (0, 1] for every sequence |
| `MarkovModel.LikelihoodBelowOne` | src/learning/markov/MarkovChain.java:49-62 | a non-empty sequence has likelihood below 1 when the label's start context has been counted |
| `MarkovModel.ProductOfPair` | src/learning/markov/MarkovChain.java:52-60 | the exact product for [a, b] is factor(start, a) times factor(a, b) |
| `MarkovModel.LikelihoodOfPair` | src/learning/markov/MarkovChain.java:52-60 | P([a, b]) is the value of factor(start, a) times the value of factor(a, b) |
| `MarkovModel.FactorGrows` | src/learning/markov/MarkovChain.java:41-57 | in a non-empty context, one more count of b strictly raises the smoothed factor of b, as fractions and as reals |
| `MarkovModel.ReinforcementRaises` | src/learning/markov/MarkovChain.java:32-62 | once context a has been counted under the label, counting a → b again strictly raises P([a, b] given label) |
| `MarkovModel.LikelihoodScaled` | src/learning/markov/MarkovChain.java:58-59 | a product scaled by a fraction scales the likelihood by that fraction's value |
| `MarkovModel.FirstObservationProducts` | src/learning/markov/MarkovChain.java:38-57 | when a was never a predecessor under the label, counting a → b makes the exact product for [a, b] the old product times 2/3 |
| `MarkovModel.FirstObservationLowers` | src/learning/markov/MarkovChain.java:32-62 | when a was never a predecessor under the label, counting a → b multiplies P([a, b] given label) by exactly 2/3, a drop |
| `MarkovModel.RatioAtMostOne` | src/learning/markov/MarkovChain.java:78 | a positive value over a value at least as large lies in (0, 1], and is 1 exactly when the two are equal |
| `MarkovModel.Raw` | src/learning/markov/MarkovChain.java:71-75 | the raw likelihood map has exactly the trained labels as keys |
| `MarkovModel.RawUpToEntries` | src/learning/markov/MarkovChain.java:71-73 | after the first n labels of the loop, `sendThrough` holds exactly those labels, each with its likelihood |
| `MarkovModel.RawUpToIsRaw` | src/learning/markov/MarkovChain.java:71-75 | after the whole first loop, `sendThrough` is the raw likelihood map of every label |
| `MarkovModel.Distribution` | src/learning/markov/MarkovChain.java:68-82 | the posterior map has exactly the trained labels as keys |
| `MarkovModel.SumFirstPositive` | src/learning/markov/MarkovChain.java:74 | a running total of positive likelihoods is non-negative, positive once a label has been added, and at least each value added |
| `MarkovModel.EvidencePositive` | src/learning/markov/MarkovChain.java:70-75 | with at least one label, `totalProb` is positive and at least every single label's likelihood, so the division at line 78 is defined |
| `MarkovModel.SumFirstScaled` | src/learning/markov/MarkovChain.java:76-80 | dividing every value by the total divides their running sum by the total |
| `MarkovModel.DistributionAt` | src/learning/markov/MarkovChain.java:76-79 | each label's posterior is its likelihood divided by the positive evidence |
| `MarkovModel.NormalisedIsDistribution` | src/learning/markov/MarkovChain.java:76-80 | a map over the trained labels whose every entry is likelihood over evidence is the posterior map |
| `MarkovModel.DistributionBounds` | src/learning/markov/MarkovChain.java:78 | every posterior lies in (0, 1] |
| `MarkovModel.DistributionSumsToOne` | src/learning/markov/MarkovChain.java:68-82 | with at least one trained label, the posteriors sum to exactly 1 |
| `MarkovModel.FirstMaxUnique` | src/learning/markov/MarkovChain.java:94-101 | at most one position is the first maximum, so the strict scan's answer is determined by the values |
| `MarkovModel.PosteriorArgmaxIsLikelihoodArgmax` | src/learning/markov/MarkovChain.java:88-103 | a position is the first maximum of the posteriors exactly when it is the first maximum of the likelihoods |
| `MarkovModel.DivisionKeepsOrder` | src/learning/markov/MarkovChain.java:78 | dividing by a positive total keeps `<=` and `<` in both directions |
| `Markov.MarkovChain.constructor` | src/learning/markov/MarkovChain.java:8 | a new chain has no labels and an empty table |
| `Markov.MarkovChain.AllLabels` | src/learning/markov/MarkovChain.java:10 | `allLabels()` is exactly the set of labels in the insertion order |
| `Markov.MarkovChain.Count` | src/learning/markov/MarkovChain.java:32-42 | the new table is `Observe` of the old one and the new order is `ObserveOrder` of the old one; the chain stays well formed and the label is in `allLabels()` afterwards |
| `Markov.MarkovChain.Probability` | src/learning/markov/MarkovChain.java:49-63 | the running product `PV` equals `Likelihood` of the label's map, with the map of an unknown label read as empty for the empty sequence; the result lies in (0, 1] |
| `Markov.MarkovChain.Likelihoods` | src/learning/markov/MarkovChain.java:69-75 | the first loop leaves in `sendThrough` the likelihood of every label and in `totalProb` their sum in insertion order |
| `Markov.MarkovChain.LabelDistribution` | src/learning/markov/MarkovChain.java:68-83 | the result's keys are the labels in insertion order and its entries the posteriors; each lies in (0, 1] and they sum to 1 when a label exists |
| `Markov.MarkovChain.BestMatchingChain` | src/learning/markov/MarkovChain.java:88-104 | `None` exactly when no label is trained; otherwise the first label in insertion order of highest posterior, which is also the first of highest likelihood |
| `Markov.Normalise` | src/learning/markov/MarkovChain.java:76-80 | the second loop visits every key of `sendThrough`, keeps the key set and replaces every entry by itself divided by the total |
| `Markov.FirstMaxScan` | src/learning/markov/MarkovChain.java:91-103 | the scan from the sentinel -1 finds nothing exactly when no value exceeds -1; otherwise it finds the first position of the maximum |
| `Scenario.SizeOfPair` | src/learning/markov/MarkovChain.java:57 | a histogram of two counts has one distinct symbol or two |
| `Scenario.EnglishProduct` | src/learning/markov/MarkovChain.java:54-60 | under `EN` (trained on the/that) the product for "the" is 3/4 · 3/4 · 2/5 |
| `Scenario.FrenchProduct` | src/learning/markov/MarkovChain.java:54-60 | under `FR` (trained on le/la) the product for "the" is 1/4 · 1 · 1, with the unseen contexts contributing 1 |
| `Scenario.FrenchMoreLikely` | src/learning/markov/MarkovChain.java:49-62 | "the" is strictly more likely under `FR` than under `EN` |
| `Scenario.RawOfThe` | src/learning/markov/MarkovChain.java:71-73 | the raw likelihoods of "the" are those of the two label maps |
| `Scenario.FrenchFirstMax` | src/learning/markov/MarkovChain.java:94-101 | `FR`, the second label in insertion order, is the first maximum of the likelihoods |
| `Scenario.TrainedOrder` | src/learning/markov/MarkovChain.java:8 | the trained table with the order `EN`, `FR` is a well-formed insertion-ordered map |
| `Scenario.FrenchWins` | src/learning/markov/MarkovChain.java:88-104 | `FR` is the first maximum of the posteriors and the only one, so `bestMatchingChain` answers `FR` |

## Left out

- `toString` (MarkovChain.java:12-28) is string formatting that relies on
  the `toString` of `Optional` and `Histogram`. It states nothing about the
  behaviour.
- Floating point. `PV`, `calcProb`, `totalProb` and the posteriors are
  `double` in the source; here they are exact fractions and reals.
  - Rounding is not modelled.
  - Underflow to 0 on long sequences is not modelled. With exact arithmetic
    a likelihood is never 0.
  - NaN from dividing by a zero total (line 78) is not modelled. It cannot
    occur with exact arithmetic, because the loop at 76-80 runs only when a
    label exists, and then the total is positive.
- An unknown label in `probability`: `get` returns `null` (line 50), and the
  first loop iteration dereferences it (line 55).
  - `Markov.MarkovChain.Probability` requires the label to be known or the
    sequence to be empty.
  - For the empty sequence the source returns 1.0 without touching the map,
    and so does the model.
- The `Histogram` class (`learning.core.Histogram`) is not part of this
  model. Only the four operations the chain calls are modelled, on a
  multiset.
- Aliasing. In the source, `labelMap` and the histogram are shared with the
  table, and `put` and `bumpBy` change them in place (lines 37-41). The model
  treats inner maps and histograms as values: `Count` writes the label's
  final map back into `table`. The resulting table is the same.
- `Markov.MarkovChain.AllLabels` returns a snapshot `set` of the labels, not
  the live `keySet()` view of line 10. Through that view a caller sees labels
  that later `count` calls add, and can remove labels (`remove`,
  `retainAll`, `clear`), which changes the chain. The model offers no way to
  remove a label; `count` is its only update.
- Iteration order and hashing of the inner `HashMap` are not modelled. Only
  the outer label order is observable.
- `labelDistribution` returns a `LinkedHashMap`. The model returns its key
  order and its entries as a pair `(keys, dist)`.
- The two loops of `labelDistribution` are the separate methods
  `Likelihoods` and `Normalise`. The loop of `bestMatchingChain` is the
  method `FirstMaxScan`. Each is called where its loop stands.
- `Scenario` starts from the two label maps written out. The sequence of
  `count` calls that builds them from the four words is described in the
  module's doc comment, not derived in Dafny.
- The test classes named in the source's comments (`SimpleMarkovTest`,
  `MajorMarkovTest`) are not part of this model.
