/** `MarkovChain<L, S>`: a sequence classifier keeping one first-order
    Markov chain per label.  The object holds the table of counts and the
    insertion order of its labels; training changes them in place, inference
    only reads them. */
module Markov {
  import opened Wrappers
  import opened Histograms
  import opened MarkovModel
  import opened Fractions

  class MarkovChain<L(==), S(==)> {
    /** The entries of `label2symbol2symbol`: label -> predecessor -> histogram. */
    var table: Table<L, S>
    /** The key order of `label2symbol2symbol`, a `LinkedHashMap`. */
    var labels: seq<L>

    /** The outer map is an insertion-ordered map. */
    ghost predicate Valid()
      reads this
    {
      WellFormed(table, labels)
    }

    /** A new chain has no labels. */
    constructor ()
      ensures Valid()
      ensures table == map[] && labels == []
    {
      table := map[];
      labels := [];
    }

    /** `allLabels()`: the key set of the outer map, which is the set of
        labels listed in insertion order. */
    function AllLabels(): (r: set<L>)
      reads this
      requires Valid()
      ensures r == set i | 0 <= i < |labels| :: labels[i]
    {
      table.Keys
    }

    /** `count(prev, label, next)`: record one transition from `prev` to
        `next` under `lbl`, creating the label's map and the predecessor's
        histogram when they are absent. */
    method Count(prev: Option<S>, lbl: L, next: S)
      requires Valid()
      modifies this
      ensures Valid()
      ensures table == Observe(old(table), lbl, prev, next)
      ensures labels == ObserveOrder(old(labels), old(table), lbl)
      ensures lbl in AllLabels()
    {
      ObserveKeepsOrder(table, labels, lbl, prev, next);
      ghost var t0, m := table, MapOf(table, lbl);
      if lbl !in table {
        table := table[lbl := map[]];
        labels := labels + [lbl];
      }
      var labelMap := table[lbl];
      assert labelMap == m;
      // in the source this inner map is shared with the table and changed in
      // place; here it is a value, and the write to `table` below stores it
      if prev !in labelMap {
        labelMap := labelMap[prev := Empty()];
      }
      assert labelMap[prev] == Context(m, prev);
      var updated := labelMap[prev := BumpBy(labelMap[prev], next, 1)];
      ghost var before := table;
      table := table[lbl := updated];
      assert updated == m[prev := BumpBy(Context(m, prev), next, 1)];
      if lbl !in t0 {
        OverwriteKey(t0, lbl, map[], updated);
      } else {
        assert before == t0;
      }
    }

    /** `probability(sequence, label)`: P(sequence | label) as a running
        product of smoothed factors.  The map of an unknown label is `null`
        in the source and is dereferenced on the first symbol, so callers
        pass a known label unless the sequence is empty. */
    method Probability(sequence: seq<S>, lbl: L) returns (pv: real)
      requires Valid()
      requires lbl in table || sequence == []
      ensures pv == Likelihood(MapOf(table, lbl), sequence)
      ensures 0.0 < pv <= 1.0
    {
      var labelMap := MapOf(table, lbl);
      pv := 1.0;
      var prev: Option<S> := None;
      for i := 0 to |sequence|
        invariant pv == Value(ProductUpTo(labelMap, sequence, i))
        invariant prev == PrevOf(sequence, i)
      {
        var item := sequence[i];
        var histogram := Context(labelMap, prev);
        var numerator := (CountFor(histogram, item) + 1) as real;
        var denominator := (TotalCounts(histogram) + Size(histogram) + 1) as real;
        assert numerator / denominator == Value(FactorAt(labelMap, sequence, i));
        ValueOfTimes(ProductUpTo(labelMap, sequence, i), FactorAt(labelMap, sequence, i));
        pv := pv * (numerator / denominator);
        prev := Some(item);
      }
      LikelihoodBounds(labelMap, sequence);
    }

    /** The first loop of `labelDistribution`: the likelihood of the
        sequence under every label, visited in insertion order, and their
        running total. */
    method Likelihoods(sequence: seq<S>) returns (sendThrough: map<L, real>, totalProb: real)
      requires Valid()
      ensures sendThrough == Raw(table, sequence)
      ensures totalProb == Evidence(table, labels, sequence)
    {
      sendThrough := map[];
      totalProb := 0.0;
      for i := 0 to |labels|
        invariant sendThrough == RawUpTo(table, labels, sequence, i)
        invariant totalProb == SumFirst(Raw(table, sequence), labels, i)
      {
        var lbl := labels[i];
        var calcProb := Probability(sequence, lbl);
        sendThrough := sendThrough[lbl := calcProb];
        totalProb := totalProb + calcProb;
      }
      RawUpToIsRaw(table, labels, sequence);
    }

    /** `labelDistribution(sequence)`: P(label | sequence) for every label,
        under a uniform prior.  The result is a `LinkedHashMap`, returned
        here as its key order `keys` and its entries `dist`. */
    method LabelDistribution(sequence: seq<S>) returns (keys: seq<L>, dist: map<L, real>)
      requires Valid()
      ensures keys == labels
      ensures dist == Distribution(table, labels, sequence)
      ensures forall l :: l in dist ==> 0.0 < dist[l] <= 1.0
      ensures labels != [] ==> SumOver(dist, keys) == 1.0
    {
      var sendThrough, totalProb := Likelihoods(sequence);
      if labels != [] {
        EvidencePositive(table, labels, sequence);
      }
      // the key set of `sendThrough` in insertion order is `labels`
      keys := labels;
      dist := Normalise(keys, sendThrough, totalProb);
      NormalisedIsDistribution(table, labels, sequence, dist);
      forall l | l in table ensures 0.0 < dist[l] <= 1.0 {
        DistributionBounds(table, labels, sequence, l);
      }
      if labels != [] {
        DistributionSumsToOne(table, labels, sequence);
      }
    }

    /** `bestMatchingChain(sequence)`: the label of highest posterior, the
        first one in insertion order among equals because the scan replaces
        its candidate only on a strictly greater value; `None` (the source's
        `null`) when no label is trained.  Since normalising keeps the
        ranking, it is also the first label of highest likelihood. */
    method BestMatchingChain(sequence: seq<S>) returns (best: Option<L>)
      requires Valid()
      ensures best.None? <==> labels == []
      ensures best.Some? ==> exists k :: IsFirstMax(labels, Distribution(table, labels, sequence), k)
                                         && labels[k] == best.value
      ensures best.Some? ==> exists k :: IsFirstMax(labels, Raw(table, sequence), k)
                                         && labels[k] == best.value
    {
      var keys, labelProb := LabelDistribution(sequence);
      ghost var k;
      best, k := FirstMaxScan(keys, labelProb);
      if best.Some? {
        PosteriorArgmaxIsLikelihoodArgmax(table, labels, sequence, k);
      }
    }
  }

  /** The second loop of `labelDistribution`: every entry, visited in key
      order, is divided by the total. */
  method Normalise<L(==)>(keys: seq<L>, before: map<L, real>, total: real) returns (after: map<L, real>)
    requires Distinct(keys)
    requires (set j | 0 <= j < |keys| :: keys[j]) == before.Keys
    requires keys == [] || total != 0.0
    ensures after.Keys == before.Keys
    ensures forall j :: 0 <= j < |keys| ==> after[keys[j]] == before[keys[j]] / total
    ensures forall l :: l in after ==> after[l] == before[l] / total
  {
    after := before;
    for i := 0 to |keys|
      invariant after.Keys == before.Keys
      invariant forall j :: 0 <= j < i ==> after[keys[j]] == before[keys[j]] / total
      invariant forall j :: i <= j < |keys| ==> after[keys[j]] == before[keys[j]]
    {
      var lbl := keys[i];
      assert lbl in before;
      var labelProb := after[lbl];
      assert forall j :: 0 <= j < i ==> keys[j] != lbl;
      after := after[lbl := labelProb / total];
    }
  }

  /** The loop of `bestMatchingChain`: a scan in key order that starts from
      the sentinel -1 and replaces its candidate only on a strictly greater
      value.  It finds nothing exactly when no value exceeds the sentinel,
      and otherwise the first position holding the maximum. */
  method FirstMaxScan<L>(keys: seq<L>, d: map<L, real>) returns (best: Option<L>, ghost k: int)
    requires forall j :: 0 <= j < |keys| ==> keys[j] in d
    ensures best.None? <==> forall j :: 0 <= j < |keys| ==> d[keys[j]] <= -1.0
    ensures best.Some? ==> IsFirstMax(keys, d, k) && keys[k] == best.value
  {
    var maxProb := -1.0;
    var maxProbLabel: Option<L> := None;
    k := 0;
    for i := 0 to |keys|
      invariant 0 <= k <= i
      invariant maxProbLabel.None? <==> forall j :: 0 <= j < i ==> d[keys[j]] <= -1.0
      invariant maxProbLabel.None? ==> maxProb == -1.0
      invariant maxProbLabel.Some? ==> k < i && maxProbLabel == Some(keys[k]) && maxProb == d[keys[k]]
      invariant forall j :: 0 <= j < i ==> d[keys[j]] <= maxProb
      invariant forall j :: 0 <= j < k ==> d[keys[j]] < maxProb
    {
      var probability := d[keys[i]];
      if probability > maxProb {
        maxProb := probability;
        maxProbLabel := Some(keys[i]);
        k := i;
      }
    }
    best := maxProbLabel;
  }
}
