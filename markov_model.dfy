/** Value-level meaning of the state and of the operations of `MarkovChain`:
    the three-level table, what one counted transition does to it, the
    smoothed likelihood of a sequence under one label, the normalised
    distribution over labels and the first-maximum rule used for the best
    label.  The class in module `Markov` is proved against these. */
module MarkovModel {
  import opened Wrappers
  import opened Histograms
  import opened Fractions

  /** The predecessor-to-histogram map kept for one label; `None` is the
      start-of-sequence predecessor. */
  type LabelMap<S(==)> = map<Option<S>, Histogram<S>>

  /** The contents of `label2symbol2symbol`, without its key order. */
  type Table<L(==), S(==)> = map<L, LabelMap<S>>

  /** No label occurs twice. */
  ghost predicate Distinct<L>(order: seq<L>)
  {
    forall i, j :: 0 <= i < j < |order| ==> order[i] != order[j]
  }

  /** A `LinkedHashMap`: `order` lists every key of `t` exactly once, in
      insertion order. */
  ghost predicate WellFormed<L, S>(t: Table<L, S>, order: seq<L>)
  {
    && (forall l :: l in t ==> l in order)
    && (forall i :: 0 <= i < |order| ==> order[i] in t)
    && Distinct(order)
  }

  // ---------------------------------------------------------------------
  // Training

  /** The map of a label, or an empty map for a label never counted. */
  function MapOf<L(==), S(==)>(t: Table<L, S>, lbl: L): LabelMap<S>
  {
    if lbl in t then t[lbl] else map[]
  }

  /** `labelMap.getOrDefault(prev, new Histogram<>())`: a missing context
      reads as an empty histogram and inserts nothing. */
  function Context<S(==)>(m: LabelMap<S>, prev: Option<S>): Histogram<S>
  {
    if prev in m then m[prev] else Empty()
  }

  /** How often `next` was counted after `prev` under `label`. */
  function TransitionCount<L(==), S(==)>(t: Table<L, S>, lbl: L, prev: Option<S>, next: S): nat
  {
    CountFor(Context(MapOf(t, lbl), prev), next)
  }

  /** The table after `count(prev, label, next)`: the label's map and the
      predecessor's histogram are created when absent, then `next` is bumped
      by one. */
  function Observe<L(==), S(==)>(t: Table<L, S>, lbl: L, prev: Option<S>, next: S): (r: Table<L, S>)
    ensures r.Keys == t.Keys + {lbl}
    ensures r[lbl].Keys == MapOf(t, lbl).Keys + {prev}
    ensures forall l :: l in t && l != lbl ==> r[l] == t[l]
    ensures forall p :: p in MapOf(t, lbl) && p != prev ==> r[lbl][p] == MapOf(t, lbl)[p]
  {
    var m := MapOf(t, lbl);
    t[lbl := m[prev := BumpBy(Context(m, prev), next, 1)]]
  }

  /** The key order of the outer map after `count(_, label, _)`: a new label
      goes to the end, a known one leaves the order alone. */
  function ObserveOrder<L(==), S(==)>(order: seq<L>, t: Table<L, S>, lbl: L): seq<L>
  {
    if lbl in t then order else order + [lbl]
  }

  /** `count` raises exactly one transition count, by exactly one. */
  lemma ObserveCounts<L, S>(t: Table<L, S>, lbl: L, prev: Option<S>, next: S, l: L, p: Option<S>, x: S)
    ensures TransitionCount(Observe(t, lbl, prev, next), l, p, x)
         == TransitionCount(t, l, p, x) + (if l == lbl && p == prev && x == next then 1 else 0)
  {
    var m := MapOf(t, lbl);
    BumpByCount(Context(m, prev), next, 1, x);
    if l == lbl && p != prev {
      assert Context(MapOf(Observe(t, lbl, prev, next), l), p) == Context(m, p);
    }
  }

  /** `count` keeps the outer map a well-formed insertion-ordered map: the
      label is present afterwards, the old order is a prefix of the new one,
      and the order grows by one label exactly when the label was new. */
  lemma ObserveKeepsOrder<L, S>(t: Table<L, S>, order: seq<L>, lbl: L, prev: Option<S>, next: S)
    requires WellFormed(t, order)
    ensures WellFormed(Observe(t, lbl, prev, next), ObserveOrder(order, t, lbl))
    ensures lbl in ObserveOrder(order, t, lbl)
    ensures order <= ObserveOrder(order, t, lbl)
    ensures |ObserveOrder(order, t, lbl)| == |order| + (if lbl in t then 0 else 1)
  {
    var order' := ObserveOrder(order, t, lbl);
    if lbl !in t {
      forall i, j | 0 <= i < j < |order'| ensures order'[i] != order'[j] {
        if j == |order| {
          assert order'[i] == order[i] && order[i] in t;
        } else {
          assert order'[i] == order[i] && order'[j] == order[j];
        }
      }
    }
  }

  /** Writing a key twice leaves the second value. */
  lemma OverwriteKey<K, V>(t: map<K, V>, k: K, a: V, b: V)
    ensures t[k := a][k := b] == t[k := b]
  {
  }

  // ---------------------------------------------------------------------
  // Likelihood of a sequence under one label

  /** The predecessor of position `i`: start for the first symbol. */
  function PrevOf<S>(s: seq<S>, i: nat): Option<S>
    requires i <= |s|
  {
    if i == 0 then None else Some(s[i - 1])
  }

  /** The add-one smoothed probability of `x` in context histogram `h`:
      (count + 1) / (total + distinct + 1), kept as an exact fraction. */
  function Factor<S(==)>(h: Histogram<S>, x: S): Frac
  {
    Frac(CountFor(h, x) + 1, TotalCounts(h) + Size(h) + 1)
  }

  /** The factor contributed by position `i` of `s`. */
  function FactorAt<S(==)>(m: LabelMap<S>, s: seq<S>, i: nat): Frac
    requires i < |s|
  {
    Factor(Context(m, PrevOf(s, i)), s[i])
  }

  /** The product of the factors of the first `n` positions of `s`. */
  function ProductUpTo<S(==)>(m: LabelMap<S>, s: seq<S>, n: nat): Frac
    requires n <= |s|
  {
    if n == 0 then One else Times(ProductUpTo(m, s, n - 1), FactorAt(m, s, n - 1))
  }

  /** P(s | label) for the label whose map is `m`. */
  function Likelihood<S(==)>(m: LabelMap<S>, s: seq<S>): real
  {
    Value(ProductUpTo(m, s, |s|))
  }

  /** Every smoothing factor lies in (0, 1]; it is exactly 1 in an empty
      context and below 1 in a context that has seen anything. */
  lemma FactorBounds<S>(h: Histogram<S>, x: S)
    ensures Proper(Factor(h, x))
    ensures h == multiset{} <==> !BelowOne(Factor(h, x))
  {
    CountAtMostTotal(h, x);
    SizeBounds(h);
  }

  /** The smoothing factor as a real number: 1 exactly in an empty context. */
  lemma FactorValue<S>(h: Histogram<S>, x: S)
    ensures 0.0 < Value(Factor(h, x)) <= 1.0
    ensures h == multiset{} <==> Value(Factor(h, x)) == 1.0
  {
    FactorBounds(h, x);
    ValueBounds(Factor(h, x));
  }

  /** The empty sequence has likelihood exactly 1 (the empty product). */
  lemma LikelihoodOfEmpty<S>(m: LabelMap<S>)
    ensures Likelihood(m, []) == 1.0
  {
  }

  /** Extending a sequence does not change the factors of its prefix. */
  lemma {:induction false} ProductOfPrefix<S>(m: LabelMap<S>, s: seq<S>, u: seq<S>, n: nat)
    requires n <= |s|
    ensures ProductUpTo(m, s + u, n) == ProductUpTo(m, s, n)
  {
    if n > 0 {
      ProductOfPrefix(m, s, u, n - 1);
      assert PrevOf(s + u, n - 1) == PrevOf(s, n - 1);
      assert (s + u)[n - 1] == s[n - 1];
    }
  }

  /** The context of the symbol appended to `s`: the last symbol of `s`,
      start for the empty sequence. */
  function LastOf<S>(s: seq<S>): Option<S>
  {
    if s == [] then None else Some(s[|s| - 1])
  }

  /** Appending `x` multiplies the product by the factor of `x` in the
      context of the last symbol. */
  lemma ProductSnoc<S>(m: LabelMap<S>, s: seq<S>, x: S)
    ensures ProductUpTo(m, s + [x], |s| + 1) == Times(ProductUpTo(m, s, |s|), Factor(Context(m, LastOf(s)), x))
  {
    ProductOfPrefix(m, s, [x], |s|);
    assert (s + [x])[|s|] == x;
    assert PrevOf(s + [x], |s|) == LastOf(s);
  }

  /** Appending `x` multiplies the likelihood by the factor of `x` in the
      context of the last symbol (start for the empty sequence). */
  lemma LikelihoodSnoc<S>(m: LabelMap<S>, s: seq<S>, x: S)
    ensures Likelihood(m, s + [x]) == Likelihood(m, s) * Value(Factor(Context(m, LastOf(s)), x))
  {
    var p, f := ProductUpTo(m, s, |s|), Factor(Context(m, LastOf(s)), x);
    calc {
      Likelihood(m, s + [x]);
    == { assert |s + [x]| == |s| + 1; ProductSnoc(m, s, x); }
      Value(Times(p, f));
    == { ValueOfTimes(p, f); }
      Value(p) * Value(f);
    }
  }

  /** Every partial product lies in (0, 1]. */
  lemma {:induction false} ProductBounds<S>(m: LabelMap<S>, s: seq<S>, n: nat)
    requires n <= |s|
    ensures Proper(ProductUpTo(m, s, n))
  {
    if n > 0 {
      ProductBounds(m, s, n - 1);
      FactorBounds(Context(m, PrevOf(s, n - 1)), s[n - 1]);
      TimesProper(ProductUpTo(m, s, n - 1), FactorAt(m, s, n - 1));
    }
  }

  /** A first factor below one keeps every later partial product below one. */
  lemma {:induction false} ProductBelowOne<S>(m: LabelMap<S>, s: seq<S>, n: nat)
    requires 0 < n <= |s|
    requires BelowOne(FactorAt(m, s, 0))
    ensures BelowOne(ProductUpTo(m, s, n))
  {
    ProductBounds(m, s, n - 1);
    FactorBounds(Context(m, PrevOf(s, n - 1)), s[n - 1]);
    if n > 1 {
      ProductBelowOne(m, s, n - 1);
    }
    TimesProper(ProductUpTo(m, s, n - 1), FactorAt(m, s, n - 1));
  }

  /** P(s | label) lies in (0, 1]. */
  lemma LikelihoodBounds<S>(m: LabelMap<S>, s: seq<S>)
    ensures 0.0 < Likelihood(m, s) <= 1.0
  {
    ProductBounds(m, s, |s|);
    ValueBounds(ProductUpTo(m, s, |s|));
  }

  /** When the start context of the label has seen anything, every non-empty
      sequence has likelihood strictly below 1. */
  lemma LikelihoodBelowOne<S>(m: LabelMap<S>, s: seq<S>)
    requires s != []
    requires Context(m, None) != multiset{}
    ensures Likelihood(m, s) < 1.0
  {
    FactorBounds(Context(m, None), s[0]);
    ProductBounds(m, s, |s|);
    ProductBelowOne(m, s, |s|);
    ValueBounds(ProductUpTo(m, s, |s|));
  }

  /** The product for a two-symbol sequence: the factor of the first symbol
      in the start context times the factor of the second after the first. */
  lemma ProductOfPair<S>(m: LabelMap<S>, a: S, b: S)
    ensures ProductUpTo(m, [a, b], 2) == Times(Factor(Context(m, None), a), Factor(Context(m, Some(a)), b))
  {
    var s := [a, b];
    assert PrevOf(s, 1) == Some(a) && s[1] == b && s[0] == a;
    assert ProductUpTo(m, s, 1) == Times(One, FactorAt(m, s, 0));
  }

  /** The likelihood of a two-symbol sequence written out. */
  lemma LikelihoodOfPair<S>(m: LabelMap<S>, a: S, b: S)
    ensures Likelihood(m, [a, b]) == Value(Factor(Context(m, None), a)) * Value(Factor(Context(m, Some(a)), b))
  {
    ProductOfPair(m, a, b);
    ValueOfTimes(Factor(Context(m, None), a), Factor(Context(m, Some(a)), b));
  }

  /** In a context that has already seen something, counting `b` once more
      raises the smoothed factor of `b`. */
  lemma FactorGrows<S>(h: Histogram<S>, b: S)
    requires h != multiset{}
    ensures Exceeds(Factor(BumpBy(h, b, 1), b), Factor(h, b))
    ensures Value(Factor(BumpBy(h, b, 1), b)) > Value(Factor(h, b))
  {
    var c, t, d := CountFor(h, b), TotalCounts(h), Size(h);
    CountAtMostTotal(h, b);
    SizeBounds(h);
    BumpOneEffect(h, b);
    BumpByCount(h, b, 1, b);
    // old factor (c + 1) / den, new factor (c + 2) / (den + 1 + extra)
    var den := t + d + 1;
    var extra := if c == 0 then 1 else 0;
    assert Factor(h, b) == Frac(c + 1, den);
    assert Factor(BumpBy(h, b, 1), b) == Frac(c + 2, den + 1 + extra);
    assert (c + 2) * den == (c + 1) * den + den;
    assert (c + 1) * (den + 1 + extra) == (c + 1) * den + (c + 1) * (1 + extra);
    assert (c + 1) * (1 + extra) < den;
    ExceedsValue(Factor(BumpBy(h, b, 1), b), Factor(h, b));
  }

  /** Reinforcement: once the context `a` of `label` has been seen, counting
      the transition a -> b again strictly raises P([a, b] | label). */
  lemma ReinforcementRaises<L, S>(t: Table<L, S>, lbl: L, a: S, b: S)
    requires Context(MapOf(t, lbl), Some(a)) != multiset{}
    ensures lbl in t
    ensures Likelihood(Observe(t, lbl, Some(a), b)[lbl], [a, b]) > Likelihood(t[lbl], [a, b])
  {
    assert MapOf(t, lbl) != map[];
    var m := t[lbl];
    var m' := Observe(t, lbl, Some(a), b)[lbl];
    assert Context(m', None) == Context(m, None);
    assert Context(m', Some(a)) == BumpBy(Context(m, Some(a)), b, 1);
    var f0 := Factor(Context(m, None), a);
    var f1, f1' := Factor(Context(m, Some(a)), b), Factor(Context(m', Some(a)), b);
    FactorBounds(Context(m, None), a);
    FactorGrows(Context(m, Some(a)), b);
    TimesExceeds(f0, f1', f1);
    ProductOfPair(m, a, b);
    ProductOfPair(m', a, b);
    ExceedsValue(Times(f0, f1'), Times(f0, f1));
  }

  /** A product scaled by a fraction scales the likelihood by its value. */
  lemma LikelihoodScaled<S>(m: LabelMap<S>, m': LabelMap<S>, s: seq<S>, s': seq<S>, g: Frac)
    requires ProductUpTo(m', s', |s'|) == Times(ProductUpTo(m, s, |s|), g)
    ensures Likelihood(m', s') == Likelihood(m, s) * Value(g)
  {
    ValueOfTimes(ProductUpTo(m, s, |s|), g);
  }

  /** When `a` has never been a predecessor under the label, counting a -> b
      multiplies the product for [a, b] by 2/3: the factor of `b` after `a`
      goes from 1/1 (empty context) to 2/3. */
  lemma FirstObservationProducts<L, S>(t: Table<L, S>, lbl: L, a: S, b: S)
    requires lbl in t
    requires Context(t[lbl], Some(a)) == multiset{}
    ensures ProductUpTo(Observe(t, lbl, Some(a), b)[lbl], [a, b], 2) == Times(ProductUpTo(t[lbl], [a, b], 2), Frac(2, 3))
  {
    var m := t[lbl];
    var m' := Observe(t, lbl, Some(a), b)[lbl];
    assert Context(m', None) == Context(m, None);
    var h := Context(m', Some(a));
    assert h == multiset{b};
    assert (set x | x in h) == {b};
    var f0 := Factor(Context(m, None), a);
    assert Factor(Context(m, Some(a)), b) == One;
    assert Times(f0, One) == f0;
    ProductOfPair(m, a, b);
    ProductOfPair(m', a, b);
  }

  /** When `a` has never been a predecessor under the label, its context is
      empty and the factor of `b` after it drops from 1 to 2/3, so counting
      a -> b lowers P([a, b] | label).  Once the context is non-empty,
      `ReinforcementRaises` applies instead. */
  lemma FirstObservationLowers<L, S>(t: Table<L, S>, lbl: L, a: S, b: S)
    requires lbl in t
    requires Context(t[lbl], Some(a)) == multiset{}
    ensures Likelihood(Observe(t, lbl, Some(a), b)[lbl], [a, b]) == Likelihood(t[lbl], [a, b]) * (2.0 / 3.0)
  {
    FirstObservationProducts(t, lbl, a, b);
    LikelihoodScaled(t[lbl], Observe(t, lbl, Some(a), b)[lbl], [a, b], [a, b], Frac(2, 3));
    assert Value(Frac(2, 3)) == 2.0 / 3.0;
  }

  // ---------------------------------------------------------------------
  // Distribution over labels

  /** A positive ratio of a number to a larger one lies in (0, 1], and is one
      exactly when the two are equal. */
  lemma RatioAtMostOne(num: real, den: real)
    requires 0.0 < num <= den
    ensures 0.0 < num / den <= 1.0
    ensures num / den == 1.0 <==> num == den
  {
    assert num / den * den == num;
  }

  /** Every label listed in `q` has a value in `d`. */
  ghost predicate Covers<L>(d: map<L, real>, q: seq<L>)
  {
    forall i :: 0 <= i < |q| ==> q[i] in d
  }

  /** The sum of the values of the first `n` labels of `q`, in order. */
  function SumFirst<L(==)>(d: map<L, real>, q: seq<L>, n: nat): real
    requires Covers(d, q)
    requires n <= |q|
  {
    if n == 0 then 0.0 else SumFirst(d, q, n - 1) + d[q[n - 1]]
  }

  /** The sum of the values of all labels of `q`. */
  function SumOver<L(==)>(d: map<L, real>, q: seq<L>): real
    requires Covers(d, q)
  {
    SumFirst(d, q, |q|)
  }

  /** Each label's likelihood of `s`, before normalisation. */
  function Raw<L(==), S(==)>(t: Table<L, S>, s: seq<S>): (r: map<L, real>)
    ensures r.Keys == t.Keys
  {
    map l | l in t :: Likelihood(t[l], s)
  }

  /** The entries `labelDistribution` has put after visiting the first `n`
      labels of `order`: each one's likelihood. */
  ghost function RawUpTo<L, S>(t: Table<L, S>, order: seq<L>, s: seq<S>, n: nat): map<L, real>
    requires WellFormed(t, order)
    requires n <= |order|
  {
    if n == 0 then map[]
    else RawUpTo(t, order, s, n - 1)[order[n - 1] := Likelihood(t[order[n - 1]], s)]
  }

  /** After `n` labels, exactly those labels carry their likelihoods. */
  lemma {:induction false} RawUpToEntries<L, S>(t: Table<L, S>, order: seq<L>, s: seq<S>, n: nat)
    requires WellFormed(t, order)
    requires n <= |order|
    ensures forall k :: k in RawUpTo(t, order, s, n) ==> k in t && RawUpTo(t, order, s, n)[k] == Likelihood(t[k], s)
    ensures forall j :: 0 <= j < n ==> order[j] in RawUpTo(t, order, s, n)
  {
    if n > 0 {
      RawUpToEntries(t, order, s, n - 1);
      var prior, l := RawUpTo(t, order, s, n - 1), order[n - 1];
      var r := prior[l := Likelihood(t[l], s)];
      assert RawUpTo(t, order, s, n) == r;
      forall j | 0 <= j < n ensures order[j] in r {
        if j < n - 1 {
          assert order[j] in prior;
        }
      }
    }
  }

  /** After every label, the entries are the likelihood table. */
  lemma RawUpToIsRaw<L, S>(t: Table<L, S>, order: seq<L>, s: seq<S>)
    requires WellFormed(t, order)
    ensures RawUpTo(t, order, s, |order|) == Raw(t, s)
  {
    RawUpToEntries(t, order, s, |order|);
    var r := RawUpTo(t, order, s, |order|);
    forall k | k in t ensures k in r {
      var j :| 0 <= j < |order| && order[j] == k;
    }
  }

  /** The normalising constant: the sum of all labels' likelihoods. */
  function Evidence<L(==), S(==)>(t: Table<L, S>, order: seq<L>, s: seq<S>): real
    requires WellFormed(t, order)
  {
    SumOver(Raw(t, s), order)
  }

  /** P(label | s) under a uniform prior, for every label of the table. */
  function Distribution<L(==), S(==)>(t: Table<L, S>, order: seq<L>, s: seq<S>): (d: map<L, real>)
    requires WellFormed(t, order)
    ensures d.Keys == t.Keys
  {
    if order == [] then map[]
    else
      EvidencePositive(t, order, s);
      var e := Evidence(t, order, s);
      map l | l in t :: Likelihood(t[l], s) / e
  }

  /** A sum of positive values over a non-empty list is positive, and it is
      at least every single value in the list. */
  lemma {:induction false} SumFirstPositive<L>(d: map<L, real>, q: seq<L>, n: nat)
    requires Covers(d, q)
    requires n <= |q|
    requires forall i :: 0 <= i < |q| ==> d[q[i]] > 0.0
    ensures n > 0 ==> SumFirst(d, q, n) > 0.0
    ensures forall i :: 0 <= i < n ==> d[q[i]] <= SumFirst(d, q, n)
    ensures SumFirst(d, q, n) >= 0.0
  {
    if n > 0 {
      SumFirstPositive(d, q, n - 1);
    }
  }

  /** With at least one label the evidence is positive, so normalising is
      well defined. */
  lemma EvidencePositive<L, S>(t: Table<L, S>, order: seq<L>, s: seq<S>)
    requires WellFormed(t, order)
    requires order != []
    ensures Evidence(t, order, s) > 0.0
    ensures forall l :: l in t ==> Likelihood(t[l], s) <= Evidence(t, order, s)
  {
    var r := Raw(t, s);
    forall i | 0 <= i < |order| ensures order[i] in r && r[order[i]] > 0.0 {
      LikelihoodBounds(t[order[i]], s);
    }
    SumFirstPositive(r, order, |order|);
    forall l | l in t ensures Likelihood(t[l], s) <= Evidence(t, order, s) {
      var i :| 0 <= i < |order| && order[i] == l;
    }
  }

  /** Dividing every value by `e` divides the sum by `e`. */
  lemma {:induction false} SumFirstScaled<L>(d: map<L, real>, d': map<L, real>, q: seq<L>, n: nat, e: real)
    requires e != 0.0
    requires Covers(d, q) && Covers(d', q)
    requires n <= |q|
    requires forall i :: 0 <= i < |q| ==> d'[q[i]] == d[q[i]] / e
    ensures SumFirst(d', q, n) == SumFirst(d, q, n) / e
  {
    if n > 0 {
      SumFirstScaled(d, d', q, n - 1, e);
      assert (SumFirst(d, q, n - 1) + d[q[n - 1]]) / e == SumFirst(d, q, n - 1) / e + d[q[n - 1]] / e;
    }
  }

  /** The posterior of a label is its likelihood over the evidence. */
  lemma DistributionAt<L, S>(t: Table<L, S>, order: seq<L>, s: seq<S>, l: L)
    requires WellFormed(t, order)
    requires l in t
    ensures Evidence(t, order, s) > 0.0
    ensures Distribution(t, order, s)[l] == Likelihood(t[l], s) / Evidence(t, order, s)
  {
    assert order != [];
    EvidencePositive(t, order, s);
  }

  /** A map over the labels whose every value is that label's likelihood
      divided by the evidence is the distribution. */
  lemma NormalisedIsDistribution<L, S>(t: Table<L, S>, order: seq<L>, s: seq<S>, d: map<L, real>)
    requires WellFormed(t, order)
    requires order == [] || Evidence(t, order, s) > 0.0
    requires d.Keys == t.Keys
    requires forall i :: 0 <= i < |order| ==> d[order[i]] == Raw(t, s)[order[i]] / Evidence(t, order, s)
    ensures d == Distribution(t, order, s)
  {
    var dist := Distribution(t, order, s);
    forall l | l in t ensures d[l] == dist[l] {
      var i :| 0 <= i < |order| && order[i] == l;
      DistributionAt(t, order, s, l);
    }
  }

  /** Each posterior lies in (0, 1]. */
  lemma DistributionBounds<L, S>(t: Table<L, S>, order: seq<L>, s: seq<S>, l: L)
    requires WellFormed(t, order)
    requires l in t
    ensures 0.0 < Distribution(t, order, s)[l] <= 1.0
  {
    DistributionAt(t, order, s, l);
    EvidencePositive(t, order, s);
    LikelihoodBounds(t[l], s);
    RatioAtMostOne(Likelihood(t[l], s), Evidence(t, order, s));
  }

  /** The posteriors of all labels sum to one when at least one label is
      trained. */
  lemma DistributionSumsToOne<L, S>(t: Table<L, S>, order: seq<L>, s: seq<S>)
    requires WellFormed(t, order)
    requires order != []
    ensures SumOver(Distribution(t, order, s), order) == 1.0
  {
    var d, r := Distribution(t, order, s), Raw(t, s);
    var e := Evidence(t, order, s);
    assert e == SumOver(r, order);
    EvidencePositive(t, order, s);
    forall i | 0 <= i < |order| ensures order[i] in r && order[i] in d && d[order[i]] == r[order[i]] / e {
      DistributionAt(t, order, s, order[i]);
    }
    SumFirstScaled(r, d, order, |order|, e);
    RatioAtMostOne(e, e);
  }

  // ---------------------------------------------------------------------
  // Best label

  /** Position `k` holds a maximal value and every earlier position a
      strictly smaller one: the label a strict `>` scan in order keeps. */
  ghost predicate IsFirstMax<L>(order: seq<L>, d: map<L, real>, k: int)
    requires forall i :: 0 <= i < |order| ==> order[i] in d
  {
    && 0 <= k < |order|
    && (forall j :: 0 <= j < |order| ==> d[order[j]] <= d[order[k]])
    && (forall j :: 0 <= j < k ==> d[order[j]] < d[order[k]])
  }

  /** At most one position is the first maximum, so the strict scan's
      result is determined by the values. */
  lemma FirstMaxUnique<L>(order: seq<L>, d: map<L, real>, k: int, k': int)
    requires forall i :: 0 <= i < |order| ==> order[i] in d
    requires IsFirstMax(order, d, k) && IsFirstMax(order, d, k')
    ensures k == k'
  {
    assert d[order[k]] == d[order[k']];
  }

  /** Normalising by a positive constant keeps the ranking, so the label with
      the first maximal posterior is the label with the first maximal
      likelihood. */
  lemma PosteriorArgmaxIsLikelihoodArgmax<L, S>(t: Table<L, S>, order: seq<L>, s: seq<S>, k: int)
    requires WellFormed(t, order)
    requires order != []
    ensures IsFirstMax(order, Distribution(t, order, s), k) <==> IsFirstMax(order, Raw(t, s), k)
  {
    var d := Distribution(t, order, s);
    var r := Raw(t, s);
    var e := Evidence(t, order, s);
    EvidencePositive(t, order, s);
    forall i, j | 0 <= i < |order| && 0 <= j < |order|
      ensures (d[order[i]] <= d[order[j]] <==> r[order[i]] <= r[order[j]])
      ensures (d[order[i]] < d[order[j]] <==> r[order[i]] < r[order[j]])
    {
      DivisionKeepsOrder(r[order[i]], r[order[j]], e);
    }
  }

  /** Division by a positive constant is strictly monotone. */
  lemma DivisionKeepsOrder(a: real, b: real, e: real)
    requires e > 0.0
    ensures a / e <= b / e <==> a <= b
    ensures a / e < b / e <==> a < b
  {
    assert a / e * e == a && b / e * e == b;
    if a <= b {
      assert a / e <= b / e;
    }
    if a < b {
      assert a / e < b / e;
    }
  }
}
