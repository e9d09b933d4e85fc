/** A worked example of classification.  Label `EN` is trained on the words
    "the" and "that" and label `FR` on "le" and "la", one `count` per
    transition with the start predecessor for each first letter; `English`
    and `French` are the label maps this produces.  The word "the" is then
    scored: `EN` pays for all three transitions, (3/4) * (3/4) * (2/5) =
    9/40, while `FR` pays only for the first one, 1/4, because the contexts
    `t` and `h` were never seen under `FR` and a missing context gives the
    factor 1.  So `FR` is the best label. */
module Scenario {
  import opened Wrappers
  import opened Histograms
  import opened Fractions
  import opened MarkovModel

  datatype Lang = EN | FR

  /** The `EN` label map after the/that. */
  const English: LabelMap<char> :=
    map[None := multiset{'t', 't'}, Some('t') := multiset{'h', 'h'},
        Some('h') := multiset{'e', 'a'}, Some('a') := multiset{'t'}]

  /** The `FR` label map after le/la. */
  const French: LabelMap<char> :=
    map[None := multiset{'l', 'l'}, Some('l') := multiset{'e', 'a'}]

  /** The trained table, with `EN` inserted first. */
  const Trained: Table<Lang, char> := map[EN := English, FR := French]

  /** A histogram of two counts has one distinct symbol or two. */
  lemma SizeOfPair<S>(x: S, y: S)
    ensures Size(multiset{x, y}) == if x == y then 1 else 2
  {
    var h := multiset{x, y};
    if x == y {
      assert (set z | z in h) == {x};
    } else {
      assert (set z | z in h) == {x, y};
    }
  }

  /** P("the" | EN) = 3/4 * 3/4 * 2/5. */
  lemma EnglishProduct()
    ensures ProductUpTo(English, "the", 3) == Frac(18, 80)
  {
    var s := "the";
    SizeOfPair('t', 't');
    SizeOfPair('h', 'h');
    SizeOfPair('e', 'a');
    assert FactorAt(English, s, 0) == Frac(3, 4);
    assert PrevOf(s, 1) == Some('t');
    assert FactorAt(English, s, 1) == Frac(3, 4);
    assert PrevOf(s, 2) == Some('h');
    assert FactorAt(English, s, 2) == Frac(2, 5);
  }

  /** P("the" | FR) = 1/4 * 1 * 1. */
  lemma FrenchProduct()
    ensures ProductUpTo(French, "the", 3) == Frac(1, 4)
  {
    var s := "the";
    SizeOfPair('l', 'l');
    assert FactorAt(French, s, 0) == Frac(1, 4);
    assert PrevOf(s, 1) == Some('t');
    EmptyIsEmpty('h');
    assert FactorAt(French, s, 1) == One;
    assert PrevOf(s, 2) == Some('h');
    EmptyIsEmpty('e');
    assert FactorAt(French, s, 2) == One;
  }

  /** "the" is more likely under `FR` than under `EN`. */
  lemma FrenchMoreLikely()
    ensures Likelihood(French, "the") > Likelihood(English, "the")
  {
    EnglishProduct();
    FrenchProduct();
    ExceedsValue(Frac(1, 4), Frac(18, 80));
  }

  /** The likelihoods of "the" under the two labels. */
  lemma RawOfThe()
    ensures Raw(Trained, "the")[EN] == Likelihood(English, "the")
    ensures Raw(Trained, "the")[FR] == Likelihood(French, "the")
  {
  }

  /** `FR`, the second label in insertion order, is the first label of
      highest likelihood. */
  lemma FrenchFirstMax()
    ensures IsFirstMax([EN, FR], Raw(Trained, "the"), 1)
  {
    RawOfThe();
    FrenchMoreLikely();
  }

  /** The trained table lists `EN` then `FR`. */
  lemma TrainedOrder()
    ensures WellFormed(Trained, [EN, FR])
  {
    assert Trained.Keys == {EN, FR};
  }

  /** Since normalising keeps the ranking, `FR` is also the first label of
      highest posterior, and it is the only such label: `bestMatchingChain`
      answers `FR`. */
  lemma FrenchWins()
    ensures WellFormed(Trained, [EN, FR])
    ensures IsFirstMax([EN, FR], Distribution(Trained, [EN, FR], "the"), 1)
    ensures forall k :: IsFirstMax([EN, FR], Distribution(Trained, [EN, FR], "the"), k) ==> k == 1
  {
    TrainedOrder();
    FrenchFirstMax();
    var order, d := [EN, FR], Distribution(Trained, [EN, FR], "the");
    PosteriorArgmaxIsLikelihoodArgmax(Trained, order, "the", 1);
    forall k | IsFirstMax(order, d, k) ensures k == 1 {
      FirstMaxUnique(order, d, k, 1);
    }
  }
}
