/** The histogram collaborator used by the Markov chain.  Its implementation
    is not part of this model; only the four operations the chain calls are
    modelled.  A histogram is a finite multiset of symbols: the count of a
    symbol is its multiplicity, the total is the cardinality and the size is
    the number of distinct symbols with a positive count. */
module Histograms {

  type Histogram<S(==)> = multiset<S>

  /** A fresh `new Histogram<>()`. */
  function Empty<S(==)>(): Histogram<S>
  {
    multiset{}
  }

  /** `getCountFor(x)`: 0 for a symbol never bumped. */
  function CountFor<S(==)>(h: Histogram<S>, x: S): nat
  {
    h[x]
  }

  /** `getTotalCounts()`: the sum of all counts. */
  function TotalCounts<S(==)>(h: Histogram<S>): nat
  {
    |h|
  }

  /** `size()`: the number of distinct symbols that have been counted. */
  function Size<S(==)>(h: Histogram<S>): nat
  {
    |set x | x in h|
  }

  /** `bumpBy(x, n)`: the count of `x` grows by `n`, every other count stays. */
  function BumpBy<S(==)>(h: Histogram<S>, x: S, n: nat): Histogram<S>
  {
    h[x := h[x] + n]
  }

  /** Bumping changes the count of the bumped symbol only. */
  lemma BumpByCount<S>(h: Histogram<S>, x: S, n: nat, y: S)
    ensures CountFor(BumpBy(h, x, n), y) == CountFor(h, y) + (if y == x then n else 0)
  {
  }

  /** The empty histogram counts nothing and has no distinct symbols. */
  lemma EmptyIsEmpty<S>(x: S)
    ensures CountFor(Empty<S>(), x) == 0 && TotalCounts(Empty<S>()) == 0 && Size(Empty<S>()) == 0
  {
    assert (set y | y in Empty<S>()) == {};
  }

  /** No single count exceeds the total: the fact the smoothing bound rests on. */
  lemma {:induction false} CountAtMostTotal<S>(h: Histogram<S>, x: S)
    ensures CountFor(h, x) <= TotalCounts(h)
    decreases |h|
  {
    if h != multiset{} {
      var y :| y in h;
      var rest := h - multiset{y};
      assert h == rest + multiset{y};
      CountAtMostTotal(rest, x);
    }
  }

  /** An empty histogram has no distinct symbols; a non-empty one has at
      least one and no more than its total. */
  lemma SizeBounds<S>(h: Histogram<S>)
    ensures h == multiset{} <==> Size(h) == 0
    ensures Size(h) <= TotalCounts(h)
  {
    var keys := set x | x in h;
    if h == multiset{} {
      assert keys == {};
    } else {
      var y :| y in h;
      assert y in keys;
    }
    SizeAtMostTotal(h);
  }

  lemma {:induction false} SizeAtMostTotal<S>(h: Histogram<S>)
    ensures Size(h) <= TotalCounts(h)
    decreases |h|
  {
    if h != multiset{} {
      var y :| y in h;
      var rest := h - multiset{y};
      assert h == rest + multiset{y};
      var keys := set x | x in h;
      var restKeys := set x | x in rest;
      assert keys == restKeys + {y};
      SizeAtMostTotal(rest);
    }
  }

  /** Bumping by one adds a distinct symbol exactly when it was absent. */
  lemma BumpOneEffect<S>(h: Histogram<S>, x: S)
    ensures TotalCounts(BumpBy(h, x, 1)) == TotalCounts(h) + 1
    ensures Size(BumpBy(h, x, 1)) == Size(h) + (if CountFor(h, x) == 0 then 1 else 0)
  {
    var r := BumpBy(h, x, 1);
    assert r == h + multiset{x};
    var keys := set y | y in h;
    var newKeys := set y | y in r;
    assert newKeys == keys + {x};
    if CountFor(h, x) == 0 {
      assert x !in keys;
    } else {
      assert keys + {x} == keys;
    }
  }
}
