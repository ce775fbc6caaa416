/** Iterating and folding a step, and what carries over from one step to all of them. */
module Iteration {

  function Iterate<T>(f: T -> T, x: T, n: nat): T
  {
    if n == 0 then x else f(Iterate(f, x, n - 1))
  }

  function Fold<S, T>(f: (S, T) -> S, s: S, xs: seq<T>): S
    decreases |xs|
  {
    if xs == [] then s else f(Fold(f, s, xs[..|xs| - 1]), xs[|xs| - 1])
  }

  /** If `m` turns each step of `f` into a step of `g`, it turns `n` steps into `n` steps. */
  lemma {:induction false} IterateSimulates<T(!new), U>(f: T -> T, g: U -> U, m: T -> U, x: T, n: nat)
    requires forall y :: m(f(y)) == g(m(y))
    ensures m(Iterate(f, x, n)) == Iterate(g, m(x), n)
  {
    if n != 0 {
      IterateSimulates(f, g, m, x, n - 1);
    }
  }

  /** The same where `m` does so only for as long as `ok` holds, which each step keeps. */
  lemma {:induction false} IterateTracks<T(!new), U(!new)>(
      f: T -> T, g: U -> U, m: T -> U, ok: U -> bool, x: T, n: nat)
    requires forall y :: ok(m(y)) ==> m(f(y)) == g(m(y))
    requires forall z :: ok(z) ==> ok(g(z))
    requires ok(m(x))
    ensures m(Iterate(f, x, n)) == Iterate(g, m(x), n) && ok(m(Iterate(f, x, n)))
  {
    if n != 0 {
      IterateTracks(f, g, m, ok, x, n - 1);
    }
  }

  lemma {:induction false} IterateRests<T>(f: T -> T, x: T, n: nat)
    requires f(x) == x
    ensures Iterate(f, x, n) == x
  {
    if n != 0 {
      IterateRests(f, x, n - 1);
    }
  }

  lemma {:induction false} FoldSimulates<S(!new), R, T(!new)>(
      f: (S, T) -> S, g: (R, T) -> R, m: S -> R, s: S, xs: seq<T>)
    requires forall y, t :: m(f(y, t)) == g(m(y), t)
    ensures m(Fold(f, s, xs)) == Fold(g, m(s), xs)
    decreases |xs|
  {
    if xs != [] {
      FoldSimulates(f, g, m, s, xs[..|xs| - 1]);
    }
  }

  /** A step that can be undone is injective, and so is its iteration. */
  lemma {:induction false} IterateInjective<T(!new)>(f: T -> T, back: T -> T, x: T, y: T, n: nat)
    requires forall z :: back(f(z)) == z
    requires Iterate(f, x, n) == Iterate(f, y, n)
    ensures x == y
  {
    if n != 0 {
      assert back(f(Iterate(f, x, n - 1))) == back(f(Iterate(f, y, n - 1)));
      IterateInjective(f, back, x, y, n - 1);
    }
  }

  lemma {:induction false} FoldInjective<S(!new), T(!new)>(f: (S, T) -> S, s: S, r: S, xs: seq<T>)
    requires forall y, z, t :: f(y, t) == f(z, t) ==> y == z
    requires Fold(f, s, xs) == Fold(f, r, xs)
    ensures s == r
    decreases |xs|
  {
    if xs != [] {
      FoldInjective(f, s, r, xs[..|xs| - 1]);
    }
  }

  lemma {:induction false} FoldConcat<S, T>(f: (S, T) -> S, s: S, xs: seq<T>, ys: seq<T>)
    ensures Fold(f, s, xs + ys) == Fold(f, Fold(f, s, xs), ys)
    decreases |ys|
  {
    if ys == [] {
      assert xs + ys == xs;
    } else {
      assert (xs + ys)[..|xs + ys| - 1] == xs + ys[..|ys| - 1];
      FoldConcat(f, s, xs, ys[..|ys| - 1]);
    }
  }

  lemma {:induction false} IterateShift<T>(f: T -> T, x: T, n: nat)
    ensures Iterate(f, f(x), n) == Iterate(f, x, n + 1)
  {
    if n != 0 {
      IterateShift(f, x, n - 1);
    }
  }

  /** What fits can be lowered and mixed in before a step instead of after it. */
  ghost predicate Commutes<T(!new)>(f: T -> T, mix: (T, T) -> T, lower: T -> T, fits: T -> bool) {
    forall s, y :: fits(y) ==> mix(f(s), y) == f(mix(s, lower(y)))
  }

  /**
   If what is mixed in after one step could have been lowered and mixed in before it, then what
   is mixed in after `n` steps could have been lowered `n` times and mixed in before them.
   */
  lemma {:induction false} IterateMix<T(!new)>(
      f: T -> T, mix: (T, T) -> T, lower: T -> T, fits: T -> bool, r: T, x: T, n: nat)
    requires Commutes(f, mix, lower, fits)
    requires forall i: nat | i < n :: fits(Iterate(lower, x, i))
    ensures mix(Iterate(f, r, n), x) == Iterate(f, mix(r, Iterate(lower, x, n)), n)
  {
    hide Commutes;
    if n != 0 {
      FitsShift(lower, fits, x, n);
      IterateShift(lower, x, n - 1);
      IterateMix(f, mix, lower, fits, r, lower(x), n - 1);
      MixedStep(f, mix, lower, fits, Iterate(f, r, n - 1), x);
    }
  }

  lemma MixedStep<T(!new)>(f: T -> T, mix: (T, T) -> T, lower: T -> T, fits: T -> bool, s: T, x: T)
    requires Commutes(f, mix, lower, fits) && fits(x)
    ensures mix(f(s), x) == f(mix(s, lower(x)))
  {
  }

  lemma FitsShift<T>(lower: T -> T, fits: T -> bool, x: T, n: nat)
    requires n > 0 && forall i: nat | i < n :: fits(Iterate(lower, x, i))
    ensures fits(x) && forall i: nat | i < n - 1 :: fits(Iterate(lower, lower(x), i))
  {
    assert fits(Iterate(lower, x, 0));
    forall i: nat | i < n - 1 ensures fits(Iterate(lower, lower(x), i)) {
      IterateShift(lower, x, i);
      assert fits(Iterate(lower, x, i + 1));
    }
  }

  /** The same for a fold over four elements: they can all be mixed in first. */
  lemma FoldFourMix<S(!new), T(!new)>(
      f: (S, T) -> S, step: S -> S, mix: (S, S) -> S, lower: S -> S, fits: S -> bool, top: T -> S,
      r: S, w: seq<T>)
    requires |w| == 4
    requires forall s, t :: f(s, t) == step(mix(s, top(t)))
    requires forall s, y :: fits(y) ==> mix(step(s), y) == step(mix(s, lower(y)))
    requires forall t :: fits(top(t)) && fits(lower(top(t))) && fits(lower(lower(top(t))))
    ensures Fold(f, r, w) == step(step(step(step(
              mix(mix(mix(mix(r, top(w[0])), lower(top(w[1]))), lower(lower(top(w[2])))),
                  lower(lower(lower(top(w[3])))))))))
  {
    assert w[..3][..2] == w[..2] && w[..2][..1] == w[..1] && w[..1][..0] == [];
    assert Fold(f, r, w[..1]) == step(mix(r, top(w[0])));
    assert Fold(f, r, w[..2]) == step(mix(Fold(f, r, w[..1]), top(w[1])));
    assert Fold(f, r, w[..3]) == step(mix(Fold(f, r, w[..2]), top(w[2])));
  }

  /** Folds that agree after a common tail, from a common start, agree on what lies between. */
  lemma FoldWindow<S(!new), T(!new)>(f: (S, T) -> S, s: S, pre: seq<T>, w: seq<T>, v: seq<T>, post: seq<T>)
    requires forall y, z, t :: f(y, t) == f(z, t) ==> y == z
    requires Fold(f, s, pre + w + post) == Fold(f, s, pre + v + post)
    ensures Fold(f, Fold(f, s, pre), w) == Fold(f, Fold(f, s, pre), v)
  {
    FoldConcat(f, s, pre + w, post);
    FoldConcat(f, s, pre + v, post);
    FoldInjective(f, Fold(f, s, pre + w), Fold(f, s, pre + v), post);
    FoldConcat(f, s, pre, w);
    FoldConcat(f, s, pre, v);
  }
}
