/** Runs of a loop: sequences in which every element follows from those before it. */
module Runs {

  /** Which element may come next, given those so far. */
  type Follow<!A> = (seq<A>, A) -> bool

  ghost predicate IsRunOf<A>(follows: Follow<A>, xs: seq<A>) {
    xs != [] ==>
      var n := |xs| - 1;
      IsRunOf(follows, xs[..n]) && follows(xs[..n], xs[n])
  }

  lemma {:induction false} RunSnoc<A>(follows: Follow<A>, xs: seq<A>, x: A)
    ensures IsRunOf(follows, xs + [x]) <==> IsRunOf(follows, xs) && follows(xs, x)
  {
    assert (xs + [x])[..|xs|] == xs;
  }

  /** The elements up to any point are themselves a run, and the next one follows from them. */
  lemma {:induction false} PrefixIsRun<A>(follows: Follow<A>, xs: seq<A>, i: nat)
    requires IsRunOf(follows, xs) && i < |xs|
    ensures IsRunOf(follows, xs[..i]) && follows(xs[..i], xs[i])
  {
    var n := |xs| - 1;
    if i < n {
      PrefixIsRun(follows, xs[..n], i);
      assert xs[..n][..i] == xs[..i];
    }
  }

  ghost predicate Deterministic<A(!new)>(follows: Follow<A>) {
    forall xs: seq<A>, a, b :: follows(xs, a) && follows(xs, b) ==> a == b
  }

  /** Two runs of a deterministic loop agree as far as both go. */
  lemma {:induction false} PrefixesAgree<A(!new)>(follows: Follow<A>, a: seq<A>, b: seq<A>, n: nat)
    requires Deterministic(follows) && IsRunOf(follows, a) && IsRunOf(follows, b) && n <= |a| && n <= |b|
    ensures a[..n] == b[..n]
  {
    if n > 0 {
      PrefixesAgree(follows, a, b, n - 1);
      PrefixIsRun(follows, a, n - 1);
      PrefixIsRun(follows, b, n - 1);
      assert a[..n] == a[..n-1] + [a[n-1]] && b[..n] == b[..n-1] + [b[n-1]];
    }
  }

  /** A state taken through a sequence of actions. */
  function Fold<S, A>(step: (S, A) -> S, s: S, actions: seq<A>): S
    decreases actions
  {
    if actions == [] then s else Fold(step, step(s, actions[0]), actions[1..])
  }

  lemma {:induction false} FoldConcat<S, A>(step: (S, A) -> S, s: S, first: seq<A>, rest: seq<A>)
    ensures Fold(step, s, first + rest) == Fold(step, Fold(step, s, first), rest)
    decreases first
  {
    if first == [] {
      assert first + rest == rest;
    } else {
      FoldConcat(step, step(s, first[0]), first[1..], rest);
      assert (first + rest)[1..] == first[1..] + rest;
    }
  }

  /** One action of a sequence: what comes before it, and what it leaves to those behind it. */
  lemma {:induction false} FoldThrough<S, A>(step: (S, A) -> S, s: S, actions: seq<A>, k: nat)
    requires k < |actions|
    ensures Fold(step, s, actions[..k+1]) == step(Fold(step, s, actions[..k]), actions[k])
    ensures Fold(step, s, actions) == Fold(step, Fold(step, s, actions[..k+1]), actions[k+1..])
  {
    FoldConcat(step, s, actions[..k], [actions[k]]);
    assert actions[..k] + [actions[k]] == actions[..k+1];
    FoldConcat(step, s, actions[..k+1], actions[k+1..]);
    assert actions[..k+1] + actions[k+1..] == actions;
  }

  /** The indices of the marked elements, in order. */
  function Marked<A>(mark: (nat, A) -> bool, xs: seq<A>): seq<nat> {
    if xs == [] then []
    else
      var n := |xs| - 1;
      Marked(mark, xs[..n]) + if mark(n, xs[n]) then [n] else []
  }

  /** The given indices ascend and are exactly those of the marked elements. */
  ghost predicate AscendingMarks<A>(mark: (nat, A) -> bool, xs: seq<A>, ms: seq<nat>) {
    && (forall k: nat :: k in ms <==> k < |xs| && mark(k, xs[k]))
    && (forall i, j :: 0 <= i < j < |ms| ==> ms[i] < ms[j])
  }

  lemma {:induction false} MarksAscend<A>(mark: (nat, A) -> bool, xs: seq<A>)
    ensures AscendingMarks(mark, xs, Marked(mark, xs))
  {
    if xs != [] {
      var n := |xs| - 1;
      var before := Marked(mark, xs[..n]);
      MarksAscend(mark, xs[..n]);
      forall k: nat ensures k in before <==> k < n && mark(k, xs[k]) {
        assert k < n ==> xs[..n][k] == xs[k];
      }
      forall i | 0 <= i < |before| ensures before[i] < n { assert before[i] in before; }
    }
  }
}
