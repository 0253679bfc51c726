/** What the failover loops ask of the channel selector, and what a list of selected channels then is. */
module Selection {
  import opened Options

  type ChannelId = int

  /** What `getChannel` hands back: a channel, perhaps with a setup error, or no channel at all. */
  datatype Pick<+E> =
    | Found(channel: ChannelId, setup: Option<E>)
    | Missing(failure: Option<E>)

  /** The selector at the n-th attempt, given the channels used so far. */
  type Select<!E> = (nat, seq<ChannelId>) -> Pick<E>

  /** It never leaves the group and never repeats a channel it is told was used. */
  ghost predicate Safe<E>(select: Select<E>, eligible: set<ChannelId>) {
    forall k: nat, used: seq<ChannelId> ::
      var p := select(k, used);
      p.Found? ==> p.channel in eligible && p.channel !in used
  }

  /** It gives up without an error only when every channel of the group has been used. */
  ghost predicate Exhausts<E>(select: Select<E>, eligible: set<ChannelId>) {
    forall k: nat, used: seq<ChannelId>, d: ChannelId ::
      d in eligible && d !in used ==> select(k, used) != Missing(None)
  }

  type Ranking = (ChannelId, ChannelId) -> bool

  /** Whatever it takes ranks at least as high as everything it leaves. */
  ghost predicate Prefers<E>(select: Select<E>, eligible: set<ChannelId>, atLeast: Ranking) {
    forall k: nat, used: seq<ChannelId>, d: ChannelId ::
      d in eligible && d !in used ==>
        var p := select(k, used);
        p.Found? ==> atLeast(p.channel, d)
  }

  ghost predicate PickedAt<E>(select: Select<E>, used: seq<ChannelId>, i: nat)
    requires i < |used|
  {
    var p := select(i, used[..i]);
    p.Found? && p.channel == used[i]
  }

  /** Every channel but the first is the selector's answer to those before it. */
  ghost predicate Picked<E>(select: Select<E>, used: seq<ChannelId>) {
    forall i :: 0 < i < |used| ==> PickedAt(select, used, i)
  }

  lemma {:induction false} NeverRepeats<E>(select: Select<E>, eligible: set<ChannelId>, used: seq<ChannelId>, j: nat, i: nat)
    requires Safe(select, eligible) && Picked(select, used) && j < i < |used|
    ensures used[i] in eligible && used[j] != used[i]
  {
    assert PickedAt(select, used, i);
    assert used[..i][j] == used[j];
  }

  lemma {:induction false} InOrder<E>(
      select: Select<E>, eligible: set<ChannelId>, atLeast: Ranking, used: seq<ChannelId>, i: nat, j: nat)
    requires Safe(select, eligible) && Prefers(select, eligible, atLeast) && Picked(select, used)
    requires 0 < i < j < |used|
    ensures atLeast(used[i], used[j])
  {
    NeverRepeats(select, eligible, used, i, j);
    forall k | 0 <= k < i ensures used[..i][k] != used[j] { NeverRepeats(select, eligible, used, k, j); }
    assert used[j] !in used[..i];
    assert PickedAt(select, used, i);
  }

  /** No more channels are used than the first one and the group's together. */
  lemma {:induction false} UseIsBounded<E>(select: Select<E>, eligible: set<ChannelId>, used: seq<ChannelId>)
    requires Safe(select, eligible) && Picked(select, used)
    ensures |used| <= |eligible| + 1
  {
    forall j, i | 0 <= j < i < |used| ensures used[i] in eligible && used[j] != used[i] {
      NeverRepeats(select, eligible, used, j, i);
    }
    if used != [] {
      var later := used[1..];
      forall i | 0 <= i < |later| ensures later[i] in eligible { NeverRepeats(select, eligible, used, 0, i + 1); }
      DistinctFit(later, eligible);
    }
  }

  lemma {:induction false} DistinctFit(xs: seq<ChannelId>, s: set<ChannelId>)
    requires forall i :: 0 <= i < |xs| ==> xs[i] in s
    requires forall j, i :: 0 <= j < i < |xs| ==> xs[j] != xs[i]
    ensures |xs| <= |s|
  {
    if xs != [] {
      var n := |xs| - 1;
      DistinctFit(xs[..n], s - {xs[n]});
    }
  }

  /** The channels of the group not used yet. */
  ghost function Untried(eligible: set<ChannelId>, used: seq<ChannelId>): set<ChannelId> {
    eligible - (set c | c in used)
  }

  lemma {:induction false} UntriedShrinks<E>(select: Select<E>, eligible: set<ChannelId>, k: nat, used: seq<ChannelId>, c: ChannelId)
    requires Safe(select, eligible)
    ensures Untried(eligible, used + [c]) <= Untried(eligible, used)
    ensures select(k, used).Found? && select(k, used).channel == c ==> Untried(eligible, used + [c]) < Untried(eligible, used)
  {
    assert Untried(eligible, used + [c]) == Untried(eligible, used) - {c};
  }
}
