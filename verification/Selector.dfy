/**
 The strict-priority weighted selector behind `getChannel` (model/channel_cache.go,
 service/channel_select.go), and the proof that it keeps the promises the failover loop relies on.
 */
module Selector {
  import opened Options
  import Runs
  import Sampling
  import opened Selection
  import opened Failover
  import opened TaskFailover

  datatype Channel = Channel(id: ChannelId, priority: int, weight: nat)

  /** A draw below the given limit, or None when the entropy source fails. */
  type Random = nat -> Option<nat>

  ghost predicate InRange(random: Random) {
    forall limit: nat :: limit > 0 && random(limit).Some? ==> random(limit).value < limit
  }

  /** The draws that sampling an entropy source gives. */
  function Sampled(source: Sampling.Source, most: nat): Random {
    limit =>
      match Sampling.Below(Some(source), limit, most)
      case Drawn(v) => Some(v)
      case Failed(_, _) => None
  }

  /** The value drawn from the source, and no draw exactly when sampling fails. */
  lemma {:induction false} SampledMeans(source: Sampling.Source, most: nat, limit: nat)
    ensures limit > 0 ==> (Sampled(source, most)(limit).None? <==> Sampling.Below(Some(source), limit, most).Failed?)
    ensures forall v: nat :: Sampled(source, most)(limit) == Some(v) <==> Sampling.Below(Some(source), limit, most) == Sampling.Drawn(v)
  {
  }

  /** Exchanging two values in the blocks of the source exchanges them in the draw: the draws are exactly uniform. */
  lemma {:induction false} SampledIsUniform(source: Sampling.Source, most: nat, limit: nat, v: nat, w: nat)
    requires v < limit && w < limit
    ensures match Sampled(source, most)(limit)
            case None => Sampled(Sampling.ExchangedSource(source, limit, v, w), most)(limit) == None
            case Some(x) =>
              Sampled(Sampling.ExchangedSource(source, limit, v, w), most)(limit) == Some(if x == v then w else if x == w then v else x)
  {
    Sampling.DrawsAreUniform(source, limit, most, v, w);
  }

  lemma {:induction false} SampledIsInRange(source: Sampling.Source, most: nat)
    ensures InRange(Sampled(source, most))
  {
    forall limit: nat | limit > 0 && Sampled(source, most)(limit).Some? ensures Sampled(source, most)(limit).value < limit {
      Sampling.DrawIsBelow(Some(source), limit, most);
    }
  }

  function Tier(cs: seq<Channel>, p: int): seq<Channel> {
    if cs == [] then []
    else (if cs[0].priority == p then [cs[0]] else []) + Tier(cs[1..], p)
  }

  function Weights(cs: seq<Channel>): nat {
    if cs == [] then 0 else cs[0].weight + Weights(cs[1..])
  }

  /** A tier holds exactly the channels of its priority, each as often as the list does. */
  lemma {:induction false} TierExactly(cs: seq<Channel>, p: int, c: Channel)
    ensures c in Tier(cs, p) <==> c in cs && c.priority == p
    ensures multiset(Tier(cs, p))[c] == if c.priority == p then multiset(cs)[c] else 0
  {
    if cs != [] {
      TierExactly(cs[1..], p, c);
      assert cs == [cs[0]] + cs[1..];
    }
  }

  /** The channel on which a draw below the total weight lands. */
  function LandsOn(tier: seq<Channel>, draw: nat): (i: nat)
    requires draw < Weights(tier)
    ensures i < |tier|
  {
    if draw < tier[0].weight then 0 else 1 + LandsOn(tier[1..], draw - tier[0].weight)
  }

  /** Channel i owns exactly `weight` consecutive draws: selection is proportional, zero weight never wins. */
  lemma {:induction false} DrawsAreProportional(tier: seq<Channel>, draw: nat, i: nat)
    requires draw < Weights(tier) && i < |tier|
    ensures LandsOn(tier, draw) == i <==> Weights(tier[..i]) <= draw < Weights(tier[..i]) + tier[i].weight
  {
    if i > 0 {
      assert tier[..i][1..] == tier[1..][..i-1];
      if draw >= tier[0].weight { DrawsAreProportional(tier[1..], draw - tier[0].weight, i - 1); }
    }
  }

  // ----- how many draws a channel owns -----

  ghost predicate Wins(tier: seq<Channel>, draw: int, c: Channel) {
    0 <= draw < Weights(tier) && tier[LandsOn(tier, draw)] == c
  }

  /** The draws below n that land on a channel. */
  ghost function WonBelow(tier: seq<Channel>, n: nat, c: Channel): set<int> {
    set draw | 0 <= draw < n && Wins(tier, draw, c)
  }

  lemma {:induction false} WonBelowSnoc(tier: seq<Channel>, n: nat, c: Channel)
    ensures |WonBelow(tier, n + 1, c)| == |WonBelow(tier, n, c)| + if Wins(tier, n, c) then 1 else 0
  {
    if Wins(tier, n, c) {
      assert WonBelow(tier, n + 1, c) == WonBelow(tier, n, c) + {n};
    } else {
      assert WonBelow(tier, n + 1, c) == WonBelow(tier, n, c);
    }
  }

  lemma {:induction false} WeightsOfPrefix(tier: seq<Channel>, i: nat)
    requires i < |tier|
    ensures Weights(tier[..i+1]) == Weights(tier[..i]) + tier[i].weight && Weights(tier[..i+1]) <= Weights(tier)
  {
    WeightsSnoc(tier[..i], tier[i]);
    assert tier[..i+1] == tier[..i] + [tier[i]];
    WeightsConcat(tier[..i+1], tier[i+1..]);
    assert tier[..i+1] + tier[i+1..] == tier;
  }

  lemma {:induction false} WeightsConcat(a: seq<Channel>, b: seq<Channel>)
    ensures Weights(a + b) == Weights(a) + Weights(b)
  {
    if a == [] {
      assert a + b == b;
    } else {
      assert (a + b)[1..] == a[1..] + b;
      WeightsConcat(a[1..], b);
    }
  }

  /** The first k draws of the stretch that channel i owns all land on it. */
  lemma {:induction false} StretchIsWon(tier: seq<Channel>, i: nat, k: nat, c: Channel)
    requires i < |tier| && k <= tier[i].weight
    ensures var lo := Weights(tier[..i]);
            |WonBelow(tier, lo + k, c)| == |WonBelow(tier, lo, c)| + if tier[i] == c then k else 0
    decreases k
  {
    if k > 0 {
      var draw := Weights(tier[..i]) + k - 1;
      StretchIsWon(tier, i, k - 1, c);
      WonBelowSnoc(tier, draw, c);
      WeightsOfPrefix(tier, i);
      DrawsAreProportional(tier, draw, i);
    }
  }

  lemma {:induction false} StretchIsWeight(tier: seq<Channel>, i: nat, c: Channel)
    requires i < |tier|
    ensures |WonBelow(tier, Weights(tier[..i+1]), c)| ==
              |WonBelow(tier, Weights(tier[..i]), c)| + if tier[i] == c then c.weight else 0
  {
    WeightsOfPrefix(tier, i);
    StretchIsWon(tier, i, tier[i].weight, c);
  }

  lemma {:induction false} WonByPrefix(tier: seq<Channel>, i: nat, c: Channel)
    requires i <= |tier|
    ensures |WonBelow(tier, Weights(tier[..i]), c)| == multiset(tier[..i])[c] * c.weight
  {
    if i == 0 {
      assert WonBelow(tier, 0, c) == {};
    } else {
      WonByPrefix(tier, i - 1, c);
      StretchIsWeight(tier, i - 1, c);
      assert tier[..i] == tier[..i-1] + [tier[i-1]];
      Distribute(multiset(tier[..i-1])[c], c.weight);
    }
  }

  lemma {:induction false} Distribute(times: nat, weight: nat)
    ensures (times + 1) * weight == times * weight + weight
  {
  }

  /** Of all draws below the total weight, a channel wins its weight for every time it stands in the tier. */
  lemma {:induction false} ShareIsWeight(tier: seq<Channel>, c: Channel)
    ensures |WonBelow(tier, Weights(tier), c)| == multiset(tier)[c] * c.weight
  {
    WonByPrefix(tier, |tier|, c);
    assert tier[..|tier|] == tier;
  }

  ghost function PlacesBelow(tier: seq<Channel>, n: nat, c: Channel): set<int>
    requires n <= |tier|
  {
    set i | 0 <= i < n && tier[i] == c
  }

  /** The number of places at which a channel stands. */
  lemma {:induction false} PlacesAreCounted(tier: seq<Channel>, n: nat, c: Channel)
    requires n <= |tier|
    ensures |PlacesBelow(tier, n, c)| == multiset(tier[..n])[c]
  {
    if n > 0 {
      PlacesAreCounted(tier, n - 1, c);
      assert tier[..n] == tier[..n-1] + [tier[n-1]];
      if tier[n-1] == c {
        assert PlacesBelow(tier, n, c) == PlacesBelow(tier, n - 1, c) + {n - 1};
      } else {
        assert PlacesBelow(tier, n, c) == PlacesBelow(tier, n - 1, c);
      }
    }
  }

  predicate HighestIn(cs: seq<Channel>, p: int) {
    && (exists i :: 0 <= i < |cs| && cs[i].priority == p)
    && (forall i :: 0 <= i < |cs| ==> cs[i].priority <= p)
  }

  /** What a selection from non-empty candidates may return. */
  ghost predicate Selects(cs: seq<Channel>, random: Random, c: Channel) {
    && c in cs
    && HighestIn(cs, c.priority)
    && var tier := Tier(cs, c.priority);
       var total := Weights(tier);
       && (total == 0 && random(|tier|).Some? ==> random(|tier|).value < |tier| && c == tier[random(|tier|).value])
       && (total > 0 && random(total).Some? ==>
             random(total).value < total && c == tier[LandsOn(tier, random(total).value)])
       && (total == 0 && random(|tier|).None? ==> tier != [] && c == tier[0])
       && (total > 0 && random(total).None? ==> IsFirstWeighted(tier, c))
  }

  /** The first channel that has weight. */
  ghost predicate IsFirstWeighted(tier: seq<Channel>, c: Channel) {
    exists i :: 0 <= i < |tier| && tier[i] == c && c.weight > 0 && forall j :: 0 <= j < i ==> tier[j].weight == 0
  }

  method HighestPriority(cs: seq<Channel>) returns (p: int)
    requires cs != []
    ensures HighestIn(cs, p)
  {
    p := cs[0].priority;
    var best := 0;
    for i := 1 to |cs|
      invariant 0 <= best < i && cs[best].priority == p
      invariant forall j :: 0 <= j < i ==> cs[j].priority <= p
    {
      if cs[i].priority > p { p, best := cs[i].priority, i; }
    }
  }

  method GatherTier(cs: seq<Channel>, p: int) returns (tier: seq<Channel>, total: nat)
    ensures tier == Tier(cs, p) && total == Weights(tier)
  {
    tier, total := [], 0;
    for i := 0 to |cs|
      invariant tier == Tier(cs[..i], p) && total == Weights(tier)
    {
      TierSnoc(cs[..i], p, cs[i]);
      assert cs[..i+1] == cs[..i] + [cs[i]];
      if cs[i].priority == p {
        WeightsSnoc(tier, cs[i]);
        total := total + cs[i].weight;
        tier := tier + [cs[i]];
      }
    }
    assert cs[..|cs|] == cs;
  }

  /** Walk the tier, spending the draw on each channel's weight in turn. */
  method PickByWeight(tier: seq<Channel>, draw: nat) returns (c: Channel)
    requires draw < Weights(tier)
    ensures c == tier[LandsOn(tier, draw)]
  {
    var left: nat := draw;
    var i := 0;
    while tier[i].weight <= left
      invariant 0 <= i < |tier| && left < Weights(tier[i..])
      invariant LandsOn(tier, draw) == i + LandsOn(tier[i..], left)
      decreases |tier| - i
    {
      assert tier[i..][1..] == tier[i+1..];
      left := left - tier[i].weight;
      i := i + 1;
    }
    c := tier[i];
  }

  /** `selectHighestPriorityWeightedChannel`. */
  method SelectHighestPriority(cs: seq<Channel>, random: Random) returns (r: Option<Channel>)
    requires InRange(random)
    ensures cs == [] <==> r.None?
    ensures r.Some? ==> Selects(cs, random, r.value)
    ensures r.Some? ==> r.value in cs && forall d :: d in cs ==> d.priority <= r.value.priority
    // A channel without weight never wins beside one that has some.
    ensures r.Some? && (exists d :: d in cs && d.priority == r.value.priority && d.weight > 0) ==> r.value.weight > 0
  {
    if cs == [] { return None; }
    var p := HighestPriority(cs);
    var tier, total := GatherTier(cs, p);
    forall c ensures c in tier <==> c in cs && c.priority == p { TierExactly(cs, p, c); }
    ghost var w :| 0 <= w < |cs| && cs[w].priority == p;
    assert cs[w] in tier;
    var c: Channel;
    if total == 0 {
      var draw := random(|tier|);
      c := if draw.Some? then tier[draw.value] else tier[0];
    } else {
      c := FirstWeighted(tier);
      var draw := random(total);
      if draw.Some? {
        c := PickByWeight(tier, draw.value);
        DrawsAreProportional(tier, draw.value, LandsOn(tier, draw.value));
      }
    }
    if d :| d in tier && d.weight > 0 { SomeWeight(tier, d); }
    return Some(c);
  }

  lemma {:induction false} SomeWeight(cs: seq<Channel>, c: Channel)
    requires c in cs
    ensures Weights(cs) >= c.weight
  {
    if c != cs[0] { SomeWeight(cs[1..], c); }
  }

  lemma {:induction false} TierSnoc(cs: seq<Channel>, p: int, c: Channel)
    ensures Tier(cs + [c], p) == Tier(cs, p) + if c.priority == p then [c] else []
  {
    if cs == [] {
      assert cs + [c] == [c] && [c][1..] == [];
    } else {
      TierSnoc(cs[1..], p, c);
      assert (cs + [c])[1..] == cs[1..] + [c];
    }
  }

  lemma {:induction false} WeightsSnoc(cs: seq<Channel>, c: Channel)
    ensures Weights(cs + [c]) == Weights(cs) + c.weight
  {
    if cs == [] {
      assert cs + [c] == [c] && [c][1..] == [];
    } else {
      WeightsSnoc(cs[1..], c);
      assert (cs + [c])[1..] == cs[1..] + [c];
    }
  }

  /** The fallback used when no randomness is available: the first channel with weight. */
  function FirstWeighted(tier: seq<Channel>): (c: Channel)
    requires Weights(tier) > 0
    ensures IsFirstWeighted(tier, c)
  {
    if tier[0].weight > 0 then tier[0]
    else
      var rest := FirstWeighted(tier[1..]);
      assert IsFirstWeighted(tier, rest) by {
        var i :| 0 <= i < |tier| - 1 && tier[1..][i] == rest && forall j :: 0 <= j < i ==> tier[1..][j].weight == 0;
        assert tier[i+1] == rest && forall j :: 0 < j < i + 1 ==> tier[j] == tier[1..][j-1];
      }
      rest
  }

  // ----- the candidates of a call -----

  /** What the cache holds about a channel. */
  datatype Cached = Cached(priority: int, weight: nat)

  /**
   The cached lists of a group for one model and request path: the channels under the model's own name and
   under its normalised name, the channel table, and which channels can serve the path.
   */
  datatype Group = Group(
    own: seq<ChannelId>, normalized: seq<ChannelId>, cache: map<ChannelId, Cached>, serves: ChannelId -> bool)

  /** A channel missing from the table is kept, so that the inconsistency shows. */
  predicate Servable(g: Group, id: ChannelId) {
    id !in g.cache || g.serves(id)
  }

  predicate Candidate(g: Group, used: seq<ChannelId>, id: ChannelId) {
    Servable(g, id) && id !in used
  }

  function Candidates(g: Group, ids: seq<ChannelId>, used: seq<ChannelId>): seq<ChannelId> {
    if ids == [] then []
    else
      var n := |ids| - 1;
      Candidates(g, ids[..n], used) + if Candidate(g, used, ids[n]) then [ids[n]] else []
  }

  /** Exactly the listed channels that can serve the request and were not used, each as often as the list has it. */
  lemma {:induction false} CandidatesExactly(g: Group, ids: seq<ChannelId>, used: seq<ChannelId>, id: ChannelId)
    ensures id in Candidates(g, ids, used) <==> id in ids && (id !in g.cache || g.serves(id)) && id !in used
    ensures id in Candidates(g, ids, used) ==> multiset(Candidates(g, ids, used))[id] == multiset(ids)[id]
  {
    if ids != [] {
      var n := |ids| - 1;
      CandidatesExactly(g, ids[..n], used, id);
      assert ids == ids[..n] + [ids[n]];
    }
  }

  /** They are the entries at ascending places of the list, at every place that holds one. */
  lemma {:induction false} CandidatesInOrder(g: Group, ids: seq<ChannelId>, used: seq<ChannelId>) returns (at: seq<nat>)
    ensures |at| == |Candidates(g, ids, used)|
    ensures forall i :: 0 <= i < |at| ==> at[i] < |ids| && ids[at[i]] == Candidates(g, ids, used)[i]
    ensures forall i, j :: 0 <= i < j < |at| ==> at[i] < at[j]
    ensures forall k: nat :: k in at <==> k < |ids| && (ids[k] !in g.cache || g.serves(ids[k])) && ids[k] !in used
  {
    at := Runs.Marked(MarksCandidate(g, used), ids);
    Runs.MarksAscend(MarksCandidate(g, used), ids);
    CandidatesAreMarked(g, ids, used);
  }

  function MarksCandidate(g: Group, used: seq<ChannelId>): (nat, ChannelId) -> bool {
    (_, id) => Candidate(g, used, id)
  }

  lemma {:induction false} CandidatesAreMarked(g: Group, ids: seq<ChannelId>, used: seq<ChannelId>)
    ensures var at := Runs.Marked(MarksCandidate(g, used), ids);
            && |at| == |Candidates(g, ids, used)|
            && forall i :: 0 <= i < |at| ==> at[i] < |ids| && ids[at[i]] == Candidates(g, ids, used)[i]
  {
    if ids != [] {
      var n := |ids| - 1;
      var before := Runs.Marked(MarksCandidate(g, used), ids[..n]);
      CandidatesAreMarked(g, ids[..n], used);
      assert forall i :: 0 <= i < |before| ==> ids[..n][before[i]] == ids[before[i]];
    }
  }

  /** The unused channels under the model's own name, or when there are none those under its normalised name. */
  function Remaining(g: Group, used: seq<ChannelId>): seq<ChannelId> {
    if Candidates(g, g.own, used) != [] then Candidates(g, g.own, used) else Candidates(g, g.normalized, used)
  }

  ghost function Own(g: Group): set<ChannelId> {
    set id | id in g.own && Servable(g, id)
  }

  /** The channels that may serve the request. */
  ghost function Eligible(g: Group): set<ChannelId> {
    Own(g) + set id | id in g.normalized && Servable(g, id)
  }

  lemma {:induction false} RemainingExactly(g: Group, used: seq<ChannelId>, id: ChannelId)
    ensures id in Remaining(g, used) ==> id in Eligible(g) && id !in used
    ensures id in Eligible(g) && id !in used ==>
              Remaining(g, used) != [] && (id in Remaining(g, used) || (id !in Own(g) && exists o :: o in Remaining(g, used) && o in Own(g)))
    ensures id in Remaining(g, used) ==> (id in Own(g) <==> Candidates(g, g.own, used) != [])
  {
    var own, normalized := Candidates(g, g.own, used), Candidates(g, g.normalized, used);
    CandidatesExactly(g, g.own, used, id);
    CandidatesExactly(g, g.normalized, used, id);
    if own != [] {
      CandidatesExactly(g, g.own, used, own[0]);
      assert own[0] in own;
    }
  }

  /** `filterChannelsByRequestPathAndModel`, then `filterAttemptedChannels`. */
  method FilterCandidates(g: Group, ids: seq<ChannelId>, used: seq<ChannelId>) returns (rest: seq<ChannelId>)
    ensures rest == Candidates(g, ids, used)
  {
    rest := [];
    for i := 0 to |ids|
      invariant rest == Candidates(g, ids[..i], used)
    {
      assert ids[..i+1][..i] == ids[..i];
      if (ids[i] !in g.cache || g.serves(ids[i])) && ids[i] !in used { rest := rest + [ids[i]]; }
    }
    assert ids[..|ids|] == ids;
  }

  predicate AllCached(g: Group, ids: seq<ChannelId>) {
    forall i :: 0 <= i < |ids| ==> ids[i] in g.cache
  }

  function ChannelIn(g: Group, id: ChannelId): Channel
    requires id in g.cache
  {
    Channel(id, g.cache[id].priority, g.cache[id].weight)
  }

  function Lookup(g: Group, ids: seq<ChannelId>): (cs: seq<Channel>)
    requires AllCached(g, ids)
    ensures |cs| == |ids| && forall i :: 0 <= i < |ids| ==> cs[i] == ChannelIn(g, ids[i])
  {
    seq(|ids|, i requires 0 <= i < |ids| => ChannelIn(g, ids[i]))
  }

  // ----- the selector -----

  /** The first of the ids that the table does not have. */
  ghost predicate IsFirstMissing(g: Group, ids: seq<ChannelId>, id: ChannelId) {
    exists i :: 0 <= i < |ids| && ids[i] == id && id !in g.cache && forall j :: 0 <= j < i ==> ids[j] in g.cache
  }

  datatype Answer = Selected(channel: Channel) | Nothing | Inconsistent(id: ChannelId)

  /** What the selector may answer to a list of used channels. */
  ghost predicate IsAnswer(g: Group, used: seq<ChannelId>, random: Random, a: Answer) {
    var rest := Remaining(g, used);
    match a
    case Nothing => rest == []
    case Inconsistent(id) => IsFirstMissing(g, rest, id)
    case Selected(c) => AllCached(g, rest) && Selects(Lookup(g, rest), random, c)
  }

  lemma {:induction false} NothingRemainsIff(g: Group, used: seq<ChannelId>)
    ensures Remaining(g, used) == [] <==> forall id :: id in Eligible(g) ==> id in used
  {
    var rest := Remaining(g, used);
    if rest != [] {
      RemainingExactly(g, used, rest[0]);
    } else {
      forall id | id in Eligible(g) ensures id in used { RemainingExactly(g, used, id); }
    }
  }

  /** Look the candidates up in the channel table; `missing` is the first one that is not there. */
  method LookUp(g: Group, ids: seq<ChannelId>) returns (cs: seq<Channel>, missing: Option<ChannelId>)
    ensures missing.None? ==> AllCached(g, ids) && cs == Lookup(g, ids)
    ensures missing.Some? ==> IsFirstMissing(g, ids, missing.value)
  {
    cs, missing := [], None;
    for i := 0 to |ids|
      invariant AllCached(g, ids[..i]) && cs == Lookup(g, ids[..i])
    {
      if ids[i] !in g.cache {
        assert forall j :: 0 <= j < i ==> ids[..i][j] in g.cache;
        return cs, Some(ids[i]);
      }
      cs := cs + [Channel(ids[i], g.cache[ids[i]].priority, g.cache[ids[i]].weight)];
    }
    assert ids[..|ids|] == ids;
  }

  /** `GetRandomSatisfiedChannel` on the cached lists of a group. */
  method SelectChannel(g: Group, used: seq<ChannelId>, random: Random) returns (a: Answer)
    requires InRange(random)
    ensures IsAnswer(g, used, random, a)
    // No channel exactly when every channel under either name was used or cannot serve the request.
    ensures a.Nothing? <==>
              forall id :: id in g.own || id in g.normalized ==> id in used || (id in g.cache && !g.serves(id))
    ensures a.Inconsistent? ==> a.id !in g.cache && a.id !in used && (a.id in g.own || a.id in g.normalized)
    ensures a.Selected? ==> IsBest(g, used, a.channel)
  {
    NothingRemainsIff(g, used);
    var rest := FilterCandidates(g, g.own, used);
    if rest == [] { rest := FilterCandidates(g, g.normalized, used); }
    if rest == [] { return Nothing; }
    var cs, missing := LookUp(g, rest);
    if missing.Some? {
      CandidatesExactly(g, g.own, used, missing.value);
      CandidatesExactly(g, g.normalized, used, missing.value);
      return Inconsistent(missing.value);
    }
    var r := SelectHighestPriority(cs, random);
    a := Selected(r.value);
    SelectedIsBest(g, used, random, r.value);
  }

  /**
   A cached channel that can serve the request and was not used; it comes from the list under the model's own
   name, or, when nothing of that can be taken any more, from the one under its normalised name; and nothing
   else that could be taken from that list has a higher priority.
   */
  ghost predicate IsBest(g: Group, used: seq<ChannelId>, c: Channel) {
    && c.id in g.cache && g.cache[c.id] == Cached(c.priority, c.weight) && g.serves(c.id) && c.id !in used
    && (c.id in g.own ||
          (c.id in g.normalized && forall o :: o in g.own ==> o in used || (o in g.cache && !g.serves(o))))
    && (forall d :: d in (if c.id in g.own then g.own else g.normalized) && d !in used ==>
          d in g.cache && (g.serves(d) ==> g.cache[d].priority <= c.priority))
  }

  lemma {:induction false} SelectedIsBest(g: Group, used: seq<ChannelId>, random: Random, c: Channel)
    requires IsAnswer(g, used, random, Selected(c))
    ensures IsBest(g, used, c)
  {
    var rest := Remaining(g, used);
    var own := Candidates(g, g.own, used);
    var cs := Lookup(g, rest);
    var i :| 0 <= i < |cs| && cs[i] == c;
    assert rest[i] == c.id;
    CandidatesExactly(g, g.own, used, c.id);
    CandidatesExactly(g, g.normalized, used, c.id);
    forall d | d in (if c.id in g.own then g.own else g.normalized) && d !in used
      ensures d in g.cache && (g.serves(d) ==> g.cache[d].priority <= c.priority)
    {
      CandidatesExactly(g, g.own, used, d);
      CandidatesExactly(g, g.normalized, used, d);
      if Servable(g, d) {
        var j :| 0 <= j < |rest| && rest[j] == d;
        assert cs[j] == ChannelIn(g, d);
      }
    }
    forall o | o in g.own && c.id !in g.own ensures o in used || (o in g.cache && !g.serves(o)) {
      CandidatesExactly(g, g.own, used, o);
    }
  }

  // ----- the share of each channel at a call -----

  /** An entropy source that yields the given draw wherever it fits. */
  function Drawing(draw: nat): (random: Random)
    ensures InRange(random)
  {
    limit => Some(if draw < limit then draw else 0)
  }

  /** A call has one answer for any entropy source. */
  lemma {:induction false} AnswerIsUnique(g: Group, used: seq<ChannelId>, random: Random, a: Answer, b: Answer)
    requires IsAnswer(g, used, random, a) && IsAnswer(g, used, random, b)
    ensures a == b
  {
    if a.Selected? && b.Selected? {
      SelectionIsUnique(Lookup(g, Remaining(g, used)), random, a.channel, b.channel);
    } else if a.Inconsistent? && b.Inconsistent? {
      FirstMissingIsUnique(g, Remaining(g, used), a.id, b.id);
    }
  }

  lemma {:induction false} FirstMissingIsUnique(g: Group, ids: seq<ChannelId>, a: ChannelId, b: ChannelId)
    requires IsFirstMissing(g, ids, a) && IsFirstMissing(g, ids, b)
    ensures a == b
  {
    var i :| 0 <= i < |ids| && ids[i] == a && a !in g.cache && forall j :: 0 <= j < i ==> ids[j] in g.cache;
    var k :| 0 <= k < |ids| && ids[k] == b && b !in g.cache && forall j :: 0 <= j < k ==> ids[j] in g.cache;
    assert !(i < k) && !(k < i);
  }

  lemma {:induction false} SelectionIsUnique(cs: seq<Channel>, random: Random, c: Channel, d: Channel)
    requires Selects(cs, random, c) && Selects(cs, random, d)
    ensures c == d
  {
    assert c.priority == d.priority;
    var tier := Tier(cs, c.priority);
    if Weights(tier) > 0 && random(Weights(tier)).None? {
      var i :| 0 <= i < |tier| && tier[i] == c && c.weight > 0 && forall j :: 0 <= j < i ==> tier[j].weight == 0;
      var k :| 0 <= k < |tier| && tier[k] == d && d.weight > 0 && forall j :: 0 <= j < k ==> tier[j].weight == 0;
    }
  }

  /** The channels a call chooses among: those of the highest priority left. */
  ghost function TopTier(g: Group, used: seq<ChannelId>, p: int): seq<Channel>
    requires AllCached(g, Remaining(g, used))
  {
    Tier(Lookup(g, Remaining(g, used)), p)
  }

  /** The draws below a limit to which the call answers with the given channel. */
  ghost function AnsweredBelow(g: Group, used: seq<ChannelId>, limit: nat, c: Channel): set<int> {
    set draw: int | 0 <= draw < limit && IsAnswer(g, used, Drawing(draw), Selected(c))
  }

  /** How often the list that counts holds a channel. */
  ghost function Listed(g: Group, id: ChannelId): nat {
    multiset(if id in g.own then g.own else g.normalized)[id]
  }

  lemma {:induction false} LookupCounts(g: Group, ids: seq<ChannelId>, id: ChannelId)
    requires AllCached(g, ids) && id in g.cache
    ensures multiset(Lookup(g, ids))[ChannelIn(g, id)] == multiset(ids)[id]
  {
    if ids != [] {
      var n := |ids| - 1;
      LookupCounts(g, ids[..n], id);
      assert ids == ids[..n] + [ids[n]];
      assert Lookup(g, ids) == Lookup(g, ids[..n]) + [ChannelIn(g, ids[n])];
    }
  }

  /** A channel left to choose stands in the tier of its priority as often as the list holds it. */
  lemma {:induction false} TierHolds(g: Group, used: seq<ChannelId>, id: ChannelId, p: int)
    requires AllCached(g, Remaining(g, used)) && id in g.cache
    ensures multiset(TopTier(g, used, p))[ChannelIn(g, id)] ==
              if id in Remaining(g, used) && g.cache[id].priority == p then Listed(g, id) else 0
  {
    var rest := Remaining(g, used);
    TierExactly(Lookup(g, rest), p, ChannelIn(g, id));
    LookupCounts(g, rest, id);
    CandidatesExactly(g, g.own, used, id);
    CandidatesExactly(g, g.normalized, used, id);
  }

  /**
   The share of a channel at a call.  Of the draws below the total weight of the highest priority left, exactly as
   many answer with a channel of that priority as its cached weight says, for every time it is listed, and none
   with any other.  When that total is zero, every place of the tier has one draw.
   */
  lemma {:induction false} CallShareIsWeight(g: Group, used: seq<ChannelId>, id: ChannelId, p: int)
    requires AllCached(g, Remaining(g, used)) && id in g.cache
    requires HighestIn(Lookup(g, Remaining(g, used)), p)
    ensures var total, c := Weights(TopTier(g, used, p)), ChannelIn(g, id);
            var chosen := id in Remaining(g, used) && g.cache[id].priority == p;
            && (total > 0 ==>
                  |AnsweredBelow(g, used, total, c)| == if chosen then Listed(g, id) * g.cache[id].weight else 0)
            && (total == 0 ==>
                  |AnsweredBelow(g, used, |TopTier(g, used, p)|, c)| == if chosen then Listed(g, id) else 0)
  {
    var tier, c := TopTier(g, used, p), ChannelIn(g, id);
    var total := Weights(tier);
    TierHolds(g, used, id, p);
    if total > 0 {
      ShareIsWeight(tier, c);
      AnsweredIsWon(g, used, c, p);
    } else {
      PlacesAreCounted(tier, |tier|, c);
      assert tier[..|tier|] == tier;
      AnsweredIsPlace(g, used, c, p);
    }
  }

  /** With any weight at all, the draws answered with a channel are those that land on it. */
  lemma {:induction false} AnsweredIsWon(g: Group, used: seq<ChannelId>, c: Channel, p: int)
    requires AllCached(g, Remaining(g, used)) && HighestIn(Lookup(g, Remaining(g, used)), p)
    requires Weights(TopTier(g, used, p)) > 0
    ensures var total := Weights(TopTier(g, used, p));
            AnsweredBelow(g, used, total, c) == WonBelow(TopTier(g, used, p), total, c)
  {
    var cs, tier := Lookup(g, Remaining(g, used)), TopTier(g, used, p);
    forall draw: int | 0 <= draw < Weights(tier)
      ensures IsAnswer(g, used, Drawing(draw), Selected(c)) <==> Wins(tier, draw, c)
    {
      DrawSelects(cs, draw, c, p);
    }
  }

  lemma {:induction false} DrawSelects(cs: seq<Channel>, draw: nat, c: Channel, p: int)
    requires HighestIn(cs, p) && draw < Weights(Tier(cs, p))
    ensures Selects(cs, Drawing(draw), c) <==> Wins(Tier(cs, p), draw, c)
  {
    var tier := Tier(cs, p);
    TierExactly(cs, p, c);
    if Selects(cs, Drawing(draw), c) { assert c.priority == p; }
    if Wins(tier, draw, c) { assert c in tier; }
  }

  /** Without any weight, they are the places at which the channel stands. */
  lemma {:induction false} AnsweredIsPlace(g: Group, used: seq<ChannelId>, c: Channel, p: int)
    requires AllCached(g, Remaining(g, used)) && HighestIn(Lookup(g, Remaining(g, used)), p)
    requires Weights(TopTier(g, used, p)) == 0
    ensures var tier := TopTier(g, used, p); AnsweredBelow(g, used, |tier|, c) == PlacesBelow(tier, |tier|, c)
  {
    var cs, tier := Lookup(g, Remaining(g, used)), TopTier(g, used, p);
    forall draw: int | 0 <= draw < |tier| ensures IsAnswer(g, used, Drawing(draw), Selected(c)) <==> tier[draw] == c {
      PlaceSelects(cs, draw, c, p);
    }
  }

  lemma {:induction false} PlaceSelects(cs: seq<Channel>, draw: nat, c: Channel, p: int)
    requires HighestIn(cs, p) && Weights(Tier(cs, p)) == 0 && draw < |Tier(cs, p)|
    ensures Selects(cs, Drawing(draw), c) <==> Tier(cs, p)[draw] == c
  {
    var tier := Tier(cs, p);
    TierExactly(cs, p, c);
    if Selects(cs, Drawing(draw), c) { assert c.priority == p; }
    if tier[draw] == c { assert c in tier; }
  }

  /** A pick of the failover loop that passes an answer on. */
  ghost predicate PassesOn<E>(p: Pick<E>, a: Answer) {
    match a
    case Nothing => p == Missing(None)
    case Inconsistent(_) => p.Missing? && p.failure.Some?
    case Selected(c) => p.Found? && p.channel == c.id
  }

  /** The pick passes on what the selector answers with the given entropy source. */
  ghost predicate AnswersWith<E>(g: Group, used: seq<ChannelId>, random: Random, p: Pick<E>) {
    exists a: Answer :: IsAnswer(g, used, random, a) && PassesOn(p, a)
  }

  ghost predicate AnswersFor<E>(g: Group, used: seq<ChannelId>, p: Pick<E>) {
    exists random: Random :: AnswersWith(g, used, random, p)
  }

  /** `getChannel`: the selector's answer with the outcome of setting the channel up. */
  method GetChannel<E>(g: Group, used: seq<ChannelId>, random: Random, setup: ChannelId -> Option<E>, failure: E)
    returns (p: Pick<E>)
    requires InRange(random)
    ensures AnswersWith(g, used, random, p)
    ensures p.Found? ==> p.setup == setup(p.channel)
    ensures p.Missing? && p.failure.Some? ==> p.failure.value == failure
  {
    var a := SelectChannel(g, used, random);
    match a
    case Nothing => p := Missing(None);
    case Inconsistent(_) => p := Missing(Some(failure));
    case Selected(c) => p := Found(c.id, setup(c.id));
    assert IsAnswer(g, used, random, a) && PassesOn(p, a);
  }

  /** A pick finds a channel exactly when the selector answers with it. */
  lemma {:induction false} FindsIff<E>(g: Group, used: seq<ChannelId>, random: Random, p: Pick<E>, id: ChannelId)
    requires AllCached(g, Remaining(g, used)) && id in g.cache && AnswersWith(g, used, random, p)
    ensures p.Found? && p.channel == id <==> IsAnswer(g, used, random, Selected(ChannelIn(g, id)))
  {
    var a: Answer :| IsAnswer(g, used, random, a) && PassesOn(p, a);
    if a.Selected? { SelectedIsBest(g, used, random, a.channel); }
    if IsAnswer(g, used, random, Selected(ChannelIn(g, id))) {
      AnswerIsUnique(g, used, random, a, Selected(ChannelIn(g, id)));
    }
  }

  /** The draws below a limit for which the picks find a channel. */
  ghost function FoundBelow<E>(picks: nat -> Pick<E>, limit: nat, id: ChannelId): set<int> {
    set draw: int | 0 <= draw < limit && picks(draw).Found? && picks(draw).channel == id
  }

  /**
   The share of a channel in what `GetChannel` finds, given what it returns for every draw: the cached weight of the
   channel, for every time it is listed, if it is left and of the highest priority left, and nothing otherwise; and
   one draw for every time it is listed when no such channel has any weight.
   */
  lemma {:induction false} FoundShareIsWeight<E>(
      g: Group, used: seq<ChannelId>, picks: nat -> Pick<E>, id: ChannelId, p: int)
    requires AllCached(g, Remaining(g, used)) && id in g.cache && HighestIn(Lookup(g, Remaining(g, used)), p)
    requires forall draw: nat :: AnswersWith(g, used, Drawing(draw), picks(draw))
    ensures var total := Weights(TopTier(g, used, p));
            var chosen := id in Remaining(g, used) && g.cache[id].priority == p;
            && (total > 0 ==> |FoundBelow(picks, total, id)| == if chosen then Listed(g, id) * g.cache[id].weight else 0)
            && (total == 0 ==>
                  |FoundBelow(picks, |TopTier(g, used, p)|, id)| == if chosen then Listed(g, id) else 0)
  {
    CallShareIsWeight(g, used, id, p);
    FoundIsAnswered(g, used, picks, id, Weights(TopTier(g, used, p)));
    FoundIsAnswered(g, used, picks, id, |TopTier(g, used, p)|);
  }

  lemma {:induction false} FoundIsAnswered<E>(
      g: Group, used: seq<ChannelId>, picks: nat -> Pick<E>, id: ChannelId, limit: nat)
    requires AllCached(g, Remaining(g, used)) && id in g.cache
    requires forall draw: nat :: AnswersWith(g, used, Drawing(draw), picks(draw))
    ensures FoundBelow(picks, limit, id) == AnsweredBelow(g, used, limit, ChannelIn(g, id))
  {
    forall draw: int | 0 <= draw < limit
      ensures draw in FoundBelow(picks, limit, id) <==> draw in AnsweredBelow(g, used, limit, ChannelIn(g, id))
    {
      FindsIff(g, used, Drawing(draw), picks(draw), id);
    }
  }

  /** The selector oracle of a loop answers, at every call, as `GetChannel` does. */
  ghost predicate SelectsFrom<E>(g: Group, select: Select<E>) {
    forall k: nat, used: seq<ChannelId> :: AnswersFor(g, used, select(k, used))
  }

  /** The cached priority of d is no higher than that of c. */
  predicate PriorityAtMost(g: Group, d: ChannelId, c: ChannelId) {
    c in g.cache && d in g.cache ==> g.cache[d].priority <= g.cache[c].priority
  }

  /** Channels under the model's own name rank before the others; within each kind priority decides. */
  ghost predicate RanksAtLeast(g: Group, c: ChannelId, d: ChannelId) {
    var own, other := c in Own(g), d in Own(g);
    (own && !other) || ((own <==> other) && PriorityAtMost(g, d, c))
  }

  ghost function ByRank(g: Group): Ranking { (c, d) => RanksAtLeast(g, c, d) }
  function ByPriority(g: Group): Ranking { (c, d) => PriorityAtMost(g, d, c) }

  /** What an answer tells about the channel it passes on. */
  lemma {:induction false} SelectedIsRemaining(g: Group, used: seq<ChannelId>, random: Random, c: Channel)
    requires IsAnswer(g, used, random, Selected(c))
    ensures c.id in Remaining(g, used) && c.id in g.cache
    ensures forall d :: d in Remaining(g, used) ==> d in g.cache && g.cache[d].priority <= g.cache[c.id].priority
  {
    var rest := Remaining(g, used);
    var cs := Lookup(g, rest);
    var i :| 0 <= i < |cs| && cs[i] == c;
    forall d | d in rest ensures d in g.cache && g.cache[d].priority <= c.priority {
      var j :| 0 <= j < |rest| && rest[j] == d;
      assert cs[j] == ChannelIn(g, d);
    }
  }

  lemma {:induction false} CallIsSafe<E>(g: Group, used: seq<ChannelId>, p: Pick<E>)
    requires AnswersFor(g, used, p) && p.Found?
    ensures p.channel in Eligible(g) && p.channel !in used && p.channel in g.cache
  {
    var random: Random :| AnswersWith(g, used, random, p);
    var a: Answer :| IsAnswer(g, used, random, a) && PassesOn(p, a);
    SelectedIsRemaining(g, used, random, a.channel);
    RemainingExactly(g, used, p.channel);
  }

  lemma {:induction false} CallExhausts<E>(g: Group, used: seq<ChannelId>, p: Pick<E>, d: ChannelId)
    requires AnswersFor(g, used, p) && d in Eligible(g) && d !in used
    ensures p != Missing(None)
  {
    var random: Random :| AnswersWith(g, used, random, p);
    var a: Answer :| IsAnswer(g, used, random, a) && PassesOn(p, a);
    RemainingExactly(g, used, d);
  }

  lemma {:induction false} CallRanks<E>(g: Group, used: seq<ChannelId>, p: Pick<E>, d: ChannelId)
    requires AnswersFor(g, used, p) && p.Found? && d in Eligible(g) && d !in used
    ensures RanksAtLeast(g, p.channel, d)
  {
    var random: Random :| AnswersWith(g, used, random, p);
    var a: Answer :| IsAnswer(g, used, random, a) && PassesOn(p, a);
    SelectedIsRemaining(g, used, random, a.channel);
    RemainingExactly(g, used, p.channel);
    RemainingExactly(g, used, d);
    if o :| o in Remaining(g, used) && o in Own(g) { RemainingExactly(g, used, o); }
  }

  /** The selector keeps every promise the failover loops rely on. */
  lemma {:induction false} SelectorMeetsLoopContract<E>(g: Group, select: Select<E>)
    requires SelectsFrom(g, select)
    ensures Safe(select, Eligible(g)) && Exhausts(select, Eligible(g)) && Prefers(select, Eligible(g), ByRank(g))
  {
    forall k: nat, used: seq<ChannelId>
      ensures var p := select(k, used); p.Found? ==> p.channel in Eligible(g) && p.channel !in used
    {
      assert AnswersFor(g, used, select(k, used));
      if select(k, used).Found? { CallIsSafe(g, used, select(k, used)); }
    }
    forall k: nat, used: seq<ChannelId>, d: ChannelId | d in Eligible(g) && d !in used
      ensures select(k, used) != Missing(None)
      ensures select(k, used).Found? ==> ByRank(g)(select(k, used).channel, d)
    {
      assert AnswersFor(g, used, select(k, used));
      CallExhausts(g, used, select(k, used), d);
      if select(k, used).Found? { CallRanks(g, used, select(k, used), d); }
    }
  }

  /**
   Hence in every failover run, after the distributor's channel, the channels under the model's own name come
   before those under its normalised name, and each kind in order of falling priority.
   */
  lemma {:induction false} RunFollowsRanking(g: Group, env: Env, attempts: seq<Attempt>, i: nat, j: nat)
    requires SelectsFrom(g, env.select) && env.eligible == Eligible(g)
    requires IsRun(env, attempts) && 0 < i < j < |attempts|
    ensures Precedes(g, attempts[i].channel, attempts[j].channel)
  {
    RunIsPicked(env, attempts);
    PickedInOrder(g, env.select, Channels(attempts), i, j);
  }

  /** Two cached channels in the order of a run: own name first, and then by falling priority. */
  ghost predicate Precedes(g: Group, c: ChannelId, d: ChannelId) {
    && c in g.cache && d in g.cache
    && ((c in g.own && d !in g.own) || ((c in g.own <==> d in g.own) && g.cache[d].priority <= g.cache[c].priority))
  }

  lemma {:induction false} PickedInOrder<E>(g: Group, select: Select<E>, used: seq<ChannelId>, i: nat, j: nat)
    requires SelectsFrom(g, select) && Picked(select, used) && 0 < i < j < |used|
    ensures Precedes(g, used[i], used[j])
  {
    SelectorMeetsLoopContract(g, select);
    InOrder(select, Eligible(g), ByRank(g), used, i, j);
    PickedIsCached(g, select, used, i);
    PickedIsCached(g, select, used, j);
    assert ByRank(g)(used[i], used[j]);
  }

  lemma {:induction false} PickedIsCached<E>(g: Group, select: Select<E>, used: seq<ChannelId>, i: nat)
    requires SelectsFrom(g, select) && Picked(select, used) && 0 < i < |used|
    ensures used[i] in g.cache && used[i] in Eligible(g)
  {
    assert PickedAt(select, used, i);
    CallIsSafe(g, used[..i], select(i, used[..i]));
  }

  /** The same holds of task submissions that are not pinned. */
  lemma {:induction false} TaskRunFollowsRanking(g: Group, env: TaskEnv, attempts: seq<TaskAttempt>, i: nat, j: nat)
    requires SelectsFrom(g, env.select) && env.eligible == Eligible(g)
    requires !env.pinned && IsTaskRun(env, attempts) && 0 < i < j < |attempts|
    ensures Precedes(g, attempts[i].channel, attempts[j].channel)
  {
    TaskRunIsPicked(env, attempts);
    PickedInOrder(g, env.select, TaskChannels(attempts), i, j);
  }

  /** No channel known only under the normalised name outranks one under the model's own name. */
  ghost predicate NormalizedRankLower(g: Group) {
    forall c, d :: c in Own(g) && d in Eligible(g) && d !in Own(g) ==> PriorityAtMost(g, d, c)
  }

  function Except(ids: seq<ChannelId>, id: ChannelId): seq<ChannelId> {
    if ids == [] then []
    else
      var n := |ids| - 1;
      Except(ids[..n], id) + if ids[n] == id then [] else [ids[n]]
  }

  lemma {:induction false} ExceptExactly(ids: seq<ChannelId>, id: ChannelId, x: ChannelId)
    ensures x in Except(ids, id) <==> x in ids && x != id
  {
    if ids != [] {
      var n := |ids| - 1;
      ExceptExactly(ids[..n], id, x);
      assert ids == ids[..n] + [ids[n]];
    }
  }

  /** Priority alone decides at every call if and only if the fallback list holds nothing of higher priority. */
  lemma {:induction false} StrictPriorityIff<E>(g: Group, select: Select<E>)
    requires SelectsFrom(g, select)
    ensures Prefers(select, Eligible(g), ByPriority(g)) <==> NormalizedRankLower(g)
  {
    if NormalizedRankLower(g) {
      forall k: nat, used: seq<ChannelId>, d: ChannelId | d in Eligible(g) && d !in used
        ensures select(k, used).Found? ==> ByPriority(g)(select(k, used).channel, d)
      {
        assert AnswersFor(g, used, select(k, used));
        if select(k, used).Found? {
          CallIsSafe(g, used, select(k, used));
          CallRanks(g, used, select(k, used), d);
        }
      }
    }
    if Prefers(select, Eligible(g), ByPriority(g)) {
      forall c, d | c in Own(g) && d in Eligible(g) && d !in Own(g) ensures PriorityAtMost(g, d, c) {
        if c in g.cache { LastOfOwnName(g, select, c, d); }
      }
    }
  }

  lemma {:induction false} CachedIsSelected(g: Group, used: seq<ChannelId>, random: Random, a: Answer)
    requires IsAnswer(g, used, random, a) && AllCached(g, Remaining(g, used)) && Remaining(g, used) != []
    ensures a.Selected?
  {
  }

  /** With all other channels of its own name used up, a channel is chosen before any of the fallback. */
  lemma {:induction false} LastOfOwnName<E>(g: Group, select: Select<E>, c: ChannelId, d: ChannelId)
    requires SelectsFrom(g, select) && Prefers(select, Eligible(g), ByPriority(g))
    requires c in Own(g) && c in g.cache && d in Eligible(g) && d !in Own(g)
    ensures PriorityAtMost(g, d, c)
  {
    var used := Except(g.own, c);
    OnlyOneLeft(g, c);
    var p := select(1, used);
    assert AnswersFor(g, used, p);
    var random: Random :| AnswersWith(g, used, random, p);
    var a: Answer :| IsAnswer(g, used, random, a) && PassesOn(p, a);
    assert AllCached(g, Remaining(g, used)) by {
      forall i | 0 <= i < |Remaining(g, used)| ensures Remaining(g, used)[i] in g.cache {
        assert Remaining(g, used)[i] in Remaining(g, used);
      }
    }
    CachedIsSelected(g, used, random, a);
    SelectedIsRemaining(g, used, random, a.channel);
    if d !in used { assert ByPriority(g)(p.channel, d); }
    ExceptExactly(g.own, c, d);
  }

  lemma {:induction false} OnlyOneLeft(g: Group, c: ChannelId)
    requires c in Own(g)
    ensures var rest := Remaining(g, Except(g.own, c)); c in rest && forall id :: id in rest ==> id == c
  {
    var used := Except(g.own, c);
    var rest := Remaining(g, used);
    ExceptExactly(g.own, c, c);
    RemainingExactly(g, used, c);
    forall id | id in rest ensures id == c {
      RemainingExactly(g, used, id);
      ExceptExactly(g.own, c, id);
    }
  }
}
