/**
 Choosing one price per model from the models.dev providers: `buildModelsDevCandidate`,
 `shouldReplaceModelsDevCandidate` and `convertModelsDevToRatioData` (controller/ratio_sync.go).
 */
module ModelsDev {
  import opened Options
  import QuotaMath
  import PricingDiff

  datatype Cost = Cost(input: Option<QuotaMath.Float>, output: Option<QuotaMath.Float>, cacheRead: Option<QuotaMath.Float>)

  datatype Candidate = Candidate(provider: string, input: real, output: Option<real>, cacheRead: Option<real>)

  const EPSILON := PricingDiff.EPSILON

  predicate ValidCost(v: QuotaMath.Float) {
    v.Fin? && v.value >= 0.0
  }

  function BuildCandidate(provider: string, c: Cost): Option<Candidate> {
    if c.input.None? || !ValidCost(c.input.value) then None
    else if c.output.Some? && !ValidCost(c.output.value) then None
    else if c.input.value.value == 0.0 && c.output.Some? && c.output.value.value > 0.0 then None
    else Some(Candidate(provider, c.input.value.value,
                        if c.output.Some? then Some(c.output.value.value) else None,
                        if c.cacheRead.Some? && ValidCost(c.cacheRead.value) then Some(c.cacheRead.value.value) else None))
  }

  // ----- provider names in Go's string order -----

  predicate Less(a: string, b: string) {
    b != "" && (a == "" || a[0] < b[0] || (a[0] == b[0] && Less(a[1..], b[1..])))
  }

  /** One string is less than another at their first difference, or as its proper prefix. */
  lemma {:induction false} LessAtFirstDifference(a: string, b: string)
    ensures Less(a, b) <==> exists k :: LessAt(a, b, k)
  {
    forall k | LessAt(a, b, k) && k > 0 ensures a[0] == b[0] { assert a[..k][0] == b[..k][0]; }
    if a != "" && b != "" && a[0] == b[0] {
      LessAtFirstDifference(a[1..], b[1..]);
      if k :| LessAt(a[1..], b[1..], k) {
        assert a[..k+1] == [a[0]] + a[1..][..k] && b[..k+1] == [b[0]] + b[1..][..k];
        assert LessAt(a, b, k + 1);
      }
      if k :| LessAt(a, b, k) {
        assert k > 0;
        assert a[1..][..k-1] == a[..k][1..] && b[1..][..k-1] == b[..k][1..];
        assert LessAt(a[1..], b[1..], k - 1);
      }
    } else if Less(a, b) {
      assert LessAt(a, b, 0);
    }
  }

  ghost predicate LessAt(a: string, b: string, k: int) {
    0 <= k <= |a| && k < |b| && a[..k] == b[..k] && (k == |a| || a[k] < b[k])
  }

  lemma {:induction false} LessIsAsymmetric(a: string, b: string)
    requires Less(a, b)
    ensures a != b && !Less(b, a)
  {
    if a != "" && a[0] == b[0] { LessIsAsymmetric(a[1..], b[1..]); }
  }

  lemma {:induction false} LessIsTotal(a: string, b: string)
    ensures a == b || Less(a, b) || Less(b, a)
  {
    if a != "" && b != "" && a[0] == b[0] {
      LessIsTotal(a[1..], b[1..]);
      assert a == [a[0]] + a[1..] && b == [b[0]] + b[1..];
    }
  }

  lemma {:induction false} LessIsTransitive(a: string, b: string, c: string)
    requires Less(a, b) && Less(b, c)
    ensures Less(a, c)
  {
    if a != "" && a[0] == b[0] == c[0] { LessIsTransitive(a[1..], b[1..], c[1..]); }
  }

  ghost predicate Sorted(ps: seq<string>) {
    forall i, j :: 0 <= i < j < |ps| ==> Less(ps[i], ps[j])
  }

  method Smallest(names: set<string>) returns (p: string)
    requires names != {}
    ensures p in names && forall q :: q in names ==> q == p || Less(p, q)
  {
    p :| p in names;
    var todo := names - {p};
    while todo != {}
      invariant p in names && todo <= names
      invariant forall q :: q in names - todo ==> q == p || Less(p, q)
      decreases todo
    {
      var q :| q in todo;
      todo := todo - {q};
      LessIsTotal(p, q);
      if Less(q, p) {
        forall x | x in names - todo && x != q && x != p ensures Less(q, x) { LessIsTransitive(q, p, x); }
        p := q;
      }
    }
  }

  /** `sort.Strings` of a map's keys. */
  method SortNames(names: set<string>) returns (ps: seq<string>)
    ensures Sorted(ps) && forall p :: p in ps <==> p in names
  {
    ps := [];
    var todo := names;
    while todo != {}
      invariant todo <= names && Sorted(ps)
      invariant forall p :: p in ps <==> p in names - todo
      invariant forall p, q :: p in ps && q in todo ==> Less(p, q)
      decreases todo
    {
      var p := Smallest(todo);
      todo := todo - {p};
      ps := ps + [p];
    }
  }

  // ----- the fold -----

  predicate ShouldReplace(current: Candidate, next: Candidate) {
    var currentNonZero, nextNonZero := current.input > 0.0, next.input > 0.0;
    if currentNonZero != nextNonZero then nextNonZero
    else if nextNonZero && !PricingDiff.NearlyEqual(next.input, current.input) then next.input < current.input
    else Less(next.provider, current.provider)
  }

  function Select(cs: seq<Candidate>): Candidate
    requires cs != []
  {
    var n := |cs| - 1;
    if n == 0 then cs[0]
    else
      var current := Select(cs[..n]);
      if ShouldReplace(current, cs[n]) then cs[n] else current
  }

  /** Candidates as the fold meets them: valid prices, providers in ascending order. */
  ghost predicate InOrder(cs: seq<Candidate>) {
    && (forall i :: 0 <= i < |cs| ==> cs[i].input >= 0.0)
    && (forall i, j :: 0 <= i < j < |cs| ==> Less(cs[i].provider, cs[j].provider))
  }

  /** The selected price: one of the candidates, zero only if all are, and within epsilon of the cheapest. */
  ghost predicate IsCheapest(c: Candidate, cs: seq<Candidate>) {
    && c in cs
    && (c.input == 0.0 <==> forall i :: 0 <= i < |cs| ==> cs[i].input == 0.0)
    && (forall i :: 0 <= i < |cs| && cs[i].input > 0.0 ==> c.input < cs[i].input + EPSILON)
  }

  /** The provider tie-break never fires: a later candidate replaces the current one on price alone. */
  lemma {:induction false} TieBreakNeverFires(cs: seq<Candidate>)
    requires |cs| > 1 && InOrder(cs)
    ensures var current, next := Select(cs[..|cs|-1]), cs[|cs|-1];
            ShouldReplace(current, next) <==>
              next.input > 0.0 && (current.input == 0.0 || next.input <= current.input - EPSILON)
  {
    var n := |cs| - 1;
    SelectedIsCheapest(cs[..n]);
    var current := Select(cs[..n]);
    var i :| 0 <= i < n && cs[..n][i] == current;
    LessIsAsymmetric(cs[i].provider, cs[n].provider);
  }

  /** Near-equality is not transitive, yet the fold does not drift, however many providers there are. */
  lemma {:induction false} SelectedIsCheapest(cs: seq<Candidate>)
    requires cs != [] && InOrder(cs)
    ensures IsCheapest(Select(cs), cs)
    decreases |cs|, 0
  {
    var n := |cs| - 1;
    if n > 0 {
      SelectedIsCheapest(cs[..n]);
      CheapestStep(cs, Select(cs[..n]));
    }
  }

  lemma {:induction false} CheapestStep(cs: seq<Candidate>, current: Candidate)
    requires |cs| > 1 && InOrder(cs) && IsCheapest(current, cs[..|cs|-1])
    ensures IsCheapest(if ShouldReplace(current, cs[|cs|-1]) then cs[|cs|-1] else current, cs)
  {
    var n := |cs| - 1;
    var front := cs[..n];
    var next := cs[n];
    var k :| 0 <= k < n && front[k] == current;
    LessIsAsymmetric(cs[k].provider, next.provider);
    assert cs == front + [next];
    assert forall i :: 0 <= i < n ==> cs[i] == front[i];
  }

  // ----- which candidate is selected -----

  function Inputs(cs: seq<Candidate>): (xs: seq<real>)
    ensures |xs| == |cs| && forall i :: 0 <= i < |cs| ==> xs[i] == cs[i].input
  {
    seq(|cs|, i requires 0 <= i < |cs| => cs[i].input)
  }

  /** No price at the places from lo up to hi is lower than the given one by epsilon or more, unless it is free. */
  ghost predicate NoneLower(xs: seq<real>, x: real, lo: nat, hi: nat) {
    forall j :: lo <= j < hi && j < |xs| && xs[j] > 0.0 ==> xs[j] > x - 0.000000001
  }

  /**
   Among the prices up to the given end, these are the places of a descent: the first that is not free, then each
   time the first place behind it with a price lower by at least epsilon, until there is none.
   */
  ghost predicate IsDescent(ks: seq<nat>, xs: seq<real>, end: nat)
    decreases |ks|
  {
    && ks != []
    && var n := |ks| - 1;
       && ks[n] < end <= |xs| && xs[ks[n]] > 0.0 && NoneLower(xs, xs[ks[n]], ks[n] + 1, end)
       && if n == 0 then forall j :: 0 <= j < ks[0] ==> xs[j] == 0.0
          else IsDescent(ks[..n], xs, ks[n]) && xs[ks[n]] <= xs[ks[n-1]] - 0.000000001
  }

  lemma {:induction false} DescentSnoc(ks: seq<nat>, xs: seq<real>, end: nat)
    requires IsDescent(ks, xs, end) && end < |xs| && xs[end] >= 0.0
    ensures var last := xs[ks[|ks|-1]];
            if 0.0 < xs[end] <= last - 0.000000001 then IsDescent(ks + [end], xs, end + 1) else IsDescent(ks, xs, end + 1)
  {
    assert (ks + [end])[..|ks|] == ks;
  }

  /** Where a descent has got to, every price before is higher, but for free ones. */
  lemma {:induction false} DescentGoesDown(ks: seq<nat>, xs: seq<real>, end: nat, j: nat)
    requires IsDescent(ks, xs, end) && j < ks[|ks|-1] && xs[j] > 0.0
    ensures xs[j] > xs[ks[|ks|-1]]
    decreases |ks|
  {
    var n := |ks| - 1;
    if n > 0 && j < ks[n-1] { DescentGoesDown(ks[..n], xs, ks[n], j); }
  }

  /** A descent is determined by the prices. */
  lemma {:induction false} DescentIsUnique(ks: seq<nat>, ls: seq<nat>, xs: seq<real>, end: nat)
    requires IsDescent(ks, xs, end) && IsDescent(ls, xs, end)
    ensures ks == ls
    decreases end
  {
    var n, m := |ks| - 1, |ls| - 1;
    if ks[n] < end - 1 && ls[m] < end - 1 {
      DescentIsUnique(ks, ls, xs, end - 1);
    } else if n > 0 && m > 0 && ks[n] == ls[m] {
      DescentIsUnique(ks[..n], ls[..m], xs, end - 1);
      assert ks == ks[..n] + [ks[n]] && ls == ls[..m] + [ls[m]];
    } else if n > 0 && ls[m] < ks[n] {
      DescentIsUnique(ks[..n], ls, xs, end - 1);
    } else if m > 0 && ks[n] < ls[m] {
      DescentIsUnique(ks, ls[..m], xs, end - 1);
    }
  }

  /** The place of the fold among the first n prices. */
  ghost function Place(xs: seq<real>, n: nat): (k: nat)
    requires 0 < n <= |xs|
    ensures k < n
  {
    if n == 1 then 0
    else
      var k := Place(xs, n - 1);
      if xs[n-1] > 0.0 && (xs[k] == 0.0 || xs[n-1] <= xs[k] - EPSILON) then n - 1 else k
  }

  lemma {:induction false} SelectIsAtPlace(cs: seq<Candidate>, n: nat)
    requires 0 < n <= |cs| && InOrder(cs)
    ensures Select(cs[..n]) == cs[Place(Inputs(cs), n)]
  {
    if n > 1 {
      SelectIsAtPlace(cs, n - 1);
      SelectSnoc(cs, n - 1);
    }
  }

  lemma {:induction false} PlaceEndsDescent(xs: seq<real>, n: nat) returns (ks: seq<nat>)
    requires 0 < n <= |xs| && forall i :: 0 <= i < |xs| ==> xs[i] >= 0.0
    ensures var k := Place(xs, n);
            if xs[k] == 0.0 then k == 0 && forall i :: 0 <= i < n ==> xs[i] == 0.0
            else IsDescent(ks, xs, n) && k == ks[|ks|-1]
  {
    if n == 1 {
      ks := [0];
    } else {
      ks := PlaceEndsDescent(xs, n - 1);
      if xs[Place(xs, n - 1)] == 0.0 {
        ks := [n - 1];
      } else {
        DescentSnoc(ks, xs, n - 1);
        if Place(xs, n) == n - 1 { ks := ks + [n - 1]; }
      }
    }
  }

  /** The candidate selected from the first n: where the descent of their prices ends, or the first if all are free. */
  lemma {:induction false} SelectEndsDescent(cs: seq<Candidate>, n: nat) returns (ks: seq<nat>)
    requires 0 < n <= |cs| && InOrder(cs)
    ensures Select(cs[..n]).input >= 0.0
    ensures Select(cs[..n]).input == 0.0 ==> Select(cs[..n]) == cs[0] && forall i :: 0 <= i < n ==> cs[i].input == 0.0
    ensures Select(cs[..n]).input > 0.0 ==> IsDescent(ks, Inputs(cs), n) && Select(cs[..n]) == cs[ks[|ks|-1]]
  {
    SelectIsAtPlace(cs, n);
    ks := PlaceEndsDescent(Inputs(cs), n);
  }

  lemma {:induction false} SelectSnoc(cs: seq<Candidate>, n: nat)
    requires 0 < n < |cs| && InOrder(cs)
    ensures var current, next := Select(cs[..n]), cs[n];
            Select(cs[..n+1]) ==
              if next.input > 0.0 && (current.input == 0.0 || next.input <= current.input - EPSILON) then next else current
  {
    assert cs[..n+1][..n] == cs[..n];
    TieBreakNeverFires(cs[..n+1]);
  }

  /** Earlier by provider is at an earlier place. */
  lemma {:induction false} EarlierProvider(cs: seq<Candidate>, j: nat, k: nat)
    requires InOrder(cs) && j < |cs| && k < |cs| && Less(cs[j].provider, cs[k].provider)
    ensures j < k
  {
    LessIsAsymmetric(cs[j].provider, cs[k].provider);
  }

  /** Against an earlier provider the selected price is lower, and a free one is never taken. */
  lemma {:induction false} FirstOfEquals(cs: seq<Candidate>, c: Candidate)
    requires cs != [] && InOrder(cs) && c in cs && Less(c.provider, Select(cs).provider)
    ensures Select(cs).input > 0.0 && (c.input > 0.0 ==> c.input > Select(cs).input)
  {
    var ks := SelectEndsDescent(cs, |cs|);
    assert cs[..|cs|] == cs;
    var j :| 0 <= j < |cs| && cs[j] == c;
    if Select(cs).input == 0.0 {
      EarlierProvider(cs, j, 0);
    } else {
      EarlierProvider(cs, j, ks[|ks|-1]);
      if c.input > 0.0 { DescentGoesDown(ks, Inputs(cs), |cs|, j); }
    }
  }

  /** The valid candidates for a model among the given providers, in their order. */
  function CandidatesFor(data: map<string, map<string, Cost>>, ps: seq<string>, m: string): seq<Candidate>
    requires forall p :: p in ps ==> p in data
  {
    if ps == [] then []
    else
      var n := |ps| - 1;
      var before := CandidatesFor(data, ps[..n], m);
      var c := if m in data[ps[n]] then BuildCandidate(ps[n], data[ps[n]][m]) else None;
      if c.Some? then before + [c.value] else before
  }

  lemma {:induction false} CandidatesInOrder(data: map<string, map<string, Cost>>, ps: seq<string>, m: string)
    requires Sorted(ps) && forall p :: p in ps ==> p in data
    ensures InOrder(CandidatesFor(data, ps, m))
    ensures forall c :: c in CandidatesFor(data, ps, m) ==> c.provider in ps
  {
    if ps != [] {
      var n := |ps| - 1;
      CandidatesInOrder(data, ps[..n], m);
      var before := CandidatesFor(data, ps[..n], m);
      forall i | 0 <= i < |before| ensures Less(before[i].provider, ps[n]) {
        assert before[i] in before;
        assert before[i].provider in ps[..n];
      }
    }
  }

  lemma {:induction false} CandidatesMembers(data: map<string, map<string, Cost>>, ps: seq<string>, m: string, c: Candidate)
    requires forall p :: p in ps ==> p in data
    ensures c in CandidatesFor(data, ps, m) <==>
              c.provider in ps && m in data[c.provider] && BuildCandidate(c.provider, data[c.provider][m]) == Some(c)
  {
    if ps != [] {
      CandidatesMembers(data, ps[..|ps|-1], m, c);
      assert ps == ps[..|ps|-1] + [ps[|ps|-1]];
    }
  }

  lemma {:induction false} SortedIsUnique(ps: seq<string>, qs: seq<string>)
    requires Sorted(ps) && Sorted(qs) && forall p :: p in ps <==> p in qs
    ensures ps == qs
  {
    assert qs != [] ==> qs[0] in qs;
    if ps != [] {
      var n, m := |ps| - 1, |qs| - 1;
      assert ps[n] in ps && qs != [] && qs[m] in qs;
      LastIsSame(ps, qs);
      forall p ensures p in ps[..n] <==> p in qs[..m] {
        LastIsAlone(ps, p);
        LastIsAlone(qs, p);
      }
      SortedIsUnique(ps[..n], qs[..m]);
      assert ps == ps[..n] + [ps[n]] && qs == qs[..m] + [qs[m]];
    }
  }

  lemma {:induction false} LastIsAlone(ps: seq<string>, p: string)
    requires ps != [] && Sorted(ps)
    ensures p in ps[..|ps|-1] <==> p in ps && p != ps[|ps|-1]
  {
    var n := |ps| - 1;
    assert ps == ps[..n] + [ps[n]];
    if p in ps[..n] {
      var i :| 0 <= i < n && ps[..n][i] == p;
      LessIsAsymmetric(ps[i], ps[n]);
    }
  }

  lemma {:induction false} LastIsSame(ps: seq<string>, qs: seq<string>)
    requires ps != [] && qs != [] && Sorted(ps) && Sorted(qs) && forall p :: p in ps <==> p in qs
    ensures ps[|ps|-1] == qs[|qs|-1]
  {
    var a, b := ps[|ps|-1], qs[|qs|-1];
    assert a in ps && b in qs;
    if a != b {
      LastIsAlone(ps, b);
      LastIsAlone(qs, a);
      var i :| 0 <= i < |ps| - 1 && ps[i] == b;
      var j :| 0 <= j < |qs| - 1 && qs[j] == a;
      assert Less(b, a) && Less(a, b);
      LessIsAsymmetric(a, b);
    }
  }

  ghost predicate IsSelection(
      data: map<string, map<string, Cost>>, ps: seq<string>, sel: map<string, Candidate>, m: string)
    requires forall p :: p in ps ==> p in data
  {
    var cs := CandidatesFor(data, ps, m);
    (m in sel <==> cs != []) && (m in sel ==> sel[m] == Select(cs))
  }

  /** One provider's models, in any order, on top of the providers already done. */
  method FoldProvider(data: map<string, map<string, Cost>>, ghost done: seq<string>, provider: string,
                      before: map<string, Candidate>) returns (sel: map<string, Candidate>)
    requires provider in data && forall p :: p in done ==> p in data
    requires forall m :: IsSelection(data, done, before, m)
    ensures forall m :: IsSelection(data, done + [provider], sel, m)
  {
    sel := before;
    var models := data[provider];
    var todo := models.Keys;
    assert (done + [provider])[..|done|] == done;
    while todo != {}
      invariant todo <= models.Keys
      invariant forall m :: m !in todo && m in models ==> IsSelection(data, done + [provider], sel, m)
      invariant forall m :: m in todo || m !in models ==> (m in sel <==> m in before) && (m in sel ==> sel[m] == before[m])
      decreases todo
    {
      var m :| m in todo;
      todo := todo - {m};
      assert IsSelection(data, done, before, m);
      var c := BuildCandidate(provider, models[m]);
      if c.Some? && (m !in sel || ShouldReplace(sel[m], c.value)) {
        sel := sel[m := c.value];
      }
      FoldOne(data, done, provider, before, sel, m);
    }
    forall m ensures IsSelection(data, done + [provider], sel, m) {
      assert IsSelection(data, done, before, m);
    }
  }

  lemma {:induction false} FoldOne(data: map<string, map<string, Cost>>, done: seq<string>, provider: string,
                                   before: map<string, Candidate>, sel: map<string, Candidate>, m: string)
    requires provider in data && (forall p :: p in done ==> p in data) && m in data[provider]
    requires IsSelection(data, done, before, m)
    requires var c := BuildCandidate(provider, data[provider][m]);
             if c.Some? && (m !in before || ShouldReplace(before[m], c.value)) then m in sel && sel[m] == c.value
             else (m in sel <==> m in before) && (m in sel ==> sel[m] == before[m])
    ensures IsSelection(data, done + [provider], sel, m)
  {
    assert (done + [provider])[..|done|] == done;
    var cs := CandidatesFor(data, done, m);
    var c := BuildCandidate(provider, data[provider][m]);
    if c.Some? { assert (cs + [c.value])[..|cs|] == cs; }
  }

  /** A provider's price for a model, if it has a valid one. */
  function Offer(data: map<string, map<string, Cost>>, p: string, m: string): Option<Candidate> {
    if p in data && m in data[p] then BuildCandidate(p, data[p][m]) else None
  }

  /**
   What is selected for a model: nothing exactly when no provider has a valid price; otherwise some provider's
   price, which is zero only if every valid price is, and is below every non-zero price plus epsilon.  No earlier
   provider has as low a price, or any free one.
   */
  ghost predicate IsBest(data: map<string, map<string, Cost>>, sel: map<string, Candidate>, m: string) {
    && (m in sel <==> exists p :: Offer(data, p, m).Some?)
    && (m in sel ==>
          && Offer(data, sel[m].provider, m) == Some(sel[m])
          && forall p :: Offer(data, p, m).Some? ==>
               && (sel[m].input == 0.0 ==> Offer(data, p, m).value.input == 0.0 && !Less(p, sel[m].provider))
               && (Offer(data, p, m).value.input > 0.0 && Less(p, sel[m].provider) ==>
                     Offer(data, p, m).value.input > sel[m].input)
               && (Offer(data, p, m).value.input > 0.0 ==> sel[m].input < Offer(data, p, m).value.input + EPSILON))
  }

  /** A cost with these prices: finite and not negative, and no output price beside a free input. */
  ghost predicate Prices(cost: Cost, input: real, output: Option<real>, cacheRead: Option<real>) {
    && cost.input == Some(QuotaMath.Fin(input)) && input >= 0.0
    && (if output.None? then cost.output.None? else cost.output == Some(QuotaMath.Fin(output.value)) && output.value >= 0.0)
    && !(input == 0.0 && output.Some? && output.value > 0.0)
    && (if cacheRead.None? then !exists x :: x >= 0.0 && cost.cacheRead == Some(QuotaMath.Fin(x))
        else cost.cacheRead == Some(QuotaMath.Fin(cacheRead.value)) && cacheRead.value >= 0.0)
  }

  /** The provider has a usable input price for the model. */
  ghost predicate PricedAt(data: map<string, map<string, Cost>>, p: string, m: string, input: real) {
    p in data && m in data[p] && exists output, cacheRead :: Prices(data[p][m], input, output, cacheRead)
  }

  /**
   The candidate has a provider's own prices; it is free only if all are, and within epsilon of the cheapest other.
   Of several free ones it is the first by provider; otherwise every price of an earlier provider is higher, so that
   of equal prices the first is taken.
   */
  ghost predicate IsBestPrice(data: map<string, map<string, Cost>>, m: string, c: Candidate) {
    && c.provider in data && m in data[c.provider]
    && Prices(data[c.provider][m], c.input, c.output, c.cacheRead)
    && forall p, x :: PricedAt(data, p, m, x) ==>
         && (c.input == 0.0 ==> x == 0.0 && !Less(p, c.provider))
         && (x > 0.0 ==> c.input < x + 0.000000001)
         && (x > 0.0 && Less(p, c.provider) ==> x > c.input)
  }

  lemma {:induction false} CandidateHasPrices(provider: string, cost: Cost, c: Candidate)
    ensures BuildCandidate(provider, cost) == Some(c) <==>
              c.provider == provider && Prices(cost, c.input, c.output, c.cacheRead)
  {
  }

  lemma {:induction false} OfferIffPriced(data: map<string, map<string, Cost>>, p: string, m: string, x: real)
    ensures PricedAt(data, p, m, x) <==> Offer(data, p, m).Some? && Offer(data, p, m).value.input == x
  {
    if p in data && m in data[p] {
      var cost := data[p][m];
      if o, k :| Prices(cost, x, o, k) { CandidateHasPrices(p, cost, Candidate(p, x, o, k)); }
      var offer := BuildCandidate(p, cost);
      if offer.Some? { CandidateHasPrices(p, cost, offer.value); }
    }
  }

  lemma {:induction false} BestHasBestPrice(data: map<string, map<string, Cost>>, sel: map<string, Candidate>, m: string)
    requires IsBest(data, sel, m)
    ensures m in sel <==> exists p, x :: PricedAt(data, p, m, x)
    ensures m in sel ==> IsBestPrice(data, m, sel[m])
  {
    forall p, x ensures PricedAt(data, p, m, x) <==> Offer(data, p, m).Some? && Offer(data, p, m).value.input == x {
      OfferIffPriced(data, p, m, x);
    }
    if m in sel {
      var c := sel[m];
      CandidateHasPrices(c.provider, data[c.provider][m], c);
      assert PricedAt(data, c.provider, m, c.input);
    }
  }

  /** The providers of the data, in order. */
  ghost predicate IsOrderOf(data: map<string, map<string, Cost>>, ps: seq<string>) {
    Sorted(ps) && forall p :: p in ps <==> p in data
  }

  /** For every model with candidates, the one selected from them in the order of the providers. */
  ghost predicate SelectsFrom(data: map<string, map<string, Cost>>, sel: map<string, Candidate>) {
    exists ps :: IsOrderOf(data, ps) && forall m :: IsSelection(data, ps, sel, m)
  }

  /** The data determines what is selected. */
  lemma {:induction false} SelectionIsUnique(
      data: map<string, map<string, Cost>>, a: map<string, Candidate>, b: map<string, Candidate>)
    requires SelectsFrom(data, a) && SelectsFrom(data, b)
    ensures a == b
  {
    var ps :| IsOrderOf(data, ps) && forall m :: IsSelection(data, ps, a, m);
    var qs :| IsOrderOf(data, qs) && forall m :: IsSelection(data, qs, b, m);
    SortedIsUnique(ps, qs);
    forall m ensures m in a <==> m in b && (m in a ==> a[m] == b[m]) {
      assert IsSelection(data, ps, a, m) && IsSelection(data, ps, b, m);
    }
  }

  method SelectCandidates(data: map<string, map<string, Cost>>) returns (sel: map<string, Candidate>)
    ensures SelectsFrom(data, sel)
    ensures forall m :: IsBest(data, sel, m)
    ensures forall m :: m in sel <==> exists p, x :: PricedAt(data, p, m, x)
    ensures forall m :: m in sel ==> IsBestPrice(data, m, sel[m])
  {
    var ps := SortNames(data.Keys);
    sel := map[];
    for i := 0 to |ps|
      invariant forall m :: IsSelection(data, ps[..i], sel, m)
    {
      assert ps[..i+1] == ps[..i] + [ps[i]];
      sel := FoldProvider(data, ps[..i], ps[i], sel);
    }
    assert ps[..|ps|] == ps;
    assert IsOrderOf(data, ps);
    forall m
      ensures IsBest(data, sel, m)
      ensures m in sel <==> exists p, x :: PricedAt(data, p, m, x)
      ensures m in sel ==> IsBestPrice(data, m, sel[m])
    {
      SelectionIsBest(data, ps, sel, m);
      BestHasBestPrice(data, sel, m);
    }
  }

  lemma {:induction false} OffersAreCandidates(data: map<string, map<string, Cost>>, ps: seq<string>, m: string, p: string)
    requires (forall q :: q in ps <==> q in data) && Offer(data, p, m).Some?
    ensures Offer(data, p, m).value in CandidatesFor(data, ps, m)
  {
    CandidatesMembers(data, ps, m, Offer(data, p, m).value);
  }

  lemma {:induction false} SelectionIsBest(
      data: map<string, map<string, Cost>>, ps: seq<string>, sel: map<string, Candidate>, m: string)
    requires Sorted(ps) && (forall p :: p in ps <==> p in data) && IsSelection(data, ps, sel, m)
    ensures IsBest(data, sel, m)
  {
    var cs := CandidatesFor(data, ps, m);
    forall p | Offer(data, p, m).Some? ensures Offer(data, p, m).value in cs { OffersAreCandidates(data, ps, m, p); }
    if m in sel {
      CandidatesInOrder(data, ps, m);
      SelectedIsCheapest(cs);
      CandidatesMembers(data, ps, m, sel[m]);
      assert Offer(data, sel[m].provider, m) == Some(sel[m]);
      forall p | Offer(data, p, m).Some? && Less(p, sel[m].provider)
        ensures sel[m].input > 0.0
        ensures Offer(data, p, m).value.input > 0.0 ==> Offer(data, p, m).value.input > sel[m].input
      {
        OffersAreCandidates(data, ps, m, p);
        FirstOfEquals(cs, Offer(data, p, m).value);
      }
    }
  }

  // ----- ratios -----

  /** `roundRatioValue`: six decimals. */
  function RoundSix(v: real): real {
    QuotaMath.RoundAway(v * 1000000.0) as real / 1000000.0
  }

  /** Within half of the sixth decimal; a value half-way goes away from zero. */
  predicate Near(a: real, b: real) {
    if b >= 0.0 then -0.0000005 < a - b <= 0.0000005 else -0.0000005 <= a - b < 0.0000005
  }

  /** The ratio with six decimals that is nearest. */
  ghost predicate ToSixDecimals(a: real, b: real) {
    Near(a, b) && (a * 1000000.0).Floor as real == a * 1000000.0
  }

  /** There is only one. */
  lemma SixDecimalsAreUnique(a: real, c: real, b: real)
    requires ToSixDecimals(a, b) && ToSixDecimals(c, b)
    ensures a == c
  {
    var m, n := (a * 1000000.0).Floor, (c * 1000000.0).Floor;
    assert -1.0 < (a - c) * 1000000.0 < 1.0;
    assert (m - n) as real == (a - c) * 1000000.0;
    assert m == n;
  }

  lemma RoundSixIsNear(v: real)
    ensures ToSixDecimals(RoundSix(v), v)
  {
    QuotaMath.RoundAwayIsNearest(v * 1000000.0);
    assert RoundSix(v) * 1000000.0 == QuotaMath.RoundAway(v * 1000000.0) as real;
  }

  function ModelRatioOf(c: Candidate): real {
    if c.input == 0.0 then 0.0 else RoundSix(c.input * 500.0 / 1000.0)
  }

  /** A price relative to the input price; a free model has none. */
  function Relative(price: Option<real>, input: real): Option<real> {
    if price.None? || input == 0.0 then None else Some(RoundSix(price.value / input))
  }

  /** The model ratio is half the input price per million tokens, and the others are price quotients, to six decimals. */
  lemma RatiosMeaning(c: Candidate)
    ensures ToSixDecimals(ModelRatioOf(c), c.input / 2.0)
    ensures forall price: Option<real> :: Relative(price, c.input).Some? <==> c.input != 0.0 && price.Some?
    ensures forall price: Option<real> :: c.input != 0.0 && price.Some? ==>
              ToSixDecimals(Relative(price, c.input).value, price.value / c.input)
  {
    if c.input != 0.0 {
      RoundSixIsNear(c.input * 500.0 / 1000.0);
      forall price: Option<real> | price.Some? ensures ToSixDecimals(Relative(price, c.input).value, price.value / c.input) {
        RoundSixIsNear(price.value / c.input);
      }
    }
  }

  // ----- the whole conversion -----

  datatype Conversion =
    | NoProviders
    | NoPrices
    | Ratios(model: map<string, real>, completion: map<string, real>, cache: map<string, real>)

  /** The three ratios of one model: half the input price, and output and cache prices relative to it, unless it is free. */
  ghost predicate HasRatios(r: Conversion, m: string, c: Candidate)
    requires r.Ratios?
  {
    && m in r.model && ToSixDecimals(r.model[m], c.input / 2.0)
    && (m in r.completion <==> c.input != 0.0 && c.output.Some?)
    && (m in r.completion ==> ToSixDecimals(r.completion[m], c.output.value / c.input))
    && (m in r.cache <==> c.input != 0.0 && c.cacheRead.Some?)
    && (m in r.cache ==> ToSixDecimals(r.cache[m], c.cacheRead.value / c.input))
  }

  /** They are determined by the prices. */
  lemma {:induction false} RatiosAreUnique(q: Conversion, r: Conversion, m: string, c: Candidate)
    requires q.Ratios? && r.Ratios? && HasRatios(q, m, c) && HasRatios(r, m, c)
    ensures q.model[m] == r.model[m]
    ensures (m in q.completion <==> m in r.completion) && (m in q.completion ==> q.completion[m] == r.completion[m])
    ensures (m in q.cache <==> m in r.cache) && (m in q.cache ==> q.cache[m] == r.cache[m])
  {
    SixDecimalsAreUnique(q.model[m], r.model[m], c.input / 2.0);
    if m in q.completion { SixDecimalsAreUnique(q.completion[m], r.completion[m], c.output.value / c.input); }
    if m in q.cache { SixDecimalsAreUnique(q.cache[m], r.cache[m], c.cacheRead.value / c.input); }
  }

  /** The maps hold the ratios of exactly the selected candidates. */
  ghost predicate RatiosFor(sel: map<string, Candidate>, r: Conversion, m: string)
    requires r.Ratios?
  {
    && (m in sel ==> HasRatios(r, m, sel[m]))
    && (m !in sel ==> m !in r.model && m !in r.completion && m !in r.cache)
  }

  type Ratio = Candidate -> Option<real>

  /** One ratio of every named candidate that has it. */
  function Table(sel: map<string, Candidate>, names: set<string>, ratio: Ratio): map<string, real> {
    map m | m in sel && m in names && ratio(sel[m]).Some? :: ratio(sel[m]).value
  }

  lemma {:induction false} OneMoreRow(sel: map<string, Candidate>, done: set<string>, ratio: Ratio, m: string)
    requires m in sel && m !in done
    ensures Table(sel, done + {m}, ratio) ==
              if ratio(sel[m]).Some? then Table(sel, done, ratio)[m := ratio(sel[m]).value] else Table(sel, done, ratio)
  {
  }

  /** The loop over the selected candidates, in no particular order. */
  method Tabulate(sel: map<string, Candidate>, model: Ratio, completion: Ratio, cache: Ratio) returns (r: Conversion)
    ensures r == Ratios(Table(sel, sel.Keys, model), Table(sel, sel.Keys, completion), Table(sel, sel.Keys, cache))
  {
    r := Ratios(map[], map[], map[]);
    ghost var done: set<string> := {};
    var todo := sel.Keys;
    while todo != {}
      invariant done !! todo && done + todo == sel.Keys
      invariant r == Ratios(Table(sel, done, model), Table(sel, done, completion), Table(sel, done, cache))
      decreases todo
    {
      var m :| m in todo;
      todo := todo - {m};
      OneMoreRow(sel, done, model, m);
      OneMoreRow(sel, done, completion, m);
      OneMoreRow(sel, done, cache, m);
      done := done + {m};
      var a, b, c := model(sel[m]), completion(sel[m]), cache(sel[m]);
      if a.Some? { r := r.(model := r.model[m := a.value]); }
      if b.Some? { r := r.(completion := r.completion[m := b.value]); }
      if c.Some? { r := r.(cache := r.cache[m := c.value]); }
    }
  }

  lemma {:induction false} TableAt(sel: map<string, Candidate>, ratio: Ratio, m: string)
    ensures m in Table(sel, sel.Keys, ratio) <==> m in sel && ratio(sel[m]).Some?
    ensures m in Table(sel, sel.Keys, ratio) ==> Table(sel, sel.Keys, ratio)[m] == ratio(sel[m]).value
  {
  }

  function ModelRatio(): Ratio { (c: Candidate) => Some(ModelRatioOf(c)) }

  function CompletionRatio(): Ratio { (c: Candidate) => Relative(c.output, c.input) }

  function CacheRatio(): Ratio { (c: Candidate) => Relative(c.cacheRead, c.input) }

  function Tables(sel: map<string, Candidate>): Conversion {
    Ratios(Table(sel, sel.Keys, ModelRatio()), Table(sel, sel.Keys, CompletionRatio()), Table(sel, sel.Keys, CacheRatio()))
  }

  method RatiosOf(sel: map<string, Candidate>) returns (r: Conversion)
    ensures r == Tables(sel) && forall m :: RatiosFor(sel, r, m)
  {
    r := Tabulate(sel, ModelRatio(), CompletionRatio(), CacheRatio());
    forall m ensures RatiosFor(sel, r, m) { TablesHold(sel, m); }
  }

  lemma {:induction false} TablesHold(sel: map<string, Candidate>, m: string)
    ensures RatiosFor(sel, Tables(sel), m)
  {
    TableAt(sel, ModelRatio(), m);
    TableAt(sel, CompletionRatio(), m);
    TableAt(sel, CacheRatio(), m);
    if m in sel { RatiosMeaning(sel[m]); }
  }

  /** What a conversion has for a model: nothing where nobody has a price, and else the ratios of the best one. */
  ghost predicate ConvertsModel(data: map<string, map<string, Cost>>, r: Conversion, m: string)
    requires r.Ratios?
  {
    if exists p, x :: PricedAt(data, p, m, x) then exists c :: IsBestPrice(data, m, c) && HasRatios(r, m, c)
    else m !in r.model && m !in r.completion && m !in r.cache
  }

  /** The conversion of the candidates selected from the data. */
  ghost predicate IsConversion(data: map<string, map<string, Cost>>, r: Conversion) {
    if data == map[] then r == NoProviders
    else exists sel :: SelectsFrom(data, sel) && r == if sel == map[] then NoPrices else Tables(sel)
  }

  /** The data determines its conversion. */
  lemma {:induction false} ConversionIsUnique(data: map<string, map<string, Cost>>, q: Conversion, r: Conversion)
    requires IsConversion(data, q) && IsConversion(data, r)
    ensures q == r
  {
    if data != map[] {
      var a :| SelectsFrom(data, a) && q == if a == map[] then NoPrices else Tables(a);
      var b :| SelectsFrom(data, b) && r == if b == map[] then NoPrices else Tables(b);
      SelectionIsUnique(data, a, b);
    }
  }

  /** Converting the same data again gives the same, in whatever order the models are visited. */
  method ConvertAgain(data: map<string, map<string, Cost>>) returns (q: Conversion, r: Conversion)
    ensures q == r
  {
    q := Convert(data);
    r := Convert(data);
    ConversionIsUnique(data, q, r);
  }

  /** `convertModelsDevToRatioData` on a decoded response. */
  method Convert(data: map<string, map<string, Cost>>) returns (r: Conversion)
    ensures IsConversion(data, r)
    ensures r.NoProviders? <==> data == map[]
    ensures r.NoPrices? <==> data != map[] && forall m, p, x :: !PricedAt(data, p, m, x)
    ensures r.Ratios? ==> forall m :: ConvertsModel(data, r, m)
  {
    if data == map[] {
      assert forall m, p, x :: !PricedAt(data, p, m, x);
      return NoProviders;
    }
    var sel := SelectCandidates(data);
    if sel == map[] {
      forall m, p, x ensures !PricedAt(data, p, m, x) { assert m !in sel; }
      return NoPrices;
    }
    ghost var some :| some in sel;
    r := RatiosOf(sel);
    forall m ensures ConvertsModel(data, r, m) {
      assert RatiosFor(sel, r, m);
    }
  }
}
