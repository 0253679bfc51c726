/** The model-mapping chain resolver, `resolveChannelMonitorUpstreamModel` (controller/channel-test.go). */
module ModelMapping {
  import opened Text

  /** The channel's mapping field: blank, unparsable, or a table of redirects. */
  datatype MappingField = Blank | Malformed | Table(entries: map<string, string>)

  datatype Resolution = Resolved(model: string) | Cycle | ParseFailure

  /** Where each model is redirected; the empty string stands for nowhere. */
  type Redirects = string -> string

  function RedirectsOf(entries: map<string, string>): Redirects {
    model => if model in entries then Trim(entries[model]) else ""
  }

  /** Unmapped, mapped to blank, or mapped to itself. */
  predicate Terminal(next: Redirects, model: string) {
    next(model) == "" || next(model) == model
  }

  /** The model n redirects along the chain, which stands still once it is terminal. */
  function Chain(next: Redirects, start: string, n: nat): string {
    if n == 0 then start
    else
      var m := Chain(next, start, n - 1);
      if Terminal(next, m) then m else next(m)
  }

  ghost predicate ReachesTerminal(next: Redirects, start: string, model: string) {
    Terminal(next, model) && exists n: nat :: Chain(next, start, n) == model
  }

  /** The chain comes back, after two or more redirects, to a model it has to leave again. */
  ghost predicate EntersCycle(next: Redirects, start: string) {
    exists i: nat, j: nat :: Recurs(next, start, i, j)
  }

  ghost predicate Recurs(next: Redirects, start: string, i: nat, j: nat) {
    && i + 2 <= j
    && Chain(next, start, i) == Chain(next, start, j)
    && !Terminal(next, Chain(next, start, i))
  }

  lemma {:induction false} StaysTerminal(next: Redirects, start: string, n: nat, m: nat)
    requires n <= m && Terminal(next, Chain(next, start, n))
    ensures Chain(next, start, m) == Chain(next, start, n)
    decreases m
  {
    if n < m { StaysTerminal(next, start, n, m - 1); }
  }

  lemma {:induction false} Shift(next: Redirects, start: string, i: nat, j: nat, k: nat)
    requires Chain(next, start, i) == Chain(next, start, j)
    ensures Chain(next, start, i + k) == Chain(next, start, j + k)
  {
    if k > 0 { Shift(next, start, i, j, k - 1); }
  }

  /** A recurring model recurs for ever. */
  lemma {:induction false} RecursForever(next: Redirects, start: string, i: nat, j: nat, t: nat)
    requires Recurs(next, start, i, j)
    ensures Chain(next, start, i + t * (j - i)) == Chain(next, start, i)
    ensures i + t * (j - i) >= t
  {
    if t > 0 {
      RecursForever(next, start, i, j, t - 1);
      var k := (t - 1) * (j - i);
      Shift(next, start, i, j, k);
      assert j + k == i + t * (j - i);
    }
  }

  /** A chain that enters a cycle never reaches a terminal model. */
  lemma {:induction false} CycleHasNoExit(next: Redirects, start: string, i: nat, j: nat, n: nat)
    requires Recurs(next, start, i, j)
    ensures !Terminal(next, Chain(next, start, n))
  {
    RecursForever(next, start, i, j, n);
    if Terminal(next, Chain(next, start, n)) {
      StaysTerminal(next, start, n, i + n * (j - i));
    }
  }

  lemma {:induction false} TerminalIsUnique(next: Redirects, start: string, a: string, b: string)
    requires ReachesTerminal(next, start, a) && ReachesTerminal(next, start, b)
    ensures a == b
  {
    var n: nat :| Chain(next, start, n) == a;
    var m: nat :| Chain(next, start, m) == b;
    StaysTerminal(next, start, if m < n then m else n, if m < n then n else m);
  }

  /** A chain reaches at most one terminal model, and none once it enters a cycle. */
  lemma {:induction false} OutcomesExclude(next: Redirects, start: string)
    ensures forall a, b :: ReachesTerminal(next, start, a) && ReachesTerminal(next, start, b) ==> a == b
    ensures EntersCycle(next, start) ==> forall a :: !ReachesTerminal(next, start, a)
  {
    forall a, b | ReachesTerminal(next, start, a) && ReachesTerminal(next, start, b) ensures a == b {
      TerminalIsUnique(next, start, a, b);
    }
    if i: nat, j: nat :| Recurs(next, start, i, j) {
      forall a ensures !ReachesTerminal(next, start, a) {
        if n: nat :| Chain(next, start, n) == a { CycleHasNoExit(next, start, i, j, n); }
      }
    }
  }

  /** Follow the redirects from a model to their end. */
  method FollowRedirects(entries: map<string, string>, start: string) returns (r: Resolution)
    ensures !r.ParseFailure?
    ensures r.Cycle? ==> EntersCycle(RedirectsOf(entries), start)
    ensures r.Resolved? ==> ReachesTerminal(RedirectsOf(entries), start, r.model)
  {
    ghost var next := RedirectsOf(entries);
    var current := start;
    var visited := {start};
    ghost var universe := {start} + set m | m in entries :: Trim(entries[m]);
    ghost var path := [start];
    var cyclic := false;
    while true
      invariant IsPath(next, start, path) && current == path[|path|-1] && !cyclic
      invariant visited <= universe && forall m :: m in visited <==> m in path
      decreases universe - visited
    {
      var mapped := if current in entries then Trim(entries[current]) else "";
      assert mapped == next(current);
      if mapped == "" { break; }
      if mapped in visited {
        if mapped == current { break; }
        ghost var i :| 0 <= i < |path| && path[i] == mapped;
        BackEdge(next, start, path, i);
        cyclic := true;
        break;
      }
      PathGrows(next, start, path);
      visited := visited + {mapped};
      current := mapped;
      path := path + [mapped];
    }
    if cyclic { return Cycle; }
    assert current == Chain(next, start, |path| - 1);
    return Resolved(current);
  }

  method ResolveUpstreamModel(field: MappingField, testModel: string) returns (r: Resolution)
    ensures field.Blank? ==> r == Resolved(Trim(testModel))
    ensures field.Malformed? <==> r.ParseFailure?
    ensures field.Table? ==>
              forall model :: r == Resolved(model) <==>
                LeadsTo(field.entries, Trim(testModel), model) && EndsAt(field.entries, model)
    ensures field.Table? ==> (r.Cycle? <==> Circles(field.entries, Trim(testModel)))
  {
    var start := Trim(testModel);
    match field
    case Blank => r := Resolved(start);
    case Malformed => r := ParseFailure;
    case Table(entries) =>
      r := FollowRedirects(entries, start);
      OutcomesExclude(RedirectsOf(entries), start);
      CirclesIff(entries, start);
      forall model
        ensures ReachesTerminal(RedirectsOf(entries), start, model) <==> LeadsTo(entries, start, model) && EndsAt(entries, model)
      {
        ReachesIff(entries, start, model);
      }
  }

  // ----- the same, read off the table -----

  /** Models each of which the table redirects to the next. */
  ghost predicate IsRedirectPath(entries: map<string, string>, path: seq<string>) {
    && path != []
    && forall i :: 0 <= i < |path| - 1 ==> RedirectsTo(entries, path[i], path[i+1])
  }

  ghost predicate RedirectsTo(entries: map<string, string>, a: string, b: string) {
    a in entries && b != "" && b == Trim(entries[a])
  }

  ghost predicate LeadsTo(entries: map<string, string>, start: string, model: string) {
    exists path :: IsRedirectPath(entries, path) && path[0] == start && path[|path|-1] == model
  }

  /** Not in the table, redirected to blank, or redirected to itself. */
  ghost predicate EndsAt(entries: map<string, string>, model: string) {
    model !in entries || Trim(entries[model]) == "" || Trim(entries[model]) == model
  }

  /** Redirects from the start come back to a model that is redirected to another one. */
  ghost predicate Circles(entries: map<string, string>, start: string) {
    exists path, i, j :: CirclesOn(entries, start, path, i, j)
  }

  ghost predicate CirclesOn(entries: map<string, string>, start: string, path: seq<string>, i: int, j: int) {
    && IsRedirectPath(entries, path) && path[0] == start
    && 0 <= i < j < |path| && path[i] == path[j] && path[i] != path[i+1]
  }

  /** The chain is a path of the table. */
  lemma {:induction false} ChainIsPath(entries: map<string, string>, start: string, n: nat) returns (path: seq<string>)
    ensures var next := RedirectsOf(entries);
            IsRedirectPath(entries, path) && path[0] == start && path[|path|-1] == Chain(next, start, n)
  {
    var next := RedirectsOf(entries);
    if n == 0 {
      path := [start];
    } else {
      path := ChainIsPath(entries, start, n - 1);
      var m := Chain(next, start, n - 1);
      if !Terminal(next, m) {
        path := path + [next(m)];
      }
    }
  }

  /** As long as it meets no terminal model, step by step. */
  lemma {:induction false} ChainStepByStep(entries: map<string, string>, start: string, n: nat) returns (path: seq<string>)
    requires forall k: nat :: k < n ==> !Terminal(RedirectsOf(entries), Chain(RedirectsOf(entries), start, k))
    ensures IsRedirectPath(entries, path) && |path| == n + 1
    ensures forall k :: 0 <= k <= n ==> path[k] == Chain(RedirectsOf(entries), start, k)
  {
    path := Links(RedirectsOf(entries), start, n);
    forall i | 0 <= i < n ensures RedirectsTo(entries, path[i], path[i+1]) { ChainRedirects(entries, start, i); }
  }

  /** The first links of a chain. */
  function Links(next: Redirects, start: string, n: nat): (path: seq<string>)
    ensures |path| == n + 1 && forall k :: 0 <= k <= n ==> path[k] == Chain(next, start, k)
  {
    if n == 0 then [start] else Links(next, start, n - 1) + [Chain(next, start, n)]
  }

  lemma {:induction false} ChainRedirects(entries: map<string, string>, start: string, n: nat)
    requires !Terminal(RedirectsOf(entries), Chain(RedirectsOf(entries), start, n))
    ensures RedirectsTo(entries, Chain(RedirectsOf(entries), start, n), Chain(RedirectsOf(entries), start, n + 1))
  {
    OneStep(RedirectsOf(entries), start, n, Chain(RedirectsOf(entries), start, n));
  }

  /** A path of the table follows the chain, which stands still where the path repeats a model. */
  lemma {:induction false} PathFollowsChain(entries: map<string, string>, start: string, path: seq<string>, k: nat) returns (n: nat)
    requires IsRedirectPath(entries, path) && path[0] == start && k < |path|
    ensures Chain(RedirectsOf(entries), start, n) == path[k]
  {
    n := 0;
    if k > 0 {
      n := PathFollowsChain(entries, start, path, k - 1);
      assert RedirectsTo(entries, path[k-1], path[k]);
      if !Terminal(RedirectsOf(entries), path[k-1]) {
        OneStep(RedirectsOf(entries), start, n, path[k-1]);
        n := n + 1;
      }
    }
  }

  lemma {:induction false} ReachesIff(entries: map<string, string>, start: string, model: string)
    ensures ReachesTerminal(RedirectsOf(entries), start, model) <==> LeadsTo(entries, start, model) && EndsAt(entries, model)
  {
    var next := RedirectsOf(entries);
    assert Terminal(next, model) <==> EndsAt(entries, model);
    if ReachesTerminal(next, start, model) {
      var n: nat :| Chain(next, start, n) == model;
      var path := ChainIsPath(entries, start, n);
    }
    if LeadsTo(entries, start, model) {
      var path :| IsRedirectPath(entries, path) && path[0] == start && path[|path|-1] == model;
      var n := PathFollowsChain(entries, start, path, |path| - 1);
    }
  }

  /** Along a path that comes back to a model with another successor, no model is terminal. */
  lemma {:induction false} NothingEndsOnCircle(entries: map<string, string>, start: string, path: seq<string>, i: nat, j: nat, k: nat)
    requires CirclesOn(entries, start, path, i, j) && i <= k <= j
    ensures !Terminal(RedirectsOf(entries), path[k])
    decreases j - k
  {
    assert RedirectsTo(entries, path[i], path[i+1]);
    if k < j {
      assert RedirectsTo(entries, path[k], path[k+1]);
      NothingEndsOnCircle(entries, start, path, i, j, k + 1);
    }
  }

  ghost predicate StepsOn(next: Redirects, path: seq<string>, k: nat)
    requires k + 1 < |path|
  {
    !Terminal(next, path[k]) && path[k+1] == next(path[k])
  }

  lemma {:induction false} OneStep(next: Redirects, start: string, n: nat, m: string)
    requires Chain(next, start, n) == m && !Terminal(next, m)
    ensures Chain(next, start, n + 1) == next(m)
  {
  }

  lemma {:induction false} StretchOfChain(next: Redirects, start: string, path: seq<string>, i: nat, k: nat, a: nat)
    requires i <= k < |path| && Chain(next, start, a) == path[i]
    requires forall t :: i <= t < k ==> StepsOn(next, path, t)
    ensures Chain(next, start, a + (k - i)) == path[k]
    decreases k
  {
    if k > i {
      StretchOfChain(next, start, path, i, k - 1, a);
      assert StepsOn(next, path, k - 1);
      OneStep(next, start, a + (k - 1 - i), path[k-1]);
    }
  }

  lemma {:induction false} CirclesIff(entries: map<string, string>, start: string)
    ensures EntersCycle(RedirectsOf(entries), start) <==> Circles(entries, start)
  {
    var next := RedirectsOf(entries);
    if EntersCycle(next, start) {
      var i: nat, j: nat :| Recurs(next, start, i, j);
      forall k: nat ensures !Terminal(next, Chain(next, start, k)) { CycleHasNoExit(next, start, i, j, k); }
      var path := ChainStepByStep(entries, start, j);
      assert RedirectsTo(entries, path[i], path[i+1]) && path[i] == path[j];
      assert CirclesOn(entries, start, path, i, j);
    }
    if path, i, j :| CirclesOn(entries, start, path, i, j) {
      var a := PathFollowsChain(entries, start, path, i);
      forall k | i <= k < j ensures StepsOn(next, path, k) {
        NothingEndsOnCircle(entries, start, path, i, j, k);
        assert RedirectsTo(entries, path[k], path[k+1]);
      }
      StretchOfChain(next, start, path, i, j, a);
      assert StepsOn(next, path, i);
      assert Recurs(next, start, a, a + (j - i));
    }
  }

  /** The models visited so far, in order. */
  ghost predicate IsPath(next: Redirects, start: string, path: seq<string>) {
    path != [] && forall i :: 0 <= i < |path| ==> path[i] == Chain(next, start, i)
  }

  lemma {:induction false} PathGrows(next: Redirects, start: string, path: seq<string>)
    requires IsPath(next, start, path) && !Terminal(next, path[|path|-1])
    ensures IsPath(next, start, path + [next(path[|path|-1])])
  {
    var n := |path|;
    assert path[n-1] == Chain(next, start, n - 1);
    assert Chain(next, start, n) == next(path[n-1]);
  }

  /** Coming back to an earlier model closes a cycle. */
  lemma {:induction false} BackEdge(next: Redirects, start: string, path: seq<string>, i: nat)
    requires IsPath(next, start, path) && !Terminal(next, path[|path|-1])
    requires i < |path| && path[i] == next(path[|path|-1]) && path[i] != path[|path|-1]
    ensures EntersCycle(next, start)
  {
    var n := |path|;
    PathGrows(next, start, path);
    var longer := path + [path[i]];
    assert longer[n] == Chain(next, start, n) && path[n-1] == Chain(next, start, n - 1);
    if Terminal(next, path[i]) { StaysTerminal(next, start, i, n - 1); }
    assert Recurs(next, start, i, n);
  }
}
