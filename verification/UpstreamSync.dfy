/**
 The upstream-model protocol: detect the difference between a channel's model list and its upstream,
 stage it, and apply what an administrator selects (controller/channel_upstream_update.go).
 */
module UpstreamSync {
  import opened Text
  import opened ModelNames
  import Runs

  /** What the steps persist: the stored model list, the ignore list and the two staged lists. */
  datatype Sync = Sync(models: string, ignored: seq<string>, detected: seq<string>, removed: seq<string>)

  /** What the upstream offers, the channel's redirects, and regular-expression matching. */
  datatype World = World(upstream: seq<string>, mapping: map<string, string>, matches: (string, string) -> bool)

  const REGEX := "regex:"

  /** An entry of the ignore list covers a name. */
  predicate Hits(entry: string, name: string, matches: (string, string) -> bool) {
    if REGEX <= entry then matches(Trim(entry[|REGEX|..]), name) else entry == name
  }

  predicate Ignored(entries: seq<string>, name: string, matches: (string, string) -> bool) {
    exists i :: 0 <= i < |entries| && Hits(entries[i], name, matches)
  }

  /** An upstream name nothing local covers. */
  function AddWanted(w: World, local: seq<string>, ignored: seq<string>): string -> bool {
    n => n !in local && n !in w.mapping.Values && !Ignored(ignored, n, w.matches)
  }

  /** A local name that is no redirect and has gone from upstream. */
  function RemoveWanted(w: World, upstream: seq<string>): string -> bool {
    n => n !in w.mapping && n !in upstream
  }

  /** `collectPendingUpstreamModelChangesFromModels`: the names to add. */
  function PendingAdds(w: World, local: seq<string>, ignored: seq<string>): seq<string> {
    Keep(Normalize(w.upstream), AddWanted(w, local, Normalize(ignored)))
  }

  /** ... and the names to remove. */
  function PendingRemoves(w: World, local: seq<string>): seq<string> {
    Keep(local, RemoveWanted(w, Normalize(w.upstream)))
  }

  /** `checkAndPersistChannelUpstreamModelUpdates` after a successful fetch. */
  function Detect(s: Sync, w: World, autoSync: bool): Sync {
    var local := Local(s.models);
    var adds := PendingAdds(w, local, s.ignored);
    var removes := PendingRemoves(w, local);
    if autoSync && adds != [] then
      var merged := Merge(local, adds);
      s.(models := if |merged| > |local| then Join(merged, ',') else s.models, detected := [], removed := removes)
    else
      s.(detected := adds, removed := removes)
  }

  /** What an administrator selects. */
  datatype Selection = Selection(add: seq<string>, ignore: seq<string>, remove: seq<string>)

  /** What an apply step reports back. */
  datatype Report = Report(
    added: seq<string>, ignored: seq<string>, removed: seq<string>,
    remaining: seq<string>, remainingRemoves: seq<string>)

  function ReportOf(s: Sync, sel: Selection): Report {
    var added := Intersect(sel.add, s.detected);
    var ignored := Intersect(sel.ignore, s.detected);
    var removed := Subtract(Intersect(sel.remove, s.removed), added);
    Report(added, ignored, removed,
           Subtract(s.detected, added + ignored), Subtract(s.removed, removed))
  }

  /** `applySelectedModelChanges`. */
  function ApplySelected(origin: seq<string>, add: seq<string>, remove: seq<string>): seq<string> {
    Subtract(Merge(origin, Normalize(add)), Subtract(Normalize(remove), Normalize(add)))
  }

  /** A name is in the new list if it was and is not removed, or is added; adding wins over removing. */
  lemma {:induction false} ApplySelectedMembers(origin: seq<string>, add: seq<string>, remove: seq<string>)
    ensures IsNames(ApplySelected(origin, add, remove))
    ensures forall n :: n in ApplySelected(origin, add, remove) <==>
                        (n in Normalize(origin) && n !in Normalize(remove)) || n in Normalize(add)
  {
    NormalizeIsNames(add);
    NormalizeIsNames(remove);
    NormalizeIdentity(Normalize(add));
    NormalizeIdentity(Normalize(remove));
    var dropped := Subtract(Normalize(remove), Normalize(add));
    SubtractIsDifference(Normalize(remove), Normalize(add));
    NormalizeIdentity(dropped);
    var merged := Merge(origin, Normalize(add));
    MergeIsUnion(origin, Normalize(add));
    NormalizeIdentity(merged);
    SubtractIsDifference(merged, dropped);
  }

  /** `applyChannelUpstreamModelUpdates`. */
  function Apply(s: Sync, sel: Selection): Sync {
    var r := ReportOf(s, sel);
    var origin := Local(s.models);
    var next := ApplySelected(origin, r.added, r.removed);
    var merged := Merge(s.ignored, r.ignored);
    Sync(if next != origin then Join(next, ',') else s.models,
         if r.added != [] then Subtract(merged, r.added) else merged,
         r.remaining,
         r.remainingRemoves)
  }

  predicate ChangesModels(s: Sync, sel: Selection) {
    var r := ReportOf(s, sel);
    Local(s.models) != ApplySelected(Local(s.models), r.added, r.removed)
  }

  function Applied(s: Sync, sel: Selection): (Sync, Report, bool) {
    (Apply(s, sel), ReportOf(s, sel), ChangesModels(s, sel))
  }

  // ----- the channel that carries the state -----

  method DetectOnce(s: Sync, w: World, autoSync: bool) returns (t: Sync, autoAdded: nat)
    ensures t == Detect(s, w, autoSync) && t.ignored == s.ignored
    ensures autoAdded == 0 ==> t.models == s.models
    ensures autoAdded == if autoSync then |PendingAdds(w, Local(s.models), s.ignored)| else 0
  {
    t, autoAdded := s, 0;
    var local := Local(s.models);
    var pendingAdds := PendingAdds(w, local, s.ignored);
    var pendingRemoves := PendingRemoves(w, local);
    if autoSync && |pendingAdds| > 0 {
      var merged := MergeModelNames(local, pendingAdds);
      LocalIsNames(s.models);
      PendingMembers(w, local, s.ignored);
      MergeAppends(local, pendingAdds);
      if |merged| > |local| {
        t := t.(models := Join(merged, ','));
        autoAdded := |merged| - |local|;
      }
      t := t.(detected := []);
    } else {
      t := t.(detected := pendingAdds);
    }
    t := t.(removed := pendingRemoves);
  }

  method ApplyOnce(s: Sync, sel: Selection) returns (t: Sync, r: Report, changed: bool)
    ensures (t, r, changed) == Applied(s, sel)
  {
    r := ReportOf(s, sel);
    var origin := Local(s.models);
    var next := ApplySelected(origin, r.added, r.removed);
    changed := origin != next;
    var models := if changed then Join(next, ',') else s.models;
    var ignored := MergeModelNames(s.ignored, r.ignored);
    if |r.added| > 0 { ignored := Subtract(ignored, r.added); }
    t := Sync(models, ignored, r.remaining, r.remainingRemoves);
  }

  class Channel {
    var state: Sync             // the stored models and the channel's update settings
    var lastCheck: int
    var autoSyncEnabled: bool

    /** `checkAndPersistChannelUpstreamModelUpdates`; `fetched` is false when the upstream cannot be read. */
    method CheckAndPersist(w: World, fetched: bool, now: int, force: bool, minInterval: int, allowAutoApply: bool)
      returns (modelsChanged: bool, autoAdded: nat)
      modifies `state, `lastCheck
      ensures var skipped := !force && old(lastCheck) > 0 && now - old(lastCheck) < minInterval;
              && state == (if skipped || !fetched then old(state)
                           else Detect(old(state), w, allowAutoApply && autoSyncEnabled))
              && lastCheck == (if skipped then old(lastCheck) else now)
      ensures var passed := (force || old(lastCheck) <= 0 || now - old(lastCheck) >= minInterval) && fetched;
              autoAdded == if passed && allowAutoApply && autoSyncEnabled
                           then |PendingAdds(w, Local(old(state).models), old(state).ignored)| else 0
      ensures modelsChanged <==> autoAdded > 0
      ensures !modelsChanged ==> state.models == old(state).models
    {
      modelsChanged, autoAdded := false, 0;
      if !force && lastCheck > 0 && now - lastCheck < minInterval { return; }
      lastCheck := now;
      if !fetched { return; }
      var next;
      next, autoAdded := DetectOnce(state, w, allowAutoApply && autoSyncEnabled);
      modelsChanged := autoAdded > 0;
      state := next;
    }

    /** `applyChannelUpstreamModelUpdates`. */
    method ApplyUpdates(sel: Selection, now: int) returns (r: Report, modelsChanged: bool)
      modifies `state, `lastCheck
      ensures (state, r, modelsChanged) == Applied(old(state), sel)
      ensures lastCheck == now
    {
      var next;
      next, r, modelsChanged := ApplyOnce(state, sel);
      state := next;
      lastCheck := now;
    }

    method TakeStep(step: Step, now: int)
      requires step.Checked? && step.autoSync ==> autoSyncEnabled
      modifies `state, `lastCheck
      ensures state == Next(old(state), step)
    {
      match step {
        case Checked(w, auto) => var _, _ := CheckAndPersist(w, true, now, true, 0, auto);
        case FetchFailed => var _, _ := CheckAndPersist(World([], map[], (p, n) => false), false, now, true, 0, true);
        case Edited(models) => state := state.(models := models);
        case Selected(sel) => var _, _ := ApplyUpdates(sel, now);
      }
    }

    /** Any run of checks, edits and applies takes the channel where the run on its state leads. */
    method Drive(steps: seq<Step>, now: int)
      requires forall i :: 0 <= i < |steps| && steps[i].Checked? && steps[i].autoSync ==> autoSyncEnabled
      modifies `state, `lastCheck
      ensures state == After(old(state), steps)
      decreases steps
    {
      if steps != [] {
        TakeStep(steps[0], now);
        Drive(steps[1..], now);
      }
    }
  }

  // ----- what detection stages -----

  lemma {:induction false} PendingMembers(w: World, local: seq<string>, ignored: seq<string>)
    requires IsNames(local)
    ensures var adds := PendingAdds(w, local, ignored);
            IsNames(adds) && forall n :: n in adds <==> n in Normalize(w.upstream) && AddWanted(w, local, Normalize(ignored))(n)
    ensures var removes := PendingRemoves(w, local);
            IsNames(removes) && forall n :: n in removes <==> n in local && RemoveWanted(w, Normalize(w.upstream))(n)
  {
    NormalizeIsNames(w.upstream);
    KeepMembers(Normalize(w.upstream), AddWanted(w, local, Normalize(ignored)));
    KeepMembers(local, RemoveWanted(w, Normalize(w.upstream)));
  }

  /** What the ignore list holds back: its own entries, but for patterns, and whatever a pattern matches. */
  ghost predicate Covered(entries: seq<string>, n: string, matches: (string, string) -> bool) {
    || (n in entries && !("regex:" <= n))
    || exists e :: e in entries && "regex:" <= e && matches(Trim(e[6..]), n)
  }

  lemma {:induction false} IgnoredIffCovered(entries: seq<string>, n: string, matches: (string, string) -> bool)
    ensures Ignored(entries, n, matches) <==> Covered(entries, n, matches)
  {
    if Ignored(entries, n, matches) {
      var i :| 0 <= i < |entries| && Hits(entries[i], n, matches);
      assert entries[i] in entries;
    }
    if e :| e in entries && (if "regex:" <= e then matches(Trim(e[6..]), n) else e == n) {
      var i :| 0 <= i < |entries| && entries[i] == e;
      assert Hits(entries[i], n, matches);
    }
  }

  /** Upstream offers the name, and neither the model list, a redirect target nor the ignore list covers it. */
  ghost predicate ToAdd(w: World, local: seq<string>, ignored: seq<string>, n: string) {
    && n in Normalize(w.upstream) && n !in local
    && (forall k :: k in w.mapping ==> w.mapping[k] != n)
    && !Covered(Normalize(ignored), n, w.matches)
  }

  /** A local name that upstream does not offer and that is no redirect source. */
  ghost predicate ToRemove(w: World, local: seq<string>, n: string) {
    n in local && n !in w.mapping && n !in Normalize(w.upstream)
  }

  /** Exactly those names are pending, in upstream's order and in the order of the model list. */
  lemma {:induction false} PendingMeans(w: World, local: seq<string>, ignored: seq<string>)
    requires IsNames(local)
    ensures var adds := PendingAdds(w, local, ignored);
            && IsNames(adds) && KeepsOrder(adds, Normalize(w.upstream))
            && forall n :: n in adds <==> ToAdd(w, local, ignored, n)
    ensures var removes := PendingRemoves(w, local);
            && IsNames(removes) && KeepsOrder(removes, local)
            && forall n :: n in removes <==> ToRemove(w, local, n)
  {
    PendingMembers(w, local, ignored);
    KeepKeepsOrder(Normalize(w.upstream), AddWanted(w, local, Normalize(ignored)));
    KeepKeepsOrder(local, RemoveWanted(w, Normalize(w.upstream)));
    forall n ensures Ignored(Normalize(ignored), n, w.matches) <==> Covered(Normalize(ignored), n, w.matches) {
      IgnoredIffCovered(Normalize(ignored), n, w.matches);
    }
    forall n ensures n in w.mapping.Values <==> exists k :: k in w.mapping && w.mapping[k] == n {
    }
  }

  /**
   What a detection leaves behind.  A plain one stages the pending names and nothing else; an automatic pass takes
   the additions into the model list instead, behind the names that were there, and leaves none staged.  What is
   read back of an added name are its pieces between commas.
   */
  lemma {:induction false} DetectMeans(s: Sync, w: World, autoSync: bool)
    ensures var t, local := Detect(s, w, autoSync), Local(s.models);
            && t.ignored == s.ignored
            && KeepsOrder(t.removed, local) && (forall n :: n in t.removed <==> ToRemove(w, local, n))
            && (!autoSync ==>
                  && t.models == s.models && KeepsOrder(t.detected, Normalize(w.upstream))
                  && forall n :: n in t.detected <==> ToAdd(w, local, s.ignored, n))
            && (autoSync ==>
                  && t.detected == []
                  && t.models == (if PendingAdds(w, local, s.ignored) == [] then s.models
                                  else Join(local + PendingAdds(w, local, s.ignored), ','))
                  && Local(t.models) == Normalize(AllPieces(local + PendingAdds(w, local, s.ignored), ','))
                  && forall n :: n in Local(t.models) <==>
                       n in local || exists m :: ToAdd(w, local, s.ignored, m) && PieceOf(m, n))
  {
    var local := Local(s.models);
    LocalIsNames(s.models);
    PendingMeans(w, local, s.ignored);
    if autoSync {
      if PendingAdds(w, local, s.ignored) != [] { AutoSyncModels(s, w); }
      AutoSyncReadsBack(s, w);
      forall n ensures n in Local(Detect(s, w, true).models) <==>
                         n in local || exists m :: ToAdd(w, local, s.ignored, m) && PieceOf(m, n)
      {
        AutoSyncNames(s, w, n);
      }
    }
  }

  /** A list read from storage reads back as itself. */
  lemma {:induction false} LocalReadsBack(models: string)
    ensures Local(models) == Normalize(AllPieces(Local(models), ','))
  {
    LocalIsNames(models);
    LocalIsCommaFree(models);
    AllPiecesPlain(Local(models), ',');
    NormalizeIdentity(Local(models));
  }

  lemma {:induction false} AutoSyncReadsBack(s: Sync, w: World)
    ensures var local := Local(s.models);
            Local(Detect(s, w, true).models) == Normalize(AllPieces(local + PendingAdds(w, local, s.ignored), ','))
  {
    var local := Local(s.models);
    var adds := PendingAdds(w, local, s.ignored);
    if adds == [] {
      assert local + adds == local;
      LocalReadsBack(s.models);
    } else {
      AutoSyncModels(s, w);
      StoredListReadsPieces(local + adds);
    }
  }

  /** The names among the pieces of two lists of which the first has no commas. */
  lemma {:induction false} PiecesBehind(local: seq<string>, adds: seq<string>, n: string)
    requires IsNames(local) && CommaFree(local)
    ensures n in Normalize(AllPieces(local + adds, ',')) <==> n in local || exists m :: m in adds && PieceOf(m, n)
  {
    var all := local + adds;
    StoredListReadsPieces(all);
    StoredNamesArePieces(all, n);
    forall m | m in local ensures PieceOf(m, n) <==> n == m {
      var i :| 0 <= i < |local| && local[i] == m;
      PlainPiece(m, n);
    }
    if m :| m in adds && PieceOf(m, n) { assert m in all; }
    if n in local { assert n in all && PieceOf(n, n); }
  }

  lemma {:induction false} AutoSyncNames(s: Sync, w: World, n: string)
    ensures var local := Local(s.models);
            n in Local(Detect(s, w, true).models) <==>
              n in local || exists m :: ToAdd(w, local, s.ignored, m) && PieceOf(m, n)
  {
    var local := Local(s.models);
    LocalIsNames(s.models);
    LocalIsCommaFree(s.models);
    PendingMeans(w, local, s.ignored);
    AutoSyncReadsBack(s, w);
    PiecesBehind(local, PendingAdds(w, local, s.ignored), n);
  }

  predicate Disjoint(a: seq<string>, b: seq<string>) {
    forall n :: n in a ==> n !in b
  }

  /** The staged lists are clean and have no name in common. */
  predicate Staged(s: Sync) {
    IsNames(s.detected) && IsNames(s.removed) && Disjoint(s.detected, s.removed)
  }

  lemma {:induction false} LocalIsNames(models: string)
    ensures IsNames(Local(models))
  {
    NormalizeIsNames(GetModels(models));
  }

  lemma {:induction false} DetectStages(s: Sync, w: World, autoSync: bool)
    ensures Staged(Detect(s, w, autoSync))
  {
    LocalIsNames(s.models);
    PendingMembers(w, Local(s.models), s.ignored);
  }

  // ----- what an apply step does with the staged lists -----

  lemma {:induction false} ConcatNormalizes(a: seq<string>, b: seq<string>)
    requires IsNames(a) && IsNames(b)
    ensures forall n :: n in Normalize(a + b) <==> n in a || n in b
  {
    var ab := a + b;
    TrimAllAppend([], ab);
    assert [] + ab == ab;
    UniqMembers(ab);
  }

  /**
   An apply step splits the staged additions into the remaining ones and those added or ignored, and the
   staged removals into the remaining ones and those removed; it touches nothing that was not staged.
   */
  lemma {:induction false} ApplySplitsStaged(s: Sync, sel: Selection)
    requires Staged(s)
    ensures var r := ReportOf(s, sel);
            && IsNames(r.added) && IsNames(r.ignored) && IsNames(r.removed)
            && IsNames(r.remaining) && IsNames(r.remainingRemoves)
            && r.remaining == Apply(s, sel).detected && r.remainingRemoves == Apply(s, sel).removed
            && (forall n :: n in s.detected <==> n in r.remaining || n in r.added || n in r.ignored)
            && (forall n :: n in r.remaining ==> n !in r.added && n !in r.ignored)
            && (forall n :: n in s.removed <==> n in r.remainingRemoves || n in r.removed)
            && (forall n :: n in r.remainingRemoves ==> n !in r.removed)
            && (forall n :: n in r.added <==> n in s.detected && n in Normalize(sel.add))
            && (forall n :: n in r.ignored <==> n in s.detected && n in Normalize(sel.ignore))
            && (forall n :: n in r.removed <==> n in s.removed && n in Normalize(sel.remove))
  {
    var r := ReportOf(s, sel);
    NormalizeIdentity(s.detected);
    NormalizeIdentity(s.removed);
    IntersectIsIntersection(sel.add, s.detected);
    IntersectIsIntersection(sel.ignore, s.detected);
    IntersectIsIntersection(sel.remove, s.removed);
    var chosen := Intersect(sel.remove, s.removed);
    NormalizeIdentity(chosen);
    NormalizeIdentity(r.added);
    SubtractIsDifference(chosen, r.added);
    NormalizeIdentity(r.removed);
    SubtractIsDifference(s.removed, r.removed);
    SubtractIsDifference(s.detected, r.added + r.ignored);
    ConcatNormalizes(r.added, r.ignored);
  }

  lemma {:induction false} IgnoredKeepsOrder(s: Sync, r: Report)
    ensures var merged := Merge(s.ignored, r.ignored);
            KeepsOrder(merged, merged) && KeepsOrder(Subtract(merged, r.added), merged)
  {
    var merged := Merge(s.ignored, r.ignored);
    MergeIsUnion(s.ignored, r.ignored);
    NormalizeIdentity(merged);
    SubtractIsDifference(merged, r.added);
  }

  /** What stays staged keeps its order; what is taken comes in the order of the selection. */
  lemma {:induction false} ApplyKeepsOrder(s: Sync, sel: Selection)
    requires Staged(s)
    ensures KeepsOrder(Apply(s, sel).detected, s.detected) && KeepsOrder(Apply(s, sel).removed, s.removed)
    ensures var r := ReportOf(s, sel);
            && KeepsOrder(r.added, Normalize(sel.add)) && KeepsOrder(r.ignored, Normalize(sel.ignore))
            && KeepsOrder(r.removed, Normalize(sel.remove)) && KeepsOrder(Apply(s, sel).ignored, Merge(s.ignored, r.ignored))
  {
    var r := ReportOf(s, sel);
    IgnoredKeepsOrder(s, r);
    NormalizeIdentity(s.detected);
    NormalizeIdentity(s.removed);
    IntersectIsIntersection(sel.add, s.detected);
    IntersectIsIntersection(sel.ignore, s.detected);
    IntersectIsIntersection(sel.remove, s.removed);
    var chosen := Intersect(sel.remove, s.removed);
    NormalizeIdentity(chosen);
    SubtractIsDifference(chosen, r.added);
    SubtractIsDifference(s.removed, r.removed);
    SubtractIsDifference(s.detected, r.added + r.ignored);
  }

  lemma {:induction false} ApplyKeepsStaged(s: Sync, sel: Selection)
    requires Staged(s)
    ensures Staged(Apply(s, sel))
  {
    ApplySplitsStaged(s, sel);
  }

  /** Taking names out of a merged list: those of the first part that stay, then those of the second. */
  lemma {:induction false} MergedWithout(origin: seq<string>, add: seq<string>, remove: seq<string>)
    requires IsNames(origin) && IsNames(add) && IsNames(remove) && Disjoint(add, remove)
    ensures ApplySelected(origin, add, remove) == Keep(origin, NotIn(remove)) + Keep(add, NotIn(origin))
  {
    NormalizeIdentity(origin);
    NormalizeIdentity(add);
    NormalizeIdentity(remove);
    KeepEverything(remove, NotIn(add));
    var behind := Keep(add, NotIn(origin));
    KeepMembers(add, NotIn(origin));
    MergeIsUnion(origin, add);
    NormalizeIdentity(origin + behind);
    KeepConcat(origin, behind, NotIn(remove));
    KeepEverything(behind, NotIn(remove));
  }

  /**
   The model list after an apply step, in order: the names that stay, then those that arrive, joined by commas
   unless that is the old list, and read back as their pieces between commas.
   */
  lemma {:induction false} ApplyOrder(s: Sync, sel: Selection) returns (stay: seq<string>, arrive: seq<string>)
    requires Staged(s)
    ensures IsNames(stay) && KeepsOrder(stay, Local(s.models))
    ensures forall n :: n in stay <==> n in Local(s.models) && !(n in s.removed && n in Normalize(sel.remove))
    ensures IsNames(arrive) && KeepsOrder(arrive, ReportOf(s, sel).added) && KeepsOrder(ReportOf(s, sel).added, Normalize(sel.add))
    ensures forall n :: n in arrive <==> TakesUp(s, sel, n) && n !in Local(s.models)
    ensures Apply(s, sel).models == if stay + arrive == Local(s.models) then s.models else Join(stay + arrive, ',')
    ensures Local(Apply(s, sel).models) == Normalize(AllPieces(stay + arrive, ','))
  {
    var r, local := ReportOf(s, sel), Local(s.models);
    ApplySplitsStaged(s, sel);
    LocalIsNames(s.models);
    IntersectIsIntersection(sel.add, s.detected);
    stay, arrive := Keep(local, NotIn(r.removed)), Keep(r.added, NotIn(local));
    KeepMembers(local, NotIn(r.removed));
    KeepKeepsOrder(local, NotIn(r.removed));
    KeepMembers(r.added, NotIn(local));
    KeepKeepsOrder(r.added, NotIn(local));
    MergedWithout(local, r.added, r.removed);
    StoredListReadsPieces(stay + arrive);
    if stay + arrive == local { LocalReadsBack(s.models); }
  }

  /** A piece of a name read back is that name. */
  lemma {:induction false} PieceOfLocal(models: string, m: string, n: string)
    requires m in Local(models) && PieceOf(m, n)
    ensures n == m
  {
    LocalIsNames(models);
    LocalIsCommaFree(models);
    var i :| 0 <= i < |Local(models)| && Local(models)[i] == m;
    PlainPiece(m, n);
  }

  lemma {:induction false} StayIsPlain(models: string, stay: seq<string>)
    requires forall n :: n in stay ==> n in Local(models)
    ensures forall i :: 0 <= i < |stay| ==> ',' !in stay[i]
  {
    LocalIsCommaFree(models);
    forall i | 0 <= i < |stay| ensures ',' !in stay[i] { assert stay[i] in stay; }
  }

  /** The names read back after an apply step: those that stay, and the pieces of those taken up. */
  lemma {:induction false} AppliedNames(s: Sync, sel: Selection, n: string)
    requires Staged(s)
    ensures n in Local(Apply(s, sel).models) <==>
              || (n in Local(s.models) && !(n in s.removed && n in Normalize(sel.remove)))
              || exists m :: TakesUp(s, sel, m) && PieceOf(m, n)
  {
    var local := Local(s.models);
    var stay, arrive := ApplyOrder(s, sel);
    StayIsPlain(s.models, stay);
    PiecesBehind(stay, arrive, n);
    if m :| TakesUp(s, sel, m) && PieceOf(m, n) && m in local { PieceOfLocal(s.models, m, n); }
  }

  /** The models change exactly when a name is added that was not there or one is removed that was. */
  lemma {:induction false} ChangesModelsIff(s: Sync, sel: Selection)
    requires Staged(s)
    ensures var r, local := ReportOf(s, sel), Local(s.models);
            ChangesModels(s, sel) <==> (exists n :: n in r.added && n !in local) || (exists n :: n in r.removed && n in local)
  {
    var r, local := ReportOf(s, sel), Local(s.models);
    var next := ApplySelected(local, r.added, r.removed);
    ApplySplitsStaged(s, sel);
    LocalIsNames(s.models);
    NormalizeIdentity(local);
    NormalizeIdentity(r.added);
    NormalizeIdentity(r.removed);
    ApplySelectedMembers(local, r.added, r.removed);
    if (forall n :: n in r.added ==> n in local) && (forall n :: n in r.removed ==> n !in local) {
      KeepNothing(r.added, NotIn(local));
      assert Merge(local, r.added) == local + [] == local;
      SubtractIsDifference(r.removed, r.added);
      NormalizeIdentity(Subtract(r.removed, r.added));
      KeepEverything(local, NotIn(Subtract(r.removed, r.added)));
    }
  }

  /** A staged addition that is selected to be added. */
  ghost predicate TakesUp(s: Sync, sel: Selection, n: string) { n in s.detected && n in Normalize(sel.add) }

  /** What an apply step leaves behind, name by name; what is read back of an added name are its pieces. */
  lemma {:induction false} ApplyMeans(s: Sync, sel: Selection)
    requires Staged(s)
    ensures var t, local := Apply(s, sel), Local(s.models);
            && (forall n :: n in t.detected <==> n in s.detected && n !in Normalize(sel.add) && n !in Normalize(sel.ignore))
            && (forall n :: n in t.removed <==> n in s.removed && n !in Normalize(sel.remove))
            && (forall n :: n in t.ignored <==>
                  && (n in Normalize(s.ignored) || (n in s.detected && n in Normalize(sel.ignore)))
                  && !TakesUp(s, sel, n))
            && (forall n :: n in Local(t.models) <==>
                  || (n in local && !(n in s.removed && n in Normalize(sel.remove)))
                  || exists m :: TakesUp(s, sel, m) && PieceOf(m, n))
  {
    ApplySplitsStaged(s, sel);
    AppliedIgnored(s, sel);
    forall n ensures n in Local(Apply(s, sel).models) <==>
                       || (n in Local(s.models) && !(n in s.removed && n in Normalize(sel.remove)))
                       || exists m :: TakesUp(s, sel, m) && PieceOf(m, n)
    {
      AppliedNames(s, sel, n);
    }
  }

  lemma {:induction false} AppliedIgnored(s: Sync, sel: Selection)
    requires Staged(s)
    ensures var r := ReportOf(s, sel);
            forall n :: n in Apply(s, sel).ignored <==> (n in Normalize(s.ignored) || n in r.ignored) && n !in r.added
  {
    var r := ReportOf(s, sel);
    var merged := Merge(s.ignored, r.ignored);
    ApplySplitsStaged(s, sel);
    NormalizeIdentity(r.ignored);
    NormalizeIdentity(r.added);
    MergeIsUnion(s.ignored, r.ignored);
    NormalizeIdentity(merged);
    SubtractIsDifference(merged, r.added);
  }

  // ----- runs -----

  datatype Step =
    | Checked(world: World, autoSync: bool)      // a successful detection, automatic or not
    | FetchFailed
    | Edited(models: string)                     // the model list changed by other means
    | Selected(selection: Selection)             // an apply step

  function Next(s: Sync, step: Step): Sync {
    match step
    case Checked(w, auto) => Detect(s, w, auto)
    case FetchFailed => s
    case Edited(models) => s.(models := models)
    case Selected(sel) => Apply(s, sel)
  }

  function After(s: Sync, steps: seq<Step>): Sync {
    Runs.Fold(Next, s, steps)
  }

  lemma {:induction false} StepKeepsStaged(s: Sync, step: Step)
    requires Staged(s)
    ensures Staged(Next(s, step))
  {
    match step
    case Checked(w, auto) => DetectStages(s, w, auto);
    case FetchFailed =>
    case Edited(models) =>
    case Selected(sel) => ApplyKeepsStaged(s, sel);
  }

  /** In every run, whatever the upstream does, staged additions and removals stay clean and disjoint. */
  lemma {:induction false} RunKeepsStaged(s: Sync, steps: seq<Step>)
    requires Staged(s)
    ensures Staged(After(s, steps))
    decreases steps
  {
    if steps != [] {
      StepKeepsStaged(s, steps[0]);
      RunKeepsStaged(Next(s, steps[0]), steps[1..]);
    }
  }

  // ----- names that leave, and names that arrive, over runs -----

  /** A detection drops no name, also when it stores the list with added names that hold commas. */
  lemma {:induction false} DetectDropsNothing(s: Sync, w: World, autoSync: bool, n: string)
    requires n in Local(s.models)
    ensures n in Local(Detect(s, w, autoSync).models)
  {
    if autoSync { AutoSyncNames(s, w, n); }
  }

  /** The step takes the name away: by an edit, or because it was staged for removal and is selected. */
  predicate TakesAway(s: Sync, step: Step, n: string) {
    match step
    case Edited(models) => n !in Local(models)
    case Selected(sel) => n in s.removed && n in Normalize(sel.remove)
    case _ => false
  }

  predicate TakenAwayOnTheWay(s: Sync, steps: seq<Step>, n: string)
    decreases steps
  {
    && steps != []
    && (TakesAway(s, steps[0], n) || TakenAwayOnTheWay(Next(s, steps[0]), steps[1..], n))
  }

  /** In every run a name leaves the model list only if some step takes it away. */
  lemma {:induction false} LeavesRunOnlyIfTaken(s: Sync, steps: seq<Step>, n: string)
    requires Staged(s) && n in Local(s.models) && n !in Local(After(s, steps).models)
    ensures TakenAwayOnTheWay(s, steps, n)
    decreases steps
  {
    if !TakesAway(s, steps[0], n) {
      StepKeepsName(s, steps[0], n);
      StepKeepsStaged(s, steps[0]);
      LeavesRunOnlyIfTaken(Next(s, steps[0]), steps[1..], n);
    }
  }

  lemma {:induction false} StepKeepsName(s: Sync, step: Step, n: string)
    requires Staged(s) && n in Local(s.models) && !TakesAway(s, step, n)
    ensures n in Local(Next(s, step).models)
  {
    match step
    case Checked(w, auto) => DetectDropsNothing(s, w, auto, n);
    case FetchFailed =>
    case Edited(models) =>
    case Selected(sel) =>
      AppliedNames(s, sel, n);
  }

  // ----- redirect sources and ignored names over runs -----

  /** Every detection of the run finds the name among the channel's redirect sources. */
  predicate AlwaysRedirected(steps: seq<Step>, n: string) {
    forall i :: 0 <= i < |steps| && steps[i].Checked? ==> n in steps[i].world.mapping
  }

  /** Some step edits the model list so that the name is not on it. */
  ghost predicate EditedAway(steps: seq<Step>, n: string) {
    exists i :: 0 <= i < |steps| && steps[i].Edited? && n !in Local(steps[i].models)
  }

  /** A redirect source is never staged for removal, so only an edit can take it off the model list. */
  lemma {:induction false} RedirectSourceStays(s: Sync, steps: seq<Step>, n: string)
    requires Staged(s) && n !in s.removed && AlwaysRedirected(steps, n)
    ensures n !in After(s, steps).removed
    ensures n in Local(s.models) && n !in Local(After(s, steps).models) ==> EditedAway(steps, n)
    decreases steps
  {
    if steps != [] {
      var next, rest := Next(s, steps[0]), steps[1..];
      StepKeepsStaged(s, steps[0]);
      RedirectSourceNotStaged(s, steps[0], n);
      assert forall i :: 0 <= i < |rest| ==> rest[i] == steps[i+1];
      RedirectSourceStays(next, rest, n);
      if EditedAway(rest, n) {
        var i :| 0 <= i < |rest| && rest[i].Edited? && n !in Local(rest[i].models);
        assert steps[i+1].Edited?;
      }
      if n in Local(s.models) && !TakesAway(s, steps[0], n) { StepKeepsName(s, steps[0], n); }
    }
  }

  lemma {:induction false} RedirectSourceNotStaged(s: Sync, step: Step, n: string)
    requires Staged(s) && n !in s.removed && (step.Checked? ==> n in step.world.mapping)
    ensures n !in Next(s, step).removed
  {
    match step
    case Checked(w, auto) => DetectMeans(s, w, auto);
    case FetchFailed =>
    case Edited(models) =>
    case Selected(sel) => ApplyMeans(s, sel);
  }

  /** The name is read back after the step and was not before; an edit is nobody's doing here. */
  ghost predicate Arrives(s: Sync, step: Step, n: string) {
    !step.Edited? && n in Local(Next(s, step).models) && n !in Local(s.models)
  }

  /** The step takes a name into the model list, as it is. */
  ghost predicate Takes(s: Sync, step: Step, m: string) {
    match step
    case Checked(w, auto) => auto && ToAdd(w, Local(s.models), s.ignored, m)
    case Selected(sel) => TakesUp(s, sel, m)
    case _ => false
  }

  /** Exactly the pieces of the names taken in arrive, if they were not there. */
  lemma {:induction false} ArrivesIff(s: Sync, step: Step, n: string)
    requires Staged(s)
    ensures Arrives(s, step, n) <==> n !in Local(s.models) && exists m :: Takes(s, step, m) && PieceOf(m, n)
  {
    match step
    case Checked(w, auto) =>
      if auto {
        AutoSyncNames(s, w, n);
        if m :| ToAdd(w, Local(s.models), s.ignored, m) && PieceOf(m, n) { assert Takes(s, step, m); }
      }
    case FetchFailed =>
    case Edited(models) =>
    case Selected(sel) =>
      AppliedNames(s, sel, n);
      if m :| TakesUp(s, sel, m) && PieceOf(m, n) { assert Takes(s, step, m); }
  }

  /** A new name that is one of several pieces of a name with a comma. */
  ghost predicate NewPiece(s: Sync, m: string, n: string) {
    ',' in m && PieceOf(m, n) && n !in Local(s.models)
  }

  /** Names that are taken in are clean. */
  lemma {:induction false} TakenIsClean(s: Sync, step: Step, m: string)
    requires Staged(s) && Takes(s, step, m)
    ensures m != "" && Trimmed(m) && (step.Checked? ==> m !in Local(s.models))
  {
    match step
    case Checked(w, auto) =>
      NormalizeIsNames(w.upstream);
      var i :| 0 <= i < |Normalize(w.upstream)| && Normalize(w.upstream)[i] == m;
    case Selected(sel) =>
      var i :| 0 <= i < |s.detected| && s.detected[i] == m;
  }

  /** So what arrives was taken in itself, or is a piece of a name with a comma. */
  lemma {:induction false} ArrivesAsItselfOrPiece(s: Sync, step: Step, n: string)
    requires Staged(s)
    ensures Arrives(s, step, n) <==>
              || (Takes(s, step, n) && ',' !in n && n !in Local(s.models))
              || exists m :: Takes(s, step, m) && NewPiece(s, m, n)
  {
    ArrivesIff(s, step, n);
    if Arrives(s, step, n) {
      var m :| Takes(s, step, m) && PieceOf(m, n);
      TakenIsClean(s, step, m);
      if ',' in m { assert NewPiece(s, m, n); } else { PlainPiece(m, n); }
    }
    if Takes(s, step, n) && ',' !in n {
      TakenIsClean(s, step, n);
      PlainPiece(n, n);
    }
    if m :| Takes(s, step, m) && NewPiece(s, m, n) { assert PieceOf(m, n); }
  }

  // ----- names that are ignored stay out, exactly when -----

  /** Some step brings the name into the model list. */
  ghost predicate ArrivesOnTheWay(s: Sync, steps: seq<Step>, n: string)
    decreases steps
  {
    steps != [] && (Arrives(s, steps[0], n) || ArrivesOnTheWay(Next(s, steps[0]), steps[1..], n))
  }

  /** Some step takes in a name with a comma of which this one is a piece. */
  ghost predicate SlipsInOnTheWay(s: Sync, steps: seq<Step>, n: string)
    decreases steps
  {
    && steps != []
    && ((exists m :: Takes(s, steps[0], m) && NewPiece(s, m, n)) || SlipsInOnTheWay(Next(s, steps[0]), steps[1..], n))
  }

  /**
   A name on the ignore list that is no pattern, and is not staged when the run begins, stays on the list and is
   never staged.  It enters the model list exactly when a step takes in a name with a comma that has it as a piece.
   */
  lemma {:induction false} IgnoredStaysIgnored(s: Sync, steps: seq<Step>, n: string)
    requires Staged(s) && n in Normalize(s.ignored) && !("regex:" <= n) && n !in s.detected
    ensures n in Normalize(After(s, steps).ignored) && n !in After(s, steps).detected
    ensures ArrivesOnTheWay(s, steps, n) <==> SlipsInOnTheWay(s, steps, n)
    decreases steps
  {
    if steps != [] {
      StepKeepsStaged(s, steps[0]);
      StepLeavesIgnored(s, steps[0], n);
      ArrivesAsItselfOrPiece(s, steps[0], n);
      IgnoredStaysIgnored(Next(s, steps[0]), steps[1..], n);
    }
  }

  lemma {:induction false} StepLeavesIgnored(s: Sync, step: Step, n: string)
    requires Staged(s) && n in Normalize(s.ignored) && !("regex:" <= n) && n !in s.detected
    ensures n in Normalize(Next(s, step).ignored) && n !in Next(s, step).detected && !Takes(s, step, n)
  {
    match step
    case Checked(w, auto) =>
      LocalIsNames(s.models);
      PendingMeans(w, Local(s.models), s.ignored);
    case FetchFailed =>
    case Edited(models) =>
    case Selected(sel) =>
      ApplySplitsStaged(s, sel);
      AppliedIgnored(s, sel);
      AppliedIgnoredIsNames(s, sel);
  }

  lemma {:induction false} AppliedIgnoredIsNames(s: Sync, sel: Selection)
    ensures Normalize(Apply(s, sel).ignored) == Apply(s, sel).ignored
  {
    var r := ReportOf(s, sel);
    var merged := Merge(s.ignored, r.ignored);
    MergeIsUnion(s.ignored, r.ignored);
    SubtractIsDifference(merged, r.added);
    NormalizeIdentity(Apply(s, sel).ignored);
  }

  /** No name that just arrived is on the ignore list. */
  ghost predicate AddsNothingIgnored(s: Sync, step: Step) {
    forall n :: Arrives(s, step, n) ==> n !in Normalize(Next(s, step).ignored)
  }

  /** Every pattern entry without commas that upstream offers as a name, and that nothing local covers, is itself held back. */
  ghost predicate PatternsHeldBack(s: Sync, w: World) {
    forall e :: e in Normalize(s.ignored) && OfferedPattern(s, w, e) ==> Covered(Normalize(s.ignored), e, w.matches)
  }

  ghost predicate OfferedPattern(s: Sync, w: World, e: string) {
    && "regex:" <= e && ',' !in e
    && e in Normalize(w.upstream) && e !in Local(s.models) && (forall k :: k in w.mapping ==> w.mapping[k] != e)
  }

  /** The name is on the ignore list once the step is done: it was or is put there, and is not taken up. */
  ghost predicate LeftIgnored(s: Sync, step: Step, n: string) {
    match step
    case Selected(sel) =>
      && (n in Normalize(s.ignored) || (n in s.detected && n in Normalize(sel.ignore)))
      && !TakesUp(s, sel, n)
    case _ => n in Normalize(s.ignored)
  }

  lemma {:induction false} AppliedLeavesIgnored(s: Sync, sel: Selection, n: string)
    requires Staged(s)
    ensures n in Normalize(Apply(s, sel).ignored) <==>
              && (n in Normalize(s.ignored) || (n in s.detected && n in Normalize(sel.ignore)))
              && !TakesUp(s, sel, n)
  {
    var r := ReportOf(s, sel);
    assert n in r.added <==> TakesUp(s, sel, n) by { ApplySplitsStaged(s, sel); }
    assert n in r.ignored <==> n in s.detected && n in Normalize(sel.ignore) by { ApplySplitsStaged(s, sel); }
    assert n in Apply(s, sel).ignored <==> (n in Normalize(s.ignored) || n in r.ignored) && n !in r.added by {
      AppliedIgnored(s, sel);
    }
    AppliedIgnoredIsNames(s, sel);
  }

  lemma {:induction false} LeftIgnoredIff(s: Sync, step: Step, n: string)
    requires Staged(s)
    ensures n in Normalize(Next(s, step).ignored) <==> LeftIgnored(s, step, n)
  {
    if step.Selected? { AppliedLeavesIgnored(s, step.selection, n); }
  }

  /**
   The ignore list is respected: an automatic pass lets no listed pattern through as a name, and no name with a
   comma that is taken in has a new piece that is left on the list.
   */
  ghost predicate RespectsIgnored(s: Sync, step: Step) {
    && (step.Checked? && step.autoSync ==> PatternsHeldBack(s, step.world))
    && forall m, n :: Takes(s, step, m) && NewPiece(s, m, n) ==> !LeftIgnored(s, step, n)
  }

  /** A name taken in as it is and left on the ignore list is a pattern that an automatic pass lets through. */
  lemma {:induction false} IgnoredAndTakenIff(s: Sync, step: Step, e: string)
    ensures Takes(s, step, e) && LeftIgnored(s, step, e) <==>
              && step.Checked? && step.autoSync && "regex:" <= e && e in Normalize(s.ignored)
              && e in Normalize(step.world.upstream) && e !in Local(s.models)
              && (forall k :: k in step.world.mapping ==> step.world.mapping[k] != e)
              && !Covered(Normalize(s.ignored), e, step.world.matches)
  {
  }

  /** A step leaves no name that arrives on the ignore list, if and only if so. */
  lemma {:induction false} StepAddsNothingIgnoredIff(s: Sync, step: Step)
    requires Staged(s)
    ensures AddsNothingIgnored(s, step) <==> RespectsIgnored(s, step)
  {
    forall n ensures n in Normalize(Next(s, step).ignored) <==> LeftIgnored(s, step, n) { LeftIgnoredIff(s, step, n); }
    if RespectsIgnored(s, step) {
      forall n | Arrives(s, step, n) ensures !LeftIgnored(s, step, n) {
        ArrivesAsItselfOrPiece(s, step, n);
        IgnoredAndTakenIff(s, step, n);
      }
    } else {
      SomethingIgnoredArrives(s, step);
    }
  }

  lemma {:induction false} SomethingIgnoredArrives(s: Sync, step: Step)
    requires Staged(s) && !RespectsIgnored(s, step)
    ensures exists n :: Arrives(s, step, n) && LeftIgnored(s, step, n)
  {
    if step.Checked? && step.autoSync && !PatternsHeldBack(s, step.world) {
      var w := step.world;
      var e :| e in Normalize(s.ignored) && OfferedPattern(s, w, e) && !Covered(Normalize(s.ignored), e, w.matches);
      IgnoredAndTakenIff(s, step, e);
      ArrivesAsItselfOrPiece(s, step, e);
    } else {
      var m, n :| Takes(s, step, m) && NewPiece(s, m, n) && LeftIgnored(s, step, n);
      ArrivesAsItselfOrPiece(s, step, n);
    }
  }

  ghost predicate RunAddsNothingIgnored(s: Sync, steps: seq<Step>)
    decreases steps
  {
    steps != [] ==> AddsNothingIgnored(s, steps[0]) && RunAddsNothingIgnored(Next(s, steps[0]), steps[1..])
  }

  ghost predicate RunRespectsIgnored(s: Sync, steps: seq<Step>)
    decreases steps
  {
    steps != [] ==> RespectsIgnored(s, steps[0]) && RunRespectsIgnored(Next(s, steps[0]), steps[1..])
  }

  /** In every run a name that just arrived is never left on the ignore list, if and only if every step respects it. */
  lemma {:induction false} RunAddsNothingIgnoredIff(s: Sync, steps: seq<Step>)
    requires Staged(s)
    ensures RunAddsNothingIgnored(s, steps) <==> RunRespectsIgnored(s, steps)
    decreases steps
  {
    if steps != [] {
      StepAddsNothingIgnoredIff(s, steps[0]);
      StepKeepsStaged(s, steps[0]);
      RunAddsNothingIgnoredIff(Next(s, steps[0]), steps[1..]);
    }
  }

  /** A lone upstream name that nothing covers is taken in by an automatic pass. */
  lemma {:induction false} LoneNameIsTaken(s: Sync, w: World, m: string)
    requires s.models == "" && w.upstream == [m] && w.mapping == map[] && IsNames([m])
    requires !Covered(Normalize(s.ignored), m, w.matches)
    ensures Local(s.models) == [] && Takes(s, Checked(w, true), m)
  {
    NormalizeIdentity([m]);
    NormalizeIdentity([]);
    assert [m][0] == m;
  }

  lemma {:induction false} LonePatternArrives(s: Sync, w: World, e: string)
    requires s.models == "" && s.ignored == w.upstream == [e] && s.detected == s.removed == []
    requires w.mapping == map[] && IsNames([e]) && ',' !in e && !Covered([e], e, w.matches)
    ensures e in Local(Detect(s, w, true).models) && e in Detect(s, w, true).ignored
  {
    NormalizeIdentity([e]);
    LoneNameIsTaken(s, w, e);
    ArrivesAsItselfOrPiece(s, Checked(w, true), e);
    assert [e][0] == e;
  }

  /** It does happen: an automatic pass adds a pattern offered as a name and leaves it on the ignore list. */
  lemma {:induction false} AutoPatternExample()
    ensures var s := Sync("", ["regex:x"], [], []);
            var t := Detect(s, World(["regex:x"], map[], (p, n) => false), true);
            "regex:x" in Local(t.models) && "regex:x" in t.ignored
  {
    LonePatternArrives(Sync("", ["regex:x"], [], []), World(["regex:x"], map[], (p, n) => false), "regex:x");
  }

  lemma {:induction false} PiecesOfAB()
    ensures ',' in "a,b" && PieceOf("a,b", "a") && IsNames(["a,b"]) && IsNames(["a"])
  {
    assert "a,b"[1] == ',' && "a,b" == "a" + [','] + "b";
    SplitAtSeparator("a", "b", ',');
    SplitWithoutSeparator("a", ',');
    TrimTrims("a");
    assert Split("a,b", ',')[0] == "a";
  }

  /** So does an ignored name that comes in as a piece: by an automatic pass, and by an apply step. */
  lemma {:induction false} IgnoredPieceExample()
    ensures var s := Sync("", ["a"], [], []);
            var t := Detect(s, World(["a,b"], map[], (p, n) => false), true);
            "a" in Local(t.models) && "a" in t.ignored
    ensures var s := Sync("", ["a"], ["a,b"], []);
            var t := Apply(s, Selection(["a,b"], [], []));
            "a" in Local(t.models) && "a" in t.ignored
  {
    AutoTakesAB();
    ApplyTakesAB();
  }

  lemma {:induction false} AutoPieceArrives(s: Sync, w: World, m: string, n: string)
    requires s.models == "" && s.ignored == [n] && s.detected == s.removed == []
    requires w.upstream == [m] && w.mapping == map[] && IsNames([m]) && IsNames([n])
    requires PieceOf(m, n) && !Covered([n], m, w.matches)
    ensures n in Local(Detect(s, w, true).models) && n in Detect(s, w, true).ignored
  {
    NormalizeIdentity([n]);
    LoneNameIsTaken(s, w, m);
    ArrivesIff(s, Checked(w, true), n);
    assert [n][0] == n;
  }

  lemma {:induction false} AutoTakesAB()
    ensures var s := Sync("", ["a"], [], []);
            var t := Detect(s, World(["a,b"], map[], (p, n) => false), true);
            "a" in Local(t.models) && "a" in t.ignored
  {
    var w := World(["a,b"], map[], (p, n) => false);
    PiecesOfAB();
    assert |"a"| != |"a,b"|;
    assert !Covered(["a"], "a,b", w.matches);
    AutoPieceArrives(Sync("", ["a"], [], []), w, "a,b", "a");
  }

  lemma {:induction false} AppliedPieceArrives(s: Sync, sel: Selection, m: string, n: string)
    requires s.models == "" && s.ignored == [n] && s.detected == sel.add == [m] && s.removed == []
    requires IsNames([m]) && IsNames([n]) && PieceOf(m, n) && n != m
    ensures n in Local(Apply(s, sel).models) && n in Apply(s, sel).ignored
  {
    NormalizeIdentity([m]);
    NormalizeIdentity([n]);
    NormalizeIdentity([]);
    assert [m][0] == m && [n][0] == n;
    assert TakesUp(s, sel, m) && !TakesUp(s, sel, n);
    assert n in Local(Apply(s, sel).models) by { AppliedNames(s, sel, n); }
    assert n in Apply(s, sel).ignored by {
      AppliedLeavesIgnored(s, sel, n);
      AppliedIgnoredIsNames(s, sel);
    }
  }

  lemma {:induction false} ApplyTakesAB()
    ensures var s := Sync("", ["a"], ["a,b"], []);
            var t := Apply(s, Selection(["a,b"], [], []));
            "a" in Local(t.models) && "a" in t.ignored
  {
    PiecesOfAB();
    assert |"a"| != |"a,b"|;
    AppliedPieceArrives(Sync("", ["a"], ["a,b"], []), Selection(["a,b"], [], []), "a,b", "a");
  }

  // ----- detection and application reach a fixpoint -----

  /**
   Every upstream name that only the ignore list holds back is still held back by the entries that are not
   themselves staged as names (applying an addition takes its name off the ignore list).
   */
  predicate PatternsSurvive(s: Sync, w: World) {
    var local := Local(s.models);
    var kept := Subtract(s.ignored, PendingAdds(w, local, s.ignored));
    forall n :: n in Normalize(w.upstream) && n !in local && n !in w.mapping.Values ==>
      Ignored(Normalize(s.ignored), n, w.matches) ==> Ignored(kept, n, w.matches)
  }

  /** This is so whenever no upstream name has the form of a pattern entry. */
  lemma {:induction false} PlainNamesSurvive(s: Sync, w: World)
    requires forall n :: n in Normalize(w.upstream) ==> !(REGEX <= n)
    ensures PatternsSurvive(s, w)
  {
    var local := Local(s.models);
    var adds := PendingAdds(w, local, s.ignored);
    var entries := Normalize(s.ignored);
    LocalIsNames(s.models);
    PendingMembers(w, local, s.ignored);
    NormalizeIdentity(adds);
    SubtractIsDifference(s.ignored, adds);
    forall e | e in entries ensures e !in adds {
      var i :| 0 <= i < |entries| && entries[i] == e;
      if e in adds { assert Hits(entries[i], e, w.matches); }
    }
    forall n | n in Normalize(w.upstream) && Ignored(entries, n, w.matches)
      ensures Ignored(Subtract(s.ignored, adds), n, w.matches)
    {
      FewerEntriesIgnoreLess(entries, Subtract(s.ignored, adds), n, w.matches);
    }
  }

  lemma {:induction false} FewerEntriesIgnoreLess(a: seq<string>, b: seq<string>, n: string, matches: (string, string) -> bool)
    requires forall e :: e in a ==> e in b
    requires Ignored(a, n, matches)
    ensures Ignored(b, n, matches)
  {
    var i :| 0 <= i < |a| && Hits(a[i], n, matches);
    assert a[i] in b;
  }

  /** What selecting everything staged does, in terms of the lists before detection. */
  lemma {:induction false} SelectAllReport(s: Sync, w: World)
    ensures var s1 := Detect(s, w, false);
            var r := ReportOf(s1, Selection(s1.detected, [], s1.removed));
            && Staged(s1) && IsNames(r.added) && IsNames(r.removed)
            && (forall n :: n in r.added <==> n in s1.detected)
            && (forall n :: n in r.removed <==> n in s1.removed)
            && r.ignored == []
  {
    var s1 := Detect(s, w, false);
    var sel := Selection(s1.detected, [], s1.removed);
    DetectStages(s, w, false);
    ApplySplitsStaged(s1, sel);
    NormalizeIdentity(s1.detected);
    NormalizeIdentity(s1.removed);
    assert Normalize([]) == [];
    assert Keep([], In(Normalize(s1.detected))) == [];
  }

  /** The ignore list after selecting everything: what was on it and was not staged as a name. */
  lemma {:induction false} SelectAllIgnored(s: Sync, w: World)
    ensures var s1 := Detect(s, w, false);
            var s2 := Apply(s1, Selection(s1.detected, [], s1.removed));
            forall e :: e in Normalize(s2.ignored) <==> e in Subtract(s.ignored, s1.detected)
  {
    var s1 := Detect(s, w, false);
    var r := ReportOf(s1, Selection(s1.detected, [], s1.removed));
    var merged := Merge(s.ignored, r.ignored);
    SelectAllReport(s, w);
    MergeIsUnion(s.ignored, []);
    assert Normalize([]) == [];
    NormalizeIdentity(merged);
    NormalizeIdentity(r.added);
    NormalizeIdentity(s1.detected);
    SubtractIsDifference(merged, r.added);
    SubtractIsDifference(s.ignored, s1.detected);
    NormalizeIdentity(Subtract(merged, r.added));
  }

  /** The model list after selecting everything, when no added name has a comma. */
  lemma {:induction false} TakesUpAll(s: Sync, sel: Selection, n: string)
    requires IsNames(s.detected) && CommaFree(s.detected) && sel.add == s.detected
    ensures (exists m :: TakesUp(s, sel, m) && PieceOf(m, n)) <==> n in s.detected
  {
    NormalizeIdentity(s.detected);
    if m :| TakesUp(s, sel, m) && PieceOf(m, n) {
      var i :| 0 <= i < |s.detected| && s.detected[i] == m;
      PlainPiece(m, n);
    }
    if n in s.detected {
      var i :| 0 <= i < |s.detected| && s.detected[i] == n;
      PlainPiece(n, n);
      assert TakesUp(s, sel, n);
    }
  }

  lemma {:induction false} SelectAllName(s: Sync, sel: Selection, n: string)
    requires Staged(s) && CommaFree(s.detected) && sel == Selection(s.detected, [], s.removed)
    ensures n in Local(Apply(s, sel).models) <==> (n in Local(s.models) && n !in s.removed) || n in s.detected
  {
    NormalizeIdentity(s.removed);
    TakesUpAll(s, sel, n);
    AppliedNames(s, sel, n);
  }

  lemma {:induction false} SelectAllModels(s: Sync, w: World)
    requires CommaFree(Detect(s, w, false).detected)
    ensures var s1 := Detect(s, w, false);
            var local := Local(Apply(s1, Selection(s1.detected, [], s1.removed)).models);
            IsNames(local) &&
            forall n :: n in local <==> (n in Local(s.models) && n !in s1.removed) || n in s1.detected
  {
    var s1 := Detect(s, w, false);
    var sel := Selection(s1.detected, [], s1.removed);
    var local := Local(Apply(s1, sel).models);
    DetectStages(s, w, false);
    LocalIsNames(Apply(s1, sel).models);
    forall n ensures n in local <==> (n in Local(s.models) && n !in s1.removed) || n in s1.detected {
      SelectAllName(s1, sel, n);
    }
  }

  lemma {:induction false} NothingLeftToStage(s: Sync, w: World)
    requires PatternsSurvive(s, w) && CommaFree(Detect(s, w, false).detected)
    ensures var s1 := Detect(s, w, false);
            var s2 := Apply(s1, Selection(s1.detected, [], s1.removed));
            PendingAdds(w, Local(s2.models), s2.ignored) == [] && PendingRemoves(w, Local(s2.models)) == []
  {
    var s1 := Detect(s, w, false);
    var s2 := Apply(s1, Selection(s1.detected, [], s1.removed));
    var local := Local(s2.models);
    SelectAllModels(s, w);
    SelectAllIgnored(s, w);
    LocalIsNames(s.models);
    PendingMembers(w, Local(s.models), s.ignored);
    forall n | n in Normalize(w.upstream) ensures !AddWanted(w, local, Normalize(s2.ignored))(n) {
      if n !in Local(s.models) && n !in w.mapping.Values && Ignored(Normalize(s.ignored), n, w.matches) {
        FewerEntriesIgnoreLess(Subtract(s.ignored, s1.detected), Normalize(s2.ignored), n, w.matches);
      }
    }
    KeepNothing(Normalize(w.upstream), AddWanted(w, local, Normalize(s2.ignored)));
    KeepNothing(local, RemoveWanted(w, Normalize(w.upstream)));
  }

  /** An upstream name that is not local, no redirect target and no longer ignored is staged. */
  lemma {:induction false} ComesBack(s: Sync, w: World, n: string)
    requires var s1 := Detect(s, w, false);
             var s2 := Apply(s1, Selection(s1.detected, [], s1.removed));
             && n in Normalize(w.upstream) && n !in w.mapping.Values && n !in Local(s2.models)
             && !Ignored(Subtract(s.ignored, s1.detected), n, w.matches)
    ensures var s1 := Detect(s, w, false);
            var s2 := Apply(s1, Selection(s1.detected, [], s1.removed));
            n in PendingAdds(w, Local(s2.models), s2.ignored)
  {
    var s1 := Detect(s, w, false);
    var s2 := Apply(s1, Selection(s1.detected, [], s1.removed));
    LocalIsNames(s2.models);
    SelectAllIgnored(s, w);
    if Ignored(Normalize(s2.ignored), n, w.matches) {
      FewerEntriesIgnoreLess(Normalize(s2.ignored), Subtract(s.ignored, s1.detected), n, w.matches);
    }
    PendingMembers(w, Local(s2.models), s2.ignored);
  }

  lemma {:induction false} CommaNameComesBack(s: Sync, w: World, n: string)
    requires n in Detect(s, w, false).detected && ',' in n
    ensures var s1 := Detect(s, w, false);
            var s2 := Apply(s1, Selection(s1.detected, [], s1.removed));
            n in PendingAdds(w, Local(s2.models), s2.ignored)
  {
    var s1 := Detect(s, w, false);
    var s2 := Apply(s1, Selection(s1.detected, [], s1.removed));
    LocalIsNames(s.models);
    PendingMembers(w, Local(s.models), s.ignored);
    LocalIsCommaFree(s2.models);
    SubtractIsDifference(s.ignored, s1.detected);
    if Ignored(Subtract(s.ignored, s1.detected), n, w.matches) {
      FewerEntriesIgnoreLess(Subtract(s.ignored, s1.detected), Normalize(s.ignored), n, w.matches);
    }
    ComesBack(s, w, n);
  }

  lemma {:induction false} UncoveredNameComesBack(s: Sync, w: World)
    requires !PatternsSurvive(s, w) && CommaFree(Detect(s, w, false).detected)
    ensures var s1 := Detect(s, w, false);
            var s2 := Apply(s1, Selection(s1.detected, [], s1.removed));
            PendingAdds(w, Local(s2.models), s2.ignored) != []
  {
    var s1 := Detect(s, w, false);
    var n :| n in Normalize(w.upstream) && n !in Local(s.models) && n !in w.mapping.Values
             && Ignored(Normalize(s.ignored), n, w.matches) && !Ignored(Subtract(s.ignored, s1.detected), n, w.matches);
    LocalIsNames(s.models);
    PendingMembers(w, Local(s.models), s.ignored);
    SelectAllModels(s, w);
    ComesBack(s, w, n);
  }

  /**
   Detect, apply everything, detect again with the same upstream: nothing is left to stage, if and only if
   no staged name contains a comma (names are stored comma-separated, so such a name never arrives) and no
   staged name doubles as a pattern that alone held another name back.
   */
  lemma {:induction false} ApplyAllReachesFixpointIff(s: Sync, w: World)
    ensures var s1 := Detect(s, w, false);
            var s2 := Apply(s1, Selection(s1.detected, [], s1.removed));
            var s3 := Detect(s2, w, false);
            s3.detected == [] && s3.removed == [] <==> CommaFree(s1.detected) && PatternsSurvive(s, w)
  {
    var s1 := Detect(s, w, false);
    if !CommaFree(s1.detected) {
      var i :| 0 <= i < |s1.detected| && ',' in s1.detected[i];
      CommaNameComesBack(s, w, s1.detected[i]);
    } else if PatternsSurvive(s, w) {
      NothingLeftToStage(s, w);
    } else {
      UncoveredNameComesBack(s, w);
    }
  }

  /** A name with a comma is detected again for ever. */
  lemma {:induction false} CommaNameExample()
    ensures var s := Sync("", [], [], []);
            var w := World(["a,b"], map[], (p, n) => false);
            var s1 := Detect(s, w, false);
            Detect(Apply(s1, Selection(s1.detected, [], s1.removed)), w, false).detected != []
  {
    var s, w := Sync("", [], [], []), World(["a,b"], map[], (p, n) => false);
    NormalizeIdentity(["a,b"]);
    NormalizeIdentity([]);
    PendingMembers(w, Local(s.models), s.ignored);
    assert "a,b" in Normalize(w.upstream) && "a,b"[1] == ',';
    CommaNameComesBack(s, w, "a,b");
  }

  /** The upstream offers a name and the one ignore entry, a pattern that covers the name but not itself. */
  predicate PatternIsName(s: Sync, w: World, entry: string, name: string) {
    && s.models == "" && s.ignored == [entry] && w.upstream == [entry, name] && w.mapping == map[]
    && IsNames(w.upstream) && IsNames(s.ignored) && CommaFree(w.upstream)
    && Hits(entry, name, w.matches) && !Hits(entry, entry, w.matches)
  }

  lemma {:induction false} PatternIsStaged(s: Sync, w: World, entry: string, name: string)
    requires PatternIsName(s, w, entry, name)
    ensures var adds := PendingAdds(w, Local(s.models), s.ignored);
            entry in adds && IsNames(adds) && CommaFree(adds)
  {
    var adds := PendingAdds(w, [], s.ignored);
    assert w.upstream[0] == entry;
    NormalizeIdentity(w.upstream);
    NormalizeIdentity(s.ignored);
    NormalizeIdentity([]);
    PendingMembers(w, [], s.ignored);
    forall i | 0 <= i < |adds| ensures ',' !in adds[i] { assert adds[i] in adds; }
  }

  lemma {:induction false} SomeMember(ns: seq<string>)
    ensures ns != [] ==> exists n :: n in ns
  {
    if ns != [] { assert ns[0] in ns; }
  }

  lemma {:induction false} PatternIsDropped(s: Sync, adds: seq<string>, entry: string)
    requires s.ignored == [entry] && IsNames(s.ignored) && IsNames(adds) && entry in adds
    ensures Subtract(s.ignored, adds) == []
  {
    NormalizeIdentity(s.ignored);
    NormalizeIdentity(adds);
    SubtractIsDifference(s.ignored, adds);
    SomeMember(Subtract(s.ignored, adds));
  }

  lemma {:induction false} PatternNameComesBack(s: Sync, w: World, entry: string, name: string)
    requires PatternIsName(s, w, entry, name)
    ensures !PatternsSurvive(s, w) && CommaFree(Detect(s, w, false).detected)
  {
    PatternIsStaged(s, w, entry, name);
    PatternIsDropped(s, PendingAdds(w, Local(s.models), s.ignored), entry);
    NormalizeIdentity(w.upstream);
    NormalizeIdentity(s.ignored);
    NormalizeIdentity([]);
    assert Ignored(s.ignored, name, w.matches) by { assert s.ignored[0] == entry; }
    assert w.upstream[1] == name && name in Normalize(w.upstream);
  }

  /** So is a name that only a pattern held back, when the pattern is itself an upstream name. */
  lemma {:induction false} PatternNameExample()
    ensures var s := Sync("", ["regex:x"], [], []);
            var w := World(["regex:x", "x"], map[], (p, n) => p == n);
            var s1 := Detect(s, w, false);
            Detect(Apply(s1, Selection(s1.detected, [], s1.removed)), w, false).detected != []
  {
    var s, w := Sync("", ["regex:x"], [], []), World(["regex:x", "x"], map[], (p, n) => p == n);
    TrimTrims("x");
    assert "regex:x"[|REGEX|..] == "x";
    PatternNameComesBack(s, w, "regex:x", "x");
    UncoveredNameComesBack(s, w);
  }

  /** Merging the staged additions into the model list just appends them. */
  lemma {:induction false} MergeAppends(local: seq<string>, adds: seq<string>)
    requires IsNames(local) && IsNames(adds) && Disjoint(adds, local)
    ensures Merge(local, adds) == local + adds && IsNames(local + adds)
  {
    NormalizeIdentity(local);
    NormalizeIdentity(adds);
    KeepEverything(adds, NotIn(local));
    MergeIsUnion(local, adds);
  }

  lemma {:induction false} AutoSyncModels(s: Sync, w: World)
    requires PendingAdds(w, Local(s.models), s.ignored) != []
    ensures var local := Local(s.models);
            var adds := PendingAdds(w, local, s.ignored);
            && IsNames(local + adds)
            && Detect(s, w, true).models == Join(local + adds, ',')
  {
    var local := Local(s.models);
    LocalIsNames(s.models);
    PendingMembers(w, local, s.ignored);
    MergeAppends(local, PendingAdds(w, local, s.ignored));
  }

  lemma {:induction false} AutoSyncSettles(s: Sync, w: World)
    requires var adds := PendingAdds(w, Local(s.models), s.ignored); adds != [] && CommaFree(adds)
    ensures var now := Local(Detect(s, w, true).models);
            PendingAdds(w, now, s.ignored) == [] && PendingRemoves(w, now) == PendingRemoves(w, Local(s.models))
  {
    var local := Local(s.models);
    var adds := PendingAdds(w, local, s.ignored);
    AutoSyncModels(s, w);
    LocalIsNames(s.models);
    LocalIsCommaFree(s.models);
    StoredListReadsBack(local + adds);
    PendingMembers(w, local, s.ignored);
    var wanted := RemoveWanted(w, Normalize(w.upstream));
    KeepConcat(local, adds, wanted);
    KeepNothing(adds, wanted);
    KeepNothing(Normalize(w.upstream), AddWanted(w, local + adds, Normalize(s.ignored)));
  }

  lemma {:induction false} AutoSyncCommaComesBack(s: Sync, w: World, n: string)
    requires n in PendingAdds(w, Local(s.models), s.ignored) && ',' in n
    ensures n in PendingAdds(w, Local(Detect(s, w, true).models), s.ignored)
  {
    var now := Local(Detect(s, w, true).models);
    LocalIsNames(s.models);
    PendingMembers(w, Local(s.models), s.ignored);
    LocalIsNames(Detect(s, w, true).models);
    LocalIsCommaFree(Detect(s, w, true).models);
    PendingMembers(w, now, s.ignored);
  }

  /**
   After an automatic pass, detecting again adds nothing and stages the same removals, if and only if no
   name that was to be added contains a comma.
   */
  lemma {:induction false} AutoSyncReachesFixpointIff(s: Sync, w: World)
    ensures var s1 := Detect(s, w, true);
            var s2 := Detect(s1, w, false);
            s2.detected == [] && s2.removed == s1.removed <==> CommaFree(PendingAdds(w, Local(s.models), s.ignored))
  {
    var adds := PendingAdds(w, Local(s.models), s.ignored);
    if adds != [] {
      if CommaFree(adds) {
        AutoSyncSettles(s, w);
      } else {
        var i :| 0 <= i < |adds| && ',' in adds[i];
        AutoSyncCommaComesBack(s, w, adds[i]);
      }
    }
  }
}
