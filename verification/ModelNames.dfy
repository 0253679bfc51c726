/** Ordered sets of model names, and the comma-separated text they are stored as. */
module ModelNames {
  import opened Text

  /** A clean list: trimmed, not blank, no name twice. */
  predicate IsNames(ns: seq<string>) {
    && (forall i :: 0 <= i < |ns| ==> ns[i] != "" && Trimmed(ns[i]))
    && (forall i, j :: 0 <= i < j < |ns| ==> ns[i] != ns[j])
  }

  /** `normalizeModelNames`: trim, drop blanks, keep first occurrences. */
  function Normalize(raw: seq<string>): (ns: seq<string>) {
    Uniq(TrimAll(raw))
  }

  function Uniq(ts: seq<string>): seq<string> {
    if ts == [] then []
    else
      var before := Uniq(ts[..|ts|-1]);
      var n := ts[|ts|-1];
      if n == "" || n in before then before else before + [n]
  }

  lemma {:induction false} UniqMembers(ts: seq<string>)
    ensures forall n :: n in Uniq(ts) <==> n != "" && n in ts
    ensures forall i, j :: 0 <= i < j < |Uniq(ts)| ==> Uniq(ts)[i] != Uniq(ts)[j]
  {
    if ts != [] {
      var m := |ts| - 1;
      UniqMembers(ts[..m]);
      assert ts == ts[..m] + [ts[m]];
    }
  }

  lemma {:induction false} UniqIdentity(ts: seq<string>)
    requires "" !in ts && forall i, j :: 0 <= i < j < |ts| ==> ts[i] != ts[j]
    ensures Uniq(ts) == ts
  {
    if ts != [] {
      var m := |ts| - 1;
      assert ts == ts[..m] + [ts[m]];
      UniqIdentity(ts[..m]);
    }
  }

  lemma {:induction false} UniqByFirstOccurrence(ts: seq<string>)
    ensures ByFirstOccurrence(Uniq(ts), ts)
  {
    if ts != [] {
      var m := |ts| - 1;
      var before, u := Uniq(ts[..m]), Uniq(ts);
      UniqByFirstOccurrence(ts[..m]);
      UniqMembers(ts[..m]);
      forall i, j | 0 <= i < j < |u| ensures OccursBefore(u[i], u[j], ts) {
        assert u[i] == before[i] && before[i] in before;
        if j < |before| {
          assert OccursBefore(before[i], before[j], ts[..m]);
          var p :| 0 <= p < m && ts[..m][p] == u[i] && forall q :: 0 <= q <= p ==> ts[..m][q] != u[j];
          assert ts[p] == u[i] && forall q :: 0 <= q <= p ==> ts[q] == ts[..m][q];
        } else {
          var p :| 0 <= p < m && ts[..m][p] == u[i];
          assert ts[p] == u[i];
          forall q | 0 <= q <= p ensures ts[q] != u[j] { assert ts[..m][q] == ts[q] && ts[q] in ts[..m]; }
        }
      }
    }
  }

  /** The result is a clean list of exactly the trimmed, non-blank names, in the order they first occur. */
  lemma {:induction false} NormalizeIsNames(raw: seq<string>)
    ensures IsNames(Normalize(raw)) && ByFirstOccurrence(Normalize(raw), TrimAll(raw))
    ensures forall n :: n in Normalize(raw) <==> n != "" && n in TrimAll(raw)
    ensures forall i :: 0 <= i < |raw| ==> TrimAll(raw)[i] == Trim(raw[i])
  {
    UniqByFirstOccurrence(TrimAll(raw));
    forall i | 0 <= i < |raw| ensures TrimAll(raw)[i] == Trim(raw[i]) { TrimAllAt(raw, i); }
    UniqMembers(TrimAll(raw));
    var ns := Normalize(raw);
    forall i | 0 <= i < |ns| ensures ns[i] != "" && Trimmed(ns[i]) {
      assert ns[i] in ns;
      var j :| 0 <= j < |raw| && TrimAll(raw)[j] == ns[i];
      TrimAllAt(raw, j);
    }
  }

  /** Normalising a clean list changes nothing. */
  lemma {:induction false} NormalizeIdentity(ns: seq<string>)
    requires IsNames(ns)
    ensures Normalize(ns) == ns
  {
    TrimAllAppend([], ns);
    assert [] + ns == ns;
    UniqIdentity(ns);
  }

  /** `lo.Filter`. */
  function Keep(ns: seq<string>, p: string -> bool): seq<string> {
    if ns == [] then []
    else
      var n := ns[|ns|-1];
      Keep(ns[..|ns|-1], p) + if p(n) then [n] else []
  }

  lemma {:induction false} KeepMembers(ns: seq<string>, p: string -> bool)
    ensures forall n :: n in Keep(ns, p) <==> n in ns && p(n)
    ensures IsNames(ns) ==> IsNames(Keep(ns, p))
  {
    if ns != [] {
      var m := |ns| - 1;
      KeepMembers(ns[..m], p);
      assert ns == ns[..m] + [ns[m]];
    }
  }

  /** Names of a clean list, in the order of that list. */
  ghost predicate KeepsOrder(ns: seq<string>, of: seq<string>) {
    forall i, j :: 0 <= i < j < |ns| ==> StandsBefore(of, ns[i], ns[j])
  }

  ghost predicate StandsBefore(of: seq<string>, a: string, b: string) {
    exists p, q :: 0 <= p < q < |of| && of[p] == a && of[q] == b
  }

  lemma {:induction false} KeepKeepsOrder(ns: seq<string>, p: string -> bool)
    ensures KeepsOrder(Keep(ns, p), ns)
  {
    if ns != [] {
      var m := |ns| - 1;
      var before, kept := Keep(ns[..m], p), Keep(ns, p);
      KeepKeepsOrder(ns[..m], p);
      KeepMembers(ns[..m], p);
      forall i, j | 0 <= i < j < |kept| ensures StandsBefore(ns, kept[i], kept[j]) {
        assert kept[i] == before[i] && before[i] in before;
        if j < |before| {
          assert StandsBefore(ns[..m], before[i], before[j]);
          var a, b :| 0 <= a < b < m && ns[..m][a] == before[i] && ns[..m][b] == before[j];
          assert ns[a] == kept[i] && ns[b] == kept[j];
        } else {
          var a :| 0 <= a < m && ns[..m][a] == before[i];
          assert ns[a] == kept[i] && ns[m] == kept[j];
        }
      }
    }
  }

  function Elems(ns: seq<string>): set<string> { set n | n in ns }

  lemma {:induction false} KeepSnoc(ns: seq<string>, i: nat, p: string -> bool)
    requires i < |ns|
    ensures Keep(ns[..i+1], p) == Keep(ns[..i], p) + if p(ns[i]) then [ns[i]] else []
    ensures Elems(ns[..i+1]) == Elems(ns[..i]) + {ns[i]}
  {
    assert ns[..i+1][..i] == ns[..i];
    assert ns[..i+1] == ns[..i] + [ns[i]];
  }

  lemma {:induction false} KeepNothing(ns: seq<string>, p: string -> bool)
    requires forall n :: n in ns ==> !p(n)
    ensures Keep(ns, p) == []
  {
    if ns != [] {
      assert ns[|ns|-1] in ns;
      KeepNothing(ns[..|ns|-1], p);
    }
  }

  lemma {:induction false} KeepEverything(ns: seq<string>, p: string -> bool)
    requires forall n :: n in ns ==> p(n)
    ensures Keep(ns, p) == ns
  {
    if ns != [] {
      assert ns[|ns|-1] in ns;
      KeepEverything(ns[..|ns|-1], p);
      assert ns == ns[..|ns|-1] + [ns[|ns|-1]];
    }
  }

  lemma {:induction false} KeepConcat(a: seq<string>, b: seq<string>, p: string -> bool)
    ensures Keep(a + b, p) == Keep(a, p) + Keep(b, p)
  {
    if b == [] {
      assert a + b == a;
    } else {
      var m := |b| - 1;
      assert (a + b)[..|a|+m] == a + b[..m];
      KeepConcat(a, b[..m], p);
    }
  }

  function In(ns: seq<string>): string -> bool { n => n in ns }
  function NotIn(ns: seq<string>): string -> bool { n => n !in ns }

  /** `subtractModelNames`. */
  function Subtract(base: seq<string>, removed: seq<string>): seq<string> {
    Keep(Normalize(base), NotIn(Normalize(removed)))
  }

  lemma {:induction false} SubtractIsDifference(base: seq<string>, removed: seq<string>)
    ensures IsNames(Subtract(base, removed)) && KeepsOrder(Subtract(base, removed), Normalize(base))
    ensures forall n :: n in Subtract(base, removed) <==> n in Normalize(base) && n !in Normalize(removed)
  {
    NormalizeIsNames(base);
    KeepMembers(Normalize(base), NotIn(Normalize(removed)));
    KeepKeepsOrder(Normalize(base), NotIn(Normalize(removed)));
  }

  /** `intersectModelNames`. */
  function Intersect(base: seq<string>, allowed: seq<string>): seq<string> {
    Keep(Normalize(base), In(Normalize(allowed)))
  }

  lemma {:induction false} IntersectIsIntersection(base: seq<string>, allowed: seq<string>)
    ensures IsNames(Intersect(base, allowed)) && KeepsOrder(Intersect(base, allowed), Normalize(base))
    ensures forall n :: n in Intersect(base, allowed) <==> n in Normalize(base) && n in Normalize(allowed)
  {
    NormalizeIsNames(base);
    KeepMembers(Normalize(base), In(Normalize(allowed)));
    KeepKeepsOrder(Normalize(base), In(Normalize(allowed)));
  }

  lemma {:induction false} MergeParts(a: seq<string>, b: seq<string>)
    ensures forall n :: n in a + Keep(b, NotIn(a)) <==> n in a || n in b
    ensures IsNames(a) && IsNames(b) ==> IsNames(a + Keep(b, NotIn(a)))
  {
    var extra := Keep(b, NotIn(a));
    KeepMembers(b, NotIn(a));
    if IsNames(a) && IsNames(b) {
      var r := a + extra;
      forall i, j | 0 <= i < j < |r| ensures r[i] != r[j] {
        if i < |a| <= j { assert r[j] in extra; }
      }
    }
  }

  function Merge(base: seq<string>, appended: seq<string>): seq<string> {
    Normalize(base) + Keep(Normalize(appended), NotIn(Normalize(base)))
  }

  lemma {:induction false} MergeIsUnion(base: seq<string>, appended: seq<string>)
    ensures IsNames(Merge(base, appended)) && Normalize(base) <= Merge(base, appended)
    ensures KeepsOrder(Merge(base, appended)[|Normalize(base)|..], Normalize(appended))
    ensures forall n :: n in Merge(base, appended) <==> n in Normalize(base) || n in Normalize(appended)
  {
    MergeParts(Normalize(base), Normalize(appended));
    NormalizeIsNames(base);
    NormalizeIsNames(appended);
    KeepKeepsOrder(Normalize(appended), NotIn(Normalize(base)));
    assert Merge(base, appended)[|Normalize(base)|..] == Keep(Normalize(appended), NotIn(Normalize(base)));
  }

  /** `mergeModelNames`, with its set of names already seen. */
  method MergeModelNames(base: seq<string>, appended: seq<string>) returns (merged: seq<string>)
    ensures merged == Merge(base, appended)
  {
    merged := Normalize(base);
    var seen := Elems(merged);
    var extra := Normalize(appended);
    UniqMembers(TrimAll(appended));
    ghost var start := merged;
    for i := 0 to |extra|
      invariant merged == start + Keep(extra[..i], NotIn(start))
      invariant seen == Elems(start) + Elems(extra[..i])
    {
      KeepSnoc(extra, i, NotIn(start));
      if extra[i] !in seen {
        seen := seen + {extra[i]};
        merged := merged + [extra[i]];
      }
    }
    assert extra[..|extra|] == extra;
  }

  // ----- the stored text -----

  /** `Channel.GetModels`. */
  function GetModels(models: string): seq<string> {
    if models == "" then [] else Split(Strip(models, ','), ',')
  }

  /** The model list as every step of the protocol reads it. */
  function Local(models: string): seq<string> {
    Normalize(GetModels(models))
  }

  predicate CommaFree(ns: seq<string>) {
    forall i :: 0 <= i < |ns| ==> ',' !in ns[i]
  }

  /** A stored list without commas in its names reads back as itself. */
  lemma {:induction false} StoredListReadsBack(ns: seq<string>)
    requires IsNames(ns) && CommaFree(ns)
    ensures Local(Join(ns, ',')) == ns
  {
    NormalizeIdentity(ns);
    if ns != [] {
      JoinEnds(ns, ',');
      SplitJoin(ns, ',');
      assert Strip(Join(ns, ','), ',') == Join(ns, ',');
    }
  }

  lemma {:induction false} UniqSkipsBlank(ts: seq<string>)
    ensures Uniq([""] + ts) == Uniq(ts)
  {
    var all := [""] + ts;
    if ts == [] {
      assert all == [""] && all[..0] == [];
    } else {
      var m := |ts| - 1;
      assert all[..|all|-1] == [""] + ts[..m];
      UniqSkipsBlank(ts[..m]);
    }
  }

  /** A blank text at either end of a list does not show in its normal form. */
  lemma {:induction false} NormalizeSkipsBlank(raw: seq<string>)
    ensures Normalize([""] + raw) == Normalize(raw) && Normalize(raw + [""]) == Normalize(raw)
  {
    var front := [""] + raw;
    TrimTrims("");
    forall i | 0 <= i < |front| ensures TrimAll(front)[i] == ([""] + TrimAll(raw))[i] {
      TrimAllAt(front, i);
      if i > 0 { TrimAllAt(raw, i - 1); }
    }
    assert TrimAll(front) == [""] + TrimAll(raw);
    UniqSkipsBlank(TrimAll(raw));
    TrimAllAppend(raw, [""]);
    assert (TrimAll(raw) + [""])[..|raw|] == TrimAll(raw);
  }

  lemma {:induction false} NormalizeStripsLeft(s: string)
    ensures Normalize(Split(StripLeft(s, ','), ',')) == Normalize(Split(s, ','))
  {
    if s != "" && s[0] == ',' {
      NormalizeStripsLeft(s[1..]);
      NormalizeSkipsBlank(Split(s[1..], ','));
    }
  }

  lemma {:induction false} NormalizeStrips(s: string)
    ensures Normalize(Split(Strip(s, ','), ',')) == Normalize(Split(s, ','))
  {
    if s != "" && s[|s|-1] == ',' {
      var t := s[..|s|-1];
      NormalizeStrips(t);
      assert s == t + [','] + "";
      SplitAtSeparator(t, "", ',');
      NormalizeSkipsBlank(Split(t, ','));
    } else {
      NormalizeStripsLeft(s);
    }
  }

  /** What is read back of any stored list: the pieces of its names between commas, in order, normalised. */
  lemma {:induction false} StoredListReadsPieces(ns: seq<string>)
    ensures Local(Join(ns, ',')) == Normalize(AllPieces(ns, ','))
  {
    var text := Join(ns, ',');
    if ns != [] {
      SplitOfJoin(ns, ',');
      NormalizeStrips(text);
      if text == "" {
        NormalizeSkipsBlank([]);
        assert [] + [""] == [""];
      }
    }
  }

  /** The name is a piece of the text between commas, trimmed and not blank. */
  ghost predicate PieceOf(m: string, n: string) {
    n != "" && exists p :: p in Split(m, ',') && Trim(p) == n
  }

  /** So the names read back are exactly the pieces of those stored. */
  lemma {:induction false} StoredNamesArePieces(ns: seq<string>, n: string)
    ensures n in Local(Join(ns, ',')) <==> exists m :: m in ns && PieceOf(m, n)
  {
    var ps := AllPieces(ns, ',');
    StoredListReadsPieces(ns);
    NormalizeIsNames(ps);
    if n in Local(Join(ns, ',')) {
      var j :| 0 <= j < |ps| && TrimAll(ps)[j] == n;
      AllPiecesMember(ns, ',', ps[j]);
      var i :| 0 <= i < |ns| && ps[j] in Split(ns[i], ',');
      assert ns[i] in ns && PieceOf(ns[i], n);
    }
    if m :| m in ns && PieceOf(m, n) {
      var p :| p in Split(m, ',') && Trim(p) == n;
      AllPiecesMember(ns, ',', p);
      var j :| 0 <= j < |ps| && ps[j] == p;
      assert TrimAll(ps)[j] == n;
    }
  }

  /** A clean name without commas is its own and only piece. */
  lemma {:induction false} PlainPiece(m: string, n: string)
    requires ',' !in m && m != "" && Trimmed(m)
    ensures PieceOf(m, n) <==> n == m
  {
    SplitWithoutSeparator(m, ',');
    TrimTrims(m);
    assert m in Split(m, ',');
  }

  lemma {:induction false} TrimKeepsCommaFree(s: string)
    requires ',' !in s
    ensures ',' !in Trim(s)
  {
    TrimTrims(s);
  }

  /** Whatever is stored, the names read back have no commas. */
  lemma {:induction false} LocalIsCommaFree(models: string)
    ensures CommaFree(Local(models))
  {
    var raw := GetModels(models);
    var ns := Local(models);
    NormalizeIsNames(raw);
    if models != "" { PiecesHaveNoSeparator(Strip(models, ','), ','); }
    forall i | 0 <= i < |ns| ensures ',' !in ns[i] {
      assert ns[i] in ns;
      var j :| 0 <= j < |raw| && TrimAll(raw)[j] == ns[i];
      TrimAllAt(raw, j);
      TrimKeepsCommaFree(raw[j]);
    }
  }

  /** A name without commas survives storage whatever names surround it. */
  lemma {:induction false} StoredNameSurvives(ns: seq<string>, n: string)
    requires IsNames(ns) && n in ns && ',' !in n
    ensures n in Local(Join(ns, ','))
  {
    var i :| 0 <= i < |ns| && ns[i] == n;
    JoinedNameIsPiece(ns, ',', n);
    SplitIgnoresOuter(Join(ns, ','), ',', n);
    var raw := GetModels(Join(ns, ','));
    NormalizeIsNames(raw);
    var j :| 0 <= j < |raw| && raw[j] == n;
    TrimAllAt(raw, j);
    TrimTrims(n);
    assert TrimAll(raw)[j] == n;
  }
}
