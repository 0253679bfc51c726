/** The string operations the gateway leans on: `strings.TrimSpace`, `strings.Split` and `strings.Join`. */
module Text {

  /** `unicode.IsSpace`. */
  predicate IsSpace(c: char) {
    || '\t' <= c <= '\r' || c == ' ' || c == '\U{0085}' || c == '\U{00A0}' || c == '\U{1680}'
    || '\U{2000}' <= c <= '\U{200A}' || c == '\U{2028}' || c == '\U{2029}' || c == '\U{202F}'
    || c == '\U{205F}' || c == '\U{3000}'
  }

  function TrimLeft(s: string): string {
    if s != [] && IsSpace(s[0]) then TrimLeft(s[1..]) else s
  }

  function TrimRight(s: string): string {
    if s != [] && IsSpace(s[|s|-1]) then TrimRight(s[..|s|-1]) else s
  }

  /** `strings.TrimSpace`. */
  function Trim(s: string): string {
    TrimRight(TrimLeft(s))
  }

  /** No white space at either end: exactly the strings that trimming leaves alone. */
  predicate Trimmed(s: string) {
    s != [] ==> !IsSpace(s[0]) && !IsSpace(s[|s|-1])
  }

  lemma {:induction false} TrimLeftTrims(s: string)
    ensures TrimLeft(s) == [] || !IsSpace(TrimLeft(s)[0])
    ensures forall c :: c in TrimLeft(s) ==> c in s
  {
    if s != [] && IsSpace(s[0]) { TrimLeftTrims(s[1..]); }
  }

  lemma {:induction false} TrimRightTrims(s: string)
    ensures TrimRight(s) == [] || (!IsSpace(TrimRight(s)[|TrimRight(s)|-1]) && TrimRight(s)[0] == s[0])
    ensures forall c :: c in TrimRight(s) ==> c in s
  {
    if s != [] && IsSpace(s[|s|-1]) { TrimRightTrims(s[..|s|-1]); }
  }

  /** Trimming trims, adds nothing, and is idempotent. */
  lemma {:induction false} TrimTrims(s: string)
    ensures Trimmed(Trim(s)) && (Trimmed(s) ==> Trim(s) == s)
    ensures forall c :: c in Trim(s) ==> c in s
  {
    TrimLeftTrims(s);
    TrimRightTrims(TrimLeft(s));
  }

  lemma {:induction false} TrimLeftIsSuffix(s: string) returns (lo: nat)
    ensures lo <= |s| && TrimLeft(s) == s[lo..] && forall i :: 0 <= i < lo ==> IsSpace(s[i])
  {
    lo := 0;
    if s != [] && IsSpace(s[0]) {
      var rest := TrimLeftIsSuffix(s[1..]);
      lo := rest + 1;
      assert s[1..][rest..] == s[lo..];
      assert forall i :: 0 < i < lo ==> s[i] == s[1..][i-1];
    }
  }

  lemma {:induction false} TrimRightIsPrefix(s: string) returns (hi: nat)
    ensures hi <= |s| && TrimRight(s) == s[..hi] && forall i :: hi <= i < |s| ==> IsSpace(s[i])
  {
    hi := |s|;
    if s != [] && IsSpace(s[|s|-1]) {
      hi := TrimRightIsPrefix(s[..|s|-1]);
    }
  }

  /** Trimming takes away white space at the two ends, all of it and nothing else. */
  lemma {:induction false} TrimIsMiddle(s: string) returns (lo: nat, hi: nat)
    ensures lo <= hi <= |s| && Trim(s) == s[lo..hi]
    ensures forall i :: 0 <= i < lo || hi <= i < |s| ==> IsSpace(s[i])
    ensures lo < hi ==> !IsSpace(s[lo]) && !IsSpace(s[hi-1])
  {
    lo := TrimLeftIsSuffix(s);
    var rest := s[lo..];
    var n := TrimRightIsPrefix(rest);
    hi := lo + n;
    assert rest[..n] == s[lo..hi];
    assert forall i :: hi <= i < |s| ==> s[i] == rest[i - lo];
    TrimTrims(s);
  }

  function TrimAll(ss: seq<string>): (r: seq<string>)
    ensures |r| == |ss|
  {
    if ss == [] then [] else TrimAll(ss[..|ss|-1]) + [Trim(ss[|ss|-1])]
  }

  lemma {:induction false} TrimAllAt(ss: seq<string>, i: nat)
    requires i < |ss|
    ensures TrimAll(ss)[i] == Trim(ss[i]) && Trimmed(Trim(ss[i]))
  {
    TrimTrims(ss[i]);
    if i < |ss| - 1 { TrimAllAt(ss[..|ss|-1], i); }
  }

  predicate AllTrimmed(ss: seq<string>) {
    forall i :: 0 <= i < |ss| ==> Trimmed(ss[i])
  }

  /** Trimming leaves trimmed strings alone. */
  lemma {:induction false} TrimAllAppend(ss: seq<string>, added: seq<string>)
    requires AllTrimmed(added)
    ensures TrimAll(ss + added) == TrimAll(ss) + added
  {
    var all := ss + added;
    forall i | 0 <= i < |all| ensures TrimAll(all)[i] == (TrimAll(ss) + added)[i] {
      TrimAllAt(all, i);
      TrimTrims(all[i]);
      if i < |ss| { TrimAllAt(ss, i); }
    }
  }

  /** Earlier texts first occur earlier in a list. */
  ghost predicate ByFirstOccurrence(ns: seq<string>, ts: seq<string>) {
    forall i, j :: 0 <= i < j < |ns| ==> OccursBefore(ns[i], ns[j], ts)
  }

  ghost predicate OccursBefore(a: string, b: string, ts: seq<string>) {
    exists p :: 0 <= p < |ts| && ts[p] == a && forall q :: 0 <= q <= p ==> ts[q] != b
  }

  // ----- lists stored as one text with a separator -----

  /** `strings.Split`. */
  function Split(s: string, sep: char): (r: seq<string>)
    ensures |r| > 0
  {
    if s == "" then [""]
    else
      var r := Split(s[1..], sep);
      if s[0] == sep then [""] + r else [[s[0]] + r[0]] + r[1..]
  }

  /** `strings.Join`. */
  function Join(names: seq<string>, sep: char): string {
    if names == [] then "" else if |names| == 1 then names[0] else names[0] + [sep] + Join(names[1..], sep)
  }

  function StripLeft(s: string, sep: char): string {
    if s != "" && s[0] == sep then StripLeft(s[1..], sep) else s
  }

  /** `strings.Trim` with the separator as cutset. */
  function Strip(s: string, sep: char): string {
    if s != "" && s[|s|-1] == sep then Strip(s[..|s|-1], sep) else StripLeft(s, sep)
  }

  lemma {:induction false} SplitAtSeparator(a: string, b: string, sep: char)
    ensures Split(a + [sep] + b, sep) == Split(a, sep) + Split(b, sep)
  {
    if a == "" {
      assert a + [sep] + b == [sep] + b && ([sep] + b)[1..] == b;
    } else {
      assert (a + [sep] + b)[1..] == a[1..] + [sep] + b;
      SplitAtSeparator(a[1..], b, sep);
    }
  }

  lemma {:induction false} SplitWithoutSeparator(s: string, sep: char)
    requires sep !in s
    ensures Split(s, sep) == [s]
  {
    if s != "" {
      SplitWithoutSeparator(s[1..], sep);
      assert [s[0]] + s[1..] == s;
    }
  }

  lemma {:induction false} PiecesHaveNoSeparator(s: string, sep: char)
    ensures forall i :: 0 <= i < |Split(s, sep)| ==> sep !in Split(s, sep)[i]
  {
    if s != "" { PiecesHaveNoSeparator(s[1..], sep); }
  }

  lemma {:induction false} SplitIgnoresLeading(s: string, sep: char, n: string)
    requires n != ""
    ensures n in Split(s, sep) <==> n in Split(StripLeft(s, sep), sep)
  {
    if s != "" && s[0] == sep { SplitIgnoresLeading(s[1..], sep, n); }
  }

  /** Separators at the ends only add empty pieces. */
  lemma {:induction false} SplitIgnoresOuter(s: string, sep: char, n: string)
    requires n != ""
    ensures n in Split(s, sep) <==> n in Split(Strip(s, sep), sep)
  {
    if s != "" && s[|s|-1] == sep {
      var t := s[..|s|-1];
      assert s == t + [sep] + "";
      SplitAtSeparator(t, "", sep);
      SplitIgnoresOuter(t, sep, n);
    } else {
      SplitIgnoresLeading(s, sep, n);
    }
  }

  /** A name without separators is a piece of the joined list whatever the other names are. */
  lemma {:induction false} JoinedNameIsPiece(names: seq<string>, sep: char, n: string)
    requires n in names && sep !in n
    ensures n in Split(Join(names, sep), sep)
  {
    if |names| == 1 {
      SplitWithoutSeparator(n, sep);
    } else {
      SplitAtSeparator(names[0], Join(names[1..], sep), sep);
      if n == names[0] { SplitWithoutSeparator(n, sep); } else { JoinedNameIsPiece(names[1..], sep, n); }
    }
  }

  predicate SeparatorFree(names: seq<string>, sep: char) {
    forall i :: 0 <= i < |names| ==> sep !in names[i]
  }

  /** Joining and splitting is the identity on names without separators. */
  lemma {:induction false} SplitJoin(names: seq<string>, sep: char)
    requires names != [] && SeparatorFree(names, sep)
    ensures Split(Join(names, sep), sep) == names
  {
    SplitWithoutSeparator(names[0], sep);
    if |names| > 1 {
      SplitAtSeparator(names[0], Join(names[1..], sep), sep);
      SplitJoin(names[1..], sep);
    }
  }

  /** Splitting loses nothing: joining the pieces gives the text again. */
  lemma {:induction false} JoinSplit(s: string, sep: char)
    ensures Join(Split(s, sep), sep) == s
  {
    if s != "" {
      var r := Split(s[1..], sep);
      JoinSplit(s[1..], sep);
      assert [s[0]] + s[1..] == s;
      if s[0] == sep {
        assert ([""] + r)[1..] == r;
      } else {
        var first := [s[0]] + r[0];
        assert ([first] + r[1..])[1..] == r[1..];
        if |r| > 1 {
          assert first + [sep] + Join(r[1..], sep) == [s[0]] + (r[0] + [sep] + Join(r[1..], sep));
        }
      }
    }
  }

  /** The pieces of several texts, one after the other. */
  function AllPieces(names: seq<string>, sep: char): seq<string> {
    if names == [] then [] else Split(names[0], sep) + AllPieces(names[1..], sep)
  }

  /** Splitting a joined list yields the pieces of its names, whatever separators they hold. */
  lemma {:induction false} SplitOfJoin(names: seq<string>, sep: char)
    requires names != []
    ensures Split(Join(names, sep), sep) == AllPieces(names, sep)
  {
    if |names| == 1 {
      assert AllPieces(names[1..], sep) == [];
    } else {
      SplitAtSeparator(names[0], Join(names[1..], sep), sep);
      SplitOfJoin(names[1..], sep);
    }
  }

  lemma {:induction false} AllPiecesMember(names: seq<string>, sep: char, p: string)
    ensures p in AllPieces(names, sep) <==> exists i :: 0 <= i < |names| && p in Split(names[i], sep)
  {
    if names != [] {
      var rest := names[1..];
      AllPiecesMember(rest, sep, p);
      if i :| 0 <= i < |rest| && p in Split(rest[i], sep) { assert p in Split(names[i+1], sep); }
      if i :| 0 < i < |names| && p in Split(names[i], sep) { assert p in Split(rest[i-1], sep); }
    }
  }

  lemma {:induction false} AllPiecesPlain(names: seq<string>, sep: char)
    requires SeparatorFree(names, sep)
    ensures AllPieces(names, sep) == names
  {
    if names != [] {
      SplitWithoutSeparator(names[0], sep);
      AllPiecesPlain(names[1..], sep);
    }
  }

  lemma {:induction false} JoinEnds(names: seq<string>, sep: char)
    requires names != [] && forall i :: 0 <= i < |names| ==> names[i] != "" && sep !in names[i]
    ensures var s := Join(names, sep); s != "" && s[0] != sep && s[|s|-1] != sep
  {
    if |names| > 1 { JoinEnds(names[1..], sep); }
  }

  lemma {:induction false} StripLeftEnds(s: string, sep: char)
    ensures StripLeft(s, sep) == "" || StripLeft(s, sep)[0] != sep
    ensures s != "" && s[|s|-1] != sep ==>
              StripLeft(s, sep) != "" && StripLeft(s, sep)[|StripLeft(s, sep)|-1] == s[|s|-1]
  {
    if s != "" && s[0] == sep { StripLeftEnds(s[1..], sep); }
  }

  /** A stripped text has no separator at an end. */
  lemma {:induction false} StripEnds(s: string, sep: char)
    ensures var t := Strip(s, sep); t == "" || (t[0] != sep && t[|t|-1] != sep)
  {
    if s != "" && s[|s|-1] == sep { StripEnds(s[..|s|-1], sep); } else { StripLeftEnds(s, sep); }
  }

  /** So the first and the last of its pieces are not empty. */
  lemma {:induction false} EndPieces(s: string, sep: char)
    requires s != ""
    ensures s[0] != sep ==> Split(s, sep)[0] != ""
    ensures s[|s|-1] != sep ==> var r := Split(s, sep); r[|r|-1] != ""
  {
    if |s| > 1 { EndPieces(s[1..], sep); }
  }

  lemma {:induction false} JoinSnoc(names: seq<string>, last: string, sep: char)
    requires names != []
    ensures Join(names + [last], sep) == Join(names, sep) + [sep] + last
  {
    var all := names + [last];
    assert all[1..] == names[1..] + [last];
    if |names| > 1 {
      JoinSnoc(names[1..], last, sep);
    } else {
      assert all[1..] == [last];
    }
  }
}
