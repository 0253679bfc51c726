/**
 The multi-key channel manager: `ManageMultiKeys` and the append branch of `UpdateChannel`
 (controller/channel.go), together with the key list that `Channel.Update` writes back
 (model/channel.go).

 The channel holds a key list and three maps keyed by list index; the maps must be re-indexed when
 keys go away.  The abstraction is a plain list of entries.
 */
module MultiKey {
  import opened Options
  import opened Text
  import Runs

  const ENABLED := 1
  const MANUAL := 2
  const AUTO := 3

  /** A key with its status and what the maps hold about its last disabling. */
  datatype Entry = Entry(key: string, status: int, time: Option<int>, reason: Option<string>)

  function Fresh(key: string): Entry { Entry(key, ENABLED, None, None) }

  function KeysOf(es: seq<Entry>): (ks: seq<string>)
    ensures |ks| == |es| && forall i :: 0 <= i < |ks| ==> ks[i] == es[i].key
  {
    seq(|es|, i requires 0 <= i < |es| => es[i].key)
  }

  /** The list abstraction of the key list and its three maps. */
  function EntriesOf(keys: seq<string>, status: map<int, int>, time: map<int, int>, reason: map<int, string>): (es: seq<Entry>)
    ensures |es| == |keys| && KeysOf(es) == keys
  {
    seq(|keys|, i requires 0 <= i < |keys| =>
      Entry(keys[i],
            if i in status then status[i] else ENABLED,
            if i in time then Some(time[i]) else None,
            if i in reason then Some(reason[i]) else None))
  }

  predicate Below<T>(m: map<int, T>, n: int) {
    forall i :: i in m ==> 0 <= i < n
  }

  // ----- what survives storing the key list as text -----

  function DropFront(ks: seq<string>): seq<string> {
    if ks != [] && ks[0] == "" then DropFront(ks[1..]) else ks
  }

  function DropBack(ks: seq<string>): seq<string> {
    if ks != [] && ks[|ks|-1] == "" then DropBack(ks[..|ks|-1]) else ks
  }

  /** No key, or a single blank one, joins to the empty text, which is not stored: the old keys stay. */
  predicate NotStored(ks: seq<string>) {
    ks == [] || ks == [""]
  }

  /**
   The keys found again after the list is joined with newlines and stored: blank keys at the ends are
   trimmed away, and a text that is empty altogether is not stored, so the old keys stay.
   */
  function Persisted(ks: seq<string>, stored: seq<string>): seq<string> {
    if NotStored(ks) then stored
    else
      var core := DropBack(DropFront(ks));
      if core == [] then [""] else core
  }

  predicate Storable(ks: seq<string>) {
    ks != [] && ks[0] != "" && ks[|ks|-1] != ""
  }

  lemma {:induction false} DropFrontShorter(ks: seq<string>)
    ensures |DropFront(ks)| <= |ks|
    ensures DropFront(ks) == ks <==> ks == [] || ks[0] != ""
    ensures DropFront(ks) != [] ==> DropFront(ks)[0] != ""
    ensures ks != [] && ks[|ks|-1] != "" ==> DropFront(ks) != [] && DropFront(ks)[|DropFront(ks)|-1] == ks[|ks|-1]
  {
    if ks != [] && ks[0] == "" { DropFrontShorter(ks[1..]); }
  }

  lemma {:induction false} DropBackShorter(ks: seq<string>)
    ensures |DropBack(ks)| <= |ks|
    ensures DropBack(ks) == ks <==> ks == [] || ks[|ks|-1] != ""
    ensures DropBack(ks) != [] ==> DropBack(ks)[|DropBack(ks)|-1] != "" && DropBack(ks)[0] == ks[0]
  {
    if ks != [] && ks[|ks|-1] == "" { DropBackShorter(ks[..|ks|-1]); }
  }

  /** A shortened key list survives storage exactly when it is not empty and no blank key ends it. */
  lemma {:induction false} SurvivesIffStorable(ks: seq<string>, stored: seq<string>)
    requires |ks| < |stored|
    ensures Persisted(ks, stored) == ks <==> Storable(ks)
  {
    DropFrontShorter(ks);
    DropBackShorter(DropFront(ks));
  }

  /** The number of blank keys in front of the first other key. */
  function Lead(ks: seq<string>): (n: nat)
    ensures n <= |ks|
  {
    if ks != [] && ks[0] == "" then 1 + Lead(ks[1..]) else 0
  }

  /** How far storage moves the keys against their metadata: of blank keys only, the first one stays. */
  function Shift(ks: seq<string>): nat {
    if Lead(ks) == |ks| then 0 else Lead(ks)
  }

  lemma {:induction false} DropFrontIsSuffix(ks: seq<string>)
    ensures DropFront(ks) == ks[Lead(ks)..]
    ensures forall i :: 0 <= i < Lead(ks) ==> ks[i] == ""
  {
    if ks != [] && ks[0] == "" {
      DropFrontIsSuffix(ks[1..]);
      assert forall i :: 0 < i < Lead(ks) ==> ks[i] == ks[1..][i-1];
    }
  }

  lemma {:induction false} DropBackIsPrefix(ks: seq<string>)
    ensures DropBack(ks) <= ks
    ensures forall i :: |DropBack(ks)| <= i < |ks| ==> ks[i] == ""
    ensures ks != [] && ks[0] != "" ==> DropBack(ks) != []
  {
    if ks != [] && ks[|ks|-1] == "" { DropBackIsPrefix(ks[..|ks|-1]); }
  }

  /** What is stored is a stretch of the list, and every key outside it is blank. */
  lemma {:induction false} PersistedIsSlice(ks: seq<string>, stored: seq<string>)
    requires !NotStored(ks)
    ensures var n := |Persisted(ks, stored)|;
            && 0 < n && Shift(ks) + n <= |ks|
            && Persisted(ks, stored) == ks[Shift(ks)..Shift(ks) + n]
            && (forall i :: 0 <= i < |ks| && !(Shift(ks) <= i < Shift(ks) + n) ==> ks[i] == "")
  {
    var front := DropFront(ks);
    DropFrontIsSuffix(ks);
    DropFrontShorter(ks);
    DropBackIsPrefix(front);
    if Lead(ks) == |ks| {
      assert ks[0..1] == [""];
    } else {
      var f, n := Lead(ks), |DropBack(front)|;
      assert ks[f..f + n] == front[..n];
      forall i | f + n <= i < |ks| ensures ks[i] == "" { assert ks[i] == front[i - f]; }
    }
  }

  /** What storage finds again is itself stable. */
  predicate Stable(ks: seq<string>) {
    ks == [] || ks == [""] || Storable(ks)
  }

  lemma {:induction false} PersistedIsStable(ks: seq<string>, stored: seq<string>)
    requires Stable(stored)
    ensures Stable(Persisted(ks, stored))
    ensures |Persisted(ks, stored)| <= |ks| || Persisted(ks, stored) == stored
  {
    DropFrontShorter(ks);
    DropBackShorter(DropFront(ks));
  }

  // ----- the same from the stored text -----

  /** `Channel.GetKeys` of a newline-separated text. */
  function GetKeys(text: string): seq<string> {
    if text == "" then [] else Split(Strip(text, '\n'), '\n')
  }

  /** The key text after an update; an empty one is not stored. */
  function StoredText(ks: seq<string>, text: string): string {
    if Join(ks, '\n') == "" then text else Join(ks, '\n')
  }

  lemma {:induction false} JoinIsEmptyIff(ks: seq<string>)
    ensures Join(ks, '\n') == "" <==> NotStored(ks)
  {
  }

  lemma {:induction false} StripLeftDropsBlanks(ks: seq<string>)
    requires SeparatorFree(ks, '\n')
    ensures StripLeft(Join(ks, '\n'), '\n') == Join(DropFront(ks), '\n')
  {
    if ks != [] && ks[0] == "" {
      StripLeftDropsBlanks(ks[1..]);
      if |ks| > 1 {
        var rest := Join(ks[1..], '\n');
        assert Join(ks, '\n') == "" + ['\n'] + rest == ['\n'] + rest;
        assert (['\n'] + rest)[1..] == rest;
      }
    } else if ks != [] {
      assert Join(ks, '\n')[0] == ks[0][0];
    }
  }

  /** Stripping the joined text is dropping blank keys at both ends. */
  lemma {:induction false} StripDropsBlanks(ks: seq<string>)
    requires SeparatorFree(ks, '\n')
    ensures Strip(Join(ks, '\n'), '\n') == Join(DropFront(DropBack(ks)), '\n')
  {
    if ks == [] {
    } else {
      var n := |ks| - 1;
      var front, last := ks[..n], ks[n];
      assert ks == front + [last];
      if n > 0 { JoinSnoc(front, last, '\n'); }
      var text := Join(ks, '\n');
      if last == "" {
        StripDropsBlanks(front);
        if n > 0 {
          var before := Join(front, '\n');
          assert text == before + ['\n'] + "" == before + ['\n'];
          assert text[..|text|-1] == before && text[|text|-1] == '\n';
        }
      } else {
        assert text[|text|-1] == last[|last|-1];
        assert last[|last|-1] in last;
        StripLeftDropsBlanks(ks);
      }
    }
  }

  lemma {:induction false} DropsCommute(ks: seq<string>)
    ensures DropFront(DropBack(ks)) == DropBack(DropFront(ks))
  {
    if ks == [] {
    } else if ks[0] != "" {
      DropBackIsPrefix(ks);
    } else if |ks| > 1 {
      DropsCommute(ks[1..]);
      DropFrontOfBack(ks);
    }
  }

  lemma {:induction false} DropFrontOfBack(ks: seq<string>)
    requires |ks| > 1 && ks[0] == ""
    ensures DropFront(DropBack(ks)) == DropFront(DropBack(ks[1..]))
  {
    var n := |ks| - 1;
    if ks[n] == "" {
      assert ks[..n][1..] == ks[1..][..n-1];
      if n > 1 { DropFrontOfBack(ks[..n]); }
    }
  }

  lemma {:induction false} DroppedIsSeparatorFree(ks: seq<string>)
    requires SeparatorFree(ks, '\n')
    ensures SeparatorFree(DropBack(DropFront(ks)), '\n')
  {
    DropFrontIsSuffix(ks);
    DropBackIsPrefix(DropFront(ks));
  }

  /** `Persisted` is what joining, storing, stripping and splitting make of keys without newlines. */
  lemma {:induction false} PersistedIsRoundTrip(ks: seq<string>, text: string)
    requires SeparatorFree(ks, '\n')
    ensures GetKeys(StoredText(ks, text)) == Persisted(ks, GetKeys(text))
  {
    JoinIsEmptyIff(ks);
    if !NotStored(ks) {
      var core := DropBack(DropFront(ks));
      StripDropsBlanks(ks);
      DropsCommute(ks);
      DroppedIsSeparatorFree(ks);
      if core != [] { SplitJoin(core, '\n'); }
    }
  }

  /** Whatever text is stored, its keys are stable and hold no newlines. */
  lemma {:induction false} StoredKeysAreStable(text: string)
    ensures Stable(GetKeys(text)) && SeparatorFree(GetKeys(text), '\n')
  {
    if text != "" {
      var core := Strip(text, '\n');
      PiecesHaveNoSeparator(core, '\n');
      StripEnds(text, '\n');
      if core != "" { EndPieces(core, '\n'); }
    }
  }

  /** Keys under metadata kept by index. */
  function Reattach(ks: seq<string>, es: seq<Entry>): seq<Entry> {
    seq(|ks|, i requires 0 <= i < |ks| => if i < |es| then es[i].(key := ks[i]) else Fresh(ks[i]))
  }

  /** The entries found again: keys as stored, metadata by index, missing metadata meaning enabled. */
  function Persist(es: seq<Entry>, stored: seq<string>): seq<Entry> {
    Reattach(Persisted(KeysOf(es), stored), es)
  }

  /** After storage, index j has the key that was `Shift` places further on and the metadata that was at j. */
  lemma {:induction false} PersistAt(rest: seq<Entry>, stored: seq<string>, j: nat)
    requires !NotStored(KeysOf(rest)) && j < |Persist(rest, stored)|
    ensures j + Shift(KeysOf(rest)) < |rest|
    ensures Persist(rest, stored)[j] == rest[j].(key := rest[j + Shift(KeysOf(rest))].key)
  {
    PersistedIsSlice(KeysOf(rest), stored);
  }

  lemma {:induction false} StorableSurvives(ks: seq<string>, stored: seq<string>)
    requires Storable(ks)
    ensures Persisted(ks, stored) == ks
  {
    DropFrontShorter(ks);
    DropBackShorter(DropFront(ks));
  }

  /** Other keys under the same maps, statuses cut to their number: metadata stays with its index. */
  lemma {:induction false} CutReattaches(l: Lists, ks: seq<string>)
    requires l.Bounded()
    ensures EntriesOf(ks, map i | i in l.status && i < |ks| :: l.status[i], l.time, l.reason) == Reattach(ks, l.Entries())
    ensures KeysOf(l.Entries()) == l.keys
  {
  }

  /** What `Channel.Update` makes of lists, given the keys stored before. */
  function Stored(l: Lists, keys: seq<string>): Lists {
    var ks := Persisted(l.keys, keys);
    Lists(ks, map i | i in l.status && i < |ks| :: l.status[i], l.time, l.reason)
  }

  /** No time and no reason is kept for the indices from lo up to hi. */
  predicate NothingBetween(l: Lists, lo: nat, hi: nat) {
    forall i :: lo <= i < hi ==> i !in l.time && i !in l.reason
  }

  /** More keys over maps that may reach beyond the old ones. */
  lemma {:induction false} ReattachOverMaps(l: Lists, all: seq<string>)
    requires Below(l.status, |l.keys|) && |Persisted(all, l.keys)| >= |l.keys|
    ensures var ks := Persisted(all, l.keys);
            && Stored(l.(keys := all), l.keys) == l.(keys := ks)
            && (l.(keys := ks).Entries() == Reattach(ks, l.Entries()) <==> NothingBetween(l, |l.keys|, |ks|))
  {
    var ks := Persisted(all, l.keys);
    var es, rs := l.(keys := ks).Entries(), Reattach(ks, l.Entries());
    assert forall i :: 0 <= i < |l.keys| ==> es[i] == rs[i];
    assert forall i :: |l.keys| <= i < |ks| ==> (es[i] == rs[i] <==> i !in l.time && i !in l.reason);
    assert es == rs <==> forall i :: 0 <= i < |ks| ==> es[i] == rs[i];
  }

  /** The index from which on keys are new: all of them are where the old keys are no prefix. */
  function NewFrom(before: seq<string>, after: seq<string>): nat {
    if before <= after then |before| else 0
  }

  lemma {:induction false} NewAreFreshIff(l: Lists, ks: seq<string>)
    requires Below(l.status, |l.keys|) && |ks| >= |l.keys| && (l.keys <= ks || l.keys == [""])
    ensures (forall i :: NewFrom(l.keys, ks) <= i < |ks| ==> l.(keys := ks).Entries()[i] == Fresh(ks[i])) <==>
              NothingBetween(l, |l.keys|, |ks|) && (l.keys <= ks || l.Entries() == [Fresh("")])
  {
    var es := l.(keys := ks).Entries();
    assert forall i :: |l.keys| <= i < |ks| ==> (es[i] == Fresh(ks[i]) <==> i !in l.time && i !in l.reason);
    if l.keys == [""] {
      assert es[0] == l.Entries()[0].(key := ks[0]);
      assert l.Entries() == [l.Entries()[0]];
    }
  }

  /** Metadata stays with its index. */
  lemma {:induction false} MetadataStays(l: Lists, ks: seq<string>)
    requires Below(l.status, |l.keys|)
    ensures forall i :: 0 <= i < |l.keys| && i < |ks| ==> l.(keys := ks).Entries()[i] == l.Entries()[i].(key := ks[i])
  {
  }

  // ----- the management actions on the list -----

  function Without<T>(s: seq<T>, i: nat): seq<T>
    requires i < |s|
  {
    s[..i] + s[i+1..]
  }

  /** Drop the auto-disabled entries; an enabled entry forgets what it was once disabled for. */
  function Sweep(es: seq<Entry>): seq<Entry> {
    if es == [] then []
    else Sweep(es[..|es|-1]) + SweepOne(es[|es|-1])
  }

  function SweepOne(e: Entry): seq<Entry> {
    if e.status == AUTO then [] else if e.status == ENABLED then [Fresh(e.key)] else [e]
  }

  datatype Action =
    | DisableKey(index: Option<int>)
    | EnableKey(index: Option<int>)
    | EnableAll
    | DisableAll
    | DeleteKey(index: Option<int>)
    | DeleteDisabled
    | AppendKeys(input: seq<string>)

  predicate InRange(index: Option<int>, n: nat) {
    index.Some? && 0 <= index.value < n
  }

  predicate AnyAuto(es: seq<Entry>) {
    exists i :: 0 <= i < |es| && es[i].status == AUTO
  }

  function DisableEnabled(e: Entry): Entry {
    if e.status == ENABLED then e.(status := MANUAL) else e
  }

  function AllFresh(ks: seq<string>): seq<Entry> {
    seq(|ks|, i requires 0 <= i < |ks| => Fresh(ks[i]))
  }

  /** The entries with new keys behind them; where there are none yet, the input as it comes. */
  function Appended(es: seq<Entry>, input: seq<string>): seq<Entry> {
    es + AllFresh(if es == [] then input else NewKeys(TrimAll(KeysOf(es)), TrimAll(input)))
  }

  /** What an action makes of the entries; a refused action changes nothing. */
  function Apply(es: seq<Entry>, a: Action): seq<Entry> {
    match a
    case DisableKey(k) => if InRange(k, |es|) then es[k.value := es[k.value].(status := MANUAL)] else es
    case EnableKey(k) => if InRange(k, |es|) then es[k.value := Fresh(es[k.value].key)] else es
    case EnableAll => seq(|es|, i requires 0 <= i < |es| => Fresh(es[i].key))
    case DisableAll => seq(|es|, i requires 0 <= i < |es| => DisableEnabled(es[i]))
    case DeleteKey(k) =>
      if InRange(k, |es|) && |es| > 1 then Persist(Without(es, k.value), KeysOf(es)) else es
    case DeleteDisabled => if AnyAuto(es) then Persist(Sweep(es), KeysOf(es)) else es
    case AppendKeys(input) => Persist(Appended(es, input), KeysOf(es))
  }

  /**
   What the switching actions do to every entry, by its status before: 1 is enabled, 2 manually and 3
   automatically disabled.  An index that is missing or out of range changes nothing.
   */
  lemma {:induction false} SwitchMeans(es: seq<Entry>, a: Action)
    ensures !a.DeleteKey? && !a.DeleteDisabled? && !a.AppendKeys? ==> |Apply(es, a)| == |es|
    ensures match a
            case DisableKey(Some(k)) =>
              && (0 <= k < |es| ==> Apply(es, a)[k] == Entry(es[k].key, 2, es[k].time, es[k].reason))
              && (forall j :: 0 <= j < |es| && j != k ==> Apply(es, a)[j] == es[j])
            case EnableKey(Some(k)) =>
              && (0 <= k < |es| ==> Apply(es, a)[k] == Entry(es[k].key, 1, None, None))
              && (forall j :: 0 <= j < |es| && j != k ==> Apply(es, a)[j] == es[j])
            case EnableAll => forall j :: 0 <= j < |es| ==> Apply(es, a)[j] == Entry(es[j].key, 1, None, None)
            case DisableAll =>
              forall j :: 0 <= j < |es| ==>
                Apply(es, a)[j] == Entry(es[j].key, if es[j].status == 1 then 2 else es[j].status, es[j].time, es[j].reason)
            case DeleteKey(Some(k)) => !(0 <= k < |es|) || |es| == 1 ==> Apply(es, a) == es
            case DeleteDisabled => (forall j :: 0 <= j < |es| ==> es[j].status != 3) ==> Apply(es, a) == es
            case AppendKeys(input) => Apply(es, a) == Reattach(AfterAppend(KeysOf(es), input), es)
            case _ => Apply(es, a) == es
  {
    if a.AppendKeys? { AppendReattaches(es, a.input); }
  }

  lemma {:induction false} FreshBehind(ks: seq<string>, es: seq<Entry>, added: seq<string>)
    ensures Reattach(ks, es + AllFresh(added)) == Reattach(ks, es)
    ensures KeysOf(es + AllFresh(added)) == KeysOf(es) + added
  {
  }

  /** New keys go behind the old ones, and after storage metadata stays with its index. */
  lemma {:induction false} AppendReattaches(es: seq<Entry>, input: seq<string>)
    ensures Apply(es, AppendKeys(input)) == Reattach(AfterAppend(KeysOf(es), input), es)
  {
    var existing := KeysOf(es);
    var added := if es == [] then input else NewKeys(TrimAll(existing), TrimAll(input));
    assert existing == [] ==> existing + input == input;
    FreshBehind(Persisted(existing + added, existing), es, added);
  }

  /** The key list and the three maps under construction. */
  datatype Lists = Lists(keys: seq<string>, status: map<int, int>, time: map<int, int>, reason: map<int, string>) {
    predicate Bounded() { Below(status, |keys|) && Below(time, |keys|) && Below(reason, |keys|) }
    function Entries(): seq<Entry> { EntriesOf(keys, status, time, reason) }
    function Left(): Leftover { Leftover(Beyond(time, |keys|), Beyond(reason, |keys|)) }
    function Ones(): set<int> { set i | i in status && status[i] == ENABLED }
    function Whole(): Contents { Contents(Entries(), Left(), Ones()) }
  }

  lemma {:induction false} EntriesSnoc(l: Lists, m: Lists, e: Entry)
    requires l.Bounded() && m.keys == l.keys
    requires m.status == if e.status == ENABLED then l.status else l.status[|l.keys| := e.status]
    requires m.time == if e.time.None? then l.time else l.time[|l.keys| := e.time.value]
    requires m.reason == if e.reason.None? then l.reason else l.reason[|l.keys| := e.reason.value]
    ensures var r := m.(keys := l.keys + [e.key]); r.Bounded() && r.Entries() == l.Entries() + [e]
  {
    var r := m.(keys := l.keys + [e.key]);
    var es, fs := l.Entries(), r.Entries();
    forall i | 0 <= i < |es| ensures fs[i] == es[i] { assert r.keys[i] == l.keys[i]; }
    assert fs[|es|] == e;
  }

  function Skip<T>(s: seq<T>, k: nat): seq<T> {
    if k < |s| then Without(s, k) else s
  }

  lemma {:induction false} SkipSnoc<T>(s: seq<T>, i: nat, k: nat)
    requires i < |s|
    ensures Skip(s[..i+1], k) == Skip(s[..i], k) + if i == k then [] else [s[i]]
  {
    var longer := s[..i+1];
    if k <= i {
      assert longer[..k] == s[..k] && longer[k+1..] == s[k+1..i+1];
    }
    if k < i {
      assert s[..i][..k] == s[..k] && s[..i][k+1..] == s[k+1..i];
      assert s[k+1..i+1] == s[k+1..i] + [s[i]];
    }
  }

  lemma {:induction false} SweepSnoc(es: seq<Entry>, i: nat)
    requires i < |es|
    ensures Sweep(es[..i+1]) == Sweep(es[..i]) + SweepOne(es[i])
  {
    assert es[..i+1][..i] == es[..i];
  }

  lemma {:induction false} AnyAutoIff(es: seq<Entry>)
    ensures AnyAuto(es) <==> Tally(es, AUTO) > 0
    ensures |Sweep(es)| + Tally(es, AUTO) == |es|
  {
    if es != [] {
      var n := |es| - 1;
      AnyAutoIff(es[..n]);
      assert AnyAuto(es) <==> AnyAuto(es[..n]) || es[n].status == AUTO by {
        assert es == es[..n] + [es[n]];
        if j :| 0 <= j < n && es[..n][j].status == AUTO { assert es[j].status == AUTO; }
        if j :| 0 <= j < |es| && es[j].status == AUTO { assert j < n ==> es[..n][j] == es[j]; }
      }
    }
  }

  lemma {:induction false} StatusSnoc(es: seq<Entry>, i: nat)
    requires i < |es|
    ensures StatusList(es[..i+1]) == StatusList(es[..i]) + [StatusOf(es[i], i)]
  {
  }

  lemma {:induction false} TallySnoc(es: seq<Entry>, i: nat, s: int)
    requires i < |es|
    ensures Tally(es[..i+1], s) == Tally(es[..i], s) + if es[i].status == s then 1 else 0
  {
    assert es[..i+1][..i] == es[..i];
  }

  lemma {:induction false} NothingToDisable(es: seq<Entry>)
    requires Tally(es, ENABLED) == 0
    ensures Apply(es, DisableAll) == es
  {
    TallyIsCount(es, |es|, ENABLED);
    assert es[..|es|] == es;
    forall i | 0 <= i < |es| ensures es[i].status != ENABLED { assert i !in Having(es, |es|, ENABLED); }
  }

  /** The first n entries with `DisableEnabled` applied. */
  function DisableFirst(es: seq<Entry>, n: nat): seq<Entry> {
    seq(|es|, i requires 0 <= i < |es| => if i < n then DisableEnabled(es[i]) else es[i])
  }

  lemma {:induction false} DisableNext(es: seq<Entry>, i: nat)
    requires i < |es|
    ensures DisableFirst(es, i)[i] == es[i]
    ensures DisableFirst(es, i)[i := DisableEnabled(es[i])] == DisableFirst(es, i + 1)
  {
  }

  // ----- times and reasons beyond the keys -----

  /** The times and reasons kept for indices without a key. */
  datatype Leftover = Leftover(time: map<int, int>, reason: map<int, string>)

  const NOTHING_LEFT := Leftover(map[], map[])

  function Beyond<T>(m: map<int, T>, n: int): map<int, T> {
    map i | i in m && !(0 <= i < n) :: m[i]
  }

  /** The times and reasons of the entries from index n on. */
  function LeftFrom(es: seq<Entry>, n: nat): Leftover {
    Leftover(map i | n <= i < |es| && es[i].time.Some? :: es[i].time.value,
             map i | n <= i < |es| && es[i].reason.Some? :: es[i].reason.value)
  }

  /**
   All there is to a channel: its entries, what is left beyond them, and the indices whose status is stored although
   it is that of an enabled key.
   */
  datatype Contents = Contents(entries: seq<Entry>, left: Leftover, ones: set<int>)

  /** The entry of a new key at an index where something may be left. */
  function Inherited(left: Leftover, key: string, i: int): Entry {
    Entry(key, ENABLED,
          if i in left.time then Some(left.time[i]) else None,
          if i in left.reason then Some(left.reason[i]) else None)
  }

  /** A longer key list over the same metadata. */
  function Inherit(c: Contents, ks: seq<string>): Contents {
    Contents(seq(|ks|, i requires 0 <= i < |ks| =>
                   if i < |c.entries| then c.entries[i].(key := ks[i]) else Inherited(c.left, ks[i], i)),
             Leftover(Beyond(c.left.time, |ks|), Beyond(c.left.reason, |ks|)),
             c.ones)
  }

  /** The stored statuses of enabled keys: a key that is switched has none afterwards, and a rebuilt list has none. */
  function OnesAfter(c: Contents, a: Action): set<int> {
    match a
    case DisableKey(k) => if InRange(k, |c.entries|) then c.ones - {k.value} else c.ones
    case EnableKey(k) => if InRange(k, |c.entries|) then c.ones - {k.value} else c.ones
    case EnableAll => {}
    case DisableAll => {}
    case AppendKeys(_) => c.ones
    case _ => if Rebuilt(c.entries, a).Some? then {} else c.ones
  }

  /** What an action makes of the contents: a list that is rebuilt leaves what storage trims off it, and nothing else. */
  function Step(c: Contents, a: Action): Contents {
    var es, ones := Apply(c.entries, a), OnesAfter(c, a);
    match a
    case AppendKeys(input) => Inherit(c, AfterAppend(KeysOf(c.entries), input))
    case EnableAll => Contents(es, NOTHING_LEFT, ones)
    case _ =>
      match Rebuilt(c.entries, a)
      case Some(rest) => Contents(es, LeftFrom(rest, |es|), ones)
      case None => Contents(es, c.left, ones)
  }

  function After(c: Contents, actions: seq<Action>): Contents {
    Runs.Fold(Step, c, actions)
  }

  lemma {:induction false} BeyondWithout<T>(m: map<int, T>, i: int, n: int)
    requires 0 <= i < n
    ensures Beyond(m - {i}, n) == Beyond(m, n)
  {
  }

  lemma {:induction false} BeyondTwice<T>(m: map<int, T>, n: nat, k: nat)
    requires n <= k
    ensures Beyond(Beyond(m, n), k) == Beyond(m, k)
  {
  }

  /** Longer keys over the same maps. */
  lemma {:induction false} LongerKeys(l: Lists, ks: seq<string>)
    requires Below(l.status, |l.keys|) && |ks| >= |l.keys|
    ensures l.(keys := ks).Whole() == Inherit(l.Whole(), ks)
  {
    BeyondTwice(l.time, |l.keys|, |ks|);
    BeyondTwice(l.reason, |l.keys|, |ks|);
    var es, fs := l.(keys := ks).Entries(), Inherit(l.Whole(), ks).entries;
    forall i | 0 <= i < |ks| ensures es[i] == fs[i] { assert i < |l.keys| ==> l.Entries()[i].key == l.keys[i]; }
  }

  lemma {:induction false} BeyondIsLeft(l: Lists, n: nat)
    requires l.Bounded()
    ensures Leftover(Beyond(l.time, n), Beyond(l.reason, n)) == LeftFrom(l.Entries(), n)
  {
    var left := LeftFrom(l.Entries(), n);
    assert Beyond(l.time, n) == left.time;
    assert Beyond(l.reason, n) == left.reason;
  }

  /** Lists that hold no more than their keys call for leave exactly what their entries have beyond the size. */
  lemma {:induction false} StoredContents(l: Lists, keys: seq<string>)
    requires l.Bounded()
    requires l.Ones() == {}
    ensures Stored(l, keys).Whole() ==
              Contents(Persist(l.Entries(), keys), LeftFrom(l.Entries(), |Persisted(l.keys, keys)|), {})
  {
    CutReattaches(l, Persisted(l.keys, keys));
    BeyondIsLeft(l, |Persisted(l.keys, keys)|);
  }

  // ----- keys and statuses alone -----

  function Bare(e: Entry): Entry { Entry(e.key, e.status, None, None) }

  function BareAll(es: seq<Entry>): seq<Entry> {
    seq(|es|, i requires 0 <= i < |es| => Bare(es[i]))
  }

  lemma {:induction false} BareSweep(es: seq<Entry>)
    ensures BareAll(Sweep(es)) == Sweep(BareAll(es))
  {
    if es != [] {
      var n := |es| - 1;
      BareSweep(es[..n]);
      assert BareAll(es)[..n] == BareAll(es[..n]);
    }
  }

  lemma {:induction false} BarePersist(es: seq<Entry>, stored: seq<string>)
    ensures BareAll(Persist(es, stored)) == Persist(BareAll(es), stored)
  {
    assert KeysOf(BareAll(es)) == KeysOf(es);
  }

  lemma {:induction false} BareAnyAuto(es: seq<Entry>)
    ensures AnyAuto(BareAll(es)) <==> AnyAuto(es)
  {
    if AnyAuto(es) {
      var i :| 0 <= i < |es| && es[i].status == AUTO;
      assert BareAll(es)[i].status == AUTO;
    }
  }

  lemma {:induction false} BareAppended(es: seq<Entry>, input: seq<string>)
    ensures BareAll(Appended(es, input)) == Appended(BareAll(es), input)
  {
    assert KeysOf(BareAll(es)) == KeysOf(es);
  }

  lemma {:induction false} BareWithout(es: seq<Entry>, k: nat)
    requires k < |es|
    ensures BareAll(Without(es, k)) == Without(BareAll(es), k)
  {
  }

  lemma {:induction false} BareRebuilt(es: seq<Entry>, a: Action)
    ensures match Rebuilt(es, a)
            case None => Rebuilt(BareAll(es), a).None?
            case Some(rest) => Rebuilt(BareAll(es), a) == Some(BareAll(rest))
  {
    match a
    case DeleteKey(k) => if InRange(k, |es|) { BareWithout(es, k.value); }
    case DeleteDisabled =>
      BareSweep(es);
      BareAnyAuto(es);
    case AppendKeys(input) => BareAppended(es, input);
    case _ =>
  }

  /** What an action makes of keys and statuses depends on nothing else. */
  lemma {:induction false} BareApply(es: seq<Entry>, a: Action)
    ensures BareAll(Apply(es, a)) == Apply(BareAll(es), a)
  {
    BareRebuilt(es, a);
    assert KeysOf(BareAll(es)) == KeysOf(es);
    if Rebuilt(es, a).Some? { BarePersist(Rebuilt(es, a).value, KeysOf(es)); }
  }

  class Channel {
    var keys: seq<string>
    var size: int
    var status: map<int, int>
    var time: map<int, int>
    var reason: map<int, string>

    /** The recorded size is the number of keys and every status belongs to one of them. */
    ghost predicate Valid() reads this {
      size == |keys| && Stable(keys) && Below(status, size)
    }

    ghost function Entries(): (es: seq<Entry>)
      reads this
      ensures |es| == |keys| && KeysOf(es) == keys
    {
      EntriesOf(keys, status, time, reason)
    }

    ghost function Info(): Lists reads this { Lists(keys, status, time, reason) }

    ghost function State(): (c: Contents)
      reads this
      ensures c.entries == Entries()
    {
      Info().Whole()
    }

    /** A channel as it was stored. */
    constructor (l: Lists)
      requires Stable(l.keys) && Below(l.status, |l.keys|)
      ensures Valid() && Info() == l
    {
      keys, size := l.keys, |l.keys|;
      status, time, reason := l.status, l.time, l.reason;
    }

    /** `Channel.Update`: store the joined keys, recount them and drop statuses beyond the count. */
    method Store(l: Lists)
      requires Valid() && Below(l.status, |l.keys|)
      modifies this
      ensures Valid() && Info() == Stored(l, old(keys))
    {
      PersistedIsStable(l.keys, keys);
      keys := Persisted(l.keys, keys);
      size := |keys|;
      status := map i | i in l.status && i < size :: l.status[i];
      time, reason := l.time, l.reason;
    }

    /** The same on rebuilt lists, whose maps hold no more than the keys call for. */
    method Update(l: Lists)
      requires Valid() && l.Bounded() && l.Ones() == {}
      modifies this
      ensures Valid() && time == l.time && reason == l.reason
      ensures State() == Contents(Persist(l.Entries(), old(keys)), LeftFrom(l.Entries(), |keys|), {})
    {
      StoredContents(l, keys);
      Store(l);
    }

    method Disable(index: Option<int>) returns (ok: bool)
      requires Valid()
      modifies this
      ensures Valid() && ok == InRange(index, |old(keys)|)
      ensures State() == Step(old(State()), DisableKey(index))
      ensures Info() == if ok then old(Info()).(status := old(status)[index.value := 2]) else old(Info())
    {
      if index.None? || index.value < 0 || index.value >= size { return false; }
      status := status[index.value := MANUAL];
      assert Entries() == Apply(old(Entries()), DisableKey(index));
      return true;
    }

    method Enable(index: Option<int>) returns (ok: bool)
      requires Valid()
      modifies this
      ensures Valid() && ok == InRange(index, |old(keys)|)
      ensures State() == Step(old(State()), EnableKey(index))
      ensures ok ==> status == old(status) - {index.value}
      ensures ok ==> time == old(time) - {index.value} && reason == old(reason) - {index.value}
      ensures !ok ==> Info() == old(Info())
    {
      if index.None? || index.value < 0 || index.value >= size { return false; }
      BeyondWithout(time, index.value, size);
      BeyondWithout(reason, index.value, size);
      status := status - {index.value};
      time := time - {index.value};
      reason := reason - {index.value};
      assert Entries() == Apply(old(Entries()), EnableKey(index));
      return true;
    }

    method EnableEvery() returns (enabled: nat)
      requires Valid()
      modifies this
      ensures Valid() && enabled == |old(status)|
      ensures State() == Step(old(State()), EnableAll)
      // The keys that were not enabled, and those that were although a status was stored.
      ensures enabled == |Disabled(old(Entries()), |old(keys)|)| + |old(State()).ones|
    {
      StatusesAreCounted(Info());
      enabled := |status|;
      status, time, reason := map[], map[], map[];
      assert Entries() == Apply(old(Entries()), EnableAll);
    }

    /** Disable the key at an index if it is enabled. */
    method SwitchOff(i: nat) returns (switched: bool)
      requires Valid() && i < size
      modifies `status
      ensures Valid() && switched == (old(Entries())[i].status == ENABLED)
      ensures Entries() == old(Entries())[i := DisableEnabled(old(Entries())[i])]
      ensures status == if switched then old(status)[i := MANUAL] else old(status)
    {
      var s := if i in status then status[i] else ENABLED;
      switched := s == ENABLED;
      if switched { status := status[i := MANUAL]; }
      assert Entries()[i] == DisableEnabled(old(Entries())[i]);
    }

    method DisableEvery() returns (disabled: nat)
      requires Valid()
      modifies this
      ensures Valid() && time == old(time) && reason == old(reason)
      ensures State() == Step(old(State()), DisableAll)
      ensures forall i :: 0 <= i < |keys| ==>
                i in status && status[i] == if old(Entries())[i].status == 1 then 2 else old(Entries())[i].status
      ensures disabled == Tally(old(Entries()), ENABLED)
      ensures disabled == 0 ==> Entries() == old(Entries())
    {
      disabled := SwitchAllOff();
      NoneStoredEnabled(Info());
    }

    method SwitchAllOff() returns (disabled: nat)
      requires Valid()
      modifies `status
      ensures Valid() && Entries() == Apply(old(Entries()), DisableAll)
      ensures disabled == Tally(old(Entries()), ENABLED)
      ensures disabled == 0 ==> Entries() == old(Entries())
    {
      disabled := 0;
      ghost var es := Entries();
      for i := 0 to size
        invariant Below(status, size)
        invariant Entries() == DisableFirst(es, i)
        invariant disabled == Tally(es[..i], ENABLED)
      {
        DisableNext(es, i);
        TallySnoc(es, i, ENABLED);
        var switched := SwitchOff(i);
        if switched { disabled := disabled + 1; }
      }
      assert DisableFirst(es, |es|) == Apply(es, DisableAll);
      assert es[..|es|] == es;
      if disabled == 0 { NothingToDisable(es); }
    }

    /** `delete_key`: rebuild the list and the three maps without one index. */
    method Delete(index: Option<int>) returns (ok: bool)
      requires Valid()
      modifies this
      ensures Valid()
      ensures ok == (InRange(index, |old(keys)|) && |old(keys)| > 1)
      ensures State() == Step(old(State()), DeleteKey(index))
    {
      if index.None? || index.value < 0 || index.value >= size { return false; }
      var k := index.value;
      var l := RebuildWithout(k);
      if |l.keys| == 0 { return false; }
      Update(l);
      return true;
    }

    method RebuildWithout(k: nat) returns (l: Lists)
      requires Valid() && k < size
      ensures l.Bounded() && l.Ones() == {} && l.Entries() == Without(Entries(), k) && l.keys == Without(keys, k)
    {
      l := Lists([], map[], map[], map[]);
      ghost var es := Entries();
      for i := 0 to |keys|
        invariant l.Bounded() && l.Ones() == {} && l.Entries() == Skip(es[..i], k) && l.keys == Skip(keys[..i], k)
      {
        SkipSnoc(es, i, k);
        SkipSnoc(keys, i, k);
        if i != k {
          l := CopyEntry(l, i, if i in status then status[i] else ENABLED, true);
        }
      }
      assert es[..|keys|] == es && keys[..|keys|] == keys;
    }

    /** Carry one key over to the lists being rebuilt, with its status unless that is the default. */
    method CopyEntry(l: Lists, i: nat, s: int, withHistory: bool) returns (r: Lists)
      requires Valid() && i < size && l.Bounded()
      ensures r.Bounded() && r.keys == l.keys + [keys[i]] && r.Ones() == l.Ones()
      ensures r.Entries() == l.Entries() +
                [if withHistory then Entries()[i].(status := s) else Entry(keys[i], s, None, None)]
    {
      var newIndex := |l.keys|;
      var st, ti, re := l.status, l.time, l.reason;
      if s != ENABLED { st := st[newIndex := s]; }
      if withHistory {
        if i in time { ti := ti[newIndex := time[i]]; }
        if i in reason { re := re[newIndex := reason[i]]; }
      }
      ghost var e := if withHistory then Entries()[i].(status := s) else Entry(keys[i], s, None, None);
      EntriesSnoc(l, Lists(l.keys, st, ti, re), e);
      r := Lists(l.keys + [keys[i]], st, ti, re);
    }

    /** `delete_disabled_keys`: rebuild without the auto-disabled keys. */
    method DeleteAutoDisabled() returns (deleted: nat)
      requires Valid()
      modifies this
      ensures Valid()
      ensures deleted == Tally(old(Entries()), AUTO)
      ensures State() == Step(old(State()), DeleteDisabled)
    {
      var l;
      deleted, l := RebuildSwept();
      AnyAutoIff(Entries());
      if deleted == 0 { return; }
      Update(l);
    }

    method RebuildSwept() returns (deleted: nat, l: Lists)
      requires Valid()
      ensures l.Bounded() && l.Ones() == {} && l.Entries() == Sweep(Entries())
      ensures deleted == Tally(Entries(), AUTO)
    {
      deleted, l := 0, Lists([], map[], map[], map[]);
      ghost var es := Entries();
      for i := 0 to |keys|
        invariant l.Bounded() && l.Ones() == {} && l.Entries() == Sweep(es[..i])
        invariant deleted == Tally(es[..i], AUTO)
      {
        SweepSnoc(es, i);
        TallySnoc(es, i, AUTO);
        var s := if i in status then status[i] else ENABLED;
        if s == AUTO {
          deleted := deleted + 1;
        } else {
          l := CopyEntry(l, i, s, s != ENABLED);
        }
      }
      assert es[..|keys|] == es;
    }

    /** One management action. */
    method Act(a: Action)
      requires Valid()
      modifies this
      ensures Valid()
      ensures State() == Step(old(State()), a)
    {
      match a
      case DisableKey(k) => var _ := Disable(k);
      case EnableKey(k) => var _ := Enable(k);
      case EnableAll => var _ := EnableEvery();
      case DisableAll => var _ := DisableEvery();
      case DeleteKey(k) => var _ := Delete(k);
      case DeleteDisabled => var _ := DeleteAutoDisabled();
      case AppendKeys(input) => Append(input);
    }

    /**
     Any run of management actions and appends takes the channel where the run on its contents leads; the size is
     the key count and statuses stay below it.
     */
    method Manage(actions: seq<Action>)
      requires Valid()
      modifies this
      ensures Valid() && State() == After(old(State()), actions)
      decreases actions
    {
      if actions != [] {
        Act(actions[0]);
        Manage(actions[1..]);
      }
    }

    /**
     What enabling all keys reports after any run: the number of keys disabled by then, if no status of an enabled key
     was stored at the start.
     */
    method ManageAndEnable(actions: seq<Action>) returns (enabled: nat)
      requires Valid()
      modifies this
      ensures Valid() && State() == Step(After(old(State()), actions), EnableAll)
      ensures old(State()).ones == {} ==>
                var es := After(old(State()), actions).entries; enabled == |Disabled(es, |es|)|
    {
      OnesNeverGrow(State(), actions);
      Manage(actions);
      enabled := EnableEvery();
    }

    /** The append branch of `UpdateChannel`: new keys go behind the old ones unless already present. */
    method Append(input: seq<string>)
      requires Valid()
      modifies this
      ensures Valid()
      ensures Info() == old(Info()).(keys := AfterAppend(old(keys), input)) && |keys| >= |old(keys)|
      ensures State() == Step(old(State()), AppendKeys(input))
      ensures Entries() == Apply(old(Entries()), AppendKeys(input)) <==> NothingBetween(old(Info()), |old(keys)|, |keys|)
      // Metadata stays with its index.
      ensures forall i :: 0 <= i < |old(keys)| ==> Entries()[i] == old(Entries())[i].(key := keys[i])
      // The new keys are fresh if and only if nothing was left over at their indices and a blank key that gave way
      // to the first of them was fresh itself.
      ensures (forall i :: NewFrom(old(keys), keys) <= i < |keys| ==> Entries()[i] == Fresh(keys[i])) <==>
                && NothingBetween(old(Info()), |old(keys)|, |keys|)
                && (old(keys) <= keys || old(Entries()) == [Fresh("")])
    {
      ghost var before := Info();
      AppendStores(before, input);
      AppendRefines(before, input);
      LongerKeys(before, AfterAppend(keys, input));
      MetadataStays(before, AfterAppend(keys, input));
      NewAreFreshIff(before, AfterAppend(keys, input));
      assert before.Entries() == Entries();
      var all := input;
      if keys != [] {
        var added := Deduplicate(keys, input);
        all := keys + added;
      }
      Store(Lists(all, status, time, reason));
      assert Info().Entries() == Entries();
    }

    /** `get_key_status`: the statuses of all keys, filtered, and one page of them. */
    method GetStatus(filter: Option<int>, page: int, pageSize: int) returns (r: StatusPage)
      requires Valid()
      ensures r.keys == PageOf(Matching(StatusList(Entries()), filter), page, pageSize)
      ensures r.total == |Matching(StatusList(Entries()), filter)|
      ensures r.pageSize == if pageSize <= 0 then 50 else pageSize
      ensures r.totalPages == TotalPages(r.total, r.pageSize)
      ensures r.page == if page <= 0 then 1 else if page > r.totalPages then r.totalPages else page
      ensures r.enabled == Tally(Entries(), ENABLED) && r.manual == Tally(Entries(), MANUAL)
      ensures r.auto == Tally(Entries(), AUTO)
      ensures Ascending(r.keys)
    {
      ViewMeans(Entries(), filter, page, pageSize);
      var all, enabled, manual, auto := BuildStatusList();
      var filtered := FilterStatuses(all, filter);
      var shown, wanted, size, total := TakePage(filtered, page, pageSize);
      r := StatusPage(shown, |filtered|, wanted, size, total, enabled, manual, auto);
    }

    /** The status line of one key. */
    method LineOf(i: nat) returns (line: KeyStatus)
      requires Valid() && i < size
      ensures line == StatusOf(Entries()[i], i)
    {
      var s := if i in status then status[i] else ENABLED;
      var t := if s != ENABLED && i in time then time[i] else 0;
      var w := if s != ENABLED && i in reason then reason[i] else "";
      return KeyStatus(i, s, t, w, if |keys[i]| > 10 then keys[i][..10] + "..." else keys[i]);
    }

    method BuildStatusList() returns (all: seq<KeyStatus>, enabled: nat, manual: nat, auto: nat)
      requires Valid()
      ensures all == StatusList(Entries())
      ensures enabled == Tally(Entries(), ENABLED) && manual == Tally(Entries(), MANUAL) && auto == Tally(Entries(), AUTO)
    {
      all, enabled, manual, auto := [], 0, 0, 0;
      ghost var es := Entries();
      for i := 0 to |keys|
        invariant all == StatusList(es[..i])
        invariant enabled == Tally(es[..i], ENABLED) && manual == Tally(es[..i], MANUAL) && auto == Tally(es[..i], AUTO)
      {
        StatusSnoc(es, i);
        TallySnoc(es, i, ENABLED);
        TallySnoc(es, i, MANUAL);
        TallySnoc(es, i, AUTO);
        var line := LineOf(i);
        if line.status == ENABLED {
          enabled := enabled + 1;
        } else if line.status == MANUAL {
          manual := manual + 1;
        } else if line.status == AUTO {
          auto := auto + 1;
        }
        all := all + [line];
      }
      assert es[..|keys|] == es;
    }
  }

  method CountPages(n: nat, pageSize: nat) returns (total: nat)
    requires pageSize > 0
    ensures total == TotalPages(n, pageSize) && total > 0
  {
    total := (n + pageSize - 1) / pageSize;
    if total == 0 { total := 1; }
  }

  method TakePage<T>(list: seq<T>, page: int, pageSize: int) returns (shown: seq<T>, wanted: nat, size: nat, total: nat)
    ensures size == if pageSize <= 0 then 50 else pageSize
    ensures total == TotalPages(|list|, size) && shown == PageOf(list, page, pageSize)
    ensures wanted == if page <= 0 then 1 else if page > total then total else page
  {
    var n, p := pageSize, page;
    if p <= 0 { p := 1; }
    if n <= 0 { n := 50; }
    total := CountPages(|list|, n);
    if p > total { p := total; }
    var start := Product(p - 1, n);
    var end := start + n;
    if end > |list| { end := |list|; }
    shown := [];
    if start < |list| { shown := list[start..end]; }
    wanted, size := p, n;
  }

  method FilterStatuses(all: seq<KeyStatus>, filter: Option<int>) returns (filtered: seq<KeyStatus>)
    ensures filtered == Matching(all, filter)
  {
    if filter.None? { return all; }
    filtered := [];
    for i := 0 to |all|
      invariant filtered == Matching(all[..i], filter)
    {
      assert all[..i+1][..i] == all[..i];
      if all[i].status == filter.value { filtered := filtered + [all[i]]; }
    }
    assert all[..|all|] == all;
  }

  // ----- appending keys -----

  /** The keys a trimmed list holds. */
  function Known(ks: seq<string>): set<string> {
    set i | 0 <= i < |ks| && ks[i] != "" :: ks[i]
  }

  lemma {:induction false} KnownSnoc(ks: seq<string>, k: string)
    ensures Known(ks + [k]) == Known(ks) + if k != "" then {k} else {}
  {
    var longer := ks + [k];
    assert forall i :: 0 <= i < |ks| ==> longer[i] == ks[i];
    assert longer[|ks|] == k;
  }

  /** The keys to append, given the trimmed existing keys and the trimmed input. */
  function NewKeys(existing: seq<string>, input: seq<string>): seq<string> {
    if input == [] then []
    else
      var before := NewKeys(existing, input[..|input|-1]);
      var k := input[|input|-1];
      if k == "" || k in Known(existing) + Known(before) then before else before + [k]
  }

  predicate Distinct(ks: seq<string>) {
    forall i, j :: 0 <= i < j < |ks| ==> ks[i] != ks[j]
  }

  /** The keys appended are not blank, pairwise different and not there before; none of the input is missed. */
  lemma {:induction false} NewKeysAreNew(existing: seq<string>, input: seq<string>)
    ensures Distinct(NewKeys(existing, input)) && "" !in NewKeys(existing, input)
    ensures Known(NewKeys(existing, input)) == Known(input) - Known(existing)
  {
    if input != [] {
      var n := |input| - 1;
      var before := NewKeys(existing, input[..n]);
      var k := input[n];
      NewKeysAreNew(existing, input[..n]);
      assert input == input[..n] + [k];
      KnownSnoc(input[..n], k);
      KnownSnoc(before, k);
      if k != "" && k !in Known(before) { assert k !in before; }
    }
  }

  /** What is stored when keys are appended over maps that may reach beyond the old ones. */
  lemma {:induction false} AppendStores(l: Lists, input: seq<string>)
    requires Stable(l.keys) && Below(l.status, |l.keys|)
    ensures var all := if l.keys == [] then input else l.keys + NewKeys(TrimAll(l.keys), TrimAll(input));
            Stored(l.(keys := all), l.keys) == l.(keys := AfterAppend(l.keys, input))
    ensures |AfterAppend(l.keys, input)| >= |l.keys|
    ensures l.keys <= AfterAppend(l.keys, input) || l.keys == [""]
  {
    AppendNeverShortens(l.keys, input);
    AppendKeepsPrefixIff(l.keys, input);
    ReattachOverMaps(l, if l.keys == [] then input else l.keys + NewKeys(TrimAll(l.keys), TrimAll(input)));
  }

  /** How the entries found again compare with appending to the entries. */
  lemma {:induction false} AppendRefines(l: Lists, input: seq<string>)
    requires Stable(l.keys) && Below(l.status, |l.keys|)
    ensures var ks := AfterAppend(l.keys, input);
            var after := l.(keys := ks).Entries();
            after == Apply(l.Entries(), AppendKeys(input)) <==> NothingBetween(l, |l.keys|, |ks|)
  {
    AppendNeverShortens(l.keys, input);
    AppendReattaches(l.Entries(), input);
    ReattachOverMaps(l, if l.keys == [] then input else l.keys + NewKeys(TrimAll(l.keys), TrimAll(input)));
  }

  method SeenKeys(existing: seq<string>) returns (seen: set<string>)
    ensures seen == Known(TrimAll(existing))
  {
    seen := {};
    for i := 0 to |existing|
      invariant seen == Known(TrimAll(existing[..i]))
    {
      assert existing[..i+1][..i] == existing[..i];
      KnownSnoc(TrimAll(existing[..i]), Trim(existing[i]));
      var normalized := Trim(existing[i]);
      if normalized != "" { seen := seen + {normalized}; }
    }
    assert existing[..|existing|] == existing;
  }

  lemma {:induction false} OneMoreInput(existing: seq<string>, input: seq<string>, i: nat)
    requires i < |input|
    ensures var before, k := NewKeys(existing, input[..i]), input[i];
            && NewKeys(existing, input[..i+1])
                 == (if k == "" || k in Known(existing) + Known(before) then before else before + [k])
            && Known(before + [k]) == Known(before) + if k != "" then {k} else {}
  {
    assert input[..i+1][..i] == input[..i];
    KnownSnoc(NewKeys(existing, input[..i]), input[i]);
  }

  method Normalized(input: seq<string>, i: nat) returns (key: string)
    requires i < |input|
    ensures key == TrimAll(input)[i]
  {
    TrimAllAt(input, i);
    key := Trim(input[i]);
  }

  /** One key of the input: added unless blank or seen. */
  method AddKey(ghost known: set<string>, seen: set<string>, added: seq<string>, key: string)
      returns (nowSeen: set<string>, nowAdded: seq<string>)
    requires seen == known + Known(added)
    ensures nowAdded == (if key == "" || key in known + Known(added) then added else added + [key])
    ensures nowSeen == known + Known(nowAdded)
  {
    nowSeen, nowAdded := seen, added;
    if key != "" && key !in seen {
      KnownSnoc(added, key);
      nowSeen := seen + {key};
      nowAdded := added + [key];
    }
  }

  method Deduplicate(existing: seq<string>, input: seq<string>) returns (added: seq<string>)
    ensures added == NewKeys(TrimAll(existing), TrimAll(input))
  {
    var seen := SeenKeys(existing);
    ghost var known, trimmed := TrimAll(existing), TrimAll(input);
    added := [];
    for i := 0 to |input|
      invariant added == NewKeys(known, trimmed[..i])
      invariant seen == Known(known) + Known(added)
    {
      OneMoreInput(known, trimmed, i);
      var normalized := Normalized(input, i);
      seen, added := AddKey(Known(known), seen, added, normalized);
    }
    assert trimmed[..|input|] == trimmed;
  }

  function AfterAppend(existing: seq<string>, input: seq<string>): seq<string> {
    Persisted(if existing == [] then input else existing + NewKeys(TrimAll(existing), TrimAll(input)), existing)
  }

  lemma {:induction false} AppendNeverShortens(existing: seq<string>, input: seq<string>)
    requires Stable(existing)
    ensures |AfterAppend(existing, input)| >= |existing|
  {
    if existing != [] {
      var all := existing + NewKeys(TrimAll(existing), TrimAll(input));
      NewKeysAreNew(TrimAll(existing), TrimAll(input));
      if existing != [""] {
        StorableSurvives(all, existing);
      } else if !NotStored(all) {
        PersistedIsSlice(all, existing);
      }
    }
  }

  lemma {:induction false} NewKeysAreTrimmed(existing: seq<string>, input: seq<string>)
    requires AllTrimmed(input)
    ensures AllTrimmed(NewKeys(existing, input))
  {
    if input != [] { NewKeysAreTrimmed(existing, input[..|input|-1]); }
  }

  /** Appending leaves the existing keys as an untouched prefix, except where the only key is blank. */
  lemma {:induction false} AppendKeepsPrefixIff(existing: seq<string>, input: seq<string>)
    requires Stable(existing)
    ensures var added := NewKeys(TrimAll(existing), TrimAll(input));
            && (existing <= AfterAppend(existing, input) <==> existing != [""] || added == [])
            && (existing != [] && (existing != [""] || added == []) ==> AfterAppend(existing, input) == existing + added)
  {
    if existing != [] {
      var added := NewKeys(TrimAll(existing), TrimAll(input));
      NewKeysAreNew(TrimAll(existing), TrimAll(input));
      if existing != [""] {
        StorableSurvives(existing + added, existing);
      } else if added != [] {
        BlankGivesWay(existing, added);
      } else {
        assert existing + added == existing;
      }
    }
  }

  /** Keys that are new to a channel: trimmed, not blank, pairwise different, in input order, and all the input adds. */
  ghost predicate IsNew(existing: seq<string>, input: seq<string>, added: seq<string>) {
    && Distinct(added) && "" !in added && AllTrimmed(added) && ByFirstOccurrence(added, TrimAll(input))
    && Known(added) == Known(TrimAll(input)) - Known(TrimAll(existing))
  }

  /** The channel's keys with new ones behind them; a single blank key gives way to them. */
  ghost predicate AddsOnlyNew(existing: seq<string>, input: seq<string>, after: seq<string>) {
    if existing == [""] && after != existing then IsNew(existing, input, after)
    else existing <= after && IsNew(existing, input, after[|existing|..])
  }

  /** Apart from blank keys at its ends, which storage trims, the input is clean already. */
  predicate CleanInput(input: seq<string>) {
    NotStored(input) ||
    var core := DropBack(DropFront(input));
    core != [] && "" !in core && AllTrimmed(core) && Distinct(core)
  }

  lemma {:induction false} NewKeysAreNewTo(existing: seq<string>, input: seq<string>)
    ensures IsNew(existing, input, NewKeys(TrimAll(existing), TrimAll(input)))
  {
    NewKeysAreNew(TrimAll(existing), TrimAll(input));
    forall i | 0 <= i < |input| ensures Trimmed(TrimAll(input)[i]) { TrimAllAt(input, i); }
    NewKeysAreTrimmed(TrimAll(existing), TrimAll(input));
    NewKeysInOrder(TrimAll(existing), TrimAll(input));
  }

  /** New keys come in the order in which they first occur in the input. */
  lemma {:induction false} NewKeysInOrder(existing: seq<string>, input: seq<string>)
    ensures ByFirstOccurrence(NewKeys(existing, input), input)
  {
    if input != [] {
      var n := |input| - 1;
      var before, all := NewKeys(existing, input[..n]), NewKeys(existing, input);
      NewKeysInOrder(existing, input[..n]);
      NewKeysAreNew(existing, input[..n]);
      forall i, j | 0 <= i < j < |all| ensures OccursBefore(all[i], all[j], input) {
        assert all[i] == before[i];
        if j < |before| {
          assert OccursBefore(before[i], before[j], input[..n]);
          var p :| 0 <= p < n && input[..n][p] == all[i] && forall q :: 0 <= q <= p ==> input[..n][q] != all[j];
          assert input[p] == all[i] && forall q :: 0 <= q <= p ==> input[q] == input[..n][q];
        } else {
          NewKeyOccurs(existing, input, before, i, all[j]);
        }
      }
    }
  }

  lemma {:induction false} NewKeyOccurs(existing: seq<string>, input: seq<string>, before: seq<string>, i: nat, k: string)
    requires input != [] && before == NewKeys(existing, input[..|input|-1]) && i < |before|
    requires k != "" && k !in Known(existing) && k !in Known(before)
    ensures OccursBefore(before[i], k, input)
  {
    var n := |input| - 1;
    NewKeysAreNew(existing, input[..n]);
    assert before[i] != "" && before[i] in Known(before);
    assert before[i] in Known(input[..n]);
    var p :| 0 <= p < n && input[..n][p] == before[i];
    assert input[p] == before[i];
    forall q | 0 <= q <= p ensures input[q] != k {
      assert input[..n][q] == input[q];
      assert input[q] != "" ==> input[q] in Known(input[..n]);
    }
  }

  /**
   Appending adds only distinct, new, trimmed keys if and only if the channel has a key text already or the
   input is clean: on an empty key text the input is stored as it comes.
   */
  lemma {:induction false} AppendAddsOnlyNewIff(existing: seq<string>, input: seq<string>)
    requires Stable(existing)
    ensures AddsOnlyNew(existing, input, AfterAppend(existing, input)) <==> existing != [] || CleanInput(input)
  {
    if existing == [] {
      FirstAppendIff(input);
    } else {
      var added := NewKeys(TrimAll(existing), TrimAll(input));
      NewKeysAreNewTo(existing, input);
      AppendKeepsPrefixIff(existing, input);
      if existing == [""] && added != [] {
        BlankGivesWay(existing, added);
      } else {
        assert (existing + added)[|existing|..] == added;
      }
    }
  }

  lemma {:induction false} FirstAppendIff(input: seq<string>)
    ensures AddsOnlyNew([], input, AfterAppend([], input)) <==> CleanInput(input)
  {
    var after := AfterAppend([], input);
    assert after[0..] == after;
    NothingIsKnown(input);
    if !NotStored(input) && AllTrimmed(after) {
      FirstKeysCover(input, after);
      if Distinct(after) && "" !in after { FirstKeysInOrder(input, after); }
    }
  }

  lemma {:induction false} FirstKeysInOrder(input: seq<string>, after: seq<string>)
    requires !NotStored(input) && after == Persisted(input, []) && AllTrimmed(after) && Distinct(after) && "" !in after
    ensures ByFirstOccurrence(after, TrimAll(input))
  {
    var f := Shift(input);
    PersistedIsSlice(input, []);
    forall q | 0 <= q < f + |after| ensures TrimAll(input)[q] == if q < f then "" else after[q - f] {
      TrimAllAt(input, q);
      TrimTrims(input[q]);
    }
    SliceByFirstOccurrence(after, TrimAll(input), f);
  }

  /** Different texts that stand in a list behind blanks only do so in the order of their first occurrence. */
  lemma {:induction false} SliceByFirstOccurrence(after: seq<string>, ts: seq<string>, f: nat)
    requires Distinct(after) && "" !in after && f + |after| <= |ts|
    requires forall q :: 0 <= q < f + |after| ==> ts[q] == if q < f then "" else after[q - f]
    ensures ByFirstOccurrence(after, ts)
  {
    forall i, j | 0 <= i < j < |after| ensures OccursBefore(after[i], after[j], ts) {
      assert ts[f + i] == after[i];
      assert forall q :: 0 <= q <= f + i ==> ts[q] != after[j];
    }
  }

  lemma {:induction false} FirstKeysCover(input: seq<string>, after: seq<string>)
    requires !NotStored(input) && after == Persisted(input, []) && AllTrimmed(after)
    ensures Known(after) == Known(TrimAll(input))
  {
    PersistedKeepsKnown(input, []);
    PersistedAddsNothing(input);
    TrimAllAppend([], after);
    assert [] + after == after;
  }

  lemma {:induction false} NothingIsKnown(input: seq<string>)
    ensures Known(TrimAll([])) == {}
    ensures NotStored(input) ==> Known(TrimAll(input)) == {}
  {
    if input == [""] { NothingKnown(); }
  }

  lemma {:induction false} PersistedMember(ks: seq<string>, stored: seq<string>, k: string)
    requires !NotStored(ks) && k in Persisted(ks, stored)
    ensures exists i :: 0 <= i < |ks| && ks[i] == k
  {
    PersistedIsSlice(ks, stored);
    var j :| 0 <= j < |Persisted(ks, stored)| && Persisted(ks, stored)[j] == k;
    assert ks[Shift(ks) + j] == k;
  }

  lemma {:induction false} PersistedAddsNothing(input: seq<string>)
    requires !NotStored(input)
    ensures Known(TrimAll(Persisted(input, []))) <= Known(TrimAll(input))
  {
    var after := Persisted(input, []);
    forall k | k in Known(TrimAll(after)) ensures k in Known(TrimAll(input)) {
      KnownTrimmed(after, k);
      var i :| 0 <= i < |after| && Trim(after[i]) == k;
      PersistedMember(input, [], after[i]);
      KnownTrimmed(input, k);
    }
  }

  /** It does matter: the first append stores repeated and untrimmed keys. */
  lemma {:induction false} FirstAppendExample()
    ensures AfterAppend([], ["a", "a", " b"]) == ["a", "a", " b"]
  {
    StorableSurvives(["a", "a", " b"], []);
  }

  lemma {:induction false} NothingNewTwice(existing: seq<string>, input: seq<string>)
    ensures NewKeys(existing + NewKeys(existing, input), input) == []
  {
    var added := NewKeys(existing, input);
    NewKeysAreNew(existing, input);
    KnownConcat(existing, added);
    NewKeysAreNew(existing + added, input);
    if NewKeys(existing + added, input) != [] { KnownSomething(NewKeys(existing + added, input)); }
  }

  lemma {:induction false} StorableAppendTwice(existing: seq<string>, input: seq<string>)
    requires Storable(existing)
    ensures AfterAppend(AfterAppend(existing, input), input) == AfterAppend(existing, input)
  {
    var added := NewKeys(TrimAll(existing), TrimAll(input));
    var after := existing + added;
    AppendKeepsPrefixIff(existing, input);
    forall i | 0 <= i < |input| ensures Trimmed(TrimAll(input)[i]) { TrimAllAt(input, i); }
    NewKeysAreTrimmed(TrimAll(existing), TrimAll(input));
    TrimAllAppend(existing, added);
    NothingNewTwice(TrimAll(existing), TrimAll(input));
    NewKeysAreNew(TrimAll(existing), TrimAll(input));
    assert Storable(after) && after + [] == after;
    StorableSurvives(after, after);
  }

  /** A stable list that already holds all keys of the input is left as it is. */
  lemma {:induction false} NothingToAppend(existing: seq<string>, input: seq<string>)
    requires Stable(existing) && existing != [] && Known(TrimAll(input)) <= Known(TrimAll(existing))
    ensures AfterAppend(existing, input) == existing
  {
    var added := NewKeys(TrimAll(existing), TrimAll(input));
    NewKeysAreNew(TrimAll(existing), TrimAll(input));
    if added != [] { KnownSomething(added); }
    AppendKeepsPrefixIff(existing, input);
    assert existing + [] == existing;
  }

  lemma {:induction false} KnownTrimmed(ks: seq<string>, k: string)
    ensures k in Known(TrimAll(ks)) <==> k != "" && exists i :: 0 <= i < |ks| && Trim(ks[i]) == k
  {
    forall i | 0 <= i < |ks| ensures TrimAll(ks)[i] == Trim(ks[i]) { TrimAllAt(ks, i); }
    if i :| 0 <= i < |ks| && Trim(ks[i]) == k && k != "" { assert TrimAll(ks)[i] in Known(TrimAll(ks)); }
  }

  lemma {:induction false} PersistedKeepsKnown(ks: seq<string>, stored: seq<string>)
    requires ks != [] && ks != [""]
    ensures Known(TrimAll(ks)) <= Known(TrimAll(Persisted(ks, stored)))
  {
    var after := Persisted(ks, stored);
    DropFrontKeeps(ks);
    DropBackKeeps(DropFront(ks));
    forall k | k in Known(TrimAll(ks)) ensures k in Known(TrimAll(after)) {
      KnownTrimmed(ks, k);
      var i :| 0 <= i < |ks| && Trim(ks[i]) == k;
      TrimTrims(ks[i]);
      assert ks[i] in after;
      var j :| 0 <= j < |after| && after[j] == ks[i];
      KnownTrimmed(after, k);
    }
  }

  lemma {:induction false} DropFrontKeeps(ks: seq<string>)
    ensures forall k :: k != "" && k in ks ==> k in DropFront(ks)
  {
    if ks != [] && ks[0] == "" {
      DropFrontKeeps(ks[1..]);
      assert ks == [ks[0]] + ks[1..];
    }
  }

  lemma {:induction false} DropBackKeeps(ks: seq<string>)
    ensures forall k :: k != "" && k in ks ==> k in DropBack(ks)
  {
    if ks != [] && ks[|ks|-1] == "" {
      DropBackKeeps(ks[..|ks|-1]);
      assert ks == ks[..|ks|-1] + [ks[|ks|-1]];
    }
  }

  lemma {:induction false} FirstAppendTwice(input: seq<string>)
    ensures AfterAppend(AfterAppend([], input), input) == AfterAppend([], input)
  {
    if input != [] && input != [""] {
      PersistedIsStable(input, []);
      PersistedKeepsKnown(input, []);
      NothingToAppend(Persisted(input, []), input);
    }
  }

  lemma {:induction false} BlankGivesWay(existing: seq<string>, added: seq<string>)
    requires existing == [""] && added != [] && "" !in added
    ensures Persisted(existing + added, existing) == added && Storable(added)
  {
    var all := existing + added;
    assert all[0] == "" && all[1..] == added && |all| > 1;
    DropFrontShorter(added);
    DropBackShorter(added);
    assert DropFront(all) == DropFront(added) == added;
  }

  lemma {:induction false} BlankAppendTwice(existing: seq<string>, input: seq<string>)
    requires existing == [""]
    ensures AfterAppend(AfterAppend(existing, input), input) == AfterAppend(existing, input)
  {
    var known, trimmed := TrimAll(existing), TrimAll(input);
    var added := NewKeys(known, trimmed);
    NewKeysAreNew(known, trimmed);
    if added == [] {
      assert existing + added == existing;
    } else {
      BlankGivesWay(existing, added);
      forall i | 0 <= i < |input| ensures Trimmed(trimmed[i]) { TrimAllAt(input, i); }
      NewKeysAreTrimmed(known, trimmed);
      TrimAllAppend([], added);
      assert [] + added == added;
      NothingKnown();
      NothingToAppend(added, input);
    }
  }

  lemma {:induction false} NothingKnown()
    ensures Known(TrimAll([""])) == {}
  {
    TrimAllAt([""], 0);
    TrimTrims("");
  }

  /** Appending the same input again adds nothing, whatever keys there were. */
  lemma {:induction false} AppendIsIdempotent(existing: seq<string>, input: seq<string>)
    requires Stable(existing)
    ensures AfterAppend(AfterAppend(existing, input), input) == AfterAppend(existing, input)
  {
    if existing == [] {
      FirstAppendTwice(input);
    } else if existing == [""] {
      BlankAppendTwice(existing, input);
    } else {
      StorableAppendTwice(existing, input);
    }
  }

  lemma {:induction false} KnownConcat(a: seq<string>, b: seq<string>)
    ensures Known(a + b) == Known(a) + Known(b)
  {
    if b == [] {
      assert a + b == a;
    } else {
      var n := |b| - 1;
      KnownConcat(a, b[..n]);
      KnownSnoc(a + b[..n], b[n]);
      KnownSnoc(b[..n], b[n]);
      assert a + b == a + b[..n] + [b[n]] && b == b[..n] + [b[n]];
    }
  }

  lemma {:induction false} KnownSomething(ks: seq<string>)
    requires ks != [] && "" !in ks
    ensures Known(ks) != {}
  {
    assert ks[0] in Known(ks);
  }

  // ----- deletion is exact -----

  lemma {:induction false} ReattachOwnKeys(es: seq<Entry>)
    ensures Reattach(KeysOf(es), es) == es
  {
  }

  lemma {:induction false} WithoutAt<T>(s: seq<T>, k: nat, i: nat)
    requires k < |s| && i < |s| && i != k
    ensures var j := if i < k then i else i - 1; j < |Without(s, k)| && Without(s, k)[j] == s[i]
  {
  }

  /** `delete_key` removes exactly one entry if and only if what remains has no blank key at an end. */
  lemma {:induction false} DeleteRemovesOneIff(es: seq<Entry>, k: nat)
    requires k < |es| && |es| > 1
    ensures Apply(es, DeleteKey(Some(k))) == es[..k] + es[k+1..] <==> Storable(KeysOf(es[..k] + es[k+1..]))
  {
    var rest := Without(es, k);
    SurvivesIffStorable(KeysOf(rest), KeysOf(es));
    ReattachOwnKeys(rest);
    if Apply(es, DeleteKey(Some(k))) == rest {
      assert KeysOf(Apply(es, DeleteKey(Some(k)))) == Persisted(KeysOf(rest), KeysOf(es));
    }
  }

  /** The number of entries before index i that a sweep keeps. */
  function Rank(es: seq<Entry>, i: nat): nat
    requires i <= |es|
  {
    if i == 0 then 0 else Rank(es, i - 1) + if es[i-1].status == AUTO then 0 else 1
  }

  lemma {:induction false} RankPrefix(es: seq<Entry>, n: nat, i: nat)
    requires i <= n <= |es|
    ensures Rank(es[..n], i) == Rank(es, i)
  {
    if i > 0 { RankPrefix(es, n, i - 1); }
  }

  lemma {:induction false} SweepSize(es: seq<Entry>)
    ensures |Sweep(es)| == Rank(es, |es|)
  {
    if es != [] {
      var n := |es| - 1;
      SweepSize(es[..n]);
      RankPrefix(es, n, n);
    }
  }

  /**
   A sweep keeps, in order, exactly the entries that are not auto-disabled, with key and status; a disabled one
   keeps its time and reason too, an enabled one forgets them.
   */
  lemma {:induction false} SweepIsFilter(es: seq<Entry>, i: nat)
    requires i < |es|
    ensures |Sweep(es)| == Rank(es, |es|)
    ensures es[i].status != 3 ==>
              && Rank(es, i) < |Sweep(es)|
              && Sweep(es)[Rank(es, i)] ==
                   if es[i].status == 1 then Entry(es[i].key, 1, None, None) else es[i]
  {
    var n := |es| - 1;
    SweepSize(es);
    SweepSize(es[..n]);
    RankPrefix(es, n, n);
    if i < n && es[i].status != AUTO {
      SweepIsFilter(es[..n], i);
      RankPrefix(es, n, i);
      assert es[..n][i] == es[i];
      assert Sweep(es)[..|Sweep(es[..n])|] == Sweep(es[..n]);
    }
  }

  predicate NoBlank(es: seq<Entry>) {
    forall i :: 0 <= i < |es| ==> es[i].key != ""
  }

  lemma {:induction false} SweepNoBlank(es: seq<Entry>)
    requires NoBlank(es)
    ensures NoBlank(Sweep(es))
  {
    if es != [] { SweepNoBlank(es[..|es|-1]); }
  }

  predicate AllAuto(es: seq<Entry>) {
    forall i :: 0 <= i < |es| ==> es[i].status == AUTO
  }

  lemma {:induction false} SweptEmptyIff(es: seq<Entry>)
    ensures Sweep(es) == [] <==> AllAuto(es)
  {
    if es != [] {
      var n := |es| - 1;
      SweptEmptyIff(es[..n]);
      assert AllAuto(es) <==> AllAuto(es[..n]) && es[n].status == AUTO by {
        assert es == es[..n] + [es[n]];
      }
    }
  }

  /**
   `delete_disabled_keys` is the filter if and only if the filter leaves something with no blank key at an
   end.  When every key is auto-disabled the emptied list is not stored: all keys survive, enabled again.
   */
  lemma {:induction false} SweepIsStoredIff(es: seq<Entry>)
    requires AnyAuto(es)
    ensures Apply(es, DeleteDisabled) == Sweep(es) <==> Storable(KeysOf(Sweep(es)))
    ensures AllAuto(es) ==> Apply(es, DeleteDisabled) == Apply(es, EnableAll)
  {
    var rest := Sweep(es);
    AnyAutoIff(es);
    SweptEmptyIff(es);
    ReattachOwnKeys(rest);
    SurvivesIffStorable(KeysOf(rest), KeysOf(es));
    if Apply(es, DeleteDisabled) == rest {
      assert KeysOf(Apply(es, DeleteDisabled)) == Persisted(KeysOf(rest), KeysOf(es));
    }
  }

  // ----- a manual disabling sticks -----

  /** The list that a deletion or an append builds, before it is stored; None where there is none. */
  function Rebuilt(es: seq<Entry>, a: Action): Option<seq<Entry>> {
    match a
    case DeleteKey(k) => if InRange(k, |es|) && |es| > 1 then Some(Without(es, k.value)) else None
    case DeleteDisabled => if AnyAuto(es) then Some(Sweep(es)) else None
    case AppendKeys(input) => Some(Appended(es, input))
    case _ => None
  }

  /** Where the entry at index i is in the rebuilt list, or None when it is the one deleted. */
  function Moved(es: seq<Entry>, a: Action, i: nat): Option<nat>
    requires i < |es|
  {
    match a
    case DeleteKey(k) =>
      if !InRange(k, |es|) || i < k.value then Some(i) else if i == k.value then None else Some(i - 1)
    case DeleteDisabled => if es[i].status == AUTO then None else Some(Rank(es, i))
    case _ => Some(i)
  }

  /** Where the key at index r of a rebuilt list is once the list is stored, or None when it is trimmed away. */
  function Landing(ks: seq<string>, r: nat): Option<nat> {
    if Shift(ks) <= r < Shift(ks) + |Persisted(ks, [])| then Some(r - Shift(ks)) else None
  }

  /** Where the key at index i is after an action, or None when it is gone. */
  function Track(es: seq<Entry>, a: Action, i: nat): Option<nat>
    requires i < |es|
  {
    var rest := Rebuilt(es, a);
    if rest.None? || NotStored(KeysOf(rest.value)) then Some(i)
    else
      var r := Moved(es, a, i);
      if r.None? then None else Landing(KeysOf(rest.value), r.value)
  }

  ghost predicate StillManual(es: seq<Entry>, after: seq<Entry>, i: nat, j: nat)
    requires i < |es|
  {
    j < |after| && after[j].key == es[i].key && after[j].status == MANUAL
  }

  predicate ManualAt(es: seq<Entry>, j: nat) {
    j < |es| && es[j].status == MANUAL
  }

  /** The rebuilt list has a manually disabled entry at the index the key will have. */
  predicate Harmless(es: seq<Entry>, a: Action, i: nat)
    requires i < |es|
  {
    Rebuilt(es, a).Some? && Track(es, a, i).Some? ==> ManualAt(Rebuilt(es, a).value, Track(es, a, i).value)
  }

  lemma {:induction false} MovedTo(es: seq<Entry>, a: Action, i: nat)
    requires i < |es| && Rebuilt(es, a).Some? && Moved(es, a, i).Some?
    ensures var rest, r := Rebuilt(es, a).value, Moved(es, a, i).value;
            r < |rest| && rest[r].key == es[i].key && rest[r].status == es[i].status
  {
    match a
    case DeleteKey(k) => WithoutAt(es, k.value, i);
    case DeleteDisabled => SweepIsFilter(es, i);
    case AppendKeys(_) =>
  }

  lemma {:induction false} MovedFrom(es: seq<Entry>, a: Action, r: nat) returns (i: nat)
    requires Rebuilt(es, a).Some? && r < |Rebuilt(es, a).value|
    requires a.AppendKeys? ==> r < |es|
    ensures i < |es| && Moved(es, a, i) == Some(r)
  {
    match a
    case DeleteKey(k) => i := if r < k.value then r else r + 1;
    case DeleteDisabled => i := SweptFrom(es, r);
    case AppendKeys(_) => i := r;
  }

  lemma {:induction false} SweptFrom(es: seq<Entry>, r: nat) returns (i: nat)
    requires r < |Sweep(es)|
    ensures i < |es| && es[i].status != AUTO && Rank(es, i) == r
  {
    var n := |es| - 1;
    SweepSize(es[..n]);
    RankPrefix(es, n, n);
    if r < |Sweep(es[..n])| {
      i := SweptFrom(es[..n], r);
      RankPrefix(es, n, i);
    } else {
      i := n;
    }
  }

  /** A tracked key is still there, and its status is the one at its new index of the rebuilt list. */
  lemma {:induction false} TrackedKey(es: seq<Entry>, a: Action, i: nat)
    requires i < |es| && Rebuilt(es, a).Some?
    ensures match Track(es, a, i)
            case None => Moved(es, a, i).None? || es[i].key == ""
            case Some(j) =>
              && j < |Apply(es, a)| && Apply(es, a)[j].key == es[i].key
              && (Apply(es, a)[j].status == MANUAL <==> ManualAt(Rebuilt(es, a).value, j))
  {
    var rest, stored := Rebuilt(es, a).value, KeysOf(es);
    assert Apply(es, a) == Persist(rest, stored);
    if NotStored(KeysOf(rest)) {
      OldKeyStays(rest, es, i);
    } else if Moved(es, a, i).Some? {
      MovedTo(es, a, i);
      StoredKeyLands(rest, stored, Moved(es, a, i).value);
    }
  }

  /** When nothing is stored the old keys stay, over what the rebuilt list has at their indices. */
  lemma {:induction false} OldKeyStays(rest: seq<Entry>, es: seq<Entry>, i: nat)
    requires i < |es| && NotStored(KeysOf(rest))
    ensures var after := Persist(rest, KeysOf(es));
            i < |after| && after[i].key == es[i].key && (after[i].status == MANUAL <==> ManualAt(rest, i))
  {
  }

  /** A key of a rebuilt list is found again where it lands, over what the list has there, or it was blank. */
  lemma {:induction false} StoredKeyLands(rest: seq<Entry>, stored: seq<string>, r: nat)
    requires r < |rest| && !NotStored(KeysOf(rest))
    ensures match Landing(KeysOf(rest), r)
            case None => rest[r].key == ""
            case Some(j) =>
              && j < |Persist(rest, stored)| && Persist(rest, stored)[j].key == rest[r].key
              && (Persist(rest, stored)[j].status == MANUAL <==> ManualAt(rest, j))
  {
    PersistedIsSlice(KeysOf(rest), stored);
    var j := Landing(KeysOf(rest), r);
    if j.Some? { PersistAt(rest, stored, j.value); }
  }

  /**
   One action leaves a manually disabled key disabled if and only if the action enables neither that key
   nor all keys, and the list it builds, if any, has such an entry where the key will be.
   A key that is gone was deleted, or blank.
   */
  lemma {:induction false} ManualSurvivesActionIff(es: seq<Entry>, a: Action, i: nat)
    requires i < |es| && es[i].status == MANUAL
    ensures match Track(es, a, i)
            case None => a == DeleteKey(Some(i)) || es[i].key == ""
            case Some(j) =>
              StillManual(es, Apply(es, a), i, j) <==> a != EnableAll && a != EnableKey(Some(i)) && Harmless(es, a, i)
  {
    if Rebuilt(es, a).Some? { TrackedKey(es, a, i); }
  }

  ghost predicate Keeps(es: seq<Entry>, a: Action, i: nat)
    requires i < |es|
  {
    Track(es, a, i).Some? ==> StillManual(es, Apply(es, a), i, Track(es, a, i).value)
  }

  /** Every manual status that is stored meets a manual status `Shift` places before it. */
  ghost predicate Aligned(es: seq<Entry>, rest: seq<Entry>) {
    var ks := KeysOf(rest);
    if NotStored(ks) then forall i :: 0 <= i < |es| && ManualAt(es, i) ==> ManualAt(rest, i)
    else forall r :: Shift(ks) <= r < Shift(ks) + |Persisted(ks, [])| && ManualAt(rest, r) ==> ManualAt(rest, r - Shift(ks))
  }

  ghost predicate HarmlessToAll(es: seq<Entry>, a: Action) {
    forall i :: 0 <= i < |es| && ManualAt(es, i) ==> Harmless(es, a, i)
  }

  /** A deletion or an append keeps every manual disabling if and only if so. */
  lemma {:induction false} DeletionKeepsManualIff(es: seq<Entry>, a: Action)
    requires Rebuilt(es, a).Some?
    ensures (forall i :: 0 <= i < |es| && ManualAt(es, i) ==> Keeps(es, a, i)) <==> Aligned(es, Rebuilt(es, a).value)
  {
    forall i | 0 <= i < |es| && ManualAt(es, i) ensures Keeps(es, a, i) <==> Harmless(es, a, i) {
      ManualSurvivesActionIff(es, a, i);
    }
    HarmlessIffAligned(es, a);
  }

  lemma {:induction false} HarmlessIffAligned(es: seq<Entry>, a: Action)
    requires Rebuilt(es, a).Some?
    ensures HarmlessToAll(es, a) <==> Aligned(es, Rebuilt(es, a).value)
  {
    var rest := Rebuilt(es, a).value;
    if !NotStored(KeysOf(rest)) {
      if Aligned(es, rest) {
        forall i | 0 <= i < |es| && ManualAt(es, i) ensures Harmless(es, a, i) { AlignedIsHarmless(es, a, i); }
      } else {
        MisalignedHarmsOne(es, a);
      }
    }
  }

  lemma {:induction false} MisalignedHarmsOne(es: seq<Entry>, a: Action)
    requires Rebuilt(es, a).Some?
    requires !NotStored(KeysOf(Rebuilt(es, a).value)) && !Aligned(es, Rebuilt(es, a).value)
    ensures !HarmlessToAll(es, a)
  {
    var rest := Rebuilt(es, a).value;
    var ks := KeysOf(rest);
    var r :| Shift(ks) <= r < Shift(ks) + |Persisted(ks, [])| && ManualAt(rest, r) && !ManualAt(rest, r - Shift(ks));
    var i := HarmedByShift(es, a, r);
  }

  lemma {:induction false} HarmedByShift(es: seq<Entry>, a: Action, r: nat) returns (i: nat)
    requires Rebuilt(es, a).Some?
    requires var rest := Rebuilt(es, a).value;
             && !NotStored(KeysOf(rest)) && Landing(KeysOf(rest), r).Some?
             && ManualAt(rest, r) && !ManualAt(rest, Landing(KeysOf(rest), r).value)
    ensures i < |es| && ManualAt(es, i) && !Harmless(es, a, i)
  {
    if a.AppendKeys? { assert r < |es|; }
    i := MovedFrom(es, a, r);
    MovedTo(es, a, i);
  }

  lemma {:induction false} AlignedIsHarmless(es: seq<Entry>, a: Action, i: nat)
    requires i < |es| && es[i].status == MANUAL && Rebuilt(es, a).Some?
    requires !NotStored(KeysOf(Rebuilt(es, a).value)) && Aligned(es, Rebuilt(es, a).value)
    ensures Harmless(es, a, i)
  {
    if Moved(es, a, i).Some? {
      MovedTo(es, a, i);
      assert ManualAt(Rebuilt(es, a).value, Moved(es, a, i).value);
    }
  }

  /** Only blank keys at the front shift a status: behind a first key that is not blank, they do no harm. */
  lemma {:induction false} BlanksBehindAreHarmless(es: seq<Entry>, a: Action, i: nat)
    requires i < |es| && es[i].status == MANUAL
    requires Rebuilt(es, a).Some? ==> var ks := KeysOf(Rebuilt(es, a).value); ks != [] && ks[0] != ""
    ensures Harmless(es, a, i)
  {
    if Rebuilt(es, a).Some? { AlignedIsHarmless(es, a, i); }
  }

  // ----- runs of actions -----

  function RunActions(es: seq<Entry>, actions: seq<Action>): seq<Entry> {
    Runs.Fold(Apply, es, actions)
  }

  /** Where the key at index i ends up, or None when it goes on the way. */
  function TrackRun(es: seq<Entry>, actions: seq<Action>, i: nat): Option<nat>
    decreases actions
  {
    if actions == [] then Some(i)
    else if i >= |es| then None
    else
      var j := Track(es, actions[0], i);
      if j.None? then None else TrackRun(Apply(es, actions[0]), actions[1..], j.value)
  }

  /** Some action enables the tracked key, at the index it has by then, or all keys. */
  predicate EnabledOnTheWay(es: seq<Entry>, actions: seq<Action>, i: nat)
    decreases actions
  {
    && actions != [] && i < |es|
    && (|| actions[0] == EnableAll
        || actions[0] == EnableKey(Some(i))
        || var j := Track(es, actions[0], i);
           j.Some? && EnabledOnTheWay(Apply(es, actions[0]), actions[1..], j.value))
  }

  /** Every action is harmless to the tracked key. */
  predicate HarmlessRun(es: seq<Entry>, actions: seq<Action>, i: nat)
    decreases actions
  {
    actions != [] && i < |es| ==>
      && Harmless(es, actions[0], i)
      && var j := Track(es, actions[0], i);
         j.Some? ==> HarmlessRun(Apply(es, actions[0]), actions[1..], j.value)
  }

  /** After every action of the run the tracked key, while it is there, is manually disabled. */
  predicate StaysManual(es: seq<Entry>, actions: seq<Action>, i: nat)
    decreases actions
  {
    && ManualAt(es, i)
    && (actions != [] ==>
          var j := Track(es, actions[0], i);
          j.Some? ==> StaysManual(Apply(es, actions[0]), actions[1..], j.value))
  }

  /**
   Over any run of management actions and appends, and however often the indices shift, a manually disabled key stays
   disabled if and only if no action enables it by its index at the time, none enables all keys, and every
   deletion and append is harmless to it.
   */
  lemma {:induction false} ManualDisablingSticksIff(es: seq<Entry>, actions: seq<Action>, i: nat)
    requires i < |es| && es[i].status == MANUAL
    ensures StaysManual(es, actions, i) <==> !EnabledOnTheWay(es, actions, i) && HarmlessRun(es, actions, i)
    decreases actions
  {
    if actions != [] {
      var a := actions[0];
      ManualSurvivesActionIff(es, a, i);
      var j := Track(es, a, i);
      if j.Some? && StillManual(es, Apply(es, a), i, j.value) {
        ManualDisablingSticksIff(Apply(es, a), actions[1..], j.value);
      }
    }
  }

  lemma {:induction false} DisabledFromHere(before: seq<Entry>, a: Action, rest: seq<Action>, i: nat)
    requires i < |before| && (a == DisableKey(Some(i)) || (a == DisableAll && before[i].status == 1))
    ensures var here := Apply(before, a);
            && i < |here| && here[i].key == before[i].key && here[i].status == 2
            && (StaysManual(here, rest, i) <==> !EnabledOnTheWay(here, rest, i) && HarmlessRun(here, rest, i))
  {
    SwitchMeans(before, a);
    ManualDisablingSticksIff(Apply(before, a), rest, i);
  }

  /**
   From the action of a run that disables a key on, alone or with all keys, the key is manually disabled and
   stays so exactly as long as no later action enables it or all keys and every later deletion and append is
   harmless.
   */
  lemma {:induction false} DisablingTakesHold(es: seq<Entry>, actions: seq<Action>, k: nat, i: nat)
    requires k < |actions| && i < |RunActions(es, actions[..k])|
    requires actions[k] == DisableKey(Some(i)) ||
             (actions[k] == DisableAll && RunActions(es, actions[..k])[i].status == 1)
    ensures var here, rest := RunActions(es, actions[..k+1]), actions[k+1..];
            && i < |here| && here[i].key == RunActions(es, actions[..k])[i].key && here[i].status == 2
            && (StaysManual(here, rest, i) <==> !EnabledOnTheWay(here, rest, i) && HarmlessRun(here, rest, i))
            && RunActions(es, actions) == RunActions(here, rest)
  {
    Runs.FoldThrough(Apply, es, actions, k);
    DisabledFromHere(RunActions(es, actions[..k]), actions[k], actions[k+1..], i);
  }

  /** The key that is followed through a run is the same key throughout. */
  lemma {:induction false} FollowsItsKey(es: seq<Entry>, actions: seq<Action>, i: nat)
    requires StaysManual(es, actions, i)
    ensures match TrackRun(es, actions, i)
            case None => true
            case Some(j) => StillManual(es, RunActions(es, actions), i, j)
    decreases actions
  {
    if actions != [] {
      var j := Track(es, actions[0], i);
      if j.Some? {
        ManualSurvivesActionIff(es, actions[0], i);
        SameKey(es, actions[0], i);
        FollowsItsKey(Apply(es, actions[0]), actions[1..], j.value);
      }
    }
  }

  lemma {:induction false} SameKey(es: seq<Entry>, a: Action, i: nat)
    requires i < |es| && Track(es, a, i).Some?
    ensures var j := Track(es, a, i).value; j < |Apply(es, a)| && Apply(es, a)[j].key == es[i].key
  {
    if Rebuilt(es, a).Some? { TrackedKey(es, a, i); }
  }

  /** Appending to a key list as it is stored harms no key in it. */
  lemma {:induction false} AppendIsHarmless(es: seq<Entry>, input: seq<string>, i: nat)
    requires Stable(KeysOf(es)) && i < |es| && es[i].status == MANUAL
    ensures Harmless(es, AppendKeys(input), i)
  {
    var a := AppendKeys(input);
    if es[0].key != "" {
      BlanksBehindAreHarmless(es, a, i);
    } else {
      assert KeysOf(es)[0] == "" && i == 0;
      BlankIsTrimmed(KeysOf(Appended(es, input)));
    }
  }

  /** A first blank key that is trimmed away has no place. */
  lemma {:induction false} BlankIsTrimmed(ks: seq<string>)
    requires ks != [] && ks[0] == ""
    ensures Landing(ks, 0).Some? ==> Landing(ks, 0) == Some(0)
  {
  }

  /** A blank key can come only with the first keys of a channel. */
  predicate BringsNoBlank(es: seq<Entry>, a: Action) {
    a.AppendKeys? && es == [] ==> "" !in a.input
  }

  lemma {:induction false} AppendedNoBlank(es: seq<Entry>, input: seq<string>)
    requires NoBlank(es) && BringsNoBlank(es, AppendKeys(input))
    ensures NoBlank(Appended(es, input)) && NoBlank(Apply(es, AppendKeys(input)))
  {
    var rest := Appended(es, input);
    NewKeysAreNew(TrimAll(KeysOf(es)), TrimAll(input));
    assert NoBlank(rest);
    if rest != [] {
      StorableSurvives(KeysOf(rest), KeysOf(es));
      ReattachOwnKeys(rest);
    }
  }

  /** No action makes a key blank. */
  lemma {:induction false} ActionKeepsNoBlank(es: seq<Entry>, a: Action)
    requires NoBlank(es) && BringsNoBlank(es, a)
    ensures NoBlank(Apply(es, a))
    ensures Rebuilt(es, a).Some? ==> NoBlank(Rebuilt(es, a).value)
  {
    match a
    case AppendKeys(input) => AppendedNoBlank(es, input);
    case DeleteKey(k) =>
      if InRange(k, |es|) && |es| > 1 {
        var rest := Without(es, k.value);
        forall i | 0 <= i < |rest| ensures rest[i].key != "" { assert rest[i] == es[if i < k.value then i else i + 1]; }
        DeleteRemovesOneIff(es, k.value);
      }
    case DeleteDisabled =>
      SweepNoBlank(es);
      if AnyAuto(es) { SweepIsStoredIff(es); SweptEmptyIff(es); }
    case _ =>
  }

  /** Without blank keys every run is harmless, so enabling is all that ever enables. */
  lemma {:induction false} NoBlankRunIsHarmless(es: seq<Entry>, actions: seq<Action>, i: nat)
    requires NoBlank(es) && i < |es| && es[i].status == MANUAL && !EnabledOnTheWay(es, actions, i)
    ensures HarmlessRun(es, actions, i)
    decreases actions
  {
    if actions != [] {
      var a := actions[0];
      ActionKeepsNoBlank(es, a);
      NoBlankIsHarmless(es, a, i);
      ManualSurvivesActionIff(es, a, i);
      var j := Track(es, a, i);
      if j.Some? { NoBlankRunIsHarmless(Apply(es, a), actions[1..], j.value); }
    }
  }

  lemma {:induction false} NoBlankIsHarmless(es: seq<Entry>, a: Action, i: nat)
    requires NoBlank(es) && i < |es| && es[i].status == MANUAL
    ensures Harmless(es, a, i)
  {
    ActionKeepsNoBlank(es, a);
    if a.DeleteDisabled? { SweepIsFilter(es, i); }
    BlanksBehindAreHarmless(es, a, i);
  }

  /** With a blank key in the list it need not be so: deleting the first key here enables the last one. */
  lemma {:induction false} BlankKeyBreaksDisabling()
    ensures var es := [Fresh("a"), Fresh(""), Entry("b", MANUAL, None, None)];
            Apply(es, DeleteKey(Some(0))) == [Fresh("b")]
  {
    var es := [Fresh("a"), Fresh(""), Entry("b", MANUAL, None, None)];
    var rest := Without(es, 0);
    assert rest == [Fresh(""), Entry("b", MANUAL, None, None)];
    assert KeysOf(rest) == ["", "b"];
    assert ["", "b"][1..] == ["b"];
    assert DropFront(["", "b"]) == ["b"];
    assert DropBack(["b"]) == ["b"];
  }

  /** A blank key that was disabled once leaves its time behind, beyond the size, when storage trims it. */
  lemma {:induction false} StaleTimeExample()
    ensures var es := [Fresh("a"), Entry("", ENABLED, Some(7), None), Fresh("b")];
            Step(Contents(es, NOTHING_LEFT, {}), DeleteKey(Some(2))) == Contents([Fresh("a")], Leftover(map[1 := 7], map[]), {})
  {
    var es := [Fresh("a"), Entry("", ENABLED, Some(7), None), Fresh("b")];
    var rest := Without(es, 2);
    assert rest == [Fresh("a"), Entry("", ENABLED, Some(7), None)];
    assert KeysOf(rest) == ["a", ""];
    assert ["a", ""][..1] == ["a"];
    assert DropBack(["a", ""]) == DropBack(["a"]) == ["a"];
    assert Apply(es, DeleteKey(Some(2))) == [Fresh("a")];
    assert LeftFrom(rest, 1).time == map[1 := 7];
  }

  lemma {:induction false} InheritNothing(c: Contents, ks: seq<string>)
    requires c.left == NOTHING_LEFT
    ensures Inherit(c, ks) == Contents(Reattach(ks, c.entries), NOTHING_LEFT, c.ones)
  {
  }

  lemma {:induction false} NothingLeftBehind(c: Contents, a: Action)
    requires NoBlank(c.entries) && BringsNoBlank(c.entries, a) && c.left == NOTHING_LEFT
    ensures Step(c, a).entries == Apply(c.entries, a) && Step(c, a).left == NOTHING_LEFT
  {
    var es := c.entries;
    ActionKeepsNoBlank(es, a);
    if a.AppendKeys? {
      AppendReattaches(es, a.input);
      InheritNothing(c, AfterAppend(KeysOf(es), a.input));
    } else if Rebuilt(es, a).Some? {
      NothingTrimmed(Rebuilt(es, a).value, KeysOf(es));
    }
  }

  lemma {:induction false} NothingTrimmed(rest: seq<Entry>, stored: seq<string>)
    requires NoBlank(rest)
    ensures LeftFrom(rest, |Persisted(KeysOf(rest), stored)|) == NOTHING_LEFT
  {
    if rest != [] { StorableSurvives(KeysOf(rest), stored); }
  }

  /** No action empties a list of keys. */
  lemma {:induction false} NeverEmptied(es: seq<Entry>, a: Action)
    requires es != []
    ensures Apply(es, a) != []
  {
    if Rebuilt(es, a).Some? && !NotStored(KeysOf(Rebuilt(es, a).value)) {
      PersistedIsSlice(KeysOf(Rebuilt(es, a).value), KeysOf(es));
    }
  }

  /** Without blank keys no run of actions leaves a time or a reason beyond the size, and the entries are the list's. */
  lemma {:induction false} NoBlankStaysTidy(c: Contents, actions: seq<Action>)
    requires NoBlank(c.entries) && c.left == NOTHING_LEFT
    requires c.entries == [] ==> forall k :: 0 <= k < |actions| ==> BringsNoBlank(c.entries, actions[k])
    ensures After(c, actions).entries == RunActions(c.entries, actions) && After(c, actions).left == NOTHING_LEFT
    decreases actions
  {
    if actions != [] {
      var es := c.entries;
      if es == [] {
        assert BringsNoBlank(es, actions[0]);
        forall k | 0 <= k < |actions[1..]| ensures BringsNoBlank(es, actions[1..][k]) { assert BringsNoBlank(es, actions[k + 1]); }
      } else {
        NeverEmptied(es, actions[0]);
      }
      NothingLeftBehind(c, actions[0]);
      ActionKeepsNoBlank(es, actions[0]);
      NoBlankStaysTidy(Step(c, actions[0]), actions[1..]);
    }
  }

  lemma {:induction false} NewKeyAlone(known: seq<string>, key: string)
    requires key != "" && key !in Known(known)
    ensures NewKeys(known, [key]) == [key]
  {
    assert [key][..0] == [];
  }

  lemma {:induction false} OneNewKey(existing: seq<string>, key: string)
    requires Storable(existing) && Trimmed(key) && key != "" && key !in Known(TrimAll(existing))
    ensures AfterAppend(existing, [key]) == existing + [key]
  {
    TrimAllAppend([], [key]);
    assert [] + [key] == [key];
    NewKeyAlone(TrimAll(existing), key);
    StorableSurvives(existing + [key], existing);
  }

  lemma {:induction false} AppendXToA()
    ensures AfterAppend(["a"], ["x"]) == ["a", "x"]
  {
    TrimAllAppend([], ["a"]);
    assert [] + ["a"] == ["a"] && "x" !in Known(["a"]);
    OneNewKey(["a"], "x");
    assert ["a"] + ["x"] == ["a", "x"];
  }

  lemma {:induction false} SecondInheritsTime(a: string, x: string, time: int)
    requires AfterAppend([a], [x]) == [a, x]
    ensures Step(Contents([Fresh(a)], Leftover(map[1 := time], map[]), {}), AppendKeys([x])) ==
              Contents([Fresh(a), Entry(x, ENABLED, Some(time), None)], NOTHING_LEFT, {})
  {
    assert KeysOf([Fresh(a)]) == [a];
    InheritOne(a, x, time);
  }

  lemma {:induction false} InheritOne(a: string, x: string, time: int)
    ensures Inherit(Contents([Fresh(a)], Leftover(map[1 := time], map[]), {}), [a, x]) ==
              Contents([Fresh(a), Entry(x, ENABLED, Some(time), None)], NOTHING_LEFT, {})
  {
    var c := Contents([Fresh(a)], Leftover(map[1 := time], map[]), {});
    var es := Inherit(c, [a, x]).entries;
    assert es[0] == Fresh(a) && es[1] == Entry(x, ENABLED, Some(time), None);
    assert Beyond(c.left.time, 2) == map[];
  }

  /** A key that was never disabled takes over what a deletion left at its index. */
  method StaleTimeIsInherited() returns (c: Channel)
    ensures c.State() == Contents([Fresh("a"), Entry("x", ENABLED, Some(7), None)], NOTHING_LEFT, {})
  {
    var l := Lists(["a", "", "b"], map[], map[1 := 7], map[]);
    c := new Channel(l);
    assert l.Whole() == Contents([Fresh("a"), Entry("", ENABLED, Some(7), None), Fresh("b")], NOTHING_LEFT, {}) by {
      var es := l.Entries();
      assert es[0] == Fresh("a") && es[1] == Entry("", ENABLED, Some(7), None) && es[2] == Fresh("b");
      assert Beyond(l.time, 3) == map[];
    }
    StaleTimeExample();
    AppendXToA();
    SecondInheritsTime("a", "x", 7);
    var _ := c.Delete(Some(2));
    c.Append(["x"]);
  }

  lemma {:induction false} AppendXToBlank()
    ensures AfterAppend([""], ["x"]) == ["x"]
  {
    TrimAllAppend([], ["x"]);
    assert [] + ["x"] == ["x"];
    NothingKnown();
    NewKeyAlone(TrimAll([""]), "x");
    BlankGivesWay([""], ["x"]);
  }

  /** The first key appended to a channel with a single blank key takes over the status of that key. */
  method StatusOfBlankIsInherited() returns (c: Channel)
    ensures c.Entries() == [Entry("x", MANUAL, None, None)]
  {
    c := new Channel(Lists([""], map[0 := 2], map[], map[]));
    AppendXToBlank();
    c.Append(["x"]);
    var l := Lists(["x"], map[0 := 2], map[], map[]);
    assert c.Info() == l && l.Entries()[0] == Entry("x", MANUAL, None, None);
  }

  // ----- the statuses that are stored -----

  /** The contents are all there is: they determine the key list and the three maps. */
  lemma {:induction false} ContentsAreAll(l: Lists, m: Lists)
    requires Below(l.status, |l.keys|) && Below(m.status, |m.keys|) && l.Whole() == m.Whole()
    ensures l == m
  {
    var es := l.Entries();
    assert l.keys == KeysOf(es) == m.keys;
    forall i ensures i in l.status <==> i in m.status {
      StatusStoredIff(l, i);
      StatusStoredIff(m, i);
    }
    forall i | i in l.status ensures l.status[i] == m.status[i] { assert es[i].status == l.status[i]; }
    SameBeyond(l, m);
  }

  lemma {:induction false} StatusStoredIff(l: Lists, i: int)
    requires Below(l.status, |l.keys|)
    ensures i in l.status <==> i in l.Ones() || (0 <= i < |l.keys| && l.Entries()[i].status != ENABLED)
  {
  }

  lemma {:induction false} SameBeyond(l: Lists, m: Lists)
    requires l.Entries() == m.Entries() && l.Left() == m.Left() && l.keys == m.keys
    ensures l.time == m.time && l.reason == m.reason
  {
    var es, n := l.Entries(), |l.keys|;
    forall i ensures (i in l.time <==> i in m.time) && (i in l.time ==> l.time[i] == m.time[i]) {
      if 0 <= i < n {
        assert es[i].time == m.Entries()[i].time;
      } else {
        assert i in l.time <==> i in Beyond(l.time, n);
        assert i in m.time <==> i in Beyond(m.time, n);
        assert i in l.time ==> Beyond(l.time, n)[i] == l.time[i];
      }
    }
    forall i ensures (i in l.reason <==> i in m.reason) && (i in l.reason ==> l.reason[i] == m.reason[i]) {
      if 0 <= i < n {
        assert es[i].reason == m.Entries()[i].reason;
      } else {
        assert i in l.reason <==> i in Beyond(l.reason, n);
        assert i in m.reason <==> i in Beyond(m.reason, n);
        assert i in l.reason ==> Beyond(l.reason, n)[i] == l.reason[i];
      }
    }
  }

  /** The indices of the first n keys that are not enabled. */
  function Disabled(es: seq<Entry>, n: nat): set<int>
    requires n <= |es|
  {
    set i | 0 <= i < n && es[i].status != 1
  }

  /** As many statuses are stored as keys are not enabled, and for the enabled keys that have one. */
  lemma {:induction false} StatusesAreCounted(l: Lists)
    requires Below(l.status, |l.keys|)
    ensures |l.status| == |Disabled(l.Entries(), |l.keys|)| + |l.Ones()|
  {
    var disabled := Disabled(l.Entries(), |l.keys|);
    forall i ensures i in l.status.Keys <==> i in disabled + l.Ones() { StatusStoredIff(l, i); }
    assert l.status.Keys == disabled + l.Ones();
    assert disabled !! l.Ones();
  }

  /** When no key is enabled, every key has a status and none is that of an enabled one. */
  lemma {:induction false} NoneStoredEnabled(l: Lists)
    requires Below(l.status, |l.keys|) && forall i :: 0 <= i < |l.keys| ==> l.Entries()[i].status != ENABLED
    ensures l.Ones() == {}
    ensures forall i :: 0 <= i < |l.keys| ==> i in l.status && l.status[i] == l.Entries()[i].status
  {
    forall i | 0 <= i < |l.keys| ensures i in l.status && l.status[i] == l.Entries()[i].status { StatusStoredIff(l, i); }
    assert forall i :: i in l.status ==> 0 <= i < |l.keys| && l.status[i] != ENABLED;
  }

  /** No run stores the status of an enabled key. */
  lemma {:induction false} OnesNeverGrow(c: Contents, actions: seq<Action>)
    ensures After(c, actions).ones <= c.ones
    decreases actions
  {
    if actions != [] { OnesNeverGrow(Step(c, actions[0]), actions[1..]); }
  }

  // ----- when the list of entries tells the whole story -----

  /** No key is appended at an index where something is left. */
  ghost predicate Clear(c: Contents, a: Action) {
    a.AppendKeys? ==>
      forall i :: |c.entries| <= i < |AfterAppend(KeysOf(c.entries), a.input)| ==> i !in c.left.time && i !in c.left.reason
  }

  /** An action does to the entries what it does to the list if and only if it is clear. */
  lemma {:induction false} StepFollowsIff(c: Contents, a: Action)
    requires Stable(KeysOf(c.entries))
    ensures Step(c, a).entries == Apply(c.entries, a) <==> Clear(c, a)
  {
    if a.AppendKeys? {
      var es, ks := c.entries, AfterAppend(KeysOf(c.entries), a.input);
      AppendNeverShortens(KeysOf(es), a.input);
      AppendReattaches(es, a.input);
      InheritsFreshIff(c, ks);
    }
  }

  lemma {:induction false} InheritsFreshIff(c: Contents, ks: seq<string>)
    requires |ks| >= |c.entries|
    ensures Inherit(c, ks).entries == Reattach(ks, c.entries) <==>
              forall i :: |c.entries| <= i < |ks| ==> i !in c.left.time && i !in c.left.reason
  {
    var es, rs := Inherit(c, ks).entries, Reattach(ks, c.entries);
    assert forall i :: 0 <= i < |c.entries| ==> es[i] == rs[i];
    assert forall i :: |c.entries| <= i < |ks| ==> (es[i] == rs[i] <==> i !in c.left.time && i !in c.left.reason);
    assert es == rs <==> forall i :: 0 <= i < |ks| ==> es[i] == rs[i];
  }

  lemma {:induction false} ActionKeepsStable(c: Contents, a: Action)
    requires Stable(KeysOf(c.entries))
    ensures Stable(KeysOf(Step(c, a).entries))
  {
    var es := c.entries;
    if a.AppendKeys? {
      var existing := KeysOf(es);
      assert KeysOf(Step(c, a).entries) == AfterAppend(existing, a.input);
      PersistedIsStable(if existing == [] then a.input else existing + NewKeys(TrimAll(existing), TrimAll(a.input)), existing);
    } else if Rebuilt(es, a).Some? {
      assert KeysOf(Step(c, a).entries) == Persisted(KeysOf(Rebuilt(es, a).value), KeysOf(es));
      PersistedIsStable(KeysOf(Rebuilt(es, a).value), KeysOf(es));
    } else {
      assert KeysOf(Apply(es, a)) == KeysOf(es);
    }
  }

  lemma {:induction false} RunKeepsStable(c: Contents, actions: seq<Action>)
    requires Stable(KeysOf(c.entries))
    ensures Stable(KeysOf(After(c, actions).entries))
    decreases actions
  {
    if actions != [] {
      ActionKeepsStable(c, actions[0]);
      RunKeepsStable(Step(c, actions[0]), actions[1..]);
    }
  }

  /** The entries are the list's once the first k actions are done. */
  ghost predicate FollowsList(c: Contents, actions: seq<Action>, k: nat)
    requires k <= |actions|
  {
    After(c, actions[..k]).entries == RunActions(c.entries, actions[..k])
  }

  ghost predicate ClearAt(c: Contents, actions: seq<Action>, k: nat)
    requires k < |actions|
  {
    Clear(After(c, actions[..k]), actions[k])
  }

  lemma {:induction false} OneMoreAction(c: Contents, actions: seq<Action>, k: nat)
    requires Stable(KeysOf(c.entries)) && k < |actions| && FollowsList(c, actions, k)
    ensures FollowsList(c, actions, k + 1) <==> ClearAt(c, actions, k)
  {
    Runs.FoldThrough(Step, c, actions, k);
    Runs.FoldThrough(Apply, c.entries, actions, k);
    RunKeepsStable(c, actions[..k]);
    StepFollowsIff(After(c, actions[..k]), actions[k]);
  }

  lemma {:induction false} ClearRunFollows(c: Contents, actions: seq<Action>, k: nat)
    requires Stable(KeysOf(c.entries)) && k <= |actions|
    requires forall j: nat :: j < |actions| ==> ClearAt(c, actions, j)
    ensures FollowsList(c, actions, k)
  {
    if k > 0 {
      ClearRunFollows(c, actions, k - 1);
      OneMoreAction(c, actions, k - 1);
    }
  }

  /**
   Over any run of management actions and appends, the entries are after every action what the list of entries
   says, if and only if no append of the run puts a key where a time or a reason is left.
   */
  lemma {:induction false} RunFollowsListIff(c: Contents, actions: seq<Action>)
    requires Stable(KeysOf(c.entries))
    ensures (forall k: nat :: k <= |actions| ==> FollowsList(c, actions, k)) <==>
              (forall k: nat :: k < |actions| ==> ClearAt(c, actions, k))
  {
    if forall k: nat :: k <= |actions| ==> FollowsList(c, actions, k) {
      forall k: nat | k < |actions| ensures ClearAt(c, actions, k) {
        assert FollowsList(c, actions, k) && FollowsList(c, actions, k + 1);
        OneMoreAction(c, actions, k);
      }
    }
    if forall k: nat :: k < |actions| ==> ClearAt(c, actions, k) {
      forall k: nat | k <= |actions| ensures FollowsList(c, actions, k) { ClearRunFollows(c, actions, k); }
    }
  }

  lemma {:induction false} BareStep(c: Contents, a: Action)
    requires Stable(KeysOf(c.entries))
    ensures BareAll(Step(c, a).entries) == Apply(BareAll(c.entries), a)
  {
    assert BareAll(Apply(c.entries, a)) == Apply(BareAll(c.entries), a) by { BareApply(c.entries, a); }
    if a.AppendKeys? {
      var ks := AfterAppend(KeysOf(c.entries), a.input);
      assert Apply(c.entries, a) == Reattach(ks, c.entries) by { AppendReattaches(c.entries, a.input); }
      BareInherit(c, ks);
    }
  }

  lemma {:induction false} BareInherit(c: Contents, ks: seq<string>)
    ensures BareAll(Inherit(c, ks).entries) == BareAll(Reattach(ks, c.entries))
  {
  }

  /** Keys and statuses always follow the list of entries. */
  lemma {:induction false} KeysAndStatusesFollow(c: Contents, actions: seq<Action>)
    requires Stable(KeysOf(c.entries))
    ensures BareAll(After(c, actions).entries) == RunActions(BareAll(c.entries), actions)
    decreases actions
  {
    if actions != [] {
      BareStep(c, actions[0]);
      ActionKeepsStable(c, actions[0]);
      KeysAndStatusesFollow(Step(c, actions[0]), actions[1..]);
    }
  }

  /**
   Where a deletion leaves something: exactly at the indices beyond the new size to which it moved a key with a time
   or a reason, but for an enabled key in a sweep.  What was left before is gone.
   */
  lemma {:induction false} DeletionLeaves(c: Contents, a: Action, i: int)
    requires Rebuilt(c.entries, a).Some? && !a.AppendKeys?
    ensures var t := Step(c, a);
            && (i in t.left.time <==> |t.entries| <= i && exists j :: LeavesTime(c.entries, a, j, i))
            && (forall j :: i in t.left.time && LeavesTime(c.entries, a, j, i) ==> Some(t.left.time[i]) == c.entries[j].time)
            && (i in t.left.reason <==> |t.entries| <= i && exists j :: LeavesReason(c.entries, a, j, i))
            && (forall j :: i in t.left.reason && LeavesReason(c.entries, a, j, i) ==> Some(t.left.reason[i]) == c.entries[j].reason)
  {
    var es, rest := c.entries, Rebuilt(c.entries, a).value;
    if 0 <= i < |rest| {
      var j := MovedFrom(es, a, i);
      MovedWith(es, a, j);
      assert rest[i].time.Some? ==> LeavesTime(es, a, j, i);
      assert rest[i].reason.Some? ==> LeavesReason(es, a, j, i);
    }
    forall j | LeavesTime(es, a, j, i) ensures i < |rest| && rest[i] == es[j] { MovedWith(es, a, j); }
    forall j | LeavesReason(es, a, j, i) ensures i < |rest| && rest[i] == es[j] { MovedWith(es, a, j); }
  }

  ghost predicate LeavesTime(es: seq<Entry>, a: Action, j: int, i: int) {
    0 <= j < |es| && 0 <= i && Moved(es, a, j) == Some(i) && es[j].time.Some? && (a.DeleteDisabled? ==> es[j].status != 1)
  }

  ghost predicate LeavesReason(es: seq<Entry>, a: Action, j: int, i: int) {
    0 <= j < |es| && 0 <= i && Moved(es, a, j) == Some(i) && es[j].reason.Some? && (a.DeleteDisabled? ==> es[j].status != 1)
  }

  /** An entry as a deletion carries it over. */
  function Carried(a: Action, e: Entry): Entry {
    if a.DeleteDisabled? && e.status == ENABLED then Fresh(e.key) else e
  }

  lemma {:induction false} MovedWith(es: seq<Entry>, a: Action, j: nat)
    requires j < |es| && Rebuilt(es, a).Some? && !a.AppendKeys? && Moved(es, a, j).Some?
    ensures var r := Moved(es, a, j).value;
            r < |Rebuilt(es, a).value| && Rebuilt(es, a).value[r] == Carried(a, es[j])
  {
    match a
    case DeleteKey(k) => WithoutAt(es, k.value, j);
    case DeleteDisabled => SweepIsFilter(es, j);
  }

  // ----- the paged status view -----

  datatype KeyStatus = KeyStatus(index: nat, status: int, time: int, reason: string, preview: string)

  function StatusOf(e: Entry, index: nat): KeyStatus {
    KeyStatus(index, e.status,
              if e.status != ENABLED && e.time.Some? then e.time.value else 0,
              if e.status != ENABLED && e.reason.Some? then e.reason.value else "",
              if |e.key| > 10 then e.key[..10] + "..." else e.key)
  }

  datatype StatusPage = StatusPage(
    keys: seq<KeyStatus>, total: nat, page: int, pageSize: nat, totalPages: nat, enabled: nat, manual: nat, auto: nat)

  function StatusList(es: seq<Entry>): (lines: seq<KeyStatus>)
    ensures |lines| == |es| && forall i :: 0 <= i < |es| ==> lines[i] == StatusOf(es[i], i)
  {
    seq(|es|, i requires 0 <= i < |es| => StatusOf(es[i], i))
  }

  function Matching(list: seq<KeyStatus>, filter: Option<int>): seq<KeyStatus> {
    if filter.None? || list == [] then list
    else
      var last := list[|list|-1];
      Matching(list[..|list|-1], filter) + if last.status == filter.value then [last] else []
  }

  /** One line per key, with its index and status; time and reason are shown of a key that is not enabled. */
  lemma {:induction false} StatusLineAt(es: seq<Entry>, i: nat)
    requires i < |es|
    ensures |StatusList(es)| == |es|
    ensures var line, e := StatusList(es)[i], es[i];
            && line.index == i && line.status == e.status
            && line.time == (if e.status != 1 && e.time.Some? then e.time.value else 0)
            && line.reason == (if e.status != 1 && e.reason.Some? then e.reason.value else "")
            && (|e.key| <= 10 ==> line.preview == e.key)
            && (|e.key| > 10 ==> line.preview == e.key[..10] + "...")
  {
  }

  ghost predicate Ascending(lines: seq<KeyStatus>) {
    forall i, j :: 0 <= i < j < |lines| ==> lines[i].index < lines[j].index
  }

  /** The view keeps exactly the lines of the wanted status, all of them when none is asked for, by ascending index. */
  lemma {:induction false} MatchingIsFilter(lines: seq<KeyStatus>, filter: Option<int>)
    ensures forall line :: line in Matching(lines, filter) <==> line in lines && (filter.None? || line.status == filter.value)
    ensures Ascending(lines) ==> Ascending(Matching(lines, filter))
  {
    if filter.Some? && lines != [] {
      var n := |lines| - 1;
      var front := Matching(lines[..n], filter);
      MatchingIsFilter(lines[..n], filter);
      assert lines == lines[..n] + [lines[n]];
      if Ascending(lines) {
        forall i | 0 <= i < |front| ensures front[i].index < lines[n].index {
          assert front[i] in front;
          var j :| 0 <= j < n && lines[j] == front[i];
        }
      }
    }
  }

  lemma {:induction false} StatusListAscends(es: seq<Entry>)
    ensures Ascending(StatusList(es))
  {
  }

  /** A page of the view shows lines of keys of the wanted status, each as its key is, by ascending index. */
  lemma {:induction false} ViewMeans(es: seq<Entry>, filter: Option<int>, page: int, pageSize: int)
    ensures var shown := PageOf(Matching(StatusList(es), filter), page, pageSize);
            Ascending(shown) && forall k :: 0 <= k < |shown| ==> Shows(es, filter, shown[k])
  {
    var found := Matching(StatusList(es), filter);
    StatusListAscends(es);
    MatchingIsFilter(StatusList(es), filter);
    forall k | 0 <= k < |found| ensures Shows(es, filter, found[k]) {
      assert found[k] in found;
      FoundLine(es, filter, found[k]);
    }
    var start := PageWithin(found, page, pageSize);
  }

  /** The line of a key of the wanted status. */
  ghost predicate Shows(es: seq<Entry>, filter: Option<int>, line: KeyStatus) {
    && line.index < |es| && line == StatusOf(es[line.index], line.index)
    && (filter.None? || es[line.index].status == filter.value)
  }

  lemma {:induction false} FoundLine(es: seq<Entry>, filter: Option<int>, line: KeyStatus)
    requires line in StatusList(es) && (filter.None? || line.status == filter.value)
    ensures Shows(es, filter, line)
  {
  }

  lemma {:induction false} PageWithin<T>(list: seq<T>, page: int, pageSize: int) returns (start: nat)
    ensures var shown := PageOf(list, page, pageSize);
            start + |shown| <= |list| && forall k :: 0 <= k < |shown| ==> shown[k] == list[start + k]
  {
    var shown, size := PageOf(list, page, pageSize), PageSize(pageSize);
    var total := TotalPages(|list|, size);
    start := Product((if page <= 0 then 1 else if page > total then total else page) - 1, size);
    if start >= |list| { start := 0; }
  }

  function Tally(es: seq<Entry>, status: int): nat {
    if es == [] then 0 else Tally(es[..|es|-1], status) + if es[|es|-1].status == status then 1 else 0
  }

  /** The indices of the first n keys that have the given status. */
  function Having(es: seq<Entry>, n: nat, status: int): set<int>
    requires n <= |es|
  {
    set i | 0 <= i < n && es[i].status == status
  }

  /** The counts shown are the numbers of keys with each status. */
  lemma {:induction false} TallyIsCount(es: seq<Entry>, n: nat, status: int)
    requires n <= |es|
    ensures Tally(es[..n], status) == |Having(es, n, status)|
  {
    if n > 0 {
      TallyIsCount(es, n - 1, status);
      TallySnoc(es, n - 1, status);
      HavingSnoc(es, n - 1, status);
    }
  }

  lemma {:induction false} HavingSnoc(es: seq<Entry>, n: nat, status: int)
    requires n < |es|
    ensures |Having(es, n + 1, status)| == |Having(es, n, status)| + if es[n].status == status then 1 else 0
  {
    var before, after := Having(es, n, status), Having(es, n + 1, status);
    if es[n].status == status {
      assert after == before + {n};
    } else {
      assert after == before;
    }
  }

  function TotalPages(n: nat, pageSize: nat): nat
    requires pageSize > 0
  {
    var t := (n + pageSize - 1) / pageSize;
    if t == 0 then 1 else t
  }

  function Product(m: nat, n: nat): nat { m * n }

  /** The page size used for a requested one. */
  function PageSize(requested: int): (n: nat)
    ensures n > 0
  {
    if requested <= 0 then 50 else requested
  }

  /** The page of a list shown for a requested page number and size. */
  function PageOf<T>(list: seq<T>, page: int, pageSize: int): seq<T> {
    var size := PageSize(pageSize);
    var total := TotalPages(|list|, size);
    var wanted := if page <= 0 then 1 else if page > total then total else page;
    var start := Product(wanted - 1, size);
    var end := if start + size > |list| then |list| else start + size;
    if start < |list| then list[start..end] else []
  }

  /** The first n of a series of pages, numbered from 1, put together. */
  function Together<T>(pages: nat -> seq<T>, n: nat): seq<T> {
    if n == 0 then [] else Together(pages, n - 1) + pages(n)
  }

  /** Where page n ends, were the list long enough. */
  function PageEnd(n: nat, pageSize: nat): nat {
    if n == 0 then 0 else PageEnd(n - 1, pageSize) + pageSize
  }

  function UpTo(end: nat, length: nat): nat { if end > length then length else end }

  ghost predicate IsSlice<T>(page: seq<T>, list: seq<T>, start: nat, end: nat) {
    start <= end <= |list| && page == list[start..end]
  }

  /** Page k of the list as a slice. */
  ghost predicate IsPage<T>(page: seq<T>, list: seq<T>, pageSize: nat, k: nat)
    requires k > 0
  {
    var start := PageEnd(k - 1, pageSize);
    IsSlice(page, list, start, UpTo(start + pageSize, |list|))
  }

  lemma {:induction false} AppendSlice<T>(front: seq<T>, page: seq<T>, list: seq<T>, start: nat, end: nat)
    requires IsSlice(front, list, 0, start) && IsSlice(page, list, start, end)
    ensures IsSlice(front + page, list, 0, end)
  {
  }

  /** Consecutive slices put together are a prefix. */
  lemma {:induction false} SlicesTogether<T>(list: seq<T>, pages: nat -> seq<T>, pageSize: nat, n: nat)
    requires forall k: nat :: 0 < k <= n ==> IsPage(pages(k), list, pageSize, k)
    ensures IsSlice(Together(pages, n), list, 0, UpTo(PageEnd(n, pageSize), |list|))
  {
    if n > 0 {
      SlicesTogether(list, pages, pageSize, n - 1);
      var start := PageEnd(n - 1, pageSize);
      assert IsPage(pages(n), list, pageSize, n);
      AppendSlice(Together(pages, n - 1), pages(n), list, start, UpTo(start + pageSize, |list|));
    }
  }

  lemma {:induction false} PageEndIsProduct(n: nat, pageSize: nat)
    ensures PageEnd(n, pageSize) == n * pageSize
  {
    if n > 0 {
      PageEndIsProduct(n - 1, pageSize);
      assert n * pageSize == (n - 1) * pageSize + pageSize;
    }
  }

  lemma {:induction false} PageIsSlice<T>(list: seq<T>, pageSize: int, n: nat)
    requires 0 < n <= TotalPages(|list|, PageSize(pageSize))
    ensures IsPage(PageOf(list, n, pageSize), list, PageSize(pageSize), n)
  {
    PageStartsInside(|list|, PageSize(pageSize), n);
    PageEndIsProduct(n - 1, PageSize(pageSize));
  }

  /** As many pages as it takes to show the list, and at least one. */
  lemma {:induction false} PagesAreEnough(length: nat, pageSize: nat)
    requires pageSize > 0
    ensures var total := TotalPages(length, pageSize);
            1 <= total && length <= total * pageSize && (total > 1 ==> (total - 1) * pageSize < length)
  {
    var t := (length + pageSize - 1) / pageSize;
    PageStartsInside(length, pageSize, TotalPages(length, pageSize));
    assert t * pageSize <= length + pageSize - 1;
    assert (t - 1) * pageSize == t * pageSize - pageSize;
  }

  /** A page is a stretch of the list of the page size, or what is left of it. */
  lemma {:induction false} PageMeans<T>(list: seq<T>, page: int, pageSize: int)
    requires 1 <= page <= TotalPages(|list|, if pageSize <= 0 then 50 else pageSize)
    ensures var size: nat := if pageSize <= 0 then 50 else pageSize;
            && 0 <= (page - 1) * size <= |list|
            && IsSlice(PageOf(list, page, pageSize), list, (page - 1) * size, UpTo((page - 1) * size + size, |list|))
  {
    PageIsSlice(list, pageSize, page);
    PageEndIsProduct(page - 1, PageSize(pageSize));
  }

  /** A page number off the range shows the first or the last page. */
  lemma {:induction false} PageIsClamped<T>(list: seq<T>, page: int, pageSize: int)
    ensures page <= 0 ==> PageOf(list, page, pageSize) == PageOf(list, 1, pageSize)
    ensures var total := TotalPages(|list|, if pageSize <= 0 then 50 else pageSize);
            page > total ==> PageOf(list, page, pageSize) == PageOf(list, total, pageSize)
  {
    assert TotalPages(|list|, PageSize(pageSize)) >= 1;
  }

  lemma {:induction false} PageStartsInside(length: nat, pageSize: nat, n: nat)
    requires pageSize > 0 && 0 < n <= TotalPages(length, pageSize)
    ensures (n - 1) * pageSize <= length
    ensures length <= TotalPages(length, pageSize) * pageSize
  {
    var t := (length + pageSize - 1) / pageSize;
    assert t * pageSize <= length + pageSize - 1 < (t + 1) * pageSize;
    if t > 0 {
      assert (n - 1) * pageSize <= (t - 1) * pageSize;
    }
  }

  /** Pages 1 to the last one, put together, show every item of the list exactly once and in order. */
  lemma {:induction false} PagesReproduceList<T>(list: seq<T>, pageSize: int)
    ensures Together(n => PageOf(list, n, pageSize), TotalPages(|list|, PageSize(pageSize))) == list
  {
    var size := PageSize(pageSize);
    var total := TotalPages(|list|, size);
    var pages := (n: nat) => PageOf(list, n, pageSize);
    forall k: nat | 0 < k <= total ensures IsPage(pages(k), list, size, k) { PageIsSlice(list, pageSize, k); }
    SlicesTogether(list, pages, size, total);
    PageStartsInside(|list|, size, total);
    PageEndIsProduct(total, size);
    assert list[..|list|] == list;
  }
}
