/**
 Reconciling local pricing with several upstreams: `buildDifferences` (controller/ratio_sync.go).

 Numbers are reals.  An absent value and a JSON null are the same thing here, as they are in the code.
 */
module PricingDiff {
  import opened Options

  datatype Field =
    | ModelRatio | CompletionRatio | CacheRatio | CreateCacheRatio | ImageRatio | AudioRatio
    | AudioCompletionRatio | ModelPrice | BillingMode | BillingExpr

  const FIELDS := [ModelRatio, CompletionRatio, CacheRatio, CreateCacheRatio, ImageRatio, AudioRatio,
                   AudioCompletionRatio, ModelPrice, BillingMode, BillingExpr]

  lemma EveryFieldIsListed(f: Field)
    ensures f in FIELDS
  {
    match f
    case ModelRatio => assert FIELDS[0] == f;
    case CompletionRatio => assert FIELDS[1] == f;
    case CacheRatio => assert FIELDS[2] == f;
    case CreateCacheRatio => assert FIELDS[3] == f;
    case ImageRatio => assert FIELDS[4] == f;
    case AudioRatio => assert FIELDS[5] == f;
    case AudioCompletionRatio => assert FIELDS[6] == f;
    case ModelPrice => assert FIELDS[7] == f;
    case BillingMode => assert FIELDS[8] == f;
    case BillingExpr => assert FIELDS[9] == f;
  }

  datatype Value = Null | Num(num: real) | Str(str: string) | Bool(bool)

  /** The placeholder that stands for "equal to the local value" in the result. */
  const SAME := Str("same")

  type Data = map<Field, map<string, Value>>

  datatype Channel = Channel(name: string, data: Data)

  datatype Item = Item(current: Value, upstreams: map<string, Value>, confidence: map<string, bool>)

  type Differences = map<string, map<Field, Item>>

  const EPSILON := 0.000000001

  predicate NearlyEqual(a: real, b: real) {
    if a > b then a - b < EPSILON else b - a < EPSILON
  }

  predicate ValuesEqual(a: Value, b: Value) {
    if a.Num? && b.Num? then NearlyEqual(a.num, b.num) else a == b
  }

  function Rows(d: Data, f: Field): map<string, Value> {
    if f in d then d[f] else map[]
  }

  /** What a source supplies for a model and field. */
  function Supplied(d: Data, f: Field, m: string): Option<Value> {
    if m in Rows(d, f) then Some(Rows(d, f)[m]) else None
  }

  function LocalValue(local: Data, f: Field, m: string): Value {
    if m in Rows(local, f) then Rows(local, f)[m] else Null
  }

  /** What the result shows for one channel. */
  function Cell(local: Data, d: Data, f: Field, m: string): Value {
    var v := LocalValue(local, f, m);
    match Supplied(d, f, m)
    case None => if v == Null then SAME else Null
    case Some(u) => if ValuesEqual(v, u) then SAME else u
  }

  /** The channel supplies a value and it is not the local one. */
  predicate Disagrees(local: Data, d: Data, f: Field, m: string) {
    Supplied(d, f, m).Some? && !ValuesEqual(LocalValue(local, f, m), Supplied(d, f, m).value)
  }

  predicate IsDifference(v: Value) { v != Null && v != SAME }

  /** The price pair 37.5 and 1 marks an upstream's default, not a price. */
  predicate Trusted(d: Data, m: string) {
    var ratio, completion := Supplied(d, ModelRatio, m), Supplied(d, CompletionRatio, m);
    !(&& ratio.Some? && ratio.value.Num? && completion.Some? && completion.value.Num?
      && NearlyEqual(ratio.value.num, 37.5) && NearlyEqual(completion.value.num, 1.0))
  }

  // ----- the specification, over channels as a map from name to data -----

  type Sources = map<string, Data>

  predicate DistinctNames(chans: seq<Channel>) {
    forall i, j :: 0 <= i < j < |chans| ==> chans[i].name != chans[j].name
  }

  function SourcesOf(chans: seq<Channel>): Sources {
    if chans == [] then map[]
    else SourcesOf(chans[..|chans|-1])[chans[|chans|-1].name := chans[|chans|-1].data]
  }

  /** The channel differs from the local data somewhere. */
  ghost predicate Differs(local: Data, d: Data) {
    exists f: Field, m: string :: IsDifference(Cell(local, d, f, m))
  }

  ghost predicate AnySource(src: Sources, p: Data -> bool) {
    exists n :: n in src && p(src[n])
  }

  function SuppliesAt(f: Field, m: string): Data -> bool {
    d => Supplied(d, f, m).Some?
  }

  function DisagreesAt(local: Data, f: Field, m: string): Data -> bool {
    d => Disagrees(local, d, f, m)
  }

  /** Whether the first pass lists a model and field. */
  ghost predicate Listed(local: Data, src: Sources, f: Field, m: string) {
    if LocalValue(local, f, m) != Null then AnySource(src, DisagreesAt(local, f, m)) else AnySource(src, SuppliesAt(f, m))
  }

  /** Whether the entry survives pruning. */
  ghost predicate Kept(local: Data, src: Sources, f: Field, m: string) {
    Listed(local, src, f, m) && exists n :: n in src && Differs(local, src[n]) && Cell(local, src[n], f, m) != SAME
  }

  function CellAt(local: Data, f: Field, m: string): Data -> Value { d => Cell(local, d, f, m) }
  function TrustedAt(m: string): Data -> bool { d => Trusted(d, m) }

  function ViewOf<T>(src: Sources, names: set<string>, g: Data -> T): map<string, T> {
    map n | n in src && n in names :: g(src[n])
  }

  /** An entry that shows the named channels. */
  function ItemFor(local: Data, src: Sources, names: set<string>, f: Field, m: string): Item {
    Item(LocalValue(local, f, m), ViewOf(src, names, CellAt(local, f, m)), ViewOf(src, names, TrustedAt(m)))
  }

  /** The entry before pruning: every channel is shown. */
  function FullItem(local: Data, src: Sources, f: Field, m: string): Item {
    ItemFor(local, src, src.Keys, f, m)
  }

  ghost function Differing(local: Data, src: Sources): set<string> {
    set n | n in src && Differs(local, src[n])
  }

  /** The entry after pruning: exactly the channels that differ somewhere. */
  ghost function PrunedItem(local: Data, src: Sources, f: Field, m: string): Item {
    ItemFor(local, src, Differing(local, src), f, m)
  }

  /** The result holds exactly the kept entries, each as pruned, and no model without entries. */
  ghost predicate IsResult(local: Data, src: Sources, r: Differences) {
    && (forall m, f :: m in r && f in r[m] ==> Kept(local, src, f, m) && r[m][f] == PrunedItem(local, src, f, m))
    && (forall m: string, f: Field :: Kept(local, src, f, m) ==> m in r && f in r[m])
    && (forall m :: m in r ==> r[m] != map[])
  }

  lemma {:induction false} NewName(chans: seq<Channel>, n: string)
    requires forall i :: 0 <= i < |chans| ==> chans[i].name != n
    ensures n !in SourcesOf(chans)
  {
    if chans != [] { NewName(chans[..|chans|-1], n); }
  }

  lemma {:induction false} SourcesSnoc(chans: seq<Channel>, i: nat)
    requires DistinctNames(chans) && i < |chans|
    ensures SourcesOf(chans[..i+1]) == SourcesOf(chans[..i])[chans[i].name := chans[i].data]
    ensures chans[i].name !in SourcesOf(chans[..i])
  {
    assert chans[..i+1][..i] == chans[..i];
    NewName(chans[..i], chans[i].name);
  }

  lemma {:induction false} OneMoreView<T>(src: Sources, n: string, d: Data, g: Data -> T)
    requires n !in src
    ensures ViewOf(src[n := d], src[n := d].Keys, g) == ViewOf(src, src.Keys, g)[n := g(d)]
  {
  }

  /** One more channel, seen by the specification. */
  lemma {:induction false} OneMoreShown(local: Data, src: Sources, n: string, d: Data, f: Field, m: string)
    requires n !in src
    ensures var item, item' := FullItem(local, src, f, m), FullItem(local, src[n := d], f, m);
            && item'.upstreams == item.upstreams[n := Cell(local, d, f, m)]
            && item'.confidence == item.confidence[n := Trusted(d, m)]
  {
    OneMoreView(src, n, d, CellAt(local, f, m));
    OneMoreView(src, n, d, TrustedAt(m));
  }

  lemma {:induction false} OneMoreSource(src: Sources, n: string, d: Data, p: Data -> bool)
    requires n !in src
    ensures AnySource(src[n := d], p) <==> AnySource(src, p) || p(d)
  {
    var src' := src[n := d];
    assert src'[n] == d;
    if k :| k in src && p(src[k]) { assert src'[k] == src[k]; }
  }

  // ----- the algorithm -----

  /** The comparison made for one channel. */
  method CompareOne(localValue: Value, val: Option<Value>) returns (shown: Value, differs: bool)
    ensures shown == match val
                     case None => if localValue == Null then SAME else Null
                     case Some(u) => if ValuesEqual(localValue, u) then SAME else u
    ensures localValue != Null ==> (differs <==> val.Some? && !ValuesEqual(localValue, val.value))
  {
    shown, differs := Null, false;
    if val.Some? {
      shown := val.value;
      if localValue != Null && !ValuesEqual(localValue, shown) {
        differs := true;
      } else if ValuesEqual(localValue, shown) {
        shown := SAME;
      }
    }
    if shown == Null && localValue == Null { shown := SAME; }
    if localValue == Null && shown != Null && shown != SAME { differs := true; }
  }

  /** What the inner loop has gathered about one model and field. */
  datatype Gathered = Gathered(
    upstreams: map<string, Value>, confidence: map<string, bool>, hasUpstreamValue: bool, hasDifference: bool)

  ghost predicate Covers(g: Gathered, local: Data, src: Sources, f: Field, m: string) {
    && Item(LocalValue(local, f, m), g.upstreams, g.confidence) == FullItem(local, src, f, m)
    && g.hasUpstreamValue == AnySource(src, SuppliesAt(f, m))
    && (LocalValue(local, f, m) != Null ==> g.hasDifference == AnySource(src, DisagreesAt(local, f, m)))
  }

  /** The body of the inner loop: one channel more. */
  method GatherFrom(g: Gathered, local: Data, ghost src: Sources, c: Channel, f: Field, m: string) returns (r: Gathered)
    requires c.name !in src && Covers(g, local, src, f, m)
    ensures Covers(r, local, src[c.name := c.data], f, m)
  {
    OneMoreShown(local, src, c.name, c.data, f, m);
    OneMoreSource(src, c.name, c.data, SuppliesAt(f, m));
    OneMoreSource(src, c.name, c.data, DisagreesAt(local, f, m));
    var val := Supplied(c.data, f, m);
    var shown, differs := CompareOne(LocalValue(local, f, m), val);
    r := Gathered(
      g.upstreams[c.name := shown], g.confidence[c.name := Trusted(c.data, m)],
      g.hasUpstreamValue || val.Some?, g.hasDifference || differs);
  }

  /** The inner loop: one model and field, all channels. */
  method BuildItem(local: Data, chans: seq<Channel>, f: Field, m: string) returns (listed: bool, item: Item)
    requires DistinctNames(chans)
    ensures listed == Listed(local, SourcesOf(chans), f, m)
    ensures item == FullItem(local, SourcesOf(chans), f, m)
  {
    var localValue := LocalValue(local, f, m);
    var g := Gathered(map[], map[], false, false);
    ghost var src: Sources := map[];
    for i := 0 to |chans|
      invariant src == SourcesOf(chans[..i])
      invariant Covers(g, local, src, f, m)
    {
      SourcesSnoc(chans, i);
      g := GatherFrom(g, local, src, chans[i], f, m);
      src := src[chans[i].name := chans[i].data];
    }
    assert chans[..|chans|] == chans;
    listed := if localValue != Null then g.hasDifference else g.hasUpstreamValue;
    item := Item(localValue, g.upstreams, g.confidence);
  }

  function NamesIn(d: Data): set<string> {
    set f, m | f in d && m in d[f] :: m
  }

  method CollectModels(local: Data, chans: seq<Channel>) returns (models: set<string>)
    requires DistinctNames(chans)
    ensures forall f: Field, m: string :: Listed(local, SourcesOf(chans), f, m) ==> m in models
  {
    models := NamesIn(local);
    for i := 0 to |chans|
      invariant NamesIn(local) <= models
      invariant forall n :: n in SourcesOf(chans[..i]) ==> NamesIn(SourcesOf(chans[..i])[n]) <= models
    {
      SourcesSnoc(chans, i);
      models := models + NamesIn(chans[i].data);
    }
    assert chans[..|chans|] == chans;
    forall f: Field, m: string | Listed(local, SourcesOf(chans), f, m) ensures m in models {
      ListedIsNamed(local, SourcesOf(chans), f, m);
    }
  }

  lemma {:induction false} ListedIsNamed(local: Data, src: Sources, f: Field, m: string)
    requires Listed(local, src, f, m)
    ensures m in NamesIn(local) || exists n :: n in src && m in NamesIn(src[n])
  {
    if LocalValue(local, f, m) == Null {
      var n :| n in src && SuppliesAt(f, m)(src[n]);
      assert m in NamesIn(src[n]);
    }
  }

  /** A row holds exactly the listed fields of a model. */
  ghost predicate IsRow(local: Data, src: Sources, m: string, row: map<Field, Item>) {
    forall f: Field :: (f in row <==> Listed(local, src, f, m)) && (f in row ==> row[f] == FullItem(local, src, f, m))
  }

  method BuildRow(local: Data, chans: seq<Channel>, m: string) returns (row: map<Field, Item>)
    requires DistinctNames(chans)
    ensures IsRow(local, SourcesOf(chans), m, row)
  {
    row := map[];
    ghost var src := SourcesOf(chans);
    for i := 0 to |FIELDS|
      invariant forall f: Field :: f in row <==> f in FIELDS[..i] && Listed(local, src, f, m)
      invariant forall f: Field :: f in row ==> row[f] == FullItem(local, src, f, m)
    {
      var f := FIELDS[i];
      var listed, item := BuildItem(local, chans, f, m);
      if listed { row := row[f := item]; }
      assert FIELDS[..i+1] == FIELDS[..i] + [f];
    }
    assert FIELDS[..|FIELDS|] == FIELDS;
    forall f: Field ensures f in FIELDS { EveryFieldIsListed(f); }
  }

  /** The result of the first pass: a row for every model that has a listed field. */
  ghost predicate IsFirstPass(local: Data, src: Sources, d: Differences) {
    && (forall m :: m in d ==> IsRow(local, src, m, d[m]))
    && (forall f: Field, m: string :: Listed(local, src, f, m) ==> m in d)
  }

  /** The first pass; the models are visited in no particular order. */
  method FirstPass(local: Data, chans: seq<Channel>) returns (d: Differences)
    requires DistinctNames(chans)
    ensures IsFirstPass(local, SourcesOf(chans), d)
  {
    var todo := CollectModels(local, chans);
    d := map[];
    ghost var src := SourcesOf(chans);
    while todo != {}
      invariant forall m :: m in d ==> IsRow(local, src, m, d[m])
      invariant forall f: Field, m: string :: Listed(local, src, f, m) ==> m in todo || m in d
      decreases todo
    {
      var m :| m in todo;
      todo := todo - {m};
      var row := BuildRow(local, chans, m);
      if row != map[] { d := d[m := row]; }
    }
  }

  function DifferingIn(row: map<Field, Item>): set<string> {
    set f, n | f in row && n in row[f].upstreams && IsDifference(row[f].upstreams[n]) :: n
  }

  /** A difference in some channel's cell is enough to have the entry listed. */
  lemma {:induction false} DifferenceIsListed(local: Data, src: Sources, n: string, f: Field, m: string)
    requires n in src && IsDifference(Cell(local, src[n], f, m))
    ensures Listed(local, src, f, m)
  {
    assert SuppliesAt(f, m)(src[n]);
    if LocalValue(local, f, m) != Null { assert DisagreesAt(local, f, m)(src[n]); }
  }

  lemma {:induction false} DifferingInRow(local: Data, src: Sources, m: string, row: map<Field, Item>, n: string)
    requires IsRow(local, src, m, row)
    ensures n in DifferingIn(row) <==> n in src && exists f: Field :: IsDifference(Cell(local, src[n], f, m))
  {
    if n in src {
      if f: Field :| IsDifference(Cell(local, src[n], f, m)) {
        DifferenceIsListed(local, src, n, f, m);
        assert f in row && n in row[f].upstreams;
      }
    }
  }

  method UnionAll(rows: map<string, set<string>>) returns (names: set<string>)
    ensures forall n :: n in names <==> exists m :: m in rows && n in rows[m]
  {
    names := {};
    var todo := rows.Keys;
    while todo != {}
      invariant todo <= rows.Keys
      invariant forall n :: n in names <==> exists m :: m in rows && m !in todo && n in rows[m]
      decreases todo
    {
      var m :| m in todo;
      todo := todo - {m};
      names := names + rows[m];
    }
  }

  /** The channels that differ somewhere, gathered from the first pass. */
  method DifferingChannels(local: Data, ghost src: Sources, d: Differences) returns (names: set<string>)
    requires IsFirstPass(local, src, d)
    ensures names == Differing(local, src)
  {
    var rows := map m | m in d :: DifferingIn(d[m]);
    names := UnionAll(rows);
    forall n ensures n in names <==> n in src && Differs(local, src[n]) {
      NamesDiffer(local, src, d, n);
      if m :| m in rows && n in rows[m] { assert n in DifferingIn(d[m]); }
      if m :| m in d && n in DifferingIn(d[m]) { assert n in rows[m]; }
    }
  }

  lemma {:induction false} NamesDiffer(local: Data, src: Sources, d: Differences, n: string)
    requires IsFirstPass(local, src, d)
    ensures (exists m :: m in d && n in DifferingIn(d[m])) <==> n in src && Differs(local, src[n])
  {
    if m :| m in d && n in DifferingIn(d[m]) {
      DifferingInRow(local, src, m, d[m], n);
    }
    if n in src && Differs(local, src[n]) {
      var f: Field, m: string :| IsDifference(Cell(local, src[n], f, m));
      DifferenceIsListed(local, src, n, f, m);
      DifferingInRow(local, src, m, d[m], n);
    }
  }

  function PruneItem(item: Item, names: set<string>): Item {
    Item(item.current,
         map n | n in item.upstreams && n in names :: item.upstreams[n],
         map n | n in item.confidence && n in names :: item.confidence[n])
  }

  predicate AllSame(item: Item) {
    forall n :: n in item.upstreams ==> item.upstreams[n] == SAME
  }

  function PruneRow(row: map<Field, Item>, names: set<string>): map<Field, Item> {
    map f | f in row && !AllSame(PruneItem(row[f], names)) :: PruneItem(row[f], names)
  }

  lemma {:induction false} RestrictView<T>(src: Sources, names: set<string>, g: Data -> T)
    ensures var full := ViewOf(src, src.Keys, g);
            (map n | n in full && n in names :: full[n]) == ViewOf(src, names, g)
  {
  }

  lemma {:induction false} PruneItemIsPruned(local: Data, src: Sources, f: Field, m: string)
    ensures PruneItem(FullItem(local, src, f, m), Differing(local, src)) == PrunedItem(local, src, f, m)
  {
    RestrictView(src, Differing(local, src), CellAt(local, f, m));
    RestrictView(src, Differing(local, src), TrustedAt(m));
  }

  lemma {:induction false} KeptIffNotAllSame(local: Data, src: Sources, f: Field, m: string)
    requires Listed(local, src, f, m)
    ensures !AllSame(PrunedItem(local, src, f, m)) <==> Kept(local, src, f, m)
  {
    var upstreams := PrunedItem(local, src, f, m).upstreams;
    if Kept(local, src, f, m) {
      var n :| n in src && Differs(local, src[n]) && Cell(local, src[n], f, m) != SAME;
      assert n in upstreams;
    }
    if n :| n in upstreams && upstreams[n] != SAME {
      assert n in src && Differs(local, src[n]) && Cell(local, src[n], f, m) != SAME;
    }
  }

  /** Delete the models whose rows are empty. */
  method DropEmpty(rows: Differences) returns (r: Differences)
    ensures r == map m | m in rows && rows[m] != map[] :: rows[m]
  {
    r := rows;
    var todo := rows.Keys;
    while todo != {}
      invariant todo <= rows.Keys
      invariant r == map m | m in rows && (m in todo || rows[m] != map[]) :: rows[m]
      decreases todo
    {
      var m :| m in todo;
      todo := todo - {m};
      if r[m] == map[] { r := r - {m}; }
    }
  }

  ghost predicate IsPruned(d: Differences, names: set<string>, r: Differences) {
    && r.Keys <= d.Keys
    && (forall m :: m in r ==> r[m] == PruneRow(d[m], names) && r[m] != map[])
    && (forall m :: m in d && PruneRow(d[m], names) != map[] ==> m in r)
  }

  /** The pruning pass. */
  method Prune(d: Differences, names: set<string>) returns (r: Differences)
    ensures IsPruned(d, names, r)
  {
    r := DropEmpty(map m | m in d :: PruneRow(d[m], names));
  }

  lemma {:induction false} PruneGivesResult(local: Data, src: Sources, d: Differences, names: set<string>, r: Differences)
    requires IsFirstPass(local, src, d) && IsPruned(d, names, r) && names == Differing(local, src)
    ensures IsResult(local, src, r)
  {
    forall m, f | m in r && f in r[m]
      ensures Kept(local, src, f, m) && r[m][f] == PrunedItem(local, src, f, m)
    {
      PruneItemIsPruned(local, src, f, m);
      KeptIffNotAllSame(local, src, f, m);
    }
    forall m: string, f: Field | Kept(local, src, f, m) ensures m in r && f in r[m] {
      PruneItemIsPruned(local, src, f, m);
      KeptIffNotAllSame(local, src, f, m);
      assert f in PruneRow(d[m], names);
    }
  }

  method BuildDifferences(local: Data, chans: seq<Channel>) returns (r: Differences)
    requires DistinctNames(chans)
    ensures IsResult(local, SourcesOf(chans), r)
  {
    var d := FirstPass(local, chans);
    var names := DifferingChannels(local, SourcesOf(chans), d);
    r := Prune(d, names);
    PruneGivesResult(local, SourcesOf(chans), d, names, r);
  }

  // ----- what the result means -----

  /** A row of a result is determined by the data. */
  ghost predicate IsResultRow(local: Data, src: Sources, m: string, row: map<Field, Item>) {
    forall f: Field :: (f in row <==> Kept(local, src, f, m)) && (f in row ==> row[f] == PrunedItem(local, src, f, m))
  }

  lemma {:induction false} RowOfResult(local: Data, src: Sources, r: Differences, m: string)
    requires IsResult(local, src, r) && m in r
    ensures IsResultRow(local, src, m, r[m])
  {
  }

  lemma {:induction false} RowsEqual(a: map<Field, Item>, b: map<Field, Item>, keep: Field -> bool, item: Field -> Item)
    requires forall f :: (f in a <==> keep(f)) && (f in a ==> a[f] == item(f))
    requires forall f :: (f in b <==> keep(f)) && (f in b ==> b[f] == item(f))
    ensures a == b
  {
    assert forall f :: f in a <==> f in b;
  }

  lemma {:induction false} ResultRowIsUnique(local: Data, src: Sources, m: string, a: map<Field, Item>, b: map<Field, Item>)
    requires IsResultRow(local, src, m, a) && IsResultRow(local, src, m, b)
    ensures a == b
  {
    RowsEqual(a, b, f => Kept(local, src, f, m), f => PrunedItem(local, src, f, m));
  }

  lemma {:induction false} SameRow(local: Data, src: Sources, r: Differences, s: Differences, m: string)
    requires IsResult(local, src, r) && IsResult(local, src, s) && m in r
    ensures m in s && r[m] == s[m]
  {
    var f :| f in r[m];
    assert Kept(local, src, f, m);
    RowOfResult(local, src, r, m);
    RowOfResult(local, src, s, m);
    ResultRowIsUnique(local, src, m, r[m], s[m]);
  }

  /** The result is unique: neither the order of channels nor the order of map iteration can show in it. */
  lemma {:induction false} ResultIsUnique(local: Data, src: Sources, r: Differences, s: Differences)
    requires IsResult(local, src, r) && IsResult(local, src, s)
    ensures r == s
  {
    forall m | m in r ensures m in s && r[m] == s[m] { SameRow(local, src, r, s, m); }
    forall m | m in s ensures m in r { SameRow(local, src, s, r, m); }
  }

  lemma {:induction false} SourceOfMember(chans: seq<Channel>, i: nat)
    requires DistinctNames(chans) && i < |chans|
    ensures chans[i].name in SourcesOf(chans) && SourcesOf(chans)[chans[i].name] == chans[i].data
  {
    var k := |chans| - 1;
    if i < k { SourceOfMember(chans[..k], i); }
  }

  lemma {:induction false} SourceHasMember(chans: seq<Channel>, n: string)
    requires n in SourcesOf(chans)
    ensures exists i :: 0 <= i < |chans| && chans[i] == Channel(n, SourcesOf(chans)[n])
  {
    var k := |chans| - 1;
    if n == chans[k].name {
      assert chans[k] == Channel(n, SourcesOf(chans)[n]);
    } else {
      SourceHasMember(chans[..k], n);
      var i :| 0 <= i < k && chans[..k][i] == Channel(n, SourcesOf(chans[..k])[n]);
      assert chans[i] == Channel(n, SourcesOf(chans)[n]);
    }
  }

  /** The same channels in another order. */
  lemma {:induction false} OrderOfChannelsIsIrrelevant(a: seq<Channel>, b: seq<Channel>)
    requires DistinctNames(a) && DistinctNames(b)
    requires forall c :: c in a <==> c in b
    ensures SourcesOf(a) == SourcesOf(b)
  {
    SourcesIncluded(a, b);
    SourcesIncluded(b, a);
  }

  lemma {:induction false} SourcesIncluded(a: seq<Channel>, b: seq<Channel>)
    requires DistinctNames(b) && forall c :: c in a ==> c in b
    ensures forall n :: n in SourcesOf(a) ==> n in SourcesOf(b) && SourcesOf(b)[n] == SourcesOf(a)[n]
  {
    forall n | n in SourcesOf(a) ensures n in SourcesOf(b) && SourcesOf(b)[n] == SourcesOf(a)[n] {
      SourceHasMember(a, n);
      var i :| 0 <= i < |a| && a[i] == Channel(n, SourcesOf(a)[n]);
      assert a[i] in b;
      var j :| 0 <= j < |b| && b[j] == a[i];
      SourceOfMember(b, j);
    }
  }

  /** Runs over the channels in any two orders give the same map. */
  method RunBothOrders(local: Data, a: seq<Channel>, b: seq<Channel>) returns (ra: Differences, rb: Differences)
    requires DistinctNames(a) && DistinctNames(b) && multiset(a) == multiset(b)
    ensures ra == rb && IsResult(local, SourcesOf(a), ra)
  {
    assert forall c :: c in a <==> c in multiset(a);
    assert forall c :: c in b <==> c in multiset(b);
    OrderOfChannelsIsIrrelevant(a, b);
    ra := BuildDifferences(local, a);
    rb := BuildDifferences(local, b);
    ResultIsUnique(local, SourcesOf(a), ra, rb);
  }

  /** Some channel supplies a value other than the local one, or one where there is no local value. */
  ghost predicate SomeoneDisagrees(local: Data, src: Sources, f: Field, m: string) {
    AnySource(src, DisagreesAt(local, f, m))
  }

  /** A supplied value that the pruning pass takes for one of its own placeholders. */
  predicate IsPlaceholder(v: Value) { v == Null || v == SAME }

  /** The channel supplies a value that is neither the local one nor a placeholder. */
  predicate SuppliesOther(local: Data, d: Data, f: Field, m: string) {
    Disagrees(local, d, f, m) && !IsPlaceholder(Supplied(d, f, m).value)
  }

  /** The channel supplies the local value, or the text "same". */
  predicate SuppliesSame(local: Data, d: Data, f: Field, m: string) {
    Supplied(d, f, m).Some? &&
    var u := Supplied(d, f, m).value;
    ValuesEqual(LocalValue(local, f, m), u) || u == SAME
  }

  /**
   The one way an entry can vanish, in terms of what the channels supply: every disagreeing value is a null
   or the text "same", and where there is a local value, every channel that supplies some other value
   anywhere supplies here that value or the text "same".
   */
  ghost predicate OnlyPlaceholders(local: Data, src: Sources, f: Field, m: string) {
    && SomeoneDisagrees(local, src, f, m)
    && (forall n :: n in src ==> !SuppliesOther(local, src[n], f, m))
    && (LocalValue(local, f, m) != Null ==>
          forall n, g: Field, k: string :: n in src && SuppliesOther(local, src[n], g, k) ==> SuppliesSame(local, src[n], f, m))
  }

  lemma {:induction false} CellShowsOther(local: Data, d: Data, f: Field, m: string)
    ensures IsDifference(Cell(local, d, f, m)) <==> SuppliesOther(local, d, f, m)
    ensures LocalValue(local, f, m) != Null ==> (Cell(local, d, f, m) == SAME <==> SuppliesSame(local, d, f, m))
    ensures LocalValue(local, f, m) == Null ==> (Cell(local, d, f, m) == SAME <==> !SuppliesOther(local, d, f, m))
  {
  }

  lemma {:induction false} KeptIsNotPlaceholders(local: Data, src: Sources, f: Field, m: string)
    requires Kept(local, src, f, m)
    ensures SomeoneDisagrees(local, src, f, m) && !OnlyPlaceholders(local, src, f, m)
  {
    var n :| n in src && Differs(local, src[n]) && Cell(local, src[n], f, m) != SAME;
    CellShowsOther(local, src[n], f, m);
    if LocalValue(local, f, m) == Null { assert DisagreesAt(local, f, m)(src[n]); }
    var g: Field, k: string :| IsDifference(Cell(local, src[n], g, k));
    CellShowsOther(local, src[n], g, k);
  }

  lemma {:induction false} DroppedIsPlaceholders(local: Data, src: Sources, f: Field, m: string)
    requires SomeoneDisagrees(local, src, f, m) && !Kept(local, src, f, m)
    ensures OnlyPlaceholders(local, src, f, m)
  {
    var d :| d in src && DisagreesAt(local, f, m)(src[d]);
    assert SuppliesAt(f, m)(src[d]);
    assert Listed(local, src, f, m);
    forall n | n in src ensures !SuppliesOther(local, src[n], f, m) {
      CellShowsOther(local, src[n], f, m);
      if IsDifference(Cell(local, src[n], f, m)) { assert Differs(local, src[n]); }
    }
    if LocalValue(local, f, m) != Null {
      forall n, g: Field, k: string | n in src && SuppliesOther(local, src[n], g, k)
        ensures SuppliesSame(local, src[n], f, m)
      {
        CellShowsOther(local, src[n], g, k);
        CellShowsOther(local, src[n], f, m);
        assert Differs(local, src[n]);
      }
    }
  }

  /** An entry is in the result exactly when some channel disagrees, unless all it has are placeholders. */
  lemma {:induction false} KeptExactlyIff(local: Data, src: Sources, f: Field, m: string)
    ensures Kept(local, src, f, m) <==> SomeoneDisagrees(local, src, f, m) && !OnlyPlaceholders(local, src, f, m)
  {
    if Kept(local, src, f, m) {
      KeptIsNotPlaceholders(local, src, f, m);
    } else if SomeoneDisagrees(local, src, f, m) {
      DroppedIsPlaceholders(local, src, f, m);
    }
  }

  /** An upstream null where there is a local price disagrees and is not shown. */
  lemma {:induction false} NullVanishes()
    ensures var local: Data := map[ModelPrice := map["m" := Num(1.0)]];
            var src: Sources := map["upstream" := map[ModelPrice := map["m" := Null]]];
            && SomeoneDisagrees(local, src, ModelPrice, "m")
            && !Kept(local, src, ModelPrice, "m")
  {
    var local: Data := map[ModelPrice := map["m" := Num(1.0)]];
    var src: Sources := map["upstream" := map[ModelPrice := map["m" := Null]]];
    assert DisagreesAt(local, ModelPrice, "m")(src["upstream"]);
    forall g: Field, k: string ensures !IsDifference(Cell(local, src["upstream"], g, k)) {
      CellShowsOther(local, src["upstream"], g, k);
    }
  }

  /** It does happen: an upstream billing mode spelt "same" disagrees with the local one and is not shown. */
  lemma {:induction false} LiteralSameVanishes()
    ensures var local: Data := map[BillingMode := map["m" := Str("ratio")]];
            var src: Sources := map["upstream" := map[BillingMode := map["m" := SAME]]];
            && SomeoneDisagrees(local, src, BillingMode, "m")
            && !Kept(local, src, BillingMode, "m")
  {
    var local: Data := map[BillingMode := map["m" := Str("ratio")]];
    var src: Sources := map["upstream" := map[BillingMode := map["m" := SAME]]];
    var f, m := BillingMode, "m";
    assert Str("ratio") != SAME by { assert "ratio"[0] != "same"[0]; }
    assert Cell(local, src["upstream"], f, m) == SAME;
    assert DisagreesAt(local, f, m)(src["upstream"]);
  }

  /** No channel supplies a null or the text "same". */
  ghost predicate Plain(src: Sources) {
    forall n, f: Field, m: string :: n in src ==>
      Supplied(src[n], f, m) != Some(Null) && Supplied(src[n], f, m) != Some(SAME)
  }

  /** On plain data the result is exact, and pruning drops no entry that the first pass listed. */
  lemma {:induction false} PlainDataIsExact(local: Data, src: Sources, f: Field, m: string)
    requires Plain(src)
    ensures Kept(local, src, f, m) <==> SomeoneDisagrees(local, src, f, m)
    ensures Kept(local, src, f, m) <==> Listed(local, src, f, m)
  {
    if Listed(local, src, f, m) {
      var n := ListedSource(local, src, f, m);
      assert IsDifference(Cell(local, src[n], f, m));
      assert Differs(local, src[n]);
    }
    if Kept(local, src, f, m) { KeptIsNotPlaceholders(local, src, f, m); }
    if SomeoneDisagrees(local, src, f, m) && !Kept(local, src, f, m) {
      DroppedIsPlaceholders(local, src, f, m);
    }
  }

  lemma {:induction false} ListedSource(local: Data, src: Sources, f: Field, m: string) returns (n: string)
    requires Plain(src) && Listed(local, src, f, m)
    ensures n in src && Disagrees(local, src[n], f, m)
  {
    if LocalValue(local, f, m) == Null {
      n :| n in src && SuppliesAt(f, m)(src[n]);
    } else {
      n :| n in src && DisagreesAt(local, f, m)(src[n]);
    }
  }

  // ----- the result, read off the data -----

  /** The data has the value for a model and field. */
  ghost predicate Has(d: Data, f: Field, m: string, u: Value) {
    f in d && m in d[f] && d[f][m] == u
  }

  /** The value of a model and field, null where there is none. */
  ghost function ValueAt(d: Data, f: Field, m: string): Value {
    if f in d && m in d[f] then d[f][m] else Null
  }

  /** Two numbers at least a billionth apart, or two values that are not both numbers and not the same. */
  ghost predicate Apart(v: Value, u: Value) {
    if v.Num? && u.Num? then u.num <= v.num - 0.000000001 || u.num >= v.num + 0.000000001 else v != u
  }

  lemma {:induction false} DisagreesIffApart(local: Data, d: Data, f: Field, m: string)
    ensures Disagrees(local, d, f, m) <==> exists u :: Has(d, f, m, u) && Apart(ValueAt(local, f, m), u)
  {
    if Disagrees(local, d, f, m) { assert Has(d, f, m, d[f][m]) && Apart(ValueAt(local, f, m), d[f][m]); }
  }

  /** The channel has a value other than the local one somewhere, and it is neither a null nor the text "same". */
  ghost predicate HasOther(local: Data, d: Data) {
    exists f: Field, m: string, u: Value ::
      Has(d, f, m, u) && Apart(ValueAt(local, f, m), u) && u != Null && u != Str("same")
  }

  lemma {:induction false} DiffersIffHasOther(local: Data, d: Data)
    ensures Differs(local, d) <==> HasOther(local, d)
  {
    if Differs(local, d) {
      var f: Field, m: string :| IsDifference(Cell(local, d, f, m));
      CellShowsOther(local, d, f, m);
      assert Has(d, f, m, d[f][m]) && Apart(ValueAt(local, f, m), d[f][m]);
    }
    if HasOther(local, d) {
      var f: Field, m: string, u: Value :|
        Has(d, f, m, u) && Apart(ValueAt(local, f, m), u) && u != Null && u != Str("same");
      CellShowsOther(local, d, f, m);
    }
  }

  /** What an entry shows of a channel: its value, "same" for the local one, null for none where there is a local one. */
  ghost predicate ShowsCell(local: Data, d: Data, f: Field, m: string, shown: Value) {
    var v := ValueAt(local, f, m);
    && (forall u :: Has(d, f, m, u) ==> shown == if Apart(v, u) then u else Str("same"))
    && (!(f in d && m in d[f]) ==> shown == if v == Null then Str("same") else Null)
  }

  /** The channel's ratio is within a billionth of 37.5 and its completion ratio within a billionth of 1. */
  ghost predicate IsDefaultPair(d: Data, m: string) {
    exists a: real, b: real ::
      && Has(d, ModelRatio, m, Num(a)) && 37.499999999 < a < 37.500000001
      && Has(d, CompletionRatio, m, Num(b)) && 0.999999999 < b < 1.000000001
  }

  lemma {:induction false} TrustedIff(d: Data, m: string)
    ensures Trusted(d, m) <==> !IsDefaultPair(d, m)
  {
    if !Trusted(d, m) {
      var a, b := d[ModelRatio][m].num, d[CompletionRatio][m].num;
      assert Has(d, ModelRatio, m, Num(a)) && Has(d, CompletionRatio, m, Num(b));
    }
  }

  lemma {:induction false} ViewAt<T>(src: Sources, names: set<string>, g: Data -> T, n: string)
    ensures n in ViewOf(src, names, g) <==> n in src && n in names
    ensures n in src && n in names ==> ViewOf(src, names, g)[n] == g(src[n])
  {
  }

  /** An item shows a channel as its data has it, or does not show it because it differs nowhere. */
  ghost predicate ShowsChannel(local: Data, src: Sources, f: Field, m: string, item: Item, n: string) {
    && (n in item.upstreams <==> n in src && HasOther(local, src[n]))
    && (n in item.confidence <==> n in item.upstreams)
    && (n in item.upstreams ==>
          && n in src && n in item.confidence
          && ShowsCell(local, src[n], f, m, item.upstreams[n])
          && (item.confidence[n] <==> !IsDefaultPair(src[n], m)))
  }

  lemma {:induction false} CellIsShown(local: Data, d: Data, f: Field, m: string)
    ensures ShowsCell(local, d, f, m, Cell(local, d, f, m))
  {
  }

  lemma {:induction false} PrunedShowsChannel(local: Data, src: Sources, f: Field, m: string, n: string)
    ensures ShowsChannel(local, src, f, m, PrunedItem(local, src, f, m), n)
  {
    var names := Differing(local, src);
    ViewAt(src, names, CellAt(local, f, m), n);
    ViewAt(src, names, TrustedAt(m), n);
    if n in src {
      DiffersIffHasOther(local, src[n]);
      TrustedIff(src[n], m);
      CellIsShown(local, src[n], f, m);
    }
  }

  /**
   Every entry of the result: the local value, and for exactly the channels that differ somewhere what they have
   and whether it is to be trusted.
   */
  lemma {:induction false} EntryMeans(local: Data, src: Sources, r: Differences, f: Field, m: string)
    requires IsResult(local, src, r) && m in r && f in r[m]
    ensures r[m][f].current == ValueAt(local, f, m)
    ensures forall n :: ShowsChannel(local, src, f, m, r[m][f], n)
  {
    forall n ensures ShowsChannel(local, src, f, m, r[m][f], n) { PrunedShowsChannel(local, src, f, m, n); }
  }

  lemma {:induction false} ApartIsKept(local: Data, src: Sources, n: string, f: Field, m: string, u: Value)
    requires n in src && Has(src[n], f, m, u) && u != Null && u != Str("same") && Apart(ValueAt(local, f, m), u)
    ensures Kept(local, src, f, m) && HasOther(local, src[n])
  {
    CellIsShown(local, src[n], f, m);
    assert IsDifference(Cell(local, src[n], f, m));
    DifferenceIsListed(local, src, n, f, m);
    assert Differs(local, src[n]);
  }

  /** A value that is neither a null nor "same" is shown in the result exactly when it is apart from the local one. */
  lemma {:induction false} ShownIffApart(local: Data, src: Sources, r: Differences, n: string, f: Field, m: string, u: Value)
    requires IsResult(local, src, r) && n in src && Has(src[n], f, m, u) && u != Null && u != Str("same")
    ensures m in r && f in r[m] && n in r[m][f].upstreams && r[m][f].upstreams[n] == u
       <==> Apart(ValueAt(local, f, m), u)
  {
    if Apart(ValueAt(local, f, m), u) { ApartIsKept(local, src, n, f, m, u); }
    if m in r && f in r[m] {
      EntryMeans(local, src, r, f, m);
      assert ShowsChannel(local, src, f, m, r[m][f], n);
    }
  }

  lemma {:induction false} SomeoneIsApart(local: Data, src: Sources, f: Field, m: string)
    ensures SomeoneDisagrees(local, src, f, m) <==>
              exists n, u :: n in src && Has(src[n], f, m, u) && Apart(ValueAt(local, f, m), u)
  {
    if SomeoneDisagrees(local, src, f, m) {
      var n :| n in src && DisagreesAt(local, f, m)(src[n]);
      DisagreesIffApart(local, src[n], f, m);
    }
    if n, u :| n in src && Has(src[n], f, m, u) && Apart(ValueAt(local, f, m), u) {
      DisagreesIffApart(local, src[n], f, m);
      assert DisagreesAt(local, f, m)(src[n]);
    }
  }

  /** On data without nulls and "same" an entry is there exactly when some channel has a value apart from the local one. */
  lemma {:induction false} EntryIffApart(local: Data, src: Sources, r: Differences, f: Field, m: string)
    requires IsResult(local, src, r) && Plain(src)
    ensures m in r && f in r[m] <==> exists n, u :: n in src && Has(src[n], f, m, u) && Apart(ValueAt(local, f, m), u)
  {
    SomeoneIsApart(local, src, f, m);
    PlainDataIsExact(local, src, f, m);
  }
}
