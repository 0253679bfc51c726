/**
 The Ogg page scan that measures an Opus file, `getOpusDuration` (common/audio.go), against the
 page format of section 6 of RFC 3533 and the 48 kHz granule clock of section 4 of RFC 7845.
 */
module OggScanner {

  import opened Octets
  import opened Options

  const HEADER := 27
  const TWO63 := 0x8000_0000_0000_0000
  const TWO64 := 0x1_0000_0000_0000_0000

  /** The capture pattern "OggS" stands at the given offset. */
  predicate MagicAt(bs: seq<byte>, i: nat) {
    i + 4 <= |bs| && bs[i] == 0x4F && bs[i+1] == 0x67 && bs[i+2] == 0x67 && bs[i+3] == 0x53
  }

  /** The given bytes stand at an offset of a file. */
  ghost predicate Holds(file: seq<byte>, at: nat, bs: seq<byte>) {
    at + |bs| <= |file| && forall i :: 0 <= i < |bs| ==> file[at + i] == bs[i]
  }

  // ----- little-endian integers -----

  function Pow256(k: nat): nat {
    if k == 0 then 1 else 256 * Pow256(k - 1)
  }

  function ToLE(n: nat, k: nat): (bs: seq<byte>)
    ensures |bs| == k
  {
    if k == 0 then [] else [n % 256] + ToLE(n / 256, k - 1)
  }

  /** The k bytes at offset i, read as a little-endian number. */
  function FromLE(bs: seq<byte>, i: nat, k: nat): nat
    requires i + k <= |bs|
    decreases k
  {
    if k == 0 then 0 else bs[i] + 256 * FromLE(bs, i + 1, k - 1)
  }

  lemma {:induction false} LittleEndianRoundTrip(file: seq<byte>, at: nat, n: nat, k: nat)
    requires n < Pow256(k) && Holds(file, at, ToLE(n, k))
    ensures FromLE(file, at, k) == n
    decreases k
  {
    if k > 0 {
      var low := ToLE(n, k);
      assert low[0] == n % 256 && low[1..] == ToLE(n / 256, k - 1);
      assert forall i :: 0 <= i < k - 1 ==> low[1..][i] == low[i + 1];
      assert n / 256 < Pow256(k - 1);
      assert file[at + 0] == low[0];
      LittleEndianRoundTrip(file, at + 1, n / 256, k - 1);
    }
  }

  /** Go's conversion of an unsigned 64-bit word to a signed one, and back. */
  function Signed(n: nat): int { if n < TWO63 then n else n - TWO64 }
  function Unsigned(g: int): int { if g < 0 then g + TWO64 else g }

  // ----- pages -----

  datatype Page = Page(
    version: byte,
    flags: byte,
    granule: int,
    serial: seq<byte>,
    sequence: seq<byte>,
    crc: seq<byte>,
    table: seq<byte>,
    payload: seq<byte>)

  /** The bytes from lo up to hi, added up. */
  function Sum(bs: seq<byte>, lo: nat, hi: nat): nat
    requires lo <= hi <= |bs|
    decreases hi - lo
  {
    if lo == hi then 0 else bs[lo] + Sum(bs, lo + 1, hi)
  }

  /** Sums of adjoining stretches add up, and that of a single byte is the byte. */
  lemma {:induction false} SumIsAdditive(bs: seq<byte>, lo: nat, mid: nat, hi: nat)
    requires lo <= mid <= hi <= |bs|
    ensures Sum(bs, lo, hi) == Sum(bs, lo, mid) + Sum(bs, mid, hi)
    ensures lo < |bs| ==> Sum(bs, lo, lo + 1) == bs[lo]
    decreases mid - lo
  {
    if lo < mid { SumIsAdditive(bs, lo + 1, mid, hi); }
  }

  predicate WellFormed(p: Page) {
    && -TWO63 <= p.granule < TWO63
    && |p.serial| == |p.sequence| == |p.crc| == 4
    && |p.table| <= 255
    && |p.payload| == Sum(p.table, 0, |p.table|)
  }

  function Header(p: Page): (h: seq<byte>)
    requires WellFormed(p)
    ensures |h| == HEADER
  {
    [0x4F, 0x67, 0x67, 0x53] + [p.version, p.flags] + ToLE(Unsigned(p.granule), 8) +
    p.serial + p.sequence + p.crc + [|p.table|]
  }

  function Encode(p: Page): (bs: seq<byte>)
    requires WellFormed(p)
    ensures |bs| == PageSize(p)
  {
    Header(p) + (p.table + p.payload)
  }

  function PageSize(p: Page): nat {
    HEADER + |p.table| + |p.payload|
  }

  /** A page stands at an offset of a file. */
  ghost predicate PageAt(file: seq<byte>, at: nat, p: Page) {
    WellFormed(p) && Holds(file, at, Encode(p))
  }

  lemma {:induction false} HoldsPart(file: seq<byte>, at: nat, a: seq<byte>, b: seq<byte>)
    requires Holds(file, at, a + b)
    ensures Holds(file, at, a) && Holds(file, at + |a|, b)
  {
    assert forall i :: 0 <= i < |a| ==> (a + b)[i] == a[i];
    forall i | 0 <= i < |b| ensures file[at + |a| + i] == b[i] { assert (a + b)[|a| + i] == b[i]; }
  }

  lemma {:induction false} HeaderAt(file: seq<byte>, at: nat, p: Page)
    requires WellFormed(p) && Holds(file, at, Header(p))
    ensures MagicAt(file, at) && file[at + 26] == |p.table|
    ensures Holds(file, at + 6, ToLE(Unsigned(p.granule), 8))
  {
    var h := Header(p);
    assert h[0] == 0x4F && h[1] == 0x67 && h[2] == 0x67 && h[3] == 0x53 && h[26] == |p.table|;
    assert h[6..14] == ToLE(Unsigned(p.granule), 8);
    forall i | 0 <= i < 8 ensures file[at + 6 + i] == ToLE(Unsigned(p.granule), 8)[i] {
      assert h[6 + i] == h[6..14][i] && file[at + (6 + i)] == h[6 + i];
    }
  }

  lemma {:induction false} SumOfCopy(file: seq<byte>, at: nat, bs: seq<byte>, i: nat)
    requires Holds(file, at, bs) && i <= |bs|
    ensures Sum(file, at + i, at + |bs|) == Sum(bs, i, |bs|)
    decreases |bs| - i
  {
    if i < |bs| { SumOfCopy(file, at, bs, i + 1); }
  }

  /** What the scanner reads of a page that stands at an offset. */
  lemma {:induction false} PageFields(file: seq<byte>, at: nat, p: Page)
    requires PageAt(file, at, p)
    ensures at + PageSize(p) <= |file| && MagicAt(file, at) && file[at + 26] == |p.table|
    ensures GranuleAt(file, at) == p.granule
    ensures Sum(file, at + HEADER, at + HEADER + |p.table|) == |p.payload|
  {
    HoldsPart(file, at, Header(p), p.table + p.payload);
    HoldsPart(file, at + HEADER, p.table, p.payload);
    HeaderAt(file, at, p);
    assert Pow256(8) == TWO64;
    LittleEndianRoundTrip(file, at + 6, Unsigned(p.granule), 8);
    SumOfCopy(file, at + HEADER, p.table, 0);
  }

  // ----- the scan -----

  /** The granule position of a header: eight bytes from the seventh on, as a signed number. */
  function GranuleAt(file: seq<byte>, pos: nat): int
    requires pos + HEADER <= |file|
  {
    Signed(FromLE(file, pos + 6, 8))
  }

  function Larger(g: int, best: int): int { if g > best then g else best }

  /** What one pass of the loop does: break out, or move on; `hit` tells whether it saw a page. */
  datatype Pass =
    | Break(best: int, hit: bool)
    | MoveTo(pos: nat, best: int, hit: bool)

  function PassAt(file: seq<byte>, pos: nat, best: int): Pass {
    if pos + HEADER > |file| then Break(best, false)
    else if !MagicAt(file, pos) then MoveTo(pos + 1, best, false)
    else
      var best' := Larger(GranuleAt(file, pos), best);
      var behind := pos + HEADER + file[pos + 26];
      if behind > |file| then Break(best', true)
      else MoveTo(behind + Sum(file, pos + HEADER, behind), best', true)
  }

  /** A loop body that moves forward whenever it does not break out. */
  ghost predicate Progresses(pass: (seq<byte>, nat, int) -> Pass) {
    forall file, pos: nat, best :: pass(file, pos, best).MoveTo? ==> pos < pass(file, pos, best).pos && pos < |file|
  }

  type Body = f: (seq<byte>, nat, int) -> Pass | Progresses(f) witness (file, pos, best) => Break(best, false)

  datatype Scanned = Scanned(best: int, visits: seq<nat>)

  function Prepend(visits: seq<nat>, s: Scanned): Scanned {
    Scanned(s.best, visits + s.visits)
  }

  function Hit(hit: bool, pos: nat): seq<nat> {
    if hit then [pos] else []
  }

  /** The loop over a body, from an offset of the file to the end; the bytes left decrease with every pass. */
  function Run(pass: Body, file: seq<byte>, pos: nat, best: int): Scanned
    decreases if pos < |file| then |file| - pos else 0
  {
    match pass(file, pos, best)
    case Break(b, hit) => Scanned(b, Hit(hit, pos))
    case MoveTo(next, b, hit) => Prepend(Hit(hit, pos), Run(pass, file, next, b))
  }

  /** The scan of a whole file. */
  function Scan(file: seq<byte>): Scanned {
    Run(PassAt, file, 0, 0)
  }

  method TableSum(table: seq<byte>) returns (size: nat)
    ensures size == Sum(table, 0, |table|)
  {
    size := 0;
    for i := 0 to |table|
      invariant size + Sum(table, i, |table|) == Sum(table, 0, |table|)
    {
      size := size + table[i];
    }
  }

  lemma {:induction false} SameWord(file: seq<byte>, at: nat, buf: seq<byte>, i: nat, k: nat)
    requires Holds(file, at, buf) && i + k <= |buf|
    ensures FromLE(buf, i, k) == FromLE(file, at + i, k)
    decreases k
  {
    if k > 0 { SameWord(file, at, buf, i + 1, k - 1); }
  }

  /** Reads a page header: nothing when too few bytes are left, else its bytes. */
  method ReadHeader(file: seq<byte>, pos: nat) returns (n: nat, magic: bool, granule: int, segments: byte)
    ensures n == if pos + HEADER <= |file| then HEADER else 0
    ensures n == HEADER ==> magic == MagicAt(file, pos) && granule == GranuleAt(file, pos) && segments == file[pos + 26]
  {
    n, magic, granule, segments := 0, false, 0, 0;
    if pos + HEADER <= |file| {
      n := HEADER;
      var buf := file[pos..pos + n];
      magic, segments := MagicAt(buf, 0), buf[26];
      SameWord(file, pos, buf, 6, 8);
      granule := Signed(FromLE(buf, 6, 8));
    }
  }

  /** Reads a segment table and adds up its segments. */
  method ReadTable(file: seq<byte>, pos: nat, segments: nat) returns (pageSize: Option<nat>)
    ensures pageSize == if pos + segments > |file| then None else Some(Sum(file, pos, pos + segments))
  {
    if pos + segments > |file| { return None; }
    var table := file[pos..pos + segments];
    SumOfCopy(file, pos, table, 0);
    var size := TableSum(table);
    return Some(size);
  }

  /** One pass of the loop body: the reads and seeks of the source, on a file and its position. */
  method ScanOnce(file: seq<byte>, start: nat, best: int) returns (pass: Pass)
    ensures pass == PassAt(file, start, best)
  {
    var pos, total := start, best;
    var n, magic, granule, segments := ReadHeader(file, pos);
    if n < HEADER { return Break(total, false); }
    pos := pos + n;
    if !magic {
      pos := pos - 26;
      return MoveTo(pos, total, false);
    }
    if granule > total { total := granule; }
    var pageSize := ReadTable(file, pos, segments);
    if pageSize.None? { return Break(total, true); }
    pos := pos + segments;
    pos := pos + pageSize.value;
    return MoveTo(pos, total, true);
  }

  lemma {:induction false} PrependTwice(a: seq<nat>, b: seq<nat>, s: Scanned)
    ensures Prepend(a, Prepend(b, s)) == Prepend(a + b, s)
  {
    assert a + (b + s.visits) == (a + b) + s.visits;
  }

  method OpusDuration(file: seq<byte>) returns (duration: real, total: int, visits: seq<nat>)
    ensures Scanned(total, visits) == Scan(file)
    ensures duration == total as real / 48000.0
  {
    total, visits := 0, [];
    var pos: nat := 0;
    ghost var body: Body := PassAt;
    while true
      invariant Run(body, file, 0, 0) == Prepend(visits, Run(body, file, pos, total))
      decreases if pos < |file| then |file| - pos else 0
    {
      var pass := ScanOnce(file, pos, total);
      var found := Hit(pass.hit, pos);
      if pass.MoveTo? { PrependTwice(visits, found, Run(body, file, pass.pos, pass.best)); }
      visits := visits + found;
      total := pass.best;
      if pass.Break? { break; }
      pos := pass.pos;
    }
    duration := total as real / 48000.0;
  }

  // ----- streams of pages -----

  /** The four bytes of "OggS". */
  const PATTERN: seq<byte> := [0x4F, 0x67, 0x67, 0x53]

  predicate PatternAt(bs: seq<byte>, i: nat) {
    i + 4 <= |bs| && bs[i..i+4] == PATTERN
  }

  predicate NoMagic(junk: seq<byte>) {
    forall i :: 0 <= i < |junk| ==> !PatternAt(junk, i)
  }

  lemma {:induction false} MagicIsPattern(bs: seq<byte>, i: nat)
    ensures MagicAt(bs, i) <==> PatternAt(bs, i)
  {
    if i + 4 <= |bs| {
      var four := bs[i..i+4];
      assert four[0] == bs[i] && four[1] == bs[i+1] && four[2] == bs[i+2] && four[3] == bs[i+3];
    }
  }

  /** Pages, each behind bytes that belong to none, and such bytes at the end. */
  datatype Layout =
    | End(junk: seq<byte>)
    | Chunk(junk: seq<byte>, page: Page, rest: Layout)

  predicate Readable(l: Layout) {
    && NoMagic(l.junk)
    && (l.Chunk? ==> WellFormed(l.page) && Readable(l.rest))
  }

  function Bytes(l: Layout): seq<byte>
    requires Readable(l)
  {
    if l.End? then l.junk else l.junk + Encode(l.page) + Bytes(l.rest)
  }

  function Pages(l: Layout): seq<Page> {
    if l.End? then [] else [l.page] + Pages(l.rest)
  }

  /** Where each page starts, the stream itself starting at the given offset. */
  function Offsets(l: Layout, at: nat): (os: seq<nat>)
    ensures |os| == |Pages(l)|
  {
    if l.End? then []
    else
      var start := at + |l.junk|;
      [start] + Offsets(l.rest, start + PageSize(l.page))
  }

  // ----- what a loop body has to do, and that the scanner's does it -----

  /** Pass over what is not a page one byte at a time, until too few bytes are left. */
  ghost predicate SkipsJunk(pass: Body) {
    forall file, pos: nat, best {:trigger pass(file, pos, best)} :: pos + HEADER > |file| || !MagicAt(file, pos) ==>
      pass(file, pos, best) == if pos + HEADER > |file| then Break(best, false) else MoveTo(pos + 1, best, false)
  }

  /** Pass over a well-formed page as a whole. */
  ghost predicate ReadsPages(pass: Body) {
    forall file, pos: nat, best, p {:trigger PageAt(file, pos, p), pass(file, pos, best)} :: PageAt(file, pos, p) ==>
      pass(file, pos, best) == MoveTo(pos + PageSize(p), Larger(p.granule, best), true)
  }

  /** The file ends inside a page that stands at an offset, behind the page's header. */
  ghost predicate CutAt(file: seq<byte>, at: nat, p: Page) {
    && WellFormed(p) && at + HEADER <= |file| < at + PageSize(p)
    && forall i :: 0 <= i < |file| - at ==> file[at + i] == Encode(p)[i]
  }

  /** A pass that sees a page and breaks out, or moves to where no header fits any more. */
  ghost predicate SeesLast(x: Pass, size: nat, best: int) {
    x == Break(best, true) || (x.MoveTo? && x.best == best && x.hit && x.pos + HEADER > size)
  }

  /** See a page whose header is whole even if the file ends inside it. */
  ghost predicate ReadsCutPages(pass: Body) {
    forall file, pos: nat, best, p {:trigger CutAt(file, pos, p), pass(file, pos, best)} :: CutAt(file, pos, p) ==>
      SeesLast(pass(file, pos, best), |file|, Larger(p.granule, best))
  }

  lemma {:induction false} PassAtReadsPages()
    ensures ReadsPages(PassAt)
  {
    forall file, pos: nat, best, p | PageAt(file, pos, p)
      ensures PassAt(file, pos, best) == MoveTo(pos + PageSize(p), Larger(p.granule, best), true)
    {
      PageFields(file, pos, p);
    }
  }

  /** What the scanner reads of a page in which the file ends. */
  lemma {:induction false} CutPageFields(file: seq<byte>, at: nat, p: Page)
    requires CutAt(file, at, p)
    ensures MagicAt(file, at) && file[at + 26] == |p.table| && GranuleAt(file, at) == p.granule
    ensures at + HEADER + |p.table| <= |file| ==> Sum(file, at + HEADER, at + HEADER + |p.table|) == |p.payload|
  {
    var h := Header(p);
    assert forall i :: 0 <= i < HEADER ==> Encode(p)[i] == h[i];
    HeaderAt(file, at, p);
    assert Pow256(8) == TWO64;
    LittleEndianRoundTrip(file, at + 6, Unsigned(p.granule), 8);
    if at + HEADER + |p.table| <= |file| {
      forall i | 0 <= i < |p.table| ensures file[at + HEADER + i] == p.table[i] {
        assert Encode(p)[HEADER + i] == p.table[i] && file[at + (HEADER + i)] == Encode(p)[HEADER + i];
      }
      SumOfCopy(file, at + HEADER, p.table, 0);
    }
  }

  lemma {:induction false} PassAtReadsCutPages()
    ensures ReadsCutPages(PassAt)
  {
    forall file, pos: nat, best, p | CutAt(file, pos, p)
      ensures SeesLast(PassAt(file, pos, best), |file|, Larger(p.granule, best))
    {
      CutPageFields(file, pos, p);
    }
  }

  ghost predicate NoMagicBetween(file: seq<byte>, lo: nat, hi: nat) {
    forall i :: lo <= i < hi ==> !MagicAt(file, i)
  }

  lemma {:induction false} RunSkipsJunk(pass: Body, file: seq<byte>, lo: nat, hi: nat, best: int)
    requires SkipsJunk(pass) && lo <= hi && hi + HEADER <= |file| && NoMagicBetween(file, lo, hi)
    ensures Run(pass, file, lo, best) == Run(pass, file, hi, best)
    decreases hi - lo
  {
    if lo < hi { RunSkipsJunk(pass, file, lo + 1, hi, best); }
  }

  lemma {:induction false} RunEndsInJunk(pass: Body, file: seq<byte>, lo: nat, best: int)
    requires SkipsJunk(pass) && lo <= |file| && NoMagicBetween(file, lo, |file|)
    ensures Run(pass, file, lo, best) == Scanned(best, [])
    decreases |file| - lo
  {
    assert !MagicAt(file, lo);
    if lo + HEADER <= |file| { RunEndsInJunk(pass, file, lo + 1, best); }
  }

  /** From an offset on, the file holds the pages, and no magic outside them. */
  ghost predicate LaidOut(file: seq<byte>, pos: nat, l: Layout)
    decreases l
  {
    && pos + |l.junk| <= |file|
    && NoMagicBetween(file, pos, pos + |l.junk|)
    && match l
       case End(junk) => pos + |junk| == |file|
       case Chunk(junk, page, rest) =>
         && PageAt(file, pos + |junk|, page)
         && LaidOut(file, pos + |junk| + PageSize(page), rest)
  }

  /** The first k bytes of a file have magic only where the file has. */
  lemma {:induction false} PrefixHasNoMagic(file: seq<byte>, k: nat, lo: nat, hi: nat)
    requires k <= |file| && NoMagicBetween(file, lo, hi)
    ensures NoMagicBetween(file[..k], lo, hi)
  {
    forall i | lo <= i < hi ensures !MagicAt(file[..k], i) { assert !MagicAt(file, i); }
  }

  /** Nothing is seen where the next page's header does not fit into the file any more. */
  lemma {:induction false} RunEndsBefore(pass: Body, file: seq<byte>, lo: nat, start: nat, best: int)
    requires SkipsJunk(pass) && lo <= start && start + HEADER > |file| && NoMagicBetween(file, lo, start)
    ensures Run(pass, file, lo, best) == Scanned(best, [])
    decreases start - lo
  {
    if lo + HEADER <= |file| { RunEndsBefore(pass, file, lo + 1, start, best); }
  }

  lemma {:induction false} RunReadsCutPage(pass: Body, file: seq<byte>, pos: nat, start: nat, page: Page, best: int)
    requires SkipsJunk(pass) && ReadsCutPages(pass) && pos <= start
    requires NoMagicBetween(file, pos, start) && CutAt(file, start, page)
    ensures Run(pass, file, pos, best) == Scanned(Larger(page.granule, best), [start])
  {
    RunSkipsJunk(pass, file, pos, start, best);
    assert SeesLast(pass(file, start, best), |file|, Larger(page.granule, best));
  }

  lemma {:induction false} RunReadsPage(pass: Body, file: seq<byte>, pos: nat, start: nat, page: Page, best: int)
    requires SkipsJunk(pass) && ReadsPages(pass) && pos <= start
    requires NoMagicBetween(file, pos, start) && PageAt(file, start, page)
    ensures Run(pass, file, pos, best)
            == Prepend([start], Run(pass, file, start + PageSize(page), Larger(page.granule, best)))
  {
    RunSkipsJunk(pass, file, pos, start, best);
  }

  lemma {:induction false} PageInPrefix(file: seq<byte>, k: nat, at: nat, p: Page)
    requires PageAt(file, at, p) && k <= |file|
    ensures at + PageSize(p) <= k ==> PageAt(file[..k], at, p)
    ensures at + HEADER <= k < at + PageSize(p) ==> CutAt(file[..k], at, p)
  {
    assert |Encode(p)| == PageSize(p);
  }

  /** Of the pages of a layout, the offsets of those whose header lies within the first k bytes. */
  function Within(l: Layout, at: nat, k: nat): seq<nat> {
    if l.End? || at + |l.junk| + HEADER > k then []
    else [at + |l.junk|] + Within(l.rest, at + |l.junk| + PageSize(l.page), k)
  }

  /** The largest of their granule positions and a start value. */
  function MaxWithin(l: Layout, at: nat, k: nat, best: int): int {
    if l.End? || at + |l.junk| + HEADER > k then best
    else MaxWithin(l.rest, at + |l.junk| + PageSize(l.page), k, Larger(l.page.granule, best))
  }

  lemma {:induction false} NothingWithin(l: Layout, at: nat, k: nat, best: int)
    requires at + HEADER > k
    ensures Within(l, at, k) == [] && MaxWithin(l, at, k, best) == best
  {
  }

  /** The first page of a layout is read if its header is within the first k bytes, and is the last one if it is cut. */
  lemma {:induction false} RunReadsFirst(pass: Body, file: seq<byte>, k: nat, pos: nat, l: Layout, best: int)
    requires SkipsJunk(pass) && ReadsPages(pass) && ReadsCutPages(pass) && LaidOut(file, pos, l) && k <= |file|
    requires l.Chunk? && pos + |l.junk| + HEADER <= k
    ensures var start, larger := pos + |l.junk|, Larger(l.page.granule, best);
            var next := start + PageSize(l.page);
            Run(pass, file[..k], pos, best) ==
              if next <= k then Prepend([start], Run(pass, file[..k], next, larger)) else Scanned(larger, [start])
  {
    var start := pos + |l.junk|;
    PrefixHasNoMagic(file, k, pos, start);
    PageInPrefix(file, k, start, l.page);
    if start + PageSize(l.page) <= k {
      RunReadsPage(pass, file[..k], pos, start, l.page, best);
    } else {
      RunReadsCutPage(pass, file[..k], pos, start, l.page, best);
    }
  }

  /** A body that skips junk and reads pages, whole and cut, sees exactly the pages whose header it can read, in order. */
  lemma {:induction false} RunReadsPages(pass: Body, file: seq<byte>, k: nat, pos: nat, l: Layout, best: int)
    requires SkipsJunk(pass) && ReadsPages(pass) && ReadsCutPages(pass) && LaidOut(file, pos, l) && k <= |file|
    ensures Run(pass, file[..k], pos, best) == Scanned(MaxWithin(l, pos, k, best), Within(l, pos, k))
    decreases l
  {
    var start := pos + |l.junk|;
    if l.End? || start + HEADER > k {
      PrefixHasNoMagic(file, k, pos, start);
      RunEndsBefore(pass, file[..k], pos, start, best);
    } else {
      var next, larger := start + PageSize(l.page), Larger(l.page.granule, best);
      RunReadsFirst(pass, file, k, pos, l, best);
      if next <= k {
        RunReadsPages(pass, file, k, next, l.rest, larger);
      } else {
        NothingWithin(l.rest, next, k, larger);
      }
    }
  }

  // ----- concatenated pages are laid out -----

  /** The magic has no border, so it cannot start in junk and end in the page behind it. */
  lemma {:induction false} JunkHasNoMagic(file: seq<byte>, at: nat, junk: seq<byte>)
    requires Holds(file, at, junk) && NoMagic(junk)
    requires at + |junk| == |file| || MagicAt(file, at + |junk|)
    ensures NoMagicBetween(file, at, at + |junk|)
  {
    forall i | at <= i < at + |junk| ensures !MagicAt(file, i) {
      var k := i - at;
      MagicIsPattern(junk, k);
      assert !MagicAt(junk, k);
      assert file[at + k] == junk[k];
      if k + 1 < |junk| { assert file[at + (k + 1)] == junk[k + 1]; }
      if k + 2 < |junk| { assert file[at + (k + 2)] == junk[k + 2]; }
      if k + 3 < |junk| { assert file[at + (k + 3)] == junk[k + 3]; }
    }
  }

  lemma {:induction false} HoldsMiddle(a: seq<byte>, b: seq<byte>, c: seq<byte>)
    ensures Holds(a + b + c, |a|, b)
  {
    assert forall i :: 0 <= i < |b| ==> (a + b + c)[|a| + i] == b[i];
  }

  lemma {:induction false} Regroup(a: seq<byte>, b: seq<byte>, c: seq<byte>, d: seq<byte>)
    ensures a + (b + c + d) == a + b + (c + d) == (a + b) + c + d == (a + b + c) + d
  {
  }

  lemma {:induction false} ChunkIsLaidOut(file: seq<byte>, before: seq<byte>, junk: seq<byte>, page: Page, rest: seq<byte>)
    requires WellFormed(page) && NoMagic(junk)
    requires file == before + (junk + Encode(page) + rest)
    ensures NoMagicBetween(file, |before|, |before| + |junk|)
    ensures PageAt(file, |before| + |junk|, page)
  {
    var bytes := Encode(page);
    Regroup(before, junk, bytes, rest);
    HoldsMiddle(before, junk, bytes + rest);
    HoldsMiddle(before + junk, bytes, rest);
    PageFields(file, |before| + |junk|, page);
    JunkHasNoMagic(file, |before|, junk);
  }

  lemma {:induction false} StreamIsLaidOut(file: seq<byte>, before: seq<byte>, l: Layout)
    requires Readable(l) && file == before + Bytes(l)
    ensures LaidOut(file, |before|, l)
    decreases l
  {
    match l
    case End(junk) =>
      JunkHasNoMagic(file, |before|, junk);
    case Chunk(junk, page, rest) =>
      ChunkIsLaidOut(file, before, junk, page, Bytes(rest));
      Regroup(before, junk, Encode(page), Bytes(rest));
      StreamIsLaidOut(file, before + junk + Encode(page), rest);
  }

  /** The pages within are the first ones, all those whose header ends within. */
  lemma {:induction false} WithinIsPrefix(l: Layout, at: nat, k: nat)
    ensures Within(l, at, k) <= Offsets(l, at)
    ensures forall i :: 0 <= i < |Offsets(l, at)| ==> (i < |Within(l, at, k)| <==> Offsets(l, at)[i] + HEADER <= k)
  {
    if l.Chunk? {
      var start := at + |l.junk|;
      var next := start + PageSize(l.page);
      WithinIsPrefix(l.rest, next, k);
      if start + HEADER > k { OffsetsAscend(l.rest, next); }
    }
  }

  lemma {:induction false} OffsetsAscend(l: Layout, at: nat)
    ensures forall i :: 0 <= i < |Offsets(l, at)| ==> Offsets(l, at)[i] >= at
  {
    if l.Chunk? { OffsetsAscend(l.rest, at + |l.junk| + PageSize(l.page)); }
  }

  /** The largest granule position of the first n pages, or the start value when none is larger. */
  ghost predicate IsLargest(best: int, ps: seq<Page>, n: nat, start: int)
    requires n <= |ps|
  {
    && best >= start
    && (forall i :: 0 <= i < n ==> best >= ps[i].granule)
    && (best == start || exists i :: 0 <= i < n && best == ps[i].granule)
  }

  lemma {:induction false} MaxWithinIsLargest(l: Layout, at: nat, k: nat, best: int)
    ensures |Within(l, at, k)| <= |Pages(l)|
    ensures IsLargest(MaxWithin(l, at, k, best), Pages(l), |Within(l, at, k)|, best)
  {
    if l.Chunk? && at + |l.junk| + HEADER <= k {
      var next, larger := at + |l.junk| + PageSize(l.page), Larger(l.page.granule, best);
      MaxWithinIsLargest(l.rest, next, k, larger);
      LargestOfMore(MaxWithin(l.rest, next, k, larger), l.page, Pages(l.rest), |Within(l.rest, next, k)|, best);
    }
  }

  lemma {:induction false} LargestOfMore(best: int, p: Page, ps: seq<Page>, n: nat, start: int)
    requires n <= |ps| && IsLargest(best, ps, n, Larger(p.granule, start))
    ensures IsLargest(best, [p] + ps, n + 1, start)
  {
    var all := [p] + ps;
    forall i | 0 <= i < n + 1 ensures best >= all[i].granule { assert i > 0 ==> all[i] == ps[i-1]; }
    if best == p.granule { assert all[0].granule == best; }
    if i :| 0 <= i < n && best == ps[i].granule { assert all[i+1].granule == best; }
  }

  /**
   On any stream of well-formed pages, with magic-free bytes before, between and after them, and wherever the file
   breaks off: the scan visits exactly the pages whose header is there, each once and in order, and yields the
   maximum of zero and their signed granule positions.
   */
  lemma {:induction false} ScanReadsEveryPage(l: Layout, k: nat)
    requires Readable(l) && k <= |Bytes(l)|
    ensures var s, os := Scan(Bytes(l)[..k]), Offsets(l, 0);
            && s.visits <= os
            && (forall i :: 0 <= i < |os| ==> (i < |s.visits| <==> os[i] + 27 <= k))
            && IsLargest(s.best, Pages(l), |s.visits|, 0)
  {
    PassAtReadsPages();
    PassAtReadsCutPages();
    StreamIsLaidOut(Bytes(l), [], l);
    RunReadsPages(PassAt, Bytes(l), k, 0, l, 0);
    WithinIsPrefix(l, 0, k);
    MaxWithinIsLargest(l, 0, k, 0);
  }

  /** Every page of a stream lies within it, header and all. */
  lemma {:induction false} PagesFit(l: Layout, at: nat)
    requires Readable(l)
    ensures forall i :: 0 <= i < |Offsets(l, at)| ==> Offsets(l, at)[i] + HEADER <= at + |Bytes(l)|
  {
    if l.Chunk? {
      PagesFit(l.rest, at + |l.junk| + PageSize(l.page));
      assert |Bytes(l)| == |l.junk| + PageSize(l.page) + |Bytes(l.rest)|;
    }
  }

  /** In particular the scan of a whole stream visits all of its pages. */
  lemma {:induction false} WholeStreamIsRead(l: Layout)
    requires Readable(l)
    ensures Scan(Bytes(l)).visits == Offsets(l, 0) && IsLargest(Scan(Bytes(l)).best, Pages(l), |Pages(l)|, 0)
  {
    ScanReadsEveryPage(l, |Bytes(l)|);
    assert Bytes(l)[..|Bytes(l)|] == Bytes(l);
    PagesFit(l, 0);
    var os := Offsets(l, 0);
    if os != [] { assert os[|os|-1] + 27 <= |Bytes(l)|; }
  }
}
