/**
 Request-body storage: the memory and disk implementations of one cursor interface
 (common/body_storage.go) and the global counters they maintain (common/disk_cache_config.go).
 */
module BodyStorage {
  import opened Octets
  import opened Options
  import Runs

  const MAX_INT64 := 0x7FFF_FFFF_FFFF_FFFF

  // ----- the cursor interface -----

  datatype Failure = StorageClosed | InvalidSeek

  datatype Op =
    | Read(n: nat)                       // into a buffer of n bytes
    | Seek(offset: int, whence: int)
    | Bytes
    | Close

  datatype Result =
    | Chunk(bytes: seq<byte>)
    | EndOfFile
    | Position(pos: nat)
    | Whole(bytes: seq<byte>)
    | Failed(why: Failure)
    | Closed

  /** What a storage looks like from outside. */
  datatype Cursor = Cursor(data: seq<byte>, pos: nat, closed: bool)

  function Ahead(data: seq<byte>, pos: nat, n: nat): (r: seq<byte>) {
    if pos >= |data| then []
    else if |data| - pos < n then data[pos..] else data[pos..pos + n]
  }

  /** The offset a seek lands on, or None when it is refused; a seek past the end is allowed, past int64 it is not. */
  function SeekTarget(size: nat, pos: nat, offset: int, whence: int): Option<nat> {
    var base := match whence case 0 => 0 case 1 => pos case 2 => size case _ => -1;
    if base < 0 || !(0 <= base + offset <= MAX_INT64) then None else Some(base + offset)
  }

  /** One call as a caller observes it; `empty` is the answer to an empty read at the end of the data. */
  function Step(c: Cursor, op: Op, empty: Result): (Cursor, Result) {
    if op.Close? then (c.(closed := true), Closed)
    else if c.closed then (c, Failed(StorageClosed))
    else match op
      case Read(n) =>
        if c.pos >= |c.data| then (c, if n == 0 then empty else EndOfFile)
        else
          var chunk := Ahead(c.data, c.pos, n);
          (c.(pos := c.pos + |chunk|), Chunk(chunk))
      case Seek(offset, whence) =>
        var target := SeekTarget(|c.data|, c.pos, offset, whence);
        if target.None? then (c, Failed(InvalidSeek)) else (c.(pos := target.value), Position(target.value))
      case Bytes => (c, Whole(c.data))
  }

  function MemoryStep(c: Cursor, op: Op): (Cursor, Result) { Step(c, op, EndOfFile) }
  function DiskStep(c: Cursor, op: Op): (Cursor, Result) { Step(c, op, Chunk([])) }

  /** The bytes of a read are those at the cursor, as many as fit into the buffer and are left. */
  ghost predicate IsRead(c: Cursor, n: nat, after: Cursor, r: Result) {
    if c.pos >= |c.data| then after == c && (r == EndOfFile || (n == 0 && r == Chunk([])))
    else
      && r.Chunk? && |r.bytes| <= n && |r.bytes| <= |c.data| - c.pos && (|r.bytes| == n || |r.bytes| == |c.data| - c.pos)
      && (forall i :: 0 <= i < |r.bytes| ==> r.bytes[i] == c.data[c.pos + i])
      && after == Cursor(c.data, c.pos + |r.bytes|, c.closed)
  }

  /** A seek lands relative to the start, the cursor or the end, unless that is negative or beyond int64. */
  ghost predicate IsSeek(c: Cursor, offset: int, whence: int, after: Cursor, r: Result) {
    var target := offset + if whence == 1 then c.pos else if whence == 2 then |c.data| else 0;
    if 0 <= whence <= 2 && 0 <= target <= MAX_INT64
      then r == Position(target) && after == Cursor(c.data, target, c.closed)
      else r == Failed(InvalidSeek) && after == c
  }

  /** What a call of either storage may answer and leave behind. */
  ghost predicate Behaves(c: Cursor, op: Op, after: Cursor, r: Result) {
    if op.Close? then r == Closed && after == Cursor(c.data, c.pos, true)
    else if c.closed then r == Failed(StorageClosed) && after == c
    else match op
      case Read(n) => IsRead(c, n, after, r)
      case Seek(offset, whence) => IsSeek(c, offset, whence, after, r)
      case Bytes => r == Whole(c.data) && after == c
  }

  lemma {:induction false} StepsBehave(c: Cursor, op: Op)
    ensures Behaves(c, op, MemoryStep(c, op).0, MemoryStep(c, op).1)
    ensures Behaves(c, op, DiskStep(c, op).0, DiskStep(c, op).1)
  {
  }

  class MemoryStorage {
    const data: seq<byte>
    var offset: nat
    const size: nat
    var closed: bool

    ghost predicate Valid() reads this { size == |data| }

    ghost function View(): Cursor reads this { Cursor(data, offset, closed) }

    constructor (data: seq<byte>)
      ensures Valid() && View() == Cursor(data, 0, false)
    {
      this.data, offset, size, closed := data, 0, |data|, false;
    }

    method Call(op: Op) returns (r: Result)
      requires Valid()
      modifies this
      ensures Valid()
      ensures (View(), r) == MemoryStep(old(View()), op)
      ensures Behaves(old(View()), op, View(), r)
    {
      StepsBehave(View(), op);
      match op
      case Close =>
        if !closed { closed := true; }
        return Closed;
      case Read(n) =>
        if closed { return Failed(StorageClosed); }
        if offset >= |data| { return EndOfFile; }
        var chunk := Ahead(data, offset, n);
        offset := offset + |chunk|;
        return Chunk(chunk);
      case Seek(o, whence) =>
        if closed { return Failed(StorageClosed); }
        var target := SeekTarget(|data|, offset, o, whence);
        if target.None? { return Failed(InvalidSeek); }
        offset := target.value;
        return Position(offset);
      case Bytes =>
        if closed { return Failed(StorageClosed); }
        return Whole(data);
    }
  }

  /** An open temporary file. */
  datatype File = File(content: seq<byte>, pos: nat) {
    /** An empty buffer reads nothing, without reporting the end of the file. */
    function ReadAt(n: nat): (File, Result) {
      if n == 0 then (this, Chunk([]))
      else if pos >= |content| then (this, EndOfFile)
      else
        var chunk := Ahead(content, pos, n);
        (this.(pos := pos + |chunk|), Chunk(chunk))
    }

    function SeekBy(offset: int, whence: int): (File, Option<nat>) {
      var target := SeekTarget(|content|, pos, offset, whence);
      (if target.Some? then this.(pos := target.value) else this, target)
    }
  }

  class DiskStorage {
    var file: File
    const size: nat
    var closed: bool

    ghost predicate Valid() reads this { size == |file.content| && size <= MAX_INT64 && file.pos <= MAX_INT64 }

    ghost function View(): Cursor reads this { Cursor(file.content, file.pos, closed) }

    constructor (data: seq<byte>)
      requires |data| <= MAX_INT64
      ensures Valid() && View() == Cursor(data, 0, false)
    {
      file, size, closed := File(data, 0), |data|, false;
    }

    /** Reads the whole file from the start and puts the file position back. */
    method ReadWhole() returns (r: Result)
      requires Valid() && !closed
      modifies this
      ensures Valid() && View() == old(View())
      ensures r == Whole(file.content)
    {
      var saved := file.SeekBy(0, 1);
      if saved.1.None? { return Failed(InvalidSeek); }
      file := saved.0;
      var rewound := file.SeekBy(0, 0);
      file := rewound.0;
      var got: seq<byte> := [];
      while |got| < size
        invariant |got| <= size && file.pos == |got| && file.content == old(file.content)
        invariant got == file.content[..|got|]
        invariant closed == old(closed)
      {
        var part := file.ReadAt(size - |got|);
        assert part.1.Chunk? && part.1.bytes == file.content[|got|..size];
        got := got + part.1.bytes;
        file := part.0;
      }
      var restored := file.SeekBy(saved.1.value, 0);
      file := restored.0;
      return Whole(got);
    }

    method Call(op: Op) returns (r: Result)
      requires Valid()
      modifies this
      ensures Valid()
      ensures (View(), r) == DiskStep(old(View()), op)
      ensures Behaves(old(View()), op, View(), r)
    {
      StepsBehave(View(), op);
      match op
      case Close =>
        if !closed { closed := true; }
        r := Closed;
      case Read(n) =>
        if closed { return Failed(StorageClosed); }
        var done := file.ReadAt(n);
        file, r := done.0, done.1;
      case Seek(offset, whence) =>
        if closed { return Failed(StorageClosed); }
        var done := file.SeekBy(offset, whence);
        file := done.0;
        r := if done.1.None? then Failed(InvalidSeek) else Position(done.1.value);
      case Bytes =>
        if closed { return Failed(StorageClosed); }
        r := ReadWhole();
    }
  }

  /** An empty read of an open storage at or past the end. */
  predicate Telling(c: Cursor, op: Op) {
    op == Read(0) && !c.closed && c.pos >= |c.data|
  }

  /** The two disagree on one call only, and even then the cursors agree. */
  lemma StepsAgreeIff(c: Cursor, op: Op)
    ensures MemoryStep(c, op).1 == DiskStep(c, op).1 <==> !Telling(c, op)
    ensures MemoryStep(c, op).0 == DiskStep(c, op).0
    ensures Telling(c, op) ==> MemoryStep(c, op).1 == EndOfFile && DiskStep(c, op).1 == Chunk([])
  {
  }

  type Stepper = (Cursor, Op) -> (Cursor, Result)

  /** What a caller sees of a sequence of calls. */
  function Trace(step: Stepper, c: Cursor, ops: seq<Op>): seq<Result>
    decreases ops
  {
    if ops == [] then []
    else [step(c, ops[0]).1] + Trace(step, step(c, ops[0]).0, ops[1..])
  }

  function CursorAfter(step: Stepper, c: Cursor, ops: seq<Op>): Cursor
    decreases ops
  {
    if ops == [] then c else CursorAfter(step, step(c, ops[0]).0, ops[1..])
  }

  lemma {:induction false} TraceSnoc(step: Stepper, c: Cursor, ops: seq<Op>, op: Op)
    ensures CursorAfter(step, c, ops + [op]) == step(CursorAfter(step, c, ops), op).0
    ensures Trace(step, c, ops + [op]) == Trace(step, c, ops) + [step(CursorAfter(step, c, ops), op).1]
    decreases ops
  {
    if ops == [] {
      assert ops + [op] == [op];
    } else {
      assert (ops + [op])[1..] == ops[1..] + [op];
      TraceSnoc(step, step(c, ops[0]).0, ops[1..], op);
    }
  }

  /** Some call of the sequence is an empty read of the open storage at or past the end. */
  predicate TellsApart(c: Cursor, ops: seq<Op>)
    decreases ops
  {
    && ops != []
    && (Telling(c, ops[0]) || TellsApart(MemoryStep(c, ops[0]).0, ops[1..]))
  }

  /** A sequence of calls sees a difference between memory and disk only through such a read. */
  lemma {:induction false} TracesAgreeIff(c: Cursor, ops: seq<Op>)
    ensures Trace(MemoryStep, c, ops) == Trace(DiskStep, c, ops) <==> !TellsApart(c, ops)
    decreases ops
  {
    if ops != [] {
      var (c', rm) := MemoryStep(c, ops[0]);
      var rd := DiskStep(c, ops[0]).1;
      StepsAgreeIff(c, ops[0]);
      TracesAgreeIff(c', ops[1..]);
      var tm, td := Trace(MemoryStep, c', ops[1..]), Trace(DiskStep, c', ops[1..]);
      assert ([rm] + tm)[0] == rm && ([rd] + td)[0] == rd;
      assert ([rm] + tm)[1..] == tm && ([rd] + td)[1..] == td;
    }
  }

  /** In particular no sequence of calls without empty reads can tell them apart. */
  lemma {:induction false} NonEmptyReadsCannotTell(c: Cursor, ops: seq<Op>)
    requires Read(0) !in ops
    ensures Trace(MemoryStep, c, ops) == Trace(DiskStep, c, ops)
    decreases ops
  {
    NothingTells(c, ops);
    TracesAgreeIff(c, ops);
  }

  lemma {:induction false} NothingTells(c: Cursor, ops: seq<Op>)
    requires Read(0) !in ops
    ensures !TellsApart(c, ops)
    decreases ops
  {
    if ops != [] {
      assert ops[0] in ops;
      NothingTells(MemoryStep(c, ops[0]).0, ops[1..]);
    }
  }

  // ----- what a caller gets from a sequence of calls -----

  /** Every call behaves as one of a storage. */
  ghost predicate Conforms(step: Stepper) {
    forall c, op :: Behaves(c, op, step(c, op).0, step(c, op).1)
  }

  lemma {:induction false} BothConform()
    ensures Conforms(MemoryStep) && Conforms(DiskStep)
  {
    forall c, op ensures Behaves(c, op, MemoryStep(c, op).0, MemoryStep(c, op).1)
                 ensures Behaves(c, op, DiskStep(c, op).0, DiskStep(c, op).1)
    {
      StepsBehave(c, op);
    }
  }

  /** The chunks of a sequence of answers, put together. */
  function Gathered(rs: seq<Result>): seq<byte> {
    if rs == [] then [] else (if rs[0].Chunk? then rs[0].bytes else []) + Gathered(rs[1..])
  }

  predicate OnlyReads(ops: seq<Op>) {
    forall i :: 0 <= i < |ops| ==> ops[i].Read? && ops[i].n > 0
  }

  lemma {:induction false} OneRead(step: Stepper, c: Cursor, n: nat)
    requires Conforms(step) && n > 0 && !c.closed && c.pos <= |c.data|
    ensures var (next, r) := step(c, Read(n));
            && next.data == c.data && !next.closed && c.pos <= next.pos <= |c.data|
            && (c.pos == |c.data| ==> r == EndOfFile && next.pos == c.pos)
            && (c.pos < |c.data| ==> r == Chunk(c.data[c.pos..next.pos]) && next.pos > c.pos)
  {
    var (next, r) := step(c, Read(n));
    assert Behaves(c, Read(n), next, r);
    if c.pos < |c.data| { assert r.bytes == c.data[c.pos..next.pos]; }
  }

  lemma {:induction false} ReadsGather(step: Stepper, c: Cursor, ops: seq<Op>)
    requires Conforms(step) && OnlyReads(ops) && !c.closed && c.pos <= |c.data|
    ensures var after := CursorAfter(step, c, ops);
            && c.pos <= after.pos <= |c.data| && Gathered(Trace(step, c, ops)) == c.data[c.pos..after.pos]
    decreases ops
  {
    if ops != [] {
      var (next, r) := step(c, ops[0]);
      OneRead(step, c, ops[0].n);
      ReadsGather(step, next, ops[1..]);
      assert Trace(step, c, ops)[1..] == Trace(step, next, ops[1..]);
    }
  }

  lemma {:induction false} ReadsReachEnd(step: Stepper, c: Cursor, ops: seq<Op>)
    requires Conforms(step) && OnlyReads(ops) && !c.closed && c.pos <= |c.data|
    ensures EndOfFile in Trace(step, c, ops) ==> CursorAfter(step, c, ops).pos == |c.data|
    ensures |ops| > |c.data| - c.pos ==> EndOfFile in Trace(step, c, ops)
    decreases ops
  {
    if ops != [] {
      var (next, r) := step(c, ops[0]);
      OneRead(step, c, ops[0].n);
      ReadsReachEnd(step, next, ops[1..]);
      if c.pos == |c.data| { ReadsGather(step, c, ops); }
      assert Trace(step, c, ops) == [r] + Trace(step, next, ops[1..]);
    }
  }

  /**
   Reading to the end, with buffers of any sizes: the chunks put together are the bytes from the cursor on, none
   left out, repeated or out of order, and the end is reached after as many reads as there are bytes, and one.
   */
  lemma {:induction false} ReadsGatherRest(step: Stepper, c: Cursor, ops: seq<Op>)
    requires Conforms(step) && OnlyReads(ops) && !c.closed && c.pos <= |c.data|
    ensures EndOfFile in Trace(step, c, ops) ==> Gathered(Trace(step, c, ops)) == c.data[c.pos..]
    ensures |ops| > |c.data| - c.pos ==> EndOfFile in Trace(step, c, ops)
  {
    ReadsGather(step, c, ops);
    ReadsReachEnd(step, c, ops);
  }

  /** Once closed, a storage answers every other call with the same failure, whatever the calls. */
  lemma {:induction false} ClosedForGood(step: Stepper, c: Cursor, ops: seq<Op>, i: nat)
    requires Conforms(step) && c.closed && i < |ops|
    ensures |Trace(step, c, ops)| == |ops|
    ensures Trace(step, c, ops)[i] == if ops[i].Close? then Closed else Failed(StorageClosed)
    decreases ops
  {
    var next := step(c, ops[0]).0;
    assert Behaves(c, ops[0], next, step(c, ops[0]).1);
    if |ops| > 1 { ClosedForGood(step, next, ops[1..], if i == 0 then 0 else i - 1); }
  }

  /** Both storages of one body, driven by the same calls, answer as their specifications say. */
  method RunBoth(data: seq<byte>, ops: seq<Op>) returns (memory: seq<Result>, disk: seq<Result>)
    requires |data| <= MAX_INT64
    ensures memory == Trace(MemoryStep, Cursor(data, 0, false), ops)
    ensures disk == Trace(DiskStep, Cursor(data, 0, false), ops)
    ensures memory == disk <==> !TellsApart(Cursor(data, 0, false), ops)
    ensures OnlyReads(ops) && |ops| > |data| ==> Gathered(memory) == data && Gathered(disk) == data
  {
    var m := new MemoryStorage(data);
    var d := new DiskStorage(data);
    ghost var start := Cursor(data, 0, false);
    memory, disk := [], [];
    for i := 0 to |ops|
      invariant m.Valid() && m.View() == CursorAfter(MemoryStep, start, ops[..i])
      invariant d.Valid() && d.View() == CursorAfter(DiskStep, start, ops[..i])
      invariant memory == Trace(MemoryStep, start, ops[..i]) && disk == Trace(DiskStep, start, ops[..i])
    {
      TraceSnoc(MemoryStep, start, ops[..i], ops[i]);
      TraceSnoc(DiskStep, start, ops[..i], ops[i]);
      assert ops[..i+1] == ops[..i] + [ops[i]];
      var rm := m.Call(ops[i]);
      var rd := d.Call(ops[i]);
      memory, disk := memory + [rm], disk + [rd];
    }
    assert ops[..|ops|] == ops;
    TracesAgreeIff(start, ops);
    BothConform();
    if OnlyReads(ops) {
      ReadsGatherRest(MemoryStep, start, ops);
      ReadsGatherRest(DiskStep, start, ops);
      assert data[0..] == data;
    }
  }

  // ----- creation, closing and the global counters -----

  /** Go's wrap-around on int64. */
  function Wrap(n: int): int {
    (n + 0x8000_0000_0000_0000) % 0x1_0000_0000_0000_0000 - 0x8000_0000_0000_0000
  }

  lemma {:induction false} WrapIsInt64(n: int)
    ensures -0x8000_0000_0000_0000 <= Wrap(n) <= MAX_INT64 && (n - Wrap(n)) % 0x1_0000_0000_0000_0000 == 0
  {
  }

  /** `io.LimitReader(reader, limit)` read to its end. */
  function Limited(stream: seq<byte>, limit: int): seq<byte> {
    if limit <= 0 then [] else if |stream| <= limit then stream else stream[..limit]
  }

  /** A request body as it is read; one that is broken fails after its bytes instead of ending. */
  datatype Reader = Reader(bytes: seq<byte>, broken: bool)

  /** Reading up to one byte more than the limit meets the failure. */
  predicate BreaksOff(r: Reader, maxBytes: int) {
    r.broken && |r.bytes| < Wrap(maxBytes + 1)
  }

  /** `io.LimitReader` read to its end or to a failure. */
  method ReadLimited(body: Reader, maxBytes: int) returns (data: Option<seq<byte>>)
    ensures data == if BreaksOff(body, maxBytes) then None else Some(Limited(body.bytes, Wrap(maxBytes + 1)))
  {
    var limit := Wrap(maxBytes + 1);
    if limit <= 0 {
      data := Some([]);
    } else if limit < |body.bytes| {
      data := Some(body.bytes[..limit]);
    } else if limit == |body.bytes| {
      data := Some(body.bytes);
    } else {
      data := if body.broken then None else Some(body.bytes);
    }
  }

  /** What both creation paths keep of a request body, or None when they report it too large. */
  function Kept(stream: seq<byte>, maxBytes: int): Option<seq<byte>> {
    var data := Limited(stream, Wrap(maxBytes + 1));
    if |data| > maxBytes then None else Some(data)
  }

  /** A body is accepted, and then kept whole, exactly when it has at most `maxBytes` bytes. */
  lemma {:induction false} KeptExactlyWithinLimit(stream: seq<byte>, maxBytes: int)
    requires -0x8000_0000_0000_0000 <= maxBytes < MAX_INT64
    ensures Kept(stream, maxBytes) == if |stream| <= maxBytes then Some(stream) else None
  {
    assert Wrap(maxBytes + 1) == maxBytes + 1;
  }

  datatype Stored = Stored(data: seq<byte>, disk: bool, open: bool)

  /** The pair of counters kept for one kind of storage. */
  datatype Usage = Usage(count: int, bytes: int)

  /** Number and total size of the open storages of one kind. */
  function Tally(ss: seq<Stored>, disk: bool): (u: Usage)
    ensures u.count >= 0 && u.bytes >= 0
  {
    if ss == [] then Usage(0, 0) else Weigh(Tally(ss[..|ss|-1], disk), ss[|ss|-1], disk)
  }

  function AtLeastZero(n: int): int { if n < 0 then 0 else n }

  function Weigh(u: Usage, s: Stored, disk: bool): Usage {
    if s.open && s.disk == disk then Usage(u.count + 1, u.bytes + |s.data|) else u
  }

  lemma {:induction false} TallySnoc(ss: seq<Stored>, s: Stored, disk: bool)
    ensures Tally(ss + [s], disk) == Weigh(Tally(ss, disk), s, disk)
  {
    assert (ss + [s])[..|ss|] == ss;
  }

  lemma {:induction false} TallyClose(ss: seq<Stored>, i: nat, disk: bool)
    requires i < |ss| && ss[i].open
    ensures Tally(ss, disk) == Weigh(Tally(ss[i := ss[i].(open := false)], disk), ss[i], disk)
  {
    var n := |ss| - 1;
    var after := ss[i := ss[i].(open := false)];
    if i < n {
      TallyClose(ss[..n], i, disk);
      assert after[..n] == ss[..n][i := ss[i].(open := false)];
    } else {
      assert after[..n] == ss[..n];
    }
  }

  // ----- where a body is stored -----

  datatype Config = Config(enabled: bool, threshold: int, budget: int)

  /** How the disk behaves during one creation. */
  datatype Disk = Works | NoFile | Full(room: nat) | NoSeek

  predicate FailsWriting(disk: Disk, size: nat) {
    disk.NoFile? || (disk.Full? && size > disk.room)
  }

  predicate Fails(disk: Disk, size: nat) {
    FailsWriting(disk, size) || disk.NoSeek?
  }

  /** `IsDiskCacheAvailable`; the sum wraps around as int64 does. */
  predicate Available(cfg: Config, used: int, request: int) {
    cfg.enabled && Wrap(used + request) <= cfg.budget
  }

  /** The body goes to disk on the strength of its declared length. */
  predicate StreamsToDisk(cfg: Config, used: int, declared: int) {
    declared > 0 && declared >= cfg.threshold && Available(cfg, used, declared)
  }

  /** A body already in memory goes to disk. */
  predicate MovesToDisk(cfg: Config, used: int, size: nat) {
    size >= cfg.threshold && Available(cfg, used, size)
  }

  /** `CreateBodyStorage`: falls back to memory when the disk fails. */
  function FromBytes(cfg: Config, used: int, data: seq<byte>, disk: Disk): Stored {
    Stored(data, MovesToDisk(cfg, used, |data|) && !Fails(disk, |data|), true)
  }

  datatype Outcome = Keeps(stored: Stored) | TooLarge | ReadFailed | DiskFailed

  /** `CreateBodyStorageFromReader`. */
  function FromReader(cfg: Config, used: int, body: Reader, declared: int, limit: int, disk: Disk): Outcome {
    var data := Limited(body.bytes, Wrap(limit + 1));
    var streams := StreamsToDisk(cfg, used, declared);
    if streams && FailsWriting(disk, |data|) then DiskFailed
    else if BreaksOff(body, limit) then ReadFailed
    else if |data| > limit then TooLarge
    else if !streams then Keeps(FromBytes(cfg, used, data, disk))
    else if disk.NoSeek? then DiskFailed
    else Keeps(Stored(data, true, true))
  }

  /** The declared length lets a body in, before it is read. */
  ghost predicate LetInDeclared(cfg: Config, used: int, declared: int) {
    cfg.enabled && declared > 0 && declared >= cfg.threshold && Wrap(used + declared) <= cfg.budget
  }

  /** The length of a body that was read lets it in. */
  ghost predicate LetInRead(cfg: Config, used: int, size: nat) {
    cfg.enabled && size >= cfg.threshold && Wrap(used + size) <= cfg.budget
  }

  /** The disk takes the given number of bytes. */
  ghost predicate Takes(disk: Disk, size: nat) {
    disk == Works || disk == NoSeek || (disk.Full? && size <= disk.room)
  }

  /** `CreateBodyStorage` keeps the bytes as they are, on disk exactly when they are let in and the disk takes them. */
  lemma {:induction false} BufferMeans(cfg: Config, used: int, data: seq<byte>, disk: Disk)
    ensures FromBytes(cfg, used, data, disk)
         == Stored(data, LetInRead(cfg, used, |data|) && Takes(disk, |data|) && disk != NoSeek, true)
  {
  }

  /**
   The outcome for every reader, limit below the largest, and disk.  The disk failing counts only for a body let in
   by its declared length; a broken reader counts only within the limit; whatever is kept is the whole body.
   */
  lemma {:induction false} OutcomeMeans(cfg: Config, used: int, body: Reader, declared: int, limit: int, disk: Disk)
    requires -0x8000_0000_0000_0000 <= limit < MAX_INT64
    ensures var r, size := FromReader(cfg, used, body, declared, limit, disk), |body.bytes|;
            var streams := LetInDeclared(cfg, used, declared);
            var taken := if size <= limit then size else if limit < 0 then 0 else limit + 1;
            var breaks := streams && !Takes(disk, taken);
            && (r.TooLarge? <==> size > limit && !breaks)
            && (r.ReadFailed? <==> size <= limit && body.broken && !breaks)
            && (r.DiskFailed? <==> breaks || (streams && size <= limit && !body.broken && disk == NoSeek))
            && (r.Keeps? ==> r.stored.data == body.bytes && r.stored.open)
            && (r.Keeps? ==> (r.stored.disk <==> streams || (LetInRead(cfg, used, size) && Takes(disk, size) && disk != NoSeek)))
  {
    KeptExactlyWithinLimit(body.bytes, limit);
    assert Wrap(limit + 1) == limit + 1;
  }

  /**
   At the largest limit the successor wraps around: every body, broken or not, is silently kept as an empty one,
   unless it is let in by its declared length and the disk cannot even hold that.
   */
  lemma {:induction false} LargestLimitKeepsNothing(cfg: Config, used: int, body: Reader, declared: int, disk: Disk)
    ensures var streams, fails := LetInDeclared(cfg, used, declared), disk == NoFile || disk == NoSeek;
            FromReader(cfg, used, body, declared, MAX_INT64, disk) ==
              if streams && fails then DiskFailed
              else Keeps(Stored([], streams || (LetInRead(cfg, used, 0) && !fails), true))
  {
    assert Wrap(MAX_INT64 + 1) == -0x8000_0000_0000_0000;
  }

  /** On a disk that works a whole body is accepted exactly within the limit and kept as it is, on either path. */
  lemma {:induction false} AcceptsExactlyWithinLimit(cfg: Config, used: int, bytes: seq<byte>, declared: int, limit: int)
    requires -0x8000_0000_0000_0000 <= limit < MAX_INT64
    ensures var r := FromReader(cfg, used, Reader(bytes, false), declared, limit, Works);
            && (r.Keeps? <==> |bytes| <= limit) && (!r.Keeps? ==> r.TooLarge?)
            && (r.Keeps? ==>
                  r.stored == Stored(bytes, LetInDeclared(cfg, used, declared) || LetInRead(cfg, used, |bytes|), true))
  {
    KeptExactlyWithinLimit(bytes, limit);
  }

  /** Whatever fails, what is kept is what both paths keep of the body. */
  lemma {:induction false} KeepsWhatIsKept(cfg: Config, used: int, body: Reader, declared: int, limit: int, disk: Disk)
    ensures var r := FromReader(cfg, used, body, declared, limit, disk);
            r.Keeps? ==> !BreaksOff(body, limit) && Kept(body.bytes, limit) == Some(r.stored.data) && r.stored.open
  {
  }

  // ----- runs of creations and closings -----

  datatype Event =
    | Buffer(data: seq<byte>, disk: Disk)
    | Receive(body: Reader, declared: int, limit: int, disk: Disk)
    | Shut(index: nat)

  function Used(ss: seq<Stored>): int { Tally(ss, true).bytes }

  function Next(cfg: Config, ss: seq<Stored>, e: Event): seq<Stored> {
    match e
    case Buffer(data, disk) => ss + [FromBytes(cfg, Used(ss), data, disk)]
    case Receive(body, declared, limit, disk) =>
      var r := FromReader(cfg, Used(ss), body, declared, limit, disk);
      if r.Keeps? then ss + [r.stored] else ss
    case Shut(i) => if i < |ss| then ss[i := ss[i].(open := false)] else ss
  }

  function NextIn(cfg: Config): (seq<Stored>, Event) -> seq<Stored> {
    (ss, e) => Next(cfg, ss, e)
  }

  function After(cfg: Config, ss: seq<Stored>, events: seq<Event>): seq<Stored> {
    Runs.Fold(NextIn(cfg), ss, events)
  }

  /** An event touches nothing but the storage it adds or closes; closing keeps the storage's data and kind. */
  lemma {:induction false} EventMeans(cfg: Config, ss: seq<Stored>, e: Event)
    ensures var next := Next(cfg, ss, e);
            match e
            case Buffer(data, disk) =>
              next == ss + [Stored(data, LetInRead(cfg, Used(ss), |data|) && Takes(disk, |data|) && disk != NoSeek, true)]
            case Receive(body, declared, limit, disk) =>
              var r := FromReader(cfg, Used(ss), body, declared, limit, disk);
              next == if r.Keeps? then ss + [Stored(r.stored.data, r.stored.disk, true)] else ss
            case Shut(i) =>
              && |next| == |ss|
              && (forall j :: 0 <= j < |ss| && j != i ==> next[j] == ss[j])
              && (i < |ss| ==> next[i] == Stored(ss[i].data, ss[i].disk, false))
  {
    match e
    case Buffer(data, disk) => BufferMeans(cfg, Used(ss), data, disk);
    case Receive(body, declared, limit, disk) => KeepsWhatIsKept(cfg, Used(ss), body, declared, limit, disk);
    case Shut(_) =>
  }

  /** The open storages of one kind. */
  function Open(ss: seq<Stored>, n: nat, disk: bool): set<int>
    requires n <= |ss|
  {
    set i | 0 <= i < n && ss[i].open && ss[i].disk == disk
  }

  /** The count kept for a kind is the number of its open storages. */
  lemma {:induction false} TallyIsCount(ss: seq<Stored>, n: nat, disk: bool)
    requires n <= |ss|
    ensures Tally(ss[..n], disk).count == |Open(ss, n, disk)|
  {
    if n > 0 {
      TallyIsCount(ss, n - 1, disk);
      assert ss[..n] == ss[..n-1] + [ss[n-1]];
      TallySnoc(ss[..n-1], ss[n-1], disk);
      OpenSnoc(ss, n - 1, disk);
    }
  }

  lemma {:induction false} OpenSnoc(ss: seq<Stored>, n: nat, disk: bool)
    requires n < |ss|
    ensures |Open(ss, n + 1, disk)| == |Open(ss, n, disk)| + if ss[n].open && ss[n].disk == disk then 1 else 0
  {
    var before, after := Open(ss, n, disk), Open(ss, n + 1, disk);
    if ss[n].open && ss[n].disk == disk {
      assert after == before + {n};
    } else {
      assert after == before;
    }
  }

  predicate Within(cfg: Config, ss: seq<Stored>) { Used(ss) <= cfg.budget }

  /**
   The event puts a body on disk that does not fit: nothing fails, the body is complete and within its limit,
   it is larger than what is left of the budget, and one of the two gates lets it through.
   */
  predicate Overruns(cfg: Config, used: int, e: Event) {
    match e
    case Buffer(data, disk) =>
      !Fails(disk, |data|) && used + |data| > cfg.budget && MovesToDisk(cfg, used, |data|)
    case Receive(body, declared, limit, disk) =>
      && !BreaksOff(body, limit) && Kept(body.bytes, limit).Some?
      && var size := |Kept(body.bytes, limit).value|;
         && !Fails(disk, size) && used + size > cfg.budget
         && (StreamsToDisk(cfg, used, declared) || MovesToDisk(cfg, used, size))
    case Shut(_) => false
  }

  /** Closing never adds to the usage. */
  lemma {:induction false} ClosingFrees(ss: seq<Stored>, i: nat)
    requires i < |ss|
    ensures Used(ss[i := ss[i].(open := false)]) <= Used(ss)
  {
    if ss[i].open {
      TallyClose(ss, i, true);
    } else {
      assert ss[i := ss[i].(open := false)] == ss;
    }
  }

  /** The body ends up on disk. */
  predicate LandsOnDisk(r: Outcome) { r.Keeps? && r.stored.disk }

  /** A received body lands on disk exactly when it is complete, within its limit, let in, and nothing fails. */
  lemma {:induction false} LandsOnDiskIff(cfg: Config, used: int, body: Reader, declared: int, limit: int, disk: Disk)
    ensures var r := FromReader(cfg, used, body, declared, limit, disk);
            LandsOnDisk(r) <==>
              && !BreaksOff(body, limit) && Kept(body.bytes, limit).Some?
              && var size := |Kept(body.bytes, limit).value|;
                 !Fails(disk, size) && (StreamsToDisk(cfg, used, declared) || MovesToDisk(cfg, used, size))
  {
  }

  lemma {:induction false} ReceivingUses(cfg: Config, ss: seq<Stored>, body: Reader, declared: int, limit: int, disk: Disk)
    ensures var r := FromReader(cfg, Used(ss), body, declared, limit, disk);
            Used(Next(cfg, ss, Receive(body, declared, limit, disk)))
            == Used(ss) + if LandsOnDisk(r) then |r.stored.data| else 0
  {
    var r := FromReader(cfg, Used(ss), body, declared, limit, disk);
    if r.Keeps? {
      KeepsWhatIsKept(cfg, Used(ss), body, declared, limit, disk);
      TallySnoc(ss, r.stored, true);
    }
  }

  /** One event leaves the disk usage within the budget if and only if it does not overrun it. */
  lemma {:induction false} StaysWithinIff(cfg: Config, ss: seq<Stored>, e: Event)
    requires Within(cfg, ss)
    ensures Within(cfg, Next(cfg, ss, e)) <==> !Overruns(cfg, Used(ss), e)
  {
    match e
    case Buffer(data, disk) => TallySnoc(ss, FromBytes(cfg, Used(ss), data, disk), true);
    case Receive(body, declared, limit, disk) =>
      KeepsWhatIsKept(cfg, Used(ss), body, declared, limit, disk);
      LandsOnDiskIff(cfg, Used(ss), body, declared, limit, disk);
      ReceivingUses(cfg, ss, body, declared, limit, disk);
    case Shut(i) => if i < |ss| { ClosingFrees(ss, i); }
  }

  /** The usage is within the budget before the run and after every event of it. */
  predicate AlwaysWithin(cfg: Config, ss: seq<Stored>, events: seq<Event>)
    decreases events
  {
    Within(cfg, ss) && (events != [] ==> AlwaysWithin(cfg, Next(cfg, ss, events[0]), events[1..]))
  }

  predicate OverrunsOnTheWay(cfg: Config, ss: seq<Stored>, events: seq<Event>)
    decreases events
  {
    && events != []
    && (Overruns(cfg, Used(ss), events[0]) || OverrunsOnTheWay(cfg, Next(cfg, ss, events[0]), events[1..]))
  }

  /** Over any run of creations and closings the budget is kept throughout if and only if no event overruns it. */
  lemma {:induction false} BudgetKeptIff(cfg: Config, ss: seq<Stored>, events: seq<Event>)
    requires Within(cfg, ss)
    ensures AlwaysWithin(cfg, ss, events) <==> !OverrunsOnTheWay(cfg, ss, events)
    decreases events
  {
    if events != [] {
      StaysWithinIff(cfg, ss, events[0]);
      if Within(cfg, Next(cfg, ss, events[0])) { BudgetKeptIff(cfg, Next(cfg, ss, events[0]), events[1..]); }
    }
  }

  /** No body is longer than it declares, and none so long that a sum could wrap around. */
  predicate Honest(cfg: Config, e: Event) {
    match e
    case Buffer(data, _) => cfg.budget + |data| <= MAX_INT64
    case Receive(body, declared, _, _) => |body.bytes| <= declared && cfg.budget + declared <= MAX_INT64
    case Shut(_) => true
  }

  lemma {:induction false} HonestFits(cfg: Config, ss: seq<Stored>, e: Event)
    requires Within(cfg, ss) && Honest(cfg, e)
    ensures !Overruns(cfg, Used(ss), e)
  {
    var used := Used(ss);
    match e
    case Buffer(data, _) => assert Wrap(used + |data|) == used + |data|;
    case Receive(body, declared, limit, _) =>
      assert Wrap(used + declared) == used + declared;
      if Kept(body.bytes, limit).Some? {
        var size := |Kept(body.bytes, limit).value|;
        assert size <= declared && Wrap(used + size) == used + size;
      }
    case Shut(_) =>
  }

  /** Hence honest creations, with closings anywhere in between, never take the disk usage over the maximum. */
  lemma {:induction false} HonestRunKeepsBudget(cfg: Config, ss: seq<Stored>, events: seq<Event>)
    requires Within(cfg, ss) && forall i :: 0 <= i < |events| ==> Honest(cfg, events[i])
    ensures AlwaysWithin(cfg, ss, events)
    decreases events
  {
    if events != [] {
      HonestFits(cfg, ss, events[0]);
      StaysWithinIff(cfg, ss, events[0]);
      HonestRunKeepsBudget(cfg, Next(cfg, ss, events[0]), events[1..]);
    }
  }

  // ----- the global counters -----

  /** Create the file, copy the limited body into it, check its size and go back to its start. */
  method WriteToDisk(ghost cfg: Config, ghost used: int, body: Reader, ghost declared: int, limit: int, disk: Disk)
      returns (r: Outcome)
    requires StreamsToDisk(cfg, used, declared)
    ensures r == FromReader(cfg, used, body, declared, limit, disk)
    ensures r.Keeps? ==> r.stored == Stored(r.stored.data, true, true)
  {
    if disk.NoFile? { return DiskFailed; }
    var written := ReadLimited(body, limit);
    if disk.Full? && |Limited(body.bytes, Wrap(limit + 1))| > disk.room { return DiskFailed; }
    if written.None? { return ReadFailed; }
    if |written.value| > limit { return TooLarge; }
    if disk.NoSeek? { return DiskFailed; }
    return Keeps(Stored(written.value, true, true));
  }

  class BodyCache {
    const config: Config
    var storages: seq<Stored>
    var onDisk: Usage
    var inMemory: Usage

    /** The counters are exactly the number and total size of the open storages. */
    ghost predicate Valid() reads this {
      onDisk == Tally(storages, true) && inMemory == Tally(storages, false)
    }

    constructor (config: Config)
      ensures Valid() && storages == [] && this.config == config
    {
      this.config := config;
      storages, onDisk, inMemory := [], Usage(0, 0), Usage(0, 0);
    }

    method Store(data: seq<byte>, disk: bool) returns (s: Stored)
      requires Valid()
      modifies this
      ensures Valid() && s == Stored(data, disk, true)
      ensures storages == old(storages) + [s]
      ensures onDisk == if disk then Usage(old(onDisk).count + 1, old(onDisk).bytes + |data|) else old(onDisk)
      ensures inMemory == if disk then old(inMemory) else Usage(old(inMemory).count + 1, old(inMemory).bytes + |data|)
    {
      s := Stored(data, disk, true);
      TallySnoc(storages, s, true);
      TallySnoc(storages, s, false);
      storages := storages + [s];
      if disk {
        onDisk := Usage(onDisk.count + 1, onDisk.bytes + |data|);
      } else {
        inMemory := Usage(inMemory.count + 1, inMemory.bytes + |data|);
      }
    }

    /** `Close` of either kind; the clamps at zero never bite, and closing again changes nothing. */
    method CloseStorage(index: nat)
      requires Valid() && index < |storages|
      modifies this
      ensures Valid()
      ensures storages == old(storages)[index := old(storages)[index].(open := false)]
      ensures onDisk.bytes <= old(onDisk.bytes) && inMemory.bytes <= old(inMemory.bytes)
      ensures var s := old(storages)[index];
              && onDisk == (if s.open && s.disk then Usage(old(onDisk).count - 1, old(onDisk).bytes - |s.data|) else old(onDisk))
              && inMemory == (if s.open && !s.disk then Usage(old(inMemory).count - 1, old(inMemory).bytes - |s.data|) else old(inMemory))
      ensures !old(storages)[index].open ==>
                storages == old(storages) && onDisk == old(onDisk) && inMemory == old(inMemory)
    {
      var s := storages[index];
      if s.open {
        TallyClose(storages, index, true);
        TallyClose(storages, index, false);
        storages := storages[index := s.(open := false)];
        if s.disk {
          onDisk := Usage(AtLeastZero(onDisk.count - 1), AtLeastZero(onDisk.bytes - |s.data|));
        } else {
          inMemory := Usage(inMemory.count - 1, inMemory.bytes - |s.data|);
        }
      }
    }

    /** `newDiskStorage`: None when the disk fails. */
    method StoreOnDisk(data: seq<byte>, disk: Disk) returns (s: Option<Stored>)
      requires Valid()
      modifies this
      ensures Valid() && s == if Fails(disk, |data|) then None else Some(Stored(data, true, true))
      ensures storages == old(storages) + if s.None? then [] else [s.value]
    {
      s := None;
      if disk.NoFile? { return; }
      if disk.Full? && |data| > disk.room { return; }
      if disk.NoSeek? { return; }
      var stored := Store(data, true);
      return Some(stored);
    }

    /** `CreateBodyStorage`. */
    method Create(data: seq<byte>, disk: Disk) returns (s: Stored)
      requires Valid()
      modifies this
      ensures Valid() && s == FromBytes(config, old(onDisk.bytes), data, disk)
      ensures storages == old(storages) + [s]
    {
      if config.enabled && |data| >= config.threshold && Available(config, onDisk.bytes, |data|) {
        var stored := StoreOnDisk(data, disk);
        if stored.Some? { return stored.value; }
      }
      s := Store(data, false);
    }

    /** `newDiskStorageFromReader`: nothing is left behind on a failure. */
    method StreamToDisk(ghost used: int, body: Reader, ghost declared: int, limit: int, disk: Disk) returns (r: Outcome)
      requires Valid() && StreamsToDisk(config, used, declared)
      modifies this
      ensures Valid() && r == FromReader(config, used, body, declared, limit, disk)
      ensures storages == old(storages) + if r.Keeps? then [r.stored] else []
    {
      r := WriteToDisk(config, used, body, declared, limit, disk);
      if r.Keeps? { var _ := Store(r.stored.data, true); }
    }

    /** `CreateBodyStorageFromReader`. */
    method CreateFromReader(body: Reader, declared: int, limit: int, disk: Disk) returns (r: Outcome)
      requires Valid()
      modifies this
      ensures Valid() && r == FromReader(config, old(onDisk.bytes), body, declared, limit, disk)
      ensures storages == old(storages) + if r.Keeps? then [r.stored] else []
    {
      if config.enabled && declared > 0 && declared >= config.threshold && Available(config, onDisk.bytes, declared) {
        r := StreamToDisk(onDisk.bytes, body, declared, limit, disk);
        return;
      }
      var data := ReadLimited(body, limit);
      if data.None? { return ReadFailed; }
      if |data.value| > limit { return TooLarge; }
      var stored := Create(data.value, disk);
      return Keeps(stored);
    }

    method Handle(e: Event)
      requires Valid()
      modifies this
      ensures Valid() && storages == Next(config, old(storages), e)
    {
      match e
      case Buffer(data, disk) => var _ := Create(data, disk);
      case Receive(body, declared, limit, disk) => var _ := CreateFromReader(body, declared, limit, disk);
      case Shut(i) => if i < |storages| { CloseStorage(i); }
    }

    /**
     Over any run of creations and closings the counters are the number and total size of the open storages,
     and the disk usage ends within the budget if no event overran it.
     */
    method Drive(events: seq<Event>)
      requires Valid()
      modifies this
      ensures Valid() && storages == After(config, old(storages), events)
      ensures AlwaysWithin(config, old(storages), events) ==> onDisk.bytes <= config.budget
      decreases events
    {
      if events != [] {
        Handle(events[0]);
        Drive(events[1..]);
      }
    }
  }

  /** The gate trusts the declared length: any body over the budget gets in by declaring a single byte. */
  method UnderdeclaredBodyOverruns(budget: nat, stream: seq<byte>) returns (c: BodyCache)
    requires 1 <= budget < |stream| < MAX_INT64
    ensures c.config.budget == budget && c.onDisk.bytes == |stream| > c.config.budget
  {
    c := new BodyCache(Config(true, 1, budget));
    assert Wrap(1) == 1;
    AcceptsExactlyWithinLimit(c.config, 0, stream, 1, |stream|);
    var r := c.CreateFromReader(Reader(stream, false), 1, |stream|, Works);
    TallySnoc([], r.stored, true);
  }

  /**
   The sum in the gate wraps around: beside any body on disk, a second one gets in whatever the budget by
   declaring the largest length, although it is no longer than it declares.
   */
  method HugeDeclaredLengthOverruns(budget: nat, first: seq<byte>, second: seq<byte>) returns (c: BodyCache)
    requires 1 <= |first| <= budget < |first| + |second| && |second| < MAX_INT64 && |first| <= MAX_INT64
    ensures c.config.budget == budget && c.onDisk.bytes == |first| + |second| > c.config.budget
  {
    c := new BodyCache(Config(true, 1, budget));
    assert Wrap(|first|) == |first|;
    var s := c.Create(first, Works);
    TallySnoc([], s, true);
    assert c.storages == [] + [s] && c.onDisk.bytes == |first|;
    assert Wrap(|first| + MAX_INT64) < 0;
    AcceptsExactlyWithinLimit(c.config, |first|, second, MAX_INT64, |second|);
    var r := c.CreateFromReader(Reader(second, false), MAX_INT64, |second|, Works);
    TallySnoc([] + [s], r.stored, true);
  }
}
