/**
 The draw behind the weighted selector: `randomBigIntBelow` (model/channel_cache.go), which masks random bytes to
 the bit length of the limit and rejects values that are not below it.
 */
module Sampling {
  import opened Octets
  import opened Options

  const MAX_REJECTIONS := 128
  const MAX_NO_PROGRESS := 8

  // ----- quotients and remainders -----

  lemma {:induction false} Scale(a: nat, b: nat, d: nat)
    requires a <= b
    ensures a * d <= b * d
  {
    assert b * d == a * d + (b - a) * d;
  }

  lemma {:induction false} Regroup(a: nat, b: nat, c: nat)
    ensures a * (b * c) == (a * b) * c == b * (a * c)
  {
  }

  lemma {:induction false} Parts(n: nat, d: nat)
    requires d > 0
    ensures n == n / d * d + n % d && n % d <= n
  {
  }

  /** Quotient and remainder are determined by the number. */
  lemma {:induction false} Remainder(q: nat, d: nat, r: nat)
    requires r < d
    ensures (q * d + r) / d == q && (q * d + r) % d == r
  {
    var n := q * d + r;
    var p := n / d;
    Parts(n, d);
    assert (p + 1) * d == p * d + d && (q + 1) * d == q * d + d;
    if p < q { Scale(p + 1, q, d); }
    if p > q { Scale(q + 1, p, d); }
  }

  // ----- bits and bytes -----

  function Pow2(k: nat): (p: nat)
    ensures p > 0
  {
    if k == 0 then 1 else 2 * Pow2(k - 1)
  }

  lemma {:induction false} Pow2Adds(a: nat, b: nat)
    ensures Pow2(a + b) == Pow2(a) * Pow2(b)
  {
    if a > 0 {
      Pow2Adds(a - 1, b);
      Regroup(2, Pow2(a - 1), Pow2(b));
    }
  }

  /** `big.Int.BitLen`. */
  function BitLength(n: nat): nat {
    if n == 0 then 0 else 1 + BitLength(n / 2)
  }

  /** The bit length is the least number of bits that hold the value. */
  lemma {:induction false} BitLengthIsLeast(n: nat)
    ensures n < Pow2(BitLength(n))
    ensures n > 0 ==> BitLength(n) > 0 && Pow2(BitLength(n) - 1) <= n
  {
    if n > 1 { BitLengthIsLeast(n / 2); }
  }

  function ByteLength(limit: nat): nat { (BitLength(limit) + 7) / 8 }

  function ExcessBits(limit: nat): (e: nat)
    ensures e < 8 && e + BitLength(limit) == 8 * ByteLength(limit)
  {
    ByteLength(limit) * 8 - BitLength(limit)
  }

  /** `big.Int.SetBytes`: most significant byte first. */
  function Value(bs: seq<byte>): nat {
    if bs == [] then 0 else 256 * Value(bs[..|bs|-1]) + bs[|bs|-1]
  }

  /** The bytes of a number, most significant first. */
  function Bytes(n: nat, length: nat): (bs: seq<byte>)
    ensures |bs| == length
  {
    if length == 0 then [] else Bytes(n / 256, length - 1) + [n % 256]
  }

  lemma {:induction false} Pow2OfBytes(length: nat)
    ensures Pow2(8 * (length + 1)) == 256 * Pow2(8 * length)
  {
    Pow2Adds(8, 8 * length);
    assert Pow2(8) == 256 by { assert Pow2(4) == 16; }
  }

  /** Byte strings of one length are exactly the numbers below its power of 256. */
  lemma {:induction false} BytesOfValue(bs: seq<byte>)
    ensures Value(bs) < Pow2(8 * |bs|) && Bytes(Value(bs), |bs|) == bs
  {
    if bs != [] {
      var n := |bs| - 1;
      BytesOfValue(bs[..n]);
      Pow2OfBytes(n);
      assert Value(bs) / 256 == Value(bs[..n]) && Value(bs) % 256 == bs[n];
      assert bs == bs[..n] + [bs[n]];
    }
  }

  lemma {:induction false} ValueOfBytes(n: nat, length: nat)
    requires n < Pow2(8 * length)
    ensures Value(Bytes(n, length)) == n
  {
    if length > 0 {
      Pow2OfBytes(length - 1);
      ValueOfBytes(n / 256, length - 1);
      assert Bytes(n, length)[..length-1] == Bytes(n / 256, length - 1);
    }
  }

  /** `randomBytes[0] &= 0xff >> excess`: the excess high bits of the first byte go. */
  function Masked(bs: seq<byte>, excess: nat): seq<byte>
    requires bs != [] && excess < 8
  {
    Parts(bs[0], Pow2(8 - excess));
    [bs[0] % Pow2(8 - excess)] + bs[1..]
  }

  lemma {:induction false} ValueByFirst(bs: seq<byte>)
    requires bs != []
    ensures Value(bs) == bs[0] * Pow2(8 * (|bs| - 1)) + Value(bs[1..])
  {
    var n := |bs| - 1;
    if n > 0 {
      ValueByFirst(bs[..n]);
      Pow2OfBytes(n - 1);
      assert bs[..n][1..] == bs[1..][..n-1];
      Regroup(256, bs[0], Pow2(8 * (n - 1)));
    }
  }

  lemma {:induction false} SplitFirst(b: nat, first: nat, unit: nat, rest: nat)
    requires first > 0 && rest < unit
    ensures (b * unit + rest) % (first * unit) == b % first * unit + rest
  {
    var q, r := b / first, b % first;
    Parts(b, first);
    var low := r * unit + rest;
    Scale(r + 1, first, unit);
    assert (r + 1) * unit == r * unit + unit;
    assert (q * first + r) * unit == q * (first * unit) + r * unit;
    Remainder(q, first * unit, low);
  }

  /** Masking the first byte is taking the remainder of the whole. */
  lemma {:induction false} MaskIsRemainder(bs: seq<byte>, excess: nat)
    requires bs != [] && excess < 8
    ensures Value(Masked(bs, excess)) == Value(bs) % Pow2(8 * |bs| - excess)
  {
    var tail := 8 * (|bs| - 1);
    ValueByFirst(bs);
    ValueByFirst(Masked(bs, excess));
    assert Masked(bs, excess)[1..] == bs[1..];
    Pow2Adds(8 - excess, tail);
    BytesOfValue(bs[1..]);
    SplitFirst(bs[0], Pow2(8 - excess), Pow2(tail), Value(bs[1..]));
  }

  // ----- reading a block -----

  /** One call of the entropy reader: how many bytes it says it put at the front of the buffer, and whether it failed. */
  datatype Read = Read(count: int, data: nat -> byte, failed: bool) | Panics

  /** The reader, by the number of the call and the room in the buffer. */
  type Source = (nat, nat) -> Read

  function Front(data: nat -> byte, count: nat): (bs: seq<byte>)
    ensures |bs| == count && forall i :: 0 <= i < count ==> bs[i] == data(i)
  {
    seq<byte>(count, i requires i >= 0 => data(i))
  }

  datatype Kind = InvalidLimit | ReadFailure | NoProgress | Rejection | ReaderPanic

  datatype Filling = Filled(bytes: seq<byte>, calls: nat) | Broken(kind: Kind)

  /** The bytes of a block, read from the given call on. */
  function Fill(source: Source, call: nat, length: nat, got: seq<byte>, idle: nat, made: nat): Filling
    requires |got| <= length
    decreases 2 * length + MAX_NO_PROGRESS - made
  {
    var room := length - |got|;
    if room == 0 then Filled(got, call)
    else if made >= 2 * length + MAX_NO_PROGRESS then Broken(ReadFailure)
    else match source(call, room)
      case Panics => Broken(ReaderPanic)
      case Read(count, data, failed) =>
        if count < 0 || count > room then Broken(ReadFailure)
        else
          var more, still := got + Front(data, count), if count > 0 then 0 else idle + 1;
          if |more| == length then Filled(more, call + 1)
          else if failed then Broken(ReadFailure)
          else if still >= MAX_NO_PROGRESS then Broken(NoProgress)
          else Fill(source, call + 1, length, more, still, made + 1)
  }

  method ReadBlock(source: Source, call: nat, length: nat) returns (f: Filling)
    ensures f == Fill(source, call, length, [], 0, 0)
  {
    var bytes: seq<byte>, idle, made, at := [], 0, 0, call;
    while |bytes| < length
      invariant |bytes| <= length
      invariant Fill(source, call, length, [], 0, 0) == Fill(source, at, length, bytes, idle, made)
      decreases 2 * length + MAX_NO_PROGRESS - made
    {
      if made >= 2 * length + MAX_NO_PROGRESS { return Broken(ReadFailure); }
      made := made + 1;
      var read := source(at, length - |bytes|);
      if read.Panics? { return Broken(ReaderPanic); }
      if read.count < 0 || read.count > length - |bytes| { return Broken(ReadFailure); }
      at := at + 1;
      bytes := bytes + Front(read.data, read.count);
      if read.count > 0 { idle := 0; } else { idle := idle + 1; }
      if |bytes| == length { break; }
      if read.failed { return Broken(ReadFailure); }
      if idle >= MAX_NO_PROGRESS { return Broken(NoProgress); }
    }
    f := Filled(bytes, at);
  }

  /** A block that is filled has its length, after a bounded number of calls. */
  lemma {:induction false} FilledIsWhole(source: Source, call: nat, length: nat, got: seq<byte>, idle: nat, made: nat)
    requires |got| <= length && made <= 2 * length + 8
    ensures var f := Fill(source, call, length, got, idle, made);
            && (f.Filled? ==> |f.bytes| == length && got <= f.bytes && call <= f.calls <= call + (2 * length + 8 - made))
            && (f.Filled? && |got| < length ==> call < f.calls)
    decreases 2 * length + MAX_NO_PROGRESS - made
  {
    if |got| < length && made < 2 * length + 8 {
      var read := source(call, length - |got|);
      if read.Read? && 0 <= read.count < length - |got| {
        var more := got + Front(read.data, read.count);
        FilledIsWhole(source, call + 1, length, more, if read.count > 0 then 0 else idle + 1, made + 1);
      }
    }
  }

  /** A reader that puts at least one byte at every call, and no more than there is room for. */
  ghost predicate Progresses(source: Source) {
    forall call: nat, room: nat :: room > 0 ==>
      source(call, room).Read? && 1 <= source(call, room).count <= room && !source(call, room).failed
  }

  /** However short its reads are, such a reader fills a block. */
  lemma {:induction false} ProgressFills(source: Source, call: nat, length: nat, got: seq<byte>, idle: nat, made: nat)
    requires Progresses(source) && |got| <= length && made <= |got|
    ensures Fill(source, call, length, got, idle, made).Filled?
    decreases length - |got|
  {
    if |got| < length {
      var read := source(call, length - |got|);
      var more := got + Front(read.data, read.count);
      if |more| < length { ProgressFills(source, call + 1, length, more, 0, made + 1); }
    }
  }

  /** A reader that puts nothing is given up after eight calls in a row. */
  lemma {:induction false} IdleGivesUp(source: Source, call: nat, length: nat, got: seq<byte>, idle: nat, made: nat)
    requires |got| < length && idle < 8 && made <= 2 * length + idle
    requires forall k: nat, room: nat :: source(k, room).Read? && source(k, room).count == 0 && !source(k, room).failed
    ensures Fill(source, call, length, got, idle, made) == Broken(NoProgress)
    decreases 8 - idle
  {
    assert source(call, length - |got|).Read?;
    if idle < 7 {
      IdleGivesUp(source, call + 1, length, got, idle + 1, made + 1);
      assert got + Front(source(call, length - |got|).data, 0) == got;
    }
  }

  // ----- what a block is made of, call by call -----

  datatype Ending = GoesOn | Full | Fails(kind: Kind)

  /** The call made at the given offset, when so many were made before. */
  function CallAt(source: Source, call: nat, length: nat, offset: nat, made: nat): Read {
    if offset <= length then source(call + made, length - offset) else Panics
  }

  /**
   Where reading stands, by the offsets in the block before the first call and after each one.  It ends when the block
   is full; else when the last call failed, when the last eight calls put nothing, when twice the length and eight
   calls are made, and by a next call that panics or reports a count there is no room for.
   */
  function Standing(source: Source, call: nat, length: nat, at: seq<nat>): Ending
    requires at != []
  {
    var n := |at| - 1;
    if at[n] == length then Full
    else if n > 0 && LastFailed(source, call, length, at) then Fails(ReadFailure)
    else if n >= 8 && at[n-8] == at[n] then Fails(NoProgress)
    else if n >= 2 * length + 8 then Fails(ReadFailure)
    else match CallAt(source, call, length, at[n], n)
      case Panics => Fails(ReaderPanic)
      case Read(count, _, _) => if 0 <= count <= length - at[n] then GoesOn else Fails(ReadFailure)
  }

  predicate LastFailed(source: Source, call: nat, length: nat, at: seq<nat>)
    requires |at| > 1
  {
    var n := |at| - 1;
    CallAt(source, call, length, at[n-1], n - 1).Read? && CallAt(source, call, length, at[n-1], n - 1).failed
  }

  /** Offsets that the read loop passes through: after every call but the last it goes on. */
  predicate Reached(source: Source, call: nat, length: nat, at: seq<nat>)
    decreases |at|
  {
    && at != []
    && var n := |at| - 1;
       if n == 0 then at[0] == 0
       else
         && Reached(source, call, length, at[..n]) && Standing(source, call, length, at[..n]) == GoesOn
         && at[n] == at[n-1] + CallAt(source, call, length, at[n-1], n - 1).count
  }

  /** The bytes that the calls put, in order. */
  function Made(source: Source, call: nat, length: nat, at: seq<nat>): seq<byte>
    requires Reached(source, call, length, at)
    decreases |at|
  {
    var n := |at| - 1;
    if n == 0 then []
    else
      Made(source, call, length, at[..n])
      + Front(CallAt(source, call, length, at[n-1], n - 1).data, CallAt(source, call, length, at[n-1], n - 1).count)
  }

  /** Call k put the bytes from one offset up to another. */
  ghost predicate IsPart(source: Source, call: nat, length: nat, lo: nat, hi: nat, k: nat, bytes: seq<byte>) {
    && lo < length && lo <= hi <= |bytes|
    && var read := source(call + k, length - lo);
       read.Read? && read.count == hi - lo && bytes[lo..hi] == Front(read.data, hi - lo)
  }

  lemma {:induction false} PartOfMore(
      source: Source, call: nat, length: nat, lo: nat, hi: nat, k: nat, before: seq<byte>, bytes: seq<byte>)
    requires IsPart(source, call, length, lo, hi, k, before) && before <= bytes
    ensures IsPart(source, call, length, lo, hi, k, bytes)
  {
    assert bytes[lo..hi] == before[lo..hi];
  }

  lemma {:induction false} LastPart(source: Source, call: nat, length: nat, at: seq<nat>)
    requires Reached(source, call, length, at) && |at| > 1
    ensures IsPart(source, call, length, at[|at|-2], at[|at|-1], |at| - 2, Made(source, call, length, at))
    ensures Made(source, call, length, at[..|at|-1]) <= Made(source, call, length, at)
  {
    MadeLength(source, call, length, at);
    MadeLength(source, call, length, at[..|at|-1]);
  }

  /** Every call put the bytes from one offset up to the next. */
  lemma {:induction false} MadeAt(source: Source, call: nat, length: nat, at: seq<nat>, k: nat)
    requires Reached(source, call, length, at) && k + 1 < |at|
    ensures IsPart(source, call, length, at[k], at[k+1], k, Made(source, call, length, at))
    decreases |at|
  {
    var n := |at| - 1;
    LastPart(source, call, length, at);
    if k + 1 < n {
      MadeAt(source, call, length, at[..n], k);
      PartOfMore(source, call, length, at[k], at[k+1], k, Made(source, call, length, at[..n]), Made(source, call, length, at));
    }
  }

  lemma {:induction false} MadeLength(source: Source, call: nat, length: nat, at: seq<nat>)
    requires Reached(source, call, length, at)
    ensures |Made(source, call, length, at)| == at[|at|-1] <= length
    decreases |at|
  {
    var n := |at| - 1;
    if n > 0 { MadeLength(source, call, length, at[..n]); }
  }

  lemma {:induction false} OffsetsAscend(source: Source, call: nat, length: nat, at: seq<nat>, i: nat)
    requires Reached(source, call, length, at) && i < |at|
    ensures at[i] <= at[|at|-1]
    decreases |at|
  {
    var n := |at| - 1;
    if i < n { OffsetsAscend(source, call, length, at[..n], i); }
  }

  /** The state of the read loop before a call: so many calls in a row put nothing, and the last did not fail. */
  predicate Ready(source: Source, call: nat, length: nat, at: seq<nat>, idle: nat) {
    && Reached(source, call, length, at)
    && var n := |at| - 1;
       && at[n] < length && (n > 0 ==> !LastFailed(source, call, length, at))
       && n <= 2 * length + 8 && idle < 8 && idle <= n
       && at[n-idle] == at[n] && (idle < n ==> at[n-idle-1] < at[n])
  }

  /** Not eight calls in a row without a byte, so only the number of calls and the next call decide. */
  lemma {:induction false} ReadyStands(source: Source, call: nat, length: nat, at: seq<nat>, idle: nat)
    requires Ready(source, call, length, at, idle)
    ensures |at| > 8 ==> at[|at|-9] != at[|at|-1]
  {
    var n := |at| - 1;
    if n >= 8 {
      var m := n - idle - 1;
      ReachedPrefix(source, call, length, at, m);
      OffsetsAscend(source, call, length, at[..m+1], n - 8);
    }
  }

  lemma {:induction false} ReachedPrefix(source: Source, call: nat, length: nat, at: seq<nat>, m: nat)
    requires Reached(source, call, length, at) && m < |at|
    ensures Reached(source, call, length, at[..m+1])
    decreases |at|
  {
    var n := |at| - 1;
    if m < n {
      ReachedPrefix(source, call, length, at[..n], m);
      assert at[..n][..m+1] == at[..m+1];
    } else {
      assert at[..m+1] == at;
    }
  }

  /** The offsets after one more call. */
  lemma {:induction false} ReachedOn(source: Source, call: nat, length: nat, at: seq<nat>)
      returns (on: seq<nat>)
    requires Reached(source, call, length, at) && Standing(source, call, length, at) == GoesOn
    ensures var read := CallAt(source, call, length, at[|at|-1], |at| - 1);
            && read.Read? && 0 <= read.count && on == at + [at[|at|-1] + read.count] && Reached(source, call, length, on)
            && Made(source, call, length, on) == Made(source, call, length, at) + Front(read.data, read.count)
            && (LastFailed(source, call, length, on) <==> read.failed)
  {
    MadeLength(source, call, length, at);
    on := at + [at[|at|-1] + CallAt(source, call, length, at[|at|-1], |at| - 1).count];
    assert on[..|at|] == at;
  }

  /** A reading up to its end, and what it comes to. */
  predicate IsReading(source: Source, call: nat, length: nat, at: seq<nat>, f: Filling) {
    && Reached(source, call, length, at)
    && Standing(source, call, length, at) ==
         (if f.Filled? then Full else Fails(f.kind))
    && (f.Filled? ==> f.bytes == Made(source, call, length, at) && f.calls == call + |at| - 1)
  }

  lemma {:induction false} EndsNow(source: Source, call: nat, length: nat, at: seq<nat>, got: seq<byte>, idle: nat)
    requires Ready(source, call, length, at, idle) && |got| == at[|at|-1] && Standing(source, call, length, at) != GoesOn
    ensures IsReading(source, call, length, at, Fill(source, call + (|at| - 1), length, got, idle, |at| - 1))
  {
    ReadyStands(source, call, length, at, idle);
  }

  /** One call of the read loop that went well. */
  lemma {:induction false} OneCall(source: Source, call: nat, length: nat, got: seq<byte>, idle: nat, made: nat)
    requires |got| < length && made < 2 * length + 8
    requires var read := source(call, length - |got|); read.Read? && 0 <= read.count <= length - |got|
    ensures var read := source(call, length - |got|);
            var more := got + Front(read.data, read.count);
            Fill(source, call, length, got, idle, made) ==
              if |more| == length then Filled(more, call + 1)
              else if read.failed then Broken(ReadFailure)
              else if read.count == 0 && idle >= 7 then Broken(NoProgress)
              else Fill(source, call + 1, length, more, if read.count > 0 then 0 else idle + 1, made + 1)
  {
  }

  /** The state after a call that went well and does not end the reading. */
  lemma {:induction false} ReadyOn(source: Source, call: nat, length: nat, at: seq<nat>, on: seq<nat>, idle: nat)
    requires Ready(source, call, length, at, idle) && Standing(source, call, length, at) == GoesOn
    requires var read := CallAt(source, call, length, at[|at|-1], |at| - 1);
             && read.Read? && 0 <= read.count && on == at + [at[|at|-1] + read.count] && Reached(source, call, length, on)
             && (LastFailed(source, call, length, on) <==> read.failed)
    ensures var n, read := |at| - 1, CallAt(source, call, length, at[|at|-1], |at| - 1);
            var still := if read.count > 0 then 0 else idle + 1;
            if on[n+1] == length then Standing(source, call, length, on) == Full
            else if read.failed then Standing(source, call, length, on) == Fails(ReadFailure)
            else if still == 8 then Standing(source, call, length, on) == Fails(NoProgress)
            else Ready(source, call, length, on, still)
  {
    var n := |at| - 1;
    assert idle == 7 ==> on[n+1-8] == at[n-7];
    assert on[n] == at[n] && (idle < n ==> on[n-idle-1] == at[n-idle-1]) && on[n-idle] == at[n-idle];
  }

  /** The call made next puts bytes that fit. */
  ghost predicate PutsNext(source: Source, call: nat, length: nat, at: seq<nat>, got: seq<byte>, read: Read) {
    && at != [] && |got| == at[|at|-1] < length && |at| - 1 < 2 * length + 8
    && read == source(call + (|at| - 1), length - |got|) && read.Read? && 0 <= read.count <= length - |got|
  }

  lemma {:induction false} FillEndsAfter(
      source: Source, call: nat, length: nat, at: seq<nat>, got: seq<byte>, idle: nat, read: Read, on: seq<nat>)
    requires PutsNext(source, call, length, at, got, read) && idle < 8
    requires |got| + read.count == length || read.failed || (read.count == 0 && idle == 7)
    requires Reached(source, call, length, on) && |on| == |at| + 1
    requires Made(source, call, length, on) == got + Front(read.data, read.count)
    requires Standing(source, call, length, on) ==
               if |got| + read.count == length then Full else if read.failed then Fails(ReadFailure) else Fails(NoProgress)
    ensures IsReading(source, call, length, on, Fill(source, call + (|at| - 1), length, got, idle, |at| - 1))
  {
    OneCall(source, call + (|at| - 1), length, got, idle, |at| - 1);
  }

  lemma {:induction false} FillGoesOn(
      source: Source, call: nat, length: nat, at: seq<nat>, got: seq<byte>, idle: nat, read: Read, on: seq<nat>)
    requires PutsNext(source, call, length, at, got, read) && idle < 8 && |on| == |at| + 1
    requires |got| + read.count < length && !read.failed && (read.count > 0 || idle < 7)
    ensures Fill(source, call + (|at| - 1), length, got, idle, |at| - 1) ==
              Fill(source, call + (|on| - 1), length, got + Front(read.data, read.count),
                   if read.count > 0 then 0 else idle + 1, |on| - 1)
  {
    OneCall(source, call + (|at| - 1), length, got, idle, |at| - 1);
  }

  lemma {:induction false} NextPuts(source: Source, call: nat, length: nat, at: seq<nat>, got: seq<byte>, idle: nat)
    requires Ready(source, call, length, at, idle) && |got| == at[|at|-1] && Standing(source, call, length, at) == GoesOn
    ensures PutsNext(source, call, length, at, got, CallAt(source, call, length, at[|at|-1], |at| - 1))
  {
  }

  /** The reading that ends as a block is filled or broken off, from a state of the read loop on. */
  lemma {:induction false} FillEnds(source: Source, call: nat, length: nat, at: seq<nat>, got: seq<byte>, idle: nat)
      returns (all: seq<nat>)
    requires Ready(source, call, length, at, idle) && got == Made(source, call, length, at) && |got| == at[|at|-1]
    ensures IsReading(source, call, length, all, Fill(source, call + (|at| - 1), length, got, idle, |at| - 1))
    decreases 2 * length + 9 - |at|
  {
    if Standing(source, call, length, at) != GoesOn {
      EndsNow(source, call, length, at, got, idle);
      all := at;
    } else {
      var read := CallAt(source, call, length, at[|at|-1], |at| - 1);
      NextPuts(source, call, length, at, got, idle);
      var on := ReachedOn(source, call, length, at);
      ReadyOn(source, call, length, at, on, idle);
      if |got| + read.count == length || read.failed || (read.count == 0 && idle == 7) {
        FillEndsAfter(source, call, length, at, got, idle, read, on);
        all := on;
      } else {
        FillGoesOn(source, call, length, at, got, idle, read, on);
        all := FillEnds(source, call, length, on, got + Front(read.data, read.count), if read.count > 0 then 0 else idle + 1);
      }
    }
  }

  /**
   What reading a block comes to, for any reader: the calls go on until the block is full or one of the reasons to
   break off holds; a full block consists of the bytes the calls put, in order, and a broken one names the reason.
   */
  lemma {:induction false} BlockIsMadeOfReads(source: Source, call: nat, length: nat) returns (at: seq<nat>)
    ensures IsReading(source, call, length, at, Fill(source, call, length, [], 0, 0))
  {
    at := [0];
    if length > 0 { at := FillEnds(source, call, length, [0], [], 0); }
  }

  // ----- the draw -----

  datatype Draw = Drawn(value: nat) | Failed(kind: Kind, attempts: nat)

  /** The draw from the given attempt on, of at most so many. */
  function DrawFrom(source: Source, call: nat, limit: nat, attempt: nat, most: nat): Draw
    requires limit > 0
    decreases most + 1 - attempt
  {
    if attempt > most then Failed(Rejection, most)
    else match Fill(source, call, ByteLength(limit), [], 0, 0)
      case Broken(kind) => Failed(kind, if kind == ReaderPanic then 1 else attempt)
      case Filled(bytes, next) =>
        var v := Candidate(bytes, limit);
        if v < limit then Drawn(v) else DrawFrom(source, next, limit, attempt + 1, most)
  }

  /** The value a block stands for: its masked bytes. */
  function Candidate(bytes: seq<byte>, limit: nat): nat {
    if bytes == [] then 0 else Value(Masked(bytes, ExcessBits(limit)))
  }

  /** `randomBigIntBelow`. */
  function Below(source: Option<Source>, limit: int, most: nat): Draw {
    if limit <= 0 then Failed(InvalidLimit, 0)
    else if limit == 1 then Drawn(0)
    else if source.None? then Failed(ReadFailure, 0)
    else DrawFrom(source.value, 0, limit, 1, most)
  }

  method RandomBelow(source: Option<Source>, limit: int) returns (r: Draw)
    ensures r == Below(source, limit, 128)
    ensures r.Drawn? ==> r.value < limit
    ensures r == Failed(InvalidLimit, 0) <==> limit <= 0
  {
    DrawIsBelow(source, limit, MAX_REJECTIONS);
    if limit <= 0 { return Failed(InvalidLimit, 0); }
    if limit == 1 { return Drawn(0); }
    if source.None? { return Failed(ReadFailure, 0); }
    var call := 0;
    for attempt := 1 to MAX_REJECTIONS + 1
      invariant Below(source, limit, MAX_REJECTIONS) == DrawFrom(source.value, call, limit, attempt, MAX_REJECTIONS)
    {
      var block := ReadBlock(source.value, call, ByteLength(limit));
      if block.Broken? { return Failed(block.kind, if block.kind == ReaderPanic then 1 else attempt); }
      var v := Candidate(block.bytes, limit);
      if v < limit { return Drawn(v); }
      call := block.calls;
    }
    r := Failed(Rejection, MAX_REJECTIONS);
  }

  lemma {:induction false} DrawFromIsBelow(source: Source, call: nat, limit: nat, attempt: nat, most: nat)
    requires limit > 0
    ensures match DrawFrom(source, call, limit, attempt, most)
            case Drawn(v) => v < limit
            case Failed(kind, _) => kind != InvalidLimit
    decreases most + 1 - attempt
  {
    var f := Fill(source, call, ByteLength(limit), [], 0, 0);
    BrokenKind(source, call, ByteLength(limit), [], 0, 0);
    if attempt <= most && f.Filled? && Candidate(f.bytes, limit) >= limit {
      DrawFromIsBelow(source, f.calls, limit, attempt + 1, most);
    }
  }

  lemma {:induction false} BrokenKind(source: Source, call: nat, length: nat, got: seq<byte>, idle: nat, made: nat)
    requires |got| <= length
    ensures var f := Fill(source, call, length, got, idle, made); f.Broken? ==> f.kind != InvalidLimit
    decreases 2 * length + MAX_NO_PROGRESS - made
  {
    if |got| < length && made < 2 * length + 8 {
      var read := source(call, length - |got|);
      if read.Read? && 0 <= read.count < length - |got| {
        BrokenKind(source, call + 1, length, got + Front(read.data, read.count), if read.count > 0 then 0 else idle + 1, made + 1);
      }
    }
  }

  lemma {:induction false} DrawIsBelow(source: Option<Source>, limit: int, most: nat)
    ensures match Below(source, limit, most)
            case Drawn(v) => v < limit
            case Failed(kind, _) => kind == InvalidLimit <==> limit <= 0
  {
    if limit > 1 && source.Some? { DrawFromIsBelow(source.value, 0, limit, 1, most); }
  }

  // ----- what a draw is made of, block by block -----

  /** The calls at which the blocks of a draw begin: after every block but the last its value was rejected. */
  predicate Began(source: Source, limit: nat, at: seq<nat>)
    decreases |at|
  {
    && at != []
    && var n := |at| - 1;
       if n == 0 then at[0] == 0
       else
         && Began(source, limit, at[..n])
         && RejectedAt(source, at[n-1], limit) && at[n] == Fill(source, at[n-1], ByteLength(limit), [], 0, 0).calls
  }

  /** What the last of these blocks comes to: the value of a block below the limit, a broken block, or one too many. */
  ghost predicate Comes(source: Source, limit: nat, most: nat, at: seq<nat>, d: Draw)
    requires at != []
  {
    var n := |at|;
    var f := Fill(source, at[n-1], ByteLength(limit), [], 0, 0);
    if n == most + 1 then d == Failed(Rejection, most)
    else
      && n <= most
      && match d
         case Drawn(v) => f.Filled? && v == Candidate(f.bytes, limit) && v < limit
         case Failed(kind, attempts) => f == Broken(kind) && attempts == if kind == ReaderPanic then 1 else n
  }

  lemma {:induction false} DrawComes(source: Source, limit: nat, most: nat, at: seq<nat>, d: Draw) returns (all: seq<nat>)
    requires limit > 1 && Began(source, limit, at) && |at| <= most + 1
    requires d == DrawFrom(source, at[|at|-1], limit, |at|, most)
    ensures Began(source, limit, all) && Comes(source, limit, most, all, d)
    decreases most + 1 - |at|
  {
    if |at| > most || !RejectedAt(source, at[|at|-1], limit) {
      ComesNow(source, limit, most, at);
      all := at;
    } else {
      var on := BeganOn(source, limit, at, most);
      all := DrawComes(source, limit, most, on, d);
    }
  }

  predicate RejectedAt(source: Source, call: nat, limit: nat) {
    var f := Fill(source, call, ByteLength(limit), [], 0, 0);
    f.Filled? && Candidate(f.bytes, limit) >= limit
  }

  lemma {:induction false} BeganOn(source: Source, limit: nat, at: seq<nat>, most: nat) returns (on: seq<nat>)
    requires limit > 0 && Began(source, limit, at) && |at| <= most && RejectedAt(source, at[|at|-1], limit)
    ensures Began(source, limit, on) && |on| == |at| + 1
    ensures DrawFrom(source, at[|at|-1], limit, |at|, most) == DrawFrom(source, on[|on|-1], limit, |on|, most)
  {
    on := at + [Fill(source, at[|at|-1], ByteLength(limit), [], 0, 0).calls];
    assert on[..|at|] == at;
  }

  lemma {:induction false} ComesNow(source: Source, limit: nat, most: nat, at: seq<nat>)
    requires limit > 1 && at != [] && |at| <= most + 1
    requires |at| > most || !RejectedAt(source, at[|at|-1], limit)
    ensures Comes(source, limit, most, at, DrawFrom(source, at[|at|-1], limit, |at|, most))
  {
  }

  /** A draw from any reader: blocks are read one after the other, until one has a value below the limit or breaks. */
  lemma {:induction false} DrawIsMadeOfBlocks(source: Source, limit: nat, most: nat) returns (at: seq<nat>)
    requires limit > 1
    ensures Began(source, limit, at) && Comes(source, limit, most, at, Below(Some(source), limit, most))
  {
    at := DrawComes(source, limit, most, [0], Below(Some(source), limit, most));
  }

  // ----- every value is equally likely -----

  /** What a block stands for, as a number: its remainder by the power of two next above the limit. */
  lemma {:induction false} CandidateIsRemainder(bytes: seq<byte>, limit: nat)
    requires limit > 0 && |bytes| == ByteLength(limit)
    ensures bytes != [] && Candidate(bytes, limit) == Value(bytes) % Pow2(BitLength(limit))
  {
    BitLengthIsLeast(limit);
    MaskIsRemainder(bytes, ExcessBits(limit));
  }

  /** The blocks, as numbers below n, that stand for a value. */
  ghost function StandingFor(n: nat, unit: nat, v: nat): set<int>
    requires unit > 0
  {
    set i | 0 <= i < n && i % unit == v
  }

  lemma {:induction false} OneOfEveryUnit(q: nat, unit: nat, v: nat)
    requires v < unit
    ensures |StandingFor(q * unit, unit, v)| == q
  {
    if q == 0 {
      assert StandingFor(0, unit, v) == {};
    } else {
      OneOfEveryUnit(q - 1, unit, v);
      assert q * unit == (q - 1) * unit + unit;
      OneMoreUnit(q - 1, unit, v, (q - 1) * unit);
    }
  }

  lemma {:induction false} OneMoreUnit(q: nat, unit: nat, v: nat, before: nat)
    requires v < unit && before == q * unit
    ensures |StandingFor(before + unit, unit, v)| == |StandingFor(before, unit, v)| + 1
  {
    forall i | before <= i < before + unit ensures i % unit == i - before { Remainder(q, unit, i - before); }
    assert StandingFor(before + unit, unit, v) == StandingFor(before, unit, v) + {before + v};
  }

  lemma {:induction false} Twice(limit: nat, unit: nat, times: nat)
    requires unit <= 2 * limit
    ensures 2 * (limit * times) >= times * unit
  {
    Scale(unit, 2 * limit, times);
    assert 2 * limit * times == 2 * (limit * times);
  }

  /**
   There is no bias: of all blocks of the length that is read, every value below the limit has equally many, two to
   the power of the excess bits, and at least half of all blocks are accepted.
   */
  lemma {:induction false} EqualShares(limit: nat, v: nat)
    requires v < limit
    ensures |StandingFor(Pow2(8 * ByteLength(limit)), Pow2(BitLength(limit)), v)| == Pow2(ExcessBits(limit))
    ensures 2 * (limit * Pow2(ExcessBits(limit))) >= Pow2(8 * ByteLength(limit))
  {
    var b, e := BitLength(limit), ExcessBits(limit);
    BitLengthIsLeast(limit);
    Pow2Adds(e, b);
    OneOfEveryUnit(Pow2(e), Pow2(b), v);
    Twice(limit, Pow2(b), Pow2(e));
  }

  // ----- and so over whole draws -----

  /** A reader that fills the buffer at every call, with the block of that number. */
  function Whole(blocks: nat -> seq<byte>): Source {
    (call: nat, room: nat) => Read(room, (i: nat) => if i < |blocks(call)| then blocks(call)[i] else 0, false)
  }

  lemma {:induction false} WholeFills(blocks: nat -> seq<byte>, call: nat, length: nat)
    requires length > 0 && |blocks(call)| == length
    ensures Fill(Whole(blocks), call, length, [], 0, 0) == Filled(blocks(call), call + 1)
  {
    var read := Whole(blocks)(call, length);
    assert [] + Front(read.data, read.count) == blocks(call);
  }

  /** One attempt on such a stream. */
  lemma {:induction false} OneBlock(blocks: nat -> seq<byte>, call: nat, limit: nat, attempt: nat, most: nat)
    requires limit > 0 && attempt <= most && |blocks(call)| == ByteLength(limit)
    ensures DrawFrom(Whole(blocks), call, limit, attempt, most) ==
              var v := Candidate(blocks(call), limit);
              if v < limit then Drawn(v) else DrawFrom(Whole(blocks), call + 1, limit, attempt + 1, most)
  {
    BitLengthIsLeast(limit);
    WholeFills(blocks, call, ByteLength(limit));
  }

  /** The first value below the limit, of as many as may be tried. */
  function FirstBelow(values: nat -> nat, k: nat, limit: nat, attempt: nat, most: nat): Draw
    decreases most + 1 - attempt
  {
    if attempt > most then Failed(Rejection, most)
    else if values(k) < limit then Drawn(values(k))
    else FirstBelow(values, k + 1, limit, attempt + 1, most)
  }

  function Candidates(blocks: nat -> seq<byte>, limit: nat): nat -> nat {
    k => Candidate(blocks(k), limit)
  }

  /** What is drawn from such a stream is the first value below the limit. */
  lemma {:induction false} FirstBelowIsDrawn(blocks: nat -> seq<byte>, call: nat, limit: nat, attempt: nat, most: nat)
    requires limit > 0 && forall i :: |blocks(i)| == ByteLength(limit)
    ensures DrawFrom(Whole(blocks), call, limit, attempt, most) ==
              FirstBelow(Candidates(blocks, limit), call, limit, attempt, most)
    decreases most + 1 - attempt
  {
    if attempt <= most {
      OneBlock(blocks, call, limit, attempt, most);
      FirstBelowIsDrawn(blocks, call + 1, limit, attempt + 1, most);
    }
  }

  lemma {:induction false} BelowIsFirst(blocks: nat -> seq<byte>, limit: nat, most: nat)
    requires limit > 1 && forall i :: |blocks(i)| == ByteLength(limit)
    ensures Below(Some(Whole(blocks)), limit, most) == FirstBelow(Candidates(blocks, limit), 0, limit, 1, most)
  {
    FirstBelowIsDrawn(blocks, 0, limit, 1, most);
  }

  /** That is the value of the first block with none below the limit before it, and none when there is no such block. */
  lemma {:induction false} FirstBelowMeans(values: nat -> nat, from: nat, limit: nat, most: nat, k: nat)
    requires from <= k < most && forall i: nat :: from <= i < k ==> values(i) >= limit
    ensures var r := FirstBelow(values, from, limit, from + 1, most);
            (values(k) < limit ==> r == Drawn(values(k))) && (values(k) >= limit && k == most - 1 ==> r == Failed(Rejection, most))
    decreases k - from
  {
    if from < k { FirstBelowMeans(values, from + 1, limit, most, k); }
  }

  function Exchanged(v: nat, w: nat, x: nat): nat {
    if x == v then w else if x == w then v else x
  }

  /** The number with its remainder exchanged. */
  function ExchangeIn(n: nat, unit: nat, v: nat, w: nat): nat
    requires unit > 0
  {
    n / unit * unit + Exchanged(v, w, n % unit)
  }

  lemma {:induction false} ExchangeMeans(n: nat, unit: nat, v: nat, w: nat)
    requires v < unit && w < unit
    ensures var m := ExchangeIn(n, unit, v, w);
            m / unit == n / unit && m % unit == Exchanged(v, w, n % unit) && ExchangeIn(m, unit, v, w) == n
  {
    Remainder(n / unit, unit, Exchanged(v, w, n % unit));
  }

  lemma {:induction false} ExchangeStaysBelow(n: nat, q: nat, unit: nat, v: nat, w: nat)
    requires v < unit && w < unit && n < q * unit
    ensures ExchangeIn(n, unit, v, w) < q * unit
  {
    var p := n / unit;
    Parts(n, unit);
    if p >= q { Scale(q, p, unit); }
    Scale(p + 1, q, unit);
    assert (p + 1) * unit == p * unit + unit;
  }

  /** A block that stands for the one value stands for the other then, and the other way round. */
  function ExchangedBlock(bytes: seq<byte>, limit: nat, v: nat, w: nat): (r: seq<byte>)
    ensures |r| == |bytes|
  {
    Bytes(ExchangeIn(Value(bytes), Pow2(BitLength(limit)), v, w), |bytes|)
  }

  lemma {:induction false} ExchangedBlockMeans(bytes: seq<byte>, limit: nat, v: nat, w: nat)
    requires v < limit && w < limit && |bytes| == ByteLength(limit)
    ensures var r := ExchangedBlock(bytes, limit, v, w);
            && Candidate(r, limit) == Exchanged(v, w, Candidate(bytes, limit))
            && ExchangedBlock(r, limit, v, w) == bytes
  {
    var unit := Pow2(BitLength(limit));
    BitLengthIsLeast(limit);
    BytesOfValue(bytes);
    Pow2Adds(ExcessBits(limit), BitLength(limit));
    ExchangeMeans(Value(bytes), unit, v, w);
    ExchangeStaysBelow(Value(bytes), Pow2(ExcessBits(limit)), unit, v, w);
    ValueOfBytes(ExchangeIn(Value(bytes), unit, v, w), |bytes|);
    CandidateIsRemainder(bytes, limit);
    CandidateIsRemainder(ExchangedBlock(bytes, limit, v, w), limit);
  }

  function ExchangedDraw(d: Draw, v: nat, w: nat): Draw {
    if d.Drawn? then Drawn(Exchanged(v, w, d.value)) else d
  }

  /** The call at which the block begins that the given call reads for. */
  function StartOf(source: Source, length: nat, from: nat, call: nat): nat
    requires from <= call
    decreases call - from
  {
    var f := Fill(source, from, length, [], 0, 0);
    if f.Filled? && from < f.calls <= call then StartOf(source, length, f.calls, call) else from
  }

  /** Two values exchanged in every block a reader fills; it makes the same calls, with the same counts and failures. */
  function ExchangedSource(source: Source, limit: nat, v: nat, w: nat): Source {
    (call: nat, room: nat) =>
      ExchangedRead(source(call, room), BlockOf(source, ByteLength(limit), call), limit, v, w, room)
  }

  /** The block that a call reads for. */
  function BlockOf(source: Source, length: nat, call: nat): Filling {
    Fill(source, StartOf(source, length, 0, call), length, [], 0, 0)
  }

  function ExchangedRead(read: Read, f: Filling, limit: nat, v: nat, w: nat, room: nat): Read {
    if read.Panics? || f.Broken? || room > ByteLength(limit) then read
    else Read(read.count, From(ExchangedBlock(f.bytes, limit, v, w), ByteLength(limit) - room), read.failed)
  }

  function From(bytes: seq<byte>, offset: nat): nat -> byte {
    (i: nat) => if offset + i < |bytes| then bytes[offset + i] else 0
  }

  ghost predicate SameCalls(s: Source, t: Source) {
    forall call: nat, room: nat :: SameCall(s(call, room), t(call, room))
  }

  ghost predicate SameCall(a: Read, b: Read) {
    (a.Panics? <==> b.Panics?) && (a.Read? && b.Read? ==> a.count == b.count && a.failed == b.failed)
  }

  lemma {:induction false} ExchangeKeepsCalls(source: Source, limit: nat, v: nat, w: nat)
    ensures SameCalls(source, ExchangedSource(source, limit, v, w))
  {
  }

  /** How reading a block goes depends on the counts and failures alone. */
  ghost predicate SameWay(f: Filling, g: Filling) {
    (f.Filled? <==> g.Filled?) && (f.Filled? && g.Filled? ==> f.calls == g.calls) && (f.Broken? ==> f == g)
  }

  lemma {:induction false} FillSameWay(
      s: Source, t: Source, call: nat, length: nat, a: seq<byte>, b: seq<byte>, idle: nat, made: nat)
    requires SameCalls(s, t) && |a| == |b| <= length
    ensures SameWay(Fill(s, call, length, a, idle, made), Fill(t, call, length, b, idle, made))
    decreases 2 * length + MAX_NO_PROGRESS - made
  {
    if |a| < length && made < 2 * length + 8 {
      var p, q := s(call, length - |a|), t(call, length - |a|);
      assert SameCall(p, q);
      if p.Read? && 0 <= p.count <= length - |a| {
        OneCall(s, call, length, a, idle, made);
        OneCall(t, call, length, b, idle, made);
        if p.count < length - |a| {
          FillSameWay(s, t, call + 1, length, a + Front(p.data, p.count), b + Front(q.data, q.count),
                      if p.count > 0 then 0 else idle + 1, made + 1);
        }
      }
    }
  }

  lemma {:induction false} SameStarts(s: Source, t: Source, length: nat, from: nat, call: nat)
    requires SameCalls(s, t) && from <= call
    ensures StartOf(s, length, from, call) == StartOf(t, length, from, call)
    decreases call - from
  {
    FillSameWay(s, t, from, length, [], [], 0, 0);
    var f := Fill(s, from, length, [], 0, 0);
    if f.Filled? && from < f.calls <= call { SameStarts(s, t, length, f.calls, call); }
  }

  /** The calls of a block read for it, and the next block begins where it ends. */
  lemma {:induction false} StartsWithin(source: Source, length: nat, from: nat, start: nat, call: nat)
    requires from <= start <= call && StartOf(source, length, from, start) == start
    requires var f := Fill(source, start, length, [], 0, 0); f.Filled? && start < f.calls && call <= f.calls
    ensures StartOf(source, length, from, call) ==
              if call < Fill(source, start, length, [], 0, 0).calls then start else call
    decreases start - from
  {
    if from < start {
      StartsWithin(source, length, Fill(source, from, length, [], 0, 0).calls, start, call);
    } else if call == Fill(source, start, length, [], 0, 0).calls {
      assert StartOf(source, length, call, call) == call;
    }
  }

  /** Every call from this one on, up to the end, puts bytes of the given block where it puts them. */
  ghost predicate PutsFrom(source: Source, length: nat, block: seq<byte>, call: nat, end: nat) {
    forall k: nat, room: nat :: call <= k < end && room <= length ==> PutsPart(source(k, room), block, length - room)
  }

  ghost predicate PutsPart(read: Read, block: seq<byte>, offset: nat) {
    read.Read? ==> forall i: nat :: i < read.count && offset + i < |block| ==> read.data(i) == block[offset + i]
  }

  lemma {:induction false} FillsBlock(
      source: Source, call: nat, length: nat, block: seq<byte>, got: seq<byte>, idle: nat, made: nat, end: nat)
    requires |block| == length && got <= block && PutsFrom(source, length, block, call, end)
    requires var f := Fill(source, call, length, got, idle, made); f.Filled? && f.calls == end
    requires made <= 2 * length + 8
    ensures Fill(source, call, length, got, idle, made) == Filled(block, end)
    decreases 2 * length + MAX_NO_PROGRESS - made
  {
    FilledIsWhole(source, call, length, got, idle, made);
    if |got| < length && made < 2 * length + 8 {
      var read := source(call, length - |got|);
      assert PutsPart(read, block, |got|);
      OneCall(source, call, length, got, idle, made);
      var more := got + Front(read.data, read.count);
      assert more == block[..|more|];
      if |more| < length {
        FillsBlock(source, call + 1, length, block, more, if read.count > 0 then 0 else idle + 1, made + 1, end);
      }
    }
  }

  lemma {:induction false} ExchangedPuts(source: Source, limit: nat, v: nat, w: nat, start: nat)
    requires StartOf(source, ByteLength(limit), 0, start) == start
    requires var f := Fill(source, start, ByteLength(limit), [], 0, 0); f.Filled? && start < f.calls
    ensures var f := Fill(source, start, ByteLength(limit), [], 0, 0);
            PutsFrom(ExchangedSource(source, limit, v, w), ByteLength(limit), ExchangedBlock(f.bytes, limit, v, w), start, f.calls)
  {
    var length, t, f := ByteLength(limit), ExchangedSource(source, limit, v, w), Fill(source, start, ByteLength(limit), [], 0, 0);
    forall k: nat, room: nat | start <= k < f.calls && room <= length
      ensures PutsPart(t(k, room), ExchangedBlock(f.bytes, limit, v, w), length - room)
    {
      StartsWithin(source, length, 0, start, k);
      ExchangedPart(source, limit, v, w, start, k, room);
    }
  }

  lemma {:induction false} ExchangedPart(source: Source, limit: nat, v: nat, w: nat, start: nat, k: nat, room: nat)
    requires StartOf(source, ByteLength(limit), 0, k) == start && room <= ByteLength(limit)
    requires Fill(source, start, ByteLength(limit), [], 0, 0).Filled?
    ensures PutsPart(ExchangedSource(source, limit, v, w)(k, room),
                     ExchangedBlock(Fill(source, start, ByteLength(limit), [], 0, 0).bytes, limit, v, w), ByteLength(limit) - room)
  {
    var f := BlockOf(source, ByteLength(limit), k);
    assert ExchangedSource(source, limit, v, w)(k, room) == ExchangedRead(source(k, room), f, limit, v, w, room);
    ExchangedReadPuts(source(k, room), f, limit, v, w, room);
  }

  lemma {:induction false} ExchangedReadPuts(read: Read, f: Filling, limit: nat, v: nat, w: nat, room: nat)
    requires f.Filled? && room <= ByteLength(limit)
    ensures PutsPart(ExchangedRead(read, f, limit, v, w, room), ExchangedBlock(f.bytes, limit, v, w), ByteLength(limit) - room)
  {
    var block, offset := ExchangedBlock(f.bytes, limit, v, w), ByteLength(limit) - room;
    FromMeans(block, offset);
  }

  lemma {:induction false} FromMeans(bytes: seq<byte>, offset: nat)
    ensures forall i: nat :: offset + i < |bytes| ==> From(bytes, offset)(i) == bytes[offset + i]
  {
  }

  /** A block of the exchanged reader is the exchanged block. */
  lemma {:induction false} ExchangedFills(source: Source, limit: nat, v: nat, w: nat, start: nat)
    requires limit > 0 && StartOf(source, ByteLength(limit), 0, start) == start
    requires Fill(source, start, ByteLength(limit), [], 0, 0).Filled?
    ensures var f := Fill(source, start, ByteLength(limit), [], 0, 0);
            && |f.bytes| == ByteLength(limit) && start < f.calls
            && Fill(ExchangedSource(source, limit, v, w), start, ByteLength(limit), [], 0, 0) ==
                 Filled(ExchangedBlock(f.bytes, limit, v, w), f.calls)
  {
    var length, t := ByteLength(limit), ExchangedSource(source, limit, v, w);
    var f := Fill(source, start, length, [], 0, 0);
    BitLengthIsLeast(limit);
    FilledIsWhole(source, start, length, [], 0, 0);
    ExchangeKeepsCalls(source, limit, v, w);
    FillSameWay(source, t, start, length, [], [], 0, 0);
    ExchangedPuts(source, limit, v, w, start);
    FillsBlock(t, start, length, ExchangedBlock(f.bytes, limit, v, w), [], 0, 0, f.calls);
  }

  lemma {:induction false} ExchangeFrom(source: Source, start: nat, limit: nat, attempt: nat, most: nat, v: nat, w: nat)
    requires v < limit && w < limit && StartOf(source, ByteLength(limit), 0, start) == start
    ensures DrawFrom(ExchangedSource(source, limit, v, w), start, limit, attempt, most) ==
              ExchangedDraw(DrawFrom(source, start, limit, attempt, most), v, w)
    decreases most + 1 - attempt
  {
    if attempt <= most {
      var length, t := ByteLength(limit), ExchangedSource(source, limit, v, w);
      var f := Fill(source, start, length, [], 0, 0);
      ExchangeKeepsCalls(source, limit, v, w);
      FillSameWay(source, t, start, length, [], [], 0, 0);
      if f.Filled? {
        ExchangedFills(source, limit, v, w, start);
        ExchangedBlockMeans(f.bytes, limit, v, w);
        StartsWithin(source, length, 0, start, f.calls);
        ExchangeFrom(source, f.calls, limit, attempt + 1, most, v, w);
      }
    }
  }

  /**
   Exact uniformity on every reader, whatever its calls put and whether they fail: exchanging two values in its blocks
   exchanges them in what is drawn, and a draw that fails fails alike.
   */
  lemma {:induction false} DrawsAreUniform(source: Source, limit: nat, most: nat, v: nat, w: nat)
    requires v < limit && w < limit
    ensures Below(Some(ExchangedSource(source, limit, v, w)), limit, most) ==
              ExchangedDraw(Below(Some(source), limit, most), v, w)
  {
    if limit > 1 {
      assert StartOf(source, ByteLength(limit), 0, 0) == 0;
      ExchangeFrom(source, 0, limit, 1, most, v, w);
    }
  }

  lemma {:induction false} SameCallsAgain(a: Source, b: Source, c: Source)
    requires SameCalls(a, b) && SameCalls(b, c)
    ensures SameCalls(a, c)
  {
    forall call: nat, room: nat ensures SameCall(a(call, room), c(call, room)) {
      assert SameCall(a(call, room), b(call, room)) && SameCall(b(call, room), c(call, room));
    }
  }

  lemma {:induction false} BlockComesBack(source: Source, t: Source, limit: nat, v: nat, w: nat, start: nat)
    requires v < limit && w < limit && t == ExchangedSource(source, limit, v, w)
    requires StartOf(source, ByteLength(limit), 0, start) == StartOf(t, ByteLength(limit), 0, start) == start
    requires Fill(source, start, ByteLength(limit), [], 0, 0).Filled?
    ensures Fill(ExchangedSource(t, limit, v, w), start, ByteLength(limit), [], 0, 0) ==
              Fill(source, start, ByteLength(limit), [], 0, 0)
  {
    var f := Fill(source, start, ByteLength(limit), [], 0, 0);
    ExchangedFills(source, limit, v, w, start);
    ExchangedFills(t, limit, v, w, start);
    ExchangedBlockMeans(f.bytes, limit, v, w);
  }

  /**
   Exchanging twice gives every block of a draw back, with the same calls: readers that yield the one value and
   readers that yield the other are in one-to-one correspondence, block by block.
   */
  lemma {:induction false} BlocksComeBack(source: Source, limit: nat, v: nat, w: nat, start: nat)
    requires v < limit && w < limit && StartOf(source, ByteLength(limit), 0, start) == start
    ensures var u := ExchangedSource(ExchangedSource(source, limit, v, w), limit, v, w);
            && SameCalls(source, u)
            && Fill(u, start, ByteLength(limit), [], 0, 0) == Fill(source, start, ByteLength(limit), [], 0, 0)
  {
    var t := ExchangedSource(source, limit, v, w);
    var u := ExchangedSource(t, limit, v, w);
    ExchangeKeepsCalls(source, limit, v, w);
    ExchangeKeepsCalls(t, limit, v, w);
    SameCallsAgain(source, t, u);
    FillSameWay(source, u, start, ByteLength(limit), [], [], 0, 0);
    SameStarts(source, t, ByteLength(limit), 0, start);
    if Fill(source, start, ByteLength(limit), [], 0, 0).Filled? { BlockComesBack(source, t, limit, v, w, start); }
  }
}
