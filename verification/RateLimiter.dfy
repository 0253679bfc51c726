/**
 The in-memory sliding-window limiter (common/rate-limit.go).

 The limiter keeps at most N timestamps per key and a background sweep drops idle keys.  It is
 compared with a limiter that remembers every accepted request for ever.
 */
module RateLimiter {

  type Store = map<string, seq<int>>

  /** `Request` admits the caller. */
  predicate Admits(store: Store, key: string, max: nat, duration: int, now: int) {
    if key in store && |store[key]| > 0 && |store[key]| >= max then now - store[key][0] >= duration else true
  }

  function AfterRequest(store: Store, key: string, max: nat, duration: int, now: int): Store {
    if !Admits(store, key, max, duration, now) then store
    else if key !in store then store[key := [now]]
    else if |store[key]| < max || store[key] == [] then store[key := store[key] + [now]]
    else store[key := store[key][1..] + [now]]
  }

  predicate Idle(queue: seq<int>, expiration: int, now: int) {
    queue == [] || now - queue[|queue|-1] > expiration
  }

  function AfterSweep(store: Store, expiration: int, now: int): Store {
    map key | key in store && !Idle(store[key], expiration, now) :: store[key]
  }

  class InMemoryRateLimiter {
    var store: Store
    const expiration: int

    constructor (expiration: int)
      ensures store == map[] && this.expiration == expiration
    {
      store := map[];
      this.expiration := expiration;
    }

    /** Queues are never empty: a queue is created with its first timestamp and never shrinks. */
    ghost predicate Valid() reads this {
      forall key :: key in store ==> store[key] != []
    }

    method Request(key: string, max: nat, duration: int, now: int) returns (ok: bool)
      requires Valid()
      modifies this
      ensures Valid()
      ensures ok == Admits(old(store), key, max, duration, now)
      ensures store == AfterRequest(old(store), key, max, duration, now)
    {
      if key in store {
        var queue := store[key];
        if |queue| < max {
          store := store[key := queue + [now]];
          return true;
        } else if now - queue[0] >= duration {
          queue := queue[1..];
          store := store[key := queue + [now]];
          return true;
        } else {
          return false;
        }
      }
      store := store[key := []];
      store := store[key := store[key] + [now]];
      assert store[key] == [now];
      return true;
    }

    /** One round of `clearExpiredItems`; the keys are visited in no particular order. */
    method ClearExpired(now: int)
      requires Valid()
      modifies this
      ensures Valid()
      ensures store == AfterSweep(old(store), expiration, now)
    {
      var pending := store.Keys;
      while pending != {}
        invariant pending <= old(store).Keys
        invariant store == map key | key in old(store) && (key in pending || !Idle(old(store)[key], expiration, now)) :: old(store)[key]
        decreases pending
      {
        var key :| key in pending;
        pending := pending - {key};
        var queue := store[key];
        var size := |queue|;
        if size == 0 || now - queue[size-1] > expiration {
          store := store - {key};
        }
      }
    }
  }

  // ----- runs -----

  datatype Event = Ask(key: string, now: int) | Sweep(now: int)

  /** The limits are fixed per key, as the middleware's constants are. */
  datatype Limits = Limits(max: string -> nat, duration: string -> int, expiration: int)

  predicate Ordered(times: seq<int>) {
    forall i, j :: 0 <= i <= j < |times| ==> times[i] <= times[j]
  }

  /** The clock never runs backwards. */
  predicate Monotone(events: seq<Event>) {
    forall i, j :: 0 <= i <= j < |events| ==> events[i].now <= events[j].now
  }

  function StoreAfter(l: Limits, events: seq<Event>): Store {
    if events == [] then map[]
    else
      var n := |events| - 1;
      var before := StoreAfter(l, events[..n]);
      match events[n]
      case Ask(key, now) => AfterRequest(before, key, l.max(key), l.duration(key), now)
      case Sweep(now) => AfterSweep(before, l.expiration, now)
  }

  predicate AdmittedAt(l: Limits, events: seq<Event>, key: string, now: int) {
    Admits(StoreAfter(l, events), key, l.max(key), l.duration(key), now)
  }

  /** Every time at which the key was ever admitted. */
  function History(l: Limits, events: seq<Event>, key: string): seq<int> {
    if events == [] then []
    else
      var n := |events| - 1;
      var before := History(l, events[..n], key);
      if events[n].Ask? && events[n].key == key && AdmittedAt(l, events[..n], key, events[n].now)
      then before + [events[n].now] else before
  }

  /** How many of the given times lie within the last `duration` seconds. */
  function Recent(times: seq<int>, duration: int, now: int): nat {
    if times == [] then 0
    else Recent(times[..|times|-1], duration, now) + if now - times[|times|-1] < duration then 1 else 0
  }

  /** A limit of zero still admits the first request, so it behaves as one. */
  function Cap(l: Limits, key: string): nat {
    if l.max(key) == 0 then 1 else l.max(key)
  }

  /** In an ordered history the recent times are a suffix, so the n-th newest decides. */
  lemma {:induction false} RecentByNthNewest(times: seq<int>, duration: int, now: int, n: nat)
    requires Ordered(times) && n > 0
    ensures Recent(times, duration, now) >= n <==> |times| >= n && now - times[|times|-n] < duration
  {
    if times != [] {
      var m := |times| - 1;
      var front := times[..m];
      if n == 1 {
        if now - times[m] >= duration { NothingRecent(times, duration, now); }
      } else {
        RecentByNthNewest(front, duration, now, n - 1);
        if now - times[m] >= duration { NothingRecent(front, duration, now); }
      }
    }
  }

  lemma {:induction false} NothingRecent(times: seq<int>, duration: int, now: int)
    requires forall i :: 0 <= i < |times| ==> now - times[i] >= duration
    ensures Recent(times, duration, now) == 0
  {
    if times != [] { NothingRecent(times[..|times|-1], duration, now); }
  }

  lemma {:induction false} RecentAtMost(times: seq<int>, duration: int, now: int, stale: nat)
    requires stale <= |times|
    requires forall i :: 0 <= i < stale ==> now - times[i] >= duration
    ensures Recent(times, duration, now) <= |times| - stale
  {
    if stale == |times| {
      NothingRecent(times, duration, now);
    } else {
      RecentAtMost(times[..|times|-1], duration, now, stale);
    }
  }

  /** A key's queue; queues in the store are never empty, so an absent key has the empty one. */
  function Queue(store: Store, key: string): seq<int> {
    if key in store then store[key] else []
  }

  /** How the bounded queue represents the full history, as of the given moment. */
  ghost predicate Represents(l: Limits, key: string, q: seq<int>, h: seq<int>, now: int) {
    && Ordered(h)
    && (forall i :: 0 <= i < |h| ==> h[i] <= now)
    && |q| <= Cap(l, key) && |q| <= |h|
    && q == h[|h|-|q|..]
    && (|q| < Cap(l, key) ==> forall i :: 0 <= i < |h| - |q| ==> now - h[i] > l.expiration)
  }

  /** A queue that represents the history decides as the full history would. */
  lemma {:induction false} DecidesLikeHistory(l: Limits, store: Store, key: string, h: seq<int>, now: int)
    requires Represents(l, key, Queue(store, key), h, now)
    requires l.duration(key) <= l.expiration + 1
    ensures Admits(store, key, l.max(key), l.duration(key), now)
       <==> Recent(h, l.duration(key), now) < Cap(l, key)
  {
    var q, d, cap := Queue(store, key), l.duration(key), Cap(l, key);
    if |q| < cap {
      RecentAtMost(h, d, now, |h| - |q|);
    } else {
      assert q[0] == h[|h|-cap];
      RecentByNthNewest(h, d, now, cap);
    }
  }

  lemma {:induction false} RequestKeepsRepresentation(l: Limits, store: Store, key: string, h: seq<int>, now: int)
    requires Represents(l, key, Queue(store, key), h, now)
    ensures var max, d := l.max(key), l.duration(key);
            Represents(l, key, Queue(AfterRequest(store, key, max, d, now), key),
                       if Admits(store, key, max, d, now) then h + [now] else h, now)
  {
    var max, d := l.max(key), l.duration(key);
    if Admits(store, key, max, d, now) {
      var q := Queue(AfterRequest(store, key, max, d, now), key);
      assert q == (h + [now])[|h|+1-|q|..];
    }
  }

  lemma {:induction false} SweepKeepsRepresentation(l: Limits, store: Store, key: string, h: seq<int>, now: int)
    requires Represents(l, key, Queue(store, key), h, now)
    ensures Represents(l, key, Queue(AfterSweep(store, l.expiration, now), key), h, now)
  {
    var q := Queue(store, key);
    if q != [] && Idle(q, l.expiration, now) {
      assert q[|q|-1] == h[|h|-1];
      assert h[|h|..] == [];
    }
  }

  /** The bounded queues represent the full history after every run, however requests and sweeps interleave. */
  lemma {:induction false} RunRepresents(l: Limits, events: seq<Event>, key: string, now: int)
    requires Monotone(events) && (events != [] ==> events[|events|-1].now <= now)
    ensures Represents(l, key, Queue(StoreAfter(l, events), key), History(l, events, key), now)
  {
    if events != [] {
      var n := |events| - 1;
      var t := events[n].now;
      RunRepresents(l, events[..n], key, t);
      EventKeepsRepresentation(l, events, key);
      assert Represents(l, key, Queue(StoreAfter(l, events), key), History(l, events, key), t);
    }
  }

  lemma {:induction false} EventKeepsRepresentation(l: Limits, events: seq<Event>, key: string)
    requires events != []
    requires var n := |events| - 1;
             Represents(l, key, Queue(StoreAfter(l, events[..n]), key), History(l, events[..n], key), events[n].now)
    ensures Represents(l, key, Queue(StoreAfter(l, events), key), History(l, events, key), events[|events|-1].now)
  {
    var n := |events| - 1;
    var before, h := StoreAfter(l, events[..n]), History(l, events[..n], key);
    match events[n]
    case Ask(k, now) =>
      if k == key {
        RequestKeepsRepresentation(l, before, key, h, now);
      } else {
        assert Queue(StoreAfter(l, events), key) == Queue(before, key);
      }
    case Sweep(now) => SweepKeepsRepresentation(l, before, key, h, now);
  }

  /**
   The limiter is the full-history limiter: a request is admitted exactly when fewer than N requests
   of its key were admitted in the last `duration` seconds, whatever was swept in between.
   */
  lemma {:induction false} RefinesFullHistory(l: Limits, events: seq<Event>, key: string, now: int)
    requires Monotone(events) && (events != [] ==> events[|events|-1].now <= now)
    requires l.duration(key) <= l.expiration + 1
    ensures AdmittedAt(l, events, key, now)
       <==> Recent(History(l, events, key), l.duration(key), now) < if l.max(key) == 0 then 1 else l.max(key)
  {
    RunRepresents(l, events, key, now);
    DecidesLikeHistory(l, StoreAfter(l, events), key, History(l, events, key), now);
  }

  /** Hence no window of `duration` seconds ever holds more than N admissions. */
  lemma {:induction false} WindowNeverOverfull(l: Limits, events: seq<Event>, key: string, i: nat)
    requires Monotone(events) && l.duration(key) <= l.expiration + 1
    requires var h := History(l, events, key); i + Cap(l, key) < |h|
    ensures var h := History(l, events, key); h[i + Cap(l, key)] - h[i] >= l.duration(key)
  {
    var n := |events| - 1;
    var before := History(l, events[..n], key);
    if i + Cap(l, key) < |before| {
      WindowNeverOverfull(l, events[..n], key, i);
    } else {
      var now := events[n].now;
      RefinesFullHistory(l, events[..n], key, now);
      RunRepresents(l, events[..n], key, now);
      RecentByNthNewest(before, l.duration(key), now, Cap(l, key));
    }
  }

  lemma {:induction false} QueuesAreNotEmpty(l: Limits, events: seq<Event>, key: string)
    ensures key in StoreAfter(l, events) ==> StoreAfter(l, events)[key] != []
  {
    if events != [] { QueuesAreNotEmpty(l, events[..|events|-1], key); }
  }

  /**
   The background sweep forgets exactly what it may: after it, a key is in the store if and only if it was
   admitted within the expiry, so the store never grows beyond the keys of that time.
   */
  lemma {:induction false} SweepForgetsIdle(l: Limits, events: seq<Event>, key: string, now: int)
    requires Monotone(events) && (events != [] ==> events[|events|-1].now <= now)
    ensures var h := History(l, events, key);
            key in StoreAfter(l, events + [Sweep(now)]) <==> h != [] && now - h[|h|-1] <= l.expiration
  {
    var longer := events + [Sweep(now)];
    var store, h := StoreAfter(l, events), History(l, events, key);
    assert longer[..|events|] == events && longer[|events|] == Sweep(now);
    assert StoreAfter(l, longer) == AfterSweep(store, l.expiration, now);
    RunRepresents(l, events, key, now);
    QueuesAreNotEmpty(l, events, key);
    var q := Queue(store, key);
    if q != [] { assert q[|q|-1] == h[|h|-1]; }
  }

  /** N requests for one key at time zero. */
  function Burst(key: string, n: nat): seq<Event> {
    if n == 0 then [] else Burst(key, n - 1) + [Ask(key, 0)]
  }

  function Zeros(n: nat): (z: seq<int>)
    ensures |z| == n && forall i :: 0 <= i < n ==> z[i] == 0
  {
    if n == 0 then [] else Zeros(n - 1) + [0]
  }

  lemma {:induction false} BurstEvents(key: string, n: nat)
    ensures |Burst(key, n)| == n && forall i :: 0 <= i < n ==> Burst(key, n)[i] == Ask(key, 0)
  {
    if n > 0 { BurstEvents(key, n - 1); }
  }

  /** A queue with room admits the request and keeps its time. */
  lemma {:induction false} RoomAdmits(l: Limits, events: seq<Event>, key: string, now: int)
    requires |Queue(StoreAfter(l, events), key)| < Cap(l, key)
    ensures var longer := events + [Ask(key, now)];
            && Queue(StoreAfter(l, longer), key) == Queue(StoreAfter(l, events), key) + [now]
            && History(l, longer, key) == History(l, events, key) + [now]
  {
    var longer := events + [Ask(key, now)];
    assert longer[..|events|] == events && longer[|events|] == Ask(key, now);
    assert AdmittedAt(l, events, key, now);
  }

  lemma {:induction false} BurstFillsQueue(l: Limits, key: string, n: nat)
    requires n <= Cap(l, key)
    ensures Queue(StoreAfter(l, Burst(key, n)), key) == Zeros(n)
    ensures History(l, Burst(key, n), key) == Zeros(n)
  {
    if n > 0 {
      BurstFillsQueue(l, key, n - 1);
      RoomAdmits(l, Burst(key, n - 1), key, 0);
    }
  }

  lemma {:induction false} AllRecent(n: nat, duration: int, now: int)
    requires now < duration
    ensures Recent(Zeros(n), duration, now) == n
  {
    if n > 0 {
      assert Zeros(n)[..n-1] == Zeros(n - 1);
      AllRecent(n - 1, duration, now);
    }
  }

  /**
   The bound on the duration is exact: for any longer duration there is a run in which a sweep
   makes the limiter admit a request that a full history would refuse.
   */
  lemma {:induction false} LongerDurationIsForgotten(l: Limits, key: string) returns (events: seq<Event>, now: int)
    requires l.expiration >= 0 && l.duration(key) > l.expiration + 1
    ensures Monotone(events) && (events != [] ==> events[|events|-1].now <= now)
    ensures AdmittedAt(l, events, key, now)
    ensures Recent(History(l, events, key), l.duration(key), now) >= Cap(l, key)
  {
    var n := Cap(l, key);
    var burst := Burst(key, n);
    now := l.expiration + 1;
    BurstEvents(key, n);
    BurstFillsQueue(l, key, n);
    events := burst + [Sweep(now)];
    assert events[..n] == burst;
    AllRecent(n, l.duration(key), now);
  }
}
