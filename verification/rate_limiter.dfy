/** `SecurityMiddleware.checkRateLimit`: a fixed-window limiter over a map from
    client identifier to `{count, resetTime}`. The clock `now` (milliseconds,
    `Date.now()` in the source) is a parameter. `Check` is the specification
    of one call; `RateLimiter` is the mutable limiter whose method is proved
    against it. */
module RateLimit {
  import opened Common

  /** Fifteen minutes. */
  const WindowMs := 15 * 60 * 1000
  const MaxRequests := 100

  datatype Entry = Entry(count: int, resetTime: int)

  /** The limiter's answer; `retryAfter` is in seconds and present only on refusal. */
  datatype Verdict = Verdict(allowed: bool, retryAfter: Option<int>)

  /** `Math.ceil(ms / 1000)` for an integral `ms`. */
  function CeilSeconds(ms: int): (r: int)
    ensures 1000 * (r - 1) < ms <= 1000 * r
  {
    (ms + 999) / 1000
  }

  /** What the cleanup sweep leaves: the entries whose window has not ended. */
  function Swept(store: map<string, Entry>, now: int): (r: map<string, Entry>)
    ensures r.Keys <= store.Keys
    ensures forall id :: id in r ==> r[id] == store[id] && now <= r[id].resetTime
    ensures forall id :: id in store && now <= store[id].resetTime ==> id in r
  {
    map id | id in store && !(now > store[id].resetTime) :: store[id]
  }

  /** One call of `checkRateLimit(clientId)` at time `now`: the verdict and the new map. */
  function Check(store: map<string, Entry>, clientId: string, now: int): (Verdict, map<string, Entry>)
  {
    var s := Swept(store, now);
    if clientId !in s then
      (Verdict(true, None), s[clientId := Entry(1, now + WindowMs)])
    else if now > s[clientId].resetTime then
      (Verdict(true, None), s[clientId := Entry(1, now + WindowMs)])
    else if s[clientId].count >= MaxRequests then
      (Verdict(false, Some(CeilSeconds(s[clientId].resetTime - now))), s)
    else
      (Verdict(true, None), s[clientId := s[clientId].(count := s[clientId].count + 1)])
  }

  /** What one call decides and leaves behind. */
  lemma CheckOutcome(store: map<string, Entry>, clientId: string, now: int)
    // A call is refused exactly when the client's live entry is at the
    // threshold, and only a refusal carries a retry delay.
    ensures var (v, r) := Check(store, clientId, now);
            (v.allowed <==> clientId !in Swept(store, now) || Swept(store, now)[clientId].count < MaxRequests)
            && (v.allowed <==> v.retryAfter.None?)
    // Expired entries are dropped, the caller always has an entry afterwards,
    // and no other client's entry changes.
    ensures var r := Check(store, clientId, now).1;
            r.Keys == Swept(store, now).Keys + {clientId}
            && forall id :: id in r && id != clientId ==> r[id] == store[id]
    // A refusal changes nothing beyond the sweep; an allowed call counts itself.
    ensures var (v, r) := Check(store, clientId, now);
            && (!v.allowed ==> r == Swept(store, now))
            && (v.allowed ==>
                  r[clientId].count ==
                    (if clientId in Swept(store, now) then Swept(store, now)[clientId].count + 1 else 1))
  {
  }

  /** Every stored count lies between 1 and the threshold. */
  ghost predicate CountsBounded(store: map<string, Entry>) {
    forall id :: id in store ==> 1 <= store[id].count <= MaxRequests
  }

  /** A client without a live entry (none, or one whose window has ended) is
      allowed and gets a fresh window with count 1. */
  lemma NewWindow(store: map<string, Entry>, clientId: string, now: int)
    requires clientId !in store || now > store[clientId].resetTime
    ensures Check(store, clientId, now).0 == Verdict(true, None)
    ensures Check(store, clientId, now).1 == Swept(store, now)[clientId := Entry(1, now + WindowMs)]
  {
  }

  /** After the sweep the expired-window branch cannot be taken. */
  lemma ExpiredBranchUnreachable(store: map<string, Entry>, clientId: string, now: int)
    requires clientId in Swept(store, now)
    ensures !(now > Swept(store, now)[clientId].resetTime)
  {
  }

  /** Every call keeps every stored count within [1, MaxRequests]. */
  lemma CheckKeepsCountsBounded(store: map<string, Entry>, clientId: string, now: int)
    requires CountsBounded(store)
    ensures CountsBounded(Check(store, clientId, now).1)
  {
  }

  /** Within a live window below the threshold, the call is allowed and adds
      exactly one to that client's count; every other client's entry is what
      the sweep left. */
  lemma AllowedIncrements(store: map<string, Entry>, clientId: string, now: int)
    requires clientId in store && now <= store[clientId].resetTime
    requires store[clientId].count < MaxRequests
    ensures Check(store, clientId, now).0 == Verdict(true, None)
    ensures var r := Check(store, clientId, now).1;
            clientId in r && r[clientId] == store[clientId].(count := store[clientId].count + 1)
    ensures var r := Check(store, clientId, now).1;
            forall id :: id != clientId ==>
              (id in r <==> id in Swept(store, now)) && (id in r ==> r[id] == store[id])
  {
  }

  /** At the threshold within a live window, the call is refused, the entry is
      left as it is, and `retryAfter` is the remaining window in whole seconds
      (rounded up), between 0 and 900 for an entry created at or before `now`. */
  lemma RefusalAtThreshold(store: map<string, Entry>, clientId: string, now: int)
    requires clientId in store && now <= store[clientId].resetTime
    requires store[clientId].count >= MaxRequests
    ensures var v := Check(store, clientId, now).0;
            !v.allowed && v.retryAfter == Some(CeilSeconds(store[clientId].resetTime - now))
    ensures Check(store, clientId, now).1 == Swept(store, now)
    ensures store[clientId].resetTime <= now + WindowMs ==>
              0 <= Check(store, clientId, now).0.retryAfter.value <= 900
  {
  }

  /** `n` calls from one client with the clock standing still: the verdicts in
      order, and the map after the last one. */
  function Burst(store: map<string, Entry>, clientId: string, now: int, n: nat): (seq<Verdict>, map<string, Entry>)
  {
    if n == 0 then ([], store)
    else
      var (verdicts, m) := Burst(store, clientId, now, n - 1);
      var (v, m') := Check(m, clientId, now);
      (verdicts + [v], m')
  }

  /** Starting without a live entry and with a fixed clock, each call adds
      one verdict and the entry counts the allowed calls, up to 100. */
  lemma {:induction false} BurstEntry(store: map<string, Entry>, clientId: string, now: int, n: nat)
    requires clientId !in store || now > store[clientId].resetTime
    ensures |Burst(store, clientId, now, n).0| == n
    ensures n > 0 ==>
              var m := Burst(store, clientId, now, n).1;
              clientId in m && m[clientId] == Entry(if n < MaxRequests then n else MaxRequests, now + WindowMs)
  {
    if n > 0 {
      BurstEntry(store, clientId, now, n - 1);
      var m := Burst(store, clientId, now, n - 1).1;
      if n == 1 {
        NewWindow(m, clientId, now);
      } else if n - 1 < MaxRequests {
        AllowedIncrements(m, clientId, now);
      } else {
        RefusalAtThreshold(m, clientId, now);
      }
    }
  }

  /** The verdict the `n`th call of such a burst adds. */
  lemma BurstStep(store: map<string, Entry>, clientId: string, now: int, n: nat)
    requires clientId !in store || now > store[clientId].resetTime
    requires n > 0
    ensures Burst(store, clientId, now, n).0 ==
              Burst(store, clientId, now, n - 1).0
              + [if n - 1 < MaxRequests then Verdict(true, None) else Verdict(false, Some(900))]
  {
    BurstEntry(store, clientId, now, n - 1);
    var m := Burst(store, clientId, now, n - 1).1;
    if n == 1 {
      NewWindow(m, clientId, now);
    } else if n - 1 < MaxRequests {
      assert clientId in Swept(m, now) && Swept(m, now)[clientId].count < MaxRequests;
    } else {
      RefusalAtThreshold(m, clientId, now);
    }
  }

  /** Starting without a live entry and with a fixed clock, the first 100
      calls are allowed and every later one is refused with a 900-second
      retry. */
  lemma {:induction false} BurstThreshold(store: map<string, Entry>, clientId: string, now: int, n: nat)
    requires clientId !in store || now > store[clientId].resetTime
    ensures |Burst(store, clientId, now, n).0| == n
    ensures forall k :: 0 <= k < n ==>
              Burst(store, clientId, now, n).0[k] ==
                (if k < MaxRequests then Verdict(true, None) else Verdict(false, Some(900)))
  {
    BurstEntry(store, clientId, now, n);
    if n > 0 {
      BurstThreshold(store, clientId, now, n - 1);
      BurstStep(store, clientId, now, n);
    }
  }

  /** The 100th call in one window is allowed and the 101st is refused. */
  lemma HundredthAllowedHundredFirstRefused(store: map<string, Entry>, clientId: string, now: int)
    requires clientId !in store || now > store[clientId].resetTime
    ensures |Burst(store, clientId, now, 101).0| == 101
    ensures Burst(store, clientId, now, 101).0[99].allowed
    ensures !Burst(store, clientId, now, 101).0[100].allowed
  {
    BurstThreshold(store, clientId, now, 101);
  }

  /** The limiter's mutable state. `clock` is the latest time seen, kept only
      for the proof: every window ends at most `WindowMs` after it. */
  class RateLimiter {
    var store: map<string, Entry>
    ghost var clock: int

    ghost predicate Valid()
      reads this
    {
      && CountsBounded(store)
      && forall id :: id in store ==> store[id].resetTime <= clock + WindowMs
    }

    constructor ()
      ensures Valid() && store == map[]
    {
      store := map[];
      clock := 0;
    }

    /** The cleanup loop: visits every entry once and deletes the expired ones.
        Deleting entries keeps the class invariant. */
    method Sweep(now: int)
      requires Valid()
      modifies this`store
      ensures Valid()
      ensures store == Swept(old(store), now)
    {
      var pending := store.Keys;
      while pending != {}
        invariant pending <= old(store).Keys
        invariant forall id :: id in pending ==> id in store
        invariant forall id :: id in store ==> id in old(store) && store[id] == old(store)[id]
        invariant forall id :: id in old(store) && id !in pending ==>
                    (id in store <==> !(now > old(store)[id].resetTime))
        decreases pending
      {
        var id :| id in pending;
        if now > store[id].resetTime {
          store := store - {id};
        }
        pending := pending - {id};
      }
    }

    method CheckRateLimit(clientId: string, now: int) returns (v: Verdict)
      requires Valid()
      modifies this
      ensures Valid()
      ensures (v, store) == Check(old(store), clientId, now)
      ensures clock == if now > old(clock) then now else old(clock)
      ensures !v.allowed && now >= old(clock) ==> v.retryAfter.Some? && 0 <= v.retryAfter.value <= 900
    {
      Sweep(now);
      clock := if now > clock then now else clock;
      // No entry, or (unreachable after the sweep) an expired one: both start
      // a fresh window in the same way.
      if clientId !in store || now > store[clientId].resetTime {
        store := store[clientId := Entry(1, now + WindowMs)];
        return Verdict(true, None);
      }
      var clientData := store[clientId];
      if clientData.count >= MaxRequests {
        return Verdict(false, Some(CeilSeconds(clientData.resetTime - now)));
      }
      store := store[clientId := clientData.(count := clientData.count + 1)];
      return Verdict(true, None);
    }
  }
}
