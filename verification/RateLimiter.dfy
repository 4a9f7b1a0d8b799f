/** The sliding-window rate limiter (internal/server/middleware.go). */
module RateLimiter {
  import opened Common

  type Client = string

  /** Nanoseconds. */
  type Time = int

  const MINUTE: Time := 60_000_000_000

  /** An admitted request. */
  datatype Admission = Admission(client: Client, time: Time)

  /** A request arriving. */
  datatype Arrival = Arrival(client: Client, now: Time)

  // --- Without forgetting --------------------------------------------------------------

  /** How many of a client's requests were admitted after a moment. */
  ghost function CountAfter(history: seq<Admission>, client: Client, cutoff: Time): nat {
    if history == [] then 0 else
      var a := history[|history| - 1];
      CountAfter(history[..|history| - 1], client, cutoff) + if a.client == client && a.time > cutoff then 1 else 0
  }

  /** Whether a request is admitted, judged by everything admitted so far. */
  ghost predicate Admits(history: seq<Admission>, limit: int, window: Time, a: Arrival) {
    CountAfter(history, a.client, a.now - window) < limit
  }

  /** Everything admitted from a list of arrivals. */
  ghost function History(arrivals: seq<Arrival>, limit: int, window: Time): seq<Admission> {
    if arrivals == [] then [] else
      var before := History(arrivals[..|arrivals| - 1], limit, window);
      var a := arrivals[|arrivals| - 1];
      if Admits(before, limit, window, a) then before + [Admission(a.client, a.now)] else before
  }

  /** The clock never runs backwards. */
  ghost predicate InTime(arrivals: seq<Arrival>) {
    forall i, j :: 0 <= i < j < |arrivals| ==> arrivals[i].now <= arrivals[j].now
  }

  // --- The middleware ---------------------------------------------------------------------

  function CountRecent(times: seq<Time>, cutoff: Time): nat {
    if times == [] then 0
    else CountRecent(times[..|times| - 1], cutoff) + if times[|times| - 1] > cutoff then 1 else 0
  }

  function TimesOf(requests: map<Client, seq<Time>>, client: Client): seq<Time> {
    if client in requests then requests[client] else []
  }

  lemma {:induction false} CountShrinks(times: seq<Time>, low: Time, high: Time)
    requires low <= high
    ensures CountRecent(times, high) <= CountRecent(times, low)
  {
    if times != [] { CountShrinks(times[..|times| - 1], low, high); }
  }

  lemma {:induction false} CountGrows(times: seq<Time>, n: nat, cutoff: Time)
    requires n <= |times|
    ensures CountRecent(times[..n], cutoff) <= CountRecent(times, cutoff)
  {
    var k := |times| - 1;
    if n == |times| {
      assert times[..n] == times;
    } else {
      assert times[..k][..n] == times[..n];
      CountGrows(times[..k], n, cutoff);
    }
  }

  lemma HistoryNext(arrivals: seq<Arrival>, limit: int, window: Time, a: Arrival)
    ensures var before := History(arrivals, limit, window);
      History(arrivals + [a], limit, window)
      == if Admits(before, limit, window, a) then before + [Admission(a.client, a.now)] else before
  {
    assert (arrivals + [a])[..|arrivals|] == arrivals;
  }

  /** Remembering an admission counts like recording it. */
  lemma CountAdmitted(times: seq<Time>, now: Time, history: seq<Admission>, a: Admission, client: Client, cutoff: Time)
    requires a.time == now
    ensures CountRecent(times + [now], cutoff) == CountRecent(times, cutoff) + if now > cutoff then 1 else 0
    ensures CountAfter(history + [a], client, cutoff)
      == CountAfter(history, client, cutoff) + if a.client == client && now > cutoff then 1 else 0
  {
    assert (times + [now])[..|times|] == times;
    assert (history + [a])[..|history|] == history;
  }

  /** From a moment on, what is remembered counts like the whole history. */
  ghost predicate Remembers(requests: map<Client, seq<Time>>, history: seq<Admission>, since: Time) {
    forall client, cutoff :: cutoff >= since ==>
      CountRecent(TimesOf(requests, client), cutoff) == CountAfter(history, client, cutoff)
  }

  function Cleaned(requests: map<Client, seq<Time>>, cutoff: Time): map<Client, seq<Time>> {
    map c | c in requests && CountRecent(requests[c], cutoff) > 0 :: requests[c]
  }

  /** A cleanup forgets nothing that still counts. */
  lemma CleanedRemembers(requests: map<Client, seq<Time>>, history: seq<Admission>, since: Time, cutoff: Time)
    requires Remembers(requests, history, since) && since <= cutoff
    ensures Remembers(Cleaned(requests, cutoff), history, cutoff)
  {
    forall client, c | c >= cutoff
      ensures CountRecent(TimesOf(Cleaned(requests, cutoff), client), c) == CountAfter(history, client, c)
    {
      CountShrinks(TimesOf(requests, client), cutoff, c);
      assert CountRecent(TimesOf(requests, client), c) == CountAfter(history, client, c);
    }
  }

  lemma AdmittedRemembers(requests: map<Client, seq<Time>>, history: seq<Admission>, since: Time, a: Admission)
    requires Remembers(requests, history, since)
    ensures Remembers(requests[a.client := TimesOf(requests, a.client) + [a.time]], history + [a], since)
  {
    var after := requests[a.client := TimesOf(requests, a.client) + [a.time]];
    forall client, c | c >= since
      ensures CountRecent(TimesOf(after, client), c) == CountAfter(history + [a], client, c)
    {
      CountAdmitted(TimesOf(requests, client), a.time, history, a, client, c);
      assert CountRecent(TimesOf(requests, client), c) == CountAfter(history, client, c);
    }
  }

  method CountTimes(times: seq<Time>, cutoff: Time) returns (count: nat)
    ensures count == CountRecent(times, cutoff)
  {
    count := 0;
    for i := 0 to |times|
      invariant count == CountRecent(times[..i], cutoff)
    {
      assert times[..i + 1][..i] == times[..i];
      if times[i] > cutoff { count := count + 1; }
    }
    assert times[..|times|] == times;
  }

  class RateLimitMiddleware {
    const limit: int
    const window: Time
    var requests: map<Client, seq<Time>>
    var lastClean: Time
    ghost var arrivals: seq<Arrival>
    ghost var clock: Time

    ghost predicate Valid()
      reads this
    {
      lastClean <= clock && Remembers(requests, History(arrivals, limit, window), lastClean - window)
    }

    constructor (limit: int, window: Time, now: Time)
      ensures Valid() && arrivals == [] && clock == now && this.limit == limit && this.window == window
    {
      this.limit, this.window := limit, window;
      requests, lastClean, arrivals, clock := map[], now, [], now;
    }

    /** One request: its answer is that of the whole history. */
    method Limit(clientId: Client, now: Time) returns (admitted: bool)
      requires Valid() && now >= clock
      modifies this
      ensures Valid() && clock == now && arrivals == old(arrivals) + [Arrival(clientId, now)]
      ensures admitted <==> Admits(History(old(arrivals), limit, window), limit, window, Arrival(clientId, now))
    {
      CleanIfDue(now);
      var times := TimesOf(requests, clientId);
      var count := CountTimes(times, now - window);
      admitted := count < limit;
      Record(clientId, now, admitted);
    }

    /** The periodic cleanup, which leaves the history as it was. */
    method CleanIfDue(now: Time)
      requires Valid() && now >= clock
      modifies this
      ensures Valid() && clock == now && arrivals == old(arrivals)
    {
      clock := now;
      if now - lastClean > MINUTE {
        ghost var history := History(arrivals, limit, window);
        ghost var kept := Cleaned(requests, now - window);
        CleanedRemembers(requests, history, lastClean - window, now - window);
        CleanupOldClients(now);
        assert requests == kept;
        lastClean := now;
        assert Remembers(kept, history, lastClean - window);
      }
    }

    method Record(clientId: Client, now: Time, admitted: bool)
      requires Valid() && clock == now
      requires admitted <==> Admits(History(arrivals, limit, window), limit, window, Arrival(clientId, now))
      modifies this
      ensures Valid() && clock == now && arrivals == old(arrivals) + [Arrival(clientId, now)]
    {
      ghost var history := History(arrivals, limit, window);
      HistoryNext(arrivals, limit, window, Arrival(clientId, now));
      arrivals := arrivals + [Arrival(clientId, now)];
      if admitted {
        AdmittedRemembers(requests, history, lastClean - window, Admission(clientId, now));
        requests := requests[clientId := TimesOf(requests, clientId) + [now]];
      }
    }

    /** Forgets the clients without a recent request. */
    method CleanupOldClients(now: Time)
      modifies `requests
      ensures requests == Cleaned(old(requests), now - window)
    {
      var cutoff := now - window;
      var rest := requests.Keys;
      while rest != {}
        invariant rest <= old(requests).Keys
        invariant requests == map c | c in old(requests)
          && (c in rest || CountRecent(old(requests)[c], cutoff) > 0) :: old(requests)[c]
      {
        var clientId :| clientId in rest;
        var times := requests[clientId];
        var hasRecent := false;
        for i := 0 to |times|
          invariant !hasRecent && CountRecent(times[..i], cutoff) == 0
        {
          assert times[..i + 1][..i] == times[..i];
          if times[i] > cutoff {
            hasRecent := true;
            CountGrows(times, i + 1, cutoff);
            break;
          }
        }
        assert times[..|times|] == times;
        if !hasRecent { requests := requests - {clientId}; }
        rest := rest - {clientId};
      }
    }
  }

  // --- The bound -------------------------------------------------------------------------------

  /** How many of a client's admissions fall on the given times. */
  ghost function CountAmong(history: seq<Admission>, client: Client, among: Time -> bool): nat {
    if history == [] then 0 else
      var a := history[|history| - 1];
      CountAmong(history[..|history| - 1], client, among) + if a.client == client && among(a.time) then 1 else 0
  }

  /** Times less than a window apart from each other. */
  ghost predicate Close(among: Time -> bool, window: Time) {
    forall s, t :: among(s) && among(t) ==> t - s < window
  }

  lemma {:induction false} AmongRecent(history: seq<Admission>, client: Client, among: Time -> bool, cutoff: Time)
    requires forall t :: among(t) ==> t > cutoff
    ensures CountAmong(history, client, among) <= CountAfter(history, client, cutoff)
  {
    if history != [] { AmongRecent(history[..|history| - 1], client, among, cutoff); }
  }

  /** Main result: of requests less than a window apart from each other, no client
      ever has more than the limit admitted. */
  lemma {:induction false} RateBound(arrivals: seq<Arrival>, limit: int, window: Time, client: Client,
                                     among: Time -> bool)
    requires Close(among, window)
    ensures CountAmong(History(arrivals, limit, window), client, among) <= if limit > 0 then limit else 0
  {
    if arrivals != [] {
      var k := |arrivals| - 1;
      var a, before := arrivals[k], History(arrivals[..k], limit, window);
      RateBound(arrivals[..k], limit, window, client, among);
      if Admits(before, limit, window, a) && a.client == client && among(a.now) {
        AmongRecent(before, client, among, a.now - window);
        assert (before + [Admission(a.client, a.now)])[..|before|] == before;
      } else if Admits(before, limit, window, a) {
        assert (before + [Admission(a.client, a.now)])[..|before|] == before;
      }
    }
  }

  function Within(low: Time, high: Time): Time -> bool { t => low <= t <= high }

  /** In particular in every half-open interval of one window. */
  lemma IntervalBound(arrivals: seq<Arrival>, limit: int, window: Time, client: Client, start: Time)
    ensures CountAmong(History(arrivals, limit, window), client, Within(start + 1, start + window))
      <= if limit > 0 then limit else 0
    ensures CountAmong(History(arrivals, limit, window), client, Within(start, start + window - 1))
      <= if limit > 0 then limit else 0
  {
    RateBound(arrivals, limit, window, client, Within(start + 1, start + window));
    RateBound(arrivals, limit, window, client, Within(start, start + window - 1));
  }

  // --- What a refusal means ------------------------------------------------------------------

  lemma {:induction false} AdmittedInTime(arrivals: seq<Arrival>, limit: int, window: Time, now: Time)
    requires AllBefore(arrivals, now)
    ensures forall a :: a in History(arrivals, limit, window) ==> a.time <= now
  {
    if arrivals != [] { AdmittedInTime(arrivals[..|arrivals| - 1], limit, window, now); }
  }

  lemma {:induction false} RecentIs(history: seq<Admission>, client: Client, cutoff: Time, now: Time)
    requires forall a :: a in history ==> a.time <= now
    ensures CountAfter(history, client, cutoff) == CountAmong(history, client, Within(cutoff + 1, now))
  {
    if history != [] { RecentIs(history[..|history| - 1], client, cutoff, now); }
  }

  lemma NoneLater(arrivals: seq<Arrival>, a: Arrival)
    requires InTime(arrivals + [a])
    ensures AllBefore(arrivals, a.now)
  {
    var all := arrivals + [a];
    forall i | 0 <= i < |arrivals| ensures arrivals[i].now <= a.now { assert all[i].now <= all[|arrivals|].now; }
  }

  ghost predicate AllBefore(arrivals: seq<Arrival>, now: Time) {
    forall i :: 0 <= i < |arrivals| ==> arrivals[i].now <= now
  }

  /** A request is refused exactly when its client had the whole limit admitted within
      one window up to now. */
  lemma RefusedWhenFull(arrivals: seq<Arrival>, limit: int, window: Time, a: Arrival)
    requires InTime(arrivals + [a])
    ensures var history := History(arrivals, limit, window);
      Admits(history, limit, window, a) <==> CountAmong(history, a.client, Within(a.now - window + 1, a.now)) < limit
  {
    NoneLater(arrivals, a);
    AdmittedInTime(arrivals, limit, window, a.now);
    RecentIs(History(arrivals, limit, window), a.client, a.now - window, a.now);
  }

  function ByClient(client: Client): Admission -> bool { (a: Admission) => a.client == client }

  function FromClient(client: Client): Arrival -> bool { (a: Arrival) => a.client == client }

  lemma CountNext(history: seq<Admission>, a: Admission, client: Client, cutoff: Time)
    ensures CountAfter(history + [a], client, cutoff)
      == CountAfter(history, client, cutoff) + if a.client == client && a.time > cutoff then 1 else 0
  {
    assert (history + [a])[..|history|] == history;
  }

  lemma {:induction false} CountOwn(history: seq<Admission>, client: Client, cutoff: Time)
    ensures CountAfter(Filter(ByClient(client), history), client, cutoff) == CountAfter(history, client, cutoff)
  {
    if history != [] {
      var k := |history| - 1;
      var front, last := history[..k], history[k];
      CountOwn(front, client, cutoff);
      assert history == front + [last];
      FilterSnoc(ByClient(client), front, last);
      CountNext(front, last, client, cutoff);
      CountNext(Filter(ByClient(client), front), last, client, cutoff);
      assert ByClient(client)(last) <==> last.client == client;
      if last.client != client { assert Filter(ByClient(client), history) == Filter(ByClient(client), front); }
    }
  }

  /** The history of one client's arrivals is the client's part of the history. */
  ghost predicate Apart(arrivals: seq<Arrival>, limit: int, window: Time, client: Client) {
    Filter(ByClient(client), History(arrivals, limit, window))
    == History(Filter(FromClient(client), arrivals), limit, window)
  }

  lemma OtherArrives(arrivals: seq<Arrival>, limit: int, window: Time, client: Client, a: Arrival)
    requires Apart(arrivals, limit, window, client) && a.client != client
    ensures Apart(arrivals + [a], limit, window, client)
  {
    HistoryNext(arrivals, limit, window, a);
    FilterSnoc(FromClient(client), arrivals, a);
    FilterSnoc(ByClient(client), History(arrivals, limit, window), Admission(a.client, a.now));
    assert !FromClient(client)(a) && !ByClient(client)(Admission(a.client, a.now));
    assert Filter(FromClient(client), arrivals + [a]) == Filter(FromClient(client), arrivals);
  }

  lemma OwnArrives(arrivals: seq<Arrival>, limit: int, window: Time, a: Arrival)
    requires Apart(arrivals, limit, window, a.client)
    ensures Apart(arrivals + [a], limit, window, a.client)
  {
    var history, own := History(arrivals, limit, window), Filter(FromClient(a.client), arrivals);
    var admission := Admission(a.client, a.now);
    HistoryNext(arrivals, limit, window, a);
    HistoryNext(own, limit, window, a);
    FilterSnoc(FromClient(a.client), arrivals, a);
    FilterSnoc(ByClient(a.client), history, admission);
    assert FromClient(a.client)(a) && ByClient(a.client)(admission);
    OwnDecision(history, limit, window, a);
    assert Filter(FromClient(a.client), arrivals + [a]) == own + [a];
  }

  lemma OwnDecision(history: seq<Admission>, limit: int, window: Time, a: Arrival)
    ensures Admits(Filter(ByClient(a.client), history), limit, window, a) <==> Admits(history, limit, window, a)
  {
    CountOwn(history, a.client, a.now - window);
  }

  /** Clients do not disturb each other: what a client gets admitted is what it would
      get admitted alone. */
  lemma {:induction false} ClientsApart(arrivals: seq<Arrival>, limit: int, window: Time, client: Client)
    ensures Apart(arrivals, limit, window, client)
  {
    if arrivals != [] {
      var k := |arrivals| - 1;
      ClientsApart(arrivals[..k], limit, window, client);
      assert arrivals == arrivals[..k] + [arrivals[k]];
      if arrivals[k].client == client {
        OwnArrives(arrivals[..k], limit, window, arrivals[k]);
      } else {
        OtherArrives(arrivals[..k], limit, window, client, arrivals[k]);
      }
    }
  }

  // --- Where the bound ends ----------------------------------------------------------------

  lemma {:induction false} CountAtMost(history: seq<Admission>, client: Client, cutoff: Time)
    ensures CountAfter(history, client, cutoff) <= |history|
  {
    if history != [] { CountAtMost(history[..|history| - 1], client, cutoff); }
  }

  /** Requests of one client at one moment. */
  ghost predicate Burst(arrivals: seq<Arrival>, client: Client, s: Time) {
    forall i :: 0 <= i < |arrivals| ==> arrivals[i] == Arrival(client, s)
  }

  /** What a list of admissions holds of a client, all of it on the given times
      and none of it after the cutoff. */
  ghost predicate Holds(history: seq<Admission>, n: nat, client: Client, among: Time -> bool, cutoff: Time) {
    |history| == n == CountAmong(history, client, among) && CountAfter(history, client, cutoff) == 0
  }

  lemma HoldsOneMore(history: seq<Admission>, a: Admission, n: nat, among: Time -> bool, cutoff: Time)
    requires Holds(history, n, a.client, among, cutoff) && among(a.time) && a.time <= cutoff
    ensures Holds(history + [a], n + 1, a.client, among, cutoff)
  {
    assert (history + [a])[..|history|] == history;
  }

  /** A burst is admitted as long as it does not exceed the limit. */
  lemma {:induction false} BurstAdmitted(arrivals: seq<Arrival>, limit: int, window: Time, client: Client,
                                         among: Time -> bool, s: Time, cutoff: Time)
    requires |arrivals| <= limit && Burst(arrivals, client, s) && among(s) && s <= cutoff
    ensures Holds(History(arrivals, limit, window), |arrivals|, client, among, cutoff)
  {
    if arrivals != [] {
      var k := |arrivals| - 1;
      var before := History(arrivals[..k], limit, window);
      BurstAdmitted(arrivals[..k], limit, window, client, among, s, cutoff);
      CountAtMost(before, client, s - window);
      HoldsOneMore(before, Admission(client, s), k, among, cutoff);
    }
  }

  /** A burst of `limit` requests and one more that no longer counts them. */
  lemma Exceeds(limit: int, window: Time, client: Client, among: Time -> bool, s: Time, t: Time)
    requires limit > 0 && s <= t && t - s >= window && among(s) && among(t)
    ensures var arrivals := seq(limit, _ => Arrival(client, s)) + [Arrival(client, t)];
      InTime(arrivals) && CountAmong(History(arrivals, limit, window), client, among) == limit + 1
  {
    var burst := seq(limit, _ => Arrival(client, s));
    var before := History(burst, limit, window);
    BurstAdmitted(burst, limit, window, client, among, s, t - window);
    HistoryNext(burst, limit, window, Arrival(client, t));
    OneMoreAmong(before, Admission(client, t), among);
    BurstInTime(burst, client, s, t);
  }

  lemma OneMoreAmong(history: seq<Admission>, a: Admission, among: Time -> bool)
    requires among(a.time)
    ensures CountAmong(history + [a], a.client, among) == CountAmong(history, a.client, among) + 1
  {
    assert (history + [a])[..|history|] == history;
  }

  lemma BurstInTime(burst: seq<Arrival>, client: Client, s: Time, t: Time)
    requires Burst(burst, client, s) && s <= t
    ensures InTime(burst + [Arrival(client, t)])
  {}

  /** In every run with a clock that never runs back the times hold no more than
      the limit of a client's admissions. */
  ghost predicate Bounds(limit: int, window: Time, client: Client, among: Time -> bool) {
    forall arrivals :: InTime(arrivals) ==>
      CountAmong(History(arrivals, limit, window), client, among) <= if limit > 0 then limit else 0
  }

  /** Main result: exactly on times less than a window apart from each other the
      limit holds in every run; a limit below one admits nothing anywhere. */
  lemma BoundIff(limit: int, window: Time, client: Client, among: Time -> bool)
    ensures Bounds(limit, window, client, among) <==> limit <= 0 || Close(among, window)
  {
    if limit <= 0 {
      forall arrivals ensures CountAmong(History(arrivals, limit, window), client, among) == 0 {
        NothingAdmitted(arrivals, limit, window);
      }
    } else if Close(among, window) {
      forall arrivals ensures CountAmong(History(arrivals, limit, window), client, among) <= limit {
        RateBound(arrivals, limit, window, client, among);
      }
    } else {
      var s, t :| among(s) && among(t) && t - s >= window;
      if s <= t { Exceeds(limit, window, client, among, s, t); } else { Exceeds(limit, window, client, among, s, s); }
    }
  }

  lemma {:induction false} NothingAdmitted(arrivals: seq<Arrival>, limit: int, window: Time)
    requires limit <= 0
    ensures History(arrivals, limit, window) == []
  {
    if arrivals != [] { NothingAdmitted(arrivals[..|arrivals| - 1], limit, window); }
  }

  /** So a closed interval of one window may hold more than the limit: a request
      exactly one window old no longer counts. */
  lemma ClosedInterval(limit: int, window: Time, client: Client, start: Time)
    requires limit > 0 && window > 0
    ensures !Bounds(limit, window, client, Within(start, start + window))
    ensures Bounds(limit, window, client, Within(start, start + window - 1))
  {
    BoundIff(limit, window, client, Within(start, start + window));
    BoundIff(limit, window, client, Within(start, start + window - 1));
    assert Within(start, start + window)(start) && Within(start, start + window)(start + window);
  }
}
