/** Vector clocks and causality. */
module VectorClock {
  // internal/sync/vector.go, and the clocks of negotiation and commit
  // (internal/sync/engine.go).

  import opened Common

  type Device = string

  const MODULUS: nat := 0x1_0000_0000_0000_0000

  type Counter = x: nat | x < 0x1_0000_0000_0000_0000

  type Counts = map<Device, Counter>

  /** A missing device counts zero. */
  function Get(c: Counts, d: Device): Counter { if d in c then c[d] else 0 }

  datatype Ordering = Before | Equal | After | Concurrent

  // --- The order of clocks ---------------------------------------------------------------

  ghost predicate Leq(a: Counts, b: Counts) {
    forall d :: Get(a, d) <= Get(b, d)
  }

  /** How two clocks compare in the pointwise order. */
  ghost function Order(a: Counts, b: Counts): Ordering {
    if Leq(a, b) then (if Leq(b, a) then Equal else Before)
    else if Leq(b, a) then After else Concurrent
  }

  function Incremented(c: Counts, d: Device): Counts {
    c[d := (Get(c, d) + 1) % MODULUS]
  }

  /** Another clock's counters where they are larger. */
  function Merged(a: Counts, b: Counts): Counts {
    a + map d | d in b && b[d] > Get(a, d) :: b[d]
  }

  /** Merging is the least upper bound. */
  lemma MergedIsLub(a: Counts, b: Counts, bound: Counts)
    ensures Leq(a, Merged(a, b)) && Leq(b, Merged(a, b))
    ensures Leq(a, bound) && Leq(b, bound) ==> Leq(Merged(a, b), bound)
  {
    forall d
      ensures Get(Merged(a, b), d) == if Get(b, d) > Get(a, d) then Get(b, d) else Get(a, d)
    {
      MergedAt(a, b, d);
    }
  }

  lemma MergedAt(a: Counts, b: Counts, d: Device)
    ensures Get(Merged(a, b), d) == if Get(b, d) > Get(a, d) then Get(b, d) else Get(a, d)
  {}

  /** A clock comes before its increment exactly while the counter does not wrap. */
  lemma IncrementAdvances(c: Counts, d: Device)
    ensures Order(c, Incremented(c, d)) == (if Get(c, d) + 1 < MODULUS then Before else After)
  {
    var e := Incremented(c, d);
    assert forall x :: x != d ==> Get(e, x) == Get(c, x);
    assert Get(e, d) == (Get(c, d) + 1) % MODULUS;
  }

  // --- The class ---------------------------------------------------------------------------

  class Clock {
    var counts: Counts

    constructor ()
      ensures counts == map[]
    {
      counts := map[];
    }

    method Increment(deviceId: Device)
      modifies this
      ensures counts == Incremented(old(counts), deviceId)
    {
      counts := counts[deviceId := (Get(counts, deviceId) + 1) % MODULUS];
    }

    method Merge(other: Clock)
      modifies this
      ensures counts == Merged(old(counts), old(other.counts))
    {
      var rest := other.counts.Keys;
      ghost var theirs := other.counts;
      while rest != {}
        invariant rest <= theirs.Keys
        invariant other != this ==> other.counts == theirs
        invariant other == this ==> counts == theirs
        invariant counts == old(counts)
          + map d | d in theirs && d !in rest && theirs[d] > Get(old(counts), d) :: theirs[d]
      {
        var device :| device in rest;
        var counter := other.counts[device];
        if counter > Get(counts, device) { counts := counts[device := counter]; }
        rest := rest - {device};
      }
    }

    method Compare(other: Clock) returns (r: Ordering)
      ensures r == Order(counts, other.counts)
    {
      var superset, subset := false, false;
      var rest := counts.Keys;
      while rest != {}
        invariant rest <= counts.Keys
        invariant superset <==> exists d :: d in counts && d !in rest && counts[d] > Get(other.counts, d)
        invariant subset <==> exists d :: d in counts && d !in rest && counts[d] < Get(other.counts, d)
      {
        var device :| device in rest;
        var counter, otherCounter := counts[device], Get(other.counts, device);
        if counter > otherCounter { superset := true; }
        else if counter < otherCounter { subset := true; }
        rest := rest - {device};
      }
      assert superset <==> !Leq(counts, other.counts) by {
        if d :| Get(counts, d) > Get(other.counts, d) { assert d in counts; }
      }
      rest := other.counts.Keys;
      assert subset <==> exists d :: d in counts && Get(counts, d) < Get(other.counts, d);
      while rest != {}
        invariant rest <= other.counts.Keys
        invariant subset <==> exists d :: Get(counts, d) < Get(other.counts, d) && (d in counts || d !in rest)
      {
        var device :| device in rest;
        if device !in counts && other.counts[device] > 0 { subset := true; }
        rest := rest - {device};
      }
      assert subset <==> !Leq(other.counts, counts);
      r := if !superset && !subset then Equal
           else if superset && !subset then After
           else if !superset && subset then Before
           else Concurrent;
    }

    method Copy() returns (c: Clock)
      ensures fresh(c) && c.counts == counts
    {
      c := new Clock();
      var rest := counts.Keys;
      while rest != {}
        invariant rest <= counts.Keys && fresh(c)
        invariant c.counts == map d | d in counts && d !in rest :: counts[d]
      {
        var device :| device in rest;
        c.counts := c.counts[device := counts[device]];
        rest := rest - {device};
      }
      assert c.counts == counts;
    }
  }

  // --- Negotiation and commit -----------------------------------------------------------------

  /** The clock of a negotiation: the client's own when it is in step, otherwise a
      fresh clock that covers the client's and the one stored for the device. */
  method NegotiateClock(client: Clock, stored: Option<Clock>, synced: bool) returns (answer: Clock)
    ensures client.counts == old(client.counts)
    ensures synced ==> answer == client
    ensures !synced ==> fresh(answer)
    ensures Leq(client.counts, answer.counts)
    ensures !synced && stored.Some? ==> answer.counts == Merged(client.counts, stored.value.counts)
    ensures !synced && stored.None? ==> answer.counts == client.counts
  {
    if synced { return client; }
    answer := client.Copy();
    if stored.Some? {
      MergedIsLub(answer.counts, stored.value.counts, map[]);
      answer.Merge(stored.value);
    }
  }

  /** The clock of a commit: the client's is stored as sent, then advanced. */
  method CommitClock(client: Clock, deviceId: Device) returns (stored: Counts)
    modifies client
    ensures stored == old(client.counts) && client.counts == Incremented(stored, deviceId)
    ensures Get(stored, deviceId) + 1 < MODULUS ==> Order(stored, client.counts) == Before
  {
    stored := client.counts;
    IncrementAdvances(stored, deviceId);
    client.Increment(deviceId);
  }

  // --- Runs of devices ---------------------------------------------------------------------------

  /** What a device does: an event of its own, or taking in the clock another
      event carried. */
  datatype Event = Tick(device: Device) | Receive(device: Device, from: nat)

  /** Messages come from earlier events. */
  ghost predicate Run(events: seq<Event>) {
    |events| < MODULUS && forall i :: 0 <= i < |events| && events[i].Receive? ==> events[i].from < i
  }

  /** The device's last event before position i. */
  ghost function Previous(events: seq<Event>, i: nat, d: Device): (p: Option<nat>)
    requires i <= |events|
    ensures p.Some? ==> p.value < i && events[p.value].device == d
  {
    if i == 0 then None
    else if events[i - 1].device == d then Some(i - 1)
    else Previous(events, i - 1, d)
  }

  /** The clock of an event's device right after the event. */
  ghost function Stamp(events: seq<Event>, i: nat): Counts
    requires Run(events) && i < |events|
  {
    var d := events[i].device;
    var p := Previous(events, i, d);
    var before := if p.None? then map[] else Stamp(events, p.value);
    match events[i]
    case Tick(_) => Incremented(before, d)
    case Receive(_, from) => Merged(before, Stamp(events, from))
  }

  /** One event is another, or causally precedes it: through the events of one
      device, and from an event to the receipt of its clock. */
  ghost predicate Precedes(events: seq<Event>, i: nat, j: nat)
    requires Run(events) && i < |events| && j < |events|
    decreases j
  {
    || i == j
    || (var p := Previous(events, j, events[j].device); p.Some? && Precedes(events, i, p.value))
    || (events[j].Receive? && Precedes(events, i, events[j].from))
  }

  /** How many of the first n events are a device's own. */
  ghost function Ticks(events: seq<Event>, d: Device, n: nat): (r: nat)
    requires n <= |events|
    ensures r <= n
  {
    if n == 0 then 0 else Ticks(events, d, n - 1) + if events[n - 1] == Tick(d) then 1 else 0
  }

  lemma {:induction false} TicksGrow(events: seq<Event>, d: Device, m: nat, n: nat)
    requires m <= n <= |events|
    ensures Ticks(events, d, m) <= Ticks(events, d, n)
  {
    if m < n { TicksGrow(events, d, m, n - 1); }
  }

  /** A device has no events of its own between its last event and position i. */
  lemma {:induction false} TicksIdle(events: seq<Event>, d: Device, i: nat)
    requires i <= |events|
    ensures var p := Previous(events, i, d);
      Ticks(events, d, i) == if p.None? then 0 else Ticks(events, d, p.value + 1)
  {
    if i > 0 && events[i - 1].device != d { TicksIdle(events, d, i - 1); }
  }

  /** A counter is at most the number of its device's events so far, and a device's
      own counter is exactly that number. */
  lemma {:induction false} StampCounts(events: seq<Event>, i: nat, d: Device)
    requires Run(events) && i < |events|
    ensures Get(Stamp(events, i), d) <= Ticks(events, d, i + 1)
    ensures d == events[i].device ==> Get(Stamp(events, i), d) == Ticks(events, d, i + 1)
    decreases i, 1
  {
    var e := events[i];
    var p := Previous(events, i, e.device);
    TicksIdle(events, e.device, i);
    if p.Some? {
      StampCounts(events, p.value, d);
      TicksGrow(events, d, p.value + 1, i);
    }
    var before := if p.None? then map[] else Stamp(events, p.value);
    assert Get(before, d) <= Ticks(events, d, i) && (d == e.device ==> Get(before, d) == Ticks(events, d, i));
    if e.Receive? { ReceiveCounts(events, i, p, d); } else { TickCounts(events, i, before, d); }
  }

  /** An own event adds one, and does not wrap around while there is room. */
  lemma TickCounts(events: seq<Event>, i: nat, before: Counts, d: Device)
    requires Run(events) && i < |events| && events[i].Tick?
    requires Get(before, d) <= Ticks(events, d, i)
    requires d == events[i].device ==> Get(before, d) == Ticks(events, d, i)
    ensures Get(Incremented(before, events[i].device), d) <= Ticks(events, d, i + 1)
    ensures d == events[i].device ==> Get(Incremented(before, events[i].device), d) == Ticks(events, d, i + 1)
  {}

  /** A receipt takes the greater of its device's counter and the sender's. */
  lemma {:induction false} ReceiveCounts(events: seq<Event>, i: nat, p: Option<nat>, d: Device)
    requires Run(events) && i < |events| && events[i].Receive? && p == Previous(events, i, events[i].device)
    ensures var before := if p.None? then map[] else Stamp(events, p.value);
      && Get(Stamp(events, i), d) == (if Get(Stamp(events, events[i].from), d) > Get(before, d)
                                      then Get(Stamp(events, events[i].from), d) else Get(before, d))
      && Get(Stamp(events, events[i].from), d) <= Ticks(events, d, i)
    decreases i, 0
  {
    var e := events[i];
    StampCounts(events, e.from, d);
    TicksGrow(events, d, e.from + 1, i);
    MergedAt(if p.None? then map[] else Stamp(events, p.value), Stamp(events, e.from), d);
  }

  lemma {:induction false} PrecedesOrder(events: seq<Event>, i: nat, j: nat)
    requires Run(events) && i < |events| && j < |events| && Precedes(events, i, j)
    ensures i <= j
    decreases j
  {
    if i != j {
      var p := Previous(events, j, events[j].device);
      if p.Some? && Precedes(events, i, p.value) { PrecedesOrder(events, i, p.value); }
      else { PrecedesOrder(events, i, events[j].from); }
    }
  }

  /** The counters of a clock tell which events came before: the n-th event of a
      device precedes j exactly when j's counter for the device has reached n. */
  lemma {:induction false} CounterIff(events: seq<Event>, k: nat, j: nat)
    requires Run(events) && k < |events| && j < |events| && events[k].Tick?
    ensures Precedes(events, k, j) <==>
      Ticks(events, events[k].device, k + 1) <= Get(Stamp(events, j), events[k].device)
    decreases j
  {
    var d, e := events[k].device, events[j];
    var number := Ticks(events, d, k + 1);
    var p := Previous(events, j, e.device);
    var before := if p.None? then map[] else Stamp(events, p.value);
    StampCounts(events, j, d);
    if k > j {
      if Precedes(events, k, j) { PrecedesOrder(events, k, j); }
      TicksGrow(events, d, j + 1, k);
    } else {
      if p.Some? { CounterIff(events, k, p.value); }
      if e.Receive? {
        CounterIff(events, k, e.from);
        MergedAt(before, Stamp(events, e.from), d);
      } else if e.device == d && k < j {
        TicksGrow(events, d, k + 1, j);
        TicksIdle(events, d, j);
        if p.Some? { StampCounts(events, p.value, d); }
      }
    }
  }

  /** Clocks grow along causality. */
  lemma {:induction false} StampGrows(events: seq<Event>, i: nat, j: nat)
    requires Run(events) && i < |events| && j < |events| && Precedes(events, i, j)
    ensures Leq(Stamp(events, i), Stamp(events, j))
    decreases j
  {
    if i != j {
      var p := Previous(events, j, events[j].device);
      var before := if p.None? then map[] else Stamp(events, p.value);
      if p.Some? && Precedes(events, i, p.value) {
        StampGrows(events, i, p.value);
        StepGrows(events, j, before);
      } else {
        StampGrows(events, i, events[j].from);
        MergedIsLub(before, Stamp(events, events[j].from), map[]);
      }
    }
  }

  lemma {:induction false} StepGrows(events: seq<Event>, j: nat, before: Counts)
    requires Run(events) && j < |events| && Previous(events, j, events[j].device).Some?
    requires before == Stamp(events, Previous(events, j, events[j].device).value)
    ensures Leq(before, Stamp(events, j))
  {
    if events[j].Receive? {
      MergedIsLub(before, Stamp(events, events[j].from), map[]);
    } else {
      var d := events[j].device;
      StampCounts(events, Previous(events, j, d).value, d);
      IncrementAdvances(before, d);
      assert Stamp(events, j) == Incremented(before, d);
    }
  }

  /** The clock of a device's event is covered by another event's clock exactly
      when the first precedes the second. */
  lemma LeqIffPrecedes(events: seq<Event>, i: nat, j: nat)
    requires Run(events) && i < |events| && j < |events| && events[i].Tick?
    ensures Leq(Stamp(events, i), Stamp(events, j)) <==> Precedes(events, i, j)
  {
    if Precedes(events, i, j) {
      StampGrows(events, i, j);
    } else {
      CounterIff(events, i, j);
      StampCounts(events, i, events[i].device);
    }
  }

  /** Main result: comparing the clocks of two events of devices tells exactly
      which of them, if any, causally precedes the other. */
  lemma OrderIsCausality(events: seq<Event>, i: nat, j: nat)
    requires Run(events) && i < |events| && j < |events| && events[i].Tick? && events[j].Tick?
    ensures Order(Stamp(events, i), Stamp(events, j)) ==
      if i == j then Equal
      else if Precedes(events, i, j) then Before
      else if Precedes(events, j, i) then After
      else Concurrent
  {
    LeqIffPrecedes(events, i, j);
    LeqIffPrecedes(events, j, i);
    if Precedes(events, i, j) && Precedes(events, j, i) {
      PrecedesOrder(events, i, j);
      PrecedesOrder(events, j, i);
    }
  }
}
