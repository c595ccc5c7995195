/**
 One neighbour's echo measurement (latency.c) as values: what a send, a reply and the final
 arithmetic do, and what every run over an unreliable network keeps.

 Requests are numbered 0, 1, 2, .. in the order they are sent; the packet only carries the low 16
 bits.  Time is real time in microseconds; the clock only shows its low 32 bits.
 */
module EchoModel {
  import opened DbModel

  const SLOTS := 512         // CKTAB_SIZE
  const U16 := 0x1_0000
  const U32 := 0x1_0000_0000
  const U64 := 0x1_0000_0000_0000_0000
  const UINT_MAX := U32 - 1

  /** The message the scheduled timer will deliver. */
  datatype Timer = SendNextPing | PingFinish

  /** The counters and the duplicate table of _ping_data_t. */
  datatype Echo = Echo(
    count: nat, sent: nat, recv: nat, rept: nat,
    tsum: nat, tmin: nat, tmax: nat,
    ring: seq<bool>, timer: Timer)

  function Fresh(count: nat): Echo {
    Echo(count, 0, 0, 0, 0, UINT_MAX, 0, seq(SLOTS, _ => false), SendNextPing)
  }

  /** Addition in a word of the given size, for operands below it. */
  function AddWord(x: nat, y: nat, size: nat): nat {
    if x + y < size then x + y else x + y - size
  }

  /** latency.c:195-227: schedule the next event, clear the slot, count the request. */
  function Send(e: Echo): Echo
    requires |e.ring| == SLOTS
  {
    e.(timer := if e.sent + 1 < e.count then SendNextPing else PingFinish,
       ring := e.ring[e.sent % SLOTS := false],
       sent := e.sent + 1)
  }

  /** latency.c:292-311 for a reply that passes the filters. */
  function Receive(e: Echo, recvSeq: nat, trip: nat): Echo
    requires |e.ring| == SLOTS
  {
    var slot := recvSeq % SLOTS;
    var timed := e.(tsum := AddWord(e.tsum, trip, U64),
                    tmin := if trip < e.tmin then trip else e.tmin,
                    tmax := if trip > e.tmax then trip else e.tmax);
    if e.ring[slot] then timed.(rept := AddWord(e.rept, 1, U32))
    else timed.(ring := e.ring[slot := true], recv := AddWord(e.recv, 1, U32))
  }

  /** latency.c:295: the difference of two readings of the 32-bit clock. */
  function TripTime(now: nat, stamp: nat): nat
    requires stamp < U32
  {
    (now % U32 - stamp) % U32
  }

  /** The modular clock difference is the true elapsed time exactly when that fits 32 bits. */
  lemma TripTimeExactIff(sentAt: nat, now: nat)
    requires sentAt <= now
    ensures TripTime(now, sentAt % U32) == now - sentAt <==> now - sentAt < U32
  {
  }

  // ----- what a run is -----

  /** What msg_receive can deliver: an echo of a request that reached the wire, a packet that fails
      the filters, the scheduled timer (the send may fail for lack of buffers), anything else. */
  datatype Event =
    | EchoOf(req: nat, now: nat)
    | Unrelated
    | TimerFires(now: nat, onWire: bool)

  /** The measurement and what really happened: when each request went out, if it did, which
      requests have been answered, and every accepted trip time in order. */
  datatype Sys = Sys(e: Echo, sends: seq<Option<nat>>, answered: set<nat>, trips: seq<nat>)

  /** Section 4.2 of RFC 4443: a reply echoes the identifier, sequence number and data of a request
      that was sent.  It may come late, twice, out of order or never. */
  predicate Genuine(s: Sys, ev: Event) {
    ev.EchoOf? ==> ev.req < |s.sends| && s.sends[ev.req].Some?
  }

  function DoSend(s: Sys, now: nat, onWire: bool): Sys
    requires |s.e.ring| == SLOTS
  {
    s.(e := Send(s.e), sends := s.sends + [if onWire then Some(now) else None])
  }

  function DoReceive(s: Sys, req: nat, now: nat): Sys
    requires |s.e.ring| == SLOTS && req < |s.sends| && s.sends[req].Some?
  {
    var trip := TripTime(now, s.sends[req].value % U32);
    s.(e := Receive(s.e, req % U16, trip), answered := s.answered + {req}, trips := s.trips + [trip])
  }

  /** One turn of the receive loop, when it does not end the run. */
  function Turn(s: Sys, ev: Event): Sys
    requires |s.e.ring| == SLOTS && Genuine(s, ev)
  {
    match ev
    case EchoOf(req, now) => DoReceive(s, req, now)
    case Unrelated => s
    case TimerFires(now, onWire) => if s.e.timer.SendNextPing? then DoSend(s, now, onWire) else s
  }

  datatype Status = Waiting | TimedOut | AllAnswered

  /** The receive loop of latency.c:109-130 over the messages that arrive. */
  function Loop(s: Sys, evs: seq<Event>): (r: (Sys, Status))
    requires |s.e.ring| == SLOTS && AllGenuine(s, evs)
    ensures |r.0.e.ring| == SLOTS
    decreases |evs|
  {
    if evs == [] then (s, Waiting)
    else if evs[0].TimerFires? && s.e.timer.PingFinish? then (s, TimedOut)
    else
      var s' := Turn(s, evs[0]);
      if s'.e.recv < s'.e.count then Loop(s', evs[1..]) else (s', AllAnswered)
  }

  /** Every echo that arrives while the loop runs is genuine. */
  predicate AllGenuine(s: Sys, evs: seq<Event>)
    requires |s.e.ring| == SLOTS
    decreases |evs|
  {
    evs == [] || (
      && Genuine(s, evs[0])
      && ((evs[0].TimerFires? && s.e.timer.PingFinish?)
          || Turn(s, evs[0]).e.recv >= s.e.count
          || AllGenuine(Turn(s, evs[0]), evs[1..])))
  }

  /** latency.c:93-109: the state in which the loop is entered. */
  function Begin(count: nat, now: nat, onWire: bool): (s: Sys)
    ensures |s.e.ring| == SLOTS
  {
    DoSend(Sys(Fresh(count), [], {}, []), now, onWire)
  }

  // ----- invariants of every run -----

  /** The number of clear slots below n. */
  function Clear(ring: seq<bool>, n: nat): nat
    requires n <= |ring|
  {
    if n == 0 then 0 else Clear(ring, n - 1) + if ring[n - 1] then 0 else 1
  }

  function Used(e: Echo): nat {
    if e.sent < SLOTS then e.sent else SLOTS
  }

  ghost predicate Shape(e: Echo) {
    && |e.ring| == SLOTS && 1 <= e.count < U32
    && e.sent <= e.count
    && (e.timer.SendNextPing? ==> e.sent < e.count)
    && (e.timer.PingFinish? ==> e.sent == e.count)
  }

  /** Replies counted as new, plus used slots that are still clear, never exceed the requests. */
  ghost predicate Ledger(e: Echo)
    requires |e.ring| == SLOTS
  {
    e.recv + Clear(e.ring, Used(e)) <= e.sent
  }

  function Sum(trips: seq<nat>): nat {
    if trips == [] then 0 else Sum(trips[..|trips| - 1]) + trips[|trips| - 1]
  }

  /** tmin and tmax are the extremes of the accepted trip times; an unused tmin is UINT_MAX. */
  ghost predicate Extremes(e: Echo, trips: seq<nat>) {
    && (forall i :: 0 <= i < |trips| ==> e.tmin <= trips[i] <= e.tmax && trips[i] < U32)
    && (e.tmin == UINT_MAX || e.tmin in trips)
    && (trips == [] ==> e.tmin == UINT_MAX && e.tmax == 0)
    && e.tmin <= UINT_MAX
  }

  ghost predicate Totals(e: Echo, trips: seq<nat>) {
    |trips| < U32 ==> e.tsum == Sum(trips) && e.recv + e.rept == |trips|
  }

  /** The timing fields describe the accepted trip times, below 2^32 of them also their sum. */
  ghost predicate Timed(s: Sys) {
    Extremes(s.e, s.trips) && Totals(s.e, s.trips)
  }

  ghost predicate Inv(s: Sys) {
    Shape(s.e) && Ledger(s.e) && Timed(s) && |s.sends| == s.e.sent
  }

  lemma {:induction false} ClearSet(ring: seq<bool>, n: nat, i: nat, b: bool)
    requires n <= |ring| && i < |ring|
    ensures Clear(ring[i := b], n) ==
            Clear(ring, n) + if i < n && ring[i] != b then (if b then -1 else 1) else 0
  {
    if n > 0 {
      ClearSet(ring, n - 1, i, b);
    }
  }

  /** The 16-bit wrap does not move a request to another slot, because 512 divides 65536. */
  lemma SlotOfSequence(req: nat)
    ensures req % U16 % SLOTS == req % SLOTS
  {
  }

  lemma SendKeepsInv(s: Sys, now: nat, onWire: bool)
    requires |s.e.ring| == SLOTS && 1 <= s.e.count < U32 && s.e.sent < s.e.count
    requires Ledger(s.e) && Timed(s) && |s.sends| == s.e.sent
    ensures Inv(DoSend(s, now, onWire))
  {
    var e := s.e;
    ClearSet(e.ring, Used(e), e.sent % SLOTS, false);
    if e.sent < SLOTS {
      assert e.sent % SLOTS == e.sent;
      assert Used(Send(e)) == e.sent + 1;
      assert Clear(Send(e).ring, e.sent + 1) == Clear(Send(e).ring, e.sent) + 1;
    }
  }

  lemma {:induction false} SumBound(trips: seq<nat>)
    requires forall i :: 0 <= i < |trips| ==> trips[i] <= UINT_MAX
    ensures Sum(trips) <= |trips| * UINT_MAX
  {
    if trips != [] {
      SumBound(trips[..|trips| - 1]);
    }
  }

  lemma TripTimeFits(now: nat, stamp: nat)
    requires stamp < U32
    ensures TripTime(now, stamp) < U32
  {
  }

  lemma ReceiveKeepsExtremes(e: Echo, trips: seq<nat>, recvSeq: nat, trip: nat)
    requires |e.ring| == SLOTS && Extremes(e, trips) && trip < U32
    ensures Extremes(Receive(e, recvSeq, trip), trips + [trip])
  {
  }

  lemma ReceiveKeepsTotals(e: Echo, trips: seq<nat>, recvSeq: nat, trip: nat)
    requires |e.ring| == SLOTS && Totals(e, trips) && trip < U32 && e.recv + 1 < U32
    requires forall i :: 0 <= i < |trips| ==> trips[i] < U32
    ensures Totals(Receive(e, recvSeq, trip), trips + [trip])
  {
    assert (trips + [trip])[..|trips|] == trips;
    SumBound(trips);
  }

  lemma ReceiveKeepsTimed(s: Sys, req: nat, now: nat)
    requires |s.e.ring| == SLOTS && s.e.recv + 1 < U32 && Timed(s) && req < |s.sends| && s.sends[req].Some?
    ensures Timed(DoReceive(s, req, now))
  {
    var trip := TripTime(now, s.sends[req].value % U32);
    TripTimeFits(now, s.sends[req].value % U32);
    ReceiveKeepsExtremes(s.e, s.trips, req % U16, trip);
    ReceiveKeepsTotals(s.e, s.trips, req % U16, trip);
  }

  /** The slot of a request already sent is a used one. */
  lemma SlotIsUsed(e: Echo, req: nat)
    requires req < e.sent
    ensures req % SLOTS < Used(e)
  {
  }

  lemma ReceiveKeepsLedger(s: Sys, req: nat, now: nat)
    requires Shape(s.e) && Ledger(s.e) && |s.sends| == s.e.sent && req < |s.sends| && s.sends[req].Some?
    ensures Shape(DoReceive(s, req, now).e) && Ledger(DoReceive(s, req, now).e)
  {
    SlotOfSequence(req);
    SlotIsUsed(s.e, req);
    ClearSet(s.e.ring, Used(s.e), req % SLOTS, true);
  }

  lemma TurnKeepsInv(s: Sys, ev: Event)
    requires Inv(s) && Genuine(s, ev) && s.e.recv < s.e.count
    ensures Inv(Turn(s, ev)) && Turn(s, ev).e.count == s.e.count
  {
    match ev
    case EchoOf(req, now) =>
      ReceiveKeepsLedger(s, req, now);
      ReceiveKeepsTimed(s, req, now);
    case Unrelated =>
    case TimerFires(now, onWire) =>
      if s.e.timer.SendNextPing? {
        SendKeepsInv(s, now, onWire);
      }
  }

  lemma BeginInv(count: nat, now: nat, onWire: bool)
    requires 1 <= count < U32
    ensures Inv(Begin(count, now, onWire))
  {
    SendKeepsInv(Sys(Fresh(count), [], {}, []), now, onWire);
  }

  /** Every run, whatever is lost, delayed, repeated or reordered: the invariant holds at its end. */
  lemma {:induction false} LoopKeepsInv(s: Sys, evs: seq<Event>)
    requires Inv(s) && AllGenuine(s, evs) && s.e.recv < s.e.count
    ensures var (s', status) := Loop(s, evs);
            && Inv(s') && s'.e.count == s.e.count
            && (status.AllAnswered? <==> s'.e.recv >= s'.e.count)
            && (status.TimedOut? ==> s'.e.timer.PingFinish?)
    decreases |evs|
  {
    if evs != [] && !(evs[0].TimerFires? && s.e.timer.PingFinish?) {
      TurnKeepsInv(s, evs[0]);
      var s' := Turn(s, evs[0]);
      if s'.e.recv < s'.e.count {
        LoopKeepsInv(s', evs[1..]);
      }
    }
  }

  // ----- what a run has counted, said of the events -----

  /** The sends the timer events brought: when each went out, if it did. */
  function SendsOf(evs: seq<Event>): seq<Option<nat>> {
    if evs == [] then []
    else (if evs[0].TimerFires? then [if evs[0].onWire then Some(evs[0].now) else None] else []) + SendsOf(evs[1..])
  }

  /** The requests the echoes answered, echo by echo. */
  function RequestsOf(evs: seq<Event>): seq<nat> {
    if evs == [] then [] else (if evs[0].EchoOf? then [evs[0].req] else []) + RequestsOf(evs[1..])
  }

  function SetOf(s: seq<nat>): set<nat> {
    set x | x in s
  }

  lemma SetOfConcat(a: seq<nat>, b: seq<nat>)
    ensures SetOf(a + b) == SetOf(a) + SetOf(b)
  {
  }

  /** For an echo the difference of the clock readings at its arrival and at the send it answers. */
  function TripOf(ev: Event, sends: seq<Option<nat>>): seq<nat> {
    if ev.EchoOf? && ev.req < |sends| && sends[ev.req].Some? then
      [(ev.now % 0x1_0000_0000 - sends[ev.req].value % 0x1_0000_0000) % 0x1_0000_0000]
    else []
  }

  /** The trip times of the echoes, in order. */
  function TripsOf(evs: seq<Event>, sends: seq<Option<nat>>): seq<nat> {
    if evs == [] then [] else TripOf(evs[0], sends) + TripsOf(evs[1..], sends)
  }

  /** The first k events have been taken, and the rest has not been looked at: all of them as long as
      the run waits, up to the last timer when it ends by that, up to an echo when all is answered. */
  ghost predicate Took(evs: seq<Event>, k: nat, status: Status) {
    && k <= |evs|
    && (status.Waiting? ==> k == |evs|)
    && (status.TimedOut? ==> k < |evs| && evs[k].TimerFires?)
    && (status.AllAnswered? ==> k > 0 && evs[k - 1].EchoOf?)
  }

  lemma SendsCons(ev: Event, rest: seq<Event>)
    ensures SendsOf([ev] + rest) == SendsOf([ev]) + SendsOf(rest)
  {
    assert ([ev] + rest)[1..] == rest && [ev][1..] == [];
    var own := if ev.TimerFires? then [if ev.onWire then Some(ev.now) else None] else [];
    assert SendsOf([ev]) == own + SendsOf([]) == own;
  }

  lemma RequestsCons(ev: Event, rest: seq<Event>)
    ensures RequestsOf([ev] + rest) == RequestsOf([ev]) + RequestsOf(rest)
  {
    assert ([ev] + rest)[1..] == rest && [ev][1..] == [];
    var own := if ev.EchoOf? then [ev.req] else [];
    assert RequestsOf([ev]) == own + RequestsOf([]) == own;
  }

  lemma TripsCons(ev: Event, rest: seq<Event>, sends: seq<Option<nat>>)
    ensures TripsOf([ev] + rest, sends) == TripsOf([ev], sends) + TripsOf(rest, sends)
  {
    assert ([ev] + rest)[1..] == rest && [ev][1..] == [];
    assert TripsOf([ev], sends) == TripOf(ev, sends) + TripsOf([], sends) == TripOf(ev, sends);
  }

  /** The state has grown by what these events brought. */
  ghost predicate Counted(s: Sys, s': Sys, evs: seq<Event>, sends: seq<Option<nat>>) {
    && s'.sends == s.sends + SendsOf(evs)
    && s'.answered == s.answered + SetOf(RequestsOf(evs))
    && s'.trips == s.trips + TripsOf(evs, sends)
    && |s'.trips| == |s.trips| + |RequestsOf(evs)|
  }

  lemma CountedTwice(s: Sys, s': Sys, end: Sys, ev: Event, rest: seq<Event>)
    requires Counted(s, s', [ev], end.sends) && Counted(s', end, rest, end.sends)
    ensures Counted(s, end, [ev] + rest, end.sends)
  {
    SendsCons(ev, rest);
    RequestsCons(ev, rest);
    TripsCons(ev, rest, end.sends);
    SetOfConcat(RequestsOf([ev]), RequestsOf(rest));
    GrewInTwo(s.sends, s'.sends, end.sends, SendsOf([ev]), SendsOf(rest));
    GrewInTwo(s.trips, s'.trips, end.trips, TripsOf([ev], end.sends), TripsOf(rest, end.sends));
  }

  lemma GrewInTwo<T>(a: seq<T>, b: seq<T>, c: seq<T>, x: seq<T>, y: seq<T>)
    requires b == a + x && c == b + y
    ensures c == a + (x + y)
  {
  }

  lemma CountedNothing(s: Sys)
    ensures Counted(s, s, [], s.sends)
  {
  }

  /** Every run: its sends, the set of requests answered and the trip times are exactly those of the
      events it took, one for one and in order. */
  lemma {:induction false} RunCountsEvents(s: Sys, evs: seq<Event>) returns (k: nat)
    requires |s.e.ring| == SLOTS && AllGenuine(s, evs) && s.e.recv < s.e.count
    ensures Took(evs, k, Loop(s, evs).1)
    ensures Counted(s, Loop(s, evs).0, evs[..k], Loop(s, evs).0.sends)
    decreases |evs|
  {
    k := 0;
    if evs == [] || (evs[0].TimerFires? && s.e.timer.PingFinish?) {
      CountedNothing(s);
    } else {
      var s', rest, end := Turn(s, evs[0]), evs[1..], Loop(s, evs).0;
      if s'.e.recv < s'.e.count {
        TurnKeepsCount(s, evs[0]);
        k := RunCountsEvents(s', rest);
      } else {
        CountedNothing(s');
        OnlyEchoesAnswer(s, evs[0]);
      }
      assert evs[..k + 1] == [evs[0]] + rest[..k];
      OneTurnCounts(s, evs[0], end.sends);
      CountedTwice(s, s', end, evs[0], rest[..k]);
      k := k + 1;
    }
  }

  lemma TurnKeepsCount(s: Sys, ev: Event)
    requires |s.e.ring| == SLOTS && Genuine(s, ev)
    ensures |Turn(s, ev).e.ring| == SLOTS && Turn(s, ev).e.count == s.e.count
  {
  }

  lemma OnlyEchoesAnswer(s: Sys, ev: Event)
    requires |s.e.ring| == SLOTS && Genuine(s, ev) && s.e.recv < s.e.count && Turn(s, ev).e.recv >= s.e.count
    ensures ev.EchoOf?
  {
  }

  /** One event taken. */
  lemma OneTurnCounts(s: Sys, ev: Event, sends: seq<Option<nat>>)
    requires |s.e.ring| == SLOTS && Genuine(s, ev) && !(ev.TimerFires? && s.e.timer.PingFinish?)
    requires Turn(s, ev).sends <= sends
    ensures Counted(s, Turn(s, ev), [ev], sends)
  {
    assert [ev][1..] == [];
  }

  // ----- the final arithmetic -----

  /** A quotient whose dividend has first been cut to a word. */
  function WordQuotient(x: nat, d: nat, word: nat): nat
    requires d > 0 && word > 0
  {
    x % word / d
  }

  /** latency.c:373-376 in an unsigned word. */
  function Loss(sent: nat, recv: nat, word: nat): nat
    requires recv <= sent && word > 0
  {
    if sent > 0 then WordQuotient((sent - recv) * 100, sent, word) else 0
  }

  /** latency.c:377-388 */
  function Latency(e: Echo): nat {
    if e.tmin != UINT_MAX && e.recv + e.rept > 0 then e.tsum / (e.recv + e.rept) else 0
  }

  lemma {:induction false} DivideMonotone(a: nat, b: nat, d: nat)
    requires d > 0 && a <= b
    ensures a / d <= b / d
    decreases a
  {
    if a >= d {
      var a', b' := a - d, b - d;
      DivideStep(a', d);
      DivideStep(b', d);
      DivideMonotone(a', b', d);
    }
  }

  lemma ProductBound(k: int, d: nat)
    ensures k >= 1 ==> k * d >= d
    ensures k <= -1 ==> k * d + d <= 0
  {
  }

  lemma DivideIs(x: nat, d: nat, q: nat, r: nat)
    requires r < d && x == q * d + r
    ensures x / d == q
  {
    ProductBound(q - x / d, d);
    assert x == x / d * d + x % d;
    assert (q - x / d) * d == q * d - x / d * d;
  }

  lemma DivideStep(x: nat, d: nat)
    requires d > 0
    ensures (x + d) / d == x / d + 1
  {
    assert (x / d + 1) * d == x / d * d + d;
    DivideIs(x + d, d, x / d + 1, x % d);
  }

  lemma ModuloDrops(x: nat, word: nat)
    requires 0 < word <= x
    ensures x % word + word <= x
  {
    assert x == x / word * word + x % word;
    DivideMonotone(word, x, word);
    DivideIs(word, word, 1, 0);
    ProductBound(x / word, word);
  }

  lemma ModuloShrinksQuotient(x: nat, sent: nat, word: nat)
    requires 0 < sent < word <= x
    ensures x % word / sent < x / sent
  {
    ModuloDrops(x, word);
    DivideMonotone(x % word + sent, x, sent);
    DivideStep(x % word, sent);
  }

  lemma QuotientExactIff(x: nat, sent: nat, word: nat)
    requires 0 < sent < word
    ensures x % word / sent == x / sent <==> x < word
  {
    if x >= word {
      ModuloShrinksQuotient(x, sent, word);
    } else {
      SmallModulo(x, word);
    }
  }

  lemma SmallModulo(x: nat, word: nat)
    requires x < word
    ensures x % word == x
  {
  }

  /** The recorded loss is the truncated percentage exactly when the product fits the word. */
  lemma LossExactIff(sent: nat, recv: nat, word: nat)
    requires recv <= sent && 0 < sent < word
    ensures Loss(sent, recv, word) == (sent - recv) * 100 / sent <==> (sent - recv) * 100 < word
  {
    QuotientExactIff((sent - recv) * 100, sent, word);
  }

  /** The smallest unanswered run whose product wraps a 32-bit word: everything was lost and the loss
      is recorded as 0. */
  lemma LossWrapsToZero()
    ensures Loss(0, 0, U32) == 0
    ensures Loss(42_949_673, 0, U32) == 0 && (42_949_673 - 0) * 100 / 42_949_673 == 100
    ensures forall sent :: 0 < sent < 42_949_673 ==> Loss(sent, 0, U32) == 100
  {
    forall sent: nat | 0 < sent < 42_949_673
      ensures Loss(sent, 0, U32) == 100
    {
      LossExactIff(sent, 0, U32);
      MultipleDivides(100, sent);
    }
  }

  lemma LossInRange(sent: nat, recv: nat, word: nat)
    requires recv <= sent && 0 < sent < word && (sent - recv) * 100 < word
    ensures 0 <= Loss(sent, recv, word) <= 100
  {
    LossExactIff(sent, recv, word);
    DivideMonotone((sent - recv) * 100, 100 * sent, sent);
    MultipleDivides(100, sent);
  }

  lemma {:induction false} SumBetween(trips: seq<nat>, lo: nat, hi: nat)
    requires forall i :: 0 <= i < |trips| ==> lo <= trips[i] <= hi
    ensures lo * |trips| <= Sum(trips) <= hi * |trips|
  {
    if trips != [] {
      SumBetween(trips[..|trips| - 1], lo, hi);
      assert lo * |trips| == lo * (|trips| - 1) + lo;
      assert hi * |trips| == hi * (|trips| - 1) + hi;
    }
  }

  lemma AverageBetween(total: nat, n: nat, lo: nat, hi: nat)
    requires n > 0 && lo * n <= total <= hi * n
    ensures lo <= total / n <= hi
  {
    DivideMonotone(lo * n, total, n);
    DivideMonotone(total, hi * n, n);
    MultipleDivides(lo, n);
    MultipleDivides(hi, n);
  }

  lemma MultipleDivides(x: nat, n: nat)
    requires n > 0
    ensures x * n / n == x
  {
    DivideIs(x * n, n, x, 0);
  }

  /** A run that has seen fewer than 2^32 replies: the divisor of the average is not zero when it
      is used, and the truncated average lies between the extremes. */
  lemma AverageWithinExtremes(s: Sys)
    requires Inv(s) && |s.trips| < U32 && s.e.tmin != UINT_MAX
    ensures s.e.recv + s.e.rept > 0
    ensures s.e.tmin <= Latency(s.e) <= s.e.tmax
    ensures Latency(s.e) == Sum(s.trips) / |s.trips|
  {
    SumBetween(s.trips, s.e.tmin, s.e.tmax);
    AverageBetween(Sum(s.trips), |s.trips|, s.e.tmin, s.e.tmax);
  }

  /** Leaving the loop because every request was answered: all of them were sent and the recorded
      loss is 0. */
  lemma AllAnsweredMeansNoLoss(s: Sys, word: nat)
    requires Inv(s) && s.e.recv >= s.e.count && word > 0
    ensures s.e.sent == s.e.count == s.e.recv && Loss(s.e.sent, s.e.recv, word) == 0
  {
  }

  /** What a run reports: never more replies than requests, a true percentage exactly when the product
      formed fits the word, everything sent when the final timer or the last reply ends the run, and an
      average between the extremes. */
  ghost predicate SoundReport(s: Sys, status: Status, word: nat) {
    && 0 < s.e.sent && s.e.recv <= s.e.sent <= s.e.count && 0 < word
    && ((s.e.sent - s.e.recv) * 100 < word <==>
          Loss(s.e.sent, s.e.recv, word) == (s.e.sent - s.e.recv) * 100 / s.e.sent)
    && ((s.e.sent - s.e.recv) * 100 < word ==> Loss(s.e.sent, s.e.recv, word) <= 100)
    && (status != Waiting ==> s.e.sent == s.e.count)
    && (status == AllAnswered ==> s.e.recv == s.e.count && Loss(s.e.sent, s.e.recv, word) == 0)
    && (|s.trips| < U32 && s.e.tmin != UINT_MAX ==> s.e.tmin <= Latency(s.e) <= s.e.tmax)
  }

  lemma ReportIsSound(s: Sys, status: Status, word: nat)
    requires Inv(s) && 0 < s.e.sent && s.e.count < word
    requires (status.AllAnswered? <==> s.e.recv >= s.e.count) && (status.TimedOut? ==> s.e.timer.PingFinish?)
    ensures SoundReport(s, status, word)
  {
    LossExactIff(s.e.sent, s.e.recv, word);
    if (s.e.sent - s.e.recv) * 100 < word {
      LossInRange(s.e.sent, s.e.recv, word);
    }
    if status.AllAnswered? {
      AllAnsweredMeansNoLoss(s, word);
    }
    if |s.trips| < U32 && s.e.tmin != UINT_MAX {
      AverageWithinExtremes(s);
    }
  }

  /** Every run of every length, whatever the network does to the replies. */
  lemma EveryRunReportsSoundly(count: nat, now: nat, onWire: bool, evs: seq<Event>, word: nat)
    requires 1 <= count < U32 && AllGenuine(Begin(count, now, onWire), evs) && count < word
    ensures var (s, status) := Loop(Begin(count, now, onWire), evs);
            SoundReport(s, status, word)
  {
    var b := Begin(count, now, onWire);
    BeginInv(count, now, onWire);
    BeginWindow(count, now, onWire);
    LoopKeepsInv(b, evs);
    LoopCountsUp(b, evs);
    ReportIsSound(Loop(b, evs).0, Loop(b, evs).1, word);
  }

  lemma {:induction false} LoopCountsUp(s: Sys, evs: seq<Event>)
    requires |s.e.ring| == SLOTS && AllGenuine(s, evs)
    ensures s.e.sent <= Loop(s, evs).0.e.sent
    decreases |evs|
  {
    if evs != [] && !(evs[0].TimerFires? && s.e.timer.PingFinish?) {
      var s' := Turn(s, evs[0]);
      if s'.e.recv < s'.e.count {
        LoopCountsUp(s', evs[1..]);
      }
    }
  }

  // ----- duplicate detection -----

  /** The table agrees with the set of answered requests on the last 512 sent, and num_recv counts
      that set. */
  ghost predicate Window(s: Sys)
    requires |s.e.ring| == SLOTS
  {
    && (forall k :: 0 <= k < s.e.sent && s.e.sent - SLOTS <= k ==> (s.e.ring[k % SLOTS] <==> k in s.answered))
    && (forall k :: k in s.answered ==> k < s.e.sent)
    && s.e.recv == |s.answered|
  }

  /** num_recv counts the distinct requests answered and num_rept the surplus replies. */
  ghost predicate Exact(s: Sys) {
    s.e.recv == |s.answered| && (|s.trips| < U32 ==> s.e.rept == |s.trips| - |s.answered|)
  }

  /** Every echo in the run answers one of the last 512 requests sent before it arrives. */
  ghost predicate Recent(s: Sys, evs: seq<Event>)
    requires |s.e.ring| == SLOTS && AllGenuine(s, evs)
    decreases |evs|
  {
    evs == [] || (evs[0].TimerFires? && s.e.timer.PingFinish?) || (
      && (evs[0].EchoOf? ==> evs[0].req + SLOTS >= s.e.sent)
      && (Turn(s, evs[0]).e.recv < s.e.count ==> Recent(Turn(s, evs[0]), evs[1..])))
  }

  lemma SlotsDiffer(i: nat, j: nat)
    requires i < j < i + SLOTS
    ensures i % SLOTS != j % SLOTS
  {
  }

  lemma SendKeepsWindow(s: Sys, now: nat, onWire: bool)
    requires |s.e.ring| == SLOTS && Window(s)
    ensures Window(DoSend(s, now, onWire))
  {
    var s' := DoSend(s, now, onWire);
    forall k | 0 <= k < s'.e.sent && s'.e.sent - SLOTS <= k
      ensures s'.e.ring[k % SLOTS] <==> k in s'.answered
    {
      if k < s.e.sent {
        SlotsDiffer(k, s.e.sent);
      }
    }
  }

  lemma ReceiveKeepsWindow(s: Sys, req: nat, now: nat)
    requires Shape(s.e) && Ledger(s.e) && Window(s) && |s.sends| == s.e.sent
    requires req < |s.sends| && s.sends[req].Some? && req + SLOTS >= s.e.sent
    ensures Window(DoReceive(s, req, now))
  {
    var s' := DoReceive(s, req, now);
    SlotOfSequence(req);
    SlotIsUsed(s.e, req);
    ClearSet(s.e.ring, Used(s.e), req % SLOTS, true);
    forall k | 0 <= k < s'.e.sent && s'.e.sent - SLOTS <= k
      ensures s'.e.ring[k % SLOTS] <==> k in s'.answered
    {
      if k < req {
        SlotsDiffer(k, req);
      } else if req < k {
        SlotsDiffer(req, k);
      }
    }
    assert s.e.ring[req % SLOTS] ==> s'.answered == s.answered;
  }

  lemma TurnKeepsWindow(s: Sys, ev: Event)
    requires Inv(s) && Genuine(s, ev) && Window(s) && (ev.EchoOf? ==> ev.req + SLOTS >= s.e.sent)
    ensures Window(Turn(s, ev))
  {
    match ev
    case EchoOf(req, now) => ReceiveKeepsWindow(s, req, now);
    case Unrelated =>
    case TimerFires(now, onWire) =>
      if s.e.timer.SendNextPing? {
        SendKeepsWindow(s, now, onWire);
      }
  }

  /** However many requests are sent, past any number of 16-bit wraps: if every reply answers one of
      the last 512 requests, the ring is the set of answered requests. */
  lemma {:induction false} RecentRunIsExact(s: Sys, evs: seq<Event>)
    requires Inv(s) && Window(s) && AllGenuine(s, evs) && s.e.recv < s.e.count && Recent(s, evs)
    ensures Exact(Loop(s, evs).0) && Window(Loop(s, evs).0)
    decreases |evs|
  {
    if evs != [] && !(evs[0].TimerFires? && s.e.timer.PingFinish?) {
      TurnKeepsInv(s, evs[0]);
      TurnKeepsWindow(s, evs[0]);
      var s' := Turn(s, evs[0]);
      if s'.e.recv < s'.e.count {
        RecentRunIsExact(s', evs[1..]);
      }
    }
  }

  lemma {:induction false} ShortRunIsRecent(s: Sys, evs: seq<Event>)
    requires Inv(s) && AllGenuine(s, evs) && s.e.recv < s.e.count <= SLOTS
    ensures Recent(s, evs)
    decreases |evs|
  {
    if evs != [] && !(evs[0].TimerFires? && s.e.timer.PingFinish?) {
      TurnKeepsInv(s, evs[0]);
      if Turn(s, evs[0]).e.recv < s.e.count {
        ShortRunIsRecent(Turn(s, evs[0]), evs[1..]);
      }
    }
  }

  lemma BeginWindow(count: nat, now: nat, onWire: bool)
    requires 1 <= count < U32
    ensures Window(Begin(count, now, onWire)) && Begin(count, now, onWire).e.recv == 0
  {
    SendKeepsWindow(Sys(Fresh(count), [], {}, []), now, onWire);
  }

  // A count of at most 512 is exactly what makes duplicate detection right without any assumption on delays.

  /** With at most 512 requests, every run counts exactly. */
  lemma UpTo512Exact(count: nat, now: nat, onWire: bool, evs: seq<Event>)
    requires 1 <= count <= 512 && AllGenuine(Begin(count, now, onWire), evs)
    ensures Exact(Loop(Begin(count, now, onWire), evs).0)
  {
    BeginInv(count, now, onWire);
    BeginWindow(count, now, onWire);
    ShortRunIsRecent(Begin(count, now, onWire), evs);
    RecentRunIsExact(Begin(count, now, onWire), evs);
  }

  /** What a run of at most 512 requests ends with, said of the events it took: one request for the
      first send and every timer, one reply for each distinct request echoed, and every further echo a
      duplicate. */
  lemma ShortRunCounts(count: nat, now: nat, onWire: bool, evs: seq<Event>) returns (k: nat)
    requires 1 <= count <= 512 && AllGenuine(Begin(count, now, onWire), evs) && |evs| < U32
    ensures var (end, status) := Loop(Begin(count, now, onWire), evs);
            && Took(evs, k, status)
            && end.e.sent == 1 + |SendsOf(evs[..k])|
            && end.e.recv == |SetOf(RequestsOf(evs[..k]))|
            && end.e.recv + end.e.rept == |RequestsOf(evs[..k])|
            && end.sends == [if onWire then Some(now) else None] + SendsOf(evs[..k])
  {
    var b := Begin(count, now, onWire);
    BeginInv(count, now, onWire);
    BeginWindow(count, now, onWire);
    LoopKeepsInv(b, evs);
    UpTo512Exact(count, now, onWire, evs);
    k := RunCountsEvents(b, evs);
    var end := Loop(b, evs).0;
    assert b.answered == {} && b.trips == [] && b.sends == [if onWire then Some(now) else None];
    assert end.answered == SetOf(RequestsOf(evs[..k]));
    assert end.trips == TripsOf(evs[..k], end.sends);
    TripsFit(evs[..k], end.sends);
  }

  lemma {:induction false} TripsFit(evs: seq<Event>, sends: seq<Option<nat>>)
    ensures |TripsOf(evs, sends)| <= |evs|
    decreases |evs|
  {
    if evs != [] {
      TripsFit(evs[1..], sends);
    }
  }

  /** n more sends. */
  function Sends(s: Sys, n: nat): (r: Sys)
    requires |s.e.ring| == SLOTS
    ensures r.e.sent == s.e.sent + n && r.e.recv == s.e.recv && r.e.count == s.e.count && |r.e.ring| == SLOTS
    ensures r.answered == s.answered && |r.sends| == |s.sends| + n && s.sends <= r.sends
  {
    if n == 0 then s else DoSend(Sends(s, n - 1), 0, true)
  }

  function Timers(n: nat): seq<Event> {
    if n == 0 then [] else Timers(n - 1) + [TimerFires(0, true)]
  }

  lemma {:induction false} SendsKeepInv(s: Sys, n: nat)
    requires Inv(s) && s.e.sent + n <= s.e.count
    ensures Inv(Sends(s, n))
    ensures s.e.sent + n < s.e.count ==> Sends(s, n).e.timer.SendNextPing?
    decreases n
  {
    if n > 0 {
      SendsKeepInv(s, n - 1);
      SendKeepsInv(Sends(s, n - 1), 0, true);
    }
  }

  lemma LoopOverSend(s: Sys, rest: seq<Event>)
    requires Inv(s) && s.e.timer.SendNextPing? && s.e.recv < s.e.count && AllGenuine(DoSend(s, 0, true), rest)
    ensures var evs := [TimerFires(0, true)] + rest;
            AllGenuine(s, evs) && Loop(s, evs) == Loop(DoSend(s, 0, true), rest)
  {
    var evs := [TimerFires(0, true)] + rest;
    assert evs[1..] == rest;
    assert Turn(s, evs[0]) == DoSend(s, 0, true);
  }

  lemma TimersSplit(n: nat, rest: seq<Event>)
    requires n > 0
    ensures Timers(n) + rest == Timers(n - 1) + ([TimerFires(0, true)] + rest)
  {
  }

  /** The loop over n timer events followed by others, while requests remain to be sent. */
  lemma {:induction false} LoopOverSends(s: Sys, n: nat, rest: seq<Event>)
    requires Inv(s) && s.e.sent + n <= s.e.count && s.e.recv < s.e.count && AllGenuine(Sends(s, n), rest)
    ensures AllGenuine(s, Timers(n) + rest) && Loop(s, Timers(n) + rest) == Loop(Sends(s, n), rest)
    decreases n
  {
    if n == 0 {
      assert Timers(0) + rest == rest;
    } else {
      var evs := [TimerFires(0, true)] + rest;
      SendsKeepInv(s, n - 1);
      LoopOverSend(Sends(s, n - 1), rest);
      TimersSplit(n, rest);
      LoopOverSends(s, n - 1, evs);
    }
  }

  /** Sending leaves every slot but those of the new requests alone. */
  lemma {:induction false} SendsClear(s: Sys, n: nat)
    requires |s.e.ring| == SLOTS && 1 <= n <= SLOTS
    ensures !Sends(s, n).e.ring[(s.e.sent + n - 1) % SLOTS]
  {
  }

  /** Request 0 is answered, then 512 more requests are sent, then the echo of request 0 comes again. */
  function LateDuplicate(): seq<Event> {
    [EchoOf(0, 0)] + (Timers(SLOTS) + [EchoOf(0, 0)])
  }

  /** The echo of an answered request comes again after its slot was cleared. */
  lemma SecondCount(s: Sys)
    requires Inv(s) && s.sends != [] && s.sends[0].Some? && !s.e.ring[0] && s.e.recv + 1 < s.e.count && 0 in s.answered
    ensures AllGenuine(s, [EchoOf(0, 0)])
    ensures var r := Loop(s, [EchoOf(0, 0)]).0;
            r.e.recv == s.e.recv + 1 && r.answered == s.answered
  {
    var late := [EchoOf(0, 0)];
    assert late[1..] == [];
    var t := Turn(s, late[0]);
    assert t.e.recv == s.e.recv + 1;
    assert t.answered == s.answered;
    assert Loop(s, late) == Loop(t, []);
  }

  /** With more than 512 requests some run of genuine replies counts one answered request twice. */
  lemma MoreThan512NotExact(count: nat)
    requires 512 < count < U32
    ensures AllGenuine(Begin(count, 0, true), LateDuplicate())
    ensures var s := Loop(Begin(count, 0, true), LateDuplicate()).0;
            s.e.recv == 2 && s.answered == {0} && !Exact(s)
  {
    var b, evs := Begin(count, 0, true), LateDuplicate();
    assert evs[1..] == Timers(SLOTS) + [EchoOf(0, 0)];
    FirstEcho(count);
    var s1 := Turn(b, evs[0]);
    SendsKeepInv(s1, SLOTS);
    SendsClear(s1, SLOTS);
    SecondCount(Sends(s1, SLOTS));
    LoopOverSends(s1, SLOTS, [EchoOf(0, 0)]);
  }

  lemma FirstEcho(count: nat)
    requires SLOTS < count < U32
    ensures var b := Begin(count, 0, true);
            Genuine(b, EchoOf(0, 0)) &&
            var s := Turn(b, EchoOf(0, 0));
            Inv(s) && s.answered == {0} && s.e.recv == 1 && s.e.sent == 1 && s.e.count == count && s.sends == [Some(0)]
  {
    BeginInv(count, 0, true);
    BeginWindow(count, 0, true);
    TurnKeepsInv(Begin(count, 0, true), EchoOf(0, 0));
    TurnKeepsWindow(Begin(count, 0, true), EchoOf(0, 0));
  }
}
