/**
 latency.c as it runs: the counters and the duplicate table of _ping_data_t updated in place, the
 receive loop over arriving messages, the result written to the neighbour list, and the drain of
 the message queue afterwards.
 */
module EchoRun {
  import opened NeighborTable
  import opened NeighborList
  import opened DbModel
  import opened EchoModel

  const DATALEN := 4
  const ECHO_HEADER := 8

  /** What _print_reply looks at in a received packet. */
  datatype Packet = Packet(size: nat, isEchoReply: bool, id: nat, from: Addr, sequence: nat, stamp: nat)

  /** A message of the receive loop.  Of a packet that answers a request, origin is the number of that
      request: the network's knowledge, which the code never looks at. */
  datatype Message =
    | Received(p: Packet, at: nat, origin: nat)
    | TimerMessage(at: nat, wired: bool)
    | OtherMessage

  /** The measurement's own: what it pings, under which identifier. */
  datatype Own = Own(host: Addr, multicast: bool, id: nat)

  /** A packet is a reply to this measurement when it is an echo reply of full length, with its
      identifier, and from its host unless that is a multicast address. */
  predicate IsReply(own: Own, p: Packet) {
    p.size >= 12 && p.isEchoReply && p.id == own.id && (own.multicast || p.from == own.host)
  }

  function EventOf(own: Own, m: Message): Event {
    match m
    case Received(p, at, origin) => if IsReply(own, p) then EchoOf(origin, at) else Unrelated
    case TimerMessage(at, wired) => TimerFires(at, wired)
    case OtherMessage => Unrelated
  }

  function EventsOf(own: Own, msgs: seq<Message>): (evs: seq<Event>)
    ensures |evs| == |msgs| && forall i :: 0 <= i < |evs| ==> evs[i] == EventOf(own, msgs[i])
  {
    seq(|msgs|, i requires 0 <= i < |msgs| => EventOf(own, msgs[i]))
  }

  /** Section 4.2 of RFC 4443: a reply carries the sequence number and the data of the request. */
  predicate Echoes(own: Own, s: Sys, m: Message) {
    m.Received? && IsReply(own, m.p) ==>
      && m.origin < |s.sends| && s.sends[m.origin].Some?
      && m.p.sequence == m.origin % U16 && m.p.stamp == s.sends[m.origin].value % U32
  }

  /** Every reply that arrives while the loop runs echoes a request. */
  predicate AllEcho(own: Own, s: Sys, msgs: seq<Message>)
    requires |s.e.ring| == SLOTS
    decreases |msgs|
  {
    msgs == [] || (
      && Echoes(own, s, msgs[0])
      && var ev := EventOf(own, msgs[0]);
         ((ev.TimerFires? && s.e.timer.PingFinish?)
          || Turn(s, ev).e.recv >= s.e.count
          || AllEcho(own, Turn(s, ev), msgs[1..])))
  }

  lemma {:induction false} EchoesAreGenuine(own: Own, s: Sys, msgs: seq<Message>)
    requires |s.e.ring| == SLOTS && AllEcho(own, s, msgs)
    ensures AllGenuine(s, EventsOf(own, msgs))
    decreases |msgs|
  {
    if msgs != [] {
      var ev := EventOf(own, msgs[0]);
      assert EventsOf(own, msgs)[1..] == EventsOf(own, msgs[1..]);
      if !(ev.TimerFires? && s.e.timer.PingFinish?) && Turn(s, ev).e.recv < s.e.count {
        EchoesAreGenuine(own, Turn(s, ev), msgs[1..]);
      }
    }
  }

  class Pinger {
    const count: nat
    const host: Addr
    const multicast: bool
    const id: nat
    const cktab: array<bool>
    var numSent: nat
    var numRecv: nat
    var numRept: nat
    var tsum: nat
    var tmin: nat
    var tmax: nat
    var schedMsg: Timer

    ghost predicate Valid()
      reads this, cktab
    {
      cktab.Length == SLOTS
    }

    function Mine(): Own {
      Own(host, multicast, id)
    }

    ghost function State(): Echo
      reads this, cktab
    {
      Echo(count, numSent, numRecv, numRept, tsum, tmin, tmax, cktab[..], schedMsg)
    }

    constructor (count: nat, host: Addr, multicast: bool, id: nat)
      ensures Valid() && State() == Fresh(count) && this.host == host && fresh(cktab)
    {
      this.count, this.host, this.multicast, this.id := count, host, multicast, id;
      numSent, numRecv, numRept, tsum, tmin, tmax := 0, 0, 0, 0, UINT_MAX, 0;
      schedMsg := SendNextPing;
      cktab := new bool[SLOTS](_ => false);
      new;
      assert cktab[..] == Fresh(count).ring;
    }

    /** latency.c:195-227; whether the packet then reaches the wire is the network's matter. */
    method Ping()
      requires Valid()
      modifies this, cktab
      ensures State() == Send(old(State()))
    {
      if numSent + 1 < count {
        schedMsg := SendNextPing;
      } else {
        schedMsg := PingFinish;
      }
      cktab[numSent % SLOTS] := false;
      numSent := numSent + 1;
    }

    /** latency.c:267-332 */
    method PrintReply(p: Packet, now: nat)
      requires Valid() && p.stamp < U32
      modifies this, cktab
      ensures p.size < 12 ==> State() == old(State())
      ensures !p.isEchoReply ==> State() == old(State())
      ensures p.id != id ==> State() == old(State())
      ensures !multicast && p.from != host ==> State() == old(State())
      ensures p.size >= 12 && p.isEchoReply && p.id == id && (multicast || p.from == host) ==>
                State() == Receive(old(State()), p.sequence, TripTime(now, p.stamp))
    {
      if p.size < DATALEN + ECHO_HEADER {
        return;
      }
      if p.isEchoReply {
        if p.id != id {
          return;
        }
        if !multicast && p.from != host {
          return;
        }
        var triptime := TripTime(now, p.stamp);
        tsum := AddWord(tsum, triptime, U64);
        if triptime < tmin {
          tmin := triptime;
        }
        if triptime > tmax {
          tmax := triptime;
        }
        if cktab[p.sequence % SLOTS] {
          numRept := AddWord(numRept, 1, U32);
        } else {
          cktab[p.sequence % SLOTS] := true;
          numRecv := AddWord(numRecv, 1, U32);
        }
      }
    }

    /** latency.c:112-129, one turn of the loop; ends is what the goto does. */
    method TakeMessage(m: Message, ghost s: Sys) returns (ends: bool, ghost s': Sys)
      requires Valid() && |s.e.ring| == SLOTS && State() == s.e && Echoes(Mine(), s, m)
      requires m.Received? ==> m.p.stamp < U32
      modifies this, cktab
      ensures Valid() && Genuine(s, EventOf(Mine(), m))
      ensures ends == (m.TimerMessage? && s.e.timer.PingFinish?)
      ensures s' == if ends then s else Turn(s, EventOf(Mine(), m))
      ensures State() == s'.e
    {
      ends := false;
      s' := s;
      if !(m.TimerMessage? && s.e.timer.PingFinish?) {
        s' := Turn(s, EventOf(Mine(), m));
      }
      match m {
        case Received(p, at, origin) => PrintReply(p, at);
        case TimerMessage(at, wired) =>
          if schedMsg == PingFinish {
            return true, s';
          }
          Ping();
        case OtherMessage =>
      }
    }

    /** latency.c:109-131 over the messages that arrive, whatever packets are among them. */
    method Measure(now: nat, onWire: bool, msgs: seq<Message>) returns (status: Status, ghost end: Sys)
      requires Valid() && State() == Fresh(count) && 1 <= count < U32
      requires AllEcho(Mine(), Begin(count, now, onWire), msgs)
      requires forall i :: 0 <= i < |msgs| && msgs[i].Received? ==> msgs[i].p.stamp < U32
      modifies this, cktab
      ensures Valid() && AllGenuine(Begin(count, now, onWire), EventsOf(Mine(), msgs))
      ensures (end, status) == Loop(Begin(count, now, onWire), EventsOf(Mine(), msgs)) && State() == end.e
    {
      ghost var evs := EventsOf(Mine(), msgs);
      EchoesAreGenuine(Mine(), Begin(count, now, onWire), msgs);
      Ping();
      end := Begin(count, now, onWire);
      var i := 0;
      assert evs[0..] == evs && msgs[0..] == msgs;
      while i < |msgs|
        invariant 0 <= i <= |msgs| && Valid()
        invariant |end.e.ring| == SLOTS && State() == end.e
        invariant AllEcho(Mine(), end, msgs[i..]) && AllGenuine(end, evs[i..])
        invariant Loop(Begin(count, now, onWire), evs) == Loop(end, evs[i..])
      {
        assert evs[i..][0] == evs[i] && evs[i..][1..] == evs[i + 1..];
        assert msgs[i..][0] == msgs[i] && msgs[i..][1..] == msgs[i + 1..];
        var ends;
        ends, end := TakeMessage(msgs[i], end);
        if ends {
          return TimedOut, end;
        }
        i := i + 1;
        if numRecv >= count {
          return AllAnswered, end;
        }
      }
      return Waiting, end;
    }

    /** latency.c:373-376 */
    method LossPercent() returns (loss: nat)
      requires Valid() && numRecv <= numSent
      ensures loss == Loss(State().sent, State().recv, U32)
    {
      loss := 0;
      if numSent > 0 {
        loss := WordQuotient((numSent - numRecv) * 100, numSent, U32);
      }
    }

    /** latency.c:377-388 */
    method AverageTrip() returns (latency: nat)
      requires Valid() && (tmin != UINT_MAX ==> numRecv + numRept > 0)
      ensures latency == EchoModel.Latency(State())
    {
      latency := 0;
      if tmin != UINT_MAX {
        latency := tsum / (numRecv + numRept);
      }
    }

    /** latency.c:352-401: the two figures, and the table entry they lead to. */
    method Finish(list: Table) returns (r: int)
      requires Valid() && list.Valid() && numRecv <= numSent && (tmin != UINT_MAX ==> numRecv + numRept > 0)
      modifies list, list.Repr
      ensures list.Valid() && fresh(list.Repr - old(list.Repr))
      ensures list.Contents() ==
              Apply(old(list.Contents()), Write.Latency(host, EchoModel.Latency(State()), Loss(State().sent, State().recv, U32)))
      ensures r == if numRecv == 0 then 1 else 0
    {
      var loss := LossPercent();
      var latency := AverageTrip();
      list.RecordLatency(host, latency, loss);
      r := if numRecv == 0 then 1 else 0;
    }

    /** latency.c:92-133 for one neighbour: measure, then record.  A run that ends records a loss
        percentage and an average that are sound for what really happened. */
    method MeasureNeighbor(now: nat, onWire: bool, msgs: seq<Message>, list: Table)
      returns (status: Status, r: int, ghost end: Sys)
      requires Valid() && State() == Fresh(count) && 1 <= count < U32 && |msgs| < U32 && list.Valid()
      requires AllEcho(Mine(), Begin(count, now, onWire), msgs)
      requires forall i :: 0 <= i < |msgs| && msgs[i].Received? ==> msgs[i].p.stamp < U32
      modifies this, cktab, list, list.Repr
      ensures list.Valid() && AllGenuine(Begin(count, now, onWire), EventsOf(Mine(), msgs))
      ensures (end, status) == Loop(Begin(count, now, onWire), EventsOf(Mine(), msgs))
      ensures |end.trips| < U32 && SoundReport(end, status, U32)
      ensures list.Contents() == if status == Waiting then old(list.Contents()) else
                Apply(old(list.Contents()), Write.Latency(host, EchoModel.Latency(end.e), Loss(end.e.sent, end.e.recv, U32)))
      ensures status != Waiting ==> r == if end.e.recv == 0 then 1 else 0
    {
      r := 0;
      EchoesAreGenuine(Mine(), Begin(count, now, onWire), msgs);
      EveryRunReportsSoundly(count, now, onWire, EventsOf(Mine(), msgs), U32);
      RunIsTimed(count, now, onWire, EventsOf(Mine(), msgs));
      status, end := Measure(now, onWire, msgs);
      if status != Waiting {
        r := Finish(list);
      }
    }
  }

  /** The requests answered by the packets that are replies to this measurement, packet by packet. */
  ghost function RepliesIn(own: Own, msgs: seq<Message>): seq<nat> {
    if msgs == [] then []
    else
      (match msgs[0]
       case Received(p, _, origin) =>
         if p.isEchoReply && p.id == own.id && p.size >= 12 && (own.multicast || p.from == own.host) then [origin] else []
       case _ => [])
      + RepliesIn(own, msgs[1..])
  }

  ghost function TimersIn(msgs: seq<Message>): nat {
    if msgs == [] then 0 else (if msgs[0].TimerMessage? then 1 else 0) + TimersIn(msgs[1..])
  }

  lemma {:induction false} EventsOfMessages(own: Own, msgs: seq<Message>)
    ensures RequestsOf(EventsOf(own, msgs)) == RepliesIn(own, msgs)
    ensures |SendsOf(EventsOf(own, msgs))| == TimersIn(msgs)
    decreases |msgs|
  {
    if msgs != [] {
      assert EventsOf(own, msgs)[1..] == EventsOf(own, msgs[1..]);
      EventsOfMessages(own, msgs[1..]);
    }
  }

  /** Every run over arbitrary messages: exactly the packets with the right type, identifier, sender and
      size among those taken count, each once, as a reply or a duplicate; one request was sent at first
      and one for every timer.  Of at most 512 requests, the replies are the distinct requests echoed. */
  lemma RunCountsReplies(own: Own, count: nat, now: nat, onWire: bool, msgs: seq<Message>) returns (k: nat)
    requires 1 <= count < U32 && |msgs| < U32 && AllEcho(own, Begin(count, now, onWire), msgs)
    ensures AllGenuine(Begin(count, now, onWire), EventsOf(own, msgs))
    ensures k <= |msgs|
    ensures var (end, status) := Loop(Begin(count, now, onWire), EventsOf(own, msgs));
            && (status.Waiting? ==> k == |msgs|)
            && (status.TimedOut? ==> k < |msgs| && msgs[k].TimerMessage?)
            && end.e.sent == 1 + TimersIn(msgs[..k])
            && end.e.recv + end.e.rept == |RepliesIn(own, msgs[..k])|
            && end.answered == SetOf(RepliesIn(own, msgs[..k]))
            && (count <= 512 ==> end.e.recv == |SetOf(RepliesIn(own, msgs[..k]))|)
  {
    var b, evs := Begin(count, now, onWire), EventsOf(own, msgs);
    EchoesAreGenuine(own, b, msgs);
    BeginInv(count, now, onWire);
    BeginWindow(count, now, onWire);
    LoopKeepsInv(b, evs);
    k := RunCountsEvents(b, evs);
    TripsFit(evs[..k], Loop(b, evs).0.sends);
    assert evs[..k] == EventsOf(own, msgs[..k]);
    EventsOfMessages(own, msgs[..k]);
    if count <= SLOTS {
      UpTo512Exact(count, now, onWire, evs);
    }
  }

  /** A run in which no packet is a reply to it, whatever else arrives: nothing is counted, it never ends
      answered, and what it has to record is a latency of 0 and, while the product fits, a loss of 100. */
  lemma SilentRunRecordsZero(own: Own, count: nat, now: nat, onWire: bool, msgs: seq<Message>)
    requires 1 <= count < U32 && |msgs| < U32 && RepliesIn(own, msgs) == []
    requires AllEcho(own, Begin(count, now, onWire), msgs)
    ensures AllGenuine(Begin(count, now, onWire), EventsOf(own, msgs))
    ensures var (end, status) := Loop(Begin(count, now, onWire), EventsOf(own, msgs));
            && end.e.recv == 0 && end.e.rept == 0 && status != AllAnswered
            && EchoModel.Latency(end.e) == 0
            && (end.e.sent * 100 < U32 ==> Loss(end.e.sent, end.e.recv, U32) == 100)
  {
    var b, evs := Begin(count, now, onWire), EventsOf(own, msgs);
    var k := RunCountsReplies(own, count, now, onWire, msgs);
    RepliesPrefix(own, msgs, k);
    BeginInv(count, now, onWire);
    BeginWindow(count, now, onWire);
    LoopKeepsInv(b, evs);
    RunIsTimed(count, now, onWire, evs);
    if Loop(b, evs).0.e.sent * 100 < U32 {
      AllLost(Loop(b, evs).0.e.sent);
    }
  }

  lemma AllLost(sent: nat)
    requires 0 < sent && sent * 100 < U32
    ensures Loss(sent, 0, U32) == 100
  {
    LossExactIff(sent, 0, U32);
    MultipleDivides(100, sent);
  }

  lemma {:induction false} RepliesPrefix(own: Own, msgs: seq<Message>, k: nat)
    requires k <= |msgs| && RepliesIn(own, msgs) == []
    ensures RepliesIn(own, msgs[..k]) == []
    decreases |msgs|
  {
    if k > 0 {
      assert msgs[..k][0] == msgs[0] && msgs[..k][1..] == msgs[1..][..k - 1];
      assert RepliesIn(own, msgs[1..]) == [];
      RepliesPrefix(own, msgs[1..], k - 1);
    }
  }

  lemma RunIsTimed(count: nat, now: nat, onWire: bool, evs: seq<Event>)
    requires 1 <= count < U32 && AllGenuine(Begin(count, now, onWire), evs) && |evs| < U32
    ensures var s := Loop(Begin(count, now, onWire), evs).0;
            |s.trips| < U32 && (s.e.tmin != UINT_MAX ==> s.e.recv + s.e.rept > 0)
  {
    BeginInv(count, now, onWire);
    BeginWindow(count, now, onWire);
    LoopKeepsInv(Begin(count, now, onWire), evs);
    TripsBounded(Begin(count, now, onWire), evs);
  }

  lemma {:induction false} TripsBounded(s: Sys, evs: seq<Event>)
    requires |s.e.ring| == SLOTS && AllGenuine(s, evs)
    ensures |Loop(s, evs).0.trips| <= |s.trips| + |evs|
    decreases |evs|
  {
    if evs != [] && !(evs[0].TimerFires? && s.e.timer.PingFinish?) {
      var s' := Turn(s, evs[0]);
      if s'.e.recv < s'.e.count {
        TripsBounded(s', evs[1..]);
      }
    }
  }

  // ----- the drain of the message queue -----

  /** A queued message: whether it is a received packet, whether that is ICMPv6, and the rest. */
  datatype Msg = Msg(isReceived: bool, isIcmpv6: bool, content: int)

  predicate Stale(m: Msg) {
    m.isReceived && m.isIcmpv6
  }

  function Stales(q: seq<Msg>): seq<Msg> {
    if q == [] then []
    else Stales(q[..|q| - 1]) + if Stale(q[|q| - 1]) then [q[|q| - 1]] else []
  }

  function Others(q: seq<Msg>): seq<Msg> {
    if q == [] then []
    else Others(q[..|q| - 1]) + if Stale(q[|q| - 1]) then [] else [q[|q| - 1]]
  }

  /** The first turn, from t on, at which the loop counter has caught up with the shrunken queue. */
  function StopFrom(q: seq<Msg>, t: nat): (stop: nat)
    requires t <= |q|
    ensures t <= stop <= |q| && stop + |Stales(q[..stop])| >= |q|
    ensures forall u :: t <= u < stop ==> u + |Stales(q[..u])| < |q|
    decreases |q| - t
  {
    if t + |Stales(q[..t])| >= |q| then t else StopFrom(q, t + 1)
  }

  lemma StalesNext(q: seq<Msg>, t: nat)
    requires t < |q|
    ensures Stales(q[..t + 1]) == Stales(q[..t]) + if Stale(q[t]) then [q[t]] else []
    ensures Others(q[..t + 1]) == Others(q[..t]) + if Stale(q[t]) then [] else [q[t]]
  {
    assert q[..t + 1][..t] == q[..t];
  }

  lemma {:induction false} StalesAndOthers(q: seq<Msg>)
    ensures |Stales(q)| + |Others(q)| == |q|
  {
    if q != [] {
      StalesAndOthers(q[..|q| - 1]);
    }
  }

  lemma {:induction false} StalesAndOthersAreAll(q: seq<Msg>)
    ensures multiset(Stales(q)) + multiset(Others(q)) == multiset(q)
  {
    if q != [] {
      var init, last := q[..|q| - 1], q[|q| - 1];
      StalesAndOthersAreAll(init);
      assert q == init + [last];
      if Stale(last) {
        assert Stales(q) == Stales(init) + [last] && Others(q) == Others(init);
      } else {
        assert Stales(q) == Stales(init) && Others(q) == Others(init) + [last];
      }
    }
  }

  /** What is released is a received ICMPv6 packet, and what is put back is none. */
  lemma {:induction false} SortedByField(q: seq<Msg>)
    ensures forall i :: 0 <= i < |Stales(q)| ==> Stales(q)[i].isReceived && Stales(q)[i].isIcmpv6
    ensures forall i :: 0 <= i < |Others(q)| ==> !(Others(q)[i].isReceived && Others(q)[i].isIcmpv6)
  {
    if q != [] {
      SortedByField(q[..|q| - 1]);
    }
  }

  lemma DrainTurn(q: seq<Msg>, i: nat)
    requires i < |q|
    ensures var left := q[i..] + Others(q[..i]);
            left[0] == q[i] && left[1..] + (if Stale(q[i]) then [] else [q[i]]) == q[i + 1..] + Others(q[..i + 1])
  {
    StalesNext(q, i);
  }

  lemma QueueLength(q: seq<Msg>, i: nat)
    requires i <= |q|
    ensures |q[i..] + Others(q[..i])| == |q| - |Stales(q[..i])|
  {
    StalesAndOthers(q[..i]);
  }

  /** latency.c:135-150.  The bound of the loop is the queue length at each test, so it shrinks with
      every packet released: the loop looks at the first T messages only, releases the ICMPv6
      packets among them, and puts the others back behind the messages it never looked at. */
  method Drain(queue: seq<Msg>) returns (left: seq<Msg>, released: seq<Msg>)
    ensures var stop := StopFrom(queue, 0);
            left == queue[stop..] + Others(queue[..stop]) && released == Stales(queue[..stop])
    ensures forall i :: 0 <= i < |released| ==> released[i].isReceived && released[i].isIcmpv6
    ensures forall i :: |queue| - StopFrom(queue, 0) <= i < |left| ==> !(left[i].isReceived && left[i].isIcmpv6)
  {
    SortedByField(queue[..StopFrom(queue, 0)]);
    left, released := queue, [];
    var i := 0;
    while i < |left|
      invariant 0 <= i <= StopFrom(queue, 0)
      invariant left == queue[i..] + Others(queue[..i]) && |left| == |queue| - |Stales(queue[..i])|
      invariant released == Stales(queue[..i])
      decreases |queue| - i
    {
      DrainTurn(queue, i);
      StalesNext(queue, i);
      QueueLength(queue, i + 1);
      var msg := left[0];
      left := left[1..];
      if Stale(msg) {
        released := released + [msg];
      } else {
        left := left + [msg];
      }
      i := i + 1;
    }
  }

  /** The drain loses no message and releases each removed packet exactly once. */
  lemma DrainConserves(queue: seq<Msg>)
    ensures var stop := StopFrom(queue, 0);
            multiset(queue[stop..] + Others(queue[..stop])) + multiset(Stales(queue[..stop])) == multiset(queue)
  {
    var stop := StopFrom(queue, 0);
    var looked, rest := queue[..stop], queue[stop..];
    StalesAndOthersAreAll(looked);
    assert queue == looked + rest;
    assert multiset(rest + Others(looked)) == multiset(rest) + multiset(Others(looked));
  }

  /** The position after the last ICMPv6 packet. */
  function LastStale(q: seq<Msg>): (p: nat)
    ensures p <= |q| && (p > 0 ==> Stale(q[p - 1])) && forall i :: p <= i < |q| ==> !Stale(q[i])
  {
    if q == [] then 0 else if Stale(q[|q| - 1]) then |q| else LastStale(q[..|q| - 1])
  }

  lemma {:induction false} StalesUpTo(q: seq<Msg>, t: nat)
    requires t <= |q| && forall i :: t <= i < |q| ==> !Stale(q[i])
    ensures Stales(q[..t]) == Stales(q)
    decreases |q| - t
  {
    if t < |q| {
      StalesNext(q, t);
      StalesUpTo(q, t + 1);
    } else {
      assert q[..t] == q;
    }
  }

  /** The loop looks at position t exactly when t is still below the length the queue then has. */
  lemma LookedAtIff(q: seq<Msg>, t: nat)
    requires t <= |q|
    ensures t < StopFrom(q, 0) <==> t + |Stales(q[..t])| < |q|
  {
    StalesMonotone(q, StopFrom(q, 0), t);
  }

  lemma LastStaleCount(q: seq<Msg>)
    requires LastStale(q) > 0
    ensures |Stales(q[..LastStale(q) - 1])| == |Stales(q)| - 1
  {
    StalesUpTo(q, LastStale(q));
    StalesNext(q, LastStale(q) - 1);
  }

  /** Contrary to the comment at latency.c:140, the drain does not always remove all ICMPv6 packets:
      it does exactly when the last of them stands no further back than there are other messages. */
  lemma DrainsAllIff(queue: seq<Msg>)
    ensures (forall i :: StopFrom(queue, 0) <= i < |queue| ==> !(queue[i].isReceived && queue[i].isIcmpv6)) <==>
            (forall i :: 0 <= i < |queue| && queue[i].isReceived && queue[i].isIcmpv6 ==> i <= |Others(queue)|)
  {
    var p := LastStale(queue);
    if p > 0 {
      StalesAndOthers(queue);
      LastStaleCount(queue);
      LookedAtIff(queue, p - 1);
    }
  }

  /** The shortest such queue: of two ICMPv6 packets and nothing else, the drain leaves the second. */
  lemma TwoPacketsLeaveOne(m: Msg)
    requires m.isReceived && m.isIcmpv6
    ensures var queue := [m, m];
            var stop := StopFrom(queue, 0);
            queue[stop..] + Others(queue[..stop]) == [m] && Stales(queue[..stop]) == [m]
  {
    var queue := [m, m];
    StalesNext(queue, 0);
    assert queue[..0] == [];
    assert queue[..0 + 1] == queue[..1] == [m];
    assert StopFrom(queue, 0) == StopFrom(queue, 1) == 1;
  }

  lemma {:induction false} StalesMonotone(q: seq<Msg>, s: nat, t: nat)
    requires s <= |q| && t <= |q|
    ensures s <= t ==> |Stales(q[..s])| <= |Stales(q[..t])|
    decreases t
  {
    if s < t {
      StalesNext(q, t - 1);
      StalesMonotone(q, s, t - 1);
    }
  }
}
