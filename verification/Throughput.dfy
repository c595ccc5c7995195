/**
 The UDP throughput measurement of udp_throughput.c as steps of a server and a client over a
 network that may lose, repeat, delay and reorder datagrams but never invents one.
 */
module Throughput {
  import opened DbModel
  import opened EchoModel

  const START_TEST := 0
  const TEST_ACK := 3
  const SUCCESS := 4
  const PACKET_TIMEOUT := 1_000_000
  const US_PER_SEC := 1_000_000
  const UDP_PACKET_COUNT := 3
  const UDP_PACKET_SIZE := 128

  /** A datagram as a receiver's _udp_data reads it.  A short one carries only the first three
      fields: the client sends sizeof a pointer of its request (udp_throughput.c:176). */
  datatype Dgram = Dgram(id: nat, count: nat, size: nat, rate: nat, short: bool)

  datatype ServerPhase = Idle | Session(got: nat) | Stopped

  datatype ClientPhase = Ready | AwaitAck | Sending(sent: nat) | AwaitResult

  /** A session the server has finished: what it was asked for, what it counted, over how long. */
  datatype Done = Done(count: nat, size: nat, got: nat, elapsed: nat, rate: nat)

  /** Both parties with their reused packet buffers and the server's static start_timer, every
      datagram ever sent either way, and what has been computed and recorded so far. */
  datatype State = State(
    server: ServerPhase, buffer: Dgram, startTimer: nat,
    client: ClientPhase, packet: Dgram,
    toServer: set<Dgram>, toClient: set<Dgram>,
    done: seq<Done>, recorded: seq<nat>)

  datatype Step =
    | ServerReceives(d: Dgram)
    | ServerCounts(d: Dgram, now: nat)
    | ServerEnds(now: nat)
    | ClientStarts
    | ClientReceivesAck(d: Dgram)
    | ClientSends(payload: Dgram)
    | ClientReceivesResult(d: Dgram)
    | ClientGivesUp

  function Initial(): State {
    var blank := Dgram(0, 0, 0, 0, false);
    State(Idle, blank, 0, Ready, blank, {}, {}, [], [])
  }

  /** Receiving into a reused buffer. */
  function Overlay(buffer: Dgram, d: Dgram): Dgram {
    if d.short then buffer.(id := d.id, count := d.count, size := d.size) else d
  }

  /** udp_throughput.c:109-112 and 114: the difference of two 32-bit timer values. */
  function Elapsed(now: nat, startTimer: nat, complete: bool): nat {
    (now - 100 - (if complete then 0 else PACKET_TIMEOUT) - startTimer) % U32
  }

  /** udp_throughput.c:113-114 in 32-bit arithmetic. */
  function Rate(size: nat, got: nat, elapsed: nat): nat
    requires elapsed > 0
  {
    WordQuotient(size * got * US_PER_SEC, elapsed, U32)
  }

  /** udp_throughput.c:188: the loop goes on to the result once all payloads have been sent. */
  function SendingFrom(sent: nat, count: nat): ClientPhase {
    if sent < count then Sending(sent) else AwaitResult
  }

  /** A step can happen: what is received was sent, and the party is where the code receives it. */
  predicate Enabled(s: State, step: Step) {
    match step
    case ServerReceives(d) => s.server == Idle && d in s.toServer
    case ServerCounts(d, _) => s.server.Session? && s.server.got < s.buffer.count && d in s.toServer
    case ServerEnds(now) =>
      s.server.Session? && Elapsed(now, s.startTimer, s.server.got == s.buffer.count) > 0
    case ClientStarts => s.client == Ready
    case ClientReceivesAck(d) => s.client == AwaitAck && d in s.toClient
    case ClientSends(_) => s.client.Sending?
    case ClientReceivesResult(d) => s.client == AwaitResult && d in s.toClient
    case ClientGivesUp => s.client != Ready
  }

  function Do(s: State, step: Step): State
    requires Enabled(s, step)
  {
    match step
    case ServerReceives(d) =>
      // udp_throughput.c:75-94 and 125-128
      var b := Overlay(s.buffer, d);
      if b.id == START_TEST then
        var ack := b.(id := TEST_ACK);
        s.(server := Session(0), buffer := ack, toClient := s.toClient + {ack})
      else s.(server := Stopped, buffer := b)
    case ServerCounts(_, now) =>
      // udp_throughput.c:95-108, into a buffer of its own
      s.(server := Session(s.server.got + 1), startTimer := if s.server.got == 0 then now % U32 else s.startTimer)
    case ServerEnds(now) =>
      // udp_throughput.c:109-123: all packets counted, or the receive timed out or failed
      var b := s.buffer;
      var elapsed := Elapsed(now, s.startTimer, s.server.got == b.count);
      var rate := Rate(b.size, s.server.got, elapsed);
      var result := b.(id := SUCCESS, rate := rate);
      s.(server := Idle, buffer := result, toClient := s.toClient + {result},
         done := s.done + [Done(b.count, b.size, s.server.got, elapsed, rate)])
    case ClientStarts =>
      // udp_throughput.c:170-179
      var request := Dgram(START_TEST, UDP_PACKET_COUNT, UDP_PACKET_SIZE, 0, true);
      s.(client := AwaitAck, packet := request.(short := false), toServer := s.toServer + {request})
    case ClientReceivesAck(d) =>
      // udp_throughput.c:180-187
      var p := Overlay(s.packet, d);
      if p.id == TEST_ACK then s.(client := SendingFrom(0, p.count), packet := p)
      else s.(client := Ready, packet := p, recorded := s.recorded + [0])
    case ClientSends(payload) =>
      // udp_throughput.c:187-195: the payload is never initialised
      s.(client := SendingFrom(s.client.sent + 1, s.packet.count), toServer := s.toServer + {payload})
    case ClientReceivesResult(d) =>
      // udp_throughput.c:196-206
      var p := Overlay(s.packet, d);
      s.(client := Ready, packet := p, recorded := s.recorded + [if p.id == SUCCESS then p.rate else 0])
    case ClientGivesUp =>
      // every path to finish with nothing received
      s.(client := Ready, recorded := s.recorded + [0])
  }

  ghost predicate ValidRun(s: State, steps: seq<Step>)
    decreases |steps|
  {
    steps == [] || (Enabled(s, steps[0]) && ValidRun(Do(s, steps[0]), steps[1..]))
  }

  ghost function After(s: State, steps: seq<Step>): State
    requires ValidRun(s, steps)
    decreases |steps|
  {
    if steps == [] then s else After(Do(s, steps[0]), steps[1..])
  }

  // ----- what every run keeps -----

  ghost predicate Reported(done: seq<Done>, rate: nat) {
    exists i :: 0 <= i < |done| && done[i].rate == rate
  }

  /** A finished session never counted more than it was asked for, and its rate is the division. */
  ghost predicate Sound(d: Done) {
    d.got <= d.count && 0 < d.elapsed < U32 && d.rate == Rate(d.size, d.got, d.elapsed)
  }

  ghost predicate Inv(s: State) {
    && (s.server.Session? ==> s.server.got <= s.buffer.count)
    && !s.buffer.short
    && (forall i :: 0 <= i < |s.done| ==> Sound(s.done[i]))
    && (forall d :: d in s.toClient ==> !d.short && (d.id == SUCCESS ==> Reported(s.done, d.rate)))
    && (forall i :: 0 <= i < |s.recorded| ==> s.recorded[i] == 0 || Reported(s.done, s.recorded[i]))
  }

  lemma ReportedStays(done: seq<Done>, d: Done, rate: nat)
    requires Reported(done, rate)
    ensures Reported(done + [d], rate)
  {
    var i :| 0 <= i < |done| && done[i].rate == rate;
    assert (done + [d])[i].rate == rate;
  }

  lemma StepKeepsInv(s: State, step: Step)
    requires Inv(s) && Enabled(s, step)
    ensures Inv(Do(s, step))
  {
    if step.ServerEnds? {
      var s' := Do(s, step);
      var d := s'.done[|s.done|];
      assert s'.done[|s.done|].rate == d.rate;
      assert Reported(s'.done, d.rate);
      forall rate | Reported(s.done, rate)
        ensures Reported(s'.done, rate)
      {
        ReportedStays(s.done, d, rate);
      }
    }
  }

  lemma {:induction false} RunKeepsInv(s: State, steps: seq<Step>)
    requires Inv(s) && ValidRun(s, steps)
    ensures Inv(After(s, steps))
    decreases |steps|
  {
    if steps != [] {
      StepKeepsInv(s, steps[0]);
      RunKeepsInv(Do(s, steps[0]), steps[1..]);
    }
  }

  lemma QuotientBounds(x: nat, y: nat)
    requires y > 0
    ensures x / y * y <= x < (x / y + 1) * y
  {
    assert x == x / y * y + x % y;
    assert (x / y + 1) * y == x / y * y + y;
  }

  /** The reported rate is the truncated quotient of the bytes by the time exactly when the product
      fits 32 bits; it then satisfies rate * elapsed <= bytes * 10^6 < (rate + 1) * elapsed. */
  lemma RateExactIff(d: Done)
    requires Sound(d)
    ensures var total := d.size * d.got * US_PER_SEC;
            && (d.rate == total / d.elapsed <==> total < U32)
            && (total < U32 ==> d.rate * d.elapsed <= total < (d.rate + 1) * d.elapsed)
  {
    var total := d.size * d.got * US_PER_SEC;
    QuotientExactIff(total, d.elapsed, U32);
    QuotientBounds(total, d.elapsed);
  }

  /** In every run: what a client records is 0 or the rate of a session the server finished, which
      counted at most the datagrams asked for. */
  lemma ClientRecordsFinishedRates(steps: seq<Step>)
    requires ValidRun(Initial(), steps)
    ensures var s := After(Initial(), steps);
            && (forall i :: 0 <= i < |s.done| ==> s.done[i].got <= s.done[i].count && Sound(s.done[i]))
            && (forall i :: 0 <= i < |s.recorded| ==> s.recorded[i] == 0 || Reported(s.done, s.recorded[i]))
  {
    RunKeepsInv(Initial(), steps);
  }

  // ----- what a session has counted, said of the steps -----

  /** The datagrams counted among some steps. */
  function CountsIn(steps: seq<Step>): nat {
    if steps == [] then 0 else (if steps[0].ServerCounts? then 1 else 0) + CountsIn(steps[1..])
  }

  /** When the first of them was counted. */
  function FirstCount(steps: seq<Step>): Option<nat> {
    if steps == [] then None
    else if steps[0].ServerCounts? then Some(steps[0].now)
    else FirstCount(steps[1..])
  }

  function EndsIn(steps: seq<Step>): nat {
    if steps == [] then 0 else (if steps[0].ServerEnds? then 1 else 0) + EndsIn(steps[1..])
  }

  ghost predicate NoEnd(steps: seq<Step>) {
    forall i :: 0 <= i < |steps| ==> !steps[i].ServerEnds? && !steps[i].ServerReceives?
  }

  lemma {:induction false} RunSplit(s: State, steps: seq<Step>, k: nat)
    requires ValidRun(s, steps) && k <= |steps|
    ensures ValidRun(s, steps[..k]) && ValidRun(After(s, steps[..k]), steps[k..])
    ensures After(s, steps) == After(After(s, steps[..k]), steps[k..])
    decreases k
  {
    if k == 0 {
      assert steps[..0] == [] && steps[0..] == steps;
    } else {
      RunSplit(Do(s, steps[0]), steps[1..], k - 1);
      assert steps[..k][1..] == steps[1..][..k - 1] && steps[1..][k - 1..] == steps[k..];
    }
  }

  lemma RunStep(s: State, steps: seq<Step>, k: nat)
    requires ValidRun(s, steps) && k < |steps|
    ensures ValidRun(s, steps[..k]) && ValidRun(s, steps[..k + 1]) && Enabled(After(s, steps[..k]), steps[k])
    ensures After(s, steps[..k + 1]) == Do(After(s, steps[..k]), steps[k])
  {
    RunSplit(s, steps, k + 1);
    RunSplit(s, steps[..k + 1], k);
    assert steps[..k + 1][..k] == steps[..k] && steps[..k + 1][k..] == [steps[k]];
    assert [steps[k]][1..] == [];
  }

  /** The step by which the server entered the session it is in. */
  lemma {:induction false} SessionStart(s: State, steps: seq<Step>) returns (a: nat)
    requires ValidRun(s, steps) && !s.server.Session? && After(s, steps).server.Session?
    ensures a < |steps| && steps[a].ServerReceives? && steps[a].d.id == START_TEST && NoEnd(steps[a + 1..])
    decreases |steps|
  {
    var k := |steps| - 1;
    RunStep(s, steps, k);
    assert steps[..k + 1] == steps;
    if After(s, steps[..k]).server.Session? {
      a := SessionStart(s, steps[..k]);
      assert steps[a + 1..] == steps[..k][a + 1..] + [steps[k]];
    } else {
      a := k;
    }
  }

  /** While a session runs, the server only counts. */
  lemma {:induction false} SessionCounts(s: State, steps: seq<Step>)
    requires ValidRun(s, steps) && s.server.Session? && NoEnd(steps)
    ensures var s' := After(s, steps);
            && s'.server == Session(s.server.got + CountsIn(steps)) && s'.buffer == s.buffer && s'.done == s.done
            && s'.startTimer == if s.server.got == 0 && FirstCount(steps).Some? then FirstCount(steps).value % U32 else s.startTimer
    decreases |steps|
  {
    if steps != [] {
      SessionCounts(Do(s, steps[0]), steps[1..]);
    }
  }

  /** What a session that started by datagram d and ended at now has to come to, given the steps
      between and what the timer held before. */
  ghost predicate Accounts(done: Done, d: Dgram, between: seq<Step>, now: nat, timer: nat) {
    && done.count == d.count && done.size == d.size && done.got == CountsIn(between) <= d.count
    && (var first := match FirstCount(between) case Some(t) => t % 0x1_0000_0000 case None => timer;
        done.elapsed == (now - 100 - first - if CountsIn(between) < d.count then 1_000_000 else 0) % 0x1_0000_0000)
    && 0 < done.elapsed
    && (done.size * done.got * 1_000_000 < 0x1_0000_0000 ==> done.rate == done.size * done.got * 1_000_000 / done.elapsed)
  }

  /** Every finished session of every run: it began with a request, ends with the step that reports
      it, and its count is the number of datagrams counted in between, its time the difference between
      the end and the first of them, less the timeout when some were missing. */
  lemma SessionAccounts(steps: seq<Step>, b: nat) returns (a: nat)
    requires ValidRun(Initial(), steps) && b < |steps| && steps[b].ServerEnds?
    ensures a < b && steps[a].ServerReceives? && steps[a].d.id == START_TEST && NoEnd(steps[a + 1..b])
    ensures ValidRun(Initial(), steps[..a]) && ValidRun(Initial(), steps[..b]) && ValidRun(Initial(), steps[..b + 1])
    ensures var before, after := After(Initial(), steps[..b]).done, After(Initial(), steps[..b + 1]).done;
            && |after| == |before| + 1 && after[..|before|] == before
            && Accounts(after[|before|], steps[a].d, steps[a + 1..b], steps[b].now, After(Initial(), steps[..a]).startTimer)
  {
    var init := steps[..b];
    RunStep(Initial(), steps, b);
    a := SessionStart(Initial(), init);
    assert init[a + 1..] == steps[a + 1..b] && init[..a] == steps[..a] && init[..a + 1] == steps[..a + 1];
    RunStep(Initial(), init, a);
    RunSplit(Initial(), init, a + 1);
    SessionCounts(After(Initial(), steps[..a + 1]), steps[a + 1..b]);
    InitInv();
    RunKeepsInv(Initial(), steps[..b + 1]);
    RunKeepsInv(Initial(), init);
    var before, after := After(Initial(), init), After(Initial(), steps[..b + 1]);
    RateExactIff(after.done[|before.done|]);
  }

  lemma InitInv()
    ensures Inv(Initial())
  {
  }

  /** And there are no other results: one for every end of a session. */
  lemma {:induction false} OneResultPerEnd(s: State, steps: seq<Step>)
    requires ValidRun(s, steps)
    ensures |After(s, steps).done| == |s.done| + EndsIn(steps)
    decreases |steps|
  {
    if steps != [] {
      OneResultPerEnd(Do(s, steps[0]), steps[1..]);
    }
  }

  // ----- a run in which nothing is lost -----

  lemma RunCons(s: State, step: Step, rest: seq<Step>)
    requires Enabled(s, step) && ValidRun(Do(s, step), rest)
    ensures ValidRun(s, [step] + rest) && After(s, [step] + rest) == After(Do(s, step), rest)
  {
    assert ([step] + rest)[1..] == rest;
  }

  /** A request for three datagrams of 128 bytes, as the client sends it. */
  function Request(): Dgram {
    Dgram(0, 3, 128, 0, true)
  }

  /** The server's answers to it, with the rate its buffer holds. */
  function Answer(id: nat, rate: nat): Dgram {
    Dgram(id, 3, 128, rate, false)
  }

  /** The request arrives, the acknowledgement comes back, and the client sends its three payloads. */
  lemma CleanStart(s: State, p: Dgram) returns (s': State)
    requires Inv(s) && s.server.Idle? && s.client.Ready?
    ensures var steps := [ClientStarts, ServerReceives(Request()), ClientReceivesAck(Answer(3, s.buffer.rate)),
                          ClientSends(p), ClientSends(p), ClientSends(p)];
            ValidRun(s, steps) && s' == After(s, steps)
    ensures s'.server == Session(0) && s'.client == AwaitResult && s'.buffer == Answer(3, s.buffer.rate)
    ensures p in s'.toServer && s'.recorded == s.recorded && s'.packet == Answer(3, s.buffer.rate)
  {
    var ack := Answer(3, s.buffer.rate);
    var s1 := Do(s, ClientStarts);
    assert Request() in s1.toServer;
    var s2 := Do(s1, ServerReceives(Request()));
    assert s2.buffer == ack && ack in s2.toClient;
    var s3 := Do(s2, ClientReceivesAck(ack));
    var s4 := Do(s3, ClientSends(p));
    var s5 := Do(s4, ClientSends(p));
    s' := Do(s5, ClientSends(p));
    RunCons(s5, ClientSends(p), []);
    RunCons(s4, ClientSends(p), [ClientSends(p)]);
    RunCons(s3, ClientSends(p), [ClientSends(p), ClientSends(p)]);
    RunCons(s2, ClientReceivesAck(ack), [ClientSends(p), ClientSends(p), ClientSends(p)]);
    RunCons(s1, ServerReceives(Request()), [ClientReceivesAck(ack), ClientSends(p), ClientSends(p), ClientSends(p)]);
    RunCons(s, ClientStarts,
            [ServerReceives(Request()), ClientReceivesAck(ack), ClientSends(p), ClientSends(p), ClientSends(p)]);
  }

  /** The three payloads are counted, the server reports, and the client records what it is told. */
  lemma CleanFinish(s: State, p: Dgram, first: nat, second: nat, third: nat, end: nat) returns (s': State)
    requires s.server == Session(0) && s.client == AwaitResult && s.buffer.count == 3 && s.buffer.size == 128
    requires p in s.toServer && !s.buffer.short && s.packet.id != SUCCESS
    requires (end - 100 - first % U32) % U32 > 0
    ensures var rate := 384_000_000 / ((end - 100 - first % U32) % U32);
            var steps := [ServerCounts(p, first), ServerCounts(p, second), ServerCounts(p, third), ServerEnds(end),
                          ClientReceivesResult(s.buffer.(id := SUCCESS, rate := rate))];
            && ValidRun(s, steps) && s' == After(s, steps)
            && s'.recorded == s.recorded + [rate] && s'.server.Idle? && s'.client.Ready?
  {
    var elapsed := (end - 100 - first % U32) % U32;
    var s1 := Do(s, ServerCounts(p, first));
    var s2 := Do(s1, ServerCounts(p, second));
    var s3 := Do(s2, ServerCounts(p, third));
    assert s3.server == Session(3) && s3.startTimer == first % U32 && s3.buffer == s.buffer;
    assert Elapsed(end, s3.startTimer, true) == elapsed;
    var s4 := Do(s3, ServerEnds(end));
    var rate := 384_000_000 / elapsed;
    assert 128 * 3 * US_PER_SEC == 384_000_000 && 384_000_000 % U32 == 384_000_000;
    assert Rate(128, 3, elapsed) == rate;
    var result := s.buffer.(id := SUCCESS, rate := rate);
    assert result in s4.toClient;
    s' := Do(s4, ClientReceivesResult(result));
    RunCons(s4, ClientReceivesResult(result), []);
    RunCons(s3, ServerEnds(end), [ClientReceivesResult(result)]);
    RunCons(s2, ServerCounts(p, third), [ServerEnds(end), ClientReceivesResult(result)]);
    RunCons(s1, ServerCounts(p, second), [ServerCounts(p, third), ServerEnds(end), ClientReceivesResult(result)]);
    RunCons(s, ServerCounts(p, first),
            [ServerCounts(p, second), ServerCounts(p, third), ServerEnds(end), ClientReceivesResult(result)]);
  }

  lemma {:induction false} RunJoin(s: State, a: seq<Step>, b: seq<Step>)
    requires ValidRun(s, a) && ValidRun(After(s, a), b)
    ensures ValidRun(s, a + b) && After(s, a + b) == After(After(s, a), b)
    decreases |a|
  {
    if a == [] {
      assert a + b == b;
    } else {
      RunJoin(Do(s, a[0]), a[1..], b);
      assert (a + b)[1..] == a[1..] + b;
    }
  }

  /** The steps of a measurement in which nothing is lost. */
  function CleanSteps(stale: nat, p: Dgram, first: nat, second: nat, third: nat, end: nat, rate: nat): seq<Step> {
    [ClientStarts, ServerReceives(Request()), ClientReceivesAck(Answer(3, stale)),
     ClientSends(p), ClientSends(p), ClientSends(p)] +
    [ServerCounts(p, first), ServerCounts(p, second), ServerCounts(p, third), ServerEnds(end),
     ClientReceivesResult(Answer(4, rate))]
  }

  /** From every state in which server and client are free: the client records exactly the 384 bytes
      times 10^6 by the microseconds from the first payload to the end. */
  lemma CleanRunRecordsRate(s: State, p: Dgram, first: nat, second: nat, third: nat, end: nat)
    requires Inv(s) && s.server.Idle? && s.client.Ready? && (end - 100 - first % U32) % U32 > 0
    ensures var rate := 384_000_000 / ((end - 100 - first % U32) % U32);
            var steps := CleanSteps(s.buffer.rate, p, first, second, third, end, rate);
            && ValidRun(s, steps)
            && After(s, steps).recorded == s.recorded + [rate]
  {
    var mid := CleanStart(s, p);
    var last := CleanFinish(mid, p, first, second, third, end);
    var rate := 384_000_000 / ((end - 100 - first % U32) % U32);
    assert mid.buffer.(id := SUCCESS, rate := rate) == Answer(4, rate);
    RunJoin(s, [ClientStarts, ServerReceives(Request()), ClientReceivesAck(Answer(3, s.buffer.rate)),
                ClientSends(p), ClientSends(p), ClientSends(p)],
            [ServerCounts(p, first), ServerCounts(p, second), ServerCounts(p, third), ServerEnds(end),
             ClientReceivesResult(Answer(4, rate))]);
  }

  /** With payloads counted at 1000, 2000 and 3000 microseconds and the end at 3200: 182857 bytes a second. */
  lemma CleanRunExample(p: Dgram)
    ensures var steps := CleanSteps(0, p, 1000, 2000, 3000, 3200, 182857);
            ValidRun(Initial(), steps) && After(Initial(), steps).recorded == [182857]
  {
    InitInv();
    CleanRunRecordsRate(Initial(), p, 1000, 2000, 3000, 3200);
    assert 384_000_000 / 2100 == 182857;
  }

  // ----- what ends a measurement early -----

  lemma RunSnoc(s: State, steps: seq<Step>, step: Step)
    requires ValidRun(s, steps) && Enabled(After(s, steps), step)
    ensures ValidRun(s, steps + [step]) && After(s, steps + [step]) == Do(After(s, steps), step)
  {
    RunCons(After(s, steps), step, []);
    assert [step] + [] == [step];
    RunJoin(s, steps, [step]);
  }

  /** What each step of the client adds to its results: an acknowledgement nothing, a wrong answer to the
      request or no answer at all 0, and a report the rate it carries, if it is one. */
  lemma ClientResults(s: State, steps: seq<Step>, step: Step)
    requires ValidRun(s, steps) && Enabled(After(s, steps), step)
    ensures ValidRun(s, steps + [step])
    ensures var before, after := After(s, steps), After(s, steps + [step]);
            && (step.ClientReceivesAck? ==> after.recorded == before.recorded + if step.d.id == 3 then [] else [0])
            && (step.ClientReceivesResult? && !step.d.short ==>
                  after.recorded == before.recorded + [if step.d.id == 4 then step.d.rate else 0])
            && (step.ClientGivesUp? ==> after.recorded == before.recorded + [0])
            && (step.ServerReceives? || step.ServerCounts? || step.ServerEnds? || step.ClientStarts? || step.ClientSends? ==>
                  after.recorded == before.recorded)
  {
    RunSnoc(s, steps, step);
    var before := After(s, steps);
    assert before.recorded + [] == before.recorded;
  }

  /** A datagram that is no request stops the server: whatever follows, it never reports again. */
  lemma {:induction false} WrongRequestStopsServer(s: State, d: Dgram, steps: seq<Step>)
    requires Enabled(s, ServerReceives(d)) && d.id != 0 && ValidRun(s, [ServerReceives(d)] + steps)
    ensures var s' := After(s, [ServerReceives(d)] + steps);
            s'.server.Stopped? && s'.done == s.done && s'.toClient == s.toClient
  {
    assert ([ServerReceives(d)] + steps)[1..] == steps;
    StoppedStays(Do(s, ServerReceives(d)), steps);
  }

  lemma {:induction false} StoppedStays(s: State, steps: seq<Step>)
    requires s.server.Stopped? && ValidRun(s, steps)
    ensures var s' := After(s, steps);
            s'.server.Stopped? && s'.done == s.done && s'.toClient == s.toClient
    decreases |steps|
  {
    if steps != [] {
      StoppedStays(Do(s, steps[0]), steps[1..]);
    }
  }
}
