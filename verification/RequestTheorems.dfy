/** What histories of requests leave behind in the neighbour list and in the field counts. */
module RequestTheorems {
  import opened NeighborTable
  import opened DbModel
  import opened DumpTheorems
  import opened DumpSpec
  import opened Lookup
  import opened PathTheorems
  import opened LookupTheorems
  import opened NetifLookup
  import opened Requests

  // ----- the neighbour list -----

  /** The measurement results among some writes. */
  ghost function Recorded(ws: seq<Write>): seq<Write> {
    if ws == [] then []
    else
      var w := ws[|ws| - 1];
      Recorded(ws[..|ws| - 1]) + if w.Discover? then [] else [w]
  }

  /** t' is t after some discoveries and exactly the given measurement results, in this order. */
  ghost predicate Grew(t: seq<Entry>, t': seq<Entry>, results: seq<Write>) {
    exists ws :: t' == ApplyAll(t, ws) && Recorded(ws) == results
  }

  lemma {:induction false} RecordedConcat(a: seq<Write>, b: seq<Write>)
    ensures Recorded(a + b) == Recorded(a) + Recorded(b)
  {
    if b == [] {
      assert a + b == a;
    } else {
      assert (a + b)[..|a + b| - 1] == a + b[..|b| - 1];
      RecordedConcat(a, b[..|b| - 1]);
    }
  }

  lemma {:induction false} OnlyDiscoveries(ws: seq<Write>)
    requires forall i :: 0 <= i < |ws| ==> ws[i].Discover?
    ensures Recorded(ws) == []
  {
    if ws != [] {
      OnlyDiscoveries(ws[..|ws| - 1]);
    }
  }

  lemma {:induction false} ApplyAllConcat(t: seq<Entry>, a: seq<Write>, b: seq<Write>)
    ensures ApplyAll(t, a + b) == ApplyAll(ApplyAll(t, a), b)
  {
    if b == [] {
      assert a + b == a;
    } else {
      assert (a + b)[..|a + b| - 1] == a + b[..|b| - 1];
      ApplyAllConcat(t, a, b[..|b| - 1]);
    }
  }

  lemma GrewNot(t: seq<Entry>)
    ensures Grew(t, t, [])
  {
    assert t == ApplyAll(t, []) && Recorded([]) == [];
  }

  lemma GrewTwice(t: seq<Entry>, t': seq<Entry>, t'': seq<Entry>, first: seq<Write>, second: seq<Write>)
    requires Grew(t, t', first) && Grew(t', t'', second)
    ensures Grew(t, t'', first + second)
  {
    var a :| t' == ApplyAll(t, a) && Recorded(a) == first;
    var b :| t'' == ApplyAll(t', b) && Recorded(b) == second;
    ApplyAllConcat(t, a, b);
    RecordedConcat(a, b);
  }

  /** Two steps that record nothing. */
  lemma DiscoveredTwice(t: seq<Entry>, t': seq<Entry>, t'': seq<Entry>)
    requires Grew(t, t', []) && Grew(t', t'', [])
    ensures Grew(t, t'', [])
  {
    GrewTwice(t, t', t'', [], []);
  }

  lemma CountDiscovers(g: Globals, i: Iface)
    ensures Grew(g.table, CountNeighbors(g, i).table, [])
  {
    OnlyDiscoveries(Discoveries(i.cache));
  }

  lemma {:induction false} IfacesDiscover(show: bool, env: Env, g: Globals, from: nat)
    requires ValidEnv(env) && Good(g) && g.sub == 1 && from <= |env.ifaces|
    ensures Grew(g.table, IfacesFrom(show, env, g, from).g.table, [])
    decreases |env.ifaces| - from
  {
    GrewNot(g.table);
    if from < |env.ifaces| {
      var i := env.ifaces[from];
      var first := IfaceFields(show, g, i).g;
      CountDiscovers(g, i);
      IfacesDiscover(show, env, first, from + 1);
      DiscoveredTwice(g.table, first.table, IfacesFrom(show, env, first, from + 1).g.table);
    }
  }

  lemma {:induction false} DynamicsDiscover(show: bool, env: Env, g: Globals, ds: seq<Dynamic>)
    requires ValidEnv(env) && Good(g)
    ensures Grew(g.table, DynamicsFrom(show, env, g, ds).g.table, [])
    decreases |ds|
  {
    GrewNot(g.table);
    if ds != [] {
      var h := DynamicOut(show, env, g, ds[0]).1;
      IfacesDiscover(show, env, g.(field := 0, sub := 1), 0);
      DynamicsDiscover(show, env, h, ds[1..]);
      DiscoveredTwice(g.table, h.table, DynamicsFrom(show, env, h, ds[1..]).g.table);
    }
  }

  lemma {:induction false} BranchesDiscover(show: bool, env: Env, g: Globals, from: nat)
    requires ValidEnv(env) && Good(g) && from <= |env.index|
    ensures Grew(g.table, BranchesFrom(show, env, g, from).g.table, [])
    decreases |env.index| - from
  {
    GrewNot(g.table);
    if from < |env.index| {
      var h := BranchFrom(show, env, g, env.index[from], 0).g;
      DynamicsDiscover(show, env, g, env.index[from].dynamics);
      BranchesDiscover(show, env, h, from + 1);
      DiscoveredTwice(g.table, h.table, BranchesFrom(show, env, h, from + 1).g.table);
    }
  }

  /** Walking a cursor never touches the neighbour list. */
  lemma NextKeepsTable(env: Env, g: Globals, n: Node, child: Node)
    requires ValidEnv(env) && Good(g) && Iterable(env, g, n, child)
    ensures Next(env, g, n, child).g.table == g.table
  {
  }

  lemma {:induction false} ScanKeepsTable(env: Env, g: Globals, n: Node, child: Node, tok: string)
    requires ValidEnv(env) && Good(g) && Iterable(env, g, n, child)
    ensures Scan(env, g, n, child, tok).g.table == g.table
    decreases Rank(env, g, n)
  {
    var s := Next(env, g, n, child);
    NextKeepsTable(env, g, n, child);
    RankDrops(env, g, n, child);
    if !s.child.Null? && !Matches(tok, NameOf(env, s.g, s.child)) {
      ScanKeepsTable(env, s.g, s.node, s.child, tok);
    }
  }

  lemma {:induction false} DescendKeepsTable(env: Env, g: Globals, n: Node, child: Node, toks: seq<string>)
    requires ValidEnv(env) && Good(g) && Named(env, g, n) && Iterable(env, g, n, child)
    ensures Descend(env, g, n, child, toks).g.table == g.table
    decreases |toks|
  {
    if toks != [] {
      ScanKeepsTable(env, g, n, child, toks[0]);
      var s := Scan(env, g, n, child, toks[0]);
      if !s.child.Null? {
        Descendable(env, s.g, s.child);
        DescendKeepsTable(env, s.g, s.child, s.child, toks[1..]);
      }
    }
  }

  lemma {:induction false} ListingKeepsTable(env: Env, s: Step)
    requires ValidEnv(env) && (s.child.Null? || Continues(env, s)) && Good(s.g)
    ensures Listing(env, s).1.table == s.g.table
    decreases if s.child.Null? then 0 else 1 + Rank(env, s.g, s.node)
  {
    if !s.child.Null? {
      RankDrops(env, s.g, s.node, s.child);
      NextKeepsTable(env, s.g, s.node, s.child);
      ListingKeepsTable(env, Next(env, s.g, s.node, s.child));
    }
  }

  lemma AnswerDiscovers(env: Env, g: Globals, n: Node)
    requires ValidEnv(env) && Good(g) && Named(env, g, n)
    ensures Grew(g.table, Answer(env, g, n).1.table, [])
  {
    GrewNot(g.table);
    if TypeOf(env, g, n).InnerType? {
      NextKeepsTable(env, g, n, Null);
      ListingKeepsTable(env, Next(env, g, n, Null));
    } else if n.Netif? {
      CountDiscovers(g, env.ifaces[n.iface]);
    }
  }

  /** The measurement result a request brings, if any. */
  ghost function ResultOf(req: Request): seq<Write> {
    match req
    case Record(w) => Recorded([w])
    case _ => []
  }

  /** Queries and dumps write nothing but discoveries; a measurement writes its one result. */
  lemma HandleWrites(env: Env, g: Globals, req: Request)
    requires ValidEnv(env) && Good(g)
    ensures Grew(g.table, Handle(env, g, req).1.table, ResultOf(req))
  {
    match req
    case Query(path) =>
      var f := Find(env, g, Components(path));
      DescendKeepsTable(env, g, Root(0), Null, Components(path));
      GrewNot(g.table);
      if f.node.Some? {
        AnswerDiscovers(env, f.g, f.node.value);
      }
    case DumpAll => BranchesDiscover(true, env, g, 0);
    case Record(w) =>
      assert [w][..0] == [];
      assert Apply(g.table, w) == ApplyAll(g.table, [w]);
  }

  /** The measurement results among some requests, in order. */
  ghost function Results(calls: seq<Call>): seq<Write> {
    if calls == [] then [] else Results(calls[..|calls| - 1]) + ResultOf(calls[|calls| - 1].req)
  }

  lemma {:induction false} RunWrites(g: Globals, calls: seq<Call>)
    requires ValidCalls(calls) && Good(g)
    ensures Grew(g.table, Run(g, calls).table, Results(calls))
  {
    GrewNot(g.table);
    if calls != [] {
      var init, last := calls[..|calls| - 1], calls[|calls| - 1];
      RunWrites(g, init);
      HandleWrites(last.env, Run(g, init), last.req);
      GrewTwice(g.table, Run(g, init).table, Run(g, calls).table, Results(init), ResultOf(last.req));
    }
  }

  /** Over any sequence of lookups, reads, listings, dumps and measurements, no neighbour is ever
      lost or reordered: the old addresses stay, in order, behind the new ones. */
  lemma NeighborsOutliveHistory(g: Globals, calls: seq<Call>)
    requires ValidCalls(calls) && Good(g)
    ensures var g' := Run(g, calls);
            && |g.table| <= |g'.table| && Distinct(g'.table)
            && AddrSeq(g'.table)[|g'.table| - |g.table|..] == AddrSeq(g.table)
  {
    RunWrites(g, calls);
    var ws :| Run(g, calls).table == ApplyAll(g.table, ws) && Recorded(ws) == Results(calls);
    PositionsShift(g.table, ws);
    TableGrowth(g.table, ws);
  }

  lemma {:induction false} LastOfRecorded(e: Entry, ws: seq<Write>)
    ensures LastLatency(e, Recorded(ws)) == LastLatency(e, ws)
    ensures LastThroughput(e, Recorded(ws)) == LastThroughput(e, ws)
  {
    if ws != [] {
      var init, w := ws[..|ws| - 1], ws[|ws| - 1];
      LastOfRecorded(e, init);
      if w.Discover? {
        assert Recorded(init) + [] == Recorded(init);
      } else {
        assert (Recorded(init) + [w])[..|Recorded(init)|] == Recorded(init);
      }
    }
  }

  /** After any sequence of requests each listed neighbour has exactly the latency and loss of the
      last latency result recorded for it and the throughput of the last throughput result, or what
      it had before, or zeros when it was only discovered.  No query and no dump ever changes one. */
  lemma ValuesAreLastRecorded(g: Globals, calls: seq<Call>, a: Addr)
    requires ValidCalls(calls) && Good(g) && a in Addrs(Run(g, calls).table)
    ensures var start := if a in Addrs(g.table) then AsMap(g.table)[a] else Entry(a, 0, 0, 0);
            var (latency, loss) := LastLatency(start, Results(calls));
            AsMap(Run(g, calls).table)[a] == Entry(a, latency, loss, LastThroughput(start, Results(calls)))
  {
    RunWrites(g, calls);
    var ws :| Run(g, calls).table == ApplyAll(g.table, ws) && Recorded(ws) == Results(calls);
    FieldsAreIndependent(g.table, ws, a);
    LastOfRecorded(if a in Addrs(g.table) then AsMap(g.table)[a] else Blank(a), ws);
  }

  // ----- the process field count -----

  /** A query for one field of a process: the names on the way to the process, then the field's. */
  function FieldQuery(pre: seq<string>, f: int): Request {
    Query(Join(pre + [PsFieldName(f)]))
  }

  lemma FieldQuerySplits(pre: seq<string>, f: int)
    requires Plain(pre) && 0 <= f < PS_COUNT
    ensures Components(FieldQuery(pre, f).path) == pre + [PsFieldName(f)]
  {
    JoinedNamesSplit(pre + [PsFieldName(f)]);
  }

  /** One query for a process field: answered with its value from the current count on, and missed
      below it. */
  lemma FieldQueryAnswer(env: Env, g: Globals, g': Globals, pre: seq<string>, pid: nat, f: int)
    requires ValidEnv(env) && Good(g) && Good(g') && 0 <= f < PS_COUNT && pre != [] && Plain(pre)
    requires Find(env, g, pre).node == Some(Ps(pid, 1))
    ensures var (reply, h) := Handle(env, g', FieldQuery(pre, f));
            && Alive(env, pid)
            && reply == (if f >= g'.ps then Contents(PsValue(env.threads[pid].value, pid, f)) else Missing)
            && h.ps == if f >= g'.ps then f else 0
  {
    FieldQuerySplits(pre, f);
    PsFieldOnce(env, g, g', pre, pid, f);
  }

  /** The promise that looking at one node has no effect on the next lookup fails from the very first
      requests on: asking a live process for "stack used" and then for "pid" misses the pid, and only
      a second try finds it. */
  lemma StackThenPidIsMissed(env: Env, pre: seq<string>, pid: nat)
    requires ValidEnv(env) && pre != [] && Plain(pre) && Find(env, BOOT, pre).node == Some(Ps(pid, 1))
    ensures var (stack, g1) := Handle(env, BOOT, FieldQuery(pre, 4));
            var (missed, g2) := Handle(env, g1, FieldQuery(pre, 0));
            && Alive(env, pid) && stack == Contents(PsValue(env.threads[pid].value, pid, 4)) && g1.ps == 4
            && missed == Missing && g2.ps == 0
            && Handle(env, g2, FieldQuery(pre, 0)).0 == Contents(IntValue(pid))
  {
    FieldQueryAnswer(env, BOOT, BOOT, pre, pid, 4);
    var g1 := Handle(env, BOOT, FieldQuery(pre, 4)).1;
    FieldQueryAnswer(env, BOOT, g1, pre, pid, 0);
    FieldQueryAnswer(env, BOOT, Handle(env, g1, FieldQuery(pre, 0)).1, pre, pid, 0);
  }

  /** A system with the runtime branch and one thread. */
  const ONE_THREAD :=
    Env([Branch("runtime", [], [PsBranch])], [None, Some(Thread("main", "running", 7, 1536, 1024))], [], [])

  const MAIN := ["runtime", "ps", "main"]

  lemma OneThreadFound(g: Globals)
    requires ValidEnv(ONE_THREAD) && Good(g)
    ensures Find(ONE_THREAD, g, MAIN).node == Some(Ps(1, 1))
  {
    var env, toks := ONE_THREAD, ["runtime", "ps"];
    assert BranchNames(env)[0] == "runtime" && EntryNames(env.index[0])[0] == "ps";
    EntryFound(env, g, "runtime", "ps");
    assert toks + ["main"] == MAIN;
    DescendAppend(env, g, Root(0), Null, toks, "main");
    OneThreadNext(Find(env, g, toks).g);
    LastComponent(env, Find(env, g, toks).g, Ps(1, 2), Ps(1, 2), "main");
  }

  lemma OneThreadNext(g: Globals)
    requires ValidEnv(ONE_THREAD) && Good(g)
    ensures Iterable(ONE_THREAD, g, Ps(1, 2), Ps(1, 2)) && Named(ONE_THREAD, g, Ps(1, 2))
    ensures Scan(ONE_THREAD, g, Ps(1, 2), Ps(1, 2), "main").child == Ps(1, 1)
  {
    var s := Next(ONE_THREAD, g, Ps(1, 2), Ps(1, 2));
    assert s.child == Ps(1, 1) && NameOf(ONE_THREAD, s.g, s.child) == "main";
    ScanFurther(ONE_THREAD, g, Ps(1, 2), Ps(1, 2), "main");
  }

  lemma MainIsPlain()
    ensures Plain(MAIN)
  {
    forall i | 0 <= i < |MAIN|
      ensures MAIN[i] != "" && '/' !in MAIN[i]
    {
      assert MAIN[i] == (if i == 0 then "runtime" else if i == 1 then "ps" else "main");
    }
  }

  /** The two requests written out: dcaq /runtime/ps/main/stack used, dcaq /runtime/ps/main/pid. */
  lemma OneThreadMissesItsPid()
    ensures ValidEnv(ONE_THREAD)
    ensures var (stack, g) := Handle(ONE_THREAD, BOOT, FieldQuery(MAIN, 4));
            stack == Contents(IntValue(512)) && Handle(ONE_THREAD, g, FieldQuery(MAIN, 0)).0 == Missing
  {
    OneThreadFound(BOOT);
    MainIsPlain();
    StackThenPidIsMissed(ONE_THREAD, MAIN, 1);
  }

  // ----- counting neighbours and then looking one up -----

  /** The names of an interface's field, of a neighbour below it and of that neighbour's field. */
  function QosPath(pre: seq<string>, a: Addr, sub: int): seq<string> {
    pre + ["neighbours"] + [a] + [QosName(sub)]
  }

  lemma QosPathPlain(pre: seq<string>, a: Addr, sub: int)
    requires Plain(pre) && Plain([a]) && 2 <= sub <= 4
    ensures Plain(QosPath(pre, a, sub))
  {
    var path := QosPath(pre, a, sub);
    assert [a][0] == a;
    forall i | 0 <= i < |path|
      ensures path[i] != "" && '/' !in path[i]
    {
    }
  }

  /** Reading num_neighbours of an interface, by a path that leads to it: the answer is the length of
      its cache in a byte, and that many neighbours can be read from then on. */
  lemma CountQuery(env: Env, g: Globals, pre: seq<string>, i: nat)
    requires ValidEnv(env) && Good(g) && Plain(pre) && Find(env, g, pre).node == Some(Netif(i, 3))
    ensures i < |env.ifaces|
    ensures var n := |env.ifaces[i].cache| % 256;
            Handle(env, g, Query(Join(pre + ["num_neighbours"]))) ==
            (Contents(IntValue(n)), CountNeighbors(g.(field := 3, sub := 1), env.ifaces[i]))
  {
    InterfaceFoundAlways(env, g, g, pre, i);
    IfaceFieldAlwaysFound(env, g, pre, i, 3);
    JoinedNamesSplit(pre + ["num_neighbours"]);
  }

  /** From every state with a positive count: the path of an interface, its neighbours directory, an
      address and a field name reads that field of the list entry at the position that was counted
      last, when the address is that entry's.  Which interface the path names makes no difference. */
  lemma NeighborQuery(env: Env, g: Globals, g': Globals, pre: seq<string>, i: nat, sub: int)
    requires ValidEnv(env) && Good(g) && Good(g') && Plain(pre) && Find(env, g, pre).node == Some(Netif(i, 3))
    requires 2 <= sub <= 4 && g'.num >= 1 && Plain([g'.table[g'.num - 1].addr])
    ensures var e := g'.table[g'.num - 1];
            var (reply, h) := Handle(env, g', Query(Join(QosPath(pre, e.addr, sub))));
            reply == Contents(QosValue(e, sub)) && h == g'.(field := 4, sub := sub)
  {
    var a := g'.table[g'.num - 1].addr;
    NeighborFound(env, g, g', pre, i);
    QosFieldRead(env, g', pre + ["neighbours"] + [a], i, sub);
    QosPathPlain(pre, a, sub);
    JoinedNamesSplit(QosPath(pre, a, sub));
  }

  lemma NeighborFound(env: Env, g: Globals, g': Globals, pre: seq<string>, i: nat)
    requires ValidEnv(env) && Good(g) && Good(g') && Find(env, g, pre).node == Some(Netif(i, 3)) && g'.num >= 1
    ensures Find(env, g', pre + ["neighbours"] + [g'.table[g'.num - 1].addr]) ==
            Found(Some(Netif(i, 1)), g'.(field := 4, sub := 2))
  {
    InterfaceFoundAlways(env, g, g', pre, i);
    IfaceFieldAlwaysFound(env, g', pre, i, 4);
    NeighborFoundIff(env, g', pre + ["neighbours"], i, g'.table[g'.num - 1].addr);
  }

  /** Two requests in a row: after num_neighbours of one interface has been read, the neighbour that
      stands at that position of the list can be read in full, below any interface at all. */
  lemma CountThenRead(env: Env, g: Globals, pre: seq<string>, i: nat, other: seq<string>, k: nat, sub: int)
    requires ValidEnv(env) && Good(g) && Plain(pre) && Find(env, g, pre).node == Some(Netif(i, 3))
    requires Plain(other) && Find(env, g, other).node == Some(Netif(k, 3)) && 2 <= sub <= 4
    ensures i < |env.ifaces|
    ensures var cache := env.ifaces[i].cache;
            var n, table := |cache| % 256, ApplyAll(g.table, Discoveries(cache));
            var h := Handle(env, g, Query(Join(pre + ["num_neighbours"]))).1;
            && n <= |table|
            && (n >= 1 && Plain([table[n - 1].addr]) ==>
                  Handle(env, h, Query(Join(QosPath(other, table[n - 1].addr, sub)))).0 ==
                  Contents(QosValue(table[n - 1], sub)))
  {
    CountQuery(env, g, pre, i);
    var h := Handle(env, g, Query(Join(pre + ["num_neighbours"]))).1;
    if h.num >= 1 && Plain([h.table[h.num - 1].addr]) {
      NeighborQuery(env, g, h, other, k, sub);
    }
  }

  /** After a dump, none of the neighbour paths it has just printed can be looked up: the dump counts
      the neighbours down to 0.  Reading num_neighbours again makes them visible again. */
  lemma NeighborsGoneAfterDump(env: Env, g: Globals, pre: seq<string>, i: nat, a: Addr)
    requires ValidEnv(env) && Good(g) && Plain(pre) && Plain([a]) && Find(env, g, pre).node == Some(Netif(i, 3))
    ensures var h := Handle(env, g, DumpAll).1;
            && h.num == 0 && Handle(env, h, Query(Join(pre + ["neighbours"] + [a]))).0 == Missing
            && i < |env.ifaces|
            && Handle(env, h, Query(Join(pre + ["num_neighbours"]))).1.num == |env.ifaces[i].cache| % 256
  {
    var h := Handle(env, g, DumpAll).1;
    DescendFindsListed(env, g, Root(0), Null, pre);
    BranchesLeave(env, g, 0);
    NoCountNoNeighbor(env, g, h, pre, i, a);
    NeighborPathPlain(pre, a);
    JoinedNamesSplit(pre + ["neighbours"] + [a]);
    InterfaceFoundAlways(env, g, h, pre, i);
    CountQuery(env, h, pre, i);
  }

  lemma NeighborPathPlain(pre: seq<string>, a: Addr)
    requires Plain(pre) && Plain([a])
    ensures Plain(pre + ["neighbours"] + [a])
  {
    var path := pre + ["neighbours"] + [a];
    assert [a][0] == a;
    forall i | 0 <= i < |path|
      ensures path[i] != "" && '/' !in path[i]
    {
    }
  }
}
