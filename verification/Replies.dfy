/**
 What requests answer, in the system's own terms: the value behind every kind of path, by its
 literal name, and the lines of a dump.
 */
module Replies {
  import opened NeighborTable
  import opened DbModel
  import opened Values
  import opened Trees
  import opened DumpSpec
  import opened DumpTheorems
  import opened DumpLines
  import opened Lookup
  import opened PathTheorems
  import opened LookupTheorems
  import opened NetifLookup
  import opened Requests
  import opened RequestTheorems
  import opened DumpedPaths

  // ----- queries -----

  /** A static entry answers its own value, unless an earlier branch or entry name extends its own. */
  lemma StaticReply(env: Env, g: Globals, fl: nat, j: nat)
    requires ValidEnv(env) && Good(g) && fl < |env.index| && j < |env.index[fl].statics|
    requires Plain([env.index[fl].name, env.index[fl].statics[j].name])
    requires forall i :: 0 <= i < fl ==> !Matches(env.index[fl].name, env.index[i].name)
    requires forall i :: 0 <= i < j ==> !Matches(env.index[fl].statics[j].name, env.index[fl].statics[i].name)
    ensures var e := env.index[fl].statics[j];
            Handle(env, g, Query(Join([env.index[fl].name, e.name]))).0 == Contents(e.value)
  {
    var names := [env.index[fl].name, env.index[fl].statics[j].name];
    JoinedNamesSplit(names);
    StaticFoundIff(env, g, fl, j);
    LeafHasValue(env, Find(env, g, names).g, Fl(fl, j, false));
  }

  /** The five fields of a process under their own names, from the current count on. */
  lemma ProcessReply(env: Env, g: Globals, g': Globals, pre: seq<string>, pid: nat, k: nat)
    requires ValidEnv(env) && Good(g) && Good(g') && pre != [] && Plain(pre) && k < PS_COUNT
    requires Find(env, g, pre).node == Some(Ps(pid, 1))
    ensures Alive(env, pid)
    ensures var name := ["pid", "state", "priority", "total stack", "stack used"][k];
            var reply := Handle(env, g', Query(Join(pre + [name]))).0;
            if k >= g'.ps then reply.Contents? && ProcessValue(env.threads[pid].value, pid, k, reply.v) else reply == Missing
  {
    FieldQueryAnswer(env, g, g', pre, pid, k);
    assert ["pid", "state", "priority", "total stack", "stack used"][k] == PsFieldName(k);
  }

  /** Below a device there is its class. */
  lemma DeviceReply(env: Env, g: Globals, pre: seq<string>, i: nat)
    requires ValidEnv(env) && Good(g) && pre != [] && Plain(pre) && Find(env, g, pre).node == Some(Saul(i, 1))
    ensures i < |env.devices|
    ensures Handle(env, g, Query(Join(pre + ["class"]))).0 == Contents(StrValue(env.devices[i].cls))
  {
    FindMore(env, g, pre, Saul(i, 1), "class");
    ScanDevice(env, Find(env, g, pre).g, i, Saul(i, 1), "class");
    JoinedNamesSplit(pre + ["class"]);
    LeafHasValue(env, Find(env, g, pre + ["class"]).g, Saul(i, 0));
  }

  /** The four plain fields of an interface under their own names, from every state. */
  lemma IfaceReply(env: Env, g: Globals, pre: seq<string>, i: nat, k: nat)
    requires ValidEnv(env) && Good(g) && Plain(pre) && Find(env, g, pre).node == Some(Netif(i, 3)) && k < 4
    ensures i < |env.ifaces|
    ensures var name := ["pid", "inet6 addr", "Link type", "num_neighbours"][k];
            var reply := Handle(env, g, Query(Join(pre + [name]))).0;
            reply.Contents? && IfaceValue(env.ifaces[i], k, reply.v)
  {
    var name := ["pid", "inet6 addr", "Link type", "num_neighbours"][k];
    assert name == NetifFieldName(k);
    IfaceFieldAlwaysFound(env, g, pre, i, k);
    JoinedNamesSplit(pre + [name]);
    PlainIsValue(env.ifaces[i], k);
  }

  lemma PlainIsValue(i: Iface, k: nat)
    requires k < 4
    ensures IfaceValue(i, k, PlainValue(i, k))
  {
  }

  /** The three fields of the neighbour at the counted position, below any interface, from every state:
      its latency in milliseconds one way, its loss and its throughput. */
  lemma NeighborReply(env: Env, g: Globals, g': Globals, pre: seq<string>, i: nat)
    requires ValidEnv(env) && Good(g) && Good(g') && Plain(pre) && Find(env, g, pre).node == Some(Netif(i, 3))
    requires g'.num >= 1 && Plain([g'.table[g'.num - 1].addr])
    ensures var e := g'.table[g'.num - 1];
            var dir := pre + ["neighbours"] + [e.addr];
            var latency := Handle(env, g', Query(Join(dir + ["latency"]))).0;
            var loss := Handle(env, g', Query(Join(dir + ["packet_loss"]))).0;
            var throughput := Handle(env, g', Query(Join(dir + ["throughput"]))).0;
            && latency.Contents? && ShowsLatency(e.latency, latency.v)
            && loss.Contents? && ShowsWord(e.loss, loss.v)
            && throughput.Contents? && ShowsWord(e.throughput, throughput.v)
  {
    var e := g'.table[g'.num - 1];
    NeighborQuery(env, g, g', pre, i, 2);
    NeighborQuery(env, g, g', pre, i, 3);
    NeighborQuery(env, g, g', pre, i, 4);
    LatencyIsShown(e.latency);
    WordIsShown(e.loss, 3);
    WordIsShown(e.throughput, 4);
  }

  // ----- the dump -----

  /** What the dump shows for a dynamic entry. */
  ghost predicate DynamicShown(env: Env, d: Dynamic, t: Tree) {
    match d
    case PsBranch => t.Dir? && t.name == "ps" && exists k :: ShowsProcesses(env, t, k)
    case SaulBranch =>
      && t.Dir? && t.name == "devices" && |t.kids| == |env.devices|
      && forall i :: 0 <= i < |env.devices| ==>
           t.kids[i] == Dir(env.devices[i].name, [Leaf("class", Some(StrValue(env.devices[i].cls)))])
    case NetifBranch =>
      && t.Dir? && t.name == "netif"
      && exists table, n :: ShowsIfaces(env, t, table, n) && (env.ifaces != [] ==> n == |env.ifaces[0].cache| % 256)
  }

  lemma DynamicIsShown(env: Env, g: Globals, d: Dynamic)
    requires ValidEnv(env) && Good(g)
    ensures DynamicShown(env, d, DynamicOut(true, env, g, d).0)
  {
    var t := DynamicOut(true, env, g, d).0;
    match d
    case PsBranch =>
      PsShownFrom(env, g);
    case SaulBranch =>
    case NetifBranch =>
      var table, n := NetifShown(env, g);
  }

  /** The directory of a neighbour, by its literal names. */
  ghost predicate NeighborShown(e: Entry, t: Tree) {
    && t.Dir? && t.name == e.addr && |t.kids| == 3
    && (forall k :: 0 <= k < 3 ==> t.kids[k].Leaf? && t.kids[k].value.Some?)
    && t.kids[0].name == "latency" && ShowsLatency(e.latency, t.kids[0].value.value)
    && t.kids[1].name == "packet_loss" && ShowsWord(e.loss, t.kids[1].value.value)
    && t.kids[2].name == "throughput" && ShowsWord(e.throughput, t.kids[2].value.value)
  }

  lemma FirstIfaceShows(i: Iface, table: seq<Entry>, n: nat, k: nat)
    requires k < n <= |table|
    ensures var fields := Kids(FirstIface(i, table, n));
            && |fields| == 5 && fields[4].name == "neighbours" && |Kids(fields[4])| == n
            && NeighborShown(table[n - 1 - k], Kids(fields[4])[k])
  {
    NeighborTreeShows(table[n - 1 - k]);
    assert NeighborTrees(table, n)[k] == NeighborTree(table[n - 1 - k]);
  }

  /** From every state the dump shows, in the fifth directory of the first interface, the list entries
      at the counted position and below it, each with its three values. */
  lemma DumpShowsNeighbors(env: Env, g: Globals, n: nat, k: nat)
    requires ValidEnv(env) && Good(g) && env.ifaces != [] && k < n == |env.ifaces[0].cache| % 256
    ensures var ifaces := Kids(DynamicOut(true, env, g, NetifBranch).0);
            var table := ApplyAll(g.table, Discoveries(env.ifaces[0].cache));
            && n <= |table| && |ifaces| == |env.ifaces| && |Kids(ifaces[0])| == 5
            && Kids(ifaces[0])[4].name == "neighbours" && |Kids(Kids(ifaces[0])[4])| == n
            && NeighborShown(table[n - 1 - k], Kids(Kids(ifaces[0])[4])[k])
  {
    var ifaces := FirstIfaceOf(env, g, n);
    FirstIfaceShows(env.ifaces[0], ApplyAll(g.table, Discoveries(env.ifaces[0].cache)), n, k);
  }

  lemma FirstIfaceOf(env: Env, g: Globals, n: nat) returns (ifaces: seq<Tree>)
    requires ValidEnv(env) && Good(g) && env.ifaces != [] && n == |env.ifaces[0].cache| % 256
    ensures ifaces == Kids(DynamicOut(true, env, g, NetifBranch).0) && |ifaces| == |env.ifaces|
    ensures n <= |ApplyAll(g.table, Discoveries(env.ifaces[0].cache))|
    ensures ifaces[0] == FirstIface(env.ifaces[0], ApplyAll(g.table, Discoveries(env.ifaces[0].cache)), n)
  {
    NetifDumpShape(env, g);
    ifaces := Kids(DynamicOut(true, env, g, NetifBranch).0);
  }

  /** What the dump shows for a branch: every static entry with its value, then every dynamic one. */
  ghost predicate BranchShown(env: Env, b: Branch, t: Tree) {
    && t.Dir? && t.name == b.name && |t.kids| == |b.statics| + |b.dynamics|
    && (forall j :: 0 <= j < |b.statics| ==> t.kids[j] == Leaf(b.statics[j].name, Some(b.statics[j].value)))
    && (forall j {:trigger b.dynamics[j]} :: 0 <= j < |b.dynamics| ==> DynamicShown(env, b.dynamics[j], t.kids[|b.statics| + j]))
  }

  lemma BranchIsShown(env: Env, g: Globals, b: Branch)
    requires ValidEnv(env) && Good(g)
    ensures BranchShown(env, b, Dir(b.name, BranchFrom(true, env, g, b, 0).ts))
  {
    assert b.statics[0..] == b.statics;
    forall j | 0 <= j < |b.dynamics|
      ensures DynamicShown(env, b.dynamics[j], BranchFrom(true, env, g, b, 0).ts[|b.statics| + j])
    {
      AfterStatics(env, g, b, j);
      var h := DynamicState(env, g, b.dynamics, j);
      DynamicIsShown(env, h, b.dynamics[j]);
    }
  }

  /** The whole database as shown: one directory per branch of the table, in order. */
  ghost predicate DatabaseShown(env: Env, t: Tree) {
    && t.Dir? && t.name == "/" && |t.kids| == |env.index|
    && forall i {:trigger t.kids[i]} :: 0 <= i < |env.index| ==> BranchShown(env, env.index[i], t.kids[i])
  }

  /** A dump answers the lines of the whole database, each with the name, the indentation and the
      value of its node, in preorder, from every state. */
  lemma DumpReply(env: Env, g: Globals)
    requires ValidEnv(env) && Good(g)
    ensures var t, reply := Database(true, env, g), Handle(env, g, DumpAll).0;
            && reply.Shown? && Prints(reply.lines, t, 0) && PrintsNothingElse(reply.lines, t)
            && DatabaseShown(env, t)
  {
    var t := Database(true, env, g);
    FlattenPrints(t, 0);
    forall i | 0 <= i < |env.index|
      ensures BranchShown(env, env.index[i], t.kids[i])
    {
      var h := BranchState(env, g, 0, i);
      BranchIsShown(env, h, env.index[i]);
    }
  }

  /** One branch with one entry, line by line. */
  lemma BoardDump(g: Globals)
    requires Good(g)
    ensures var env := Env([Branch("board", [StaticEntry("ram", IntValue(32768))], [])],
                           [None, Some(Thread("main", "running", 7, 1536, 1024))], [], []);
            ValidEnv(env) &&
            Handle(env, g, DumpAll).0 ==
            Shown([DirLine(0, "/"), DirLine(1, "board"), FileLine(2, "ram", Some(IntValue(32768)))])
  {
    var ram := Leaf("ram", Some(IntValue(32768)));
    var board := Dir("board", [ram]);
    var env := Env([Branch("board", [StaticEntry("ram", IntValue(32768))], [])],
                   [None, Some(Thread("main", "running", 7, 1536, 1024))], [], []);
    assert env.threads[KERNEL_PID_FIRST].Some? && ValidEnv(env);
    DumpReply(env, g);
    var t := Database(true, env, g);
    assert BranchShown(env, env.index[0], t.kids[0]);
    assert t.kids[0].kids == [ram] && t.kids[0] == board;
    assert t == Dir("/", [board]);
    assert FlattenAll([ram], 2) == [FileLine(2, "ram", Some(IntValue(32768)))];
    assert FlattenAll([board], 1) == [DirLine(1, "board")] + FlattenAll([ram], 2);
  }
}
