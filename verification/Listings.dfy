/**
 One-level listings of the ps, saul and netif directories: the names they print, which for ps and
 netif depend on the counts, and the counts they leave.
 */
module Listings {
  import opened NeighborTable
  import opened DbModel
  import opened DumpSpec
  import opened Lookup
  import opened PathTheorems
  import opened LookupTheorems
  import opened NetifLookup
  import opened Requests

  // ----- /runtime/ps -----

  /** The names of process fields k, .., 4. */
  function PsNames(k: int): (names: seq<string>)
    requires 0 <= k <= PS_COUNT
    ensures |names| == PS_COUNT - k
  {
    ["pid", "state", "priority", "total stack", "stack used"][k..]
  }

  lemma PsNamesStep(k: int)
    requires 0 <= k < PS_COUNT
    ensures PsNames(k) == [PsFieldName(k)] + PsNames(k + 1)
  {
  }

  lemma {:induction false} ListsPsFields(env: Env, g: Globals, n: Node, pid: nat)
    requires ValidEnv(env) && Good(g) && Alive(env, pid) && n.Ps? && n.level == 0 && n.pid <= |env.threads|
    ensures Listing(env, Step(g, n, Ps(pid, 0))) == (PsNames(g.ps), g.(ps := 0))
    decreases PS_COUNT - g.ps
  {
    var s := Step(g, n, Ps(pid, 0));
    ListingStep(env, s);
    PsNamesStep(g.ps);
    if g.ps + 1 < PS_COUNT {
      assert Next(env, g, n, s.child) == Step(g.(ps := g.ps + 1), n, Ps(pid, 0));
      ListsPsFields(env, g.(ps := g.ps + 1), n, pid);
    } else {
      assert Next(env, g, n, s.child) == Step(g.(ps := 0), n, Null);
    }
  }

  /** A process lists its fields from the current count on and leaves the count at 0. */
  lemma ListsProcess(env: Env, g: Globals, pid: nat, c: Node)
    requires ValidEnv(env) && Good(g) && Alive(env, pid)
    ensures Listing(env, Next(env, g, Ps(pid, 1), c)) == (PsNames(g.ps), g.(ps := 0))
  {
    assert Next(env, g, Ps(pid, 1), c) == Step(g, Ps(NextPid(env, pid), 0), Ps(pid, 0));
    ListsPsFields(env, g, Ps(NextPid(env, pid), 0), pid);
  }

  function ThreadNames(env: Env, pids: seq<nat>): (names: seq<string>)
    requires AllAlive(env, pids)
    ensures |names| == |pids|
  {
    seq(|pids|, i requires 0 <= i < |pids| && Alive(env, pids[i]) => env.threads[pids[i]].value.name)
  }

  lemma LivePidsStep(env: Env, pid: nat)
    requires Alive(env, pid)
    ensures LivePids(env, pid) == [pid] + LivePids(env, NextPid(env, pid))
    ensures AllAlive(env, LivePids(env, pid)) && AllAlive(env, LivePids(env, NextPid(env, pid)))
  {
    LivePidsSkip(env, pid + 1, NextPid(env, pid));
    LivePidsAlive(env, pid);
    LivePidsAlive(env, NextPid(env, pid));
  }

  lemma ThreadNamesCons(env: Env, pid: nat, rest: seq<nat>)
    requires Alive(env, pid) && AllAlive(env, rest) && AllAlive(env, [pid] + rest)
    ensures ThreadNames(env, [pid] + rest) == [env.threads[pid].value.name] + ThreadNames(env, rest)
  {
  }

  /** The ps directory lists the live processes by increasing pid. */
  lemma {:induction false} ListsProcesses(env: Env, g: Globals, pid: nat, c: Node)
    requires ValidEnv(env) && Good(g) && (Alive(env, pid) || pid == |env.threads|)
    ensures AllAlive(env, LivePids(env, pid))
    ensures Listing(env, Next(env, g, Ps(pid, 2), c)) == (ThreadNames(env, LivePids(env, pid)), g)
    decreases |env.threads| - pid
  {
    if pid < |env.threads| {
      var next := NextPid(env, pid);
      var s := Step(g, Ps(next, 2), Ps(pid, 1));
      assert Next(env, g, Ps(pid, 2), c) == s;
      LivePidsStep(env, pid);
      ThreadNamesCons(env, pid, LivePids(env, next));
      ListingStep(env, s);
      ListsProcesses(env, g, next, s.child);
    } else {
      assert LivePids(env, pid) == [] && ThreadNames(env, []) == [];
      assert Next(env, g, Ps(pid, 2), c) == Step(g, Ps(pid, 2), Null);
    }
  }

  // ----- /saul/devices -----

  lemma {:induction false} ListsDevices(env: Env, g: Globals, i: nat, c: Node)
    requires ValidEnv(env) && Good(g) && i <= |env.devices|
    ensures Listing(env, Next(env, g, Saul(i, 2), c)) == (DeviceNames(env)[i..], g)
    decreases |env.devices| - i
  {
    if i < |env.devices| {
      var s := Step(g, Saul(i + 1, 2), Saul(i, 1));
      assert Next(env, g, Saul(i, 2), c) == s;
      ListingStep(env, s);
      ListsDevices(env, g, i + 1, s.child);
      assert DeviceNames(env)[i..] == [env.devices[i].name] + DeviceNames(env)[i + 1..];
    } else {
      assert DeviceNames(env)[i..] == [];
      assert Next(env, g, Saul(i, 2), c) == Step(g, Saul(i, 2), Null);
    }
  }

  lemma ListsDevice(env: Env, g: Globals, i: nat, c: Node)
    requires ValidEnv(env) && Good(g) && i < |env.devices|
    ensures Listing(env, Next(env, g, Saul(i, 1), c)) == (["class"], g)
  {
    var s := Step(g, Saul(i + 1, 0), Saul(i, 0));
    assert Next(env, g, Saul(i, 1), c) == s;
    ListingStep(env, s);
    assert Next(env, g, s.node, s.child) == Step(g, s.node, Null);
    assert ["class"] + [] == ["class"];
  }

  // ----- /network/netif -----

  lemma {:induction false} ListsIfaces(env: Env, g: Globals, i: nat, c: Node)
    requires ValidEnv(env) && Good(g) && g.sub == 1 && i <= |env.ifaces|
    ensures Listing(env, Next(env, g, Netif(i, 4), c)) == (IfaceNames(env)[i..], g)
    decreases |env.ifaces| - i
  {
    if i < |env.ifaces| {
      var s := Step(g, Netif(i + 1, 4), Netif(i, 3));
      assert Next(env, g, Netif(i, 4), c) == s;
      ListingStep(env, s);
      ListsIfaces(env, g, i + 1, s.child);
      assert IfaceNames(env)[i..] == [env.ifaces[i].name] + IfaceNames(env)[i + 1..];
    } else {
      assert IfaceNames(env)[i..] == [];
      assert Next(env, g, Netif(i, 4), c) == Step(g, Netif(i, 4), Null);
    }
  }

  lemma {:induction false} ListsQosFields(env: Env, g: Globals, i: nat)
    requires ValidEnv(env) && Good(g) && i < |env.ifaces| && g.field == 4 && g.num >= 1 && 2 <= g.sub <= 4
    ensures Listing(env, Step(g, Netif(i, 0), Netif(i, 0))) ==
            (["latency", "packet_loss", "throughput"][g.sub - 2..], g.(sub := 5))
    decreases 4 - g.sub
  {
    var n, names := Netif(i, 0), ["latency", "packet_loss", "throughput"];
    ListingStep(env, Step(g, n, n));
    assert names[g.sub - 2..] == [QosName(g.sub)] + names[g.sub - 1..];
    if g.sub < 4 {
      assert Next(env, g, n, n) == Step(g.(sub := g.sub + 1), n, n);
      ListsQosFields(env, g.(sub := g.sub + 1), i);
    } else {
      assert Next(env, g, n, n) == Step(g.(sub := 5), n, Null);
    }
  }

  /** A neighbour lists its three fields. */
  lemma ListsNeighbor(env: Env, g: Globals, i: nat, c: Node)
    requires ValidEnv(env) && Good(g) && i < |env.ifaces| && g.field == 4 && g.num >= 1 && g.sub == 2
    ensures Listing(env, Next(env, g, Netif(i, 1), c)) == (["latency", "packet_loss", "throughput"], g.(sub := 5))
  {
    assert Next(env, g, Netif(i, 1), c) == Step(g, Netif(i, 0), Netif(i, 0));
    ListsQosFields(env, g, i);
  }

  /** What a listing prints once it has come to the neighbours: the one at the current position and
      then, beside it and not below it, that neighbour's fields. */
  function CurrentNeighbor(g: Globals): (names: seq<string>)
    requires Good(g)
  {
    if g.num == 0 then [] else [g.table[g.num - 1].addr, "latency", "packet_loss", "throughput"]
  }

  lemma ListsCurrent(env: Env, g: Globals, i: nat)
    requires ValidEnv(env) && Good(g) && i < |env.ifaces| && g.field == 4 && g.num >= 1
    ensures Listing(env, Step(g.(sub := 2), Netif(i, 1), Netif(i, 1))) == (CurrentNeighbor(g), g.(sub := 5))
  {
    var s := Step(g.(sub := 2), Netif(i, 1), Netif(i, 1));
    ListingStep(env, s);
    ListsNeighbor(env, s.g, i, s.child);
    assert [g.table[g.num - 1].addr] + ["latency", "packet_loss", "throughput"] == CurrentNeighbor(g);
  }

  /** A neighbours directory lists one neighbour at most, however many there are. */
  lemma ListsNeighbors(env: Env, g: Globals, i: nat, c: Node)
    requires ValidEnv(env) && Good(g) && i < |env.ifaces| && g.field == 4 && g.sub == 1
    ensures Listing(env, Next(env, g, Netif(i, 2), c)) ==
            (CurrentNeighbor(g), if g.num == 0 then g else g.(sub := 5))
  {
    if g.num == 0 {
      assert Next(env, g, Netif(i, 2), c) == Step(g, Netif(i, 2), Null);
    } else {
      assert Next(env, g, Netif(i, 2), c) == Step(g.(sub := 2), Netif(i, 1), Netif(i, 1));
      ListsCurrent(env, g, i);
    }
  }

  /** The names of interface fields k, .., 4. */
  function NetifNames(k: int): (names: seq<string>)
    requires 0 <= k <= NETIF_COUNT
    ensures |names| == NETIF_COUNT - k
  {
    ["pid", "inet6 addr", "Link type", "num_neighbours", "neighbours"][k..]
  }

  lemma NetifNamesStep(k: int)
    requires 0 <= k < NETIF_COUNT
    ensures NetifNames(k) == [NetifFieldName(k)] + NetifNames(k + 1)
  {
  }

  /** An interface that is not the last one goes on to the current neighbour after its own fields. */
  ghost predicate GoesOn(env: Env, g: Globals, i: nat) {
    i + 1 < |env.ifaces| && g.num > 0
  }

  ghost function IfaceListing(env: Env, g: Globals, i: nat): (seq<string>, Globals)
    requires Good(g)
  {
    if GoesOn(env, g, i) then (NetifNames(g.field) + CurrentNeighbor(g), g.(field := 4, sub := 5))
    else (NetifNames(g.field), g.(field := 4))
  }

  lemma {:induction false} ListsIfaceFields(env: Env, g: Globals, i: nat)
    requires ValidEnv(env) && Good(g) && g.sub == 1 && i < |env.ifaces|
    ensures Listing(env, Step(g, Netif(i + 1, 2), Netif(i, 2))) == IfaceListing(env, g, i)
    decreases 4 - g.field
  {
    var s := Step(g, Netif(i + 1, 2), Netif(i, 2));
    ListingStep(env, s);
    NetifNamesStep(g.field);
    if g.field < 4 {
      assert Next(env, g, s.node, s.child) == Step(g.(field := g.field + 1), s.node, s.child);
      var h, head := g.(field := g.field + 1), [NetifFieldName(g.field)];
      ListsIfaceFields(env, h, i);
      assert head + (NetifNames(h.field) + CurrentNeighbor(g)) == head + NetifNames(h.field) + CurrentNeighbor(g);
    } else {
      ListsAfterFields(env, g, i);
      assert NetifNames(5) == [] && NetifNames(4) == [NetifFieldName(4)];
    }
  }

  lemma ListsAfterFields(env: Env, g: Globals, i: nat)
    requires ValidEnv(env) && Good(g) && g.sub == 1 && i < |env.ifaces| && g.field == 4
    ensures Listing(env, Next(env, g, Netif(i + 1, 2), Netif(i, 2))) ==
            if GoesOn(env, g, i) then (CurrentNeighbor(g), g.(sub := 5)) else ([], g)
  {
    if GoesOn(env, g, i) {
      assert Next(env, g, Netif(i + 1, 2), Netif(i, 2)) == Step(g.(sub := 2), Netif(i + 1, 1), Netif(i + 1, 1));
      ListsCurrent(env, g, i + 1);
    } else {
      assert Next(env, g, Netif(i + 1, 2), Netif(i, 2)) == Step(g, Netif(i + 1, 2), Null);
    }
  }

  // ----- as answers to queries -----

  /** Listing a process by its path: the fields from the current count on, so all five exactly when
      the count is 0, which is what the listing leaves. */
  lemma ProcessListed(env: Env, g: Globals, g': Globals, pre: seq<string>, pid: nat)
    requires ValidEnv(env) && Good(g) && Good(g') && Plain(pre) && Find(env, g, pre).node == Some(Ps(pid, 1))
    ensures var (reply, h) := Handle(env, g', Query(Join(pre)));
            && reply == Children(PsNames(g'.ps)) && h.ps == 0
            && (reply == Children(PsNames(0)) <==> g'.ps == 0)
  {
    ProcessFoundAlways(env, g, g', Root(0), Null, Null, pre, pid);
    JoinedNamesSplit(pre);
    ListsProcess(env, Find(env, g', pre).g, pid, Null);
    assert |PsNames(g'.ps)| == PS_COUNT - g'.ps;
  }

  /** What listing interface i prints: its five fields, and after them, for every interface but the
      last, the neighbour at the current position and its three fields, unless the count is 0. */
  function ListedUnder(env: Env, g: Globals, i: nat): seq<string>
    requires Good(g)
  {
    NetifNames(0) + if i + 1 < |env.ifaces| then CurrentNeighbor(g) else []
  }

  lemma OnlyFieldsIff(env: Env, g: Globals, i: nat)
    requires Good(g)
    ensures ListedUnder(env, g, i) == NetifNames(0) <==> i + 1 >= |env.ifaces| || g.num == 0
  {
    assert |ListedUnder(env, g, i)| == 5 + if GoesOn(env, g, i) then 4 else 0;
  }

  lemma IfaceAnswered(env: Env, g: Globals, g': Globals, pre: seq<string>, i: nat)
    requires ValidEnv(env) && Good(g) && Good(g') && Plain(pre) && Find(env, g, pre).node == Some(Netif(i, 3))
    ensures i < |env.ifaces|
    ensures var listing := IfaceListing(env, g'.(field := 0, sub := 1), i);
            Handle(env, g', Query(Join(pre))) == (Children(listing.0), listing.1)
  {
    var h := g'.(field := 0, sub := 1);
    InterfaceFoundAlways(env, g, g', pre, i);
    JoinedNamesSplit(pre);
    assert Named(env, h, Netif(i, 3));
    assert Next(env, h, Netif(i, 3), Null) == Step(h, Netif(i + 1, 2), Netif(i, 2));
    ListsIfaceFields(env, h, i);
  }

  lemma IfaceListingIs(env: Env, g: Globals, i: nat)
    requires Good(g)
    ensures var (listed, h) := IfaceListing(env, g.(field := 0, sub := 1), i);
            listed == ListedUnder(env, g, i) && h.num == g.num && h.table == g.table
  {
    if !GoesOn(env, g, i) {
      assert ListedUnder(env, g, i) == NetifNames(0);
    }
  }

  /** Listing an interface by its path, from every state.  It is exactly the five fields when the
      interface is the last or the count 0. */
  lemma IfaceListed(env: Env, g: Globals, g': Globals, pre: seq<string>, i: nat)
    requires ValidEnv(env) && Good(g) && Good(g') && Plain(pre) && Find(env, g, pre).node == Some(Netif(i, 3))
    ensures var (reply, h) := Handle(env, g', Query(Join(pre)));
            && reply == Children(ListedUnder(env, g', i)) && h.num == g'.num && h.table == g'.table
            && (ListedUnder(env, g', i) == NetifNames(0) <==> i + 1 >= |env.ifaces| || g'.num == 0)
  {
    IfaceAnswered(env, g, g', pre, i);
    IfaceListingIs(env, g', i);
    OnlyFieldsIff(env, g', i);
  }
}
