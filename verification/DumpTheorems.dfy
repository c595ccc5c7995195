/** Where the byte cursors come to an end, and the shape of the dumped tree, branch by branch. */
module DumpTheorems {
  import opened NeighborTable
  import opened DbModel
  import opened Trees
  import opened DumpSpec
  import opened Values

  // ----- the cursors of the fixed levels are bytes -----

  /** The root cursor after k calls, whatever the size of the table. */
  function RootAfter(env: Env, k: nat): (n: Node)
    ensures n.Root?
  {
    if k == 0 then Root(0) else RootNext(env, BOOT, RootAfter(env, k - 1)).node
  }

  lemma {:induction false} RootCursorPosition(env: Env, k: nat)
    ensures RootAfter(env, k) == Root(if |env.index| > 255 then ByteCount(k) else if k < |env.index| then k else |env.index|)
  {
    if k > 0 {
      RootCursorPosition(env, k - 1);
    }
  }

  /** Walking the root comes to an end exactly when the table has at most 255 branches: beyond that
      the index byte wraps before it reaches the end. */
  lemma RootWalkEndsIff(env: Env)
    ensures (exists k :: RootNext(env, BOOT, RootAfter(env, k)).child.Null?) <==> |env.index| <= 255
  {
    RootCursorPosition(env, |env.index|);
    forall k
      ensures RootNext(env, BOOT, RootAfter(env, k)).child.Null? ==> |env.index| <= 255
    {
      RootCursorPosition(env, k);
    }
    assert |env.index| <= 255 ==> RootNext(env, BOOT, RootAfter(env, |env.index|)).child.Null?;
  }

  /** The cursor of a branch after k calls, whatever the size of its tables. */
  function BranchAfter(env: Env, fl: nat, k: nat): (n: Node)
    requires fl < |env.index|
    ensures n.Fl? && n.fl == fl && n.top && n.subIdx < 256 && n.subIdx <= Total(env.index[fl])
  {
    if k == 0 then Fl(fl, 0, true) else FlNext(env, BOOT, BranchAfter(env, fl, k - 1)).node
  }

  /** One call on a branch cursor whose index fits its byte. */
  lemma BranchCursorStep(env: Env, n: Node)
    requires n.Fl? && n.top && n.fl < |env.index| && n.subIdx < 256 && n.subIdx <= Total(env.index[n.fl])
    ensures var s, total := FlNext(env, BOOT, n), Total(env.index[n.fl]);
            && s.node == (if n.subIdx == total then n else n.(subIdx := if n.subIdx == 255 then 0 else n.subIdx + 1))
            && (s.child.Null? <==> n.subIdx == total)
  {
  }

  lemma {:induction false} BranchCursorPosition(env: Env, fl: nat, k: nat)
    requires fl < |env.index|
    ensures var total := Total(env.index[fl]);
            BranchAfter(env, fl, k).subIdx == if total > 255 then ByteCount(k) else if k < total then k else total
  {
    if k > 0 {
      BranchCursorPosition(env, fl, k - 1);
      BranchCursorStep(env, BranchAfter(env, fl, k - 1));
    }
  }

  /** Call k answers null exactly when the entries fit a byte and have all been handed out. */
  lemma BranchCallNullIff(env: Env, fl: nat, k: nat)
    requires fl < |env.index|
    ensures var total := Total(env.index[fl]);
            FlNext(env, BOOT, BranchAfter(env, fl, k)).child.Null? <==> total <= 255 && total <= k
  {
    BranchCursorPosition(env, fl, k);
    BranchCursorStep(env, BranchAfter(env, fl, k));
  }

  /** Walking a branch comes to an end exactly when it has at most 255 entries, static and dynamic
      together: beyond that its index byte wraps, and its entries are handed out for ever. */
  lemma BranchWalkEndsIff(env: Env, fl: nat)
    requires fl < |env.index|
    ensures (exists k :: FlNext(env, BOOT, BranchAfter(env, fl, k)).child.Null?) <==> Total(env.index[fl]) <= 255
  {
    BranchCallNullIff(env, fl, Total(env.index[fl]));
    forall k
      ensures FlNext(env, BOOT, BranchAfter(env, fl, k)).child.Null? ==> Total(env.index[fl]) <= 255
    {
      BranchCallNullIff(env, fl, k);
    }
  }

  // ----- /network/netif -----

  /** An interface after the first shows nothing but an empty neighbours directory. */
  function EmptyIface(i: Iface): Tree {
    Dir(i.name, [Dir("neighbours", [])])
  }

  lemma {:induction false} LaterIfaces(show: bool, env: Env, g: Globals, from: nat)
    requires ValidEnv(env) && Good(g) && g.field == 4 && g.sub == 1 && g.num == 0 && from <= |env.ifaces|
    ensures var o := IfacesFrom(show, env, g, from);
            o.g == g && forall i :: 0 <= i < |o.ts| ==> o.ts[i] == EmptyIface(env.ifaces[from + i])
    decreases |env.ifaces| - from
  {
    if from < |env.ifaces| {
      assert IfaceFields(show, g, env.ifaces[from]).ts == [Dir("neighbours", [])];
      LaterIfaces(show, env, g, from + 1);
    }
  }

  /** The five children of the first interface: four plain fields, then the list entries at
      positions n, n-1, .., 1, each with its three fields. */
  function FirstIface(i: Iface, table: seq<Entry>, n: nat): Tree
    requires n <= |table|
  {
    Dir(i.name,
        [Leaf("pid", Some(IntValue(i.id))),
         Leaf("inet6 addr", Some(StrValue(i.addr))),
         Leaf("Link type", Some(StrValue(if i.wired then "wired" else "wireless"))),
         Leaf("num_neighbours", Some(IntValue(n))),
         Dir("neighbours", NeighborTrees(table, n))])
  }

  /** The list entries at positions n, n-1, .., 1. */
  function NeighborTrees(table: seq<Entry>, n: nat): (r: seq<Tree>)
    requires n <= |table|
    ensures |r| == n
  {
    seq(n, k requires 0 <= k < n => NeighborTree(table[n - 1 - k]))
  }

  function NeighborTree(e: Entry): Tree {
    Dir(e.addr,
        [Leaf("latency", Some(QosNumber(e.latency, 2))),
         Leaf("packet_loss", Some(QosNumber(e.loss, 3))),
         Leaf("throughput", Some(QosNumber(e.throughput, 4)))])
  }

  /** A neighbour's directory shows its latency in milliseconds one way, its loss and its throughput. */
  lemma NeighborTreeShows(e: Entry)
    ensures var t := NeighborTree(e);
            && t.name == e.addr && |Kids(t)| == 3
            && Kids(t)[0].name == "latency" && Kids(t)[0].Leaf? && Kids(t)[0].value.Some?
            && ShowsLatency(e.latency, Kids(t)[0].value.value)
            && Kids(t)[1].name == "packet_loss" && Kids(t)[1].Leaf? && Kids(t)[1].value.Some?
            && ShowsWord(e.loss, Kids(t)[1].value.value)
            && Kids(t)[2].name == "throughput" && Kids(t)[2].Leaf? && Kids(t)[2].value.Some?
            && ShowsWord(e.throughput, Kids(t)[2].value.value)
  {
    LatencyIsShown(e.latency);
    WordIsShown(e.loss, 3);
    WordIsShown(e.throughput, 4);
  }

  lemma NeighborShape(e: Entry)
    ensures Neighbor(true, e) == NeighborTree(e)
  {
    assert QosFields(true, e, 2) == NeighborTree(e).kids;
  }

  lemma NeighborsShape(table: seq<Entry>, n: nat)
    requires n <= |table|
    ensures Neighbors(true, table, n) == NeighborTrees(table, n)
  {
    forall k | 0 <= k < n
      ensures Neighbors(true, table, n)[k] == NeighborTrees(table, n)[k]
    {
      NeighborShape(table[n - 1 - k]);
    }
  }

  lemma FirstIfaceShape(g: Globals, i: Iface)
    requires Good(g) && g.field == 0 && g.sub == 1 && DistinctAddrs(i.cache)
    ensures var c := CountNeighbors(g, i);
            && c.num <= |c.table|
            && IfaceFields(true, g, i) == Out(FirstIface(i, c.table, c.num).kids, c.(field := 4, num := 0))
  {
    CountKeepsGood(g, i);
    var c := CountNeighbors(g, i);
    NeighborsShape(c.table, c.num);
    assert PlainFields(true, i, 0, c.num) == FirstIface(i, c.table, c.num).kids[..4];
  }

  /** From every state, dumping netif shows the first interface in full over the list as it stands
      after the count, and every later interface only with an empty neighbours directory; it ends
      with no neighbour pending, sub-field count 1 and field count 4. */
  lemma NetifDumpShape(env: Env, g: Globals)
    requires ValidEnv(env) && Good(g) && env.ifaces != []
    ensures var first := env.ifaces[0];
            var n := |first.cache| % 256;
            var table := ApplyAll(g.table, Discoveries(first.cache));
            var (t, g') := DynamicOut(true, env, g, NetifBranch);
            && n <= |table|
            && g' == g.(field := 4, sub := 1, num := 0, table := table)
            && t.name == "netif" && Kids(t) == [FirstIface(first, table, n)] + EmptyIfaces(env)
  {
    var first := env.ifaces[0];
    var h := g.(field := 0, sub := 1);
    FirstIfaceShape(h, first);
    var o := IfaceFields(true, h, first);
    LaterIfaces(true, env, o.g, 1);
    assert IfacesFrom(true, env, o.g, 1).ts == EmptyIfaces(env);
  }

  function EmptyIfaces(env: Env): seq<Tree>
    requires env.ifaces != []
  {
    seq(|env.ifaces| - 1, i requires 0 <= i < |env.ifaces| - 1 => EmptyIface(env.ifaces[1 + i]))
  }

  // ----- /runtime/ps -----

  /** All five fields of a process. */
  function ProcessFields(th: Thread, pid: nat): (r: seq<Tree>)
    ensures |r| == PS_COUNT
  {
    [Leaf("pid", Some(IntValue(pid))),
     Leaf("state", Some(StrValue(th.status))),
     Leaf("priority", Some(IntValue(th.priority))),
     Leaf("total stack", Some(IntValue(th.stackSize))),
     Leaf("stack used", Some(IntValue(th.stackSize - th.stackFree)))]
  }

  ghost predicate ProcessShown(th: Thread, pid: nat, k: int, t: Tree) {
    0 <= k < PS_COUNT && t == Dir(th.name, ProcessFields(th, pid)[k..])
  }

  lemma ProcessShape(env: Env, pids: seq<nat>, k: int, i: nat)
    requires 0 <= k < PS_COUNT && AllAlive(env, pids) && i < |pids|
    ensures ProcessShown(env.threads[pids[i]].value, pids[i], if i == 0 then k else 0, Processes(true, env, pids, k)[i])
  {
    var th, from := env.threads[pids[i]].value, if i == 0 then k else 0;
    assert PsFields(true, th, pids[i], from) == ProcessFields(th, pids[i])[from..];
  }

  /** Dumping ps from count k shows exactly the live processes, by strictly increasing pid, each
      with its fields in order: all five, but for the first process only fields k to 4.  The count
      ends at 0, so the next dump is complete. */
  lemma PsDumpShape(env: Env, g: Globals)
    requires ValidEnv(env) && Good(g)
    ensures var (t, g') := DynamicOut(true, env, g, PsBranch);
            g' == g.(ps := 0) && t.name == "ps" && PsShown(env, g.ps, Kids(t))
  {
    var pids := LivePids(env, KERNEL_PID_FIRST);
    LivePidsExact(env, KERNEL_PID_FIRST);
    LivePidsAlive(env, KERNEL_PID_FIRST);
    assert KERNEL_PID_FIRST in pids;
    forall i | 0 <= i < |pids|
      ensures ProcessShown(env.threads[pids[i]].value, pids[i], if i == 0 then g.ps else 0, Processes(true, env, pids, g.ps)[i])
    {
      ProcessShape(env, pids, g.ps, i);
    }
    assert ExactlyLive(env, pids);
  }

  ghost predicate ExactlyLive(env: Env, pids: seq<nat>) {
    && pids != [] && AllAlive(env, pids)
    && (forall p: nat :: p in pids <==> KERNEL_PID_FIRST <= p && Alive(env, p))
    && (forall i, j :: 0 <= i < j < |pids| ==> pids[i] < pids[j])
  }

  ghost predicate PsShown(env: Env, k: int, ts: seq<Tree>) {
    exists pids :: ExactlyLive(env, pids) && |ts| == |pids| &&
      forall i :: 0 <= i < |pids| ==> ProcessShown(env.threads[pids[i]].value, pids[i], if i == 0 then k else 0, ts[i])
  }

  // ----- what a dump leaves in the counts -----

  /** Showing at least one interface leaves no neighbour pending. */
  lemma {:induction false} IfacesLeave(env: Env, g: Globals, from: nat)
    requires ValidEnv(env) && Good(g) && g.sub == 1 && from <= |env.ifaces|
    ensures var h := IfacesFrom(true, env, g, from).g;
            && h.sub == 1 && (from < |env.ifaces| ==> h.field == 4)
            && (from < |env.ifaces| || g.num == 0 ==> h.num == 0)
    decreases |env.ifaces| - from
  {
    if from < |env.ifaces| {
      IfacesLeave(env, IfaceFields(true, g, env.ifaces[from]).g, from + 1);
    }
  }

  lemma {:induction false} DynamicsLeave(env: Env, g: Globals, ds: seq<Dynamic>)
    requires ValidEnv(env) && Good(g)
    ensures var h := DynamicsFrom(true, env, g, ds).g;
            && (PsBranch in ds || g.ps == 0 ==> h.ps == 0)
            && ((NetifBranch in ds && env.ifaces != []) || g.num == 0 ==> h.num == 0)
    decreases |ds|
  {
    if ds != [] {
      IfacesLeave(env, g.(field := 0, sub := 1), 0);
      DynamicsLeave(env, DynamicOut(true, env, g, ds[0]).1, ds[1..]);
    }
  }

  lemma ListsNext(env: Env, from: nat, d: Dynamic)
    requires from < |env.index|
    ensures Lists(env, from, d) <==> d in env.index[from].dynamics || Lists(env, from + 1, d)
  {
  }

  /** A dump that shows ps leaves its field count at 0, and one that shows an interface leaves no
      neighbour at the current position. */
  lemma {:induction false} BranchesLeave(env: Env, g: Globals, from: nat)
    requires ValidEnv(env) && Good(g) && from <= |env.index|
    ensures var h := BranchesFrom(true, env, g, from).g;
            && (Lists(env, from, PsBranch) || g.ps == 0 ==> h.ps == 0)
            && ((Lists(env, from, NetifBranch) && env.ifaces != []) || g.num == 0 ==> h.num == 0)
    decreases |env.index| - from
  {
    if from < |env.index| {
      DynamicsLeave(env, g, env.index[from].dynamics);
      ListsNext(env, from, PsBranch);
      ListsNext(env, from, NetifBranch);
      BranchesLeave(env, BranchFrom(true, env, g, env.index[from], 0).g, from + 1);
    }
  }
}
