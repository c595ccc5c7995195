/**
 What the recursive dump shows, written down as a tree with no cursor in it, and the proof that
 the cursors hand out exactly that tree, one child at a time.
 */
module DumpSpec {
  import opened NeighborTable
  import opened DbModel
  import opened Trees

  /** The trees still to be shown, and the globals once they have been. */
  datatype Out = Out(ts: seq<Tree>, g: Globals)

  /** A leaf line; its value is read only when contents are printed. */
  function File(show: bool, name: string, v: Value): Tree {
    Leaf(name, if show then Some(v) else None)
  }

  // ----- /runtime/ps -----

  /** The live pids from a given one upward. */
  function LivePids(env: Env, from: nat): seq<nat>
    decreases |env.threads| - from
  {
    if from >= |env.threads| then []
    else (if Alive(env, from) then [from] else []) + LivePids(env, from + 1)
  }

  /** Fields k, k+1, .., 4 of a process. */
  function PsFields(show: bool, t: Thread, pid: nat, k: int): (r: seq<Tree>)
    requires 0 <= k <= PS_COUNT
    ensures |r| == PS_COUNT - k
    ensures forall i :: 0 <= i < |r| ==> r[i] == File(show, PsFieldName(k + i), PsValue(t, pid, k + i))
  {
    seq(PS_COUNT - k, i requires 0 <= i < PS_COUNT - k => File(show, PsFieldName(k + i), PsValue(t, pid, k + i)))
  }

  function Process(show: bool, env: Env, pid: nat, k: int): Tree
    requires 0 <= k < PS_COUNT && Alive(env, pid)
  {
    var t := env.threads[pid].value;
    Dir(t.name, PsFields(show, t, pid, k))
  }

  ghost predicate AllAlive(env: Env, pids: seq<nat>) {
    forall i :: 0 <= i < |pids| ==> Alive(env, pids[i])
  }

  /** One directory per process; only the first is shortened, by the count left in _field_count. */
  function Processes(show: bool, env: Env, pids: seq<nat>, k: int): (r: seq<Tree>)
    requires 0 <= k < PS_COUNT && AllAlive(env, pids)
    ensures |r| == |pids|
  {
    seq(|pids|, i requires 0 <= i < |pids| && Alive(env, pids[i]) => Process(show, env, pids[i], if i == 0 then k else 0))
  }

  // ----- /saul/devices -----

  function Devices(show: bool, devices: seq<Device>): (r: seq<Tree>)
    ensures |r| == |devices|
  {
    seq(|devices|, i requires 0 <= i < |devices| =>
      Dir(devices[i].name, [File(show, "class", StrValue(devices[i].cls))]))
  }

  // ----- /network/netif -----

  /** The quality-of-service fields of one neighbour, from field sub to throughput. */
  function QosFields(show: bool, e: Entry, sub: int): (r: seq<Tree>)
    requires 2 <= sub <= 5
    ensures |r| == 5 - sub
  {
    seq(5 - sub, i requires 0 <= i < 5 - sub => File(show, QosName(sub + i), QosValue(e, sub + i)))
  }

  function Neighbor(show: bool, e: Entry): Tree {
    Dir(e.addr, QosFields(show, e, 2))
  }

  /** The entries at positions num, num - 1, .., 1 of the neighbour list, in this order. */
  function Neighbors(show: bool, table: seq<Entry>, num: nat): (r: seq<Tree>)
    requires num <= |table|
    ensures |r| == num
  {
    seq(num, i requires 0 <= i < num => Neighbor(show, table[num - 1 - i]))
  }

  /** The globals after the reads made while showing the four plain fields from g.field on. */
  function AfterCount(show: bool, g: Globals, i: Iface): Globals {
    if show && g.field <= 3 then CountNeighbors(g, i) else g
  }

  /** Plain field k of an interface; only num_neighbours depends on a count. */
  function IfaceField(show: bool, i: Iface, k: int, num: nat): Tree {
    File(show, NetifFieldName(k),
         match k
         case 0 => IntValue(i.id)
         case 1 => StrValue(i.addr)
         case 2 => StrValue(LinkType(i))
         case _ => IntValue(num))
  }

  function PlainFields(show: bool, i: Iface, from: int, num: nat): (r: seq<Tree>)
    requires 0 <= from <= 4
    ensures |r| == 4 - from
  {
    seq(4 - from, k requires 0 <= k < 4 - from => IfaceField(show, i, from + k, num))
  }

  /** Fields g.field, .., 3 of an interface and then its neighbours directory. */
  function IfaceFields(show: bool, g: Globals, i: Iface): (o: Out)
    requires Good(g) && g.sub == 1 && DistinctAddrs(i.cache)
    ensures |o.ts| == NETIF_COUNT - g.field
    ensures Good(o.g) && o.g.field == 4 && o.g.sub == 1 && o.g.num == 0 && o.g.ps == g.ps
  {
    CountKeepsGood(g, i);
    var g' := AfterCount(show, g, i);
    Out(PlainFields(show, i, g.field, g'.num) + [Dir("neighbours", Neighbors(show, g'.table, g'.num))], g'.(field := 4, num := 0))
  }

  function IfacesFrom(show: bool, env: Env, g: Globals, from: nat): (o: Out)
    requires ValidEnv(env) && Good(g) && g.sub == 1 && from <= |env.ifaces|
    ensures |o.ts| == |env.ifaces| - from
    ensures Good(o.g) && o.g.sub == 1 && o.g.ps == g.ps
    decreases |env.ifaces| - from
  {
    if from == |env.ifaces| then Out([], g)
    else
      var first := IfaceFields(show, g, env.ifaces[from]);
      var rest := IfacesFrom(show, env, first.g, from + 1);
      Out([Dir(env.ifaces[from].name, first.ts)] + rest.ts, rest.g)
  }

  // ----- first level and root -----

  function DynamicOut(show: bool, env: Env, g: Globals, d: Dynamic): (r: (Tree, Globals))
    requires ValidEnv(env) && Good(g)
    ensures Good(r.1)
  {
    match d
    case PsBranch =>
      LivePidsAlive(env, KERNEL_PID_FIRST);
      (Dir("ps", Processes(show, env, LivePids(env, KERNEL_PID_FIRST), g.ps)), g.(ps := 0))
    case SaulBranch => (Dir("devices", Devices(show, env.devices)), g)
    case NetifBranch =>
      var o := IfacesFrom(show, env, g.(field := 0, sub := 1), 0);
      (Dir("netif", o.ts), o.g)
  }

  function DynamicsFrom(show: bool, env: Env, g: Globals, ds: seq<Dynamic>): (o: Out)
    requires ValidEnv(env) && Good(g)
    ensures |o.ts| == |ds| && Good(o.g)
    decreases |ds|
  {
    if ds == [] then Out([], g)
    else
      var (t, g') := DynamicOut(show, env, g, ds[0]);
      var rest := DynamicsFrom(show, env, g', ds[1..]);
      Out([t] + rest.ts, rest.g)
  }

  function StaticFiles(show: bool, statics: seq<StaticEntry>): (r: seq<Tree>)
    ensures |r| == |statics|
  {
    seq(|statics|, i requires 0 <= i < |statics| => File(show, statics[i].name, statics[i].value))
  }

  /** Every static entry and then every dynamic entry, from entry number sub on. */
  function BranchFrom(show: bool, env: Env, g: Globals, b: Branch, sub: nat): (o: Out)
    requires ValidEnv(env) && Good(g) && sub <= Total(b)
    ensures |o.ts| == Total(b) - sub && Good(o.g)
  {
    if sub <= |b.statics| then
      var rest := DynamicsFrom(show, env, g, b.dynamics);
      Out(StaticFiles(show, b.statics[sub..]) + rest.ts, rest.g)
    else DynamicsFrom(show, env, g, b.dynamics[sub - |b.statics|..])
  }

  function BranchesFrom(show: bool, env: Env, g: Globals, from: nat): (o: Out)
    requires ValidEnv(env) && Good(g) && from <= |env.index|
    ensures |o.ts| == |env.index| - from && Good(o.g)
    decreases |env.index| - from
  {
    if from == |env.index| then Out([], g)
    else
      var b := env.index[from];
      var first := BranchFrom(show, env, g, b, 0);
      var rest := BranchesFrom(show, env, first.g, from + 1);
      Out([Dir(b.name, first.ts)] + rest.ts, rest.g)
  }

  /** The whole database, as dcadump shows it. */
  function Database(show: bool, env: Env, g: Globals): Tree
    requires ValidEnv(env) && Good(g)
  {
    Dir("/", BranchesFrom(show, env, g, 0).ts)
  }

  // ----- facts about the pieces -----

  lemma {:induction false} LivePidsAlive(env: Env, from: nat)
    ensures AllAlive(env, LivePids(env, from))
    decreases |env.threads| - from
  {
    if from < |env.threads| {
      LivePidsAlive(env, from + 1);
    }
  }

  /** The listed pids are exactly the live ones, in strictly increasing order. */
  lemma {:induction false} LivePidsExact(env: Env, from: nat)
    ensures forall p: nat :: p in LivePids(env, from) <==> from <= p && Alive(env, p)
    ensures forall i, j :: 0 <= i < j < |LivePids(env, from)| ==> LivePids(env, from)[i] < LivePids(env, from)[j]
    decreases |env.threads| - from
  {
    if from < |env.threads| {
      LivePidsExact(env, from + 1);
      var tail := LivePids(env, from + 1);
      assert forall i :: 0 <= i < |tail| ==> tail[i] in tail;
    }
  }

  /** Skipping dead threads does not change what is live. */
  lemma {:induction false} LivePidsSkip(env: Env, from: nat, end: nat)
    requires from <= end <= |env.threads|
    requires forall q :: from <= q < end ==> !Alive(env, q)
    ensures LivePids(env, from) == LivePids(env, end)
    decreases end - from
  {
    if from < end {
      LivePidsSkip(env, from + 1, end);
    }
  }

  lemma CountKeepsGood(g: Globals, i: Iface)
    requires Good(g) && DistinctAddrs(i.cache)
    ensures Good(CountNeighbors(g, i))
  {
    AnyInterleaving(g.table, Discoveries(i.cache));
    DiscoveryCoversCache(g.table, i.cache);
  }
}
