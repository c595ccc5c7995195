/**
 What the printed lines of a dump are, node by node: where the line of a node stands, how deep it is
 indented and what it says.
 */
module DumpLines {
  import opened NeighborTable
  import opened DbModel
  import opened Trees
  import opened DumpSpec
  import opened PathTheorems

  // ----- where the line of a node stands -----

  /** The number of nodes of a tree. */
  function NodeCount(t: Tree): nat
    decreases t, 0
  {
    match t
    case Leaf(_, _) => 1
    case Dir(_, kids) => 1 + NodeCounts(kids)
  }

  function NodeCounts(ts: seq<Tree>): nat
    decreases ts, 1
  {
    if ts == [] then 0 else NodeCount(ts[0]) + NodeCounts(ts[1..])
  }

  /** The number of nodes before the one at path p, in preorder: one for every node on the way, and the
      whole subtrees of all their elder siblings. */
  ghost function NodesBefore(t: Tree, p: seq<nat>): nat
    requires InTree(t, p)
    decreases |p|
  {
    if p == [] then 0 else 1 + NodeCounts(Kids(t)[..p[0]]) + NodesBefore(Kids(t)[p[0]], p[1..])
  }

  /** The lines print the tree at the given depth: one line a node, and the line of the node at path p
      stands behind those of the nodes before it, is indented by the length of p, and says the name, a
      directory mark, or the value. */
  ghost predicate Prints(lines: seq<Line>, t: Tree, depth: nat) {
    && |lines| == NodeCount(t)
    && forall p {:trigger NodesBefore(t, p)} :: InTree(t, p) ==>
         && NodesBefore(t, p) < |lines|
         && LineSays(lines[NodesBefore(t, p)], At(t, p), depth + |p|)
  }

  ghost predicate LineSays(line: Line, t: Tree, depth: nat) {
    && line.depth == depth && line.name == t.name
    && (t.Dir? ==> line.DirLine?)
    && (t.Leaf? ==> line.FileLine? && line.value == t.value)
  }

  /** Every line is the line of some node. */
  ghost predicate PrintsNothingElse(lines: seq<Line>, t: Tree) {
    forall k {:trigger lines[k]} :: 0 <= k < |lines| ==> HasLine(t, k)
  }

  ghost predicate HasLine(t: Tree, k: nat) {
    exists p {:trigger NodesBefore(t, p)} :: InTree(t, p) && NodesBefore(t, p) == k
  }

  // ----- the flattened tree -----

  lemma {:induction false} LineCount(t: Tree, depth: nat)
    ensures |Flatten(t, depth)| == NodeCount(t)
    decreases t, 0
  {
    match t
    case Leaf(_, _) =>
    case Dir(_, kids) => LineCounts(kids, depth + 1);
  }

  lemma {:induction false} LineCounts(ts: seq<Tree>, depth: nat)
    ensures |FlattenAll(ts, depth)| == NodeCounts(ts)
    decreases ts, 1
  {
    if ts != [] {
      LineCount(ts[0], depth);
      LineCounts(ts[1..], depth);
    }
  }

  /** The lines of one of several trees stand together, behind those of its elders. */
  lemma {:induction false} LinesOfKid(ts: seq<Tree>, i: nat, depth: nat)
    requires i < |ts|
    ensures var from := NodeCounts(ts[..i]);
            && from + NodeCount(ts[i]) <= |FlattenAll(ts, depth)|
            && FlattenAll(ts, depth)[from..from + NodeCount(ts[i])] == Flatten(ts[i], depth)
    decreases i
  {
    LineCount(ts[0], depth);
    LineCount(ts[i], depth);
    if i > 0 {
      LinesOfKid(ts[1..], i - 1, depth);
      assert ts[..i][0] == ts[0] && ts[..i][1..] == ts[1..][..i - 1];
      var first, rest := Flatten(ts[0], depth), FlattenAll(ts[1..], depth);
      var from := NodeCounts(ts[1..][..i - 1]);
      assert (first + rest)[|first| + from..|first| + from + NodeCount(ts[i])] == rest[from..from + NodeCount(ts[i])];
    }
  }

  /** Line k of the tree of child i is line 1 + from + k of its parent. */
  lemma LineOfKid(t: Tree, i: nat, depth: nat, k: nat)
    requires i < |Kids(t)| && k < NodeCount(Kids(t)[i])
    ensures var from := NodeCounts(Kids(t)[..i]);
            && k < |Flatten(Kids(t)[i], depth + 1)| && 1 + from + k < |Flatten(t, depth)|
            && Flatten(t, depth)[1 + from + k] == Flatten(Kids(t)[i], depth + 1)[k]
  {
    var all, from := FlattenAll(Kids(t), depth + 1), NodeCounts(Kids(t)[..i]);
    LinesOfKid(Kids(t), i, depth + 1);
    LineCount(Kids(t)[i], depth + 1);
    assert all[from..from + NodeCount(Kids(t)[i])][k] == all[from + k];
    assert Flatten(t, depth) == [DirLine(depth, t.name)] + all;
  }

  lemma {:induction false} NodesBeforeFit(t: Tree, p: seq<nat>)
    requires InTree(t, p)
    ensures NodesBefore(t, p) < NodeCount(t)
    decreases |p|
  {
    if p != [] {
      NodesBeforeFit(Kids(t)[p[0]], p[1..]);
      CountsSplit(Kids(t), p[0]);
    }
  }

  lemma {:induction false} CountsSplit(ts: seq<Tree>, i: nat)
    requires i < |ts|
    ensures NodeCounts(ts[..i]) + NodeCount(ts[i]) <= NodeCounts(ts)
    decreases i
  {
    if i > 0 {
      CountsSplit(ts[1..], i - 1);
      assert ts[..i][0] == ts[0] && ts[..i][1..] == ts[1..][..i - 1];
    }
  }

  lemma {:induction false} LineOfNode(t: Tree, depth: nat, p: seq<nat>)
    requires InTree(t, p)
    ensures NodesBefore(t, p) < |Flatten(t, depth)|
    ensures LineSays(Flatten(t, depth)[NodesBefore(t, p)], At(t, p), depth + |p|)
    decreases |p|
  {
    if p != [] {
      var kid := Kids(t)[p[0]];
      NodesBeforeFit(kid, p[1..]);
      LineOfNode(kid, depth + 1, p[1..]);
      LineOfKid(t, p[0], depth, NodesBefore(kid, p[1..]));
    }
  }

  /** Two nodes never share a line, and the line of an elder sibling's subtree comes first. */
  lemma {:induction false} LinesDiffer(t: Tree, p: seq<nat>, q: seq<nat>)
    requires InTree(t, p) && InTree(t, q) && NodesBefore(t, p) == NodesBefore(t, q)
    ensures p == q
    decreases |p|
  {
    if p != [] && q != [] {
      if p[0] == q[0] {
        LinesDiffer(Kids(t)[p[0]], p[1..], q[1..]);
        assert p == [p[0]] + p[1..] && q == [q[0]] + q[1..];
      } else if p[0] < q[0] {
        ElderFirst(t, p, q);
      } else {
        ElderFirst(t, q, p);
      }
    }
  }

  lemma ElderFirst(t: Tree, p: seq<nat>, q: seq<nat>)
    requires InTree(t, p) && InTree(t, q) && p != [] && q != [] && p[0] < q[0]
    ensures NodesBefore(t, p) < NodesBefore(t, q)
  {
    NodesBeforeFit(Kids(t)[p[0]], p[1..]);
    CountsSplit(Kids(t)[..q[0]], p[0]);
    assert Kids(t)[..q[0]][..p[0]] == Kids(t)[..p[0]];
  }

  /** The path of the node whose line is number k. */
  lemma {:induction false} NodeOfLine(t: Tree, k: nat) returns (p: seq<nat>)
    requires k < NodeCount(t)
    ensures InTree(t, p) && NodesBefore(t, p) == k
    decreases t, 0
  {
    if k == 0 {
      p := [];
    } else {
      var i, q := KidOfLine(Kids(t), k - 1);
      p := [i] + q;
      assert p[1..] == q;
    }
  }

  lemma {:induction false} KidOfLine(ts: seq<Tree>, k: nat) returns (i: nat, q: seq<nat>)
    requires k < NodeCounts(ts)
    ensures i < |ts| && InTree(ts[i], q) && NodeCounts(ts[..i]) + NodesBefore(ts[i], q) == k
    decreases ts, 1
  {
    if k < NodeCount(ts[0]) {
      i := 0;
      q := NodeOfLine(ts[0], k);
    } else {
      i, q := KidOfLine(ts[1..], k - NodeCount(ts[0]));
      i := i + 1;
      assert ts[..i][0] == ts[0] && ts[..i][1..] == ts[1..][..i - 1];
    }
  }

  lemma FlattenPrints(t: Tree, depth: nat)
    ensures Prints(Flatten(t, depth), t, depth) && PrintsNothingElse(Flatten(t, depth), t)
  {
    LineCount(t, depth);
    forall p | InTree(t, p)
      ensures NodesBefore(t, p) < |Flatten(t, depth)|
      ensures LineSays(Flatten(t, depth)[NodesBefore(t, p)], At(t, p), depth + |p|)
    {
      LineOfNode(t, depth, p);
    }
    forall k | 0 <= k < |Flatten(t, depth)|
      ensures HasLine(t, k)
    {
      var p := NodeOfLine(t, k);
    }
  }

  // ----- which lines carry a value -----

  /** Every leaf has a value, or none has. */
  ghost predicate AllLeaves(show: bool, t: Tree)
    decreases t
  {
    match t
    case Leaf(_, value) => value.Some? <==> show
    case Dir(_, kids) => forall i :: 0 <= i < |kids| ==> AllLeaves(show, kids[i])
  }

  ghost predicate AllKids(show: bool, ts: seq<Tree>) {
    forall i :: 0 <= i < |ts| ==> AllLeaves(show, ts[i])
  }

  lemma PlainLeaves(show: bool, i: Iface, from: int, num: nat)
    requires 0 <= from <= 4
    ensures AllKids(show, PlainFields(show, i, from, num))
  {
    var fields := PlainFields(show, i, from, num);
    forall k | 0 <= k < |fields|
      ensures AllLeaves(show, fields[k])
    {
      assert fields[k] == IfaceField(show, i, from + k, num);
    }
  }

  lemma IfaceLeaves(show: bool, g: Globals, i: Iface)
    requires Good(g) && g.sub == 1 && DistinctAddrs(i.cache)
    ensures AllKids(show, IfaceFields(show, g, i).ts)
  {
    CountKeepsGood(g, i);
    var h := AfterCount(show, g, i);
    var ns := Neighbors(show, h.table, h.num);
    forall k | 0 <= k < |ns|
      ensures AllLeaves(show, ns[k])
    {
      NeighborLeaves(show, h.table[h.num - 1 - k]);
    }
    assert AllLeaves(show, Dir("neighbours", ns));
    PlainLeaves(show, i, g.field, h.num);
  }

  lemma NeighborLeaves(show: bool, e: Entry)
    ensures AllLeaves(show, Neighbor(show, e))
  {
    assert AllKids(show, QosFields(show, e, 2));
  }

  lemma {:induction false} IfacesLeaves(show: bool, env: Env, g: Globals, from: nat)
    requires ValidEnv(env) && Good(g) && g.sub == 1 && from <= |env.ifaces|
    ensures AllKids(show, IfacesFrom(show, env, g, from).ts)
    decreases |env.ifaces| - from
  {
    if from < |env.ifaces| {
      var first := IfaceFields(show, g, env.ifaces[from]);
      IfaceLeaves(show, g, env.ifaces[from]);
      IfacesLeaves(show, env, first.g, from + 1);
      assert AllLeaves(show, Dir(env.ifaces[from].name, first.ts));
    }
  }

  lemma ProcessLeaves(show: bool, env: Env, pids: seq<nat>, k: int)
    requires 0 <= k < PS_COUNT && AllAlive(env, pids)
    ensures AllKids(show, Processes(show, env, pids, k))
  {
    forall i | 0 <= i < |pids|
      ensures AllLeaves(show, Processes(show, env, pids, k)[i])
    {
      assert AllKids(show, PsFields(show, env.threads[pids[i]].value, pids[i], if i == 0 then k else 0));
    }
  }

  lemma DeviceLeaves(show: bool, devices: seq<Device>)
    ensures AllKids(show, Devices(show, devices))
  {
    forall i | 0 <= i < |devices|
      ensures AllLeaves(show, Devices(show, devices)[i])
    {
      assert AllLeaves(show, File(show, "class", StrValue(devices[i].cls)));
    }
  }

  lemma DynamicLeaves(show: bool, env: Env, g: Globals, d: Dynamic)
    requires ValidEnv(env) && Good(g)
    ensures AllLeaves(show, DynamicOut(show, env, g, d).0)
  {
    match d
    case PsBranch =>
      LivePidsAlive(env, KERNEL_PID_FIRST);
      ProcessLeaves(show, env, LivePids(env, KERNEL_PID_FIRST), g.ps);
    case SaulBranch => DeviceLeaves(show, env.devices);
    case NetifBranch => IfacesLeaves(show, env, g.(field := 0, sub := 1), 0);
  }

  lemma {:induction false} DynamicsLeaves(show: bool, env: Env, g: Globals, ds: seq<Dynamic>)
    requires ValidEnv(env) && Good(g)
    ensures AllKids(show, DynamicsFrom(show, env, g, ds).ts)
    decreases |ds|
  {
    if ds != [] {
      DynamicLeaves(show, env, g, ds[0]);
      DynamicsLeaves(show, env, DynamicOut(show, env, g, ds[0]).1, ds[1..]);
    }
  }

  lemma BranchLeaves(show: bool, env: Env, g: Globals, b: Branch)
    requires ValidEnv(env) && Good(g)
    ensures AllLeaves(show, Dir(b.name, BranchFrom(show, env, g, b, 0).ts))
  {
    assert b.statics[0..] == b.statics;
    assert AllKids(show, StaticFiles(show, b.statics));
    DynamicsLeaves(show, env, g, b.dynamics);
    assert AllKids(show, BranchFrom(show, env, g, b, 0).ts);
  }

  lemma {:induction false} BranchesLeaves(show: bool, env: Env, g: Globals, from: nat)
    requires ValidEnv(env) && Good(g) && from <= |env.index|
    ensures AllKids(show, BranchesFrom(show, env, g, from).ts)
    decreases |env.index| - from
  {
    if from < |env.index| {
      BranchLeaves(show, env, g, env.index[from]);
      BranchesLeaves(show, env, BranchFrom(show, env, g, env.index[from], 0).g, from + 1);
    }
  }

  lemma {:induction false} LeafAt(show: bool, t: Tree, p: seq<nat>)
    requires AllLeaves(show, t) && InTree(t, p)
    ensures AllLeaves(show, At(t, p))
    decreases |p|
  {
    if p != [] {
      LeafAt(show, Kids(t)[p[0]], p[1..]);
    }
  }

  /** Printed with contents, every leaf line of the database carries a value; without, none does. */
  lemma ContentsShown(show: bool, env: Env, g: Globals)
    requires ValidEnv(env) && Good(g)
    ensures var lines := Flatten(Database(show, env, g), 0);
            forall k :: 0 <= k < |lines| && lines[k].FileLine? ==> (lines[k].value.Some? <==> show)
  {
    var t := Database(show, env, g);
    var lines := Flatten(t, 0);
    BranchesLeaves(show, env, g, 0);
    assert AllLeaves(show, t);
    FlattenPrints(t, 0);
    forall k | 0 <= k < |lines| && lines[k].FileLine?
      ensures lines[k].value.Some? <==> show
    {
      var p := NodeOfLine(t, k);
      LeafAt(show, t, p);
      assert LineSays(lines[NodesBefore(t, p)], At(t, p), |p|);
    }
  }
}
