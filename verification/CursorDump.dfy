/**
 The cursors against the declarative dump: from any point of an iteration, the children still to
 come are the trees Pending names, and each call of next-child hands out the first of them.
 */
module CursorDump {
  import opened NeighborTable
  import opened DbModel
  import opened Trees
  import opened DumpSpec

  /** What a dump loop over node n will still show, given the child variable it holds. */
  function Pending(show: bool, env: Env, g: Globals, n: Node, child: Node): (o: Out)
    requires ValidEnv(env) && Good(g) && Iterable(env, g, n, child)
    ensures Good(o.g)
  {
    match n
    case Root(idx) => BranchesFrom(show, env, g, idx)
    case Fl(fl, subIdx, top) => if top then BranchFrom(show, env, g, env.index[fl], subIdx) else Out([], g)
    case Ps(pid, level) =>
      if level == 2 then
        LivePidsAlive(env, pid);
        Out(Processes(show, env, LivePids(env, pid), g.ps), if pid < |env.threads| then g.(ps := 0) else g)
      else if level == 1 then Out(PsFields(show, env.threads[pid].value, pid, g.ps), g.(ps := 0))
      else Out(PsFields(show, env.threads[child.pid].value, child.pid, g.ps + 1), g.(ps := 0))
    case Saul(dev, level) =>
      if level == 2 then Out(Devices(show, env.devices[dev..]), g)
      else if level == 1 then Out([File(show, "class", StrValue(env.devices[dev].cls))], g)
      else Out([], g)
    case Netif(iface, level) => NetifPending(show, env, g, n, child)
  }

  function NetifPending(show: bool, env: Env, g: Globals, n: Node, child: Node): (o: Out)
    requires ValidEnv(env) && Good(g) && Iterable(env, g, n, child) && n.Netif?
    ensures Good(o.g)
  {
    if n.level == 4 then IfacesFrom(show, env, g, n.iface)
    else if n.level == 3 then IfaceFields(show, g, env.ifaces[n.iface])
    else if n.level == 2 then
      if g.field < 4 then IfaceFields(show, g.(field := g.field + 1), env.ifaces[child.iface])
      else if n.iface < |env.ifaces| then Out(Neighbors(show, g.table, g.num), g.(num := 0, sub := 1))
      else Out([], g)
    else if n.level == 1 then
      if g.sub == 1 then Out(Neighbors(show, g.table, g.num), g.(num := 0, sub := 1))
      else if g.sub < 4 then Out(QosFields(show, g.table[g.num - 1], g.sub), g.(sub := 5))
      else Out(Neighbors(show, g.table, g.num - 1), g.(num := 0, sub := 1))
    else Out(QosFields(show, g.table[g.num - 1], g.sub + 1), g.(sub := 5))
  }

  /** The tree shown for a node, and the globals afterwards. */
  function Whole(show: bool, env: Env, g: Globals, n: Node): (r: (Tree, Globals))
    requires ValidEnv(env) && Good(g) && Named(env, g, n)
    ensures Good(r.1)
  {
    var name := NameOf(env, g, n);
    if IsLeaf(TypeOf(env, g, n)) then
      var (v, g') := ReadValue(env, g, n);
      ReadKeepsGood(env, g, n);
      (File(show, name, v), if show then g' else g)
    else
      var o := Pending(show, env, g, n, Null);
      (Dir(name, o.ts), o.g)
  }

  lemma ReadKeepsGood(env: Env, g: Globals, n: Node)
    requires ValidEnv(env) && Good(g) && Held(env, n) && Defined(g, n) && IsLeaf(TypeOf(env, g, n))
    ensures Good(ReadValue(env, g, n).1)
  {
    if n.Netif? {
      CountKeepsGood(g, env.ifaces[n.iface]);
    }
  }

  /** One turn of the dump loop, for the tree that s hands out and shows. */
  ghost predicate Turn(show: bool, env: Env, o: Out, s: Step)
    requires ValidEnv(env) && Good(s.g) && (s.child.Null? || Named(env, s.g, s.child))
  {
    if s.child.Null? then o == Out([], s.g)
    else
      var (t, g') := Whole(show, env, s.g, s.child);
      && Iterable(env, g', s.node, s.child)
      && var rest := Pending(show, env, g', s.node, s.child);
         o == Out([t] + rest.ts, rest.g)
  }

  lemma RootTurn(show: bool, env: Env, g: Globals, n: Node)
    requires ValidEnv(env) && Good(g) && Iterable(env, g, n, Null) && n.Root?
    ensures Turn(show, env, Pending(show, env, g, n, Null), Next(env, g, n, Null))
  {
  }

  lemma StaticStep(show: bool, env: Env, g: Globals, b: Branch, sub: nat)
    requires ValidEnv(env) && Good(g) && sub < |b.statics|
    ensures var rest := BranchFrom(show, env, g, b, sub + 1);
            BranchFrom(show, env, g, b, sub) == Out([File(show, b.statics[sub].name, b.statics[sub].value)] + rest.ts, rest.g)
  {
    var dyn := DynamicsFrom(show, env, g, b.dynamics);
    assert StaticFiles(show, b.statics[sub..]) ==
           [File(show, b.statics[sub].name, b.statics[sub].value)] + StaticFiles(show, b.statics[sub + 1..]);
  }

  lemma DynamicStep(show: bool, env: Env, g: Globals, b: Branch, sub: nat)
    requires ValidEnv(env) && Good(g) && |b.statics| <= sub < Total(b)
    ensures var (t, g') := DynamicOut(show, env, g, b.dynamics[sub - |b.statics|]);
            var rest := BranchFrom(show, env, g', b, sub + 1);
            BranchFrom(show, env, g, b, sub) == Out([t] + rest.ts, rest.g)
  {
    var ds := b.dynamics[sub - |b.statics|..];
    assert StaticFiles(show, b.statics[|b.statics|..]) == [];
    assert b.dynamics[0..] == b.dynamics;
    assert ds[1..] == b.dynamics[sub + 1 - |b.statics|..];
    assert BranchFrom(show, env, g, b, sub) == DynamicsFrom(show, env, g, ds);
  }

  lemma FlDynamicTurn(show: bool, env: Env, g: Globals, n: Node)
    requires ValidEnv(env) && Good(g) && Iterable(env, g, n, Null)
    requires n.Fl? && n.top && |env.index[n.fl].statics| <= n.subIdx < Total(env.index[n.fl])
    ensures Turn(show, env, Pending(show, env, g, n, Null), Next(env, g, n, Null))
  {
    var b := env.index[n.fl];
    var d := b.dynamics[n.subIdx - |b.statics|];
    var (g', c) := Create(g, d);
    var s := Step(g', n.(subIdx := n.subIdx + 1), c);
    assert Next(env, g, n, Null) == s;
    CreatedIsShown(show, env, g, d);
    DynamicStep(show, env, g, b, n.subIdx);
    var w := Whole(show, env, g', c);
    var rest := BranchFrom(show, env, w.1, b, n.subIdx + 1);
    assert Iterable(env, w.1, s.node, c) && Pending(show, env, w.1, s.node, c) == rest;
    assert Pending(show, env, g, n, Null) == Out([w.0] + rest.ts, rest.g);
  }

  lemma FlStaticTurn(show: bool, env: Env, g: Globals, n: Node)
    requires ValidEnv(env) && Good(g) && Iterable(env, g, n, Null)
    requires n.Fl? && n.top && n.subIdx < |env.index[n.fl].statics|
    ensures Turn(show, env, Pending(show, env, g, n, Null), Next(env, g, n, Null))
  {
    var b := env.index[n.fl];
    assert Next(env, g, n, Null) == Step(g, n.(subIdx := n.subIdx + 1), Fl(n.fl, n.subIdx, false));
    StaticStep(show, env, g, b, n.subIdx);
  }

  lemma BranchEnd(show: bool, env: Env, g: Globals, b: Branch)
    requires ValidEnv(env) && Good(g)
    ensures BranchFrom(show, env, g, b, Total(b)) == Out([], g)
  {
    assert StaticFiles(show, b.statics[|b.statics|..]) == [];
    assert b.dynamics[Total(b) - |b.statics|..] == [];
  }

  lemma FlTurn(show: bool, env: Env, g: Globals, n: Node)
    requires ValidEnv(env) && Good(g) && Iterable(env, g, n, Null) && n.Fl?
    ensures Turn(show, env, Pending(show, env, g, n, Null), Next(env, g, n, Null))
  {
    if n.top {
      if n.subIdx < |env.index[n.fl].statics| {
        FlStaticTurn(show, env, g, n);
      } else if n.subIdx < Total(env.index[n.fl]) {
        FlDynamicTurn(show, env, g, n);
      } else {
        BranchEnd(show, env, g, env.index[n.fl]);
      }
    }
  }

  lemma CreatedIsShown(show: bool, env: Env, g: Globals, d: Dynamic)
    requires ValidEnv(env) && Good(g)
    ensures var (g', n) := Create(g, d);
            Good(g') && Named(env, g', n) && Whole(show, env, g', n) == DynamicOut(show, env, g, d)
  {
    assert env.devices[0..] == env.devices;
  }

  lemma PsFieldsStep(show: bool, t: Thread, pid: nat, k: int)
    requires 0 <= k < PS_COUNT
    ensures PsFields(show, t, pid, k) == [File(show, PsFieldName(k), PsValue(t, pid, k))] + PsFields(show, t, pid, k + 1)
  {
  }

  lemma ProcessesStep(show: bool, env: Env, pid: nat, k: int)
    requires Alive(env, pid) && 0 <= k < PS_COUNT
    ensures AllAlive(env, LivePids(env, pid)) && AllAlive(env, LivePids(env, NextPid(env, pid)))
    ensures Processes(show, env, LivePids(env, pid), k) ==
            [Process(show, env, pid, k)] + Processes(show, env, LivePids(env, NextPid(env, pid)), 0)
  {
    var next := NextPid(env, pid);
    LivePidsSkip(env, pid + 1, next);
    assert LivePids(env, pid) == [pid] + LivePids(env, next);
    LivePidsAlive(env, pid);
    LivePidsAlive(env, next);
  }

  lemma ProcessTurn(show: bool, env: Env, g: Globals, n: Node)
    requires ValidEnv(env) && Good(g) && n.Ps? && n.level == 2 && Alive(env, n.pid)
    ensures Turn(show, env, Pending(show, env, g, n, Null), Next(env, g, n, Null))
  {
    var s := Step(g, Ps(NextPid(env, n.pid), 2), Ps(n.pid, 1));
    assert Next(env, g, n, Null) == s;
    ProcessesStep(show, env, n.pid, g.ps);
    var w := Whole(show, env, g, s.child);
    assert w == (Process(show, env, n.pid, g.ps), g.(ps := 0));
    assert Pending(show, env, w.1, s.node, s.child).ts == Processes(show, env, LivePids(env, s.node.pid), 0);
  }

  /** A process field is next: the child variable holds its leaf, whichever call wrote it. */
  lemma PsFieldTurn(show: bool, env: Env, g: Globals, pid: nat, n: Node)
    requires ValidEnv(env) && Good(g) && Alive(env, pid) && n.Ps? && n.level == 0 && n.pid <= |env.threads|
    ensures Turn(show, env, Out(PsFields(show, env.threads[pid].value, pid, g.ps), g.(ps := 0)), Step(g, n, Ps(pid, 0)))
  {
    PsFieldsStep(show, env.threads[pid].value, pid, g.ps);
  }

  lemma PsTurn(show: bool, env: Env, g: Globals, n: Node, child: Node)
    requires ValidEnv(env) && Good(g) && Iterable(env, g, n, child) && n.Ps?
    ensures Turn(show, env, Pending(show, env, g, n, child), Next(env, g, n, child))
  {
    if n.level == 2 && n.pid < |env.threads| {
      ProcessTurn(show, env, g, n);
    } else if n.level == 1 {
      PsFieldTurn(show, env, g, n.pid, Ps(NextPid(env, n.pid), 0));
    } else if n.level == 0 && g.ps < PS_COUNT - 1 {
      PsFieldTurn(show, env, g.(ps := g.ps + 1), child.pid, n);
    }
  }

  lemma SaulTurn(show: bool, env: Env, g: Globals, n: Node, child: Node)
    requires ValidEnv(env) && Good(g) && Iterable(env, g, n, child) && n.Saul?
    ensures Turn(show, env, Pending(show, env, g, n, child), Next(env, g, n, child))
  {
    if n.level == 2 && n.dev < |env.devices| {
      var d := env.devices[n.dev];
      assert Devices(show, env.devices[n.dev..]) ==
             [Dir(d.name, [File(show, "class", StrValue(d.cls))])] + Devices(show, env.devices[n.dev + 1..]);
    }
  }

  lemma QosFieldsStep(show: bool, e: Entry, sub: int)
    requires 2 <= sub <= 4
    ensures QosFields(show, e, sub) == [File(show, QosName(sub), QosValue(e, sub))] + QosFields(show, e, sub + 1)
  {
  }

  lemma NeighborsStep(show: bool, table: seq<Entry>, num: nat)
    requires 1 <= num <= |table|
    ensures Neighbors(show, table, num) == [Neighbor(show, table[num - 1])] + Neighbors(show, table, num - 1)
  {
  }

  lemma PlainFieldsStep(show: bool, i: Iface, from: int, num: nat)
    requires 0 <= from < 4
    ensures PlainFields(show, i, from, num) == [IfaceField(show, i, from, num)] + PlainFields(show, i, from + 1, num)
  {
  }

  /** The globals once plain field g.field has been shown. */
  function AfterField(show: bool, g: Globals, i: Iface): Globals {
    if g.field == 3 then AfterCount(show, g, i) else g
  }

  /** A plain field shows its value, and reading num_neighbours leaves the count it shows. */
  lemma PlainFieldShown(show: bool, env: Env, g: Globals, iface: nat)
    requires ValidEnv(env) && Good(g) && g.sub == 1 && g.field < 4 && iface < |env.ifaces|
    ensures var i := env.ifaces[iface];
            Whole(show, env, g, Netif(iface, 2)) ==
            (IfaceField(show, i, g.field, AfterCount(show, g, i).num), AfterField(show, g, i))
  {
  }

  /** What the remaining plain fields leave does not change when one of them has been shown. */
  lemma AfterCountNext(show: bool, g: Globals, i: Iface)
    requires g.field < 4
    ensures var g' := AfterField(show, g, i);
            AfterCount(show, g'.(field := g.field + 1), i) == AfterCount(show, g, i).(field := g.field + 1)
  {
  }

  lemma IfaceFieldsUnfold(show: bool, g: Globals, i: Iface)
    requires Good(g) && g.sub == 1 && g.field < 4 && DistinctAddrs(i.cache)
    ensures var g' := AfterField(show, g, i).(field := g.field + 1);
            && Good(g') && g'.sub == 1
            && var rest := IfaceFields(show, g', i);
               IfaceFields(show, g, i) == Out([IfaceField(show, i, g.field, AfterCount(show, g, i).num)] + rest.ts, rest.g)
  {
    var h := AfterCount(show, g, i);
    CountKeepsGood(g, i);
    AfterCountNext(show, g, i);
    PlainFieldsStep(show, i, g.field, h.num);
  }

  lemma IfaceFieldsStep(show: bool, env: Env, g: Globals, iface: nat)
    requires ValidEnv(env) && Good(g) && g.sub == 1 && g.field < 4 && iface < |env.ifaces|
    ensures var (t, g') := Whole(show, env, g, Netif(iface, 2));
            var rest := IfaceFields(show, g'.(field := g.field + 1), env.ifaces[iface]);
            g'.field == g.field && g'.sub == 1 &&
            IfaceFields(show, g, env.ifaces[iface]) == Out([t] + rest.ts, rest.g)
  {
    PlainFieldShown(show, env, g, iface);
    IfaceFieldsUnfold(show, g, env.ifaces[iface]);
  }

  /** A field of interface iface is next: a plain field, or at last its neighbours directory. */
  lemma IfaceFieldTurn(show: bool, env: Env, g: Globals, iface: nat, n: Node)
    requires ValidEnv(env) && Good(g) && g.sub == 1 && iface < |env.ifaces|
    requires n.Netif? && n.level == 2 && n.iface <= |env.ifaces|
    ensures Turn(show, env, IfaceFields(show, g, env.ifaces[iface]), Step(g, n, Netif(iface, 2)))
  {
    if g.field < 4 {
      IfaceFieldsStep(show, env, g, iface);
    } else {
      var w := Whole(show, env, g, Netif(iface, 2));
      assert w == (Dir("neighbours", Neighbors(show, g.table, g.num)), g.(num := 0));
      assert Pending(show, env, w.1, n, Netif(iface, 2)) == Out([], w.1);
    }
  }

  /** The neighbour at position num is next, then those below it. */
  lemma NeighborTurn(show: bool, env: Env, g: Globals, iface: nat)
    requires ValidEnv(env) && Good(g) && g.field == 4 && g.num >= 1 && iface < |env.ifaces|
    ensures Turn(show, env, Out(Neighbors(show, g.table, g.num), g.(num := 0, sub := 1)),
                 Step(g.(sub := 2), Netif(iface, 1), Netif(iface, 1)))
  {
    NeighborsStep(show, g.table, g.num);
    var w := Whole(show, env, g.(sub := 2), Netif(iface, 1));
    assert w == (Neighbor(show, g.table[g.num - 1]), g.(sub := 5));
  }

  /** A quality-of-service field of the neighbour at position num is next. */
  lemma QosTurn(show: bool, env: Env, g: Globals, iface: nat, n: Node)
    requires ValidEnv(env) && Good(g) && g.field == 4 && g.num >= 1 && 2 <= g.sub <= 4 && iface < |env.ifaces|
    requires n.Netif? && n.level == 0 && n.iface < |env.ifaces|
    ensures Turn(show, env, Out(QosFields(show, g.table[g.num - 1], g.sub), g.(sub := 5)), Step(g, n, Netif(iface, 0)))
  {
    QosFieldsStep(show, g.table[g.num - 1], g.sub);
  }

  /** Moving on from one field of an interface to the next. */
  lemma NextFieldTurn(show: bool, env: Env, g: Globals, n: Node, child: Node)
    requires ValidEnv(env) && Good(g) && Iterable(env, g, n, child) && n.Netif? && n.level == 2 && g.field < 4
    ensures Turn(show, env, Pending(show, env, g, n, child), Next(env, g, n, child))
  {
    var h := g.(field := g.field + 1);
    assert child == Netif(child.iface, 2);
    assert Next(env, g, n, child) == Step(h, n, Netif(child.iface, 2));
    assert Pending(show, env, g, n, child) == IfaceFields(show, h, env.ifaces[child.iface]);
    IfaceFieldTurn(show, env, h, child.iface, n);
  }

  lemma NeighborsTurn(show: bool, env: Env, g: Globals, n: Node, child: Node)
    requires ValidEnv(env) && Good(g) && Iterable(env, g, n, child) && n.Netif? && n.level == 2 && g.field == 4
    ensures Turn(show, env, Pending(show, env, g, n, child), Next(env, g, n, child))
  {
    if n.iface < |env.ifaces| && g.num > 0 {
      assert Next(env, g, n, child) == Step(g.(sub := 2), Netif(n.iface, 1), Netif(n.iface, 1));
      NeighborTurn(show, env, g, n.iface);
    }
  }

  lemma IfacesTurn(show: bool, env: Env, g: Globals, n: Node, child: Node)
    requires ValidEnv(env) && Good(g) && Iterable(env, g, n, child) && n.Netif? && n.level == 4
    ensures Turn(show, env, Pending(show, env, g, n, child), Next(env, g, n, child))
  {
  }

  lemma IfaceTurn(show: bool, env: Env, g: Globals, n: Node, child: Node)
    requires ValidEnv(env) && Good(g) && Iterable(env, g, n, child) && n.Netif? && n.level == 3
    ensures Turn(show, env, Pending(show, env, g, n, child), Next(env, g, n, child))
  {
    assert Next(env, g, n, child) == Step(g, Netif(n.iface + 1, 2), Netif(n.iface, 2));
    IfaceFieldTurn(show, env, g, n.iface, Netif(n.iface + 1, 2));
  }

  /** The byte num_neighbours has just been decremented to a positive number. */
  lemma NextNeighborTurn(show: bool, env: Env, g: Globals, n: Node, child: Node)
    requires ValidEnv(env) && Good(g) && Iterable(env, g, n, child) && n.Netif? && n.level == 1
    requires g.sub >= 4 && g.num > 1
    ensures Turn(show, env, Pending(show, env, g, n, child), Next(env, g, n, child))
  {
    var h := g.(num := g.num - 1);
    assert Next(env, g, n, child) == Step(h.(sub := 2), Netif(n.iface, 1), Netif(n.iface, 1));
    assert Pending(show, env, g, n, child) == Out(Neighbors(show, h.table, h.num), h.(num := 0, sub := 1));
    NeighborTurn(show, env, h, n.iface);
  }

  /** The neighbour at position 1 has been shown. */
  lemma LastNeighborTurn(show: bool, env: Env, g: Globals, n: Node, child: Node)
    requires ValidEnv(env) && Good(g) && Iterable(env, g, n, child) && n.Netif? && n.level == 1
    requires g.sub >= 4 && g.num == 1
    ensures Turn(show, env, Pending(show, env, g, n, child), Next(env, g, n, child))
  {
    assert Next(env, g, n, child) == Step(g.(num := 0, sub := 1), n, Null);
    assert Pending(show, env, g, n, child) == Out([], g.(num := 0, sub := 1));
  }

  lemma LinkTurn(show: bool, env: Env, g: Globals, n: Node, child: Node)
    requires ValidEnv(env) && Good(g) && Iterable(env, g, n, child) && n.Netif? && n.level == 1
    ensures Turn(show, env, Pending(show, env, g, n, child), Next(env, g, n, child))
  {
    if g.sub == 1 {
      assert Next(env, g, n, child) == Step(g.(sub := 2), n, Netif(n.iface, 1));
      NeighborTurn(show, env, g, n.iface);
    } else if g.sub < 4 {
      assert Next(env, g, n, child) == Step(g, Netif(n.iface, 0), Netif(n.iface, 0));
      QosTurn(show, env, g, n.iface, Netif(n.iface, 0));
    } else if g.num > 1 {
      NextNeighborTurn(show, env, g, n, child);
    } else {
      LastNeighborTurn(show, env, g, n, child);
    }
  }

  lemma NetifTurn(show: bool, env: Env, g: Globals, n: Node, child: Node)
    requires ValidEnv(env) && Good(g) && Iterable(env, g, n, child) && n.Netif?
    ensures Turn(show, env, Pending(show, env, g, n, child), Next(env, g, n, child))
  {
    if n.level == 4 {
      IfacesTurn(show, env, g, n, child);
    } else if n.level == 3 {
      IfaceTurn(show, env, g, n, child);
    } else if n.level == 2 && g.field < 4 {
      NextFieldTurn(show, env, g, n, child);
    } else if n.level == 2 {
      NeighborsTurn(show, env, g, n, child);
    } else if n.level == 1 {
      LinkTurn(show, env, g, n, child);
    } else if g.sub < 4 {
      QosTurn(show, env, g.(sub := g.sub + 1), child.iface, n);
    }
  }

  /** Each call of next-child hands out the first pending tree and leaves the rest pending; it
      answers null exactly when nothing is pending. */
  lemma NextTurn(show: bool, env: Env, g: Globals, n: Node, child: Node)
    requires ValidEnv(env) && Good(g) && Iterable(env, g, n, child)
    ensures Turn(show, env, Pending(show, env, g, n, child), Next(env, g, n, child))
  {
    match n
    case Root(_) => RootTurn(show, env, g, n);
    case Fl(_, _, _) => FlTurn(show, env, g, n);
    case Ps(_, _) => PsTurn(show, env, g, n, child);
    case Saul(_, _) => SaulTurn(show, env, g, n, child);
    case Netif(_, _) => NetifTurn(show, env, g, n, child);
  }

  // ----- recursion -----

  /** How deep below the node the tree can still go; the dump recurses on smaller depths only. */
  function Depth(n: Node): nat {
    match n
    case Null => 0
    case Root(_) => 7
    case Fl(_, _, top) => if top then 6 else 0
    case Ps(_, level) => if level == 2 then 5 else if level == 1 then 4 else 0
    case Saul(_, level) => if level == 2 then 5 else if level == 1 then 4 else 0
    case Netif(_, level) => if level == 4 then 5 else if level == 3 then 4 else if level == 2 then 3 else if level == 1 then 2 else 0
  }

  /** A cursor that has moved to the neighbours hands out nodes of its own level. */
  function IterationDepth(n: Node): nat {
    if n.Netif? && n.level == 1 then 3 else Depth(n)
  }

  lemma DepthDrops(env: Env, g: Globals, n: Node, child: Node, depth: nat)
    requires ValidEnv(env) && Good(g) && Iterable(env, g, n, child)
    requires IterationDepth(n) <= depth && Depth(child) < depth
    ensures var s := Next(env, g, n, child);
            IterationDepth(s.node) <= depth && Depth(s.child) < depth
  {
  }

  lemma FirstDepthDrops(env: Env, g: Globals, n: Node)
    requires ValidEnv(env) && Good(g) && Named(env, g, n) && TypeOf(env, g, n).InnerType?
    ensures var s := Next(env, g, n, Null);
            IterationDepth(s.node) <= Depth(n) && Depth(s.child) < Depth(n)
  {
  }

  /** The recursion may leave an inner child advanced to its end; its parent does not look at it. */
  lemma ShownChildIrrelevant(show: bool, env: Env, s: Step, child: Node)
    requires ValidEnv(env) && Good(s.g) && Named(env, s.g, s.child) && TypeOf(env, s.g, s.child).InnerType?
    requires Iterable(env, s.g, s.node, s.child)
    requires Iterable(env, Whole(show, env, s.g, s.child).1, s.node, s.child)
    ensures var g' := Whole(show, env, s.g, s.child).1;
            Iterable(env, g', s.node, child) &&
            Pending(show, env, g', s.node, child) == Pending(show, env, g', s.node, s.child)
  {
  }

  /** The dump loop after its child has been shown: the first pending tree is gone, and the rest is
      pending for the node and whatever the recursion left in the child variable. */
  lemma TurnTaken(show: bool, env: Env, o: Out, s: Step, child: Node)
    requires ValidEnv(env) && Good(s.g) && !s.child.Null? && Named(env, s.g, s.child) && Iterable(env, s.g, s.node, s.child)
    requires Turn(show, env, o, s)
    requires IsLeaf(TypeOf(env, s.g, s.child)) ==> child == s.child
    ensures var (tree, g') := Whole(show, env, s.g, s.child);
            && Iterable(env, g', s.node, child)
            && o.ts == [tree] + Pending(show, env, g', s.node, child).ts
            && o.g == Pending(show, env, g', s.node, child).g
  {
    var (tree, g') := Whole(show, env, s.g, s.child);
    var rest := Pending(show, env, g', s.node, s.child);
    assert o == Out([tree] + rest.ts, rest.g);
    if TypeOf(env, s.g, s.child).InnerType? {
      ShownChildIrrelevant(show, env, s, child);
    } else {
      assert child == s.child;
    }
  }
}
