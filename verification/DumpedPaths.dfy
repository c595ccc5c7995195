/**
 The paths a dump prints, looked up after it.  Outside the neighbours directories each leads back to
 its node, ps and netif included, exactly when it is not shadowed; below them none is found.
 */
module DumpedPaths {
  import opened NeighborTable
  import opened DbModel
  import opened Trees
  import opened DumpSpec
  import opened DumpTheorems
  import opened CursorDump
  import opened Lookup
  import opened PathTheorems
  import opened LookupTheorems
  import opened NetifLookup
  import opened Requests
  import opened Listings

  // ----- one more name on a path -----

  /** A path and the child of its node with number x. */
  lemma {:induction false} PathExtend(t: Tree, p: seq<nat>, x: nat)
    requires InTree(t, p)
    ensures InTree(t, p + [x]) <==> x < |Kids(At(t, p))|
    ensures x < |Kids(At(t, p))| ==>
              && At(t, p + [x]) == Kids(At(t, p))[x]
              && NamesAlong(t, p + [x]) == NamesAlong(t, p) + [Kids(At(t, p))[x].name]
    decreases |p|
  {
    if p == [] {
      assert [] + [x] == [x] && [x][1..] == [];
    } else {
      assert (p + [x])[1..] == p[1..] + [x] && (p + [x])[0] == p[0];
      PathExtend(Kids(t)[p[0]], p[1..], x);
    }
  }

  /** No elder sibling of child x has a name that extends its own. */
  ghost predicate ClearOfElders(ts: seq<Tree>, x: nat)
    requires x < |ts|
  {
    forall i :: 0 <= i < x ==> !Matches(ts[x].name, ts[i].name)
  }

  lemma {:induction false} UnshadowedExtend(t: Tree, p: seq<nat>, x: nat)
    requires InTree(t, p) && x < |Kids(At(t, p))|
    ensures InTree(t, p + [x])
    ensures Unshadowed(t, p + [x]) <==> Unshadowed(t, p) && ClearOfElders(Kids(At(t, p)), x)
    decreases |p|
  {
    PathExtend(t, p, x);
    if p == [] {
      assert [] + [x] == [x] && [x][1..] == [];
    } else {
      assert (p + [x])[1..] == p[1..] + [x] && (p + [x])[0] == p[0];
      PathExtend(Kids(t)[p[0]], p[1..], x);
      UnshadowedExtend(Kids(t)[p[0]], p[1..], x);
    }
  }

  // ----- lookups of two and three components -----

  lemma FirstFromCons(names: seq<string>, tok: string)
    requires names != []
    ensures FirstFrom(names, tok, 0) ==
            if Matches(tok, names[0]) then 0 else 1 + FirstFrom(names[1..], tok, 0)
  {
    var j := FirstFrom(names[1..], tok, 0);
    assert forall i :: 0 <= i < |names| - 1 ==> names[1..][i] == names[i + 1];
    var k := FirstFrom(names, tok, 0);
    if !Matches(tok, names[0]) {
      assert k > 0;
      assert k < |names| ==> Matches(tok, names[1..][k - 1]);
      assert j < |names| - 1 ==> Matches(tok, names[j + 1]);
    }
  }

  lemma {:induction false} ScanProcesses(env: Env, g: Globals, pid: nat, c: Node, tok: string)
    requires ValidEnv(env) && Good(g) && (Alive(env, pid) || pid == |env.threads|)
    ensures AllAlive(env, LivePids(env, pid))
    ensures var pids := LivePids(env, pid);
            var j := FirstFrom(ThreadNames(env, pids), tok, 0);
            var s := Scan(env, g, Ps(pid, 2), c, tok);
            s.g == g && s.child == if j < |pids| then Ps(pids[j], 1) else Null
    decreases |env.threads| - pid
  {
    if pid < |env.threads| {
      var next := NextPid(env, pid);
      LivePidsStep(env, pid);
      ThreadNamesCons(env, pid, LivePids(env, next));
      var names := ThreadNames(env, LivePids(env, pid));
      FirstFromCons(names, tok);
      assert Next(env, g, Ps(pid, 2), c) == Step(g, Ps(next, 2), Ps(pid, 1));
      ScanFurther(env, g, Ps(pid, 2), c, tok);
      if !Matches(tok, names[0]) {
        ScanProcesses(env, g, next, Ps(pid, 1), tok);
      }
    }
  }

  /** One more component of a path that leads somewhere. */
  lemma FindMore(env: Env, g: Globals, pre: seq<string>, n: Node, tok: string)
    requires ValidEnv(env) && Good(g) && pre != [] && Find(env, g, pre).node == Some(n)
    ensures var h := Find(env, g, pre).g;
            && Named(env, h, n) && Iterable(env, h, n, n)
            && var s := Scan(env, h, n, n, tok);
               Find(env, g, pre + [tok]) == Found(if s.child.Null? then None else Some(s.child), s.g)
  {
    DescendAppend(env, g, Root(0), Null, pre, tok);
    LastComponent(env, Find(env, g, pre).g, n, n, tok);
  }

  lemma {:induction false} NothingBelowNothing(env: Env, g: Globals, n: Node, c: Node, pre: seq<string>, tok: string)
    requires ValidEnv(env) && Good(g) && Named(env, g, n) && Iterable(env, g, n, c)
    requires Descend(env, g, n, c, pre).node.None?
    ensures Descend(env, g, n, c, pre + [tok]).node.None?
    decreases |pre|
  {
    DescendStep(env, g, n, c, pre);
    assert (pre + [tok])[0] == pre[0] && (pre + [tok])[1..] == pre[1..] + [tok];
    DescendStep(env, g, n, c, pre + [tok]);
    var s := Scan(env, g, n, c, pre[0]);
    if !s.child.Null? {
      NothingBelowNothing(env, s.g, s.child, s.child, pre[1..], tok);
    }
  }

  /** What two components can lead to. */
  lemma TwoLeadTo(env: Env, g: Globals, two: seq<string>)
    requires ValidEnv(env) && Good(g) && |two| == 2
    ensures var r := Find(env, g, two).node;
            r.Some? ==> (r.value.Fl? && !r.value.top) || r.value == Ps(1, 2) || r.value == Saul(0, 2) || r.value == Netif(0, 4)
  {
    assert two == [two[0], two[1]];
    EntryFound(env, g, two[0], two[1]);
  }

  predicate ThirdLevel(n: Node) {
    (n.Ps? && n.level == 1) || (n.Saul? && n.level == 1) || (n.Netif? && n.level == 3)
  }

  /** What a third component can lead to, and from where. */
  lemma ThreeLeadTo(env: Env, g: Globals, two: seq<string>, tok: string)
    requires ValidEnv(env) && Good(g) && |two| == 2
    ensures var f, r := Find(env, g, two), Find(env, g, two + [tok]);
            && (r.node.Some? ==> f.node.Some? && ThirdLevel(r.node.value))
            && (f.node == Some(Ps(1, 2)) ==>
                  && AllAlive(env, LivePids(env, 1)) && r.g == f.g
                  && var j := FirstFrom(ThreadNames(env, LivePids(env, 1)), tok, 0);
                     r.node == if j < |LivePids(env, 1)| then Some(Ps(LivePids(env, 1)[j], 1)) else None)
            && (f.node == Some(Netif(0, 4)) ==>
                  && r.g == f.g
                  && var j := FirstFrom(IfaceNames(env), tok, 0);
                     r.node == if j < |env.ifaces| then Some(Netif(j, 3)) else None)
            && (r.node.Some? && r.node.value.Ps? ==> f.node == Some(Ps(1, 2)))
            && (r.node.Some? && r.node.value.Netif? ==> f.node == Some(Netif(0, 4)))
  {
    TwoLeadTo(env, g, two);
    var f := Find(env, g, two);
    if f.node.None? {
      NothingBelowNothing(env, g, Root(0), Null, two, tok);
    } else {
      FindMore(env, g, two, f.node.value, tok);
      ThirdScan(env, f.g, f.node.value, tok);
    }
  }

  lemma ThirdScan(env: Env, g: Globals, n: Node, tok: string)
    requires ValidEnv(env) && Good(g) && Named(env, g, n)
    requires (n.Fl? && !n.top) || n == Ps(1, 2) || n == Saul(0, 2) || n == Netif(0, 4)
    ensures Iterable(env, g, n, n)
    ensures var s := Scan(env, g, n, n, tok);
            match n
            case Ps(_, _) =>
              && AllAlive(env, LivePids(env, 1)) && s.g == g
              && var j := FirstFrom(ThreadNames(env, LivePids(env, 1)), tok, 0);
                 s.child == if j < |LivePids(env, 1)| then Ps(LivePids(env, 1)[j], 1) else Null
            case Netif(_, _) =>
              && s.g == g
              && var j := FirstFrom(IfaceNames(env), tok, 0);
                 s.child == if j < |env.ifaces| then Netif(j, 3) else Null
            case _ => s.child.Null? || (s.child.Saul? && s.child.level == 1)
  {
    match n
    case Ps(_, _) => ScanProcesses(env, g, 1, n, tok);
    case Netif(_, _) => ScanIfaces(env, g, 0, n, tok);
    case Saul(_, _) => ScanDevices(env, g, 0, n, tok);
    case Fl(_, _, _) => assert Next(env, g, n, n) == Step(g, n, Null);
    case _ =>
  }

  // ----- the trees shown for ps and netif -----

  /** The state in which a dynamic entry was shown. */
  lemma {:induction false} DynamicState(env: Env, g: Globals, ds: seq<Dynamic>, k: nat) returns (g': Globals)
    requires ValidEnv(env) && Good(g) && k < |ds|
    ensures Good(g') && DynamicsFrom(true, env, g, ds).ts[k] == DynamicOut(true, env, g', ds[k]).0
    decreases k
  {
    g' := g;
    if k > 0 {
      g' := DynamicState(env, DynamicOut(true, env, g, ds[0]).1, ds[1..], k - 1);
    }
  }

  lemma {:induction false} BranchState(env: Env, g: Globals, from: nat, fl: nat) returns (g': Globals)
    requires ValidEnv(env) && Good(g) && from <= fl < |env.index|
    ensures Good(g')
    ensures BranchesFrom(true, env, g, from).ts[fl - from] ==
            Dir(env.index[fl].name, BranchFrom(true, env, g', env.index[fl], 0).ts)
    decreases fl - from
  {
    g' := g;
    if from < fl {
      g' := BranchState(env, BranchFrom(true, env, g, env.index[from], 0).g, from + 1, fl);
    }
  }

  /** The two indices of a dynamic entry. */
  ghost predicate DynamicAt(env: Env, fl: nat, j: nat, d: Dynamic) {
    fl < |env.index| && |env.index[fl].statics| <= j < Total(env.index[fl]) &&
    env.index[fl].dynamics[j - |env.index[fl].statics|] == d
  }

  lemma AtTwo(t: Tree, fl: nat, j: nat)
    requires fl < |Kids(t)| && j < |Kids(Kids(t)[fl])|
    ensures InTree(t, [fl, j]) && At(t, [fl, j]) == Kids(Kids(t)[fl])[j]
  {
    var p := [fl, j];
    assert p[1..] == [j] && [j][1..] == [];
    assert At(Kids(t)[fl], [j]) == At(Kids(Kids(t)[fl])[j], []);
  }

  lemma EntryState(env: Env, g: Globals, fl: nat, j: nat, d: Dynamic) returns (g': Globals)
    requires ValidEnv(env) && Good(g) && DynamicAt(env, fl, j, d)
    ensures InTree(Database(true, env, g), [fl, j])
    ensures Good(g') && At(Database(true, env, g), [fl, j]) == DynamicOut(true, env, g', d).0
  {
    var b, t := env.index[fl], Database(true, env, g);
    var h := BranchState(env, g, 0, fl);
    g' := DynamicState(env, h, b.dynamics, j - |b.statics|);
    AfterStatics(env, h, b, j - |b.statics|);
    AtTwo(t, fl, j);
  }

  lemma AfterStatics(env: Env, g: Globals, b: Branch, k: nat)
    requires ValidEnv(env) && Good(g) && k < |b.dynamics|
    ensures BranchFrom(true, env, g, b, 0).ts[|b.statics| + k] == DynamicsFrom(true, env, g, b.dynamics).ts[k]
  {
    assert b.statics[0..] == b.statics;
  }

  /** What is shown for ps, from some count k on. */
  ghost predicate ShowsProcesses(env: Env, t: Tree, k: int) {
    && 0 <= k < PS_COUNT && AllAlive(env, LivePids(env, 1)) && |Kids(t)| == |LivePids(env, 1)|
    && forall i {:trigger Kids(t)[i]} :: 0 <= i < |Kids(t)| ==>
         ProcessShown(env.threads[LivePids(env, 1)[i]].value, LivePids(env, 1)[i], if i == 0 then k else 0, Kids(t)[i])
  }

  lemma PsShownFrom(env: Env, g: Globals)
    requires ValidEnv(env) && Good(g)
    ensures ShowsProcesses(env, DynamicOut(true, env, g, PsBranch).0, g.ps)
  {
    var pids := LivePids(env, 1);
    LivePidsAlive(env, 1);
    forall i | 0 <= i < |pids|
      ensures ProcessShown(env.threads[pids[i]].value, pids[i], if i == 0 then g.ps else 0, Processes(true, env, pids, g.ps)[i])
    {
      ProcessShape(env, pids, g.ps, i);
    }
  }

  lemma PsTree(env: Env, g: Globals, fl: nat, j: nat) returns (k: int)
    requires ValidEnv(env) && Good(g) && DynamicAt(env, fl, j, PsBranch)
    ensures InTree(Database(true, env, g), [fl, j]) && ShowsProcesses(env, At(Database(true, env, g), [fl, j]), k)
  {
    var g' := EntryState(env, g, fl, j, PsBranch);
    PsShownFrom(env, g');
    k := g'.ps;
  }

  /** What is shown for netif: the first interface in full, the others with a neighbours directory. */
  ghost predicate ShowsIfaces(env: Env, t: Tree, table: seq<Entry>, n: nat) {
    && n <= |table| && |Kids(t)| == |env.ifaces|
    && forall i {:trigger Kids(t)[i]} :: 0 <= i < |Kids(t)| ==>
         Kids(t)[i] == if i == 0 then FirstIface(env.ifaces[0], table, n) else EmptyIface(env.ifaces[i])
  }

  lemma NetifShown(env: Env, g: Globals) returns (table: seq<Entry>, n: nat)
    requires ValidEnv(env) && Good(g)
    ensures ShowsIfaces(env, DynamicOut(true, env, g, NetifBranch).0, table, n)
    ensures env.ifaces != [] ==> n == |env.ifaces[0].cache| % 256
  {
    table, n := [], 0;
    if env.ifaces != [] {
      NetifDumpShape(env, g);
      n := |env.ifaces[0].cache| % 256;
      table := ApplyAll(g.table, Discoveries(env.ifaces[0].cache));
    }
  }

  lemma NetifTree(env: Env, g: Globals, fl: nat, j: nat) returns (table: seq<Entry>, n: nat)
    requires ValidEnv(env) && Good(g) && DynamicAt(env, fl, j, NetifBranch)
    ensures InTree(Database(true, env, g), [fl, j]) && ShowsIfaces(env, At(Database(true, env, g), [fl, j]), table, n)
    ensures env.ifaces != [] ==> n == |env.ifaces[0].cache| % 256
  {
    var g' := EntryState(env, g, fl, j, NetifBranch);
    table, n := NetifShown(env, g');
  }

  // ----- paths into ps -----

  lemma OwnEntryOfTwo(env: Env, p: seq<nat>)
    requires |p| >= 2 && OwnEntry(env, p)
    ensures OwnEntry(env, p[..2])
  {
    assert p[..2][..2] == p[..2];
  }

  lemma LivePidsDiffer(env: Env, i: nat, j: nat)
    requires i < |LivePids(env, 1)| && j < |LivePids(env, 1)| && LivePids(env, 1)[i] == LivePids(env, 1)[j]
    ensures i == j
  {
    LivePidsExact(env, 1);
  }

  /** The path of process i. */
  lemma ProcessPathFoundIff(env: Env, g: Globals, h: Globals, fl: nat, j: nat, i: nat)
    requires ValidEnv(env) && Good(g) && Good(h) && DynamicAt(env, fl, j, PsBranch) && OwnEntry(env, [fl, j])
    requires InTree(Database(true, env, g), [fl, j] + [i])
    ensures var t, p := Database(true, env, g), [fl, j] + [i];
            && i < |LivePids(env, 1)|
            && (Find(env, h, NamesAlong(t, p)).node == Some(Ps(LivePids(env, 1)[i], 1)) <==> Unshadowed(t, p))
  {
    var t, two := Database(true, env, g), [fl, j];
    var k := PsTree(env, g, fl, j);
    var kids, pids := Kids(At(t, two)), LivePids(env, 1);
    PathExtend(t, two, i);
    UnshadowedExtend(t, two, i);
    PathPrefix(t, two, 0);
    DumpedPathFoundIff(true, env, g, h, two);
    ThreeLeadTo(env, h, NamesAlong(t, two), kids[i].name);
    FirstProcessIff(env, At(t, two), k, i);
  }

  /** The process first found under the name of process i is that process itself. */
  lemma FirstProcessIff(env: Env, t: Tree, k: int, i: nat)
    requires ShowsProcesses(env, t, k) && i < |Kids(t)|
    ensures var pids := LivePids(env, 1);
            var x := FirstFrom(ThreadNames(env, pids), Kids(t)[i].name, 0);
            x <= i && (pids[x] == pids[i] <==> ClearOfElders(Kids(t), i))
  {
    var pids, names := LivePids(env, 1), ThreadNames(env, LivePids(env, 1));
    ProcessKidNames(env, t, k);
    FirstIsItselfIff(names, Kids(t), i);
    var x := FirstFrom(names, Kids(t)[i].name, 0);
    if pids[x] == pids[i] {
      LivePidsDiffer(env, x, i);
    }
  }

  lemma ProcessKidNames(env: Env, t: Tree, k: int)
    requires ShowsProcesses(env, t, k)
    ensures ThreadNames(env, LivePids(env, 1)) == NamesOf(Kids(t))
  {
    var names := ThreadNames(env, LivePids(env, 1));
    forall x | 0 <= x < |names|
      ensures names[x] == NamesOf(Kids(t))[x]
    {
      assert Kids(t)[x].name == env.threads[LivePids(env, 1)[x]].value.name;
    }
  }

  /** Under the name of child i the first child found is child i exactly when it has no such elder. */
  lemma FirstIsItselfIff(names: seq<string>, ts: seq<Tree>, i: nat)
    requires names == NamesOf(ts) && i < |ts|
    ensures var x := FirstFrom(names, ts[i].name, 0);
            x <= i && (x == i <==> ClearOfElders(ts, i))
  {
    assert names[i] == ts[i].name;
    FirstFromIsIff(names, i);
    assert forall y :: 0 <= y < i ==> names[y] == ts[y].name;
  }

  lemma PsNamesDiffer(a: int, b: int)
    requires 0 <= a < PS_COUNT && 0 <= b < PS_COUNT && a != b
    ensures !Matches(PsFieldName(a), PsFieldName(b))
  {
    assert PsFieldName(0)[0] == 'p' && PsFieldName(0)[1] == 'i' && PsFieldName(1)[0] == 's' && PsFieldName(1)[2] == 'a';
    assert PsFieldName(2)[1] == 'r' && PsFieldName(3)[0] == 't' && PsFieldName(4)[2] == 'a' && PsFieldName(4)[3] == 'c';
  }

  lemma {:induction false} ScanStaysNetif(env: Env, g: Globals, n: Node, c: Node, tok: string)
    requires ValidEnv(env) && Good(g) && Iterable(env, g, n, c) && n.Netif?
    ensures var child := Scan(env, g, n, c, tok).child;
            child.Null? || child.Netif?
    decreases Rank(env, g, n)
  {
    var s := Next(env, g, n, c);
    RankDrops(env, g, n, c);
    if !s.child.Null? && !Matches(tok, NameOf(env, s.g, s.child)) {
      ScanStaysNetif(env, s.g, s.node, s.child, tok);
    }
  }

  lemma FourthScan(env: Env, g: Globals, n: Node, tok: string)
    requires ValidEnv(env) && Good(g) && Named(env, g, n) && ThirdLevel(n)
    ensures Iterable(env, g, n, n)
    ensures var child := Scan(env, g, n, n, tok).child;
            match n
            case Ps(pid, _) => child.Null? || child == Ps(pid, 0)
            case Saul(_, _) => child.Null? || child.Saul?
            case _ => child.Null? || child.Netif?
  {
    match n
    case Ps(pid, _) => ScanProcess(env, g, pid, n, tok);
    case Saul(dev, _) => ScanDevice(env, g, dev, n, tok);
    case _ => ScanStaysNetif(env, g, n, n, tok);
  }

  /** What a fourth component can lead to, and from where. */
  lemma FourLeadTo(env: Env, g: Globals, two: seq<string>, third: string, tok: string)
    requires ValidEnv(env) && Good(g) && |two| == 2
    ensures var f, r := Find(env, g, two + [third]).node, Find(env, g, two + [third] + [tok]).node;
            && (r.Some? ==> f.Some? && ThirdLevel(f.value))
            && (r.Some? && r.value.Ps? ==> r.value.level == 0 && f.value == Ps(r.value.pid, 1))
            && (r.Some? && r.value.Netif? ==> f.value.Netif?)
  {
    var three := two + [third];
    ThreeLeadTo(env, g, two, third);
    var f := Find(env, g, three);
    if f.node.None? {
      NothingBelowNothing(env, g, Root(0), Null, three, tok);
    } else {
      FindMore(env, g, three, f.node.value, tok);
      FourthScan(env, f.g, f.node.value, tok);
    }
  }

  /** The path of field x shown for process i, looked up while the field count is 0: it leads to that
      field of that process, with the value shown, exactly when the process is not shadowed. */
  lemma FieldPathFoundIff(env: Env, g: Globals, h: Globals, fl: nat, j: nat, i: nat, x: nat)
    requires ValidEnv(env) && Good(g) && Good(h) && DynamicAt(env, fl, j, PsBranch) && OwnEntry(env, [fl, j])
    requires InTree(Database(true, env, g), [fl, j] + [i]) && InTree(Database(true, env, g), [fl, j] + [i] + [x])
    requires h.ps == 0
    ensures var t, p := Database(true, env, g), [fl, j] + [i] + [x];
            var f := Find(env, h, NamesAlong(t, p));
            && i < |LivePids(env, 1)|
            && (f.node == Some(Ps(LivePids(env, 1)[i], 0)) <==> Unshadowed(t, p))
            && (Unshadowed(t, p) ==> Shows(true, env, f.g, f.node.value, At(t, p)))
  {
    var t, three := Database(true, env, g), [fl, j] + [i];
    ProcessPathFoundIff(env, g, h, fl, j, i);
    var k := PsTree(env, g, fl, j);
    PathExtend(t, [fl, j], i);
    PathExtend(t, three, x);
    UnshadowedExtend(t, three, x);
    PathPrefix(t, [fl, j], 0);
    var pid, k' := LivePids(env, 1)[i], if i == 0 then k else 0;
    var th := env.threads[pid].value;
    ShownFields(th, pid, k', Kids(At(t, three)), x);
    FourLeadTo(env, h, NamesAlong(t, [fl, j]), th.name, PsFieldName(k' + x));
    if Unshadowed(t, three) {
      PsFieldOnce(env, h, h, NamesAlong(t, three), pid, k' + x);
    }
  }

  lemma ShownFields(th: Thread, pid: nat, k: int, fields: seq<Tree>, x: nat)
    requires 0 <= k < PS_COUNT && fields == ProcessFields(th, pid)[k..] && x < |fields|
    ensures fields[x] == File(true, PsFieldName(k + x), PsValue(th, pid, k + x)) && ClearOfElders(fields, x)
  {
    forall y | 0 <= y < x
      ensures !Matches(fields[x].name, fields[y].name)
    {
      PsNamesDiffer(k + x, k + y);
      assert fields[y].name == PsFieldName(k + y);
    }
  }

  // ----- paths into netif -----

  /** The path of interface i. */
  lemma IfacePathFoundIff(env: Env, g: Globals, h: Globals, fl: nat, j: nat, i: nat)
    requires ValidEnv(env) && Good(g) && Good(h) && DynamicAt(env, fl, j, NetifBranch) && OwnEntry(env, [fl, j])
    requires InTree(Database(true, env, g), [fl, j] + [i])
    ensures var t, p := Database(true, env, g), [fl, j] + [i];
            && i < |env.ifaces|
            && (Find(env, h, NamesAlong(t, p)).node == Some(Netif(i, 3)) <==> Unshadowed(t, p))
  {
    var t, two := Database(true, env, g), [fl, j];
    var table, n := NetifTree(env, g, fl, j);
    var kids := Kids(At(t, two));
    PathExtend(t, two, i);
    UnshadowedExtend(t, two, i);
    PathPrefix(t, two, 0);
    DumpedPathFoundIff(true, env, g, h, two);
    ThreeLeadTo(env, h, NamesAlong(t, two), kids[i].name);
    IfaceKidNames(env, At(t, two), table, n);
    FirstIsItselfIff(IfaceNames(env), kids, i);
  }

  lemma IfaceKidNames(env: Env, t: Tree, table: seq<Entry>, n: nat)
    requires ShowsIfaces(env, t, table, n)
    ensures IfaceNames(env) == NamesOf(Kids(t))
  {
    forall x | 0 <= x < |env.ifaces|
      ensures IfaceNames(env)[x] == NamesOf(Kids(t))[x]
    {
      assert Kids(t)[x].name == env.ifaces[x].name;
    }
  }

  lemma NetifNamesDiffer(a: int, b: int)
    requires 0 <= a < NETIF_COUNT && 0 <= b < NETIF_COUNT && a != b
    ensures !Matches(NetifFieldName(a), NetifFieldName(b))
  {
    assert NetifFieldName(0)[0] == 'p' && NetifFieldName(1)[0] == 'i' && NetifFieldName(2)[0] == 'L';
    assert NetifFieldName(3)[1] == 'u' && NetifFieldName(4)[1] == 'e';
  }

  /** The field number of child x of interface i: only the first interface shows its plain fields. */
  function ShownField(i: nat, x: nat): nat {
    if i == 0 then x else 4
  }

  lemma ShownIfaceField(env: Env, t: Tree, table: seq<Entry>, n: nat, i: nat, x: nat)
    requires ShowsIfaces(env, t, table, n) && i < |env.ifaces| && x < |Kids(Kids(t)[i])|
    ensures var fields, f := Kids(Kids(t)[i]), ShownField(i, x);
            && f <= 4 && fields[x].name == NetifFieldName(f) && ClearOfElders(fields, x)
            && (fields[x].Leaf? <==> f < 4)
            && (f < 4 && n == |env.ifaces[i].cache| % 256 ==>
                  fields[x] == File(true, NetifFieldName(f), PlainValue(env.ifaces[i], f)))
  {
    var fields := Kids(Kids(t)[i]);
    assert Kids(t)[i] == if i == 0 then FirstIface(env.ifaces[0], table, n) else EmptyIface(env.ifaces[i]);
    forall y | 0 <= y < x
      ensures !Matches(fields[x].name, fields[y].name)
    {
      NetifNamesDiffer(x, y);
    }
  }

  /** The path of child x of interface i, looked up in any state: it leads to that field of that
      interface, with the value shown, exactly when the interface is not shadowed. */
  lemma IfaceFieldPathFoundIff(env: Env, g: Globals, h: Globals, fl: nat, j: nat, i: nat, x: nat)
    requires ValidEnv(env) && Good(g) && Good(h) && DynamicAt(env, fl, j, NetifBranch) && OwnEntry(env, [fl, j])
    requires InTree(Database(true, env, g), [fl, j] + [i]) && InTree(Database(true, env, g), [fl, j] + [i] + [x])
    ensures var t, p := Database(true, env, g), [fl, j] + [i] + [x];
            var f := Find(env, h, NamesAlong(t, p));
            && (f.node == Some(Netif(i, 2)) <==> Unshadowed(t, p))
            && (Unshadowed(t, p) ==> Shows(true, env, f.g, f.node.value, At(t, p)))
  {
    var t, two, three := Database(true, env, g), [fl, j], [fl, j] + [i];
    IfacePathFoundIff(env, g, h, fl, j, i);
    var table, n := NetifTree(env, g, fl, j);
    PathExtend(t, two, i);
    PathExtend(t, three, x);
    UnshadowedExtend(t, three, x);
    PathPrefix(t, two, 0);
    ShownIfaceField(env, At(t, two), table, n, i, x);
    var names, f := NamesAlong(t, three), NetifFieldName(ShownField(i, x));
    FourLeadTo(env, h, NamesAlong(t, two), env.ifaces[i].name, f);
    ThreeLeadTo(env, h, NamesAlong(t, two), env.ifaces[i].name);
    var r := Find(env, h, names).node;
    if r.Some? && r.value.Netif? {
      IfaceFieldAlwaysFound(env, h, names, r.value.iface, ShownField(i, x));
    }
  }

  // ----- below the neighbours directories -----

  lemma {:induction false} ScanKeepsZero(env: Env, g: Globals, n: Node, c: Node, tok: string)
    requires ValidEnv(env) && Good(g) && Iterable(env, g, n, c) && g.num == 0
    ensures Scan(env, g, n, c, tok).g.num == 0
    decreases Rank(env, g, n)
  {
    var s := Next(env, g, n, c);
    RankDrops(env, g, n, c);
    if !s.child.Null? && !Matches(tok, NameOf(env, s.g, s.child)) {
      ScanKeepsZero(env, s.g, s.node, s.child, tok);
    }
  }

  /** While the count is 0, no path at all leads to a neighbour or to a field of one. */
  lemma {:induction false} NoPathToANeighbor(env: Env, g: Globals, n: Node, c: Node, toks: seq<string>)
    requires ValidEnv(env) && Good(g) && Named(env, g, n) && Iterable(env, g, n, c) && g.num == 0
    ensures var r := Descend(env, g, n, c, toks).node;
            r.Some? && r.value.Netif? ==> r.value.level >= 2
    decreases |toks|
  {
    if toks != [] {
      DescendStep(env, g, n, c, toks);
      ScanKeepsZero(env, g, n, c, toks[0]);
      var s := Scan(env, g, n, c, toks[0]);
      if !s.child.Null? {
        NoPathToANeighbor(env, s.g, s.child, s.child, toks[1..]);
      }
    }
  }

  // ----- every path a dump prints -----

  /** The node at an index path of a dump, ps and netif included.  Null below neighbours. */
  function PathNode(env: Env, p: seq<nat>): Node {
    if NodeAt(env, p) != Null then NodeAt(env, p)
    else if |p| != 3 && |p| != 4 then Null
    else
      var entry := NodeAt(env, p[..2]);
      if entry == Ps(1, 2) && p[2] < |LivePids(env, 1)| then Ps(LivePids(env, 1)[p[2]], if |p| == 3 then 1 else 0)
      else if entry == Netif(0, 4) then Netif(p[2], if |p| == 3 then 3 else 2)
      else Null
  }

  lemma AfterPsDump(env: Env, g: Globals, fl: nat, j: nat)
    requires ValidEnv(env) && Good(g) && DynamicAt(env, fl, j, PsBranch)
    ensures BranchesFrom(true, env, g, 0).g.ps == 0
  {
    BranchesLeave(env, g, 0);
    assert PsBranch in env.index[fl].dynamics;
  }

  /** Looking up in state h the names under which a dump from state g showed path p leads to node n,
      and to what was shown of it, exactly when no elder sibling's name extends a name on the way. */
  ghost predicate LeadsBack(env: Env, g: Globals, h: Globals, p: seq<nat>, n: Node)
    requires ValidEnv(env) && Good(g) && Good(h) && InTree(Database(true, env, g), p)
  {
    var t := Database(true, env, g);
    var f := Find(env, h, NamesAlong(t, p));
    && (f.node == Some(n) <==> Unshadowed(t, p))
    && (Unshadowed(t, p) ==> Shows(true, env, f.g, f.node.value, At(t, p)))
  }

  lemma FixedPathLeadsBack(env: Env, g: Globals, h: Globals, p: seq<nat>)
    requires ValidEnv(env) && Good(g) && Good(h) && InTree(Database(true, env, g), p)
    requires OwnEntry(env, p) && NodeAt(env, p) != Null
    ensures LeadsBack(env, g, h, p, NodeAt(env, p))
  {
    var t := Database(true, env, g);
    DumpedPathFoundIff(true, env, g, h, p);
    if Unshadowed(t, p) {
      DumpPathResolvesIff(t, p);
      UnshadowedStaysOutside(true, env, g, h, p);
      LookupAgreesWithDump(true, env, g, h, NamesAlong(t, p));
      assert [] + p == p;
    }
  }

  lemma ProcessLeadsBack(env: Env, g: Globals, h: Globals, fl: nat, j: nat, i: nat)
    requires ValidEnv(env) && Good(g) && Good(h) && DynamicAt(env, fl, j, PsBranch) && OwnEntry(env, [fl, j])
    requires InTree(Database(true, env, g), [fl, j] + [i])
    ensures i < |LivePids(env, 1)| && LeadsBack(env, g, h, [fl, j] + [i], Ps(LivePids(env, 1)[i], 1))
  {
    ProcessPathFoundIff(env, g, h, fl, j, i);
    ProcessShows(env, g, Find(env, h, NamesAlong(Database(true, env, g), [fl, j] + [i])).g, fl, j, i);
  }

  lemma ProcessShows(env: Env, g: Globals, h: Globals, fl: nat, j: nat, i: nat)
    requires ValidEnv(env) && Good(g) && Good(h) && DynamicAt(env, fl, j, PsBranch)
    requires InTree(Database(true, env, g), [fl, j] + [i])
    ensures i < |LivePids(env, 1)| && Alive(env, LivePids(env, 1)[i])
    ensures Shows(true, env, h, Ps(LivePids(env, 1)[i], 1), At(Database(true, env, g), [fl, j] + [i]))
  {
    var k := PsTree(env, g, fl, j);
    PathExtend(Database(true, env, g), [fl, j], i);
  }

  lemma IfaceLeadsBack(env: Env, g: Globals, h: Globals, fl: nat, j: nat, i: nat)
    requires ValidEnv(env) && Good(g) && Good(h) && DynamicAt(env, fl, j, NetifBranch) && OwnEntry(env, [fl, j])
    requires InTree(Database(true, env, g), [fl, j] + [i])
    ensures LeadsBack(env, g, h, [fl, j] + [i], Netif(i, 3))
  {
    var t, p := Database(true, env, g), [fl, j] + [i];
    IfacePathFoundIff(env, g, h, fl, j, i);
    var f := Find(env, h, NamesAlong(t, p));
    if f.node == Some(Netif(i, 3)) {
      assert Named(env, f.g, Netif(i, 3));
      IfaceShows(env, g, f.g, fl, j, i);
    }
  }

  lemma IfaceShows(env: Env, g: Globals, h: Globals, fl: nat, j: nat, i: nat)
    requires ValidEnv(env) && Good(g) && Good(h) && DynamicAt(env, fl, j, NetifBranch) && h.sub == 1
    requires InTree(Database(true, env, g), [fl, j] + [i])
    ensures i < |env.ifaces|
    ensures Shows(true, env, h, Netif(i, 3), At(Database(true, env, g), [fl, j] + [i]))
  {
    var table, n := NetifTree(env, g, fl, j);
    PathExtend(Database(true, env, g), [fl, j], i);
  }

  /** An index path of length three or four, piece by piece. */
  lemma PathPieces(t: Tree, p: seq<nat>)
    requires InTree(t, p) && 3 <= |p| <= 4
    ensures p[..2] == [p[0], p[1]] && InTree(t, [p[0], p[1]] + [p[2]])
    ensures p == if |p| == 3 then [p[0], p[1]] + [p[2]] else [p[0], p[1]] + [p[2]] + [p[3]]
  {
    PathPrefix(t, p, 3);
    assert p[..3] == [p[0], p[1]] + [p[2]];
  }

  lemma PsPathLeadsBack(env: Env, g: Globals, h: Globals, p: seq<nat>)
    requires ValidEnv(env) && Good(g) && Good(h) && InTree(Database(true, env, g), p) && 3 <= |p| <= 4
    requires OwnEntry(env, p) && DynamicAt(env, p[0], p[1], PsBranch) && h.ps == 0
    ensures p[2] < |LivePids(env, 1)|
    ensures LeadsBack(env, g, h, p, Ps(LivePids(env, 1)[p[2]], if |p| == 3 then 1 else 0))
  {
    PathPieces(Database(true, env, g), p);
    OwnEntryOfTwo(env, p);
    if |p| == 3 {
      ProcessLeadsBack(env, g, h, p[0], p[1], p[2]);
    } else {
      FieldPathFoundIff(env, g, h, p[0], p[1], p[2], p[3]);
    }
  }

  lemma NetifPathLeadsBack(env: Env, g: Globals, h: Globals, p: seq<nat>)
    requires ValidEnv(env) && Good(g) && Good(h) && InTree(Database(true, env, g), p) && 3 <= |p| <= 4
    requires OwnEntry(env, p) && DynamicAt(env, p[0], p[1], NetifBranch)
    ensures LeadsBack(env, g, h, p, Netif(p[2], if |p| == 3 then 3 else 2))
  {
    PathPieces(Database(true, env, g), p);
    OwnEntryOfTwo(env, p);
    if |p| == 3 {
      IfaceLeadsBack(env, g, h, p[0], p[1], p[2]);
    } else {
      IfaceFieldPathFoundIff(env, g, h, p[0], p[1], p[2], p[3]);
    }
  }

  lemma PathNodeBelow(env: Env, p: seq<nat>)
    requires NodeAt(env, p) == Null && PathNode(env, p) != Null
    ensures 3 <= |p| <= 4
    ensures DynamicAt(env, p[0], p[1], PsBranch) || DynamicAt(env, p[0], p[1], NetifBranch)
    ensures DynamicAt(env, p[0], p[1], PsBranch) ==>
              p[2] < |LivePids(env, 1)| && PathNode(env, p) == Ps(LivePids(env, 1)[p[2]], if |p| == 3 then 1 else 0)
    ensures DynamicAt(env, p[0], p[1], NetifBranch) ==> PathNode(env, p) == Netif(p[2], if |p| == 3 then 3 else 2)
  {
    assert p[..2] == [p[0], p[1]];
  }

  /** After a dump of everything, from whatever state it was taken: every path it printed, except
      below neighbours, leads back to its node exactly when it is unshadowed. */
  lemma EveryDumpedPathIff(env: Env, g: Globals, p: seq<nat>)
    requires ValidEnv(env) && Good(g) && InTree(Database(true, env, g), p)
    requires OwnEntry(env, p) && PathNode(env, p) != Null
    ensures LeadsBack(env, g, BranchesFrom(true, env, g, 0).g, p, PathNode(env, p))
  {
    var h := BranchesFrom(true, env, g, 0).g;
    if NodeAt(env, p) != Null {
      FixedPathLeadsBack(env, g, h, p);
    } else {
      PathNodeBelow(env, p);
      if DynamicAt(env, p[0], p[1], PsBranch) {
        AfterPsDump(env, g, p[0], p[1]);
        PsPathLeadsBack(env, g, h, p);
      } else {
        NetifPathLeadsBack(env, g, h, p);
      }
    }
  }

  /** And below the neighbours directories: after a dump that showed an interface, no path leads to a
      neighbour or one of its fields, so none of those the dump printed does. */
  lemma NoDumpedNeighborIsFound(env: Env, g: Globals, toks: seq<string>)
    requires ValidEnv(env) && Good(g) && Lists(env, 0, NetifBranch) && env.ifaces != []
    ensures var r := Find(env, BranchesFrom(true, env, g, 0).g, toks).node;
            r.Some? && r.value.Netif? ==> r.value.level >= 2
  {
    BranchesLeave(env, g, 0);
    NoPathToANeighbor(env, BranchesFrom(true, env, g, 0).g, Root(0), Null, toks);
  }

  /** The two requests in a row: a dump, and then a query for a path it printed.  A leaf answers the
      value that was shown. */
  lemma PrintedPathAnswers(env: Env, g: Globals, p: seq<nat>)
    requires ValidEnv(env) && Good(g) && InTree(Database(true, env, g), p)
    requires OwnEntry(env, p) && PathNode(env, p) != Null && Plain(NamesAlong(Database(true, env, g), p))
    requires At(Database(true, env, g), p).Leaf? && Unshadowed(Database(true, env, g), p)
    ensures var t := Database(true, env, g);
            var (lines, h) := Handle(env, g, DumpAll);
            var (reply, h') := Handle(env, h, Query(Join(NamesAlong(t, p))));
            && lines == Shown(Flatten(t, 0))
            && reply.Contents? && At(t, p).value == Some(reply.v)
  {
    var t, h := Database(true, env, g), BranchesFrom(true, env, g, 0).g;
    JoinedNamesSplit(NamesAlong(t, p));
    EveryDumpedPathIff(env, g, p);
    var f := Find(env, h, NamesAlong(t, p));
    LeafAnswers(env, f.g, f.node.value, At(t, p));
  }

  lemma LeafAnswers(env: Env, g: Globals, n: Node, t: Tree)
    requires Shows(true, env, g, n, t) && t.Leaf?
    ensures var reply := Answer(env, g, n).0;
            reply.Contents? && t.value == Some(reply.v)
  {
  }
}
