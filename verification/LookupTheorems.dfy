/** The cursors against tree resolution, and the lookups whose outcome depends on earlier ones. */
module LookupTheorems {
  import opened NeighborTable
  import opened DbModel
  import opened DumpSpec
  import opened CursorDump
  import opened Trees
  import opened Lookup
  import opened PathTheorems

  // ----- what the cursors of the fixed levels hand out -----

  function BranchNames(env: Env): (names: seq<string>)
    ensures |names| == |env.index|
  {
    seq(|env.index|, i requires 0 <= i < |env.index| => env.index[i].name)
  }

  function DynamicName(d: Dynamic): string {
    match d case PsBranch => "ps" case SaulBranch => "devices" case NetifBranch => "netif"
  }

  function EntryName(b: Branch, j: nat): string
    requires j < Total(b)
  {
    if j < |b.statics| then b.statics[j].name else DynamicName(b.dynamics[j - |b.statics|])
  }

  function EntryNames(b: Branch): (names: seq<string>)
    ensures |names| == Total(b)
  {
    seq(Total(b), j requires 0 <= j < Total(b) => EntryName(b, j))
  }

  /** The node handed out for entry j of branch fl. */
  function EntryNode(env: Env, fl: nat, j: nat): Node
    requires fl < |env.index| && j < Total(env.index[fl])
  {
    var b := env.index[fl];
    if j < |b.statics| then Fl(fl, j, false) else Create(BOOT, b.dynamics[j - |b.statics|]).1
  }

  function DeviceNames(env: Env): (names: seq<string>)
    ensures |names| == |env.devices|
  {
    seq(|env.devices|, i requires 0 <= i < |env.devices| => env.devices[i].name)
  }

  /** Walking the fixed levels changes nothing, except that making a netif node resets two counts. */
  ghost predicate Calm(g: Globals, g': Globals) {
    g' == g || g' == g.(field := 0, sub := 1)
  }

  lemma {:induction false} ScanRoot(env: Env, g: Globals, i: nat, c: Node, tok: string)
    requires ValidEnv(env) && Good(g) && i <= |env.index|
    ensures var j := FirstFrom(BranchNames(env), tok, i);
            var s := Scan(env, g, Root(i), c, tok);
            s.g == g && s.child == if j < |env.index| then Fl(j, 0, true) else Null
    decreases |env.index| - i
  {
    if i < |env.index| {
      var s := Step(g, Root(i + 1), Fl(i, 0, true));
      assert Next(env, g, Root(i), c) == s;
      assert BranchNames(env)[i] == NameOf(env, g, s.child);
      if !Matches(tok, env.index[i].name) {
        ScanRoot(env, g, i + 1, s.child, tok);
      }
    }
  }

  lemma BranchStep(env: Env, g: Globals, fl: nat, i: nat, c: Node)
    requires ValidEnv(env) && Good(g) && fl < |env.index| && i < Total(env.index[fl])
    ensures var s := Next(env, g, Fl(fl, i, true), c);
            && s.node == Fl(fl, i + 1, true) && s.child == EntryNode(env, fl, i) && Calm(g, s.g)
            && NameOf(env, s.g, s.child) == EntryName(env.index[fl], i)
  {
  }

  /** A scan past a child that does not match is the scan from there. */
  lemma ScanFurther(env: Env, g: Globals, n: Node, c: Node, tok: string)
    requires ValidEnv(env) && Good(g) && Iterable(env, g, n, c) && !Next(env, g, n, c).child.Null?
    ensures var s := Next(env, g, n, c);
            Scan(env, g, n, c, tok) ==
            if Matches(tok, NameOf(env, s.g, s.child)) then s else Scan(env, s.g, s.node, s.child, tok)
  {
  }

  lemma ScanEntry(env: Env, g: Globals, fl: nat, i: nat, c: Node, tok: string) returns (g': Globals)
    requires ValidEnv(env) && Good(g) && fl < |env.index| && i < Total(env.index[fl])
    ensures Good(g') && Calm(g, g')
    ensures var next, e := Fl(fl, i + 1, true), EntryNode(env, fl, i);
            Scan(env, g, Fl(fl, i, true), c, tok) ==
            if Matches(tok, EntryName(env.index[fl], i)) then Step(g', next, e) else Scan(env, g', next, e, tok)
  {
    BranchStep(env, g, fl, i, c);
    ScanFurther(env, g, Fl(fl, i, true), c, tok);
    g' := Next(env, g, Fl(fl, i, true), c).g;
  }

  lemma ScanBranchEnd(env: Env, g: Globals, fl: nat, c: Node, tok: string)
    requires ValidEnv(env) && Good(g) && fl < |env.index|
    ensures var n := Fl(fl, Total(env.index[fl]), true);
            Scan(env, g, n, c, tok) == Step(g, n, Null)
  {
  }

  lemma {:induction false} ScanBranch(env: Env, g: Globals, fl: nat, i: nat, c: Node, tok: string)
    requires ValidEnv(env) && Good(g) && fl < |env.index| && i <= Total(env.index[fl])
    ensures var b := env.index[fl];
            var j := FirstFrom(EntryNames(b), tok, i);
            var s := Scan(env, g, Fl(fl, i, true), c, tok);
            Calm(g, s.g) && s.child == if j < Total(b) then EntryNode(env, fl, j) else Null
    decreases Total(env.index[fl]) - i
  {
    var b := env.index[fl];
    if i == Total(b) {
      ScanBranchEnd(env, g, fl, c, tok);
    } else {
      var names := EntryNames(b);
      var g' := ScanEntry(env, g, fl, i, c, tok);
      assert names[i] == EntryName(b, i);
      if Matches(tok, names[i]) {
        assert FirstFrom(names, tok, i) == i;
      } else {
        assert FirstFrom(names, tok, i) == FirstFrom(names, tok, i + 1);
        ScanBranch(env, g', fl, i + 1, EntryNode(env, fl, i), tok);
      }
    }
  }

  lemma {:induction false} ScanDevices(env: Env, g: Globals, i: nat, c: Node, tok: string)
    requires ValidEnv(env) && Good(g) && i <= |env.devices|
    ensures var j := FirstFrom(DeviceNames(env), tok, i);
            var s := Scan(env, g, Saul(i, 2), c, tok);
            s.g == g && s.child == if j < |env.devices| then Saul(j, 1) else Null
    decreases |env.devices| - i
  {
    if i < |env.devices| && !Matches(tok, env.devices[i].name) {
      ScanDevices(env, g, i + 1, Saul(i, 1), tok);
    }
  }

  lemma ScanDevice(env: Env, g: Globals, i: nat, c: Node, tok: string)
    requires ValidEnv(env) && Good(g) && i < |env.devices|
    ensures var s := Scan(env, g, Saul(i, 1), c, tok);
            s.g == g && s.child == if Matches(tok, "class") then Saul(i, 0) else Null
  {
    var s := Next(env, g, Saul(i, 1), c);
    assert s == Step(g, Saul(i + 1, 0), Saul(i, 0));
    if !Matches(tok, "class") {
      assert Scan(env, g, Saul(i, 1), c, tok) == Scan(env, g, s.node, s.child, tok);
    }
  }

  // ----- one-level listings of the fixed levels -----

  lemma {:induction false} ListsBranches(env: Env, g: Globals, i: nat, c: Node)
    requires ValidEnv(env) && Good(g) && i <= |env.index|
    ensures Listing(env, Next(env, g, Root(i), c)) == (BranchNames(env)[i..], g)
    decreases |env.index| - i
  {
    if i == |env.index| {
      assert Next(env, g, Root(i), c) == Step(g, Root(i), Null);
      assert BranchNames(env)[i..] == [];
    } else {
      var s := Step(g, Root(i + 1), Fl(i, 0, true));
      assert Next(env, g, Root(i), c) == s;
      ListingStep(env, s);
      ListsBranches(env, g, i + 1, s.child);
      assert BranchNames(env)[i..] == [env.index[i].name] + BranchNames(env)[i + 1..];
    }
  }

  lemma EntryNamesFrom(b: Branch, i: nat)
    requires i <= Total(b)
    ensures EntryNames(b)[i..] == if i == Total(b) then [] else [EntryName(b, i)] + EntryNames(b)[i + 1..]
  {
  }

  /** A branch lists every static entry once and then every dynamic entry once, in table order. */
  lemma {:induction false} ListsEntries(env: Env, g: Globals, fl: nat, i: nat, c: Node)
    requires ValidEnv(env) && Good(g) && fl < |env.index| && i <= Total(env.index[fl])
    ensures var r := Listing(env, Next(env, g, Fl(fl, i, true), c));
            r.0 == EntryNames(env.index[fl])[i..] && Calm(g, r.1)
    decreases Total(env.index[fl]) - i
  {
    var b := env.index[fl];
    var s := Next(env, g, Fl(fl, i, true), c);
    EntryNamesFrom(b, i);
    if i == Total(b) {
      assert s == Step(g, Fl(fl, i, true), Null);
    } else {
      BranchStep(env, g, fl, i, c);
      ListingStep(env, s);
      ListsEntries(env, s.g, fl, i + 1, s.child);
    }
  }

  // ----- the get-next chain of the first level -----

  /** The node itself and everything get-next leads to from it, up to null. */
  ghost function Chain(env: Env, n: Node): (r: seq<Node>)
    requires ValidEnv(env) && n.Fl? && n.fl < |env.index| && (!n.top ==> n.subIdx < |env.index[n.fl].statics|)
    decreases |env.index| - n.fl, if n.top then 0 else |env.index[n.fl].statics| - n.subIdx
  {
    var next := FlSibling(env, n);
    if next.Null? then [n] else [n] + Chain(env, next)
  }

  /** Following get-next from a static entry gives that entry and every later static entry, in the
      order in which the branch cursor hands them out, and stops before the dynamic entries. */
  lemma {:induction false} ChainFollowsStatics(env: Env, g: Globals, fl: nat, j: nat)
    requires ValidEnv(env) && Good(g) && fl < |env.index| && j < |env.index[fl].statics|
    ensures var chain := Chain(env, Fl(fl, j, false));
            && |chain| == |env.index[fl].statics| - j
            && forall k {:trigger chain[k]} :: 0 <= k < |chain| ==> chain[k] == FlNext(env, g, Fl(fl, j + k, true)).child
    decreases |env.index[fl].statics| - j
  {
    var b, n := env.index[fl], Fl(fl, j, false);
    assert FlNext(env, g, Fl(fl, j, true)).child == n;
    if j + 1 < |b.statics| {
      assert FlSibling(env, n) == Fl(fl, j + 1, false);
      ChainFollowsStatics(env, g, fl, j + 1);
      var rest := Chain(env, Fl(fl, j + 1, false));
      forall k | 0 <= k < |rest| + 1
        ensures Chain(env, n)[k] == FlNext(env, g, Fl(fl, j + k, true)).child
      {
        if k > 0 {
          assert rest[k - 1] == FlNext(env, g, Fl(fl, j + 1 + (k - 1), true)).child;
        }
      }
    }
  }

  /** Following get-next from a branch gives that branch and every later one, in the order in which
      the root cursor hands them out. */
  lemma {:induction false} ChainFollowsBranches(env: Env, g: Globals, fl: nat)
    requires ValidEnv(env) && Good(g) && fl < |env.index|
    ensures var chain := Chain(env, Fl(fl, 0, true));
            && |chain| == |env.index| - fl
            && forall k {:trigger chain[k]} :: 0 <= k < |chain| ==> chain[k] == RootNext(env, g, Root(fl + k)).child
    decreases |env.index| - fl
  {
    if fl + 1 < |env.index| {
      ChainFollowsBranches(env, g, fl + 1);
      var rest := Chain(env, Fl(fl + 1, 0, true));
      assert Chain(env, Fl(fl, 0, true)) == [Fl(fl, 0, true)] + rest;
      forall k | 0 <= k < |rest| + 1
        ensures Chain(env, Fl(fl, 0, true))[k] == RootNext(env, g, Root(fl + k)).child
      {
        if k > 0 {
          assert rest[k - 1] == RootNext(env, g, Root(fl + 1 + (k - 1))).child;
        }
      }
    }
  }

  // ----- lookup agrees with the dump -----

  /** The node that stands at an index path of the dump.  Null where it depends on the counters, that
      is below ps and netif, and where there is nothing. */
  function NodeAt(env: Env, p: seq<nat>): Node {
    if p == [] then Root(0)
    else if p[0] >= |env.index| then Null
    else if |p| == 1 then Fl(p[0], 0, true)
    else if p[1] >= Total(env.index[p[0]]) then Null
    else if |p| == 2 then EntryNode(env, p[0], p[1])
    else if !EntryNode(env, p[0], p[1]).Saul? || p[2] >= |env.devices| then Null
    else if |p| == 3 then Saul(p[2], 1)
    else if |p| == 4 && p[3] == 0 then Saul(p[2], 0)
    else Null
  }

  /** The node is what the dump shows as t: same name, same kind, same value. */
  ghost predicate Shows(show: bool, env: Env, g: Globals, n: Node, t: Tree) {
    && ValidEnv(env) && Good(g) && Named(env, g, n)
    && t.name == NameOf(env, g, n)
    && (t.Leaf? <==> IsLeaf(TypeOf(env, g, n)))
    && (t.Leaf? ==> t == File(show, t.name, ReadValue(env, g, n).0))
  }

  /** A lookup from the node at path base, shown as t, fails where tree resolution fails, and
      otherwise reaches the very node that stands where the resolution ends. */
  ghost predicate Agrees(show: bool, env: Env, f: Found, t: Tree, base: seq<nat>, toks: seq<string>) {
    match Resolve(t, toks)
    case None => f.node.None?
    case Some(p) =>
      && f.node == Some(NodeAt(env, base + p))
      && InTree(t, p) && Shows(show, env, f.g, f.node.value, At(t, p))
  }

  lemma AgreesHere(show: bool, env: Env, g: Globals, n: Node, t: Tree, base: seq<nat>)
    requires n == NodeAt(env, base) && Shows(show, env, g, n, t)
    ensures Agrees(show, env, Found(Some(n), g), t, base, [])
  {
    assert base + [] == base;
  }

  /** One component of an agreement: the child found for it and the kid resolved for it. */
  lemma AgreesBelow(show: bool, env: Env, f: Found, t: Tree, base: seq<nat>, toks: seq<string>)
    requires toks != []
    requires var j := FirstFrom(NamesOf(Kids(t)), toks[0], 0);
             if j == |Kids(t)| then f.node.None? else Agrees(show, env, f, Kids(t)[j], base + [j], toks[1..])
    ensures Agrees(show, env, f, t, base, toks)
  {
    var j := FirstFrom(NamesOf(Kids(t)), toks[0], 0);
    if j < |Kids(t)| {
      var r := Resolve(Kids(t)[j], toks[1..]);
      if r.Some? {
        assert ([j] + r.value)[1..] == r.value;
        assert base + ([j] + r.value) == base + [j] + r.value;
      }
    }
  }

  /** A leaf of a fixed level has nothing below it, in the tree and for the cursor. */
  lemma LeafAgrees(show: bool, env: Env, g: Globals, n: Node, t: Tree, base: seq<nat>, toks: seq<string>)
    requires n == NodeAt(env, base) && Shows(show, env, g, n, t) && t.Leaf?
    requires (n.Fl? && !n.top) || (n.Saul? && n.level == 0)
    ensures Iterable(env, g, n, n) && Agrees(show, env, Descend(env, g, n, n, toks), t, base, toks)
  {
    if toks == [] {
      AgreesHere(show, env, g, n, t, base);
    } else {
      assert Next(env, g, n, n).child == Null;
    }
  }

  lemma DeviceAgrees(show: bool, env: Env, g: Globals, base: seq<nat>, i: nat, toks: seq<string>)
    requires ValidEnv(env) && Good(g) && i < |env.devices|
    requires NodeAt(env, base) == Saul(i, 1) && NodeAt(env, base + [0]) == Saul(i, 0)
    ensures Agrees(show, env, Descend(env, g, Saul(i, 1), Saul(i, 1), toks), Devices(show, env.devices)[i], base, toks)
  {
    var t := Devices(show, env.devices)[i];
    if toks == [] {
      AgreesHere(show, env, g, Saul(i, 1), t, base);
    } else {
      ScanDevice(env, g, i, Saul(i, 1), toks[0]);
      assert NamesOf(Kids(t)) == ["class"];
      if Matches(toks[0], "class") {
        LeafAgrees(show, env, g, Saul(i, 0), Kids(t)[0], base + [0], toks[1..]);
      }
      AgreesBelow(show, env, Descend(env, g, Saul(i, 1), Saul(i, 1), toks), t, base, toks);
    }
  }

  lemma DevicesAgree(show: bool, env: Env, g: Globals, fl: nat, e: nat, toks: seq<string>)
    requires ValidEnv(env) && Good(g) && fl < |env.index| && e < Total(env.index[fl])
    requires EntryNode(env, fl, e) == Saul(0, 2)
    ensures Agrees(show, env, Descend(env, g, Saul(0, 2), Saul(0, 2), toks),
                   Dir("devices", Devices(show, env.devices)), [fl, e], toks)
  {
    var t := Dir("devices", Devices(show, env.devices));
    if toks == [] {
      AgreesHere(show, env, g, Saul(0, 2), t, [fl, e]);
    } else {
      ScanDevices(env, g, 0, Saul(0, 2), toks[0]);
      assert NamesOf(Kids(t)) == DeviceNames(env);
      var j := FirstFrom(DeviceNames(env), toks[0], 0);
      if j < |env.devices| {
        assert [fl, e] + [j] == [fl, e, j] && [fl, e, j] + [0] == [fl, e, j, 0];
        DeviceAgrees(show, env, g, [fl, e, j], j, toks[1..]);
      }
      AgreesBelow(show, env, Descend(env, g, Saul(0, 2), Saul(0, 2), toks), t, [fl, e], toks);
    }
  }

  /** The tree shown for a dynamic entry: its name, and for saul everything below it. */
  ghost predicate DynamicTree(show: bool, env: Env, d: Dynamic, t: Tree) {
    t.Dir? && t.name == DynamicName(d) && (d.SaulBranch? ==> t.kids == Devices(show, env.devices))
  }

  /** The tree shown for one entry of a branch, whatever was counted before it. */
  ghost predicate EntryTree(show: bool, env: Env, b: Branch, j: nat, t: Tree)
    requires j < Total(b)
  {
    if j < |b.statics| then t == File(show, b.statics[j].name, b.statics[j].value)
    else DynamicTree(show, env, b.dynamics[j - |b.statics|], t)
  }

  lemma {:induction false} DynamicKid(show: bool, env: Env, g: Globals, ds: seq<Dynamic>, k: nat)
    requires ValidEnv(env) && Good(g) && k < |ds|
    ensures DynamicTree(show, env, ds[k], DynamicsFrom(show, env, g, ds).ts[k])
    decreases k
  {
    if k > 0 {
      DynamicKid(show, env, DynamicOut(show, env, g, ds[0]).1, ds[1..], k - 1);
    }
  }

  lemma EntryKid(show: bool, env: Env, g: Globals, b: Branch, j: nat)
    requires ValidEnv(env) && Good(g) && j < Total(b)
    ensures EntryTree(show, env, b, j, BranchFrom(show, env, g, b, 0).ts[j])
  {
    assert b.statics[0..] == b.statics;
    if j >= |b.statics| {
      var k := j - |b.statics|;
      DynamicKid(show, env, g, b.dynamics, k);
      assert BranchFrom(show, env, g, b, 0).ts[j] == DynamicsFrom(show, env, g, b.dynamics).ts[k];
    }
  }

  /** The directory shown for a branch. */
  ghost predicate BranchTree(show: bool, env: Env, b: Branch, t: Tree) {
    && t.Dir? && t.name == b.name && |t.kids| == Total(b)
    && forall j {:trigger t.kids[j]} :: 0 <= j < Total(b) ==> EntryTree(show, env, b, j, t.kids[j])
  }

  lemma {:induction false} BranchKid(show: bool, env: Env, g: Globals, from: nat, fl: nat)
    requires ValidEnv(env) && Good(g) && from <= fl < |env.index|
    ensures BranchTree(show, env, env.index[fl], BranchesFrom(show, env, g, from).ts[fl - from])
    decreases fl - from
  {
    var first := BranchFrom(show, env, g, env.index[from], 0);
    if from < fl {
      BranchKid(show, env, first.g, from + 1, fl);
    } else {
      forall j | 0 <= j < Total(env.index[fl])
        ensures EntryTree(show, env, env.index[fl], j, first.ts[j])
      {
        EntryKid(show, env, g, env.index[fl], j);
      }
    }
  }

  /** The components do not go on below a ps or netif node. */
  ghost predicate StaysOutside(env: Env, g: Globals, toks: seq<string>)
    requires ValidEnv(env) && Good(g)
  {
    |toks| > 2 ==> var n := Find(env, g, toks[..2]).node; n.Some? ==> !n.value.Ps? && !n.value.Netif?
  }

  lemma DynamicAgrees(show: bool, env: Env, g: Globals, fl: nat, j: nat, t: Tree, toks: seq<string>)
    requires ValidEnv(env) && Good(g) && fl < |env.index| && |env.index[fl].statics| <= j < Total(env.index[fl])
    requires EntryTree(show, env, env.index[fl], j, t) && (toks == [] || EntryNode(env, fl, j).Saul?)
    requires Named(env, g, EntryNode(env, fl, j))
    ensures var n := EntryNode(env, fl, j);
            Iterable(env, g, n, n) && Agrees(show, env, Descend(env, g, n, n, toks), t, [fl, j], toks)
  {
    if toks == [] {
      AgreesHere(show, env, g, EntryNode(env, fl, j), t, [fl, j]);
    } else {
      assert t == Dir("devices", Devices(show, env.devices));
      DevicesAgree(show, env, g, fl, j, toks);
    }
  }

  lemma EntryAgrees(show: bool, env: Env, g: Globals, fl: nat, j: nat, t: Tree, toks: seq<string>)
    requires ValidEnv(env) && Good(g) && fl < |env.index| && j < Total(env.index[fl])
    requires EntryTree(show, env, env.index[fl], j, t)
    requires Named(env, g, EntryNode(env, fl, j))
    requires toks == [] || !(EntryNode(env, fl, j).Ps? || EntryNode(env, fl, j).Netif?)
    ensures var n := EntryNode(env, fl, j);
            Iterable(env, g, n, n) && Agrees(show, env, Descend(env, g, n, n, toks), t, [fl, j], toks)
  {
    if j < |env.index[fl].statics| {
      LeafAgrees(show, env, g, EntryNode(env, fl, j), t, [fl, j], toks);
    } else {
      DynamicAgrees(show, env, g, fl, j, t, toks);
    }
  }

  lemma BranchKidNames(show: bool, env: Env, b: Branch, t: Tree)
    requires BranchTree(show, env, b, t)
    ensures NamesOf(t.kids) == EntryNames(b)
  {
    forall j | 0 <= j < Total(b)
      ensures NamesOf(t.kids)[j] == EntryNames(b)[j]
    {
      assert EntryTree(show, env, b, j, t.kids[j]);
    }
  }

  lemma BranchAgrees(show: bool, env: Env, g: Globals, fl: nat, t: Tree, toks: seq<string>)
    requires ValidEnv(env) && Good(g) && fl < |env.index| && BranchTree(show, env, env.index[fl], t)
    requires |toks| > 1 ==> var c := Scan(env, g, Fl(fl, 0, true), Fl(fl, 0, true), toks[0]).child; !c.Ps? && !c.Netif?
    ensures Agrees(show, env, Descend(env, g, Fl(fl, 0, true), Fl(fl, 0, true), toks), t, [fl], toks)
  {
    var b, n := env.index[fl], Fl(fl, 0, true);
    if toks == [] {
      AgreesHere(show, env, g, n, t, [fl]);
    } else {
      ScanBranch(env, g, fl, 0, n, toks[0]);
      BranchKidNames(show, env, b, t);
      var s := Scan(env, g, n, n, toks[0]);
      var j := FirstFrom(EntryNames(b), toks[0], 0);
      if j < Total(b) {
        assert EntryTree(show, env, b, j, t.kids[j]);
        EntryAgrees(show, env, s.g, fl, j, t.kids[j], toks[1..]);
        assert [fl] + [j] == [fl, j];
      }
      AgreesBelow(show, env, Descend(env, g, n, n, toks), t, [fl], toks);
    }
  }

  lemma RootKidNames(show: bool, env: Env, g: Globals)
    requires ValidEnv(env) && Good(g)
    ensures NamesOf(Database(show, env, g).kids) == BranchNames(env)
  {
    forall i | 0 <= i < |env.index|
      ensures NamesOf(Database(show, env, g).kids)[i] == BranchNames(env)[i]
    {
      BranchKid(show, env, g, 0, i);
    }
  }

  /** Over any first-level tables: looking a path up agrees with resolving it, component by
      component, in the tree a dump shows, as long as it stays outside ps and netif.  The dump may
      have been taken in any state g, and the lookup may start in any other state h. */
  lemma LookupAgreesWithDump(show: bool, env: Env, g: Globals, h: Globals, toks: seq<string>)
    requires ValidEnv(env) && Good(g) && Good(h) && StaysOutside(env, h, toks)
    ensures Agrees(show, env, Find(env, h, toks), Database(show, env, g), [], toks)
  {
    var t := Database(show, env, g);
    if toks == [] {
      AgreesHere(show, env, h, Root(0), t, []);
    } else {
      ScanRoot(env, h, 0, Null, toks[0]);
      RootKidNames(show, env, g);
      var fl := FirstFrom(BranchNames(env), toks[0], 0);
      if fl < |env.index| {
        BranchKid(show, env, g, 0, fl);
        SecondComponent(env, h, fl, toks);
        BranchAgrees(show, env, h, fl, t.kids[fl], toks[1..]);
        assert Find(env, h, toks) == Descend(env, h, Fl(fl, 0, true), Fl(fl, 0, true), toks[1..]);
        assert [] + [fl] == [fl];
      }
      AgreesBelow(show, env, Find(env, h, toks), t, [], toks);
    }
  }

  /** The node after two components is the child the second scan stops at. */
  lemma SecondComponent(env: Env, g: Globals, fl: nat, toks: seq<string>)
    requires ValidEnv(env) && Good(g) && StaysOutside(env, g, toks) && fl < |env.index|
    requires toks != [] && Scan(env, g, Root(0), Null, toks[0]).child == Fl(fl, 0, true)
    requires Scan(env, g, Root(0), Null, toks[0]).g == g
    ensures |toks| > 2 ==> var c := Scan(env, g, Fl(fl, 0, true), Fl(fl, 0, true), toks[1]).child; !c.Ps? && !c.Netif?
  {
    if |toks| > 2 {
      var two, n := toks[..2], Fl(fl, 0, true);
      var s := Scan(env, g, n, n, toks[1]);
      assert two[1..] == [toks[1]];
      assert Find(env, g, two) == Descend(env, g, n, n, two[1..]);
      if !s.child.Null? {
        Descendable(env, s.g, s.child);
        assert Descend(env, g, n, n, two[1..]) == Descend(env, s.g, s.child, s.child, []);
      }
    }
  }

  // ----- the dumped path of a node leads back to it -----

  /** No other entry of the tables stands for the same node: static entries are their own nodes, a
      dynamic entry shares its node with every other entry of its kind. */
  ghost predicate OwnEntry(env: Env, p: seq<nat>) {
    |p| >= 2 && NodeAt(env, p[..2]) != Null ==>
      forall fl, j {:trigger EntryNode(env, fl, j)} :: 0 <= fl < |env.index| && 0 <= j < Total(env.index[fl]) ==>
        (EntryNode(env, fl, j) == NodeAt(env, p[..2]) ==> fl == p[0] && j == p[1])
  }

  lemma NodeAtInjective(env: Env, p: seq<nat>, q: seq<nat>)
    requires |p| == |q| && NodeAt(env, p) == NodeAt(env, q) != Null && OwnEntry(env, p)
    ensures p == q
  {
    if |p| >= 2 {
      assert p[..2] == [p[0], p[1]];
      assert EntryNode(env, q[0], q[1]) == NodeAt(env, p[..2]);
    }
  }

  /** ps and netif nodes never lead back to the other branches. */
  predicate PsOrNetif(n: Node) {
    n.Ps? || n.Netif?
  }

  lemma {:induction false} ScanStaysInside(env: Env, g: Globals, n: Node, c: Node, tok: string)
    requires ValidEnv(env) && Good(g) && Iterable(env, g, n, c) && PsOrNetif(n)
    ensures var child := Scan(env, g, n, c, tok).child;
            child.Null? || PsOrNetif(child)
    decreases Rank(env, g, n)
  {
    var s := Next(env, g, n, c);
    RankDrops(env, g, n, c);
    if !s.child.Null? && !Matches(tok, NameOf(env, s.g, s.child)) {
      ScanStaysInside(env, s.g, s.node, s.child, tok);
    }
  }

  lemma {:induction false} DescendStaysInside(env: Env, g: Globals, n: Node, c: Node, toks: seq<string>)
    requires ValidEnv(env) && Good(g) && Named(env, g, n) && Iterable(env, g, n, c) && PsOrNetif(n)
    ensures var r := Descend(env, g, n, c, toks).node;
            r.Some? ==> PsOrNetif(r.value)
    decreases |toks|
  {
    if toks != [] {
      ScanStaysInside(env, g, n, c, toks[0]);
      var s := Scan(env, g, n, c, toks[0]);
      if !s.child.Null? {
        Descendable(env, s.g, s.child);
        DescendStaysInside(env, s.g, s.child, s.child, toks[1..]);
      }
    }
  }

  lemma {:induction false} OnceInside(env: Env, g: Globals, n: Node, c: Node, toks: seq<string>, k: nat)
    requires ValidEnv(env) && Good(g) && Named(env, g, n) && Iterable(env, g, n, c) && k <= |toks|
    requires var r := Descend(env, g, n, c, toks[..k]).node; r.Some? && PsOrNetif(r.value)
    ensures var r := Descend(env, g, n, c, toks).node; r.Some? ==> PsOrNetif(r.value)
    decreases k
  {
    if k == 0 {
      DescendStaysInside(env, g, n, c, toks);
    } else {
      var s := Scan(env, g, n, c, toks[0]);
      assert toks[..k][1..] == toks[1..][..k - 1];
      Descendable(env, s.g, s.child);
      OnceInside(env, s.g, s.child, s.child, toks[1..], k - 1);
    }
  }

  /** A prefix of an index path is one, with the first names, and it is unshadowed when the path is. */
  lemma {:induction false} PathPrefix(t: Tree, p: seq<nat>, k: nat)
    requires InTree(t, p) && k <= |p|
    ensures InTree(t, p[..k]) && |NamesAlong(t, p)| == |p| && NamesAlong(t, p[..k]) == NamesAlong(t, p)[..k]
    ensures Unshadowed(t, p) ==> Unshadowed(t, p[..k])
    decreases |p|
  {
    if p != [] {
      var kid := Kids(t)[p[0]];
      PathPrefix(kid, p[1..], if k == 0 then 0 else k - 1);
      if k > 0 {
        assert p[..k][1..] == p[1..][..k - 1];
        assert NamesAlong(t, p[..k]) == [kid.name] + NamesAlong(kid, p[1..])[..k - 1];
      }
    }
  }

  /** The names of an unshadowed node outside ps and netif stay outside them. */
  lemma UnshadowedStaysOutside(show: bool, env: Env, g: Globals, h: Globals, p: seq<nat>)
    requires ValidEnv(env) && Good(g) && Good(h)
    requires InTree(Database(show, env, g), p) && Unshadowed(Database(show, env, g), p) && NodeAt(env, p) != Null
    ensures StaysOutside(env, h, NamesAlong(Database(show, env, g), p))
  {
    var t := Database(show, env, g);
    if |p| > 2 {
      PathPrefix(t, p, 2);
      var two := p[..2];
      DumpPathResolvesIff(t, two);
      LookupAgreesWithDump(show, env, g, h, NamesAlong(t, two));
      assert [] + two == two;
    }
    PathPrefix(t, p, 0);
  }

  /** Looking up, in any state h, the names under which a dump from any state g shows a node outside
      the ps and netif subtrees leads to that very node exactly when no elder sibling's name extends
      a name on the way. */
  lemma DumpedPathFoundIff(show: bool, env: Env, g: Globals, h: Globals, p: seq<nat>)
    requires ValidEnv(env) && Good(g) && Good(h) && InTree(Database(show, env, g), p)
    requires NodeAt(env, p) != Null && OwnEntry(env, p)
    ensures var t := Database(show, env, g);
            Find(env, h, NamesAlong(t, p)).node == Some(NodeAt(env, p)) <==> Unshadowed(t, p)
  {
    var t := Database(show, env, g);
    var names := NamesAlong(t, p);
    DumpPathResolvesIff(t, p);
    PathPrefix(t, p, 0);
    if StaysOutside(env, h, names) {
      LookupAgreesWithDump(show, env, g, h, names);
      var r := Resolve(t, names);
      if r.Some? {
        ResolveLength(t, names);
        assert [] + r.value == r.value;
        if NodeAt(env, r.value) == NodeAt(env, p) {
          NodeAtInjective(env, p, r.value);
        }
      }
    } else {
      OnceInside(env, h, Root(0), Null, names, 2);
      if Unshadowed(t, p) {
        UnshadowedStaysOutside(show, env, g, h, p);
      }
    }
  }

  lemma {:induction false} ResolveLength(t: Tree, toks: seq<string>)
    ensures Resolve(t, toks).Some? ==> |Resolve(t, toks).value| == |toks|
    decreases |toks|
  {
    if toks != [] {
      var j := FirstFrom(NamesOf(Kids(t)), toks[0], 0);
      if j < |Kids(t)| {
        ResolveLength(Kids(t)[j], toks[1..]);
      }
    }
  }

  /** The path printed for an unshadowed node outside the ps and netif subtrees, split again, leads a
      lookup to that node, and what the lookup reads of it is what the dump showed. */
  lemma DumpedPathIsFound(show: bool, env: Env, g: Globals, h: Globals, p: seq<nat>)
    requires ValidEnv(env) && Good(g) && Good(h) && InTree(Database(show, env, g), p)
    requires NodeAt(env, p) != Null && Unshadowed(Database(show, env, g), p)
    requires Plain(NamesAlong(Database(show, env, g), p))
    ensures var t := Database(show, env, g);
            var f := Find(env, h, Components(Join(NamesAlong(t, p))));
            f.node == Some(NodeAt(env, p)) && Shows(show, env, f.g, f.node.value, At(t, p))
  {
    var t := Database(show, env, g);
    JoinedNamesSplit(NamesAlong(t, p));
    DumpPathResolvesIff(t, p);
    UnshadowedStaysOutside(show, env, g, h, p);
    LookupAgreesWithDump(show, env, g, h, NamesAlong(t, p));
    assert [] + p == p;
  }

  lemma LastComponent(env: Env, g: Globals, n: Node, c: Node, tok: string)
    requires ValidEnv(env) && Good(g) && Named(env, g, n) && Iterable(env, g, n, c)
    ensures var s := Scan(env, g, n, c, tok);
            Descend(env, g, n, c, [tok]) == Found(if s.child.Null? then None else Some(s.child), s.g)
  {
    var s := Scan(env, g, n, c, tok);
    assert [tok][1..] == [];
    if !s.child.Null? {
      Descendable(env, s.g, s.child);
      assert Descend(env, s.g, s.child, s.child, []) == Found(Some(s.child), s.g);
    }
  }

  /** Two components lead to the first entry that starts with the second, of the first branch that
      starts with the first. */
  lemma EntryFound(env: Env, g: Globals, branch: string, entry: string)
    requires ValidEnv(env) && Good(g)
    ensures var fl := FirstFrom(BranchNames(env), branch, 0);
            Find(env, g, [branch, entry]).node ==
            if fl == |env.index| then None
            else
              var j := FirstFrom(EntryNames(env.index[fl]), entry, 0);
              if j == Total(env.index[fl]) then None else Some(EntryNode(env, fl, j))
  {
    var toks, fl := [branch, entry], FirstFrom(BranchNames(env), branch, 0);
    ScanRoot(env, g, 0, Null, branch);
    if fl < |env.index| {
      var n := Fl(fl, 0, true);
      assert toks[1..] == [entry];
      assert Find(env, g, toks) == Descend(env, g, n, n, [entry]);
      ScanBranch(env, g, fl, 0, n, entry);
      LastComponent(env, g, n, n, entry);
    }
  }

  lemma FirstFromIsIff(names: seq<string>, j: nat)
    requires j < |names|
    ensures FirstFrom(names, names[j], 0) == j <==> forall i :: 0 <= i < j ==> !Matches(names[j], names[i])
  {
  }

  /** A static entry is found under its own two names exactly when no earlier branch's name extends
      its branch's and no earlier entry's name extends its own. */
  lemma StaticFoundIff(env: Env, g: Globals, fl: nat, j: nat)
    requires ValidEnv(env) && Good(g) && fl < |env.index| && j < |env.index[fl].statics|
    ensures var b := env.index[fl];
            Find(env, g, [b.name, b.statics[j].name]).node == Some(Fl(fl, j, false)) <==>
            && (forall i :: 0 <= i < fl ==> !Matches(b.name, env.index[i].name))
            && (forall i :: 0 <= i < j ==> !Matches(b.statics[j].name, b.statics[i].name))
  {
    var b, branches, entries := env.index[fl], BranchNames(env), EntryNames(env.index[fl]);
    EntryFound(env, g, b.name, b.statics[j].name);
    assert branches[fl] == b.name && entries[j] == b.statics[j].name;
    FirstFromIsIff(branches, fl);
    FirstFromIsIff(entries, j);
    assert forall i :: 0 <= i < fl ==> branches[i] == env.index[i].name;
    assert forall i :: 0 <= i < j ==> entries[i] == b.statics[i].name;
  }

  // ----- process fields: a lookup depends on the lookups before it -----

  /** The first process field, from field k on, whose name starts with the component; else 5. */
  function FieldFrom(tok: string, k: int): (j: int)
    requires 0 <= k <= PS_COUNT
    ensures k <= j <= PS_COUNT && (j < PS_COUNT ==> Matches(tok, PsFieldName(j)))
    decreases PS_COUNT - k
  {
    if k == PS_COUNT || Matches(tok, PsFieldName(k)) then k else FieldFrom(tok, k + 1)
  }

  lemma {:induction false} ScanFields(env: Env, g: Globals, n: Node, pid: nat, tok: string)
    requires ValidEnv(env) && Good(g) && n.Ps? && n.level == 0 && n.pid <= |env.threads| && Alive(env, pid)
    ensures var j := FieldFrom(tok, g.ps + 1);
            Scan(env, g, n, Ps(pid, 0), tok) ==
            if j < PS_COUNT then Step(g.(ps := j), n, Ps(pid, 0)) else Step(g.(ps := 0), n, Null)
    decreases PS_COUNT - g.ps
  {
    if g.ps + 1 < PS_COUNT && !Matches(tok, PsFieldName(g.ps + 1)) {
      ScanFields(env, g.(ps := g.ps + 1), n, pid, tok);
    }
  }

  /** Below a process only the fields from the current count on are offered; a failed search
      leaves the count at 0. */
  lemma ScanProcess(env: Env, g: Globals, pid: nat, c: Node, tok: string)
    requires ValidEnv(env) && Good(g) && Alive(env, pid)
    ensures var j := FieldFrom(tok, g.ps);
            var s := Scan(env, g, Ps(pid, 1), c, tok);
            s.g == g.(ps := if j < PS_COUNT then j else 0) && s.child == if j < PS_COUNT then Ps(pid, 0) else Null
  {
    if !Matches(tok, PsFieldName(g.ps)) {
      ScanFields(env, g, Ps(NextPid(env, pid), 0), pid, tok);
    }
  }

  predicate Fixed(n: Node) {
    n.Root? || n.Fl? || (n.Ps? && n.level == 2)
  }

  /** Above the processes, what a scan finds depends on the tables alone. */
  lemma {:induction false} ScanFixed(env: Env, g: Globals, g': Globals, n: Node, c: Node, c': Node, tok: string)
    requires ValidEnv(env) && Good(g) && Good(g') && Fixed(n) && Named(env, g, n) && Named(env, g', n)
    ensures Scan(env, g, n, c, tok).child == Scan(env, g', n, c', tok).child
    ensures Scan(env, g, n, c, tok).g.ps == g.ps
    decreases Rank(env, g, n)
  {
    var s, s' := Next(env, g, n, c), Next(env, g', n, c');
    RankDrops(env, g, n, c);
    assert s.node == s'.node && s.child == s'.child && s.g.ps == g.ps;
    if !s.child.Null? {
      assert NameOf(env, s.g, s.child) == NameOf(env, s'.g, s.child);
      if !Matches(tok, NameOf(env, s.g, s.child)) {
        ScanFixed(env, s.g, s'.g, s.node, s.child, s.child, tok);
      }
    }
  }

  /** Cursors from which no process directory can be reached any more. */
  predicate PastProcesses(n: Node) {
    n.Saul? || n.Netif? || (n.Ps? && n.level <= 1)
  }

  lemma {:induction false} ScanStaysPast(env: Env, g: Globals, n: Node, c: Node, tok: string)
    requires ValidEnv(env) && Good(g) && Iterable(env, g, n, c) && PastProcesses(n)
    ensures var child := Scan(env, g, n, c, tok).child;
            child.Null? || (PastProcesses(child) && !(child.Ps? && child.level == 1))
    decreases Rank(env, g, n)
  {
    var s := Next(env, g, n, c);
    RankDrops(env, g, n, c);
    if !s.child.Null? && !Matches(tok, NameOf(env, s.g, s.child)) {
      ScanStaysPast(env, s.g, s.node, s.child, tok);
    }
  }

  lemma {:induction false} NeverAProcess(env: Env, g: Globals, n: Node, c: Node, toks: seq<string>)
    requires ValidEnv(env) && Good(g) && Named(env, g, n) && Iterable(env, g, n, c)
    requires PastProcesses(n) && (toks != [] || !(n.Ps? && n.level == 1))
    ensures forall pid :: Descend(env, g, n, c, toks).node != Some(Ps(pid, 1))
    decreases |toks|
  {
    if toks != [] {
      ScanStaysPast(env, g, n, c, toks[0]);
      var s := Scan(env, g, n, c, toks[0]);
      if !s.child.Null? {
        Descendable(env, s.g, s.child);
        NeverAProcess(env, s.g, s.child, s.child, toks[1..]);
      }
    }
  }

  /** A path to a process finds it from every state, and leaves the field count alone. */
  lemma {:induction false} ProcessFoundAlways(env: Env, g: Globals, g': Globals, n: Node, c: Node, c': Node,
                                               toks: seq<string>, pid: nat)
    requires ValidEnv(env) && Good(g) && Good(g') && Fixed(n) && Named(env, g, n) && Named(env, g', n)
    requires Iterable(env, g, n, c) && Iterable(env, g', n, c')
    requires Descend(env, g, n, c, toks).node == Some(Ps(pid, 1))
    ensures Descend(env, g', n, c', toks).node == Some(Ps(pid, 1))
    ensures Descend(env, g', n, c', toks).g.ps == g'.ps
    decreases |toks|
  {
    if toks != [] {
      ScanFixed(env, g, g', n, c, c', toks[0]);
      ScanFixed(env, g', g, n, c', c, toks[0]);
      var s, s' := Scan(env, g, n, c, toks[0]), Scan(env, g', n, c', toks[0]);
      Descendable(env, s.g, s.child);
      Descendable(env, s'.g, s.child);
      if Fixed(s.child) {
        ProcessFoundAlways(env, s.g, s'.g, s.child, s.child, s.child, toks[1..], pid);
      } else if toks[1..] != [] || !(s.child.Ps? && s.child.level == 1) {
        NeverAProcess(env, s.g, s.child, s.child, toks[1..]);
      }
    }
  }

  lemma {:induction false} DescendAppend(env: Env, g: Globals, n: Node, c: Node, pre: seq<string>, tok: string)
    requires ValidEnv(env) && Good(g) && Named(env, g, n) && Iterable(env, g, n, c) && pre != []
    ensures var f := Descend(env, g, n, c, pre);
            f.node.Some? ==>
              Iterable(env, f.g, f.node.value, f.node.value) &&
              Descend(env, g, n, c, pre + [tok]) == Descend(env, f.g, f.node.value, f.node.value, [tok])
    decreases |pre|
  {
    var s := Scan(env, g, n, c, pre[0]);
    assert (pre + [tok])[1..] == pre[1..] + [tok];
    if !s.child.Null? {
      Descendable(env, s.g, s.child);
      if |pre| > 1 {
        DescendAppend(env, s.g, s.child, s.child, pre[1..], tok);
      } else {
        assert pre[1..] + [tok] == [tok];
      }
    }
  }

  lemma FieldNamesStandAlone(f: int, k: int)
    requires 0 <= f < PS_COUNT && 0 <= k <= PS_COUNT
    ensures FieldFrom(PsFieldName(f), k) == if k <= f then f else PS_COUNT
    decreases PS_COUNT - k
  {
    if k < PS_COUNT {
      FieldNamesStandAlone(f, k + 1);
      assert PsFieldName(0)[0] == 'p' && PsFieldName(0)[1] == 'i' && PsFieldName(1)[0] == 's' && PsFieldName(1)[2] == 'a';
      assert PsFieldName(2)[1] == 'r' && PsFieldName(3)[0] == 't' && PsFieldName(4)[2] == 'a' && PsFieldName(4)[3] == 'c';
    }
  }

  /** After any history, that is from any count k: a process field is found under its own name
      exactly when it is field k or a later one, and then the field read is the one asked for.
      A lookup that fails leaves the count at 0, so asking once more succeeds. */
  lemma PsFieldFoundIff(env: Env, g: Globals, pre: seq<string>, pid: nat, f: int)
    requires ValidEnv(env) && Good(g) && pre != [] && 0 <= f < PS_COUNT
    requires Find(env, g, pre).node == Some(Ps(pid, 1))
    ensures var path := pre + [PsFieldName(f)];
            var r := Find(env, g, path);
            && (r.node.Some? <==> f >= g.ps)
            && (f >= g.ps ==> ReadsField(env, r, pid, f))
            && (f < g.ps ==> r.g.ps == 0 && ReadsField(env, Find(env, r.g, path), pid, f))
  {
    var tok := PsFieldName(f);
    PsFieldOnce(env, g, g, pre, pid, f);
    if f < g.ps {
      PsFieldOnce(env, g, Find(env, g, pre + [tok]).g, pre, pid, f);
    }
  }

  ghost predicate ReadsField(env: Env, r: Found, pid: nat, f: int) {
    && ValidEnv(env) && Good(r.g) && Alive(env, pid)
    && r.node == Some(Ps(pid, 0)) && r.g.ps == f
    && ReadValue(env, r.g, Ps(pid, 0)) == (PsValue(env.threads[pid].value, pid, f), r.g)
  }

  lemma PsFieldOnce(env: Env, g: Globals, g': Globals, pre: seq<string>, pid: nat, f: int)
    requires ValidEnv(env) && Good(g) && Good(g') && pre != [] && 0 <= f < PS_COUNT
    requires Find(env, g, pre).node == Some(Ps(pid, 1))
    ensures var r := Find(env, g', pre + [PsFieldName(f)]);
            if f >= g'.ps then ReadsField(env, r, pid, f) else r.node == None && r.g.ps == 0
  {
    var tok := PsFieldName(f);
    ProcessFoundAlways(env, g, g', Root(0), Null, Null, pre, pid);
    DescendAppend(env, g', Root(0), Null, pre, tok);
    var h := Find(env, g', pre).g;
    LastComponent(env, h, Ps(pid, 1), Ps(pid, 1), tok);
    ScanProcess(env, h, pid, Ps(pid, 1), tok);
    FieldNamesStandAlone(f, h.ps);
  }
}
