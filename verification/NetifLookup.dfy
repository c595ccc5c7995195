/**
 Paths through netif: every lookup makes a new netif node, which resets the field counts, so any
 field of any interface is found after every history; below neighbours the shared position decides.
 */
module NetifLookup {
  import opened NeighborTable
  import opened DbModel
  import opened Lookup
  import opened PathTheorems
  import opened LookupTheorems

  // ----- what a lookup leaves in the counts on its way to an interface -----

  /** At the netif node and at an interface the counts are as the constructor left them. */
  ghost predicate CountsReset(g: Globals, n: Node) {
    n.Netif? && n.level >= 3 ==> g.field == 0 && g.sub == 1
  }

  lemma {:induction false} ScanKeepsReset(env: Env, g: Globals, n: Node, c: Node, tok: string)
    requires ValidEnv(env) && Good(g) && Iterable(env, g, n, c) && CountsReset(g, n)
    ensures var s := Scan(env, g, n, c, tok);
            CountsReset(s.g, s.child)
    decreases Rank(env, g, n)
  {
    var s := Next(env, g, n, c);
    RankDrops(env, g, n, c);
    if !s.child.Null? && !Matches(tok, NameOf(env, s.g, s.child)) {
      ScanKeepsReset(env, s.g, s.node, s.child, tok);
    }
  }

  lemma {:induction false} DescendKeepsReset(env: Env, g: Globals, n: Node, c: Node, toks: seq<string>)
    requires ValidEnv(env) && Good(g) && Named(env, g, n) && Iterable(env, g, n, c) && CountsReset(g, n)
    ensures var f := Descend(env, g, n, c, toks);
            f.node.Some? ==> CountsReset(f.g, f.node.value)
    decreases |toks|
  {
    if toks != [] {
      ScanKeepsReset(env, g, n, c, toks[0]);
      var s := Scan(env, g, n, c, toks[0]);
      if !s.child.Null? {
        Descendable(env, s.g, s.child);
        DescendKeepsReset(env, s.g, s.child, s.child, toks[1..]);
      }
    }
  }

  /** One more component: the scan that starts at the node found so far. */
  lemma FindBelow(env: Env, g: Globals, pre: seq<string>, n: Node, tok: string)
    requires ValidEnv(env) && Good(g) && Find(env, g, pre).node == Some(n) && n.Netif?
    ensures var h := Find(env, g, pre).g;
            && Named(env, h, n) && Iterable(env, h, n, n) && CountsReset(h, n)
            && var s := Scan(env, h, n, n, tok);
               Find(env, g, pre + [tok]) == Found(if s.child.Null? then None else Some(s.child), s.g)
  {
    DescendKeepsReset(env, g, Root(0), Null, pre);
    DescendAppend(env, g, Root(0), Null, pre, tok);
    LastComponent(env, Find(env, g, pre).g, n, n, tok);
  }

  // ----- a path to an interface leads there from every state -----

  predicate AboveInterfaces(n: Node) {
    n.Root? || n.Fl? || (n.Netif? && n.level == 4)
  }

  lemma {:induction false} ScanAbove(env: Env, g: Globals, g': Globals, n: Node, c: Node, c': Node, tok: string)
    requires ValidEnv(env) && Good(g) && Good(g') && AboveInterfaces(n) && Named(env, g, n) && Named(env, g', n)
    ensures Scan(env, g, n, c, tok).child == Scan(env, g', n, c', tok).child
    ensures Calm(g, Scan(env, g, n, c, tok).g)
    decreases Rank(env, g, n)
  {
    var s, s' := Next(env, g, n, c), Next(env, g', n, c');
    RankDrops(env, g, n, c);
    assert s.node == s'.node && s.child == s'.child && Calm(g, s.g);
    if !s.child.Null? {
      assert NameOf(env, s.g, s.child) == NameOf(env, s'.g, s.child);
      if !Matches(tok, NameOf(env, s.g, s.child)) {
        ScanAbove(env, s.g, s'.g, s.node, s.child, s.child, tok);
      }
    }
  }

  /** Cursors from which no interface can be reached any more. */
  predicate PastInterfaces(n: Node) {
    n.Ps? || n.Saul? || (n.Netif? && n.level <= 3)
  }

  lemma {:induction false} ScanStaysBelow(env: Env, g: Globals, n: Node, c: Node, tok: string)
    requires ValidEnv(env) && Good(g) && Iterable(env, g, n, c) && PastInterfaces(n)
    ensures var child := Scan(env, g, n, c, tok).child;
            child.Null? || (PastInterfaces(child) && !(child.Netif? && child.level == 3))
    decreases Rank(env, g, n)
  {
    var s := Next(env, g, n, c);
    RankDrops(env, g, n, c);
    if !s.child.Null? && !Matches(tok, NameOf(env, s.g, s.child)) {
      ScanStaysBelow(env, s.g, s.node, s.child, tok);
    }
  }

  lemma {:induction false} NeverAnInterface(env: Env, g: Globals, n: Node, c: Node, toks: seq<string>)
    requires ValidEnv(env) && Good(g) && Named(env, g, n) && Iterable(env, g, n, c)
    requires PastInterfaces(n) && (toks != [] || !(n.Netif? && n.level == 3))
    ensures forall i :: Descend(env, g, n, c, toks).node != Some(Netif(i, 3))
    decreases |toks|
  {
    if toks != [] {
      ScanStaysBelow(env, g, n, c, toks[0]);
      var s := Scan(env, g, n, c, toks[0]);
      if !s.child.Null? {
        Descendable(env, s.g, s.child);
        NeverAnInterface(env, s.g, s.child, s.child, toks[1..]);
      }
    }
  }

  lemma {:induction false} DescendsAlways(env: Env, g: Globals, g': Globals, n: Node, c: Node, c': Node,
                                           toks: seq<string>, i: nat)
    requires ValidEnv(env) && Good(g) && Good(g') && AboveInterfaces(n) && Named(env, g, n) && Named(env, g', n)
    requires Iterable(env, g, n, c) && Iterable(env, g', n, c')
    requires Descend(env, g, n, c, toks).node == Some(Netif(i, 3))
    ensures Descend(env, g', n, c', toks).node == Some(Netif(i, 3))
    ensures Calm(g', Descend(env, g', n, c', toks).g)
    decreases |toks|
  {
    if toks != [] {
      ScanAbove(env, g, g', n, c, c', toks[0]);
      ScanAbove(env, g', g, n, c', c, toks[0]);
      var s, s' := Scan(env, g, n, c, toks[0]), Scan(env, g', n, c', toks[0]);
      Descendable(env, s.g, s.child);
      Descendable(env, s'.g, s.child);
      if AboveInterfaces(s.child) {
        DescendsAlways(env, s.g, s'.g, s.child, s.child, s.child, toks[1..], i);
      } else if toks[1..] != [] || !(s.child.Netif? && s.child.level == 3) {
        NeverAnInterface(env, s.g, s.child, s.child, toks[1..]);
      }
    }
  }

  /** A path that leads to an interface leads there from every state, and changes nothing but the two
      field counts, which it leaves as a new netif node does. */
  lemma InterfaceFoundAlways(env: Env, g: Globals, g': Globals, pre: seq<string>, i: nat)
    requires ValidEnv(env) && Good(g) && Good(g') && Find(env, g, pre).node == Some(Netif(i, 3))
    ensures Find(env, g', pre) == Found(Some(Netif(i, 3)), g'.(field := 0, sub := 1))
  {
    DescendsAlways(env, g, g', Root(0), Null, Null, pre, i);
    DescendKeepsReset(env, g', Root(0), Null, pre);
  }

  // ----- a netif node comes from a table entry -----

  lemma {:induction false} ScanFindsListed(env: Env, g: Globals, n: Node, c: Node, tok: string)
    requires ValidEnv(env) && Good(g) && Iterable(env, g, n, c) && !n.Netif?
    ensures Scan(env, g, n, c, tok).child.Netif? ==> Lists(env, 0, NetifBranch)
    decreases Rank(env, g, n)
  {
    var s := Next(env, g, n, c);
    RankDrops(env, g, n, c);
    if s.child.Netif? {
      assert NetifBranch in env.index[n.fl].dynamics;
    } else if !s.child.Null? && !Matches(tok, NameOf(env, s.g, s.child)) {
      ScanFindsListed(env, s.g, s.node, s.child, tok);
    }
  }

  lemma {:induction false} DescendFindsListed(env: Env, g: Globals, n: Node, c: Node, toks: seq<string>)
    requires ValidEnv(env) && Good(g) && Named(env, g, n) && Iterable(env, g, n, c) && !n.Netif?
    ensures var r := Descend(env, g, n, c, toks).node;
            r.Some? && r.value.Netif? ==> Lists(env, 0, NetifBranch)
    decreases |toks|
  {
    if toks != [] {
      ScanFindsListed(env, g, n, c, toks[0]);
      var s := Scan(env, g, n, c, toks[0]);
      if !s.child.Null? && !s.child.Netif? {
        Descendable(env, s.g, s.child);
        DescendFindsListed(env, s.g, s.child, s.child, toks[1..]);
      }
    }
  }

  // ----- interfaces -----

  function IfaceNames(env: Env): (names: seq<string>)
    ensures |names| == |env.ifaces|
  {
    seq(|env.ifaces|, i requires 0 <= i < |env.ifaces| => env.ifaces[i].name)
  }

  lemma {:induction false} ScanIfaces(env: Env, g: Globals, i: nat, c: Node, tok: string)
    requires ValidEnv(env) && Good(g) && g.sub == 1 && i <= |env.ifaces|
    ensures var j := FirstFrom(IfaceNames(env), tok, i);
            var s := Scan(env, g, Netif(i, 4), c, tok);
            s.g == g && s.child == if j < |env.ifaces| then Netif(j, 3) else Null
    decreases |env.ifaces| - i
  {
    if i < |env.ifaces| {
      ScanFurther(env, g, Netif(i, 4), c, tok);
      assert IfaceNames(env)[i] == env.ifaces[i].name;
      if !Matches(tok, env.ifaces[i].name) {
        ScanIfaces(env, g, i + 1, Netif(i, 3), tok);
      }
    }
  }

  /** Below netif a component leads to the first interface whose name starts with it: interface i is
      found under its own name exactly when no earlier interface's name extends it. */
  lemma IfaceFoundIff(env: Env, g: Globals, pre: seq<string>, i: nat)
    requires ValidEnv(env) && Good(g) && Find(env, g, pre).node == Some(Netif(0, 4)) && i < |env.ifaces|
    ensures Find(env, g, pre + [env.ifaces[i].name]).node == Some(Netif(i, 3)) <==>
            forall k :: 0 <= k < i ==> !Matches(env.ifaces[i].name, env.ifaces[k].name)
  {
    var names, tok := IfaceNames(env), env.ifaces[i].name;
    FindBelow(env, g, pre, Netif(0, 4), tok);
    ScanIfaces(env, Find(env, g, pre).g, 0, Netif(0, 4), tok);
    assert names[i] == tok;
    FirstFromIsIff(names, i);
    assert forall k :: 0 <= k < i ==> names[k] == env.ifaces[k].name;
  }

  // ----- interface fields -----

  /** The first interface field, from field k on, whose name starts with the component; else 5. */
  function IfaceFieldFrom(tok: string, k: int): (j: int)
    requires 0 <= k <= NETIF_COUNT
    ensures k <= j <= NETIF_COUNT
    decreases NETIF_COUNT - k
  {
    if k == NETIF_COUNT || Matches(tok, NetifFieldName(k)) then k else IfaceFieldFrom(tok, k + 1)
  }

  lemma {:induction false} ScanIfaceFields(env: Env, g: Globals, n: Node, iface: nat, tok: string)
    requires ValidEnv(env) && Good(g) && g.sub == 1 && iface < |env.ifaces| && g.field < 4
    requires n.Netif? && n.level == 2 && n.iface <= |env.ifaces| && IfaceFieldFrom(tok, g.field + 1) < NETIF_COUNT
    ensures Scan(env, g, n, Netif(iface, 2), tok) ==
            Step(g.(field := IfaceFieldFrom(tok, g.field + 1)), n, Netif(iface, 2))
    decreases NETIF_COUNT - g.field
  {
    ScanFurther(env, g, n, Netif(iface, 2), tok);
    if !Matches(tok, NetifFieldName(g.field + 1)) {
      ScanIfaceFields(env, g.(field := g.field + 1), n, iface, tok);
    }
  }

  lemma IfaceNamesStandAlone(f: int, k: int)
    requires 0 <= k <= f < NETIF_COUNT
    ensures IfaceFieldFrom(NetifFieldName(f), k) == f
    decreases f - k
  {
    if k < f {
      IfaceNamesStandAlone(f, k + 1);
      assert NetifFieldName(0)[0] == 'p' && NetifFieldName(1)[0] == 'i' && NetifFieldName(2)[0] == 'L';
      assert NetifFieldName(3)[1] == 'u' && NetifFieldName(4)[1] == 'e';
    }
  }

  lemma ScanIface(env: Env, g: Globals, iface: nat, c: Node, f: int)
    requires ValidEnv(env) && Good(g) && g.field == 0 && g.sub == 1 && iface < |env.ifaces| && 0 <= f < NETIF_COUNT
    ensures var s := Scan(env, g, Netif(iface, 3), c, NetifFieldName(f));
            s.child == Netif(iface, 2) && s.g == g.(field := f)
  {
    IfaceNamesStandAlone(f, 0);
    ScanFurther(env, g, Netif(iface, 3), c, NetifFieldName(f));
    if f > 0 {
      ScanIfaceFields(env, g, Netif(iface + 1, 2), iface, NetifFieldName(f));
    }
  }

  /** The four plain values of an interface, by field number. */
  function PlainValue(i: Iface, f: int): Value
    requires 0 <= f < 4
  {
    [IntValue(i.id), StrValue(i.addr), StrValue(if i.wired then "wired" else "wireless"), IntValue(|i.cache| % 256)][f]
  }

  /** After every history, that is from every state: a path that leads to an interface, extended by
      the name of any of its five fields, finds that field of that interface, and reading a plain
      field gives that interface's own value.  Unlike the dump, and unlike ps, this does not depend
      on what was asked before. */
  lemma IfaceFieldAlwaysFound(env: Env, g: Globals, pre: seq<string>, iface: nat, f: int)
    requires ValidEnv(env) && Good(g) && 0 <= f < NETIF_COUNT
    requires Find(env, g, pre).node == Some(Netif(iface, 3))
    ensures var r := Find(env, g, pre + [NetifFieldName(f)]);
            && r.node == Some(Netif(iface, 2)) && r.g == Find(env, g, pre).g.(field := f)
            && iface < |env.ifaces| && Good(r.g) && Named(env, r.g, Netif(iface, 2))
            && if f == 4 then TypeOf(env, r.g, Netif(iface, 2)).InnerType?
               else IsLeaf(TypeOf(env, r.g, Netif(iface, 2))) &&
                    ReadValue(env, r.g, Netif(iface, 2)).0 == PlainValue(env.ifaces[iface], f)
  {
    FindBelow(env, g, pre, Netif(iface, 3), NetifFieldName(f));
    ScanIface(env, Find(env, g, pre).g, iface, Netif(iface, 3), f);
  }

  // ----- neighbours: only the one at the current position can be looked up -----

  /** What a component finds below the neighbours directory: the entry at position num_neighbours
      by its address, else a field of that same entry by its name, and nothing when the count is 0. */
  lemma ScanNeighbors(env: Env, g: Globals, iface: nat, c: Node, tok: string)
    requires ValidEnv(env) && Good(g) && Named(env, g, Netif(iface, 2)) && g.field == 4
    ensures var s := Scan(env, g, Netif(iface, 2), c, tok);
            if g.num == 0 then s.child == Null
            else if Matches(tok, g.table[g.num - 1].addr) then s.child == Netif(iface, 1) && s.g == g.(sub := 2)
            else if Matches(tok, "latency") then s.child == Netif(iface, 0) && s.g == g.(sub := 2)
            else if Matches(tok, "packet_loss") then s.child == Netif(iface, 0) && s.g == g.(sub := 3)
            else if Matches(tok, "throughput") then s.child == Netif(iface, 0) && s.g == g.(sub := 4)
            else s.child == Null && s.g == g.(sub := 5)
  {
    var n := Netif(iface, 2);
    if g.num > 0 {
      ScanFurther(env, g, n, c, tok);
      if !Matches(tok, g.table[g.num - 1].addr) {
        ScanLink(env, g.(sub := 2), iface, Netif(iface, 1), tok);
      }
    }
  }

  /** From a neighbour's own node its three fields are walked in order. */
  lemma ScanLink(env: Env, g: Globals, iface: nat, c: Node, tok: string)
    requires ValidEnv(env) && Good(g) && iface < |env.ifaces| && g.field == 4 && g.num >= 1 && g.sub == 2
    ensures var s := Scan(env, g, Netif(iface, 1), c, tok);
            if Matches(tok, "latency") then s.child == Netif(iface, 0) && s.g == g
            else if Matches(tok, "packet_loss") then s.child == Netif(iface, 0) && s.g == g.(sub := 3)
            else if Matches(tok, "throughput") then s.child == Netif(iface, 0) && s.g == g.(sub := 4)
            else s.child == Null && s.g == g.(sub := 5)
  {
    ScanFurther(env, g, Netif(iface, 1), c, tok);
    if !Matches(tok, "latency") {
      ScanQosFields(env, g, iface, tok);
    }
  }

  lemma ScanQosFields(env: Env, g: Globals, iface: nat, tok: string)
    requires ValidEnv(env) && Good(g) && iface < |env.ifaces| && g.field == 4 && g.num >= 1 && g.sub == 2
    ensures var n := Netif(iface, 0);
            var s := Scan(env, g, n, n, tok);
            if Matches(tok, "packet_loss") then s == Step(g.(sub := 3), n, n)
            else if Matches(tok, "throughput") then s == Step(g.(sub := 4), n, n)
            else s == Step(g.(sub := 5), n, Null)
  {
    var n := Netif(iface, 0);
    ScanFurther(env, g, n, n, tok);
    if !Matches(tok, "packet_loss") {
      ScanFurther(env, g.(sub := 3), n, n, tok);
    }
  }

  /** After every history: below the neighbours directory of an interface, a path finds the entry at
      position num_neighbours under any address that entry's address starts with, and no other
      neighbour.  With a count of 0 it finds nothing. */
  lemma NeighborFoundIff(env: Env, g: Globals, pre: seq<string>, iface: nat, a: Addr)
    requires ValidEnv(env) && Good(g) && Find(env, g, pre).node == Some(Netif(iface, 2))
    requires Find(env, g, pre).g.field == 4
    ensures var h, r := Find(env, g, pre).g, Find(env, g, pre + [a]);
            && (r.node == Some(Netif(iface, 1)) <==> h.num >= 1 && Matches(a, h.table[h.num - 1].addr))
            && (r.node == Some(Netif(iface, 1)) ==> r.g == h.(sub := 2))
            && (h.num == 0 ==> r.node == None)
  {
    FindBelow(env, g, pre, Netif(iface, 2), a);
    ScanNeighbors(env, Find(env, g, pre).g, iface, Netif(iface, 2), a);
  }

  /** From every state with a count of 0 the path of an interface, its neighbours directory and any
      address leads nowhere. */
  lemma NoCountNoNeighbor(env: Env, g: Globals, g': Globals, pre: seq<string>, i: nat, a: Addr)
    requires ValidEnv(env) && Good(g) && Good(g') && Find(env, g, pre).node == Some(Netif(i, 3)) && g'.num == 0
    ensures Find(env, g', pre + ["neighbours"] + [a]).node == None
  {
    InterfaceFoundAlways(env, g, g', pre, i);
    IfaceFieldAlwaysFound(env, g', pre, i, 4);
    NeighborFoundIff(env, g', pre + ["neighbours"], i, a);
  }

  lemma QosNamesStandAlone(sub: int, sub': int)
    requires 2 <= sub <= 4 && 2 <= sub' <= 4
    ensures Matches(QosName(sub), QosName(sub')) <==> sub == sub'
  {
    assert QosName(2)[0] == 'l' && QosName(3)[0] == 'p' && QosName(4)[0] == 't';
  }

  /** After every history: a path that leads to a neighbour, extended by the name of one of its three
      fields, reads that field of the entry at position num_neighbours. */
  lemma QosFieldRead(env: Env, g: Globals, pre: seq<string>, iface: nat, sub: int)
    requires ValidEnv(env) && Good(g) && Find(env, g, pre).node == Some(Netif(iface, 1)) && 2 <= sub <= 4
    ensures var h, r := Find(env, g, pre).g, Find(env, g, pre + [QosName(sub)]);
            && r.node == Some(Netif(iface, 0)) && r.g == h.(sub := sub)
            && 1 <= h.num <= |h.table| && Good(r.g) && Named(env, r.g, Netif(iface, 0))
            && TypeOf(env, r.g, Netif(iface, 0)).FloatType?
            && ReadValue(env, r.g, Netif(iface, 0)) == (QosValue(h.table[h.num - 1], sub), r.g)
  {
    var h := Find(env, g, pre).g;
    FindBelow(env, g, pre, Netif(iface, 1), QosName(sub));
    ScanLink(env, h, iface, Netif(iface, 1), QosName(sub));
    QosNamesStandAlone(sub, 2);
    QosNamesStandAlone(sub, 3);
    QosNamesStandAlone(sub, 4);
  }
}
