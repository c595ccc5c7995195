/**
 db_find_node_by_path as a function: split the path, and at each level walk the cursor to the
 first child whose name starts with the component.
 */
module Lookup {
  import opened NeighborTable
  import opened DbModel

  // ----- paths -----

  /** Length of the leading component: up to the first slash or the end. */
  function TokenEnd(s: string): (e: nat)
    ensures e <= |s| && (forall i :: 0 <= i < e ==> s[i] != '/') && (e < |s| ==> s[e] == '/')
  {
    if s == "" || s[0] == '/' then 0 else 1 + TokenEnd(s[1..])
  }

  /** The non-empty components of a path. */
  function Components(s: string): seq<string>
    decreases |s|
  {
    if s == "" then []
    else if s[0] == '/' then Components(s[1..])
    else [s[..TokenEnd(s)]] + Components(s[TokenEnd(s)..])
  }

  lemma ComponentsStep(path: string, tok: nat)
    requires tok < |path| && path[tok] != '/'
    ensures var pos := tok + TokenEnd(path[tok..]);
            && tok < pos <= |path|
            && var toks := Components(path[tok..]);
               toks != [] && toks[0] == path[tok..pos] && toks[1..] == Components(path[pos..])
  {
    var tail := path[tok..];
    var e := TokenEnd(tail);
    assert tail[0] == path[tok];
    assert tail[..e] == path[tok..tok + e] && tail[e..] == path[tok + e..];
  }

  /** db_node.c:96 compares only as many bytes as the component has. */
  predicate Matches(tok: string, name: string) {
    tok <= name
  }

  // ----- walking one cursor -----

  /** Drops on every call of next-child, also on those that leave the child variable unwritten. */
  function Rank(env: Env, g: Globals, n: Node): nat
    requires ValidEnv(env) && Good(g)
  {
    match n
    case Null => 0
    case Root(idx) => if idx <= |env.index| then |env.index| - idx else 0
    case Fl(fl, subIdx, top) =>
      if fl < |env.index| && top && subIdx <= Total(env.index[fl]) then Total(env.index[fl]) - subIdx else 0
    case Ps(pid, level) =>
      if level == 2 then (if pid <= |env.threads| then |env.threads| - pid else 0)
      else if level == 1 then PS_COUNT else PS_COUNT - 1 - g.ps
    case Saul(dev, level) =>
      if level == 2 then (if dev <= |env.devices| then |env.devices| - dev else 0)
      else if level == 1 then 1 else 0
    case Netif(iface, level) =>
      if level == 4 then (if iface <= |env.ifaces| then |env.ifaces| - iface else 0)
      else if level == 3 then 10 * g.num + 20
      else if level == 2 then 10 * g.num + 8 + (4 - g.field)
      else if level == 1 then 10 * g.num + (if g.sub == 1 then 7 else if g.sub < 4 then 6 else 5)
      else 10 * g.num + (5 - g.sub)
  }

  lemma NetifRankDrops(env: Env, g: Globals, n: Node, child: Node)
    requires ValidEnv(env) && Good(g) && Iterable(env, g, n, child) && n.Netif?
    ensures var s := Next(env, g, n, child);
            s.child.Null? || Rank(env, s.g, s.node) < Rank(env, g, n)
  {
  }

  lemma FixedRankDrops(env: Env, g: Globals, n: Node, child: Node)
    requires ValidEnv(env) && Good(g) && Iterable(env, g, n, child) && (n.Root? || n.Fl?)
    ensures var s := Next(env, g, n, child);
            s.child.Null? || Rank(env, s.g, s.node) < Rank(env, g, n)
  {
  }

  lemma RankDrops(env: Env, g: Globals, n: Node, child: Node)
    requires ValidEnv(env) && Good(g) && Iterable(env, g, n, child)
    ensures var s := Next(env, g, n, child);
            s.child.Null? || Rank(env, s.g, s.node) < Rank(env, g, n)
  {
    if n.Netif? {
      NetifRankDrops(env, g, n, child);
    } else if n.Root? || n.Fl? {
      FixedRankDrops(env, g, n, child);
    }
  }

  /** The node after a step can be asked again. */
  ghost predicate Continues(env: Env, s: Step)
    requires ValidEnv(env)
  {
    Good(s.g) && Named(env, s.g, s.child) && Iterable(env, s.g, s.node, s.child)
  }

  /** The children still to be handed out after a step, beginning with its own: their names, and
      the globals once null has been answered. */
  function Listing(env: Env, s: Step): (r: (seq<string>, Globals))
    requires ValidEnv(env) && (s.child.Null? || Continues(env, s)) && Good(s.g)
    ensures Good(r.1)
    decreases if s.child.Null? then 0 else 1 + Rank(env, s.g, s.node)
  {
    if s.child.Null? then ([], s.g)
    else
      RankDrops(env, s.g, s.node, s.child);
      var rest := Listing(env, Next(env, s.g, s.node, s.child));
      ([NameOf(env, s.g, s.child)] + rest.0, rest.1)
  }

  lemma ListingStep(env: Env, s: Step)
    requires ValidEnv(env) && Continues(env, s)
    ensures var rest := Listing(env, Next(env, s.g, s.node, s.child));
            Listing(env, s) == ([NameOf(env, s.g, s.child)] + rest.0, rest.1)
  {
  }

  /** The inner loop of the lookup: stop at null or at the first matching child. */
  function Scan(env: Env, g: Globals, n: Node, child: Node, tok: string): (s: Step)
    requires ValidEnv(env) && Good(g) && Iterable(env, g, n, child)
    ensures Good(s.g) && (s.child.Null? || Named(env, s.g, s.child))
    decreases Rank(env, g, n)
  {
    var s := Next(env, g, n, child);
    RankDrops(env, g, n, child);
    if s.child.Null? || Matches(tok, NameOf(env, s.g, s.child)) then s
    else Scan(env, s.g, s.node, s.child, tok)
  }

  lemma Descendable(env: Env, g: Globals, n: Node)
    requires Named(env, g, n)
    ensures Iterable(env, g, n, n)
  {
  }

  /** The first child of an inner node is always written, so what an uninitialised child variable
      holds never matters. */
  lemma FreshChild(env: Env, g: Globals, n: Node, child: Node)
    requires ValidEnv(env) && Good(g) && Named(env, g, n) && TypeOf(env, g, n).InnerType?
    ensures Iterable(env, g, n, child) && Next(env, g, n, child) == Next(env, g, n, Null)
  {
  }

  /** The node a path leads to, if any, and the globals after the search. */
  datatype Found = Found(node: Option<Node>, g: Globals)

  /** The outer loop: one scan per component.  The child variable still holds the node it was
      copied from when the next scan starts. */
  function Descend(env: Env, g: Globals, n: Node, child: Node, toks: seq<string>): (f: Found)
    requires ValidEnv(env) && Good(g) && Named(env, g, n) && Iterable(env, g, n, child)
    ensures Good(f.g) && (f.node.Some? ==> Named(env, f.g, f.node.value))
    decreases |toks|
  {
    if toks == [] then Found(Some(n), g)
    else
      var s := Scan(env, g, n, child, toks[0]);
      if s.child.Null? then Found(None, s.g)
      else
        Descendable(env, s.g, s.child);
        Descend(env, s.g, s.child, s.child, toks[1..])
  }

  /** One turn of the outer loop. */
  lemma DescendStep(env: Env, g: Globals, n: Node, child: Node, toks: seq<string>)
    requires ValidEnv(env) && Good(g) && Named(env, g, n) && Iterable(env, g, n, child) && toks != []
    ensures var s := Scan(env, g, n, child, toks[0]);
            if s.child.Null? then Descend(env, g, n, child, toks) == Found(None, s.g)
            else
              && Iterable(env, s.g, s.child, s.child)
              && Descend(env, g, n, child, toks) == Descend(env, s.g, s.child, s.child, toks[1..])
  {
  }

  /** db_node.c:59-109 */
  function Find(env: Env, g: Globals, toks: seq<string>): Found
    requires ValidEnv(env) && Good(g)
  {
    Descend(env, g, Root(0), Null, toks)
  }

  /** The lookup starts with an uninitialised child variable, which the first call overwrites. */
  lemma RootIgnoresChild(env: Env, g: Globals, child: Node, toks: seq<string>)
    requires ValidEnv(env) && Good(g)
    ensures Descend(env, g, Root(0), child, toks) == Find(env, g, toks)
  {
    if toks != [] {
      assert Next(env, g, Root(0), child) == Next(env, g, Root(0), Null);
      assert Scan(env, g, Root(0), child, toks[0]) == Scan(env, g, Root(0), Null, toks[0]);
    }
  }
}
