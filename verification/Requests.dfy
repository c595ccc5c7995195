/**
 Whole requests, one after the other: what each does to the file-level variables, and what stays
 true over any sequence of them.
 */
module Requests {
  import opened NeighborTable
  import opened DbModel
  import opened Trees
  import opened DumpSpec
  import opened CursorDump
  import opened Lookup

  /** A path query (dcaq, CoAP), a dump of everything, or a finished measurement. */
  datatype Request = Query(path: string) | DumpAll | Record(w: Write)

  datatype Reply = Missing | Children(names: seq<string>) | Contents(v: Value) | Shown(lines: seq<Line>) | Stored

  /** What a query answers for the node it found. */
  function Answer(env: Env, g: Globals, n: Node): (r: (Reply, Globals))
    requires ValidEnv(env) && Good(g) && Named(env, g, n)
    ensures Good(r.1)
  {
    if TypeOf(env, g, n).InnerType? then
      var (names, g') := Listing(env, Next(env, g, n, Null));
      (Children(names), g')
    else
      ReadKeepsGood(env, g, n);
      var (v, g') := ReadValue(env, g, n);
      (Contents(v), g')
  }

  function Handle(env: Env, g: Globals, req: Request): (r: (Reply, Globals))
    requires ValidEnv(env) && Good(g)
    ensures Good(r.1)
  {
    match req
    case Query(path) =>
      var f := Find(env, g, Components(path));
      if f.node.None? then (Missing, f.g) else Answer(env, f.g, f.node.value)
    case DumpAll =>
      (Shown(Flatten(Database(true, env, g), 0)), BranchesFrom(true, env, g, 0).g)
    case Record(w) =>
      RecordKeepsGood(g, w);
      (Stored, g.(table := Apply(g.table, w)))
  }

  lemma RecordKeepsGood(g: Globals, w: Write)
    requires Good(g)
    ensures Good(g.(table := Apply(g.table, w)))
  {
    ApplyDistinct(g.table, w);
    ApplyShape(g.table, w);
  }

  /** A request together with the system it finds; the system may change between requests. */
  datatype Call = Call(env: Env, req: Request)

  ghost predicate ValidCalls(calls: seq<Call>) {
    forall i :: 0 <= i < |calls| ==> ValidEnv(calls[i].env)
  }

  /** The globals after a sequence of requests: every counter in range, no cursor ever past the
      neighbour list, whatever was asked before. */
  function Run(g: Globals, calls: seq<Call>): (g': Globals)
    requires ValidCalls(calls) && Good(g)
    ensures Good(g')
  {
    if calls == [] then g
    else
      var last := calls[|calls| - 1];
      Handle(last.env, Run(g, calls[..|calls| - 1]), last.req).1
  }

  /** The unsigned byte num_neighbours never underflows: a call leaves it alone or lowers it by one. */
  lemma NumNeighborsNeverWraps(env: Env, g: Globals, n: Node, child: Node)
    requires ValidEnv(env) && Good(g) && Iterable(env, g, n, child)
    ensures var s := Next(env, g, n, child);
            s.g.num == g.num || (g.num > 0 && s.g.num == g.num - 1)
  {
  }

  /** After every history, a lookup that ends on a neighbour or one of its fields names a position
      inside the list, so the read of linked_list.c lands on an entry. */
  lemma PositionalReadsHit(calls: seq<Call>, env: Env, path: string)
    requires ValidCalls(calls) && ValidEnv(env)
    ensures var f := Find(env, Run(BOOT, calls), Components(path));
            f.node.Some? && f.node.value.Netif? && f.node.value.level <= 1 ==> 1 <= f.g.num <= |f.g.table|
  {
    var f := Find(env, Run(BOOT, calls), Components(path));
    assert Good(f.g) && (f.node.Some? ==> Named(env, f.g, f.node.value));
  }
}
