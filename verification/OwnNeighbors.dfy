/**
 Which neighbours the dump shows under an interface.  The list is shared and read by position, so
 they need not be the interface's own; the exact condition, and a system on which it fails.
 */
module OwnNeighbors {
  import opened NeighborTable
  import opened DbModel
  import opened Trees
  import opened DumpSpec
  import opened DumpTheorems
  import opened Requests

  /** The addresses shown under an interface: the names in its last child, the neighbours directory. */
  ghost function ShownUnder(iface: Tree): set<Addr> {
    var fields := Kids(iface);
    if fields == [] then {} else KidNames(fields[|fields| - 1])
  }

  ghost function KidNames(t: Tree): set<string> {
    set k | k in Kids(t) :: k.name
  }

  ghost function SetOf(s: seq<Addr>): set<Addr> {
    set a | a in s
  }

  /** No entry of a foreign address stands before an entry of a cached one. */
  ghost predicate CachedFirst(list: seq<Entry>, cache: seq<Addr>) {
    forall x, y :: 0 <= x < y < |list| && list[y].addr in cache ==> list[x].addr in cache
  }

  // ----- counting -----

  lemma EqualByCount(s: set<Addr>, t: set<Addr>)
    requires s <= t && |s| == |t|
    ensures s == t
  {
    if a :| a in t && a !in s {
      SubsetBound(s + {a}, t);
    }
  }

  lemma DistinctSeq(list: seq<Entry>)
    requires Distinct(list)
    ensures DistinctAddrs(AddrSeq(list)) && SetOf(AddrSeq(list)) == Addrs(list)
  {
    forall a | a in Addrs(list)
      ensures a in SetOf(AddrSeq(list))
    {
      var i :| 0 <= i < |list| && list[i].addr == a;
      assert AddrSeq(list)[i] == a;
    }
  }

  /** Of k distinct addresses at the head of the list, all are cached exactly when the cached entries
      come first, provided that k of the listed addresses are cached. */
  lemma HeadIsCachedIff(list: seq<Entry>, cache: seq<Addr>, k: nat)
    requires Distinct(list) && k <= |list| && |SetOf(cache) * Addrs(list)| == k
    ensures SetOf(AddrSeq(list)[..k]) <= SetOf(cache) <==> CachedFirst(list, cache)
  {
    DistinctSeq(list);
    if SetOf(AddrSeq(list)[..k]) <= SetOf(cache) {
      HeadIsAllCached(list, cache, k);
    } else {
      var x :| 0 <= x < k && AddrSeq(list)[x] !in cache;
      if CachedFirst(list, cache) {
        CachedBefore(list, cache, x);
      }
    }
  }

  lemma HeadIsAllCached(list: seq<Entry>, cache: seq<Addr>, k: nat)
    requires Distinct(list) && k <= |list| && |SetOf(cache) * Addrs(list)| == k
    requires SetOf(AddrSeq(list)[..k]) <= SetOf(cache)
    ensures CachedFirst(list, cache)
  {
    var head := AddrSeq(list)[..k];
    DistinctSeq(list);
    CardinalityOfDistinct(head);
    assert SetOf(head) <= SetOf(cache) * Addrs(list);
    EqualByCount(SetOf(head), SetOf(cache) * Addrs(list));
    forall y | 0 <= y < |list| && list[y].addr in cache
      ensures y < k
    {
      assert list[y].addr in Addrs(list);
      assert list[y].addr in SetOf(head);
      var z :| 0 <= z < k && head[z] == list[y].addr;
      assert AddrSeq(list)[z] == AddrSeq(list)[y];
    }
    forall x | 0 <= x < k
      ensures list[x].addr in cache
    {
      assert head[x] == list[x].addr && head[x] in SetOf(head);
    }
  }

  lemma CachedBefore(list: seq<Entry>, cache: seq<Addr>, x: nat)
    requires Distinct(list) && x < |list| && list[x].addr !in cache && CachedFirst(list, cache)
    ensures |SetOf(cache) * Addrs(list)| <= x
  {
    var head := AddrSeq(list)[..x];
    DistinctSeq(list);
    CardinalityOfDistinct(head);
    forall a | a in SetOf(cache) * Addrs(list)
      ensures a in SetOf(head)
    {
      var y :| 0 <= y < |list| && list[y].addr == a;
      assert y < x;
      assert head[y] == a;
    }
    SubsetBound(SetOf(cache) * Addrs(list), SetOf(head));
  }

  // ----- the list after a count -----

  lemma DiscoveriesWritten(cache: seq<Addr>)
    ensures Written(Discoveries(cache)) == SetOf(cache)
  {
    var ws := Discoveries(cache);
    forall a | a in SetOf(cache)
      ensures a in Written(ws)
    {
      var i :| 0 <= i < |cache| && cache[i] == a;
      assert ws[i].addr == a;
    }
  }

  /** Only written addresses are ever new. */
  lemma {:induction false} NewAreWritten(list: seq<Entry>, ws: seq<Write>)
    ensures SetOf(NewAddrs(list, ws)) <= Written(ws)
  {
    if ws != [] {
      var init, w := ws[..|ws| - 1], ws[|ws| - 1];
      NewAreWritten(list, init);
      WrittenLast(ws);
      FrontSplits(AddrSeq(Added(ApplyAll(list, init), w)), NewAddrs(list, init));
    }
  }

  /** The first |cache| entries after the count are the cached addresses exactly when the cached
      entries came first before it. */
  lemma CountedAreCachedIff(list: seq<Entry>, cache: seq<Addr>)
    requires Distinct(list) && DistinctAddrs(cache)
    ensures var after := ApplyAll(list, Discoveries(cache));
            |cache| <= |after| && (SetOf(AddrSeq(after)[..|cache|]) == SetOf(cache) <==> CachedFirst(list, cache))
  {
    var ws := Discoveries(cache);
    var after, new' := ApplyAll(list, ws), NewAddrs(list, ws);
    AnyInterleaving(list, ws);
    PositionsShift(list, ws);
    DiscoveriesWritten(cache);
    DiscoveryCoversCache(list, cache);
    CardinalityOfDistinct(cache);
    var k := |cache| - |new'|;
    assert |SetOf(cache) * Addrs(list)| == k;
    HeadIsCachedIff(list, cache, k);
    FrontIs(list, cache, k);
  }

  lemma TakeOfConcat(a: seq<Addr>, b: seq<Addr>, k: nat)
    requires k <= |b|
    ensures (a + b)[..|a| + k] == a + b[..k]
  {
  }

  lemma FrontIsNewAndHead(list: seq<Entry>, ws: seq<Write>, k: nat)
    requires Distinct(list) && k <= |list|
    ensures var after, new' := ApplyAll(list, ws), NewAddrs(list, ws);
            |new'| + k <= |after| && AddrSeq(after)[..|new'| + k] == new' + AddrSeq(list)[..k]
  {
    var all, new', old' := AddrSeq(ApplyAll(list, ws)), NewAddrs(list, ws), AddrSeq(list);
    PositionsShift(list, ws);
    assert |all| == |new'| + |old'| && k <= |old'|;
    TakeOfConcat(new', old', k);
  }

  lemma DistinctFront(list: seq<Entry>, n: nat)
    requires Distinct(list) && n <= |list|
    ensures |SetOf(AddrSeq(list)[..n])| == n
  {
    DistinctSeq(list);
    CardinalityOfDistinct(AddrSeq(list)[..n]);
  }

  lemma FrontIs(list: seq<Entry>, cache: seq<Addr>, k: nat)
    requires Distinct(list) && DistinctAddrs(cache) && k <= |list|
    requires |cache| == |NewAddrs(list, Discoveries(cache))| + k
    ensures var after := ApplyAll(list, Discoveries(cache));
            && |cache| <= |after|
            && (SetOf(AddrSeq(after)[..|cache|]) == SetOf(cache) <==> SetOf(AddrSeq(list)[..k]) <= SetOf(cache))
  {
    var ws := Discoveries(cache);
    var after := ApplyAll(list, ws);
    FrontIsNewAndHead(list, ws, k);
    FrontSplits(NewAddrs(list, ws), AddrSeq(list)[..k]);
    NewAreWritten(list, ws);
    DiscoveriesWritten(cache);
    AnyInterleaving(list, ws);
    DistinctFront(after, |cache|);
    CardinalityOfDistinct(cache);
    var front := SetOf(AddrSeq(after)[..|cache|]);
    if front <= SetOf(cache) {
      EqualByCount(front, SetOf(cache));
    }
  }

  lemma FrontSplits(a: seq<Addr>, b: seq<Addr>)
    ensures SetOf(a + b) == SetOf(a) + SetOf(b)
  {
  }

  // ----- the dump -----

  lemma NeighborNames(table: seq<Entry>, n: nat)
    requires n <= |table|
    ensures KidNames(Dir("neighbours", NeighborTrees(table, n))) == SetOf(AddrSeq(table)[..n])
  {
    var ks, head := NeighborTrees(table, n), AddrSeq(table)[..n];
    forall a | a in SetOf(head)
      ensures exists k :: k in ks && k.name == a
    {
      var x :| 0 <= x < n && head[x] == a;
      assert ks[n - 1 - x] == NeighborTree(table[n - 1 - (n - 1 - x)]);
      assert ks[n - 1 - x] in ks;
    }
    forall k | k in ks
      ensures k.name in SetOf(head)
    {
      var x :| 0 <= x < n && ks[x] == k;
      assert ks[x] == NeighborTree(table[n - 1 - x]);
      assert head[n - 1 - x] == k.name;
    }
  }

  lemma ShownUnderFirst(i: Iface, table: seq<Entry>, n: nat)
    requires n <= |table|
    ensures ShownUnder(FirstIface(i, table, n)) == SetOf(AddrSeq(table)[..n])
  {
    NeighborNames(table, n);
    assert Kids(FirstIface(i, table, n))[4] == Dir("neighbours", NeighborTrees(table, n));
  }

  /** More than 255 neighbours never fit the byte they are counted in. */
  lemma TooManyToShow(table: seq<Entry>, cache: seq<Addr>, n: nat)
    requires DistinctAddrs(cache) && n <= |table| && n < |cache|
    ensures SetOf(AddrSeq(table)[..n]) != SetOf(cache)
  {
    CardinalityOfDistinct(cache);
    CardinalityBound(table[..n]);
    forall a | a in AddrSeq(table)[..n]
      ensures a in Addrs(table[..n])
    {
      var x :| 0 <= x < n && AddrSeq(table)[..n][x] == a;
      assert table[..n][x].addr == a;
    }
    SubsetBound(SetOf(AddrSeq(table)[..n]), Addrs(table[..n]));
  }

  /** From every state, the dump shows under interface j exactly the neighbours in that interface's
      cache if and only if the cache is empty, or it is the first interface, its neighbours fit a
      byte, and no foreign address stands before one of them in the list. */
  lemma ShowsOwnNeighborsIff(env: Env, g: Globals, j: nat)
    requires ValidEnv(env) && Good(g) && j < |env.ifaces|
    ensures var ifaces, cache := Kids(DynamicOut(true, env, g, NetifBranch).0), env.ifaces[j].cache;
            && |ifaces| == |env.ifaces|
            && (ShownUnder(ifaces[j]) == SetOf(cache) <==>
                  cache == [] || (j == 0 && |cache| <= 255 && CachedFirst(g.table, cache)))
  {
    var ifaces, cache := Kids(DynamicOut(true, env, g, NetifBranch).0), env.ifaces[j].cache;
    NetifDumpShape(env, g);
    if j == 0 {
      ByteOf(|cache|);
      FirstShowsOwnIff(env.ifaces[0], g.table, |cache| % 256);
    } else {
      assert ifaces[j] == EmptyIface(env.ifaces[j]);
      assert ShownUnder(ifaces[j]) == {};
      assert cache != [] ==> cache[0] in SetOf(cache);
    }
  }

  lemma FirstShowsOwnIff(i: Iface, list: seq<Entry>, n: nat)
    requires Distinct(list) && DistinctAddrs(i.cache)
    requires n <= |ApplyAll(list, Discoveries(i.cache))| && if |i.cache| <= 255 then n == |i.cache| else n < |i.cache|
    ensures ShownUnder(FirstIface(i, ApplyAll(list, Discoveries(i.cache)), n)) == SetOf(i.cache) <==>
            |i.cache| <= 255 && CachedFirst(list, i.cache)
  {
    var table := ApplyAll(list, Discoveries(i.cache));
    CountedAreCachedIff(list, i.cache);
    ShownUnderFirst(i, table, n);
    if |i.cache| > 255 {
      TooManyToShow(table, i.cache, n);
    }
  }

  lemma ByteOf(n: nat)
    ensures if n <= 255 then n % 256 == n else n % 256 < n
  {
  }

  // ----- a system that shows a foreign neighbour -----

  /** Two interfaces with one neighbour each. */
  const FIRST := Iface(6, "6", "fe80::1", true, ["a"])
  const SECOND := Iface(7, "7", "fe80::2", true, ["b"])
  const TWO_IFACES :=
    Env([Branch("network", [], [NetifBranch])], [None, Some(Thread("main", "running", 7, 1536, 1024))], [FIRST, SECOND], [])

  /** The list a throughput run over both interfaces leaves. */
  const MEASURED := [Entry("b", 0, 0, 2), Entry("a", 0, 0, 1)]

  lemma MeasuredInOrder()
    ensures ApplyAll([], [Throughput("a", 1), Throughput("b", 2)]) == MEASURED
    ensures Apply(Apply([], Throughput("a", 1)), Throughput("b", 2)) == MEASURED
  {
    var one := [Entry("a", 0, 0, 1)];
    assert Apply([], Throughput("a", 1)) == one;
    assert "a"[0] != "b"[0];
    assert IndexOf(one, "b") == 1;
    assert Apply(one, Throughput("b", 2)) == [Entry("b", 0, 0, 2)] + one;
    ApplyTwo([], Throughput("a", 1), Throughput("b", 2));
  }

  lemma ApplyTwo(list: seq<Entry>, v: Write, w: Write)
    ensures ApplyAll(list, [v, w]) == Apply(Apply(list, v), w)
  {
    assert [v, w][..1] == [v] && [v][..0] == [];
    assert ApplyAll(list, [v]) == Apply(ApplyAll(list, []), v);
  }

  /** The count of the first interface finds its neighbour already listed. */
  lemma CountOfFirst()
    ensures ApplyAll(MEASURED, Discoveries(FIRST.cache)) == MEASURED
  {
    assert "a"[0] != "b"[0];
    assert IndexOf(MEASURED[1..], "a") == 0 && IndexOf(MEASURED, "a") == 1;
    assert Discoveries(FIRST.cache) == [Discover("a")];
    assert [Discover("a")][..0] == [];
    assert Apply(MEASURED, Discover("a")) == MEASURED;
  }

  lemma MeasuredIsGood()
    ensures ValidEnv(TWO_IFACES) && Good(BOOT.(table := MEASURED))
  {
    var list := MEASURED;
    assert list[0].addr[0] != list[1].addr[0];
    assert Distinct(list);
    assert DistinctAddrs(FIRST.cache) && DistinctAddrs(SECOND.cache);
    assert TWO_IFACES.threads[KERNEL_PID_FIRST].Some?;
  }

  /** Two interfaces, of which the first has one neighbour, already listed: the dump shows whatever
      stands at the head of the list under the first, and nothing under the second. */
  lemma HeadShownUnderFirst(env: Env, g: Globals)
    requires ValidEnv(env) && Good(g) && |env.ifaces| == 2 && |env.ifaces[0].cache| == 1 && g.table != []
    requires ApplyAll(g.table, Discoveries(env.ifaces[0].cache)) == g.table
    ensures var ifaces := Kids(DynamicOut(true, env, g, NetifBranch).0);
            |ifaces| == 2 && ShownUnder(ifaces[0]) == {g.table[0].addr} && ShownUnder(ifaces[1]) == {}
  {
    NetifDumpShape(env, g);
    var ifaces := Kids(DynamicOut(true, env, g, NetifBranch).0);
    assert ifaces[0] == FirstIface(env.ifaces[0], g.table, 1) && ifaces[1] == EmptyIface(env.ifaces[1]);
    ShownUnderFirst(env.ifaces[0], g.table, 1);
    assert AddrSeq(g.table)[..1] == [g.table[0].addr];
  }

  /** The requests that record one result for the neighbour of each interface. */
  const MEASUREMENTS := [Call(TWO_IFACES, Record(Throughput("a", 1))), Call(TWO_IFACES, Record(Throughput("b", 2)))]

  lemma RunOfTwo(first: Call, second: Call)
    requires ValidEnv(first.env) && ValidEnv(second.env)
    ensures Run(BOOT, [first, second]) == Handle(second.env, Handle(first.env, BOOT, first.req).1, second.req).1
  {
    assert [first, second][..1] == [first] && [first][..0] == [];
    assert Run(BOOT, [first]) == Handle(first.env, Run(BOOT, []), first.req).1;
  }

  lemma MeasurementsLeave()
    ensures ValidCalls(MEASUREMENTS) && Run(BOOT, MEASUREMENTS) == BOOT.(table := MEASURED)
  {
    MeasuredIsGood();
    MeasuredInOrder();
    RunOfTwo(MEASUREMENTS[0], MEASUREMENTS[1]);
    assert MEASUREMENTS == [MEASUREMENTS[0], MEASUREMENTS[1]];
  }

  /** After them the dump shows the second interface's neighbour under the first interface, nothing
      under the second, and the first interface's own neighbour nowhere. */
  lemma ForeignNeighborShown()
    ensures ValidEnv(TWO_IFACES) && ValidCalls(MEASUREMENTS)
    ensures var ifaces := Kids(DynamicOut(true, TWO_IFACES, Run(BOOT, MEASUREMENTS), NetifBranch).0);
            |ifaces| == 2 && ShownUnder(ifaces[0]) == {"b"} && ShownUnder(ifaces[1]) == {}
    ensures TWO_IFACES.ifaces[0].cache == ["a"] && TWO_IFACES.ifaces[1].cache == ["b"]
  {
    MeasuredIsGood();
    MeasurementsLeave();
    CountOfFirst();
    HeadShownUnderFirst(TWO_IFACES, BOOT.(table := MEASURED));
  }
}
