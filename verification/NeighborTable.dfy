/**
 The neighbour table of linked_list.c as a value: a sequence of entries, newest first.

 The three writers of the table (a finished latency run, a finished throughput run and a read
 of num_neighbours) are the three operations below.  The lemmas say what any interleaving of
 them does to the table seen as a finite map, and to the positions that netif.c reads by.
 */
module NeighborTable {

  type Addr = string

  datatype Entry = Entry(addr: Addr, latency: nat, loss: nat, throughput: nat)

  /** One write: latency.c:392-397, udp_throughput.c:210-215 and netif.c:589-602. */
  datatype Write =
    | Latency(addr: Addr, latency: nat, loss: nat)
    | Throughput(addr: Addr, rate: nat)
    | Discover(addr: Addr)

  /** Index of the first entry for an address, or the length when there is none. */
  function IndexOf(list: seq<Entry>, a: Addr): (i: nat)
    ensures i <= |list|
    ensures forall j :: 0 <= j < i ==> list[j].addr != a
    ensures i < |list| ==> list[i].addr == a
  {
    if list == [] || list[0].addr == a then 0 else 1 + IndexOf(list[1..], a)
  }

  ghost predicate Distinct(list: seq<Entry>) {
    forall i, j :: 0 <= i < j < |list| ==> list[i].addr != list[j].addr
  }

  ghost function Addrs(list: seq<Entry>): set<Addr> {
    set i | 0 <= i < |list| :: list[i].addr
  }

  /** The entry a write produces from the entry already there. */
  function Merge(e: Entry, w: Write): Entry {
    match w
    case Latency(_, latency, loss) => e.(latency := latency, loss := loss)
    case Throughput(_, rate) => e.(throughput := rate)
    case Discover(_) => e
  }

  function Blank(a: Addr): Entry {
    Entry(a, 0, 0, 0)
  }

  function Apply(list: seq<Entry>, w: Write): seq<Entry> {
    var i := IndexOf(list, w.addr);
    if i < |list| then list[i := Merge(list[i], w)] else [Merge(Blank(w.addr), w)] + list
  }

  function ApplyAll(list: seq<Entry>, ws: seq<Write>): seq<Entry> {
    if ws == [] then list else Apply(ApplyAll(list, ws[..|ws| - 1]), ws[|ws| - 1])
  }

  /** The same writes on a finite map, with no order and no positions. */
  ghost function AsMap(list: seq<Entry>): map<Addr, Entry> {
    map a | a in Addrs(list) :: list[IndexOf(list, a)]
  }

  ghost function MapApply(m: map<Addr, Entry>, w: Write): map<Addr, Entry> {
    m[w.addr := Merge(if w.addr in m then m[w.addr] else Blank(w.addr), w)]
  }

  ghost function MapApplyAll(m: map<Addr, Entry>, ws: seq<Write>): map<Addr, Entry> {
    if ws == [] then m else MapApply(MapApplyAll(m, ws[..|ws| - 1]), ws[|ws| - 1])
  }

  ghost function Written(ws: seq<Write>): set<Addr> {
    set i | 0 <= i < |ws| :: ws[i].addr
  }

  /** The last latency result among the writes to one address, over a starting entry. */
  ghost function LastLatency(e: Entry, ws: seq<Write>): (nat, nat) {
    if ws == [] then (e.latency, e.loss)
    else
      var w := ws[|ws| - 1];
      if w.Latency? && w.addr == e.addr then (w.latency, w.loss) else LastLatency(e, ws[..|ws| - 1])
  }

  ghost function LastThroughput(e: Entry, ws: seq<Write>): nat {
    if ws == [] then e.throughput
    else
      var w := ws[|ws| - 1];
      if w.Throughput? && w.addr == e.addr then w.rate else LastThroughput(e, ws[..|ws| - 1])
  }

  lemma IndexOfDistinct(list: seq<Entry>, i: nat)
    requires Distinct(list) && i < |list|
    ensures IndexOf(list, list[i].addr) == i
  {
    var j := IndexOf(list, list[i].addr);
    assert j < |list| ==> list[j].addr == list[i].addr;
  }

  lemma IndexOfPresent(list: seq<Entry>, a: Addr)
    ensures a in Addrs(list) <==> IndexOf(list, a) < |list|
  {
    var i := IndexOf(list, a);
    if i < |list| {
      assert list[i].addr in Addrs(list);
    }
  }

  /** Every entry of the written address merged with the write, in place. */
  ghost function Touched(list: seq<Entry>, w: Write): (r: seq<Entry>)
    ensures |r| == |list|
    ensures forall i :: 0 <= i < |list| ==> r[i].addr == list[i].addr
  {
    seq(|list|, i requires 0 <= i < |list| => if list[i].addr == w.addr then Merge(list[i], w) else list[i])
  }

  /** The entries a write adds in front: one exactly when its address is new. */
  ghost function Added(list: seq<Entry>, w: Write): seq<Entry> {
    if w.addr in Addrs(list) then [] else [Merge(Blank(w.addr), w)]
  }

  /** Only the written address is touched, and the old entries keep their order. */
  lemma ApplyShape(list: seq<Entry>, w: Write)
    requires Distinct(list)
    ensures Apply(list, w) == Added(list, w) + Touched(list, w)
  {
    var k := IndexOf(list, w.addr);
    IndexOfPresent(list, w.addr);
    if k < |list| {
      assert forall i :: 0 <= i < |list| && list[i].addr == w.addr ==> i == k;
      assert Apply(list, w) == Touched(list, w);
    } else {
      assert Touched(list, w) == list;
    }
  }

  lemma AddrsConcat(s: seq<Entry>, t: seq<Entry>)
    ensures Addrs(s + t) == Addrs(s) + Addrs(t)
  {
    forall a | a in Addrs(s) + Addrs(t)
      ensures a in Addrs(s + t)
    {
      if a in Addrs(s) {
        var i :| 0 <= i < |s| && s[i].addr == a;
        assert (s + t)[i].addr == a;
      } else {
        var i :| 0 <= i < |t| && t[i].addr == a;
        assert (s + t)[|s| + i].addr == a;
      }
    }
  }

  lemma ApplyAddrs(list: seq<Entry>, w: Write)
    requires Distinct(list)
    ensures Addrs(Apply(list, w)) == Addrs(list) + {w.addr}
  {
    ApplyShape(list, w);
    AddrsConcat(Added(list, w), Touched(list, w));
    assert Addrs(Touched(list, w)) == Addrs(list);
    if w.addr !in Addrs(list) {
      assert Added(list, w)[0].addr == w.addr;
      assert Addrs(Added(list, w)) == {w.addr};
    }
  }

  lemma ApplyDistinct(list: seq<Entry>, w: Write)
    requires Distinct(list)
    ensures Distinct(Apply(list, w))
  {
    ApplyShape(list, w);
    var t := Touched(list, w);
    if w.addr !in Addrs(list) {
      assert forall i :: 0 <= i < |t| ==> t[i].addr == list[i].addr && list[i].addr in Addrs(list);
    }
  }

  lemma AsMapAt(list: seq<Entry>, i: nat)
    requires Distinct(list) && i < |list|
    ensures list[i].addr in AsMap(list) && AsMap(list)[list[i].addr] == list[i]
  {
    IndexOfDistinct(list, i);
  }

  lemma ApplyMapAt(list: seq<Entry>, w: Write, i: nat)
    requires Distinct(list) && i < |list|
    ensures Distinct(Apply(list, w)) && list[i].addr in AsMap(Apply(list, w))
    ensures AsMap(Apply(list, w))[list[i].addr] == Touched(list, w)[i]
  {
    ApplyShape(list, w);
    ApplyDistinct(list, w);
    var j := |Added(list, w)| + i;
    assert Apply(list, w)[j] == Touched(list, w)[i];
    AsMapAt(Apply(list, w), j);
  }

  lemma ApplyMapNew(list: seq<Entry>, w: Write)
    requires Distinct(list) && w.addr !in Addrs(list)
    ensures w.addr in AsMap(Apply(list, w)) && AsMap(Apply(list, w))[w.addr] == Merge(Blank(w.addr), w)
  {
    ApplyShape(list, w);
    ApplyDistinct(list, w);
    AsMapAt(Apply(list, w), 0);
  }

  lemma MapApplyAt(m: map<Addr, Entry>, w: Write, a: Addr)
    requires a in m
    ensures a in MapApply(m, w) && MapApply(m, w)[a] == if a == w.addr then Merge(m[a], w) else m[a]
  {
  }

  lemma ApplyMapOld(list: seq<Entry>, w: Write, i: nat)
    requires Distinct(list) && i < |list|
    ensures list[i].addr in AsMap(Apply(list, w)) && list[i].addr in MapApply(AsMap(list), w)
    ensures AsMap(Apply(list, w))[list[i].addr] == MapApply(AsMap(list), w)[list[i].addr]
  {
    AsMapAt(list, i);
    ApplyMapAt(list, w, i);
    MapApplyAt(AsMap(list), w, list[i].addr);
  }

  lemma ApplyMap(list: seq<Entry>, w: Write)
    requires Distinct(list)
    ensures AsMap(Apply(list, w)) == MapApply(AsMap(list), w)
  {
    var m, m' := AsMap(Apply(list, w)), MapApply(AsMap(list), w);
    assert m.Keys == m'.Keys by {
      ApplyAddrs(list, w);
    }
    forall a | a in m
      ensures m[a] == m'[a]
    {
      if a in Addrs(list) {
        var i :| 0 <= i < |list| && list[i].addr == a;
        ApplyMapOld(list, w, i);
      } else {
        ApplyMapNew(list, w);
      }
    }
  }

  lemma WrittenLast(ws: seq<Write>)
    requires ws != []
    ensures Written(ws) == Written(ws[..|ws| - 1]) + {ws[|ws| - 1].addr}
  {
    var init := ws[..|ws| - 1];
    forall a | a in Written(init)
      ensures a in Written(ws)
    {
      var i :| 0 <= i < |init| && init[i].addr == a;
      assert ws[i].addr == a;
    }
  }

  /** Any interleaving of the three writers: no duplicates, no address ever lost, and the finite
      map of the writes. */
  lemma {:induction false} AnyInterleaving(list: seq<Entry>, ws: seq<Write>)
    requires Distinct(list)
    ensures Distinct(ApplyAll(list, ws))
    ensures Addrs(ApplyAll(list, ws)) == Addrs(list) + Written(ws)
    ensures AsMap(ApplyAll(list, ws)) == MapApplyAll(AsMap(list), ws)
  {
    if ws != [] {
      var init, w := ws[..|ws| - 1], ws[|ws| - 1];
      AnyInterleaving(list, init);
      var mid := ApplyAll(list, init);
      ApplyDistinct(mid, w);
      ApplyAddrs(mid, w);
      ApplyMap(mid, w);
      WrittenLast(ws);
    }
  }

  ghost function AddrSeq(list: seq<Entry>): (r: seq<Addr>)
    ensures |r| == |list| && forall i :: 0 <= i < |list| ==> r[i] == list[i].addr
  {
    seq(|list|, i requires 0 <= i < |list| => list[i].addr)
  }

  lemma AddrSeqApply(list: seq<Entry>, w: Write)
    requires Distinct(list)
    ensures AddrSeq(Apply(list, w)) == AddrSeq(Added(list, w)) + AddrSeq(list)
  {
    ApplyShape(list, w);
  }

  lemma FirstSeen(list: seq<Entry>, ws: seq<Write>)
    requires ws != []
    ensures var init, w := ws[..|ws| - 1], ws[|ws| - 1];
            |Written(ws) - Addrs(list)| ==
            |Written(init) - Addrs(list)| + if w.addr in Addrs(list) + Written(init) then 0 else 1
  {
    var init, w := ws[..|ws| - 1], ws[|ws| - 1];
    WrittenLast(ws);
    var before, now := Written(init) - Addrs(list), Written(ws) - Addrs(list);
    assert now == if w.addr in Addrs(list) + Written(init) then before else before + {w.addr};
  }

  lemma {:induction false} TableGrowth(list: seq<Entry>, ws: seq<Write>)
    requires Distinct(list)
    ensures |ApplyAll(list, ws)| == |list| + |Written(ws) - Addrs(list)|
  {
    if ws == [] {
      assert Written(ws) - Addrs(list) == {};
    } else {
      var init, w := ws[..|ws| - 1], ws[|ws| - 1];
      TableGrowth(list, init);
      AnyInterleaving(list, init);
      FirstSeen(list, ws);
      ApplyShape(ApplyAll(list, init), w);
    }
  }

  /** The addresses the writes introduced, newest first. */
  ghost function NewAddrs(list: seq<Entry>, ws: seq<Write>): seq<Addr> {
    if ws == [] then []
    else
      var init := ws[..|ws| - 1];
      AddrSeq(Added(ApplyAll(list, init), ws[|ws| - 1])) + NewAddrs(list, init)
  }

  lemma {:induction false} OldPositionsKept(list: seq<Entry>, ws: seq<Write>)
    requires Distinct(list)
    ensures AddrSeq(ApplyAll(list, ws)) == NewAddrs(list, ws) + AddrSeq(list)
  {
    if ws != [] {
      var init, w := ws[..|ws| - 1], ws[|ws| - 1];
      var added := AddrSeq(Added(ApplyAll(list, init), w));
      OldPositionsKept(list, init);
      AnyInterleaving(list, init);
      AddrSeqApply(ApplyAll(list, init), w);
      assert added + (NewAddrs(list, init) + AddrSeq(list)) == (added + NewAddrs(list, init)) + AddrSeq(list);
    }
  }

  /** The old entries keep their order behind the new ones, so every entry's position shifts by
      exactly the number of addresses seen for the first time. */
  lemma PositionsShift(list: seq<Entry>, ws: seq<Write>)
    requires Distinct(list)
    ensures AddrSeq(ApplyAll(list, ws)) == NewAddrs(list, ws) + AddrSeq(list)
    ensures |NewAddrs(list, ws)| == |Written(ws) - Addrs(list)|
  {
    TableGrowth(list, ws);
    OldPositionsKept(list, ws);
    assert |AddrSeq(ApplyAll(list, ws))| == |ApplyAll(list, ws)|;
  }

  /** Latency results never disturb a throughput and throughput results never disturb a latency:
      each field of an entry is the last result of its own kind, however the writes interleave. */
  lemma {:induction false} FieldsAreIndependent(list: seq<Entry>, ws: seq<Write>, a: Addr)
    requires Distinct(list) && a in Addrs(ApplyAll(list, ws))
    ensures var start := if a in Addrs(list) then AsMap(list)[a] else Entry(a, 0, 0, 0);
            var (latency, loss) := LastLatency(start, ws);
            AsMap(ApplyAll(list, ws))[a] == Entry(a, latency, loss, LastThroughput(start, ws))
  {
    AnyInterleaving(list, ws);
    if ws != [] {
      var init, w := ws[..|ws| - 1], ws[|ws| - 1];
      AnyInterleaving(list, init);
      if a in Addrs(ApplyAll(list, init)) {
        FieldsAreIndependent(list, init, a);
      } else {
        UnwrittenHistory(Blank(a), init);
      }
    }
  }

  lemma {:induction false} UnwrittenHistory(e: Entry, ws: seq<Write>)
    requires e.addr !in Written(ws)
    ensures LastLatency(e, ws) == (e.latency, e.loss)
    ensures LastThroughput(e, ws) == e.throughput
  {
    if ws != [] {
      var init := ws[..|ws| - 1];
      assert ws[|ws| - 1].addr in Written(ws);
      forall a | a in Written(init)
        ensures a in Written(ws)
      {
        var i :| 0 <= i < |init| && init[i].addr == a;
        assert ws[i].addr == a;
      }
      UnwrittenHistory(e, init);
    }
  }

  /** The discoveries made by one read of num_neighbours. */
  function Discoveries(cache: seq<Addr>): (ws: seq<Write>)
    ensures |ws| == |cache| && forall i :: 0 <= i < |ws| ==> ws[i] == Discover(cache[i])
  {
    seq(|cache|, i requires 0 <= i < |cache| => Discover(cache[i]))
  }

  /** The table once the first k addresses of a cache have been discovered. */
  ghost function Discovered(list: seq<Entry>, cache: seq<Addr>, k: nat): seq<Entry>
    requires k <= |cache|
  {
    ApplyAll(list, Discoveries(cache)[..k])
  }

  lemma DiscoveredNext(list: seq<Entry>, cache: seq<Addr>, k: nat)
    requires k < |cache|
    ensures Discovered(list, cache, k + 1) == Apply(Discovered(list, cache, k), Discover(cache[k]))
  {
    assert Discoveries(cache)[..k + 1][..k] == Discoveries(cache)[..k];
  }

  lemma DiscoveredEnds(list: seq<Entry>, cache: seq<Addr>)
    ensures Discovered(list, cache, 0) == list
    ensures Discovered(list, cache, |cache|) == ApplyAll(list, Discoveries(cache))
  {
    assert Discoveries(cache)[..|cache|] == Discoveries(cache);
  }

  ghost predicate DistinctAddrs(cache: seq<Addr>) {
    forall i, j :: 0 <= i < j < |cache| ==> cache[i] != cache[j]
  }

  /** After a read of num_neighbours the table is at least as long as the cache it walked: this is
      what keeps every position up to num_neighbours inside the table. */
  lemma DiscoveryCoversCache(list: seq<Entry>, cache: seq<Addr>)
    requires Distinct(list) && DistinctAddrs(cache)
    ensures |cache| <= |ApplyAll(list, Discoveries(cache))|
    ensures forall a :: a in cache ==> a in Addrs(ApplyAll(list, Discoveries(cache)))
  {
    var ws := Discoveries(cache);
    var after := ApplyAll(list, ws);
    AnyInterleaving(list, ws);
    forall a | a in cache
      ensures a in Written(ws)
    {
      var i :| 0 <= i < |cache| && cache[i] == a;
      assert ws[i].addr == a;
    }
    CardinalityOfDistinct(cache);
    CardinalityBound(after);
    var seen := set a | a in cache;
    SubsetBound(seen, Addrs(after));
  }

  lemma {:induction false} CardinalityOfDistinct(cache: seq<Addr>)
    requires DistinctAddrs(cache)
    ensures |set a | a in cache| == |cache|
  {
    if cache != [] {
      var init := cache[..|cache| - 1];
      CardinalityOfDistinct(init);
      assert (set a | a in cache) == (set a | a in init) + {cache[|cache| - 1]};
    }
  }

  lemma {:induction false} CardinalityBound(list: seq<Entry>)
    ensures |Addrs(list)| <= |list|
  {
    if list != [] {
      var init := list[..|list| - 1];
      CardinalityBound(init);
      assert Addrs(list) == Addrs(init) + {list[|list| - 1].addr} by {
        forall a | a in Addrs(init)
          ensures a in Addrs(list)
        {
          var i :| 0 <= i < |init| && init[i].addr == a;
          assert list[i].addr == a;
        }
      }
    }
  }

  lemma {:induction false} SubsetBound(s: set<Addr>, t: set<Addr>)
    requires s <= t
    ensures |s| <= |t|
  {
    if s != {} {
      var a :| a in s;
      SubsetBound(s - {a}, t - {a});
    }
  }

  /** The positional reads of linked_list.c:29-79.  num counts from 1; 0 reads the first entry. */
  function Position(num: nat): nat {
    if num == 0 then 0 else num - 1
  }

  function ReadField(list: seq<Entry>, sub: int, num: nat): nat {
    if list == [] || |list| <= Position(num) then 1
    else
      var e := list[Position(num)];
      match sub
      case 2 => e.latency
      case 3 => e.loss
      case 4 => e.throughput
      case _ => 1
  }
}
