/**
 The database as the C code runs it: nodes and file-level variables updated in place, the
 neighbour list on the heap, path lookup by nested loops, the dump by recursion over a loop.
 Every method is proved against the value model.
 */
module DcaDatabase {
  import opened NeighborTable
  import opened NeighborList
  import opened DbModel
  import opened Trees
  import opened DumpSpec
  import opened CursorDump
  import opened Lookup
  import opened Requests
  import opened DumpLines

  const ENOENT := 2

  /** A step of a dump loop that hands out the first of the trees still to be shown, none of them as
      deep as the given depth. */
  ghost predicate ShowsNext(env: Env, show: bool, s: Step, rest: Out, depth: nat)
    requires ValidEnv(env)
  {
    && Good(s.g)
    && (s.child.Null? || (Continues(env, s) && Depth(s.child) < depth))
    && Turn(show, env, rest, s)
    && IterationDepth(s.node) <= depth
  }

  lemma LaterTurn(env: Env, show: bool, g: Globals, n: Node, child: Node, depth: nat)
    requires ValidEnv(env) && Good(g) && Iterable(env, g, n, child)
    requires IterationDepth(n) <= depth && Depth(child) < depth
    ensures var s, rest := Next(env, g, n, child), Pending(show, env, g, n, child);
            && ShowsNext(env, show, s, rest, depth)
            && Depth(s.node) <= depth && (s.child.Null? ==> rest == Out([], s.g))
  {
    NextTurn(show, env, g, n, child);
    DepthDrops(env, g, n, child, depth);
  }

  /** The step's child has been shown: its lines come first, and what is left is pending for the node
      and whatever the recursion left in the child variable. */
  lemma ChildShown(env: Env, show: bool, s: Step, rest: Out, level: nat, child: Node, depth: nat)
    requires ValidEnv(env) && ShowsNext(env, show, s, rest, level) && !s.child.Null?
    requires IsLeaf(TypeOf(env, s.g, s.child)) ==> child == s.child
    ensures var (tree, g') := Whole(show, env, s.g, s.child);
            && Iterable(env, g', s.node, child)
            && var left := Pending(show, env, g', s.node, child);
               && |left.ts| < |rest.ts| && left.g == rest.g
               && FlattenAll(rest.ts, depth) == Flatten(tree, depth) + FlattenAll(left.ts, depth)
  {
    TurnTaken(show, env, rest, s, child);
    var (tree, g') := Whole(show, env, s.g, s.child);
    assert rest.ts[1..] == Pending(show, env, g', s.node, child).ts;
  }

  /** The first turn writes the child variable, so what it holds does not matter. */
  lemma FirstTurn(env: Env, show: bool, g: Globals, n: Node, child: Node)
    requires ValidEnv(env) && Good(g) && Named(env, g, n) && TypeOf(env, g, n).InnerType?
    ensures Iterable(env, g, n, child)
    ensures var s, all := Next(env, g, n, child), Pending(show, env, g, n, Null);
            && ShowsNext(env, show, s, all, Depth(n))
            && Depth(s.node) <= Depth(n) && (s.child.Null? ==> all == Out([], s.g))
  {
    FreshChild(env, g, n, child);
    NextTurn(show, env, g, n, Null);
    FirstDepthDrops(env, g, n);
  }

  /** A db_node_t variable.  Until something writes it, it holds anything. */
  class DbNode {
    var data: Node

    constructor () {
    }
  }

  class Dca {
    var psField: int     // _field_count of ps.c
    var saulField: int   // _saul_field_count
    var netifField: int  // _netif_field_count
    var netifSub: int    // _netif_sub_field_count
    var num: nat         // _num_neighbours
    const neighbors: Table

    ghost var state: Globals  // the five variables and the list contents, as one value

    ghost predicate Synced()
      reads this, neighbors, neighbors.Repr
    {
      neighbors.Valid() && state == Globals(psField, saulField, netifField, netifSub, num, neighbors.Contents())
    }

    ghost predicate Valid()
      reads this, neighbors, neighbors.Repr
    {
      Synced() && Good(state)
    }

    constructor ()
      ensures Valid() && state == BOOT
      ensures fresh(neighbors) && fresh(neighbors.Repr)
    {
      psField, saulField, netifField, netifSub, num := 0, 0, 0, 1, 0;
      neighbors := new Table();
      state := BOOT;
    }

    // ----- next child -----

    /** db.c:123-135 */
    method RootNextChild(env: Env, node: DbNode, child: DbNode)
      requires node != child && node.data.Root?
      modifies node, child
      ensures Step(state, node.data, child.data) == RootNext(env, old(state), old(node.data))
    {
      var idx := node.data.idx;
      if idx < |env.index| {
        child.data := Fl(idx, 0, true);
        node.data := Root((idx + 1) % 256);
      } else {
        child.data := Null;
      }
    }

    /** ps.c:119-124, saul_devices.c:76-83, netif.c:111-119, behind dyn_ent->get_node_fn. */
    method CreateDynamic(d: Dynamic, node: DbNode)
      requires Synced()
      modifies this, node
      ensures Synced() && (state, node.data) == Create(old(state), d)
    {
      match d {
        case PsBranch => node.data := Ps(KERNEL_PID_FIRST, 2);
        case SaulBranch => node.data := Saul(0, 2);
        case NetifBranch =>
          netifField, netifSub := 0, 1;
          state := state.(field := 0, sub := 1);
          node.data := Netif(0, 4);
      }
    }

    /** db_fl.c:84-118 */
    method FlNextChild(env: Env, node: DbNode, child: DbNode)
      requires node != child && node.data.Fl? && Valid() && Named(env, state, node.data)
      modifies this, node, child
      ensures Synced()
      ensures Step(state, node.data, child.data) == FlNext(env, old(state), old(node.data))
    {
      var Fl(fl, subIdx, top) := node.data;
      var b := env.index[fl];
      if top {
        if subIdx < |b.statics| {
          child.data := Fl(fl, subIdx, false);
          node.data := Fl(fl, (subIdx + 1) % 256, top);
        } else {
          var dyn := (subIdx - |b.statics|) % 256;
          if dyn < |b.dynamics| {
            node.data := Fl(fl, (subIdx + 1) % 256, top);
            CreateDynamic(b.dynamics[dyn], child);
          } else {
            child.data := Null;
          }
        }
      } else {
        child.data := Null;
      }
    }

    /** db_fl.c:120-150 */
    method FlGetNext(env: Env, node: DbNode, next: DbNode)
      requires node != next && node.data.Fl? && Named(env, state, node.data)
      modifies next
      ensures next.data == FlSibling(env, node.data)
    {
      var Fl(fl, subIdx, top) := node.data;
      if top {
        if fl + 1 < |env.index| {
          next.data := Fl((fl + 1) % 256, 0, true);
        } else {
          next.data := Null;
        }
      } else {
        var nextIdx := (subIdx + 1) % 256;
        if nextIdx < |env.index[fl].statics| {
          next.data := Fl(fl, nextIdx, false);
        } else {
          next.data := Null;
        }
      }
    }

    /** ps.c:102-117, a do-while loop over the thread table. */
    method GetNextPid(env: Env, start: nat) returns (pid: nat)
      requires start < |env.threads|
      ensures pid == NextPid(env, start)
    {
      pid := start;
      var stop := false;
      while !stop
        invariant start <= pid < |env.threads|
        invariant if stop then pid == NextPid(env, start) else NextPid(env, pid) == NextPid(env, start)
        decreases |env.threads| - pid, !stop
      {
        if pid + 1 == |env.threads| {
          return |env.threads|;
        }
        pid := pid + 1;
        stop := env.threads[pid].Some?;
      }
    }

    /** ps.c:153-201 */
    method PsNextChild(env: Env, node: DbNode, child: DbNode)
      requires node != child && node.data.Ps? && Synced()
      modifies this, node, child
      ensures Synced()
      ensures Step(state, node.data, child.data) == PsNext(env, old(state), old(node.data), old(child.data))
    {
      var Ps(pid, level) := node.data;
      if level == 2 {
        if pid < |env.threads| {
          child.data := Ps(pid, 1);
          var next := GetNextPid(env, pid);
          node.data := Ps(next, 2);
        } else {
          child.data := Null;
        }
      } else if level == 1 {
        if pid < |env.threads| && psField < PS_COUNT {
          child.data := Ps(pid, 0);
          var next := GetNextPid(env, pid);
          node.data := Ps(next, 0);
        }
      } else if psField == PS_COUNT - 1 {
        psField := 0;
        child.data := Null;
      } else {
        psField := psField + 1;
      }
      state := state.(ps := psField);
    }

    /** saul_devices.c:108-152 */
    method SaulNextChild(env: Env, node: DbNode, child: DbNode)
      requires node != child && node.data.Saul? && Synced()
      modifies this, node, child
      ensures Synced()
      ensures Step(state, node.data, child.data) == SaulNext(env, old(state), old(node.data), old(child.data))
    {
      var Saul(dev, level) := node.data;
      if level == 2 {
        if dev < |env.devices| {
          child.data := Saul(dev, 1);
          node.data := Saul(dev + 1, 2);
        } else {
          child.data := Null;
        }
      } else if level == 1 {
        if dev < |env.devices| && saulField < SAUL_COUNT {
          child.data := Saul(dev, 0);
          node.data := Saul(dev + 1, 0);
        }
      } else if saulField == SAUL_COUNT - 1 {
        saulField := 0;
        child.data := Null;
      } else {
        saulField := saulField + 1;
      }
      state := state.(saul := saulField);
    }

    /** netif.c:152-271 */
    method NetifNextChild(env: Env, node: DbNode, child: DbNode)
      requires node != child && node.data.Netif? && Synced()
      modifies this, node, child
      ensures Synced()
      ensures Step(state, node.data, child.data) == NetifNext(env, old(state), old(node.data), old(child.data))
      decreases if node.data.level == 1 && netifSub == 1 then 0 else 2
    {
      var Netif(iface, level) := node.data;
      if level == 4 {
        if iface < |env.ifaces| {
          child.data := Netif(iface, 3);
          node.data := Netif(iface + 1, 4);
        } else {
          child.data := Null;
        }
      } else if level == 3 {
        if iface < |env.ifaces| && netifField < NETIF_COUNT {
          child.data := Netif(iface, 2);
          node.data := Netif(iface + 1, 2);
        }
      } else if level == 2 {
        if netifField == NETIF_COUNT - 1 && iface < |env.ifaces| && num > 0 {
          child.data := Netif(iface, 1);
          node.data := Netif(iface, 1);
          netifSub := netifSub + 1;
        } else if netifField < NETIF_COUNT - 1 {
          netifField := netifField + 1;
        } else {
          child.data := Null;
        }
      } else if level == 1 {
        if num <= 0 {
          netifSub := 1;
          child.data := Null;
        } else if netifSub == 1 {
          child.data := Netif(iface, 1);
          node.data := Netif(iface, 1);
          netifSub := netifSub + 1;
        } else if netifSub < QOS_COUNT {
          child.data := Netif(iface, 0);
          node.data := Netif(iface, 0);
        } else {
          NextNeighborChild(env, node, child);
        }
      } else {
        if netifSub < QOS_COUNT {
          netifSub := netifSub + 1;
        } else if netifSub == QOS_COUNT && num != 0 {
          netifSub := netifSub + 1;
          child.data := Null;
        } else {
          NextNeighborChild(env, node, child);
        }
      }
      state := state.(field := netifField, sub := netifSub, num := num);
    }

    /** netif.c:222-235 and 254-267, the same lines twice: on to the neighbour one position lower. */
    method NextNeighborChild(env: Env, node: DbNode, child: DbNode)
      requires node != child && node.data.Netif? && Synced()
      modifies this, node, child
      ensures Synced()
      ensures Step(state, node.data, child.data) == NextNeighbor(old(state), old(node.data))
      decreases 1
    {
      num := (num - 1) % 256;
      netifSub := 1;
      state := state.(sub := netifSub, num := num);
      if num == 0 {
        child.data := Null;
      } else {
        node.data := Netif(node.data.iface, 1);
        NetifNextChild(env, node, child);
      }
    }

    /** db_node.c:118-123: dispatch through the ops pointer. */
    method GetNextChild(env: Env, node: DbNode, child: DbNode)
      requires node != child && ValidEnv(env) && Valid() && Iterable(env, state, node.data, child.data)
      modifies this, node, child
      ensures Valid()
      ensures Step(state, node.data, child.data) == Next(env, old(state), old(node.data), old(child.data))
    {
      ghost var s := Next(env, state, node.data, child.data);
      match node.data {
        case Root(_) => RootNextChild(env, node, child);
        case Fl(_, _, _) => FlNextChild(env, node, child);
        case Ps(_, _) => PsNextChild(env, node, child);
        case Saul(_, _) => SaulNextChild(env, node, child);
        case Netif(_, _) => NetifNextChild(env, node, child);
      }
      assert Step(state, node.data, child.data) == s;
    }

    // ----- name, type and value -----

    /** The get_name functions; the name of a neighbour is a positional read of the list. */
    method GetName(env: Env, node: DbNode) returns (name: string)
      requires Valid() && Named(env, state, node.data)
      ensures name == NameOf(env, state, node.data)
    {
      match node.data {
        case Root(_) => name := "/";
        case Fl(fl, subIdx, top) =>
          name := if top then env.index[fl].name else env.index[fl].statics[subIdx].name;
        case Ps(pid, level) =>
          if level == 2 {
            name := "ps";
          } else if level == 1 {
            name := env.threads[pid].value.name;
          } else {
            name := PsFieldName(psField);
          }
        case Saul(dev, level) =>
          name := if level == 2 then "devices" else if level == 1 then env.devices[dev].name else "class";
        case Netif(iface, level) =>
          if level == 4 {
            name := "netif";
          } else if level == 3 {
            name := env.ifaces[iface].name;
          } else if level == 2 {
            name := NetifFieldName(netifField);
          } else if level == 1 {
            var r;
            r, name := neighbors.ReadIp(num, "");
          } else {
            name := QosName(netifSub);
          }
      }
    }

    /** The get_type functions, which only read. */
    method GetType(env: Env, node: DbNode) returns (t: NodeType)
      requires Valid() && (node.data.Null? || Held(env, node.data))
      ensures t == TypeOf(env, state, node.data)
    {
      match node.data {
        case Null => t := NullType;
        case Root(_) => t := InnerType;
        case Fl(fl, subIdx, top) =>
          t := if top then InnerType else ValueType(env.index[fl].statics[subIdx].value);
        case Ps(_, level) =>
          t := if level == 2 || level == 1 then InnerType else if psField == 1 then StrType else IntType;
        case Saul(_, level) => t := if level == 2 || level == 1 then InnerType else StrType;
        case Netif(_, level) => t := NetifType(netifField, netifSub, level);
      }
    }

    /** The get_size functions, which only read. */
    method GetSize(env: Env, node: DbNode) returns (size: nat)
      requires Valid() && Held(env, node.data)
      ensures size == SizeOf(env, state, node.data)
    {
      size := 0;
      match node.data {
        case Root(_) =>
        case Fl(fl, subIdx, top) =>
          if !top {
            match env.index[fl].statics[subIdx].value {
              case IntValue(_) => size := 4;
              case FloatValue(_) => size := 4;
              case StrValue(s) => size := |s|;
            }
          }
        case Ps(_, level) =>
          if level == 0 {
            size := 4;
          }
        case Saul(_, _) =>
        case Netif(iface, level) =>
          if level == 4 || level == 3 {
            size := 2;
          } else if level == 2 && netifField == 2 {
            size := 4;
          } else if level == 0 && netifSub < QOS_COUNT {
            size := 4;
          } else {
            size := |env.ifaces[iface].addr|;
          }
      }
    }

    /** The walk over a cache has counted its first k addresses and discovered them. */
    ghost predicate Walked(before: seq<Entry>, cache: seq<Addr>, k: nat)
      reads this, neighbors, neighbors.Repr
    {
      neighbors.Valid() && k <= |cache| && num == ByteCount(k) && neighbors.Contents() == Discovered(before, cache, k)
    }

    /** One turn of the loop at netif.c:576-580. */
    method WalkOne(cache: seq<Addr>, k: nat, ghost before: seq<Entry>)
      requires k < |cache| && Walked(before, cache, k)
      modifies `num, neighbors, neighbors.Repr
      ensures Walked(before, cache, k + 1) && fresh(neighbors.Repr - old(neighbors.Repr))
    {
      DiscoveredNext(before, cache, k);
      ByteNext(k);
      num := (num + 1) % 256;
      neighbors.AddNeighbor(cache[k]);
    }

    /** netif.c:576-580: the walk over the neighbour cache, counting in a byte. */
    method WalkCache(cache: seq<Addr>)
      requires neighbors.Valid()
      modifies `num, neighbors, neighbors.Repr
      ensures Walked(old(neighbors.Contents()), cache, |cache|) && fresh(neighbors.Repr - old(neighbors.Repr))
    {
      ghost var before := neighbors.Contents();
      DiscoveredEnds(before, cache);
      num := 0;
      var k := 0;
      while k < |cache|
        invariant k <= |cache| && Walked(before, cache, k)
        invariant fresh(neighbors.Repr - old(neighbors.Repr))
      {
        WalkOne(cache, k, before);
        k := k + 1;
      }
    }

    /** What the walk comes to. */
    method CountCache(cache: seq<Addr>)
      requires neighbors.Valid()
      modifies `num, neighbors, neighbors.Repr
      ensures neighbors.Valid() && fresh(neighbors.Repr - old(neighbors.Repr))
      ensures num == |cache| % 256
      ensures neighbors.Contents() == ApplyAll(old(neighbors.Contents()), Discoveries(cache))
    {
      DiscoveredEnds(neighbors.Contents(), cache);
      ByteCountWraps(|cache|);
      WalkCache(cache);
    }

    /** netif.c:563-587.  Reading num_neighbours recounts it and grows the neighbour list. */
    method NetifIntValue(env: Env, iface: nat) returns (i: int)
      requires Synced() && iface < |env.ifaces| && (netifField == 0 || netifField == 3)
      modifies this, neighbors, neighbors.Repr
      ensures Synced() && fresh(neighbors.Repr - old(neighbors.Repr))
      ensures state == if netifField == 0 then old(state) else CountNeighbors(old(state), env.ifaces[iface])
      ensures i == if netifField == 0 then env.ifaces[iface].id else num
    {
      if netifField == 0 {
        return env.ifaces[iface].id;
      }
      CountCache(env.ifaces[iface].cache);
      state := state.(num := num, table := neighbors.Contents());
      return num;
    }

    /** db_node.c:146-152: db_fl.c:193-201, ps.c:308-346 and netif.c:563-587. */
    method GetIntValue(env: Env, node: DbNode) returns (i: int)
      requires ValidEnv(env) && Valid() && Held(env, node.data) && Defined(state, node.data) && TypeOf(env, state, node.data).IntType?
      modifies this, neighbors, neighbors.Repr
      ensures Valid() && fresh(neighbors.Repr - old(neighbors.Repr))
      ensures (IntValue(i), state) == ReadValue(env, old(state), node.data)
    {
      ReadKeepsGood(env, state, node.data);
      match node.data {
        case Fl(fl, subIdx, _) => i := env.index[fl].statics[subIdx].value.i;
        case Ps(pid, _) =>
          var p := env.threads[pid].value;
          match psField {
            case 0 => i := pid;
            case 2 => i := p.priority;
            case 3 => i := p.stackSize;
            case 4 => i := p.stackSize - p.stackFree;
            case _ => i := -1;
          }
        case Netif(iface, _) => i := NetifIntValue(env, iface);
      }
    }

    /** db_node.c:154-160: db_fl.c:203-211 and netif.c:485-506, a positional read of the list. */
    method GetFloatValue(env: Env, node: DbNode) returns (v: Value)
      requires ValidEnv(env) && Valid() && Held(env, node.data) && Defined(state, node.data) && TypeOf(env, state, node.data).FloatType?
      ensures (v, state) == ReadValue(env, state, node.data)
    {
      match node.data {
        case Fl(fl, subIdx, _) => v := env.index[fl].statics[subIdx].value;
        case Netif(_, _) =>
          var raw := neighbors.Read(netifSub, num);
          v := QosNumber(raw, netifSub);
      }
    }

    /** db_node.c:162-168: db_fl.c:213-221, ps.c:348-364, saul_devices.c:231-243, netif.c:461-483. */
    method GetStrValue(env: Env, node: DbNode) returns (s: string)
      requires ValidEnv(env) && Valid() && Held(env, node.data) && Defined(state, node.data) && TypeOf(env, state, node.data).StrType?
      ensures (StrValue(s), state) == ReadValue(env, state, node.data)
    {
      match node.data {
        case Fl(fl, subIdx, _) => s := env.index[fl].statics[subIdx].value.s;
        case Ps(pid, _) => s := env.threads[pid].value.status;
        case Saul(dev, _) => s := env.devices[dev].cls;
        case Netif(iface, _) =>
          if netifField == 1 {
            s := env.ifaces[iface].addr;
          } else if netifField == 2 {
            s := LinkType(env.ifaces[iface]);
          } else {
            var r;
            r, s := neighbors.ReadIp(num, "");
          }
      }
    }

    /** db_node.c:170-209 up to the formatting: the value of a leaf, read by its type. */
    method GetValue(env: Env, node: DbNode) returns (v: Value)
      requires ValidEnv(env) && Valid() && Held(env, node.data) && Defined(state, node.data) && IsLeaf(TypeOf(env, state, node.data))
      modifies this, neighbors, neighbors.Repr
      ensures Valid() && fresh(neighbors.Repr - old(neighbors.Repr))
      ensures (v, state) == ReadValue(env, old(state), node.data)
    {
      var t := GetType(env, node);
      if t.IntType? {
        var i := GetIntValue(env, node);
        v := IntValue(i);
      } else if t.FloatType? {
        v := GetFloatValue(env, node);
      } else {
        var s := GetStrValue(env, node);
        v := StrValue(s);
      }
    }

    // ----- lookup -----

    /** db_node.c:89-96, the do-while loop over the children of one node. */
    method ScanChildren(env: Env, node: DbNode, child: DbNode, word: string) returns (found: bool)
      requires node != child && ValidEnv(env) && Valid() && Iterable(env, state, node.data, child.data)
      modifies this, node, child
      ensures Valid() && found == !child.data.Null?
      ensures Step(state, node.data, child.data) == Scan(env, old(state), old(node.data), old(child.data), word)
    {
      found := false;
      while !found
        invariant Valid()
        invariant if found then
            !child.data.Null? &&
            Scan(env, old(state), old(node.data), old(child.data), word) == Step(state, node.data, child.data)
          else
            Iterable(env, state, node.data, child.data) &&
            Scan(env, old(state), old(node.data), old(child.data), word) == Scan(env, state, node.data, child.data, word)
        decreases if found then 0 else 1 + Rank(env, state, node.data)
      {
        RankDrops(env, state, node.data, child.data);
        GetNextChild(env, node, child);
        if child.data.Null? {
          return;
        }
        var name := GetName(env, child);
        found := Matches(word, name);
      }
    }

    /** node can be searched for the next component, with child holding what it holds. */
    ghost predicate Searchable(env: Env, node: DbNode, child: DbNode)
      reads this, neighbors, neighbors.Repr, node, child
    {
      Valid() && Named(env, state, node.data) && Iterable(env, state, node.data, child.data)
    }

    /** db_node.c:88-106, one turn of the outer loop: scan for the component at tok, descend by
        copying the child over the node, and move tok to the next component. */
    method DescendOne(env: Env, path: string, tok: nat, node: DbNode, child: DbNode) returns (next: Option<nat>)
      requires tok < |path| && path[tok] != '/'
      requires node != child && ValidEnv(env) && Searchable(env, node, child)
      modifies this, node, child
      ensures Valid()
      ensures var before := Descend(env, old(state), old(node.data), old(child.data), Components(path[tok..]));
              match next
              case None => before == Found(None, state)
              case Some(tok') =>
                && tok < tok' <= |path| && (tok' < |path| ==> path[tok'] != '/')
                && Searchable(env, node, child)
                && before == Descend(env, state, node.data, child.data, Components(path[tok'..]))
    {
      ghost var toks := Components(path[tok..]);
      ComponentsStep(path, tok);
      DescendStep(env, state, node.data, child.data, toks);
      var pos := tok + TokenEnd(path[tok..]);
      var next' := SkipSlashes(path, pos);
      var found := ScanChildren(env, node, child, path[tok..pos]);
      if !found {
        return None;
      }
      node.data := child.data;
      return Some(next');
    }

    /** db_node.c:79-108, the outer loop. */
    method DescendAll(env: Env, path: string, start: nat, node: DbNode, child: DbNode) returns (r: int)
      requires start <= |path| && (start < |path| ==> path[start] != '/')
      requires node != child && ValidEnv(env) && Searchable(env, node, child)
      modifies this, node, child
      ensures Valid()
      ensures var f := Descend(env, old(state), old(node.data), old(child.data), Components(path[start..]));
              && state == f.g
              && r == (if f.node.Some? then 0 else -ENOENT)
              && (r == 0 ==> node.data == f.node.value)
    {
      var tok := start;
      ghost var result := Descend(env, state, node.data, child.data, Components(path[tok..]));
      while tok != |path|
        invariant tok <= |path| && (tok < |path| ==> path[tok] != '/')
        invariant Searchable(env, node, child)
        invariant result == Descend(env, state, node.data, child.data, Components(path[tok..]))
        decreases |path| - tok
      {
        var next := DescendOne(env, path, tok, node, child);
        if next.None? {
          return -ENOENT;
        }
        tok := next.value;
      }
      assert result == Found(Some(node.data), state);
      return 0;
    }

    /** db_node.c:59-109 */
    method FindNodeByPath(env: Env, path: string, node: DbNode) returns (r: int)
      requires ValidEnv(env) && Valid()
      modifies this, node
      ensures Valid()
      ensures var f := Find(env, old(state), Components(path));
              && state == f.g
              && r == (if f.node.Some? then 0 else -ENOENT)
              && (r == 0 ==> node.data == f.node.value)
    {
      assert path[0..] == path;
      var tok := SkipSlashes(path, 0);
      var child := new DbNode();
      node.data := Root(0);
      ghost var any := child.data;
      r := DescendAll(env, path, tok, node, child);
      RootIgnoresChild(env, old(state), any, Components(path));
    }

    /** The loops at db_node.c:68-70 and 100-102. */
    method SkipSlashes(path: string, start: nat) returns (tok: nat)
      requires start <= |path|
      ensures start <= tok <= |path| && (tok < |path| ==> path[tok] != '/')
      ensures Components(path[start..]) == Components(path[tok..])
    {
      tok := start;
      while tok < |path| && path[tok] == '/'
        invariant start <= tok <= |path|
        invariant Components(path[start..]) == Components(path[tok..])
      {
        assert path[tok..][1..] == path[tok + 1..];
        tok := tok + 1;
      }
    }

    // ----- queries -----

    /** One turn of the listing loop: the child's name, and the next call. */
    method ListOne(env: Env, node: DbNode, child: DbNode, ghost s: Step) returns (name: string, ghost s': Step)
      requires node != child && ValidEnv(env) && Valid() && s == Step(state, node.data, child.data) && Continues(env, s)
      modifies this, node, child
      ensures Valid() && s' == Step(state, node.data, child.data)
      ensures s'.child.Null? || (Continues(env, s') && Rank(env, s'.g, s'.node) < Rank(env, s.g, s.node))
      ensures Listing(env, s) == ([name] + Listing(env, s').0, Listing(env, s').1)
    {
      RankDrops(env, s.g, s.node, s.child);
      ListingStep(env, s);
      name := GetName(env, child);
      GetNextChild(env, node, child);
      s' := Step(state, node.data, child.data);
    }

    /** The listing loop, once the first child has been asked for. */
    method ListRest(env: Env, node: DbNode, child: DbNode) returns (names: seq<string>)
      requires node != child && ValidEnv(env) && Valid()
      requires child.data.Null? || Continues(env, Step(state, node.data, child.data))
      modifies this, node, child
      ensures Valid() && (names, state) == Listing(env, old(Step(state, node.data, child.data)))
    {
      ghost var s := Step(state, node.data, child.data);
      ghost var all := Listing(env, s);
      names := [];
      assert [] + all.0 == all.0;
      while !child.data.Null?
        invariant Valid() && s == Step(state, node.data, child.data)
        invariant s.child.Null? || Continues(env, s)
        invariant all == (names + Listing(env, s).0, Listing(env, s).1)
        decreases if s.child.Null? then 0 else 1 + Rank(env, s.g, s.node)
      {
        var name;
        ghost var rest := Listing(env, s).0;
        name, s := ListOne(env, node, child, s);
        assert names + rest == (names + [name]) + Listing(env, s).0;
        names := names + [name];
      }
      assert names + [] == names;
    }

    /** shell_cmds.c:50-58 and coap.c:92-100: the names of a node's children, one level down. */
    method ListChildren(env: Env, node: DbNode) returns (names: seq<string>)
      requires ValidEnv(env) && Valid() && Named(env, state, node.data) && TypeOf(env, state, node.data).InnerType?
      modifies this, node
      ensures Valid()
      ensures (names, state) == Listing(env, Next(env, old(state), old(node.data), Null))
    {
      var child := new DbNode();
      FreshChild(env, state, node.data, child.data);
      GetNextChild(env, node, child);
      names := ListRest(env, node, child);
    }

    // ----- the dump -----

    /** shell_cmds.c:95-124.  The lines printed are those of the declarative tree of the node. */
    method TreeR(env: Env, depth: nat, show: bool, node: DbNode) returns (lines: seq<Line>)
      requires ValidEnv(env) && Valid() && Named(env, state, node.data)
      modifies this, neighbors, neighbors.Repr, node
      ensures Valid() && fresh(neighbors.Repr - old(neighbors.Repr))
      ensures var (tree, g') := Whole(show, env, old(state), old(node.data));
              lines == Flatten(tree, depth) && Prints(lines, tree, depth) && state == g'
      ensures IsLeaf(TypeOf(env, old(state), old(node.data))) ==> node.data == old(node.data)
      ensures Depth(node.data) <= Depth(old(node.data))
      decreases Depth(node.data), 4
    {
      FlattenPrints(Whole(show, env, state, node.data).0, depth);
      var name := GetName(env, node);
      var t := GetType(env, node);
      if IsLeaf(t) {
        if show {
          var v := GetValue(env, node);
          lines := [FileLine(depth, name, Some(v))];
        } else {
          lines := [FileLine(depth, name, None)];
        }
      } else {
        var below := ShowChildren(env, depth + 1, show, node);
        lines := [DirLine(depth, name)] + below;
      }
    }

    /** A dump loop: node has just handed out child, rest is what is still to be shown. */
    ghost predicate Showing(env: Env, show: bool, node: DbNode, child: DbNode, rest: Out, depth: nat)
      requires ValidEnv(env)
      reads this, neighbors, neighbors.Repr, node, child
    {
      Valid() && ShowsNext(env, show, Step(state, node.data, child.data), rest, depth)
    }

    /** What the loop needs to know of Showing. */
    ghost predicate ShowingEnds(node: DbNode, child: DbNode, rest: Out, depth: nat)
      reads this, neighbors, neighbors.Repr, node, child
    {
      Valid() && Depth(node.data) <= depth && (child.data.Null? ==> rest == Out([], state))
    }

    /** A later call of next-child in a dump loop. */
    method ShowNext(env: Env, ghost show: bool, node: DbNode, child: DbNode, ghost depth: nat)
      requires node != child && ValidEnv(env) && Valid() && Iterable(env, state, node.data, child.data)
      requires IterationDepth(node.data) <= depth && Depth(child.data) < depth
      modifies this, node, child
      ensures Showing(env, show, node, child, Pending(show, env, old(state), old(node.data), old(child.data)), depth)
      ensures ShowingEnds(node, child, Pending(show, env, old(state), old(node.data), old(child.data)), depth)
    {
      LaterTurn(env, show, state, node.data, child.data, depth);
      GetNextChild(env, node, child);
    }

    /** The child variable of a dump loop, and the first call that writes it. */
    method ShowFirst(env: Env, ghost show: bool, node: DbNode) returns (child: DbNode)
      requires ValidEnv(env) && Valid() && Named(env, state, node.data) && TypeOf(env, state, node.data).InnerType?
      modifies this, node
      ensures fresh(child)
      ensures Showing(env, show, node, child, Pending(show, env, old(state), old(node.data), Null), Depth(old(node.data)))
      ensures ShowingEnds(node, child, Pending(show, env, old(state), old(node.data), Null), Depth(old(node.data)))
    {
      child := new DbNode();
      FirstTurn(env, show, state, node.data, child.data);
      GetNextChild(env, node, child);
    }

    /** One turn of the loop: show the child, then ask for the next one. */
    method ShowOne(env: Env, depth: nat, show: bool, node: DbNode, child: DbNode, ghost rest: Out, ghost level: nat)
      returns (lines: seq<Line>, ghost rest': Out)
      requires node != child && ValidEnv(env) && Showing(env, show, node, child, rest, level) && !child.data.Null?
      modifies this, neighbors, neighbors.Repr, node, child
      ensures fresh(neighbors.Repr - old(neighbors.Repr))
      ensures Showing(env, show, node, child, rest', level)
      ensures ShowingEnds(node, child, rest', level)
      ensures |rest'.ts| < |rest.ts| && rest'.g == rest.g
      ensures FlattenAll(rest.ts, depth) == lines + FlattenAll(rest'.ts, depth)
      decreases level, 0
    {
      ghost var s := Step(state, node.data, child.data);
      lines := TreeR(env, depth, show, child);
      ChildShown(env, show, s, rest, level, child.data, depth);
      rest' := Pending(show, env, state, node.data, child.data);
      ShowNext(env, show, node, child, level);
    }

    /** The dump loop over all has printed lines and still has rest to show. */
    ghost predicate Looping(env: Env, show: bool, node: DbNode, child: DbNode, all: Out, rest: Out, lines: seq<Line>,
                            depth: nat, level: nat)
      requires ValidEnv(env)
      reads this, neighbors, neighbors.Repr, node, child
    {
      && Showing(env, show, node, child, rest, level) && ShowingEnds(node, child, rest, level)
      && rest.g == all.g && FlattenAll(all.ts, depth) == lines + FlattenAll(rest.ts, depth)
    }

    method ShowTurn(env: Env, depth: nat, show: bool, node: DbNode, child: DbNode, lines: seq<Line>,
                    ghost all: Out, ghost rest: Out, ghost level: nat)
      returns (lines': seq<Line>, ghost rest': Out)
      requires node != child && ValidEnv(env) && !child.data.Null?
      requires Looping(env, show, node, child, all, rest, lines, depth, level)
      modifies this, neighbors, neighbors.Repr, node, child
      ensures fresh(neighbors.Repr - old(neighbors.Repr))
      ensures Looping(env, show, node, child, all, rest', lines', depth, level) && |rest'.ts| < |rest.ts|
      decreases level, 1
    {
      var below;
      below, rest' := ShowOne(env, depth, show, node, child, rest, level);
      lines' := lines + below;
      assert lines + (below + FlattenAll(rest'.ts, depth)) == lines' + FlattenAll(rest'.ts, depth);
    }

    /** shell_cmds.c:115-121, the while loop. */
    method ShowRest(env: Env, depth: nat, show: bool, node: DbNode, child: DbNode, ghost all: Out, ghost level: nat)
      returns (lines: seq<Line>)
      requires node != child && ValidEnv(env)
      requires Showing(env, show, node, child, all, level) && ShowingEnds(node, child, all, level)
      modifies this, neighbors, neighbors.Repr, node, child
      ensures Valid() && fresh(neighbors.Repr - old(neighbors.Repr))
      ensures lines == FlattenAll(all.ts, depth) && state == all.g && Depth(node.data) <= level
      decreases level, 2
    {
      lines := [];
      ghost var rest := all;
      assert [] + FlattenAll(all.ts, depth) == FlattenAll(all.ts, depth);
      while !child.data.Null?
        invariant Looping(env, show, node, child, all, rest, lines, depth, level)
        invariant fresh(neighbors.Repr - old(neighbors.Repr))
        decreases |rest.ts|
      {
        lines, rest := ShowTurn(env, depth, show, node, child, lines, all, rest, level);
      }
      assert lines + [] == lines;
    }

    /** shell_cmds.c:113-121, the children of an inner node. */
    method ShowChildren(env: Env, depth: nat, show: bool, node: DbNode) returns (lines: seq<Line>)
      requires ValidEnv(env) && Valid() && Named(env, state, node.data) && TypeOf(env, state, node.data).InnerType?
      modifies this, neighbors, neighbors.Repr, node
      ensures Valid() && fresh(neighbors.Repr - old(neighbors.Repr))
      ensures var o := Pending(show, env, old(state), old(node.data), Null);
              lines == FlattenAll(o.ts, depth) && state == o.g
      ensures Depth(node.data) <= Depth(old(node.data))
      decreases Depth(node.data), 3
    {
      ghost var all, level := Pending(show, env, state, node.data, Null), Depth(node.data);
      var child := ShowFirst(env, show, node);
      lines := ShowRest(env, depth, show, node, child, all, level);
    }

    // ----- requests -----

    /** shell_cmds.c:42-72, once the node has been found. */
    method AnswerNode(env: Env, node: DbNode) returns (reply: Reply)
      requires ValidEnv(env) && Valid() && Named(env, state, node.data)
      modifies this, neighbors, neighbors.Repr, node
      ensures Valid() && fresh(neighbors.Repr - old(neighbors.Repr))
      ensures (reply, state) == Answer(env, old(state), old(node.data))
    {
      var t := GetType(env, node);
      if IsLeaf(t) {
        var v := GetValue(env, node);
        reply := Contents(v);
      } else {
        var names := ListChildren(env, node);
        reply := Children(names);
      }
    }

    /** shell_cmds.c:28-75 (and coap.c:78-112): look a path up, then list it or read it. */
    method QueryPath(env: Env, path: string) returns (reply: Reply)
      requires ValidEnv(env) && Valid()
      modifies this, neighbors, neighbors.Repr
      ensures Valid() && fresh(neighbors.Repr - old(neighbors.Repr))
      ensures (reply, state) == Handle(env, old(state), Query(path))
    {
      var node := new DbNode();
      var r := FindNodeByPath(env, path, node);
      if r < 0 {
        return Missing;
      }
      reply := AnswerNode(env, node);
    }

    /** shell_cmds.c:126-145: dcadump shows the whole declarative tree. */
    method DumpDatabase(env: Env) returns (lines: seq<Line>)
      requires ValidEnv(env) && Valid()
      modifies this, neighbors, neighbors.Repr
      ensures Valid() && fresh(neighbors.Repr - old(neighbors.Repr))
      ensures lines == Flatten(Database(true, env, old(state)), 0)
      ensures Prints(lines, Database(true, env, old(state)), 0)
      ensures PrintsNothingElse(lines, Database(true, env, old(state)))
      ensures forall k :: 0 <= k < |lines| && lines[k].FileLine? ==> lines[k].value.Some?
      ensures state == BranchesFrom(true, env, old(state), 0).g
    {
      var node := new DbNode();
      assert Components("/") == [];
      var r := FindNodeByPath(env, "/", node);
      FlattenPrints(Database(true, env, state), 0);
      ContentsShown(true, env, state);
      lines := TreeR(env, 0, true, node);
    }

    /** latency.c:392-397 and udp_throughput.c:210-215 */
    method RecordWrite(w: Write)
      requires Valid()
      modifies this, neighbors, neighbors.Repr
      ensures Valid() && fresh(neighbors.Repr - old(neighbors.Repr))
      ensures state == old(state).(table := Apply(old(state).table, w))
    {
      RecordKeepsGood(state, w);
      match w {
        case Latency(a, latency, loss) => neighbors.RecordLatency(a, latency, loss);
        case Throughput(a, rate) => neighbors.RecordThroughput(a, rate);
        case Discover(a) => neighbors.AddNeighbor(a);
      }
      state := state.(table := neighbors.Contents());
    }

    method Serve(call: Call) returns (reply: Reply)
      requires ValidEnv(call.env) && Valid()
      modifies this, neighbors, neighbors.Repr
      ensures Valid() && fresh(neighbors.Repr - old(neighbors.Repr))
      ensures (reply, state) == Handle(call.env, old(state), call.req)
    {
      match call.req {
        case Query(path) => reply := QueryPath(call.env, path);
        case DumpAll =>
          var lines := DumpDatabase(call.env);
          reply := Shown(lines);
        case Record(w) =>
          RecordWrite(w);
          reply := Stored;
      }
    }
  }
}
