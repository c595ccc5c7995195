/**
 The value of every leaf, said of the system and the list directly: without the conversions, the
 positional reads and the field tables by which the value is computed.
 */
module Values {
  import opened NeighborTable
  import opened DbModel

  /** A latency of the list in microseconds of a round trip, shown in milliseconds one way: a 32-bit
      word is taken as signed, and divided by 2000 toward zero. */
  ghost predicate ShowsLatency(raw: nat, v: Value) {
    v.FloatValue? &&
    var word, q := raw % 0x1_0000_0000, v.f.Floor;
    && v.f == q as real
    && if word < 0x8000_0000 then 2000 * q <= word < 2000 * (q + 1)
       else 2000 * (q - 1) < word - 0x1_0000_0000 <= 2000 * q
  }

  /** A loss or throughput of the list, shown as it is: a 32-bit word taken as signed. */
  ghost predicate ShowsWord(raw: nat, v: Value) {
    v.FloatValue? &&
    var word := raw % 0x1_0000_0000;
    v.f == (if word < 0x8000_0000 then word else word - 0x1_0000_0000) as real
  }

  /** Field sub of the entry at the current position; a read past the list answers 1. */
  ghost predicate ShowsQos(table: seq<Entry>, num: nat, sub: int, v: Value) {
    var i := if num == 0 then 0 else num - 1;
    if i >= |table| then (if sub == 2 then ShowsLatency(1, v) else ShowsWord(1, v))
    else if sub == 2 then ShowsLatency(table[i].latency, v)
    else if sub == 3 then ShowsWord(table[i].loss, v)
    else ShowsWord(table[i].throughput, v)
  }

  ghost predicate ProcessValue(th: Thread, pid: nat, k: int, v: Value) {
    && (k == 0 ==> v == IntValue(pid))
    && (k == 1 ==> v == StrValue(th.status))
    && (k == 2 ==> v == IntValue(th.priority))
    && (k == 3 ==> v == IntValue(th.stackSize))
    && (k == 4 ==> v == IntValue(th.stackSize - th.stackFree))
  }

  ghost predicate IfaceValue(i: Iface, k: int, v: Value) {
    && (k == 0 ==> v == IntValue(i.id))
    && (k == 1 ==> v == StrValue(i.addr))
    && (k == 2 ==> v == StrValue(if i.wired then "wired" else "wireless"))
    && (k == 3 ==> v == IntValue(|i.cache| % 256))
  }

  /** What a read of the node has to give, with the counts as they stand. */
  ghost predicate HasValue(env: Env, g: Globals, n: Node, v: Value)
    requires Held(env, n)
  {
    match n
    case Fl(fl, j, top) => !top ==> v == env.index[fl].statics[j].value
    case Ps(pid, level) => level == 0 ==> ProcessValue(env.threads[pid].value, pid, g.ps, v)
    case Saul(dev, level) => level == 0 ==> v == StrValue(env.devices[dev].cls)
    case Netif(i, level) =>
      if level > 2 then true
      else if level == 0 && 2 <= g.sub <= 4 && g.field != 0 && g.field != 3 then ShowsQos(g.table, g.num, g.sub, v)
      else IfaceValue(env.ifaces[i], g.field, v)
    case _ => true
  }

  lemma LatencyIsShown(raw: nat)
    ensures ShowsLatency(raw, QosNumber(raw, 2))
  {
    var x := Int32(raw);
    var q := TruncDiv(x, 2000);
    assert (q as real).Floor == q;
    if x >= 0 {
      assert x == 2000 * (x / 2000) + x % 2000;
    } else {
      assert -x == 2000 * (-x / 2000) + -x % 2000;
    }
  }

  lemma WordIsShown(raw: nat, sub: int)
    requires sub != 2
    ensures ShowsWord(raw, QosNumber(raw, sub))
  {
  }

  lemma QosIsShown(table: seq<Entry>, num: nat, sub: int)
    requires 2 <= sub <= 4
    ensures ShowsQos(table, num, sub, QosNumber(ReadField(table, sub, num), sub))
  {
    var raw := ReadField(table, sub, num);
    LatencyIsShown(raw);
    if sub != 2 {
      WordIsShown(raw, sub);
    }
  }

  /** Whatever leaf is read, in whatever state, it gives that value. */
  lemma LeafHasValue(env: Env, g: Globals, n: Node)
    requires ValidEnv(env) && Good(g) && Held(env, n) && Defined(g, n) && IsLeaf(TypeOf(env, g, n))
    ensures HasValue(env, g, n, ReadValue(env, g, n).0)
  {
    if n.Netif? && n.level == 0 && 2 <= g.sub <= 4 {
      QosIsShown(g.table, g.num, g.sub);
    }
  }
}
