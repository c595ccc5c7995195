/**
 The database as values: what the operating system offers during one request (Env), what the
 file-level variables hold (Globals), what a db_node_t holds (Node), and what one call of each
 node operation does to them.  DcaDatabase.dfy runs the same operations on mutable nodes.
 */
module DbModel {
  import opened NeighborTable

  datatype Option<+T> = None | Some(value: T)

  datatype Value = IntValue(i: int) | FloatValue(f: real) | StrValue(s: string)

  datatype NodeType = NullType | InnerType | IntType | FloatType | StrType

  // ----- what a request sees of the system -----

  datatype StaticEntry = StaticEntry(name: string, value: Value)

  datatype Dynamic = PsBranch | SaulBranch | NetifBranch

  datatype Branch = Branch(name: string, statics: seq<StaticEntry>, dynamics: seq<Dynamic>)

  datatype Thread = Thread(name: string, status: string, priority: int, stackSize: int, stackFree: int)

  datatype Device = Device(name: string, cls: string)

  datatype Iface = Iface(id: int, name: string, addr: string, wired: bool, cache: seq<Addr>)

  /** db_index, sched_threads (indexed by pid), the interfaces in netif_iter order and the SAUL
      registry.  An interface or device pointer is an index; the length stands for NULL. */
  datatype Env = Env(index: seq<Branch>, threads: seq<Option<Thread>>, ifaces: seq<Iface>, devices: seq<Device>)

  const KERNEL_PID_FIRST := 1
  const PS_COUNT := 5
  const SAUL_COUNT := 1
  const NETIF_COUNT := 5
  const QOS_COUNT := 4

  ghost predicate ValidEnv(env: Env) {
    && |env.index| <= 255
    && (forall b :: 0 <= b < |env.index| ==> |env.index[b].statics| + |env.index[b].dynamics| <= 255)
    && |env.threads| > KERNEL_PID_FIRST && env.threads[KERNEL_PID_FIRST].Some?
    && (forall i :: 0 <= i < |env.ifaces| ==> DistinctAddrs(env.ifaces[i].cache))
  }

  // ----- state -----

  /** _field_count of ps.c, _saul_field_count, the three variables of netif.c, the neighbour list. */
  datatype Globals = Globals(ps: int, saul: int, field: int, sub: int, num: nat, table: seq<Entry>)

  /** The initial values of the variables, and the empty list. */
  const BOOT := Globals(0, 0, 0, 1, 0, [])

  /** A db_node_t: the ops pointer selects the constructor, the rest is its private data. */
  datatype Node =
    | Null
    | Root(idx: nat)
    | Fl(fl: nat, subIdx: nat, top: bool)
    | Ps(pid: nat, level: int)
    | Saul(dev: nat, level: int)
    | Netif(iface: nat, level: int)

  ghost predicate Good(g: Globals) {
    && 0 <= g.ps < PS_COUNT
    && g.saul == 0
    && 0 <= g.field < NETIF_COUNT
    && 1 <= g.sub <= 5
    && g.num <= 255 && g.num <= |g.table|
    && Distinct(g.table)
  }

  predicate Alive(env: Env, pid: nat) {
    pid < |env.threads| && env.threads[pid].Some?
  }

  function Total(b: Branch): nat {
    |b.statics| + |b.dynamics|
  }

  /** Some branch from number from on has this dynamic entry. */
  ghost predicate Lists(env: Env, from: nat, d: Dynamic) {
    exists fl :: from <= fl < |env.index| && d in env.index[fl].dynamics
  }

  /** A node that a cursor can hand out: it may be named, typed, read or descended into. */
  ghost predicate Named(env: Env, g: Globals, n: Node) {
    match n
    case Null => false
    case Root(idx) => idx <= |env.index|
    case Fl(fl, subIdx, top) =>
      fl < |env.index| && if top then subIdx <= Total(env.index[fl]) else subIdx < |env.index[fl].statics|
    case Ps(pid, level) =>
      if level == 2 then Alive(env, pid) || pid == |env.threads| else (level == 1 || level == 0) && Alive(env, pid)
    case Saul(dev, level) =>
      if level == 2 then dev <= |env.devices| else (level == 1 || level == 0) && dev < |env.devices|
    case Netif(iface, level) =>
      if level == 4 then iface <= |env.ifaces| && g.sub == 1
      else if level == 3 || level == 2 then iface < |env.ifaces| && g.sub == 1
      else
        && (level == 1 || level == 0)
        && iface < |env.ifaces| && g.field == 4 && g.num >= 1
        && if level == 1 then g.sub == 2 else 2 <= g.sub <= 4
  }

  /** What a node itself holds is in range, whatever has become of the counts since it was handed out:
      it may be typed, sized and, as a leaf, read. */
  ghost predicate Held(env: Env, n: Node) {
    match n
    case Null => false
    case Root(idx) => idx <= |env.index|
    case Fl(fl, subIdx, top) =>
      fl < |env.index| && if top then subIdx <= Total(env.index[fl]) else subIdx < |env.index[fl].statics|
    case Ps(pid, level) => if level == 2 then pid <= |env.threads| else (level == 1 || level == 0) && Alive(env, pid)
    case Saul(dev, level) =>
      if level == 2 then dev <= |env.devices| else (level == 1 || level == 0) && dev < |env.devices|
    case Netif(iface, level) => if level == 4 then iface <= |env.ifaces| else 0 <= level <= 3 && iface < |env.ifaces|
  }

  /** A node whose next child may be asked for, given what the child variable holds.  The ps and
      netif cursors leave the child variable unwritten on some calls, so it has to be theirs. */
  ghost predicate Iterable(env: Env, g: Globals, n: Node, child: Node) {
    match n
    case Null => false
    case Root(_) => Named(env, g, n)
    case Fl(_, _, _) => Named(env, g, n)
    case Ps(pid, level) =>
      if level == 0 then pid <= |env.threads| && child.Ps? && child.level == 0 && Named(env, g, child)
      else Named(env, g, n)
    case Saul(dev, level) => if level == 0 then dev <= |env.devices| else Named(env, g, n)
    case Netif(iface, level) =>
      if level == 4 || level == 3 then Named(env, g, n)
      else if level == 2 then
        && iface <= |env.ifaces| && g.sub == 1
        && (g.field < 4 ==> child.Netif? && child.level == 2 && Named(env, g, child))
      else if level == 1 then iface < |env.ifaces| && g.field == 4 && g.num >= 1
      else
        && level == 0 && iface < |env.ifaces| && g.field == 4 && g.num >= 1 && 2 <= g.sub <= 4
        && child.Netif? && child.level == 0 && Named(env, g, child)
  }

  /** A byte counter after k increments. */
  function ByteCount(k: nat): (b: nat)
    ensures b < 256
  {
    if k == 0 then 0 else if ByteCount(k - 1) == 255 then 0 else ByteCount(k - 1) + 1
  }

  lemma ByteStep(x: nat)
    ensures (x + 1) % 256 == if x % 256 == 255 then 0 else x % 256 + 1
  {
    var q, r := x / 256, x % 256;
    assert x + 1 == if r == 255 then 256 * (q + 1) else 256 * q + (r + 1);
  }

  lemma ByteNext(k: nat)
    ensures (ByteCount(k) + 1) % 256 == ByteCount(k + 1)
  {
  }

  lemma {:induction false} ByteCountWraps(k: nat)
    ensures ByteCount(k) == k % 256
  {
    if k > 0 {
      ByteCountWraps(k - 1);
      ByteStep(k - 1);
    }
  }

  // ----- one call of db_node_get_next_child -----

  /** State after a call: the globals, the node (advanced in place) and the child variable. */
  datatype Step = Step(g: Globals, node: Node, child: Node)

  /** ps.c:102-117 */
  function NextPid(env: Env, pid: nat): (r: nat)
    requires pid < |env.threads|
    ensures pid < r <= |env.threads|
    ensures r < |env.threads| ==> Alive(env, r)
    ensures forall q :: pid < q < r ==> !Alive(env, q)
    decreases |env.threads| - pid
  {
    if pid + 1 == |env.threads| then |env.threads|
    else if env.threads[pid + 1].Some? then pid + 1
    else NextPid(env, pid + 1)
  }

  /** db.c:123-135 */
  function RootNext(env: Env, g: Globals, n: Node): Step
    requires n.Root?
  {
    if n.idx < |env.index| then Step(g, Root((n.idx + 1) % 256), Fl(n.idx, 0, true))
    else Step(g, n, Null)
  }

  /** The constructors ps.c:119-124, saul_devices.c:76-83 and netif.c:111-119. */
  function Create(g: Globals, d: Dynamic): (Globals, Node) {
    match d
    case PsBranch => (g, Ps(KERNEL_PID_FIRST, 2))
    case SaulBranch => (g, Saul(0, 2))
    case NetifBranch => (g.(field := 0, sub := 1), Netif(0, 4))
  }

  /** db_fl.c:84-118 */
  function FlNext(env: Env, g: Globals, n: Node): Step
    requires n.Fl? && n.fl < |env.index| && (n.top ==> n.subIdx <= Total(env.index[n.fl]))
  {
    var b := env.index[n.fl];
    if !n.top then Step(g, n, Null)
    else if n.subIdx < |b.statics| then
      Step(g, n.(subIdx := (n.subIdx + 1) % 256), Fl(n.fl, n.subIdx, false))
    else
      var dyn := (n.subIdx - |b.statics|) % 256;
      if dyn < |b.dynamics| then
        var (g', child) := Create(g, b.dynamics[dyn]);
        Step(g', n.(subIdx := (n.subIdx + 1) % 256), child)
      else Step(g, n, Null)
  }

  /** db_fl.c:120-150, the other way along: the next branch after a branch, the next static entry
      after a static entry.  The node asked is left as it is. */
  function FlSibling(env: Env, n: Node): Node
    requires n.Fl? && n.fl < |env.index|
  {
    if n.top then if n.fl + 1 < |env.index| then Fl((n.fl + 1) % 256, 0, true) else Null
    else
      var next := (n.subIdx + 1) % 256;
      if next < |env.index[n.fl].statics| then Fl(n.fl, next, false) else Null
  }

  /** ps.c:153-201 */
  function PsNext(env: Env, g: Globals, n: Node, child: Node): Step
    requires n.Ps?
  {
    if n.level == 2 then
      if n.pid < |env.threads| then Step(g, Ps(NextPid(env, n.pid), 2), Ps(n.pid, 1)) else Step(g, n, Null)
    else if n.level == 1 then
      if n.pid < |env.threads| && g.ps < PS_COUNT then Step(g, Ps(NextPid(env, n.pid), 0), Ps(n.pid, 0))
      else Step(g, n, child)
    else if g.ps == PS_COUNT - 1 then Step(g.(ps := 0), n, Null)
    else Step(g.(ps := g.ps + 1), n, child)
  }

  /** saul_devices.c:108-152 */
  function SaulNext(env: Env, g: Globals, n: Node, child: Node): Step
    requires n.Saul?
  {
    if n.level == 2 then
      if n.dev < |env.devices| then Step(g, Saul(n.dev + 1, 2), Saul(n.dev, 1)) else Step(g, n, Null)
    else if n.level == 1 then
      if n.dev < |env.devices| && g.saul < SAUL_COUNT then Step(g, Saul(n.dev + 1, 0), Saul(n.dev, 0))
      else Step(g, n, child)
    else if g.saul == SAUL_COUNT - 1 then Step(g.(saul := 0), n, Null)
    else Step(g.(saul := g.saul + 1), n, child)
  }

  /** netif.c:222-235 and again netif.c:254-267, with the decrement of an unsigned byte written
      out.  The source calls itself here; that call always takes the branch of netif.c:207-213. */
  function NextNeighbor(g: Globals, n: Node): Step
    requires n.Netif?
  {
    var g' := g.(num := (g.num - 1) % 256, sub := 1);
    if g'.num == 0 then Step(g', n, Null)
    else Step(g'.(sub := 2), Netif(n.iface, 1), Netif(n.iface, 1))
  }

  /** netif.c:152-271 */
  function NetifNext(env: Env, g: Globals, n: Node, child: Node): Step
    requires n.Netif?
  {
    if n.level == 4 then
      if n.iface < |env.ifaces| then Step(g, Netif(n.iface + 1, 4), Netif(n.iface, 3)) else Step(g, n, Null)
    else if n.level == 3 then
      if n.iface < |env.ifaces| && g.field < NETIF_COUNT then Step(g, Netif(n.iface + 1, 2), Netif(n.iface, 2))
      else Step(g, n, child)
    else if n.level == 2 then
      if g.field == NETIF_COUNT - 1 && n.iface < |env.ifaces| && g.num > 0 then
        Step(g.(sub := g.sub + 1), Netif(n.iface, 1), Netif(n.iface, 1))
      else if g.field < NETIF_COUNT - 1 then Step(g.(field := g.field + 1), n, child)
      else Step(g, n, Null)
    else if n.level == 1 then
      if g.num <= 0 then Step(g.(sub := 1), n, Null)
      else if g.sub == 1 then Step(g.(sub := g.sub + 1), n, Netif(n.iface, 1))
      else if g.sub < QOS_COUNT then Step(g, Netif(n.iface, 0), Netif(n.iface, 0))
      else NextNeighbor(g, n)
    else if g.sub < QOS_COUNT then Step(g.(sub := g.sub + 1), n, child)
    else if g.sub == QOS_COUNT && g.num != 0 then Step(g.(sub := g.sub + 1), n, Null)
    else NextNeighbor(g, n)
  }

  /** db_node.c:118-123 */
  function Next(env: Env, g: Globals, n: Node, child: Node): (s: Step)
    requires ValidEnv(env) && Good(g) && Iterable(env, g, n, child)
    ensures Good(s.g)
    ensures s.child.Null? || (Named(env, s.g, s.child) && Iterable(env, s.g, s.node, s.child))
  {
    match n
    case Root(_) => RootNext(env, g, n)
    case Fl(_, _, _) => FlNext(env, g, n)
    case Ps(_, _) => PsNext(env, g, n, child)
    case Saul(_, _) => SaulNext(env, g, n, child)
    case Netif(_, _) => NetifNext(env, g, n, child)
  }

  // ----- names, types and values -----

  function PsFieldName(k: int): string {
    match k
    case 0 => "pid"
    case 1 => "state"
    case 2 => "priority"
    case 3 => "total stack"
    case _ => "stack used"
  }

  function NetifFieldName(k: int): string {
    match k
    case 0 => "pid"
    case 1 => "inet6 addr"
    case 2 => "Link type"
    case 3 => "num_neighbours"
    case _ => "neighbours"
  }

  function QosName(sub: int): string {
    match sub
    case 2 => "latency"
    case 3 => "packet_loss"
    case _ => "throughput"
  }

  /** db_node_get_name, by the node's own name function. */
  function NameOf(env: Env, g: Globals, n: Node): string
    requires Good(g) && Named(env, g, n)
  {
    match n
    case Root(_) => "/"
    case Fl(fl, subIdx, top) => if top then env.index[fl].name else env.index[fl].statics[subIdx].name
    case Ps(pid, level) =>
      if level == 2 then "ps" else if level == 1 then env.threads[pid].value.name else PsFieldName(g.ps)
    case Saul(dev, level) => if level == 2 then "devices" else if level == 1 then env.devices[dev].name else "class"
    case Netif(iface, level) =>
      if level == 4 then "netif"
      else if level == 3 then env.ifaces[iface].name
      else if level == 2 then NetifFieldName(g.field)
      else if level == 1 then g.table[g.num - 1].addr
      else QosName(g.sub)
  }

  function ValueType(v: Value): NodeType {
    match v
    case IntValue(_) => IntType
    case FloatValue(_) => FloatType
    case StrValue(_) => StrType
  }

  /** netif.c:324-371, in the order of its tests. */
  function NetifType(field: int, sub: int, level: int): NodeType {
    if level == 4 then InnerType
    else if level == 3 then InnerType
    else if field == 0 || field == 3 then IntType
    else if level == 2 && field == 1 then StrType
    else if level == 2 && field == 2 then StrType
    else if level == 2 && field == 4 then InnerType
    else if level == 1 then InnerType
    else if sub == 2 || sub == 3 || sub == 4 then FloatType
    else StrType
  }

  /** db_node_get_type */
  function TypeOf(env: Env, g: Globals, n: Node): NodeType
    requires n.Null? || Held(env, n)
  {
    match n
    case Null => NullType
    case Root(_) => InnerType
    case Fl(fl, subIdx, top) => if top then InnerType else ValueType(env.index[fl].statics[subIdx].value)
    case Ps(_, level) => if level == 2 || level == 1 then InnerType else if g.ps == 1 then StrType else IntType
    case Saul(_, level) => if level == 2 || level == 1 then InnerType else StrType
    case Netif(_, level) => NetifType(g.field, g.sub, level)
  }

  /** The conversion of an unsigned 32-bit field to int32_t. */
  function Int32(x: nat): int {
    var w := x % 0x1_0000_0000;
    if w < 0x8000_0000 then w else w - 0x1_0000_0000
  }

  /** Division truncated toward zero, as the cast at netif.c:493 does. */
  function TruncDiv(x: int, d: int): int
    requires d > 0
  {
    if x >= 0 then x / d else -(-x / d)
  }

  /** netif.c:411-428 and 485-506, over exact arithmetic: what is made of the raw field read. */
  function QosNumber(raw: nat, sub: int): Value {
    FloatValue((if sub == 2 then TruncDiv(Int32(raw), 2000) else Int32(raw)) as real)
  }

  /** The named field of one list entry, as it is shown. */
  function QosValue(e: Entry, sub: int): Value {
    QosNumber(match sub case 2 => e.latency case 3 => e.loss case _ => e.throughput, sub)
  }

  function PsValue(t: Thread, pid: nat, k: int): Value {
    match k
    case 0 => IntValue(pid)
    case 1 => StrValue(t.status)
    case 2 => IntValue(t.priority)
    case 3 => IntValue(t.stackSize)
    case _ => IntValue(t.stackSize - t.stackFree)
  }

  function LinkType(i: Iface): string {
    if i.wired then "wired" else "wireless"
  }

  /** db_node_get_size: db.c:149-152, db_fl.c:168-194, ps.c:288-306, saul_devices.c:215-229 and
      netif.c:430-459, in the order of its tests, which take "Link type" for a number. */
  function SizeOf(env: Env, g: Globals, n: Node): nat
    requires Held(env, n)
  {
    match n
    case Root(_) => 0
    case Fl(fl, subIdx, top) =>
      if top then 0
      else
        (match env.index[fl].statics[subIdx].value
         case IntValue(_) => 4
         case FloatValue(_) => 4
         case StrValue(s) => |s|)
    case Ps(_, level) => if level == 2 || level == 1 then 0 else 4
    case Saul(_, _) => 0
    case Netif(iface, level) =>
      if level == 4 || level == 3 then 2
      else if level == 2 && g.field == 2 then 4
      else if level == 0 && g.sub < QOS_COUNT then 4
      else |env.ifaces[iface].addr|
  }

  /** netif.c:571-581: reading num_neighbours walks the cache, counts it in a byte and adds the
      unknown addresses to the neighbour list. */
  function CountNeighbors(g: Globals, i: Iface): Globals {
    g.(num := |i.cache| % 256, table := ApplyAll(g.table, Discoveries(i.cache)))
  }

  predicate IsLeaf(t: NodeType) {
    t.IntType? || t.FloatType? || t.StrType?
  }

  /** netif.c:461-483 writes the string it is asked for.  It does not below a neighbour once the
      sub-field count has run past the fields, nor for the address of a neighbour in an empty list. */
  predicate Defined(g: Globals, n: Node) {
    n.Netif? && n.level == 0 && g.field == 4 ==> g.sub != 5 && (g.sub == 1 ==> g.table != [])
  }

  /** The value read of a leaf, and the globals after the read.  The value always has the type the
      node announces, so the assertions of db_node.c:150-166 hold. */
  function ReadValue(env: Env, g: Globals, n: Node): (r: (Value, Globals))
    requires Good(g) && Held(env, n) && Defined(g, n) && IsLeaf(TypeOf(env, g, n))
    ensures ValueType(r.0) == TypeOf(env, g, n)
  {
    match n
    case Fl(fl, subIdx, _) => (env.index[fl].statics[subIdx].value, g)
    case Ps(pid, _) => (PsValue(env.threads[pid].value, pid, g.ps), g)
    case Saul(dev, _) => (StrValue(env.devices[dev].cls), g)
    case Netif(iface, level) =>
      var i := env.ifaces[iface];
      if g.field == 0 then (IntValue(i.id), g)
      else if g.field == 3 then var g' := CountNeighbors(g, i); (IntValue(g'.num), g')
      else if level == 0 && 2 <= g.sub <= 4 then (QosNumber(ReadField(g.table, g.sub, g.num), g.sub), g)
      else if g.field == 1 then (StrValue(i.addr), g)
      else if g.field == 2 then (StrValue(LinkType(i)), g)
      else (StrValue(g.table[Position(g.num)].addr), g)
  }
}
