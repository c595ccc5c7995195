/**
 Files that stay open while other requests run.  A file keeps its node, but which field a ps or
 netif node stands for is in the shared counts, so a later read may be of another field.
 */
module OpenFiles {
  import opened NeighborTable
  import opened DbModel
  import opened DumpSpec
  import opened DumpTheorems
  import opened Lookup
  import opened PathTheorems
  import opened LookupTheorems
  import opened NetifLookup
  import opened Requests
  import opened RequestTheorems
  import opened DcaFs

  // ----- when an open file still reads the field it was opened on -----

  /** Reading the process node gives field f of the process, whatever system it is. */
  ghost predicate ReadsProcessField(g: Globals, pid: nat, f: int)
    requires Good(g)
  {
    forall env :: ValidEnv(env) && Alive(env, pid) ==>
      ReadValue(env, g, Ps(pid, 0)).0 == PsValue(env.threads[pid].value, pid, f)
  }

  /** A thread whose five fields are all different. */
  function Distinctive(pid: nat): Thread {
    Thread("main", "running", pid + 1, pid + 5, 2)
  }

  lemma FieldsDiffer(pid: nat, f: int, k: int)
    requires 0 <= f < PS_COUNT && 0 <= k < PS_COUNT && f != k
    ensures PsValue(Distinctive(pid), pid, f) != PsValue(Distinctive(pid), pid, k)
  {
  }

  /** An open process file reads the field it was opened on exactly when _field_count is what it was
      then; otherwise it reads the field the count is at. */
  lemma ProcessFileKeepsIff(g: Globals, pid: nat, f: int)
    requires Good(g) && 0 <= f < PS_COUNT
    ensures ReadsProcessField(g, pid, g.ps)
    ensures ReadsProcessField(g, pid, f) <==> g.ps == f
  {
    if g.ps != f {
      var th := Distinctive(pid);
      var env := Env([], seq(pid + 2, _ => Some(th)), [], []);
      assert ValidEnv(env) && Alive(env, pid);
      FieldsDiffer(pid, f, g.ps);
      assert ReadValue(env, g, Ps(pid, 0)).0 == PsValue(th, pid, g.ps);
    }
  }

  /** Reading the interface node gives plain field f of the interface, whatever system it is. */
  ghost predicate ReadsIfaceField(g: Globals, i: nat, f: int)
    requires Good(g) && 0 <= f < 4
  {
    forall env :: ValidEnv(env) && i < |env.ifaces| ==>
      IsLeaf(TypeOf(env, g, Netif(i, 2))) && ReadValue(env, g, Netif(i, 2)).0 == PlainValue(env.ifaces[i], f)
  }

  function DistinctiveIface(): Iface {
    Iface(1, "eth", "fe80::1", true, [])
  }

  lemma PlainValuesDiffer(f: int, k: int)
    requires 0 <= f < 4 && 0 <= k < 4 && f != k
    ensures PlainValue(DistinctiveIface(), f) != PlainValue(DistinctiveIface(), k)
  {
    assert |"fe80::1"| != |"wired"|;
  }

  /** An open interface file reads the field it was opened on exactly when _netif_field_count is what
      it was then.  At count 4 it is a directory. */
  lemma IfaceFileKeepsIff(g: Globals, i: nat, f: int)
    requires Good(g) && 0 <= f < 4
    ensures g.field < 4 ==> ReadsIfaceField(g, i, g.field)
    ensures ReadsIfaceField(g, i, f) <==> g.field == f
  {
    if g.field != f {
      var env := Env([], [None, Some(Distinctive(1))], seq(i + 1, _ => DistinctiveIface()), []);
      assert ValidEnv(env) && i < |env.ifaces|;
      if g.field < 4 {
        PlainValuesDiffer(f, g.field);
        assert ReadValue(env, g, Netif(i, 2)).0 == PlainValue(env.ifaces[i], g.field);
      }
    }
  }

  /** Static entries and device classes keep no count: their files always read the same. */
  lemma FixedFileKeeps(env: Env, g: Globals, g': Globals, n: Node)
    requires Good(g) && Good(g') && Held(env, n) && (n.Fl? || n.Saul?)
    ensures TypeOf(env, g, n) == TypeOf(env, g', n)
    ensures IsLeaf(TypeOf(env, g, n)) ==> ReadValue(env, g, n).0 == ReadValue(env, g', n).0 && ReadValue(env, g, n).1 == g
  {
  }

  /** A file opened on a neighbour's field reads that field of the same entry as long as the counts
      and the list stand; after a dump of netif it is a string, the address at the head of the list. */
  lemma NeighborFileAfterDump(env: Env, g: Globals, i: nat)
    requires ValidEnv(env) && Good(g) && i < |env.ifaces|
    ensures var h := DynamicOut(true, env, g, NetifBranch).1;
            && TypeOf(env, h, Netif(i, 0)).StrType?
            && (h.table != [] ==>
                  Defined(h, Netif(i, 0)) && ReadValue(env, h, Netif(i, 0)) == (StrValue(h.table[0].addr), h))
  {
    IfacesLeave(env, g.(field := 0, sub := 1), 0);
  }

  /** Two requests on which it shows: a file opened on the stack use of a process reads its pid after
      a query for that pid, which itself is missed. */
  lemma StackFileReadsPid(env: Env, pre: seq<string>, pid: nat)
    requires ValidEnv(env) && pre != [] && Plain(pre) && Find(env, BOOT, pre).node == Some(Ps(pid, 1))
    ensures var f := Find(env, BOOT, pre + [PsFieldName(4)]);
            var (reply, h) := Handle(env, f.g, FieldQuery(pre, 0));
            && f.node == Some(Ps(pid, 0)) && Alive(env, pid)
            && ReadValue(env, f.g, Ps(pid, 0)).0 == PsValue(env.threads[pid].value, pid, 4)
            && reply == Missing
            && ReadValue(env, h, Ps(pid, 0)).0 == IntValue(pid)
  {
    PsFieldOnce(env, BOOT, BOOT, pre, pid, 4);
    FieldQueryAnswer(env, BOOT, Find(env, BOOT, pre + [PsFieldName(4)]).g, pre, pid, 0);
  }

  // ----- seeking to the end of a file -----

  /** The size of any link type file is 4, and its text is longer: a seek to the end stops inside it,
      and a read from there is not the end of the file. */
  lemma LinkTypeIsCutShort(env: Env, g: Globals, pre: seq<string>, i: nat, n: nat)
    requires ValidEnv(env) && Good(g) && Find(env, g, pre).node == Some(Netif(i, 3)) && n > 0
    ensures var f := Find(env, g, pre + ["Link type"]);
            && f.node == Some(Netif(i, 2)) && i < |env.ifaces|
            && IsLeaf(TypeOf(env, f.g, Netif(i, 2))) && SizeOf(env, f.g, Netif(i, 2)) == 4
            && ReadValue(env, f.g, Netif(i, 2)).0 == StrValue(if env.ifaces[i].wired then "wired" else "wireless")
            && Chunk(if env.ifaces[i].wired then "wired" else "wireless", 4, n) != ""
  {
    IfaceFieldAlwaysFound(env, g, pre, i, 2);
  }
}
