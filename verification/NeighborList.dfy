/**
 linked_list.c on the heap: cells linked through next, updated in place.

 Contents() is the table as a value; every operation is proved against NeighborTable.
 */
module NeighborList {
  import opened NeighborTable

  class Cell {
    var addr: Addr
    var latency: nat
    var loss: nat
    var throughput: nat
    var next: Cell?

    constructor (e: Entry)
      ensures Value() == e && next == null
    {
      addr, latency, loss, throughput := e.addr, e.latency, e.loss, e.throughput;
      next := null;
    }

    ghost function Value(): Entry
      reads this
    {
      Entry(addr, latency, loss, throughput)
    }
  }

  /** The cell at a position of the chain, null past its end. */
  ghost function At(cells: seq<Cell>, i: nat): Cell? {
    if i < |cells| then cells[i] else null
  }

  class Table {
    var head: Cell?
    ghost var cells: seq<Cell>  // the cells reached from head, in order
    ghost var Repr: set<Cell>  // the cells, as a frame

    ghost predicate Valid()
      reads this, Repr
    {
      && (forall i :: 0 <= i < |cells| ==> cells[i] in Repr)
      && (forall i, j :: 0 <= i < j < |cells| ==> cells[i] != cells[j])
      && head == At(cells, 0)
      && (forall i {:trigger cells[i].next} :: 0 <= i < |cells| ==> cells[i].next == At(cells, i + 1))
    }

    ghost function Contents(): (r: seq<Entry>)
      reads this, cells
      ensures |r| == |cells| && forall i :: 0 <= i < |r| ==> r[i] == cells[i].Value()
    {
      seq(|cells|, i requires 0 <= i < |cells| reads this, cells => cells[i].Value())
    }

    constructor ()
      ensures Valid() && fresh(Repr) && Contents() == []
    {
      head, cells, Repr := null, [], {};
    }

    /** linked_list.c:18-27 */
    method Insert(node: Cell)
      requires Valid() && node !in cells
      modifies this, node
      ensures Valid() && cells == [node] + old(cells) && Repr == old(Repr) + {node}
      ensures Contents() == [old(node.Value())] + old(Contents())
    {
      node.next := head;
      head := node;
      cells, Repr := [node] + cells, Repr + {node};
      forall i | 0 < i < |cells|
        ensures cells[i].next == At(cells, i + 1)
      {
        assert cells[i] == old(cells)[i - 1];
      }
    }

    /** linked_list.c:81-95: 0 when the address is present, 1 when it is not. */
    method NodeExists(a: Addr) returns (r: int)
      requires Valid()
      ensures r == if a in Addrs(Contents()) then 0 else 1
    {
      ghost var i := 0;
      var ptr := head;
      while ptr != null
        invariant 0 <= i <= |cells|
        invariant ptr == At(cells, i)
        invariant forall j :: 0 <= j < i ==> cells[j].addr != a
        decreases |cells| - i
      {
        if ptr.addr == a {
          assert Contents()[i].addr == a;
          return 0;
        }
        ptr := ptr.next;
        i := i + 1;
      }
      return 1;
    }

    /** linked_list.c:97-111: throughput, address and links are left alone. */
    method UpdateLatency(node: Cell) returns (r: int)
      requires Valid() && node !in cells
      modifies cells
      ensures Valid() && unchanged(this)
      ensures r == if node.addr in Addrs(old(Contents())) then 0 else 1
      ensures r == 0 ==> Contents() == Apply(old(Contents()), Latency(node.addr, node.latency, node.loss))
      ensures r == 1 ==> Contents() == old(Contents())
    {
      ghost var i := 0;
      var ptr := head;
      while ptr != null
        invariant 0 <= i <= |cells|
        invariant ptr == At(cells, i)
        invariant forall j :: 0 <= j < i ==> cells[j].addr != node.addr
        invariant unchanged(cells)
        decreases |cells| - i
      {
        if ptr.addr == node.addr {
          assert old(Contents())[i].addr == node.addr;
          assert IndexOf(old(Contents()), node.addr) == i;
          ptr.latency := node.latency;
          ptr.loss := node.loss;
          return 0;
        }
        ptr := ptr.next;
        i := i + 1;
      }
      return 1;
    }

    /** linked_list.c:113-126 */
    method UpdateThroughput(node: Cell) returns (r: int)
      requires Valid() && node !in cells
      modifies cells
      ensures Valid() && unchanged(this)
      ensures r == if node.addr in Addrs(old(Contents())) then 0 else 1
      ensures r == 0 ==> Contents() == Apply(old(Contents()), Throughput(node.addr, node.throughput))
      ensures r == 1 ==> Contents() == old(Contents())
    {
      ghost var i := 0;
      var ptr := head;
      while ptr != null
        invariant 0 <= i <= |cells|
        invariant ptr == At(cells, i)
        invariant forall j :: 0 <= j < i ==> cells[j].addr != node.addr
        invariant unchanged(cells)
        decreases |cells| - i
      {
        if ptr.addr == node.addr {
          assert old(Contents())[i].addr == node.addr;
          assert IndexOf(old(Contents()), node.addr) == i;
          ptr.throughput := node.throughput;
          return 0;
        }
        ptr := ptr.next;
        i := i + 1;
      }
      return 1;
    }

    /** The pointer walk shared by linked_list.c:36-39 and linked_list.c:56-59.  The loop follows
        next without a test, so the walk must stay on cells that exist. */
    method Walk(num: nat) returns (ptr: Cell?)
      requires Valid() && head != null && Position(num) <= |cells|
      ensures ptr == At(cells, Position(num))
    {
      ptr := head;
      var i := 0;
      while i < num - 1
        invariant 0 <= i <= Position(num)
        invariant ptr == At(cells, i)
      {
        ptr := ptr.next;
        i := i + 1;
      }
    }

    /** linked_list.c:29-46.  The buffer is left alone when there is nothing to read. */
    method ReadIp(num: nat, buf: string) returns (r: int, addr: string)
      requires Valid() && (head != null ==> Position(num) <= |cells|)
      ensures r == if Position(num) < |Contents()| then 0 else 1
      ensures addr == if r == 0 then Contents()[Position(num)].addr else buf
    {
      if head == null {
        return 1, buf;
      }
      var ptr := Walk(num);
      if ptr != null {
        return 0, ptr.addr;
      }
      return 1, buf;
    }

    /** linked_list.c:48-79 */
    method Read(sub: int, num: nat) returns (value: nat)
      requires Valid() && (head != null ==> Position(num) <= |cells|)
      ensures value == ReadField(Contents(), sub, num)
    {
      if head == null {
        return 1;
      }
      value := 1;
      var ptr := Walk(num);
      if ptr != null {
        assert Contents()[Position(num)] == ptr.Value();
        match sub {
          case 2 => value := ptr.latency;
          case 3 => value := ptr.loss;
          case 4 => value := ptr.throughput;
          case _ =>
        }
      }
    }

    /** netif.c:589-602 */
    method AddNeighbor(a: Addr)
      requires Valid()
      modifies this, Repr
      ensures Valid() && fresh(Repr - old(Repr))
      ensures Contents() == Apply(old(Contents()), Discover(a))
    {
      IndexOfPresent(Contents(), a);
      var absent := NodeExists(a);
      if absent != 0 {
        var node := new Cell(Blank(a));
        Insert(node);
      }
    }

    /** latency.c:354-397, the table part: update in place when present, insert when not. */
    method RecordLatency(a: Addr, latency: nat, loss: nat)
      requires Valid()
      modifies this, Repr
      ensures Valid() && fresh(Repr - old(Repr))
      ensures Contents() == Apply(old(Contents()), Latency(a, latency, loss))
    {
      IndexOfPresent(Contents(), a);
      var node := new Cell(Entry(a, latency, loss, 0));
      var absent := NodeExists(a);
      if absent == 0 {
        var _ := UpdateLatency(node);
      } else {
        Insert(node);
      }
    }

    /** udp_throughput.c:148-215, the table part. */
    method RecordThroughput(a: Addr, rate: nat)
      requires Valid()
      modifies this, Repr
      ensures Valid() && fresh(Repr - old(Repr))
      ensures Contents() == Apply(old(Contents()), Throughput(a, rate))
    {
      IndexOfPresent(Contents(), a);
      var node := new Cell(Entry(a, 0, 0, rate));
      var absent := NodeExists(a);
      if absent == 0 {
        var _ := UpdateThroughput(node);
      } else {
        Insert(node);
      }
    }
  }
}
