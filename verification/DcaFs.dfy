/**
 fs.c: the database as a read-only file system.  A file keeps a node and a position; every read
 formats the node's whole value again and copies one slice of it.
 */
module DcaFs {
  import opened NeighborTable
  import opened DbModel
  import opened Values
  import opened CursorDump
  import opened Lookup
  import opened DcaDatabase

  const EFAULT := 14
  const EINVAL := 22
  const EROFS := 30
  const DCAFS_MAX_STR_LEN := 128
  const DB_NODE_NAME_MAX := 30
  const STATUS_LENGTH := 88

  datatype Whence = SeekSet | SeekCur | SeekEnd | OtherWhence

  // ----- the bytes of a value -----

  /** strncpy: at most n characters, filled up with NULs. */
  function Padded(s: string, n: nat): (r: string)
    ensures |r| == n
  {
    if |s| >= n then s[..n] else s + seq(n - |s|, _ => '\0')
  }

  /** ps.c:359-363: a process status is copied into the first 30 bytes of the buffer, and 88 are
      answered as its length whatever it is, so the rest is what the buffer held. */
  function StatusBytes(s: string, buf: string): (r: string)
    requires |buf| == DCAFS_MAX_STR_LEN
    ensures |r| == STATUS_LENGTH
  {
    Padded(s, DB_NODE_NAME_MAX) + buf[DB_NODE_NAME_MAX..STATUS_LENGTH]
  }

  /** fs.c:217-238: what one read has in its buffer.  format stands for the printing of a number, buf
      for what the buffer held before. */
  function FileBytes(n: Node, v: Value, format: Value -> string, buf: string): string
    requires |buf| == DCAFS_MAX_STR_LEN
  {
    match v
    case StrValue(s) => if n.Ps? then StatusBytes(s, buf) else s
    case _ => format(v)
  }

  ghost predicate Buffers(bufs: seq<string>) {
    forall i :: 0 <= i < |bufs| ==> |bufs[i]| == DCAFS_MAX_STR_LEN
  }

  /** What each of several reads of the same value has in its buffer. */
  ghost function AllBytes(n: Node, v: Value, format: Value -> string, bufs: seq<string>): (datas: seq<string>)
    requires Buffers(bufs)
    ensures |datas| == |bufs| && forall i :: 0 <= i < |bufs| ==> datas[i] == FileBytes(n, v, format, bufs[i])
  {
    seq(|bufs|, i requires 0 <= i < |bufs| => FileBytes(n, v, format, bufs[i]))
  }

  /** The bytes one read copies. */
  function Chunk(data: string, pos: nat, n: nat): string {
    if pos >= |data| then ""
    else if n > |data| - pos then data[pos..]
    else data[pos..pos + n]
  }

  function Concat(pieces: seq<string>): string {
    if pieces == [] then "" else Concat(pieces[..|pieces| - 1]) + pieces[|pieces| - 1]
  }

  function SumOf(sizes: seq<nat>): nat {
    if sizes == [] then 0 else SumOf(sizes[..|sizes| - 1]) + sizes[|sizes| - 1]
  }

  /** The position after reads of total bytes from pos on, of a value of the given length. */
  function EndOf(length: nat, pos: nat, total: nat): nat {
    if pos >= length then pos else if total > length - pos then length else pos + total
  }

  // ----- reading again gives the same value -----

  lemma DiscoverKnown(table: seq<Entry>, a: Addr)
    requires a in Addrs(table)
    ensures Apply(table, Discover(a)) == table
  {
    IndexOfPresent(table, a);
  }

  lemma {:induction false} DiscoverAllKnown(table: seq<Entry>, ws: seq<Write>)
    requires forall i :: 0 <= i < |ws| ==> ws[i].Discover? && ws[i].addr in Addrs(table)
    ensures ApplyAll(table, ws) == table
  {
    if ws != [] {
      DiscoverAllKnown(table, ws[..|ws| - 1]);
      DiscoverKnown(table, ws[|ws| - 1].addr);
    }
  }

  /** Whatever leaf is open, also num_neighbours with its side effect: reading it twice in a row
      gives the same value, and the second read changes nothing. */
  lemma ReadAgain(env: Env, g: Globals, n: Node)
    requires ValidEnv(env) && Good(g) && Held(env, n) && Defined(g, n) && IsLeaf(TypeOf(env, g, n))
    ensures var (v, g') := ReadValue(env, g, n);
            Good(g') && Defined(g', n) && IsLeaf(TypeOf(env, g', n)) && ReadValue(env, g', n) == (v, g')
  {
    ReadKeepsGood(env, g, n);
    if n.Netif? && g.field == 3 {
      var cache := env.ifaces[n.iface].cache;
      var ws := Discoveries(cache);
      DiscoveryCoversCache(g.table, cache);
      DiscoverAllKnown(ApplyAll(g.table, ws), ws);
    }
  }

  /** Reading the node gives v. */
  ghost predicate Reads(env: Env, g: Globals, n: Node, v: Value) {
    && ValidEnv(env) && Good(g) && Held(env, n) && Defined(g, n) && IsLeaf(TypeOf(env, g, n))
    && ReadValue(env, g, n).0 == v
  }

  class DcaFile {
    var pos: nat
    const node: DbNode

    constructor (node: DbNode)
      ensures this.node == node && pos == 0
    {
      this.node := node;
      pos := 0;
    }

    /** fs.c:187-205 */
    static method Open(dca: Dca, env: Env, name: string, readOnly: bool) returns (r: int, file: DcaFile?)
      requires ValidEnv(env) && dca.Valid()
      modifies dca
      ensures dca.Valid()
      ensures !readOnly ==> r == -EROFS && dca.state == old(dca.state) && file == null
      ensures readOnly ==>
                var f := Find(env, old(dca.state), Components(name));
                && dca.state == f.g
                && r == (if f.node.Some? then 0 else -ENOENT)
                && (r == 0 ==> file != null && fresh(file) && fresh(file.node) && file.pos == 0 && file.node.data == f.node.value)
    {
      file := null;
      if !readOnly {
        return -EROFS, file;
      }
      var node := new DbNode();
      r := dca.FindNodeByPath(env, name, node);
      if r == 0 {
        file := new DcaFile(node);
      }
    }

    /** fs.c:165-185 */
    method Lseek(dca: Dca, env: Env, off: int, whence: Whence) returns (r: int)
      requires dca.Valid() && Held(env, node.data)
      modifies this`pos
      ensures var target := match whence
                            case SeekSet => off
                            case SeekCur => off + old(pos)
                            case SeekEnd => off + SizeOf(env, dca.state, node.data)
                            case OtherWhence => -1;
              if target < 0 then r == -EINVAL && pos == old(pos) else r == pos == target
    {
      var target := off;
      match whence {
        case SeekSet =>
        case SeekCur => target := off + pos;
        case SeekEnd =>
          var size := dca.GetSize(env, node);
          target := off + size;
        case OtherWhence => return -EINVAL;
      }
      if target < 0 {
        return -EINVAL;
      }
      pos := target;
      return target;
    }

    /** fs.c:207-251 */
    method Read(dca: Dca, env: Env, format: Value -> string, buf: string, nbytes: nat) returns (r: int, bytes: string)
      requires ValidEnv(env) && dca.Valid() && Held(env, node.data) && Defined(dca.state, node.data)
      requires |buf| == DCAFS_MAX_STR_LEN
      modifies this`pos, dca, dca.neighbors, dca.neighbors.Repr
      ensures dca.Valid() && fresh(dca.neighbors.Repr - old(dca.neighbors.Repr))
      ensures if IsLeaf(TypeOf(env, old(dca.state), node.data)) then
                var (v, g') := ReadValue(env, old(dca.state), node.data);
                && dca.state == g' && bytes == Chunk(FileBytes(node.data, v, format, buf), old(pos), nbytes)
                && r == |bytes| && pos == old(pos) + |bytes|
              else r == -EFAULT && bytes == "" && dca.state == old(dca.state) && pos == old(pos)
    {
      bytes := "";
      var t := dca.GetType(env, node);
      if !IsLeaf(t) {
        return -EFAULT, bytes;
      }
      var v := dca.GetValue(env, node);
      var data := FileBytes(node.data, v, format, buf);
      if pos >= |data| {
        return 0, bytes;
      }
      var n := nbytes;
      if n > |data| - pos {
        n := |data| - pos;
      }
      bytes := data[pos..pos + n];
      pos := pos + n;
      return n, bytes;
    }

    /** The first i of several reads have been done; datas is what their buffers hold. */
    ghost predicate Reading(dca: Dca, env: Env, v: Value, datas: seq<string>, start: nat, sizes: seq<nat>, i: nat,
                            pieces: seq<string>)
      requires |datas| == |sizes|
      reads this, node, dca, dca.neighbors, dca.neighbors.Repr
    {
      dca.Valid() && Reads(env, dca.state, node.data, v) && Progress(datas, start, sizes, i, pos, pieces)
    }

    method ReadOne(dca: Dca, env: Env, format: Value -> string, bufs: seq<string>, sizes: seq<nat>, i: nat,
                   pieces: seq<string>, ghost v: Value, ghost start: nat)
      returns (pieces': seq<string>)
      requires Buffers(bufs) && |bufs| == |sizes| && i < |sizes|
      requires Reading(dca, env, v, AllBytes(node.data, v, format, bufs), start, sizes, i, pieces)
      modifies this`pos, dca, dca.neighbors, dca.neighbors.Repr
      ensures fresh(dca.neighbors.Repr - old(dca.neighbors.Repr))
      ensures Reading(dca, env, v, AllBytes(node.data, v, format, bufs), start, sizes, i + 1, pieces')
    {
      ReadAgain(env, dca.state, node.data);
      SameLength(node.data, v, format, bufs);
      PiecesNext(AllBytes(node.data, v, format, bufs), start, sizes, i, pos, pieces);
      var r, bytes := Read(dca, env, format, bufs[i], sizes[i]);
      return pieces + [bytes];
    }

    method ReadPieces(dca: Dca, env: Env, format: Value -> string, bufs: seq<string>, sizes: seq<nat>, ghost v: Value)
      returns (pieces: seq<string>)
      requires dca.Valid() && Buffers(bufs) && |bufs| == |sizes| && Reads(env, dca.state, node.data, v)
      modifies this`pos, dca, dca.neighbors, dca.neighbors.Repr
      ensures dca.Valid() && fresh(dca.neighbors.Repr - old(dca.neighbors.Repr))
      ensures pieces == Pieces(AllBytes(node.data, v, format, bufs), old(pos), sizes) && pos == old(pos) + |Concat(pieces)|
    {
      ghost var datas, start := AllBytes(node.data, v, format, bufs), pos;
      pieces := [];
      var i := 0;
      while i < |sizes|
        invariant 0 <= i <= |sizes| && Reading(dca, env, v, datas, start, sizes, i, pieces)
        invariant fresh(dca.neighbors.Repr - old(dca.neighbors.Repr))
      {
        pieces := ReadOne(dca, env, format, bufs, sizes, i, pieces, v, start);
        i := i + 1;
      }
      assert sizes[..i] == sizes && datas[..i] == datas;
    }

    /** Any number of reads of any sizes, one after the other; bufs is what their buffers held. */
    method ReadAll(dca: Dca, env: Env, format: Value -> string, bufs: seq<string>, sizes: seq<nat>)
      returns (pieces: seq<string>)
      requires ValidEnv(env) && dca.Valid() && Held(env, node.data) && Defined(dca.state, node.data)
      requires IsLeaf(TypeOf(env, dca.state, node.data)) && Buffers(bufs) && |bufs| == |sizes|
      modifies this`pos, dca, dca.neighbors, dca.neighbors.Repr
      ensures dca.Valid() && fresh(dca.neighbors.Repr - old(dca.neighbors.Repr))
      ensures var v := ReadValue(env, old(dca.state), node.data).0;
              pieces == Pieces(AllBytes(node.data, v, format, bufs), old(pos), sizes)
      ensures pos == old(pos) + |Concat(pieces)|
      ensures var v := ReadValue(env, old(dca.state), node.data).0;
              && HasValue(env, old(dca.state), node.data, v)
              && (old(pos) == 0 && Covers(node.data, v, format, SumOf(sizes)) ==> IsText(node.data, v, format, Concat(pieces)))
    {
      ghost var v := ReadValue(env, dca.state, node.data).0;
      LeafHasValue(env, dca.state, node.data);
      WholeText(node.data, v, format, bufs, sizes);
      pieces := ReadPieces(dca, env, format, bufs, sizes, v);
    }
  }

  // ----- what a sequence of reads returns -----

  /** All the buffers hold the same number of bytes: a read's length does not depend on the buffer. */
  ghost predicate Even(datas: seq<string>, length: nat) {
    forall i :: 0 <= i < |datas| ==> |datas[i]| == length
  }

  ghost function LengthOf(datas: seq<string>): nat {
    if datas == [] then 0 else |datas[0]|
  }

  lemma SameLength(n: Node, v: Value, format: Value -> string, bufs: seq<string>)
    requires Buffers(bufs)
    ensures var datas := AllBytes(n, v, format, bufs);
            Even(datas, LengthOf(datas))
  {
  }

  /** One piece per read: the bytes at the position the earlier reads have reached. */
  ghost function Pieces(datas: seq<string>, pos: nat, sizes: seq<nat>): (pieces: seq<string>)
    requires |datas| == |sizes|
    ensures |pieces| == |sizes|
    decreases |sizes|
  {
    if sizes == [] then []
    else
      var k := |sizes| - 1;
      Pieces(datas[..k], pos, sizes[..k]) + [Chunk(datas[k], EndOf(|datas[k]|, pos, SumOf(sizes[..k])), sizes[k])]
  }

  /** The first i reads have been done. */
  ghost predicate Progress(datas: seq<string>, start: nat, sizes: seq<nat>, i: nat, pos: nat, pieces: seq<string>)
    requires |datas| == |sizes|
  {
    && i <= |sizes| && pieces == Pieces(datas[..i], start, sizes[..i])
    && pos == start + |Concat(pieces)|
    && (datas != [] ==> pos == EndOf(LengthOf(datas), start, SumOf(sizes[..i])))
  }

  lemma EndOfMoves(data: string, pos: nat, total: nat, n: nat)
    ensures EndOf(|data|, pos, total + n) == EndOf(|data|, pos, total) + |Chunk(data, EndOf(|data|, pos, total), n)|
  {
  }

  lemma PiecesNext(datas: seq<string>, start: nat, sizes: seq<nat>, i: nat, pos: nat, pieces: seq<string>)
    requires |datas| == |sizes| && Even(datas, LengthOf(datas)) && i < |sizes|
    requires Progress(datas, start, sizes, i, pos, pieces)
    ensures var piece := Chunk(datas[i], pos, sizes[i]);
            Progress(datas, start, sizes, i + 1, pos + |piece|, pieces + [piece])
  {
    assert sizes[..i + 1][..i] == sizes[..i] && datas[..i + 1][..i] == datas[..i];
    EndOfMoves(datas[i], start, SumOf(sizes[..i]), sizes[i]);
    ConcatLast(pieces, Chunk(datas[i], pos, sizes[i]));
  }

  /** Every buffer that was read from has this character at position q. */
  ghost predicate AllHave(datas: seq<string>, q: nat, c: char) {
    forall i :: 0 <= i < |datas| ==> q < |datas[i]| && datas[i][q] == c
  }

  lemma ConcatLast(pieces: seq<string>, last: string)
    ensures Concat(pieces + [last]) == Concat(pieces) + last
  {
    assert (pieces + [last])[..|pieces|] == pieces;
  }

  lemma {:induction false} PiecesReach(datas: seq<string>, pos: nat, sizes: seq<nat>, length: nat)
    requires |datas| == |sizes| && Even(datas, length)
    ensures pos + |Concat(Pieces(datas, pos, sizes))| == EndOf(length, pos, SumOf(sizes))
    decreases |sizes|
  {
    if sizes != [] {
      var k := |sizes| - 1;
      var before := SumOf(sizes[..k]);
      PiecesReach(datas[..k], pos, sizes[..k], length);
      EndOfMoves(datas[k], pos, before, sizes[k]);
      ConcatLast(Pieces(datas[..k], pos, sizes[..k]), Chunk(datas[k], EndOf(length, pos, before), sizes[k]));
    }
  }

  /** Put together, the pieces are the bytes from the starting position on, as far as the sizes and
      the value reach: none is skipped, repeated or moved, even when the buffers differ elsewhere. */
  lemma {:induction false} PiecesAreConsecutive(datas: seq<string>, pos: nat, sizes: seq<nat>, length: nat, x: nat, c: char)
    requires |datas| == |sizes| && Even(datas, length) && x < |Concat(Pieces(datas, pos, sizes))|
    requires AllHave(datas, pos + x, c)
    ensures Concat(Pieces(datas, pos, sizes))[x] == c
    decreases |sizes|
  {
    var k := |sizes| - 1;
    var init := Pieces(datas[..k], pos, sizes[..k]);
    var at := EndOf(length, pos, SumOf(sizes[..k]));
    ConcatLast(init, Chunk(datas[k], at, sizes[k]));
    PiecesReach(datas[..k], pos, sizes[..k], length);
    if x < |Concat(init)| {
      PiecesAreConsecutive(datas[..k], pos, sizes[..k], length, x, c);
    } else {
      assert Chunk(datas[k], at, sizes[k])[x - |Concat(init)|] == datas[k][pos + x];
    }
  }

  /** When every buffer holds the same bytes, which is so for everything but a process status: */
  lemma PiecesOfOne(data: string, datas: seq<string>, pos: nat, sizes: seq<nat>)
    requires |datas| == |sizes| && forall i :: 0 <= i < |datas| ==> datas[i] == data
    ensures Concat(Pieces(datas, pos, sizes)) == Chunk(data, pos, SumOf(sizes))
  {
    var all := Concat(Pieces(datas, pos, sizes));
    PiecesReach(datas, pos, sizes, |data|);
    forall x | 0 <= x < |all|
      ensures all[x] == Chunk(data, pos, SumOf(sizes))[x]
    {
      PiecesAreConsecutive(datas, pos, sizes, |data|, x, data[pos + x]);
    }
  }

  /** Reading a status: 88 bytes in all, of which the first 30 are the status and NULs. */
  lemma StatusPieces(n: Node, s: string, format: Value -> string, bufs: seq<string>, pos: nat, sizes: seq<nat>)
    requires n.Ps? && Buffers(bufs) && |bufs| == |sizes|
    ensures var all := Concat(Pieces(AllBytes(n, StrValue(s), format, bufs), pos, sizes));
            && pos + |all| == EndOf(STATUS_LENGTH, pos, SumOf(sizes))
            && forall x :: 0 <= x < |all| && pos + x < DB_NODE_NAME_MAX ==> all[x] == Padded(s, DB_NODE_NAME_MAX)[pos + x]
  {
    var datas := AllBytes(n, StrValue(s), format, bufs);
    var all := Concat(Pieces(datas, pos, sizes));
    PiecesReach(datas, pos, sizes, STATUS_LENGTH);
    forall x | 0 <= x < |all| && pos + x < DB_NODE_NAME_MAX
      ensures all[x] == Padded(s, DB_NODE_NAME_MAX)[pos + x]
    {
      PiecesAreConsecutive(datas, pos, sizes, STATUS_LENGTH, x, Padded(s, DB_NODE_NAME_MAX)[pos + x]);
    }
  }

  /** No read returns more than it was asked for. */
  lemma {:induction false} PiecesFit(datas: seq<string>, pos: nat, sizes: seq<nat>)
    requires |datas| == |sizes|
    ensures forall i :: 0 <= i < |sizes| ==> |Pieces(datas, pos, sizes)[i]| <= sizes[i]
    decreases |sizes|
  {
    if sizes != [] {
      var k := |sizes| - 1;
      PiecesFit(datas[..k], pos, sizes[..k]);
    }
  }

  /** How many bytes there are to read from a position, which may lie past the end. */
  function Left(length: nat, pos: nat): nat {
    if pos <= length then length - pos else 0
  }

  lemma LastPiece(datas: seq<string>, pos: nat, sizes: seq<nat>, data: string, n: nat)
    requires |datas| == |sizes|
    ensures Pieces(datas + [data], pos, sizes + [n])[|sizes|] == Chunk(data, EndOf(|data|, pos, SumOf(sizes)), n)
  {
    assert (sizes + [n])[..|sizes|] == sizes && (datas + [data])[..|sizes|] == datas;
  }

  /** A further read of a positive size returns nothing exactly when the sizes asked for so far cover
      what there was to read, and then as many bytes have been returned. */
  lemma EndOfFileIff(datas: seq<string>, pos: nat, sizes: seq<nat>, data: string, n: nat)
    requires |datas| == |sizes| && Even(datas, |data|) && n > 0
    ensures Pieces(datas + [data], pos, sizes + [n])[|sizes|] == "" <==> SumOf(sizes) >= Left(|data|, pos)
    ensures SumOf(sizes) >= Left(|data|, pos) ==> |Concat(Pieces(datas, pos, sizes))| == Left(|data|, pos)
  {
    LastPiece(datas, pos, sizes, data, n);
    PiecesReach(datas, pos, sizes, |data|);
  }

  lemma {:induction false} PositiveSizesAddUp(sizes: seq<nat>)
    requires forall i :: 0 <= i < |sizes| ==> sizes[i] > 0
    ensures SumOf(sizes) >= |sizes|
  {
    if sizes != [] {
      PositiveSizesAddUp(sizes[..|sizes| - 1]);
    }
  }

  /** Reading on with positive sizes ends: as many reads as there are bytes left return exactly those
      bytes, from any position, and every further read answers end of file. */
  lemma ReadsReachTheEnd(data: string, datas: seq<string>, pos: nat, sizes: seq<nat>, n: nat)
    requires |datas| == |sizes| && forall i :: 0 <= i < |datas| ==> datas[i] == data
    requires |sizes| >= Left(|data|, pos) && (forall i :: 0 <= i < |sizes| ==> sizes[i] > 0)
    ensures Concat(Pieces(datas, pos, sizes)) == if pos <= |data| then data[pos..] else ""
    ensures Pieces(datas + [data], pos, sizes + [n])[|sizes|] == ""
  {
    PositiveSizesAddUp(sizes);
    LastPiece(datas, pos, sizes, data, n);
    PiecesOfOne(data, datas, pos, sizes);
  }

  // ----- the text of a value -----

  /** The bytes are the text of the value: a string itself, a number as it is printed, and of a process
      status 88 bytes, the first 30 of which are the status and NULs after it. */
  ghost predicate IsText(n: Node, v: Value, format: Value -> string, bytes: string) {
    match v
    case StrValue(s) =>
      if n.Ps? then |bytes| == 88 && forall x :: 0 <= x < 30 ==> bytes[x] == if x < |s| then s[x] else '\0'
      else bytes == s
    case _ => bytes == format(v)
  }

  /** So many bytes asked for are enough for the text of the value. */
  ghost predicate Covers(n: Node, v: Value, format: Value -> string, total: nat) {
    match v
    case StrValue(s) => total >= if n.Ps? then 88 else |s|
    case _ => total >= |format(v)|
  }

  lemma StatusText(n: Node, s: string, format: Value -> string, bufs: seq<string>, sizes: seq<nat>)
    requires n.Ps? && Buffers(bufs) && |bufs| == |sizes| && SumOf(sizes) >= 88
    ensures IsText(n, StrValue(s), format, Concat(Pieces(AllBytes(n, StrValue(s), format, bufs), 0, sizes)))
  {
    var all := Concat(Pieces(AllBytes(n, StrValue(s), format, bufs), 0, sizes));
    StatusPieces(n, s, format, bufs, 0, sizes);
    assert |all| == 88;
    forall x | 0 <= x < 30
      ensures all[x] == if x < |s| then s[x] else '\0'
    {
      assert all[x] == Padded(s, DB_NODE_NAME_MAX)[x];
    }
  }

  lemma PlainText(n: Node, v: Value, format: Value -> string, text: string, bufs: seq<string>, sizes: seq<nat>)
    requires Buffers(bufs) && |bufs| == |sizes| && SumOf(sizes) >= |text|
    requires forall i :: 0 <= i < |bufs| ==> FileBytes(n, v, format, bufs[i]) == text
    ensures Concat(Pieces(AllBytes(n, v, format, bufs), 0, sizes)) == text
  {
    PiecesOfOne(text, AllBytes(n, v, format, bufs), 0, sizes);
    assert Chunk(text, 0, SumOf(sizes)) == text;
  }

  /** Reads that start at the beginning and ask for enough return the text of the value, whatever the
      sizes and the buffers. */
  lemma WholeText(n: Node, v: Value, format: Value -> string, bufs: seq<string>, sizes: seq<nat>)
    requires Buffers(bufs) && |bufs| == |sizes|
    ensures Covers(n, v, format, SumOf(sizes)) ==>
              IsText(n, v, format, Concat(Pieces(AllBytes(n, v, format, bufs), 0, sizes)))
  {
    if Covers(n, v, format, SumOf(sizes)) {
      match v
      case StrValue(s) =>
        if n.Ps? {
          StatusText(n, s, format, bufs, sizes);
        } else {
          PlainText(n, v, format, s, bufs, sizes);
        }
      case _ => PlainText(n, v, format, format(v), bufs, sizes);
    }
  }

  // ----- seeking to the end -----

  /** Seeking to the end leads to the end of what a read returns: for a string, always for the static
      entries and the interface address, never for a process status and the link type, and for a
      device class only when it is empty; for a number, when its text is as long as the number is
      wide, or, for num_neighbours, the interface number and the throughput, as long as the text of
      the interface address. */
  lemma SizeIsLengthIff(env: Env, g: Globals, n: Node, format: Value -> string, buf: string)
    requires ValidEnv(env) && Good(g) && Named(env, g, n) && IsLeaf(TypeOf(env, g, n))
    requires |buf| == DCAFS_MAX_STR_LEN
    ensures var v := ReadValue(env, g, n).0;
            SizeOf(env, g, n) == |FileBytes(n, v, format, buf)| <==>
            match v
            case StrValue(s) =>
              (match n
               case Ps(_, _) => false
               case Saul(_, _) => s == ""
               case Netif(_, _) => g.field == 1
               case _ => true)
            case _ => |format(v)| == if SizedAsAddress(g, n) then |env.ifaces[n.iface].addr| else 4
  {
  }

  /** The sizes the nodes answer, kind by kind: nothing for most directories and for a device class, two
      bytes for netif and an interface, four for what is taken for a number, which a process status and
      the link type are too, and the length of the text for static strings and the interface address. */
  lemma NodeSizes(env: Env, g: Globals, n: Node)
    requires Good(g) && Named(env, g, n)
    ensures n.Root? || n.Saul? ==> SizeOf(env, g, n) == 0
    ensures n.Fl? && n.top ==> SizeOf(env, g, n) == 0
    ensures n.Fl? && !n.top ==>
              SizeOf(env, g, n) == match env.index[n.fl].statics[n.subIdx].value case StrValue(s) => |s| case _ => 4
    ensures n.Ps? ==> SizeOf(env, g, n) == if n.level == 0 then 4 else 0
    ensures n.Netif? && n.level >= 3 ==> SizeOf(env, g, n) == 2
    ensures n.Netif? && n.level == 2 ==> SizeOf(env, g, n) == if g.field == 2 then 4 else |env.ifaces[n.iface].addr|
    ensures n.Netif? && n.level == 1 ==> SizeOf(env, g, n) == |env.ifaces[n.iface].addr|
    ensures n.Netif? && n.level == 0 ==> SizeOf(env, g, n) == if g.sub == 2 || g.sub == 3 then 4 else |env.ifaces[n.iface].addr|
  {
  }

  /** Numbers to which netif.c:454-457 gives the size of the interface address. */
  predicate SizedAsAddress(g: Globals, n: Node) {
    n.Netif? && (n.level == 2 || (n.level == 0 && g.sub == QOS_COUNT))
  }

  /** The size of a number is its width exactly unless it is one of these and the address is not as
      wide by chance. */
  lemma NumberSizeIff(env: Env, g: Globals, n: Node)
    requires Good(g) && Named(env, g, n) && (TypeOf(env, g, n).IntType? || TypeOf(env, g, n).FloatType?)
    ensures SizeOf(env, g, n) == 4 <==> SizedAsAddress(g, n) ==> |env.ifaces[n.iface].addr| == 4
  {
  }
}
