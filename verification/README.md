# DCA, verified model

The DoRIoT Data Collection Agent offers a hierarchical read-only database that is walked through
stateful cursors, and two network measurements that fill a neighbour list shown by that database.
This project models both and proves what they do over every input, every run and every history of
requests.

The project has four connected parts.

1. **Cursors, dump and lookup.** `DbModel.dfy` holds the state as values: what the operating system
   offers during a request (`Env`), the file-level variables of `ps.c`, `saul_devices.c` and
   `netif.c` with the neighbour list (`Globals`), a `db_node_t` (`Node`), and one call of each node
   operation. `DcaDatabase.dfy` runs the same operations on mutable nodes and variables, as the C
   code does, and is proved against the values. `DumpSpec.dfy` writes the dumped tree down with no
   cursor in it; `CursorDump.dfy` proves that the cursors hand out exactly that tree, one child per
   call, from every point of an iteration. `Lookup.dfy`, `PathTheorems.dfy`,
   `LookupTheorems.dfy`, `NetifLookup.dfy` and `DumpedPaths.dfy` do the same for path lookup, and
   `Listings.dfy` for one-level listings. `DumpTheorems.dfy` gives the shape of the dump and
   `OwnNeighbors.dfy` whose neighbours it shows; `DumpLines.dfy` says where the line of each node
   stands. `Values.dfy` says the value of every leaf without the code's conversions, and
   `Replies.dfy` what each kind of request answers, by literal names; `Requests.dfy` and `RequestTheorems.dfy` state what
   holds over histories.
2. **Neighbour list.** `NeighborTable.dfy` (values) and `NeighborList.dfy` (cells on the heap).
3. **Echo measurement.** `EchoModel.dfy` (values, runs, final arithmetic) and `EchoRun.dfy` (the
   counters and the duplicate table updated in place, the receive loop, the queue drain).
4. **Files and throughput.** `DcaFs.dfy` (chunked reads), `OpenFiles.dfy` (files that stay open
   while other requests run) and `Throughput.dfy` (server and client as
   steps over an unreliable network).

Where the code and its own documentation disagree, the code is modelled.

- `include/doriot_dca/db_node.h:30-32` says each node contains its entire state and there are no
  side effects. The ps and netif cursors keep part of their position in file-level variables, so a
  lookup depends on the lookups before it; `LookupTheorems.PsFieldFoundIff` says exactly how, and
  `RequestTheorems.OneThreadMissesItsPid` is a system and two requests on which it shows.
- `README.md:64` says the quality-of-service data shows up under the respective netif device. The
  neighbour list is shared by all interfaces, read by position, and only the first one shows it, so
  even the first need not show its own neighbours: `OwnNeighbors.ShowsOwnNeighborsIff` says exactly
  when an interface does, and `OwnNeighbors.ForeignNeighborShown` is a system and two requests after
  which the first interface shows the neighbour of the second.
- The comment at `latency.c:140` speaks of all remaining messages. The loop bound shrinks as the
  loop runs, so it need not reach them all; `EchoRun.DrainsAllIff` gives the exact condition and
  `EchoRun.TwoPacketsLeaveOne` the shortest queue on which it fails.
- The percentage at `latency.c:374` is formed in an unsigned word and wraps for very long runs:
  `EchoModel.LossExactIff`, and `EchoModel.LossWrapsToZero` for the smallest silent run.
- `lseek` to the end relies on node sizes that are not the length of what is read, and reading a
  process status answers 88 bytes whatever the status: `DcaFs.SizeIsLengthIff` says exactly when the
  two agree, and `OpenFiles.LinkTypeIsCutShort` is a file on which they never do.
- A one-level listing of an interface is not its five fields when it is not the last one and a
  neighbour is pending: `Listings.IfaceListed`.
- Duplicate detection by a 512-slot ring is right without any assumption on delays exactly for at
  most 512 requests: `EchoModel.UpTo512Exact` and `EchoModel.MoreThan512NotExact`. The code sends 3.

Conditions on the system (`ValidEnv`): at most 255 branches and 255 entries per branch, because the
cursors are bytes (`DumpTheorems.RootWalkEndsIff` and `DumpTheorems.BranchWalkEndsIff`: up to these bounds, and
only up to them, the walks come to an end); the first process id is alive, which
`ps.c:140` asserts; the neighbour cache of an interface lists distinct addresses.

## Model

| member | source | states |
|---|---|---|
| `NeighborTable.AnyInterleaving` | linked_list.c:18-126 | any interleaving of latency results, throughput results and discoveries keeps the addresses distinct, loses none, and is the finite map of the same writes |
| `NeighborTable.PositionsShift` | linked_list.c:18-27 | old entries keep their order and move back by exactly the number of addresses seen for the first time |
| `NeighborTable.FieldsAreIndependent` | linked_list.c:97-126 | latency and loss are those of the last latency result, throughput that of the last throughput result, however they interleave |
| `NeighborTable.DiscoveryCoversCache` | netif.c:571-580 | after a count the list holds every cached address and is at least as long as the cache |
| `NeighborList.Table.Insert` | linked_list.c:18-27 | puts a cell in front of an acyclic chain; contents are the new entry followed by the old contents |
| `NeighborList.Table.NodeExists` | linked_list.c:81-95 | 0 exactly when the address is present |
| `NeighborList.Table.UpdateLatency` | linked_list.c:97-111 | updates latency and loss of the entry with that address in place, and nothing else |
| `NeighborList.Table.UpdateThroughput` | linked_list.c:113-126 | updates throughput of the entry with that address in place, and nothing else |
| `NeighborList.Table.ReadIp` | linked_list.c:29-46 | the address at a position, or the buffer untouched past the end |
| `NeighborList.Table.Read` | linked_list.c:48-79 | the named field at a position, 1 when there is none; needs the position to be at most one past the end because the walk does not test its links |
| `NeighborList.Table.AddNeighbor` | netif.c:589-602 | inserts an empty entry exactly for an unknown address |
| `NeighborList.Table.RecordLatency` | latency.c:392-397 | update in place when present, insert in front when not |
| `NeighborList.Table.RecordThroughput` | udp_throughput.c:210-215 | update in place when present, insert in front when not |
| `DbModel.Next` | db_node.c:118-123 | one call of next-child keeps every counter in range and the cursor iterable, and any child it leaves in place or hands out can be named and descended into |
| `DcaDatabase.Dca.RootNextChild` | db.c:123-135 | the in-place root cursor refines its value step |
| `DcaDatabase.Dca.FlNextChild` | db_fl.c:84-118 | the in-place first-level cursor refines its value step, with the constructors' side effects |
| `DcaDatabase.Dca.FlGetNext` | db_fl.c:120-150 | get-next of a first-level node writes its next sibling, and leaves the node alone |
| `DcaDatabase.Dca.GetNextPid` | ps.c:102-117 | the do-while scan finds the least live pid above the given one, or one past the last |
| `DcaDatabase.Dca.PsNextChild` | ps.c:153-201 | the in-place ps cursor refines its value step, also on calls that leave the child variable unwritten |
| `DcaDatabase.Dca.SaulNextChild` | saul_devices.c:108-152 | the in-place saul cursor refines its value step |
| `DcaDatabase.Dca.NetifNextChild` | netif.c:152-271 | the in-place netif cursor with its recursive call refines its value step |
| `DcaDatabase.Dca.GetNextChild` | db_node.c:118-123 | dispatch by ops pointer refines the value step and keeps the state valid |
| `DcaDatabase.Dca.CountCache` | netif.c:576-580 | counts the cache modulo 256 and discovers every address in it |
| `DbModel.ReadValue` | db_node.c:146-168 | the value read of any leaf has the type the node announces |
| `Values.LeafHasValue` | db_node.c:146-168 | whatever leaf is read, in whatever state: the value is the entry, thread field, device class, interface property or list field it stands for, said without the code's conversions |
| `DcaDatabase.Dca.GetIntValue` | ps.c:308-346 | the int value of a static entry, process field or interface field is the one modelled for that node and count |
| `DcaDatabase.Dca.GetFloatValue` | netif.c:485-506 | the positional read refines the value step, whose conversion is pinned by the two rows below |
| `Values.LatencyIsShown` | netif.c:411-415 | a latency below 2^31 shows the integer q with 2000 q <= latency < 2000 (q + 1); from 2^31 on the word less 2^32, divided toward zero |
| `Values.WordIsShown` | netif.c:418-429 | a loss or throughput below 2^31 shows itself, from 2^31 on less 2^32 |
| `DcaDatabase.Dca.GetValue` | db_node.c:170-209 | reads a leaf by its type, with the side effect of num_neighbours |
| `CursorDump.NextTurn` | db_node.c:118-123 | for every cursor and every point of an iteration: the call hands out the first pending tree and leaves the rest pending, and answers null exactly when nothing is pending |
| `DcaDatabase.Dca.TreeR` | shell_cmds.c:95-124 | the recursive dump terminates from every valid state; its lines are those of the declarative tree, the line of each node behind those of the nodes before it in preorder, with its depth, name and value, and it leaves the globals it names |
| `DcaDatabase.Dca.ShowRest` | shell_cmds.c:115-121 | the dump loop prints what was pending and ends with the globals after it |
| `DcaDatabase.Dca.DumpDatabase` | shell_cmds.c:126-145 | dcadump prints one line for every node of the database and nothing else, each at its place in preorder with its depth and name, and every leaf with its value |
| `DumpLines.FlattenPrints` | shell_cmds.c:95-124 | the line of the node at an index path has as many lines before it as there are nodes on the way and in the subtrees of their elder siblings; as many lines as nodes, and each line is that of some node |
| `DumpLines.LinesDiffer` | shell_cmds.c:95-124 | two nodes never share a line |
| `DumpLines.ContentsShown` | shell_cmds.c:103-105 | with contents every leaf line of the database carries a value, without them none does |
| `Replies.DumpReply` | shell_cmds.c:126-145 | from every state the answer to a dump is those lines, of a tree with a directory per branch, every static entry with its value and then what is shown for ps, saul and netif |
| `Replies.DumpShowsNeighbors` | netif.c:411-429 | from every state the dump shows the counted list entries from the highest position down, each with latency in milliseconds one way, loss and throughput |
| `Replies.BoardDump` | shell_cmds.c:86-124 | one branch with one integer entry, line by line |
| `DumpTheorems.NetifDumpShape` | netif.c:152-271 | from every state: the first interface shows pid, address, link type, num_neighbours = n and the list entries at positions n, .., 1 with their own three fields; later interfaces show an empty neighbours directory; no neighbour is left pending, sub-field count 1, field count 4 |
| `OwnNeighbors.ShowsOwnNeighborsIff` | netif.c:181-268 | from every state: the dump shows under an interface exactly the neighbours in its cache if and only if the cache is empty, or it is the first interface, they fit a byte, and no foreign address stands before one of them in the list |
| `OwnNeighbors.CountedAreCachedIff` | netif.c:571-580 | after a count the entries at the first positions are the cached addresses exactly when the cached entries came first before it |
| `OwnNeighbors.ForeignNeighborShown` | netif.c:181-268 | two interfaces with one neighbour each and one result for each: the first shows the neighbour of the second, the second none |
| `DumpTheorems.PsDumpShape` | ps.c:153-201 | from count k: exactly the live pids in strictly increasing order, five fields each, the first one shortened to fields k..4; the count ends at 0 |
| `DumpSpec.LivePidsExact` | ps.c:102-117 | the listed pids are exactly the live ones, strictly increasing |
| `DumpTheorems.RootWalkEndsIff` | db.c:123-135 | the byte-indexed root walk reaches null exactly when the table has at most 255 branches |
| `DumpTheorems.BranchWalkEndsIff` | db_fl.c:84-118 | the byte-indexed walk of a branch reaches null exactly when it has at most 255 static and dynamic entries together |
| `Lookup.RankDrops` | shell_cmds.c:53-58 | a measure drops on every call of next-child that does not answer null, also when the child variable is left unwritten |
| `DcaDatabase.Dca.ScanChildren` | db_node.c:89-96 | the do-while search stops at the first child whose name starts with the component, or at null |
| `DcaDatabase.Dca.FindNodeByPath` | db_node.c:59-109 | the nested loops over indices find the node, answer -ENOENT and leave the globals as the recursive lookup over components does |
| `PathTheorems.MemcmpIsPrefix` | db_node.c:96 | comparing the component's length against the name buffer is a prefix test, whatever follows the terminator |
| `PathTheorems.SlashOnlySeparates` | db_node.c:66-107 | the components of two paths joined by a slash are those of the one followed by those of the other |
| `PathTheorems.ExtraSlashesDoNotMatter` | db_node.c:66-107 | leading, trailing and doubled slashes change neither the node found nor the state left |
| `PathTheorems.JoinedNamesSplit` | db_node.c:66-107 | printing slash-free names as a path and splitting it gives the names back |
| `DumpedPaths.EveryDumpedPathIff` | shell_cmds.c:95-145 | after a dump from any state: the names under which it showed a node, in ps and netif too, lead a lookup to that node, its name, kind and value exactly when no elder sibling's name extends a name on the way; everything but the entries below neighbours |
| `DumpedPaths.PrintedPathAnswers` | shell_cmds.c:28-145 | the same for the printed path: asking for it after the dump answers the value that was shown |
| `DumpedPaths.NoDumpedNeighborIsFound` | netif.c:181-268 | and below neighbours: after a dump that showed an interface no path leads to a neighbour or a field of one |
| `LookupTheorems.DumpedPathFoundIff` | db_node.c:59-109 | the iff for nodes outside the ps and netif subtrees, with the dump and the lookup in any two states |
| `LookupTheorems.LookupAgreesWithDump` | db_node.c:59-109 | over arbitrary first-level tables, and for a dump and a lookup in any two states: the lookup of any path that stays outside ps and netif and its first-prefix resolution in the dumped tree fail together or end on the same node, with the name, kind and value shown there |
| `LookupTheorems.StaticFoundIff` | db_fl.c:84-118 | a static entry is found under its own two names exactly when no earlier branch or entry name extends them |
| `LookupTheorems.EntryFound` | db_node.c:59-109 | two components lead to the first entry extending the second, in the first branch extending the first, or nowhere |
| `LookupTheorems.ListsBranches` | db.c:123-135 | the root cursor lists every branch once, in order, and then null |
| `LookupTheorems.ListsEntries` | db_fl.c:84-118 | a branch cursor lists every static entry and then every dynamic entry once, in order, and then null |
| `Listings.ProcessListed` | shell_cmds.c:50-58 | listing a process prints its fields from the current count on, all five exactly when the count is 0, and leaves the count at 0 |
| `Listings.ListsProcesses` | ps.c:153-201 | the ps directory lists the live processes by increasing pid |
| `Listings.ListsDevices` | saul_devices.c:108-152 | the saul directory lists the devices in order |
| `Listings.IfaceListed` | netif.c:152-271 | from every state: listing an interface prints its five fields and, unless it is the last one or the count is 0, the neighbour at the current position with its three fields beside it |
| `Listings.ListsIfaces` | netif.c:158-171 | the netif directory lists the interfaces in order |
| `Listings.ListsNeighbors` | netif.c:181-268 | a neighbours directory lists the neighbour at the current position and then, beside it, its three fields, and no other neighbour |
| `LookupTheorems.ChainFollowsStatics` | db_fl.c:120-150 | following get-next from a static entry gives it and every later static entry in the order of the branch cursor, then null |
| `LookupTheorems.ChainFollowsBranches` | db_fl.c:120-150 | following get-next from a branch gives it and every later branch in the order of the root cursor, then null |
| `LookupTheorems.PsFieldFoundIff` | ps.c:153-201 | for every history, that is every count k: a process field is found under its name exactly when it is field k or later, the field read is the one asked for, and a failed lookup leaves the count at 0 so that one retry succeeds |
| `NetifLookup.IfaceFoundIff` | netif.c:158-171 | below netif an interface is found under its own name exactly when no earlier interface's name extends it |
| `NetifLookup.IfaceFieldAlwaysFound` | netif.c:111-119 | from every state: a path to an interface extended by the name of any of its five fields finds that field of that interface, and a plain field reads that interface's own value |
| `NetifLookup.NeighborFoundIff` | netif.c:181-268 | from every state: a path to a neighbours directory extended by an address finds a neighbour exactly when that address starts the one of the entry at position num_neighbours, and nothing when the count is 0 |
| `NetifLookup.QosFieldRead` | netif.c:485-506 | from every state: a path to a neighbour extended by latency, packet_loss or throughput reads that field of the entry at position num_neighbours |
| `NetifLookup.InterfaceFoundAlways` | netif.c:111-171 | a path that leads to an interface leads there from every state and changes only the two field counts, which it resets |
| `RequestTheorems.NeighborQuery` | netif.c:181-268 | from every state with a positive count: the path of any interface, neighbours, the address at the counted position and a field name reads that entry's field |
| `Replies.NeighborReply` | netif.c:411-429 | the queries for latency, packet_loss and throughput of the neighbour at the counted position answer its latency in milliseconds one way, its loss and its throughput |
| `Replies.IfaceReply` | netif.c:461-587 | from every state: pid, inet6 addr, Link type and num_neighbours of an interface answer its number, address, wired or wireless, and the length of its cache in a byte |
| `Replies.ProcessReply` | ps.c:308-364 | pid, state, priority, total stack and stack used of a process answer that thread's own, from the current count on |
| `Replies.DeviceReply` | saul_devices.c:231-243 | class below a device answers that device's class |
| `Replies.StaticReply` | db_fl.c:193-221 | an unshadowed static entry answers its own value |
| `RequestTheorems.CountThenRead` | netif.c:563-587 | after a query for num_neighbours of one interface, the entry at that position of the grown list can be read in full below every interface |
| `RequestTheorems.NeighborsGoneAfterDump` | netif.c:181-268 | after a dump no neighbour path of any interface is found until num_neighbours is read again |
| `RequestTheorems.StackThenPidIsMissed` | ps.c:153-201 | on the fresh state, asking a process for stack used leaves the count at 4, the next query for its pid is missed, and a second try finds it |
| `RequestTheorems.OneThreadMissesItsPid` | ps.c:153-201 | the same on one concrete system with both queries written out |
| `DcaDatabase.Dca.ListChildren` | shell_cmds.c:50-58 | the one-level listing terminates and prints the names the cursor hands out, whatever the uninitialised child variable held |
| `DcaDatabase.Dca.QueryPath` | shell_cmds.c:28-75 | a query answers missing, a listing or a value as the value model does |
| `DcaDatabase.Dca.Serve` | shell_cmds.c:28-145 | one request refines its value step and keeps the state valid |
| `Requests.Run` | netif.c:563-602 | over every sequence of queries, dumps and recorded measurements: ps and netif field counts stay in 0..4, the sub-field count in 1..5, the saul count at 0, num_neighbours never exceeds the list, addresses stay distinct |
| `Requests.PositionalReadsHit` | linked_list.c:29-79 | after every history, a lookup that ends on a neighbour or one of its fields has a position inside the list, so the read lands on an entry |
| `Requests.NumNeighborsNeverWraps` | netif.c:222-254 | on every call of next-child the unsigned count is left alone or lowered by one from a positive value |
| `RequestTheorems.NeighborsOutliveHistory` | linked_list.c:18-27 | no sequence of requests ever loses or reorders a neighbour; old addresses stay, in order, behind the new ones |
| `RequestTheorems.HandleWrites` | netif.c:571-602 | queries and dumps write nothing to the list but discoveries, and a measurement writes its one result |
| `RequestTheorems.ValuesAreLastRecorded` | linked_list.c:97-126 | after every sequence of requests each neighbour's latency and loss are those of the last latency result recorded for it and its throughput that of the last throughput result, else what it had, else 0 |
| `EchoRun.Pinger.Ping` | latency.c:195-227 | sending refines its value step: next event, cleared slot, counted request |
| `EchoRun.Pinger.PrintReply` | latency.c:267-332 | a packet that is too short, no echo reply, of another identifier, or from another host unless the host is multicast changes nothing; any other refines the value step |
| `EchoRun.Pinger.Measure` | latency.c:109-131 | over arbitrary messages, foreign packets included, the receive loop in place refines the loop over events |
| `EchoRun.RunCountsReplies` | latency.c:109-131 | of the messages a run takes, exactly the packets of the right type, identifier, sender and size are counted, each once; one request is sent at first and one for every timer; up to 512 requests the replies are the distinct requests echoed |
| `EchoRun.SilentRunRecordsZero` | latency.c:352-388 | a run without replies counts nothing, never ends answered, and has a latency of 0 and, while the product fits, a loss of 100 to record |
| `EchoModel.RunCountsEvents` | latency.c:109-130 | the sends, the requests answered and the trip times of a run are exactly those of the events it took, in order |
| `EchoModel.ShortRunCounts` | latency.c:304-311 | up to 512 requests: replies are the distinct requests echoed, duplicates the further echoes |
| `EchoRun.Pinger.Finish` | latency.c:352-401 | records the loss and average of the final state in the neighbour list |
| `EchoRun.Pinger.MeasureNeighbor` | latency.c:92-133 | a run that ends records a sound loss and average for that host and changes no other entry |
| `EchoModel.LoopKeepsInv` | latency.c:109-130 | over every run with loss, delay, duplication and reordering: answered requests plus used clear slots never exceed the requests sent; a pending next-ping event implies fewer than count were sent, a pending finish event that all were; timing fields describe the accepted replies |
| `EchoModel.EveryRunReportsSoundly` | latency.c:373-388 | for every count the word holds: the reported loss is the true truncated percentage exactly when the product formed fits the word, and then in 0..100; 0 when every request was answered; the average lies between the extremes |
| `EchoModel.LossExactIff` | latency.c:374 | the reported loss is the truncated percentage exactly when the product fits the word |
| `EchoModel.LossWrapsToZero` | latency.c:374 | with a 32-bit word 42949673 unanswered requests are recorded as no loss, and no smaller number is |
| `EchoModel.TripTimeExactIff` | latency.c:295 | the modular clock difference is the elapsed time exactly when that is below 2^32 microseconds |
| `EchoModel.AverageWithinExtremes` | latency.c:377-388 | below 2^32 accepted replies the divisor is positive when used and tmin <= average <= tmax |
| `EchoModel.AllAnsweredMeansNoLoss` | latency.c:130 | leaving the loop because every request was answered means all were sent and the loss is 0 |
| `EchoModel.RecentRunIsExact` | latency.c:225-227 | if every reply answers one of the last 512 requests, num_recv counts the distinct requests answered and num_rept the surplus, past any number of 16-bit wraps |
| `EchoModel.UpTo512Exact` | latency.c:304-311 | with at most 512 requests every run of genuine replies counts exactly |
| `EchoModel.MoreThan512NotExact` | latency.c:304-311 | with more than 512 requests a late duplicate is counted as a second answer |
| `EchoModel.SlotOfSequence` | latency.c:225-227 | the 16-bit sequence number leads to the request's own slot because 512 divides 65536 |
| `EchoRun.Drain` | latency.c:135-150 | turns queue q into q[T..] followed by the other messages of q[..T] and releases the received ICMPv6 packets of q[..T], for the least T that the shrinking bound allows; nothing else is released and none of them put back |
| `EchoRun.DrainConserves` | latency.c:135-150 | no other message is lost and each removed packet is released exactly once |
| `EchoRun.DrainsAllIff` | latency.c:135-150 | all ICMPv6 packets are removed exactly when the last of them stands no further back than there are other messages |
| `EchoRun.TwoPacketsLeaveOne` | latency.c:135-150 | a queue of two ICMPv6 packets is drained of one only |
| `DcaFs.DcaFile.Open` | fs.c:187-205 | read-only opens look the path up and keep a copy of the node; others answer -EROFS |
| `DcaFs.DcaFile.Lseek` | fs.c:165-185 | moves to the target, from the start, the position or the size of the node, or answers -EINVAL and stays |
| `DcaDatabase.Dca.GetSize` | netif.c:430-459 | the size of a node by its kind and the current counts |
| `DcaFs.SizeIsLengthIff` | fs.c:165-185 | seeking to the end leads to the end of what is read: always for static strings and the interface address, never for a process status (88 bytes) and the link type, for a class only when empty, for a number when its text is as long as the size its node answers |
| `DcaFs.NumberSizeIff` | netif.c:430-459 | the size of a number is its width except for the interface number, num_neighbours and the throughput, which have the length of the interface address |
| `DcaFs.NodeSizes` | db_fl.c:168-191 | the size of every kind of node |
| `OpenFiles.LinkTypeIsCutShort` | netif.c:444-447 | from any path to an interface: the size of its link type is 4 and the text is longer, so a read after a seek to the end returns bytes |
| `DcaFs.DcaFile.Read` | fs.c:207-251 | in whatever state the counts are by now: copies the slice at the position and advances by its length, of 88 bytes for a process status; -EFAULT on a directory |
| `DcaFs.DcaFile.ReadAll` | fs.c:207-251 | any sequence of reads returns, read by read, the bytes at the position reached; from the beginning and with enough asked for, together the string itself, the printed number, or for a process status 88 bytes of which the first 30 are the status and NULs |
| `DcaFs.PiecesAreConsecutive` | fs.c:239-250 | the pieces put together are the bytes from the starting position on, none skipped, repeated or moved, also when the buffers differ from read to read |
| `DcaFs.PiecesOfOne` | fs.c:239-250 | for everything but a process status they are the value as far as the sizes reach |
| `DcaFs.StatusPieces` | ps.c:348-364 | of a process status 88 bytes can be read, the first 30 being the status filled up with NULs |
| `DcaFs.PiecesFit` | fs.c:244-250 | no read returns more bytes than it was asked for |
| `DcaFs.EndOfFileIff` | fs.c:239-243 | from any position, also past the end: the next read answers end of file exactly when the sizes asked for cover what there was to read, and then as many bytes have been returned |
| `DcaFs.ReadsReachTheEnd` | fs.c:239-250 | from any position, as many reads of positive sizes as there are bytes left return exactly those bytes, and every further read answers end of file |
| `DcaFs.ReadAgain` | fs.c:217-238 | reading any leaf twice in a row gives the same value, and the second read changes nothing |
| `OpenFiles.ProcessFileKeepsIff` | ps.c:308-364 | an open process file reads the field it was opened on, in every system, exactly when the count is what it was then |
| `OpenFiles.IfaceFileKeepsIff` | netif.c:461-587 | an open interface file reads the field it was opened on, in every system, exactly when the count is what it was then |
| `OpenFiles.FixedFileKeeps` | db_fl.c:193-221 | static entries and device classes read the same in every state |
| `OpenFiles.NeighborFileAfterDump` | netif.c:461-506 | a file opened on a neighbour's field is, after a dump, a string: the address at the head of the list |
| `OpenFiles.StackFileReadsPid` | ps.c:308-346 | a file opened on the stack use of a process reads its pid after one missed query |
| `Throughput.RunKeepsInv` | udp_throughput.c:57-219 | every run keeps: counts within what was asked, results computed from their own session, recorded rates reported |
| `Throughput.SessionAccounts` | udp_throughput.c:75-123 | every finished session of every run began with a request; its count is the number of datagrams counted between that and its end, its time the end less 100 less the first of them, less the timeout when some are missing, in 32 bits, and its rate the quotient when the product fits |
| `Throughput.OneResultPerEnd` | udp_throughput.c:109-123 | there is one result for every end of a session, and no other |
| `Throughput.CleanRunRecordsRate` | udp_throughput.c:170-206 | from every state with both parties free: when nothing is lost the client records 384 bytes times 10^6 by the microseconds from the first payload to the end |
| `Throughput.CleanRunExample` | udp_throughput.c:95-114 | payloads at 1000, 2000 and 3000 and the end at 3200 microseconds: 182857 bytes a second |
| `Throughput.ClientResults` | udp_throughput.c:180-206 | what each step adds to the client's results |
| `Throughput.WrongRequestStopsServer` | udp_throughput.c:125-128 | after a datagram that is no request the server never reports again |
| `Throughput.RateExactIff` | udp_throughput.c:109-114 | the reported rate is the truncated quotient exactly when bytes times 10^6 fits 32 bits, and then brackets it |
| `Throughput.ClientRecordsFinishedRates` | udp_throughput.c:147-219 | a client records 0 or a rate the server computed in a finished session, which counted at most packet_count datagrams |

## Left out

- `board.c`, `runtime.c`, `network.c`, `saul_node.c`: the static entries' value functions are given values of the tables.
- `coap.c` message building, VFS and shell registration, Kconfig, examples: plumbing; the listing and value paths of CoAP are those of `dcaq`.
- The get-next functions of ps, saul and netif (`ps.c:203-244` and their like): no request uses them, and they leave the node unwritten or of another level on some calls.
- RIOT itself: interfaces, neighbour cache, thread table, message arrival and clocks are inputs; sockets are the network of the throughput steps.
- Address parsing and interface selection before a measurement (`latency.c:155-193`, `udp_throughput.c:154-169`): the host is given.
- `EchoRun.RunCountsReplies`: a packet that passes the filter is assumed to echo a request of this measurement (section 4.2 of RFC 4443).
- `DcaDatabase.Dca.GetValue`: gives the value before formatting; `fmt_s32_dec`, `fmt_float`, the limit of the caller's buffer and the `---` fallback are not modelled.
- `DcaFs.DcaFile.Read`: the text of a number is a given function; the limit of the 128-byte buffer on strings other than a status is not modelled; a string the code leaves unwritten (`DbModel.Defined`) cannot be read.
- `DcaFs.DcaFile.ReadAll`: as `Read`; no other request comes between the reads.
- `DcaFs.ReadAgain`: says the same value is read again; the bytes behind a status are those of the buffer at each read.
- `DcaDatabase.Dca.GetSize`: the size of a static string is its length, without the limit of the 128-byte buffer.
- `DcaDatabase.Dca.GetFloatValue`: the division of the latency is over exact arithmetic; rounding to a 32-bit float before the truncation is not modelled.
- Names longer than 29 characters, which `strncpy` would cut: names are taken as they stand in the tables, without a NUL in them.
- `dcafs_readdir` and `dcafs_stat`: readdir passes an uninitialised node that some cursors do not write, so its result is not defined by the code.
- `LookupTheorems.LookupAgreesWithDump`: stops at ps and netif nodes, below which a lookup depends on the counters; `PsFieldFoundIff`, `IfaceFieldAlwaysFound`, `NeighborFoundIff` and `QosFieldRead` say what is found there.
- `LookupTheorems.DumpedPathFoundIff`: ps and netif subtrees are those of `DumpedPaths.EveryDumpedPathIff`.
- `DumpedPaths.EveryDumpedPathIff`: a dynamic entry listed twice stands for one node, so a shadowed path can lead to that node by way of the other entry; for such tables only the direction from unshadowed to found is stated, in `LookupTheorems.DumpedPathIsFound`.
- `DcaDatabase.Dca.TreeR`: requests are sequential; two cursors interleaved in time, or two threads sharing the file-level variables, are not modelled.
- `EchoRun.Pinger.Measure`: at most one timer event is pending; a timer message left in the queue from the previous neighbour, and the timer durations, are not modelled.
- `EchoRun.Pinger.PrintReply`: the data length is the default 4 bytes, so every accepted reply is timed.
- `EchoModel.EveryRunReportsSoundly`: the word size is a parameter of the loss; the average needs fewer than 2^32 accepted replies in one run.
- `Throughput.Do`: a session whose elapsed time is 0 divides by zero in the code; the step is not enabled then.
- Memory exhaustion and leaked allocations of the neighbour list.
