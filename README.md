# Fire-escape mesh, link-state simulator, clock and vertex layout — a Dafny model

The repository holds four small systems. This project models the logic of each one and proves what the code and its tests promise.

- **The `sky` library and the `sunlight` node firmware.** Nodes of a fire-escape mesh talk over four multiplexed serial channels. Each message is a 23-byte `mcp` frame: type, 3-byte source, 3-byte destination, 15-byte payload and a CRC-8. A `porter` frames packets with a two-byte preamble and a start-of-frame delimiter, and recovers them from a byte ring buffer (`sky::queue`). A node probes its channels to find its neighbours in the config state. In the idle state it floods beacons carrying its four edges. Each node collects the beacons into an address registry and neighbour table, and from those builds a 16×16 link matrix (`createTopo`) on which `sky::topo` runs a Dijkstra search. Fire and reset alarms are flooded to every verified neighbour. The control register and the `hw::serial`/`hw::mode` operators encode the channel selection into one shift-register byte.
- **The Java link-state simulator** (`Simulate_LinkState`). Five routers share a cost matrix. A router on fire has its row and column set to -1. `calcDijkstra` prints the cheapest route to an exit router as text.
- **The `Task2` clock.** It is a four-state mode machine (time display, date display, time editor, date editor). It has range-checked setters and zero-padded "HH:MM:SS" / "Y-MM-DD" text.
- **The `shelter` vertex layout.** A type-size table gives each attribute's bytes. The stride and per-attribute offsets follow from it.

## How the model is laid out

There is one module per source file. Text conversion shared by the Java files lives in `Text`.

| file | module | source |
|---|---|---|
| utility.dfy | `SkyUtility` | sky/utility.hpp |
| mcp.dfy | `Mcp` | sky/mcp.hpp, sky/mcp.cpp |
| queue.dfy | `SkyQueue` | sky/queue.hpp |
| topo.dfy | `Topo` | sky/topo.hpp, sky/topo.cpp |
| control_register.dfy | `ControlRegister` | sunlight/src/control_register.* |
| mode.dfy | `Mode` | sunlight/src/mode.hpp |
| porter.dfy | `Porter` | sunlight/src/porter.* |
| node.dfy | `Node` | sunlight/src/main.cpp |
| text.dfy | `Text` | Java `"" + n`, zero padding, string reversal |
| routing_topology.dfy | `RoutingTopology` | Simulate_LinkState/src/RoutingTopology.java |
| dijkstra_algorithm.dfy | `DijkstraAlgorithm` | Simulate_LinkState/src/DijkstraAlgorithm.java |
| router_manager.dfy | `RouterManager` | Simulate_LinkState/src/RouterManager.java, Router.java |
| time.dfy, date.dfy, clock.dfy | `Time`, `Date`, `Clock` | Task2/src/main/java/se/mau/*.java |
| buffer_element.dfy | `ShelterBuffer` | shelter/shelter/buffer.hpp |
| buffer_layout.dfy | `ShelterLayout` | shelter/shelter/buffer.hpp, buffer.cpp |

Some code updates state in place: the queue, the porter, the node's globals, the control register, the Java topology, manager and clock, and the layout. Each of these is a `class` whose methods state the new state through a specification function. Code that only computes a value is modelled as functions. Loops appear as methods with loop invariants.

Several quirks of the C++ code are modelled as written, and each is stated as a lemma:

- `sky::queue` keeps counting past its capacity. Its `deq` then never drains.
- `topo_compute_dijkstra` tracks the running minimum by scan position rather than by node, so it does not always choose the nearest node. Its `memset`/`memcpy` move 16 bytes, which is only four `int32` entries.
- A fresh `porter` discards its first preamble byte, so the first frame it receives is never delivered.
- `handle_message` never checks the CRC.
- Flooded alarms carry `payload[0] == 0`, because the flag is set after the frame is built.
- `updateEdges` runs every lookup before any insertion.

The Java Dijkstra carries the full proof: every reachable router ends with its cheapest distance, and the printed route is a cheapest path read backwards.

## Model

| member | source | states |
|---|---|---|
| SkyUtility.LengthOf | sky/utility.hpp:17-20 | `length_of` of an array of N elements is N |
| SkyUtility.SetBit | sky/utility.hpp:22-25 | bit p becomes 1 and every other bit is kept; positions 8..30 leave the 8-bit register unchanged after truncation |
| SkyUtility.ClearBit | sky/utility.hpp:27-30 | bit p becomes 0 and every other bit is kept; positions 8..30 change nothing |
| SkyUtility.SetBitLevel | sky/utility.hpp:32-35 | bits inside the mask come from `data`, bits outside keep the old register |
| SkyUtility.SetBitLevelIdempotent | sky/utility.hpp:32-35 | applying `set_bit_level` twice equals applying it once |
| SkyUtility.CrcOfEmpty | sky/utility.hpp:37-49 | the CRC of no bytes is 0 |
| SkyUtility.CrcFromSnoc | sky/utility.hpp:37-49 | the CRC is a left fold: one more byte is eight shift steps applied to the old register XOR the byte |
| SkyUtility.Crc8 | sky/utility.hpp:37-49 | the two nested loops compute the fold over the first `size` bytes |
| SkyUtility.HelloWorldCrc | tests/utility_tests.hpp:15-20 | the CRC of the 13 bytes of "Hello, World!" is 0x87 |
| SkyUtility.HelloWorldTail | tests/utility_tests.hpp:15-20 | after "Hello, " the register is 0xD8 and the last six bytes take it to 0x87 |
| Mcp.EncodeLayout | sky/mcp.cpp:15-22 | a frame is 23 bytes: type at 0, source at 1..3, destination at 4..6, payload at 7..21, and the CRC of bytes 0..21 at 22 |
| Mcp.MakeBuffer | sky/mcp.cpp:15-22 | fills `dest` with that layout; the message's own `crc` field is ignored |
| Mcp.Decode | sky/mcp.cpp:24-36 | reads the fields back at the same offsets, so laying the result out gives the buffer |
| Mcp.CheckCrc | sky/mcp.cpp:52-57 | holds exactly when byte 22 is the CRC of bytes 0..21 |
| Mcp.DecodeEncode | sky/mcp.cpp:15-36 | decoding an encoded message gives it back with `crc` set to the computed checksum |
| Mcp.EncodeDecode | sky/mcp.cpp:15-36 | encoding a decoded frame whose CRC checks gives the same bytes |
| Mcp.EncodePassesCheck | sky/mcp.cpp:52-57 | every frame `mcp_make_buffer` produces passes `mcp_check_crc` |
| Mcp.CheckCrcDetectsByteError | sky/mcp.cpp:52-57 | corrupting any one byte of a checked frame makes the check fail |
| Mcp.CrcDetectsByteError | sky/utility.hpp:37-49 | with the odd polynomial, changing one input byte always changes the CRC |
| Mcp.DecodeExample | tests/mcp_tests.hpp:20-56 | the decoder test's frame decodes to type 1, source 00 04 00, destination 00 00 01, CRC byte 1 |
| Mcp.AddressToU32 | sky/mcp.cpp:38-44 | the address read little-endian; always below 2^24 |
| Mcp.AddressOf | sky/mcp.cpp:46-50 | the three bytes `mcp_u32_to_address` stores read back as the value's low 24 bits |
| Mcp.U32ToAddress | sky/mcp.cpp:46-50 | writes those three bytes into `dest` |
| Mcp.AddressRoundTrip | sky/mcp.cpp:38-50 | converting an address to a number and back gives the address |
| Mcp.AddressToU32Injective | sky/mcp.cpp:38-44 | two addresses have the same number exactly when they are equal |
| Mcp.AddressZero | sky/mcp.cpp:38-44 | only the all-zero address is number 0 |
| Mcp.AddressExamples | tests/mcp_tests.hpp:58-78 | {0x00,0x04,0x00} is 1024 and 1024 is {0x00,0x04,0x00} |
| SkyQueue.Empty | sky/queue.hpp:53-57 | a value-initialised queue is well formed and has size 0 |
| SkyQueue.EnqueuedWf | sky/queue.hpp:15-20 | `enq` keeps head and tail below SIZE and always adds 1 to the size |
| SkyQueue.DequeuedWf | sky/queue.hpp:22-28 | `deq` keeps the queue well formed; when head and tail differ the size drops by one |
| SkyQueue.EnqueueAppends | sky/queue.hpp:15-20 | below the capacity `enq` appends to the elements in queue order |
| SkyQueue.DequeueRemovesFront | sky/queue.hpp:22-28 | between empty and full `deq` returns the oldest element and removes it |
| SkyQueue.DequeueEmpty | sky/queue.hpp:22-23 | on an empty queue `deq` changes nothing |
| SkyQueue.OverflowOverwritesOldest | sky/queue.hpp:15-19 | `enq` on a full queue overwrites the oldest slot, moves the head past it and makes the size SIZE + 1 |
| SkyQueue.FullQueueNeverDrains | sky/queue.hpp:15-28 | once the size reaches SIZE, neither `enq` nor `deq` takes it below SIZE again, and at SIZE or SIZE + 1 `deq` changes nothing |
| SkyQueue.Queue.constructor | sky/queue.hpp:53-57 | the fields start as the empty queue |
| SkyQueue.Queue.Enq | sky/queue.hpp:15-20 | the new fields are the `enq` state of the old ones |
| SkyQueue.Queue.Deq | sky/queue.hpp:22-28 | returns the head slot; the new fields are the `deq` state of the old ones |
| SkyQueue.EnqFull | tests/queue_tests.hpp:8-17 | SIZE enqueues of one value into a fresh queue leave that value in every slot |
| SkyQueue.EnqExtra | tests/queue_tests.hpp:19-36 | one more `enq` lands in slot 0, the size becomes SIZE + 1, and the following `deq` returns the next-oldest value without changing the size |
| ControlRegister.ControlRegister.SetComChannel | sunlight/src/control_register.cpp:4-7 | bits 0-1 take `ch`'s low bits, the other bits are kept, and the new byte is passed to the callback once |
| ControlRegister.ControlRegister.SetConfigChannel | sunlight/src/control_register.cpp:8-11 | bits 2-4 take `ch`'s low three bits, the other bits are kept, and the new byte is passed to the callback once |
| ControlRegister.ChannelFieldsIndependent | sunlight/src/control_register.cpp:4-11 | setting one field leaves the other field's value intact |
| ControlRegister.ChannelSettersCommute | sunlight/src/control_register.cpp:4-11 | the two setters give the same byte in either order |
| ControlRegister.DocumentedRangesFit | sunlight/src/control_register.hpp:23-35 | com channels 0-3 and config channels 0-7 are exactly the values that fit their fields |
| ControlRegister.ControlRegister.constructor | sunlight/src/control_register.hpp:38 | the register byte starts at 0, with no callback and nothing sent |
| ControlRegister.ControlRegister.SetRegister | sunlight/src/control_register.hpp:21 | installs the callback and changes neither the byte nor what was sent |
| Mode.SerialOrMode | sunlight/src/mode.hpp:29-34 | the channel number in bits 0-1, bit 2 set exactly for `tx`; with `rx` the byte is the channel's own value |
| Mode.ModeOrSerial | sunlight/src/mode.hpp:35-37 | the same byte with the operands swapped |
| Mode.SerialAndMode | sunlight/src/mode.hpp:39-44 | always 0: channels and modes share no bit |
| Mode.ModeAndSerial | sunlight/src/mode.hpp:45-47 | always 0 |
| Mode.SerialOrModeInjective | sunlight/src/mode.hpp:17-34 | different channel/mode pairs give different control bytes |
| Topo.SetNodeLinkCost | sky/topo.cpp:21-26 | writes the cost at [i][j] and [j][i], changes nothing else, returns the updated matrix, and keeps a symmetric matrix symmetric |
| Topo.SelectNext | sky/topo.cpp:64-73 | picks -1 exactly when no listed node has a distance below 255, and otherwise a listed node below 255 |
| Topo.SelectionBound | sky/topo.cpp:64-73 | the running minimum never exceeds 255 and stays 255 while nothing is picked |
| Topo.SelectionNone | sky/topo.cpp:64-80 | the scan finds nothing exactly when every listed node is at 255 |
| Topo.SelectionTaken | sky/topo.cpp:64-73 | a node the scan finds is listed and reached |
| Topo.SelectionNotMinimal | sky/topo.cpp:68-72 | a concrete list where the scan picks a node farther away than another pending node |
| Topo.RemoveNode | sky/topo.cpp:83-96 | the list closes up over the removed node: the other nodes stay listed and the size drops by one; the read one past the end is taken as 0 |
| Topo.Contains | sky/topo.cpp:101-107 | the inner scan answers whether the node is still listed |
| Topo.Relax | sky/topo.cpp:101-118 | only strictly positive links to listed nodes are relaxed, and only a strictly smaller distance replaces the old one and its predecessor |
| Topo.Visit | sky/topo.cpp:82-118 | one pass removes the selected node and relaxes its links; the list shrinks and the search invariant holds again |
| Topo.StepTree | sky/topo.cpp:82-118 | after a pass every reached node's predecessor is visited, linked to it by a positive cost, and one link shorter; unreached nodes keep predecessor 0 |
| Topo.StepFrontier | sky/topo.cpp:82-118 | after a pass every visited node is reached and every link from a visited to a listed node is relaxed |
| Topo.InitialInv | sky/topo.cpp:41-60 | the initial arrays satisfy the search invariant |
| Topo.Initialise | sky/topo.cpp:41-60 | all 16 nodes listed; only the start is at distance 0, and it is its own predecessor |
| Topo.SearchStep | sky/topo.cpp:63-119 | one pass of the main loop keeps the search invariant |
| Topo.SearchDone | sky/topo.cpp:63-119 | when the scan finds nothing the predecessors form a forest rooted at the start, with distances consistent along the links |
| Topo.Search | sky/topo.cpp:63-119 | the main loop terminates, and leaves explored distances and predecessors with every link out of a reached node relaxed |
| Topo.ChainDistinct | sky/topo.cpp:127-135 | the predecessor chain never repeats a node |
| Topo.ChainFits | sky/topo.cpp:122-137 | the chain fits in the 16 entries of `path_arr` |
| Topo.Chain | sky/topo.cpp:127-135 | the nodes the path-building loop visits, starting at the destination |
| Topo.PathArray | sky/topo.cpp:147-154 | the chain reversed and made 1-based, then zeros up to 16 entries |
| Topo.BuildPath | sky/topo.cpp:122-137 | `path_arr` holds the 1-based chain from `dest`, and the count is its length |
| Topo.ReversePrefix | sky/topo.cpp:147-154 | the first `count` entries are reversed and the rest are untouched |
| Topo.SecondHopBlocked | sky/topo.cpp:139-145 | true exactly when the destination's entry towards the second path entry is -1; a read outside the matrix is 0 |
| Topo.ClearLeading | sky/topo.cpp:37 | `memset` of 16 bytes zeroes the first four entries and leaves the rest |
| Topo.CopyLeading | sky/topo.cpp:156 | `memcpy` of 16 bytes copies the first four path entries and leaves the rest |
| Topo.Report | sky/topo.cpp:121-156 | the path array is the route the chain, the blocked check and the reversal describe |
| Topo.ComputeDijkstra | sky/topo.cpp:28-157 | a start on fire zeroes the first four entries; otherwise the search is explored and closed and the first four entries are the route's; the rest of `out_shortest` is untouched |
| Topo.ReachedChain | sky/topo.cpp:99-135 | from a reached node the chain is a walk of positive links back to the start, costing exactly the node's distance |
| Topo.RouteOfReached | sky/topo.cpp:122-154 | for a reached, unblocked destination the route is the chain reversed: it starts at `src`, ends at `dest`, then zeros |
| Topo.UnreachedRoutedViaNodeOne | sky/topo.cpp:122-154 | an unreached destination is still routed "1, dest" when node 1 is unreached too, unless that link is -1 |
| Porter.CheckPreamble | sunlight/src/porter.cpp:35-46 | succeeds exactly when raw slots 0 and 1 hold the pattern; a mismatch at slot i pops i + 1 bytes |
| Porter.DrainFrame | sunlight/src/porter.cpp:52-63 | dequeues all 32 buffered bytes in arrival order, empties the queue and keeps bytes 3..31 as the packet data |
| Porter.DrainInOrder | sunlight/src/porter.cpp:55-58 | n dequeues return the n oldest bytes and leave the rest |
| Porter.Absorb | sunlight/src/porter.cpp:24-66 | the receive branch's byte work: push, preamble check, delimiter check and drain |
| Porter.Received | sunlight/src/porter.cpp:24-66 | the byte queue stays well formed after the receive branch |
| Porter.Polled | sunlight/src/porter.cpp:21-66 | the same when a byte was read; no byte leaves the queue as it is |
| Porter.Feed | sunlight/src/porter.cpp:21-66 | receiving a byte string one poll at a time keeps the queue well formed, or reports an overrun |
| Porter.FirstPreambleByteDiscarded | sunlight/src/porter.cpp:35-46 | on a fresh port the first 0xAA is popped at once, because raw slot 1 still holds 0 |
| Porter.FreshPortMissesFirstFrame | sunlight/src/porter.cpp:35-65 | so the first frame a fresh port receives is never delivered: 31 of its bytes stay buffered |
| Porter.Framed | sunlight/src/porter.cpp:73-77 | the 32 bytes sent: two preamble bytes, the delimiter, `size` data bytes, then zeros |
| Porter.FramedFull | sunlight/src/porter.cpp:73-77 | with a full data field the bytes after the delimiter are exactly the packet data |
| Porter.FrameBuffer | sunlight/src/porter.cpp:73-77 | the send branch's buffer holds exactly that frame |
| Porter.FeedAppend | sunlight/src/porter.cpp:21-85 | receiving `a` and then `b`, one byte per poll, is receiving `a + b` |
| Porter.FeedQuiet | sunlight/src/porter.cpp:35-66 | while the preamble slots match and under 32 bytes wait, bytes are only appended |
| Porter.FrameArrives | sunlight/src/porter.cpp:48-65 | the last byte of a frame completes it: the packet is the frame after the delimiter, and the queue is emptied |
| Porter.FreshFeed | sunlight/src/porter.cpp:35-46 | after k bytes of a frame a fresh port holds k - 1 of them from raw slot 1 on, and has delivered nothing |
| Porter.FrameRoundTrip | sunlight/src/porter.cpp:48-65 | with the header already in raw slots 0-2, a whole frame yields one packet of its last 29 bytes and empties the queue |
| Porter.PacketRoundTrip | sunlight/src/porter.cpp:48-79 | what one port sends with a full data field, a suitably placed receiving port delivers unchanged |
| Porter.Porter.constructor | sunlight/src/porter.hpp:54-70 | channel 0, state wait, all queues empty, nothing sent |
| Porter.Porter.Write | sunlight/src/porter.cpp:87-90 | a channel of 4 or more changes nothing; otherwise the packet is enqueued on that channel's outgoing queue |
| Porter.Porter.Read | sunlight/src/porter.cpp:91-95 | the default packet for a channel of 4 or more or an empty queue; otherwise the oldest received packet, dequeued |
| Porter.Porter.ReceiveInput | sunlight/src/porter.cpp:24-67 | at most one byte is absorbed; a completed frame becomes a packet of size 29 on the current channel |
| Porter.Porter.Deliver | sunlight/src/porter.cpp:57-64 | stores the channel's byte queue and enqueues the completed packet, stamped with the channel and size 29 |
| Porter.Porter.SendNext | sunlight/src/porter.cpp:69-80 | at most one packet leaves the outgoing queue, as one 32-byte frame on the wire |
| Porter.Porter.Poll | sunlight/src/porter.cpp:21-85 | selects the channel on the control register, receives, sends at most one frame, and moves to the next state |
| Node.BeaconCarriesEdges | sunlight/src/main.cpp:586-602 | a beacon's payload names its sender and the sender's four edges where `updateEdges` reads them |
| Node.Neighbours | sunlight/src/main.cpp:151-173 | the four neighbour addresses a topology message carries, slot by slot |
| Node.FanoutLength | sunlight/src/main.cpp:441-457 | a flood writes `copies` frames on every selected channel |
| Node.FanoutChannels | sunlight/src/main.cpp:441-457 | every flooded write goes to a selected channel and carries that channel's frame |
| Node.FanoutReaches | sunlight/src/main.cpp:441-457 | every selected channel receives its frame |
| Node.Find | sunlight/src/main.cpp:175-194 | the first registry position holding the address, or 16 when there is none |
| Node.Lookups | sunlight/src/main.cpp:175-194 | the four neighbour lookups are made on the registry before any insertion |
| Node.FreshBound | sunlight/src/main.cpp:196-261 | one `updateEdges` appends at most five addresses |
| Node.RepeatedNeighbourAppendedTwice | sunlight/src/main.cpp:175-229 | an unregistered neighbour named in two slots is appended twice |
| Node.SenderRegistered | sunlight/src/main.cpp:196-205 | the sender keeps its existing entry or is appended at `index_address_set` |
| Node.RegisteredOfProgress | sunlight/src/main.cpp:141-261 | handling all four slots is the whole effect of `updateEdges` |
| Node.TopoOf | sunlight/src/main.cpp:272-302 | the matrix `createTopo` builds is 16×16 |
| Node.TopoOfEntries | sunlight/src/main.cpp:272-302 | an entry is 1 exactly when the column is a recorded neighbour of the row; otherwise 0 on the diagonal and -1 elsewhere |
| Node.FirstEmpty | sunlight/src/main.cpp:103-111 | the first all-zero registry entry, or 0 when none is empty |
| Node.FullEdgesHas | sunlight/src/main.cpp:113-121 | every edge with three non-zero bytes is among those `saveMyEdges` appends |
| Node.SavedResolves | sunlight/src/main.cpp:102-139 | after `saveMyEdges` every full edge is registered, and row 0 names a position holding it; every other channel gets -1 |
| Node.SavedKeepsEarlierEntry | sunlight/src/main.cpp:113-134 | a full edge that was already registered is appended again, and row 0 names the earlier entry |
| Node.ForwardTo | sunlight/src/main.cpp:406-408 | a topology message goes to every verified channel except the one it came in on |
| Node.ForwardFrames | sunlight/src/main.cpp:409-421 | the copy on channel i is addressed to the edge heard there |
| Node.AlarmFrames | sunlight/src/main.cpp:434-451 | every channel gets the same alarm frame |
| Node.AckAnswersProbe | sunlight/src/main.cpp:387-397 | the answer to a probe is a checked type-0 frame with `payload[0] = 1`, from this node, to the prober |
| Node.AckRecordsResponder | sunlight/src/main.cpp:375-378 | the prober records and verifies the responder on that channel and sends nothing |
| Node.AlarmFloodUnflagged | sunlight/src/main.cpp:441-457 | every flooded alarm copy carries `payload[0] == 0`, and the arrival channel receives copies too |
| Node.EncodeIgnoresCrc | sky/mcp.cpp:15-22 | the message's CRC field never reaches the wire |
| Node.CrcIgnored | sunlight/src/main.cpp:365-370 | a packet with a different CRC byte is handled exactly like the original |
| Node.TopologyLinksNeighbours | sunlight/src/main.cpp:399-402 | after a topology message every non-zero neighbour is registered where the sender's row says, and the matrix links the two; a zero neighbour leaves -1 |
| Node.ProbeFrames | sunlight/src/main.cpp:508-514 | the probe frame: type 0 from this node with zero destination and payload |
| Node.Unverified | sunlight/src/main.cpp:516-531 | probes go to exactly the unverified channels |
| Node.ProbeAcrossWrap | sunlight/src/main.cpp:504-506 | the 125 ms test is made in unsigned 32-bit arithmetic and still fires across the wrap of `millis()` |
| Node.BeaconTo | sunlight/src/main.cpp:582-585 | beacons go to every channel whose edge has a non-zero first byte |
| Node.BeaconFrames | sunlight/src/main.cpp:586-611 | the beacon on channel i is addressed to the edge heard there |
| Node.FireMarked | sunlight/src/main.cpp:627-629 | resets go to verified neighbours on fire; alarms go to verified neighbours not on fire |
| Node.TopologyStep | sunlight/src/main.cpp:399-402 | a topology message writes its fresh addresses from `index_address_set` on, advances the count by their number, and leaves the edges and their flags alone |
| Node.OtherStep | sunlight/src/main.cpp:365-495 | every other packet leaves the registry and its count alone; an acknowledgement records its sender on the arrival channel, a probe does so only on an unverified channel, and both verify it |
| Node.HandledStep | sunlight/src/main.cpp:365-495 | `handle_message` changes the registry, its count, the edges and their flags exactly as the per-packet `Step` says |
| Node.NothingNewFits | sunlight/src/main.cpp:175-261 | packets whose sender and neighbours are all registered write no registry entry, so they fit however full the registry is, and leave it unchanged |
| Node.RoomToSave | sunlight/src/main.cpp:113-121 | with four entries to spare, `saveMyEdges` stays inside the registry |
| Node.Node.constructor | sunlight/src/main.cpp:346-362 | this node's address in entry 0, a count of 1, every neighbour slot -1, state config |
| Node.Node.RegisterSender | sunlight/src/main.cpp:196-205 | returns the sender's row, appending the sender when it is new |
| Node.Node.RecordNeighbour | sunlight/src/main.cpp:207-219 | one neighbour slot: -1 for zero, the found position, or a fresh entry |
| Node.Node.RecordNeighbours | sunlight/src/main.cpp:207-261 | the four slots in order; other rows are untouched |
| Node.Node.UpdateEdges | sunlight/src/main.cpp:141-262 | the new registry, count and neighbour table are those `Registered` describes |
| Node.Node.CreateTopo | sunlight/src/main.cpp:272-302 | the matrix becomes `TopoOf` of the neighbour table |
| Node.Node.LinkRow | sunlight/src/main.cpp:283-301 | the four link writes of one row |
| Node.Node.SaveMyEdges | sunlight/src/main.cpp:102-139 | the new state is `Saved` of the old |
| Node.Node.AppendFullEdges | sunlight/src/main.cpp:113-121 | the full edges are written from the first empty entry on, and the count grows by their number |
| Node.Node.FillRowZero | sunlight/src/main.cpp:123-138 | row 0 gets each full edge's registry position, -1 for the others |
| Node.Node.Write | sunlight/src/main.cpp:396-397 | `com.write` appends one (channel, frame) pair to the output |
| Node.Node.Repeat | sunlight/src/main.cpp:396-397 | n writes of the same frame on one channel |
| Node.Node.Flood | sunlight/src/main.cpp:441-457 | the channel loops write the fan-out of the selected channels |
| Node.Node.HandleMessage | sunlight/src/main.cpp:365-495 | the state after is `Handled` of the state before: wrong sizes and other types change nothing, and the CRC is not checked |
| Node.Node.HandleProbe | sunlight/src/main.cpp:373-398 | acks record and verify the sender; probes record it only on an unverified channel and are answered 16 times |
| Node.Node.Acknowledge | sunlight/src/main.cpp:387-397 | 16 acknowledgements on the arrival channel |
| Node.Node.HandleTopology | sunlight/src/main.cpp:399-424 | `updateEdges`, `createTopo`, then 8 readdressed copies per forwarded channel |
| Node.Node.HandleAlarm | sunlight/src/main.cpp:426-494 | a flagged alarm sets or clears `neighbour_in_fire`; otherwise the state becomes fire or idle and 16 copies go out on every verified channel |
| Node.Node.Raise | sunlight/src/main.cpp:432-457 | the state change plus the 16-copy flood on every verified channel |
| Node.Node.HandleAll | sunlight/src/main.cpp:534-542 | the four packets are handled in channel order, and the registry, count, edges and flags end as `Reached` folds them; it needs only that each topology message fit the registry it meets |
| Node.Node.ProbeTick | sunlight/src/main.cpp:504-532 | after 125 ms: restart the timer, count the try down, probe every unverified channel |
| Node.Node.Probe | sunlight/src/main.cpp:505-531 | one round of probes |
| Node.Node.ConfigFinish | sunlight/src/main.cpp:549-563 | at zero tries: go idle and run `saveMyEdges`; otherwise nothing changes, and room for the edges is needed only at zero tries |
| Node.Node.LoopConfig | sunlight/src/main.cpp:501-565 | the config branch: timed probes, four handled packets, then the finish; room for `saveMyEdges` is needed only when the tries run out, and is measured on the roster the packets reach |
| Node.Node.BeaconTick | sunlight/src/main.cpp:579-614 | after 125 ms: restart the timer, beacon every known edge |
| Node.Node.IdleFinish | sunlight/src/main.cpp:627-647 | one reset to every verified neighbour on fire, then the fire switch |
| Node.Node.LoopIdle | sunlight/src/main.cpp:566-648 | the idle branch: beacons, four handled packets, resets, fire switch |
| Node.Node.FireStart | sunlight/src/main.cpp:656-675 | one alarm to every verified neighbour not on fire, then the reset switch |
| Node.Node.LoopFire | sunlight/src/main.cpp:650-687 | the fire branch: alarms, reset switch, four handled packets |
| Text.NatToString | Simulate_LinkState/src/DijkstraAlgorithm.java:77 | the decimal digits of a number, without leading zeros |
| Text.ParseNatToString | Simulate_LinkState/src/DijkstraAlgorithm.java:77 | reading the digits back gives the number |
| Text.NatToStringInjective | Simulate_LinkState/src/DijkstraAlgorithm.java:77 | different numbers have different text |
| Text.Padded | Task2/src/main/java/se/mau/Time.java:21-27 | a number 0-99 becomes two digits |
| Text.ParsePadded | Task2/src/main/java/se/mau/Time.java:21-27 | the two digits read back as the number |
| Text.IntToString | Simulate_LinkState/src/DijkstraAlgorithm.java:77 | for a negative number, a minus sign before digits that read back as its magnitude |
| Text.FourDigits | Task2/src/main/java/se/mau/Date.java:21-27 | a year 1000-9999 is four characters |
| Text.ReverseAt | Simulate_LinkState/src/DijkstraAlgorithm.java:88-90 | character i of the reversal is character n-1-i |
| Text.Reverse | Simulate_LinkState/src/DijkstraAlgorithm.java:88-90 | has the same length as the string |
| Text.ReverseReverse | Simulate_LinkState/src/DijkstraAlgorithm.java:88-90 | reversing twice gives the string back |
| Text.ReverseAppend | Simulate_LinkState/src/DijkstraAlgorithm.java:88-90 | reversal turns a concatenation around |
| RoutingTopology.InitialShape | Simulate_LinkState/src/RoutingTopology.java:23-29 | the example network is 5×5, symmetric, with a zero diagonal |
| RoutingTopology.Burn | Simulate_LinkState/src/RoutingTopology.java:54-63 | a fire keeps the matrix square and of the same size |
| RoutingTopology.BurnCutsRouter | Simulate_LinkState/src/RoutingTopology.java:54-63 | a fire sets the router's row and column, diagonal included, to -1 and changes nothing else |
| RoutingTopology.BurnBurnt | Simulate_LinkState/src/RoutingTopology.java:54-63 | burning a router that is already cut off changes nothing |
| RoutingTopology.BurnIdempotent | Simulate_LinkState/src/RoutingTopology.java:54-63 | `UpdateTopology` twice is `UpdateTopology` once |
| RoutingTopology.BurnCommutes | Simulate_LinkState/src/RoutingTopology.java:54-63 | fires can be recorded in any order |
| RoutingTopology.BurnKeepsSymmetric | Simulate_LinkState/src/RoutingTopology.java:54-63 | a fire keeps a symmetric network symmetric |
| RoutingTopology.RoutingTopology.constructor | Simulate_LinkState/src/RoutingTopology.java:23-29 | the topology holds the example network |
| RoutingTopology.RoutingTopology.Grid | Simulate_LinkState/src/RoutingTopology.java:65-67 | the matrix the topology holds, square, entry by entry |
| RoutingTopology.RoutingTopology.MatrixSize | Simulate_LinkState/src/RoutingTopology.java:31-33 | the number of rows |
| RoutingTopology.RoutingTopology.GetLinksCostAt | Simulate_LinkState/src/RoutingTopology.java:36-52 | a new array with a copy of row i for 0 ≤ i < size, and all zeros for any other i |
| RoutingTopology.RoutingTopology.UpdateTopology | Simulate_LinkState/src/RoutingTopology.java:54-63 | the new matrix is the old one with router n burnt; a number outside 1..size changes nothing |
| RoutingTopology.RoutingTopology.SetTopology | Simulate_LinkState/src/RoutingTopology.java:69-71 | the topology now is the given array itself |
| DijkstraAlgorithm.GetNextNode | Simulate_LinkState/src/DijkstraAlgorithm.java:59-70 | -1 exactly when every unvisited router is at `Integer.MAX_VALUE`; otherwise an unvisited router with the least distance, the lowest-numbered among equals |
| DijkstraAlgorithm.Relax | Simulate_LinkState/src/DijkstraAlgorithm.java:43-53 | only links of positive cost into unvisited routers are relaxed, and only on strict improvement |
| DijkstraAlgorithm.InitialInv | Simulate_LinkState/src/DijkstraAlgorithm.java:28-33 | the initial arrays satisfy the loop invariant |
| DijkstraAlgorithm.EntersUnvisited | Simulate_LinkState/src/DijkstraAlgorithm.java:36-54 | a path into the unvisited set passes an unvisited router whose distance is at most the path's cost |
| DijkstraAlgorithm.NearestSettles | Simulate_LinkState/src/DijkstraAlgorithm.java:36-41 | the nearest unvisited router already has its shortest distance |
| DijkstraAlgorithm.StepKeepsInv | Simulate_LinkState/src/DijkstraAlgorithm.java:36-54 | visiting the nearest router and relaxing its links keeps the invariant |
| DijkstraAlgorithm.RestUnreachable | Simulate_LinkState/src/DijkstraAlgorithm.java:37-39 | when `getNextNode` gives -1, no unvisited router is reachable |
| DijkstraAlgorithm.LoopExit | Simulate_LinkState/src/DijkstraAlgorithm.java:36-54 | when the loop ends every distance is the shortest one |
| DijkstraAlgorithm.Explore | Simulate_LinkState/src/DijkstraAlgorithm.java:27-54 | the loop terminates with every reachable router at its cheapest distance and the previous routers leading back to the source |
| DijkstraAlgorithm.WalkIsPath | Simulate_LinkState/src/DijkstraAlgorithm.java:80-86 | read backwards, the walk from a reached router is a path from the source costing its distance |
| DijkstraAlgorithm.ReachableIff | Simulate_LinkState/src/DijkstraAlgorithm.java:14-54 | a router is reachable exactly when its final distance is below `Integer.MAX_VALUE` |
| DijkstraAlgorithm.ExploredRoute | Simulate_LinkState/src/DijkstraAlgorithm.java:14-86 | the walk from the destination is a cheapest route, or the default chain for an unreachable destination |
| DijkstraAlgorithm.ReverseChars | Simulate_LinkState/src/DijkstraAlgorithm.java:88-90 | the loop produces the character reversal |
| DijkstraAlgorithm.ReversedTrail | Simulate_LinkState/src/DijkstraAlgorithm.java:73-93 | the reversed trail reads from the source to the destination |
| DijkstraAlgorithm.ArrowReversed | Simulate_LinkState/src/DijkstraAlgorithm.java:80-90 | the separator " >-- " reads " --> " after the reversal |
| DijkstraAlgorithm.TwelveReversed | Simulate_LinkState/src/DijkstraAlgorithm.java:73-93 | router 12 prints as "R21" |
| DijkstraAlgorithm.ReadingThreeRouters | Simulate_LinkState/src/DijkstraAlgorithm.java:73-93 | R1 to R3 through R4 prints "R1 --> R4 --> R3" |
| DijkstraAlgorithm.TwoDigitNameReversed | Simulate_LinkState/src/DijkstraAlgorithm.java:73-93 | the route from R1 to router 12 prints as "R1 --> R21": the two-digit name comes out reversed |
| DijkstraAlgorithm.SingleDigitName | Simulate_LinkState/src/DijkstraAlgorithm.java:73-93 | routers 1-9 print with their own names |
| DijkstraAlgorithm.DijkstraAlgorithm.constructor | Simulate_LinkState/src/DijkstraAlgorithm.java:9-12 | default fields |
| DijkstraAlgorithm.DijkstraAlgorithm.WalkBack | Simulate_LinkState/src/DijkstraAlgorithm.java:74-86 | builds the trail "dR >-- pR >-- ..." along the previous routers |
| DijkstraAlgorithm.DijkstraAlgorithm.GetShortestPathString | Simulate_LinkState/src/DijkstraAlgorithm.java:73-93 | throws for an `end` outside the array; otherwise the reversed trail |
| DijkstraAlgorithm.DijkstraAlgorithm.CalcDijkstra | Simulate_LinkState/src/DijkstraAlgorithm.java:15-56 | throws for a bad source, "Fire!" for a burnt source, throws for a bad destination, else the reversed cheapest route; the fields are overwritten |
| RouterManager.CutSetFire | Simulate_LinkState/src/RouterManager.java:36-42 | setting a router on fire burns it in the cut matrix |
| RouterManager.CutKeepsFire | Simulate_LinkState/src/RouterManager.java:56-62 | a router on fire is cut off in the topology |
| RouterManager.CutMarksFire | Simulate_LinkState/src/RouterManager.java:56-62 | no other router can reach a router on fire |
| RouterManager.BurntUnreachable | Simulate_LinkState/src/RouterManager.java:36-53 | no path from another router leads into a burnt one |
| RouterManager.Cut | Simulate_LinkState/src/RouterManager.java:56-62 | burning the routers on fire keeps the matrix square and of the same size |
| RouterManager.NoFireCut | Simulate_LinkState/src/RouterManager.java:19-32 | with no router on fire the topology is the example network |
| RouterManager.RoutersOf | Simulate_LinkState/src/RouterManager.java:24-27 | router "R" + i, not on fire, with a copy of row i, for each row |
| RouterManager.FreshRoutersConfigured | Simulate_LinkState/src/RouterManager.java:19-32 | fresh routers, one per row of the example network, keep routers and topology in step |
| RouterManager.FireConfigured | Simulate_LinkState/src/RouterManager.java:36-42 | setting a router on fire and burning it keeps the routers and topology in step |
| RouterManager.FireAnswers | Simulate_LinkState/src/RouterManager.java:65-80 | in that state every router on fire answers "Fire!" |
| RouterManager.AllRoutedStep | Simulate_LinkState/src/RouterManager.java:70-77 | one more router's answer extends a listing in which every router is routed |
| RouterManager.ListingStep | Simulate_LinkState/src/RouterManager.java:70-77 | each router adds one "\n Routingpath from Ri: " line |
| RouterManager.RouterManager.constructor | Simulate_LinkState/src/RouterManager.java:14-16 | routers and topology are configured, none on fire |
| RouterManager.RouterManager.ConfigureRouters | Simulate_LinkState/src/RouterManager.java:19-32 | a new topology and one router per row; returns true |
| RouterManager.RouterManager.AddFireAtRouter | Simulate_LinkState/src/RouterManager.java:36-53 | 1 ≤ n ≤ size sets router n on fire and burns it; any other n changes nothing; always true |
| RouterManager.RouterManager.CheckForFire | Simulate_LinkState/src/RouterManager.java:56-62 | burning the routers on fire again leaves the topology as it is |
| RouterManager.RouterManager.GetShortestPaths | Simulate_LinkState/src/RouterManager.java:65-80 | one line per router with `calcDijkstra`'s answer for it; routers on fire answer "Fire!" |
| RouterManager.RouterManager.RouterExists | Simulate_LinkState/src/RouterManager.java:83-87 | always true |
| Time.AcceptedIdempotent | Task2/src/main/java/se/mau/Time.java:8-19 | setting the same time twice has the effect of setting it once |
| Time.AcceptedKeepsValid | Task2/src/main/java/se/mau/Time.java:8-19 | after `setTime` the time is valid exactly when it was before or the triple is |
| Time.Time.Now | Task2/src/main/java/se/mau/Time.java:4-6 | the three fields as one value |
| Time.Time.constructor | Task2/src/main/java/se/mau/Time.java:4-6 | midnight, shown as "00:00:00" |
| Time.Time.SetTime | Task2/src/main/java/se/mau/Time.java:8-19 | accepts exactly 0 ≤ h ≤ 23, 0 ≤ m ≤ 59, 0 ≤ s ≤ 59; a rejection keeps all three fields; answers the time now shown |
| Time.Time.ShowTime | Task2/src/main/java/se/mau/Time.java:21-27 | eight characters "HH:MM:SS" |
| Time.ShowTimeReadsBack | Task2/src/main/java/se/mau/Time.java:21-27 | the three fields read back from the text |
| Time.ShowTimeInjective | Task2/src/main/java/se/mau/Time.java:21-27 | different valid times show different text |
| Date.AcceptedIdempotent | Task2/src/main/java/se/mau/Date.java:8-19 | setting the same date twice has the effect of setting it once |
| Date.AnyMonthHas31 | Task2/src/main/java/se/mau/Date.java:9-13 | the day is checked against 31 whatever the month |
| Date.Date.Today | Task2/src/main/java/se/mau/Date.java:4-6 | the three fields as one value |
| Date.Date.constructor | Task2/src/main/java/se/mau/Date.java:4-6 | 2000-01-01, shown as "2000-01-01" |
| Date.Date.SetDate | Task2/src/main/java/se/mau/Date.java:8-19 | accepts exactly 2000 ≤ y ≤ 2100, 1 ≤ m ≤ 12, 1 ≤ d ≤ 31; a rejection keeps all three fields; answers the date now shown |
| Date.Date.ShowDate | Task2/src/main/java/se/mau/Date.java:21-27 | ten characters "YYYY-MM-DD" |
| Date.ShowDateReadsBack | Task2/src/main/java/se/mau/Date.java:21-27 | the three fields read back from the text |
| Date.ShowDateInjective | Task2/src/main/java/se/mau/Date.java:21-27 | different valid dates show different text |
| Clock.AfterChangeMode | Task2/src/main/java/se/mau/Clock.java:20-35 | S1 and S2 swap; S3 and S4 stay |
| Clock.AfterReady | Task2/src/main/java/se/mau/Clock.java:37-52 | S1 goes to S3 and S2 to S4; the editors stay |
| Clock.AfterSet | Task2/src/main/java/se/mau/Clock.java:54-69 | S3 goes to S1 and S4 to S2; the displays stay |
| Clock.ChangeModeTwice | Task2/src/main/java/se/mau/Clock.java:20-35 | changing the mode twice returns to the start |
| Clock.ReadyThenSet | Task2/src/main/java/se/mau/Clock.java:37-69 | opening an editor and setting returns to the display it came from |
| Clock.Clock.constructor | Task2/src/main/java/se/mau/Clock.java:9-18 | S1, "00:00:00", "2000-01-01" |
| Clock.Clock.ChangeMode | Task2/src/main/java/se/mau/Clock.java:20-35 | answers the date in S1, the time in S2, and "Er.3"/"Er.4" in the editors |
| Clock.Clock.Ready | Task2/src/main/java/se/mau/Clock.java:37-52 | "ChangeTime", "ChangeDate", "Er.1", "Er.2" for S1-S4 |
| Clock.Clock.Set | Task2/src/main/java/se/mau/Clock.java:54-69 | in S3 sets the time, in S4 the date, answering the new text; in S1/S2 answers "Er.5"/"Er.6" and changes nothing |
| ShelterBuffer.TypeSize | shelter/shelter/buffer.hpp:44-78 | 0 exactly for the types without an entry; at most 64 bytes, a multiple of 4 from 4 up, at least 16 for a matrix |
| ShelterBuffer.ComponentCount | shelter/shelter/buffer.hpp:80-100 | 1 to 16, and above 1 exactly for vectors and matrices |
| ShelterBuffer.SizeByComponents | shelter/shelter/buffer.hpp:44-100 | a vector or matrix takes 4 bytes per component (8 for a vector of doubles); a scalar at most 8 |
| ShelterBuffer.MatrixIsSquare | shelter/shelter/buffer.hpp:80-100 | a matrix has N·N components |
| ShelterLayout.Stride | shelter/shelter/buffer.cpp:33-38 | at most 64 bytes per element |
| ShelterLayout.StrideZero | shelter/shelter/buffer.cpp:33-38 | the stride is 0 exactly when every element is of a type without a size, the empty layout included |
| ShelterLayout.StrideMonotone | shelter/shelter/buffer.cpp:33-38 | a longer prefix has at least the stride |
| ShelterLayout.StrideStep | shelter/shelter/buffer.cpp:33-38 | one more element adds its type size |
| ShelterLayout.Placed | shelter/shelter/buffer.cpp:40-46 | order, types, names and `normalized` are kept; only the offsets change |
| ShelterLayout.PlacedOffset | shelter/shelter/buffer.cpp:40-46 | element i's offset is the total size of the elements before it |
| ShelterLayout.PlacedOffsetsMonotone | shelter/shelter/buffer.cpp:40-46 | the offsets never go down, and the first is 0 |
| ShelterLayout.PlacedContiguous | shelter/shelter/buffer.cpp:40-46 | each element starts where the one before ends |
| ShelterLayout.PlacedEndsAtStride | shelter/shelter/buffer.cpp:27-46 | the last offset plus the last size is the stride |
| ShelterLayout.Wrap32 | shelter/shelter/buffer.cpp:41-44 | the cast to `uint32_t`: a value in 0 .. 2^32 - 1 |
| ShelterLayout.Wrap32Add | shelter/shelter/buffer.cpp:41-44 | adding in 32 bits step by step wraps the same as wrapping the total |
| ShelterLayout.BufferLayout.constructor | shelter/shelter/buffer.cpp:27-31 | the stride and the placed elements |
| ShelterLayout.BufferLayout.ComputeOffset | shelter/shelter/buffer.cpp:40-46 | the elements become their placed versions |

## Left out

- Hardware and timing: serial ports, NeoPixels, the shift register's `digitalWrite`, `setup`'s pin and LED calls, all printing, and `pixel.show`. `millis()` and the fire/reset switches are parameters. The chip id is a constructor argument.
- `com.clear_buffer` is not declared by the multiplexer and is not modelled.
- The `topo_compute_dijkstra(topo, 3, 2, ...)` call inside the type-1 branch only feeds a print and is not modelled.
- The `memcpy` of the sender's address into its own `neighbour_list` row (sunlight/src/main.cpp:200) is overwritten by the four slot writes of the same call, so it is left out.
- `Node.Node.UpdateEdges`, `Node.Node.HandleMessage`, `Node.Node.HandleAll`, `Node.Node.LoopConfig`, `Node.Node.LoopIdle`, `Node.Node.LoopFire`: each topology message must find room in the 16-entry registry for the addresses it appends, counted against the registry as earlier packets left it. The source writes past the end without a bound check; a message that appends nothing needs no room.
- `Node.Node.SaveMyEdges`, `Node.Node.ConfigFinish`, `Node.Node.LoopConfig`: `saveMyEdges` must find room for every full edge from the first empty entry on, for the same reason. This is required only when the tries run out.
- `Porter.Porter.Poll`, `Porter.Porter.ReceiveInput`: they require that the copy loop fit its 32-byte buffer and that an outgoing packet's size be at most 29. The source overflows a stack buffer otherwise.
- Porter queues: they are held as `QueueState` values in `seq` fields, not as separate queue objects, so aliasing between queues is not modelled.
- `pop_front`, which `sky::queue` does not declare, is modelled as a `deq` whose value is discarded.
- The porter's channel switching and `begin` are left out; the source leaves them unfinished.
- `ControlRegister.ControlRegister.SetComChannel`: the header declares a second `mode` argument, but the definition takes only the channel. The definition is modelled. Calling the setters requires an installed callback, since an empty `std::function` throws.
- `Topo.ComputeDijkstra`: it states the explored search and the route, not optimality, because the selection is not always the nearest node. Out-of-range reads (`unvisited_nodes[16]`, `matrix[end][-1]`) are taken as 0. The source and destination are required to be 1..16.
- `SkyQueue.Queue.Peek` and `SkyQueue.Queue.IsEmpty` return a raw slot and `size == 0`. They carry no contract of their own; the porter's preamble lemmas are where raw-slot reading matters.
- tests/queue_tests.hpp:19-36 calls `peek_back`, which the queue does not have, and expects slot 0 to stay 1. The code writes the extra value to slot 0. `SkyQueue.EnqExtra` states what the code does.
- `DijkstraAlgorithm.DijkstraAlgorithm.CalcDijkstra`: it takes the matrix as a value and requires it to be square; the source's `int[][]` could be ragged.
- Java `int` overflow of distances is not modelled: integers are unbounded.
- `HashSet` iteration is taken in ascending order, which holds for small non-negative `Integer`s.
- Router names are passed as numbers: the parsing by `substring(1)` and `parseInt` is not modelled.
- `RoutingTopology.RoutingTopology.SetTopology`: it requires a square array. The aliasing that `getTopology` hands out is modelled through `Grid()` as a value.
- `Router`'s setters are folded into a datatype. Its `setCostsOfSending` is a self-assignment and has no effect.
- `Clock`: the `default` branches of the three switches cannot be reached and are left out.
- `ShelterLayout.Stride`: `size_t` is taken as unbounded. Only the 32-bit offset wraps.
- `vertex_buffer`, `index_buffer` and every OpenGL, windowing and networking part of `shelter` are not part of this model.
- `sky/anim.*`, `multicom`, `config_status`, `MainSim.java`, and the `rovar` tests are not part of this model.
- `Time.Time.SetTime`, `Date.Date.SetDate`: idempotence is stated through the `Accepted` relation between successive states (`AcceptedIdempotent`), not as two calls.
