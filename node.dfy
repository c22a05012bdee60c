/**
 * The protocol logic of a `sunlight` mesh node (sunlight/src/main.cpp), with
 * the hardware taken away.  A node first probes its four serial channels to
 * learn its direct neighbours (the config state), then keeps a registry of
 * every node address it has heard of together with each node's neighbours,
 * builds the adjacency matrix of the mesh from them, and floods fire alarms
 * and resets through the mesh.
 *
 * The firmware's globals are the fields of a `Node`.  The chip id is fixed at
 * construction, `millis()` is a parameter of the loop steps, the four packets
 * the loop reads from the serial multiplexer are parameters too, and every
 * `com.write` appends the channel and the 23 frame bytes to `sent`.
 */
module Node {
  import opened SkyUtility
  import opened Mcp
  import Topo

  const MaxChannel: nat := 4
  /** Entries of `address_set` and rows of `neighbour_list`. */
  const RegistrySize: nat := 16
  /** `millis() - start_time > 125`: the period of probes and beacons. */
  const Period: bv32 := 125
  /** The initial `max_config_tries`. */
  const ConfigTries: int := 255
  /** Copies written per acknowledgement and per alarm or reset. */
  const FloodCopies: nat := 16
  /** Copies written per forwarded topology message. */
  const ForwardCopies: nat := 8
  /** Frame type numbers. */
  const ProbeType: Byte := 0
  const TopologyType: Byte := 1
  const FireType: Byte := 3
  const ResetType: Byte := 4
  /** `neighbour_list` entry for an empty neighbour slot. */
  const NoNeighbour: int := -1

  datatype NodeState = Config | Idle | Fire

  /** `ray::packet`: a channel, a size and 32 data bytes. */
  type PacketData = s: seq<Byte> | |s| == 32
    witness [0, 0, 0, 0, 0, 0, 0, 0, 0, 0, 0, 0, 0, 0, 0, 0, 0, 0, 0, 0, 0, 0, 0, 0, 0, 0, 0, 0, 0, 0, 0, 0]
  datatype Packet = Packet(channel: Byte, size: Byte, data: PacketData)

  /** One `com.write`: the channel and the 23 frame bytes (the rest of the packet is zero). */
  datatype Sent = Sent(channel: nat, frame: seq<Byte>)

  // ---------------------------------------------------------------------
  // Frames the node sends
  // ---------------------------------------------------------------------

  /** The config-state probe: type 0 from this node, zero destination and payload. */
  function ProbeMessage(own: Address): Message
  {
    Message(ProbeType, own, ZeroAddress, ZeroPayload, 0)
  }

  /** The answer to a probe: back to the prober, from this node, `payload[0] = 1`. */
  function AckMessage(m: Message, own: Address): Message
  {
    m.(destination := m.source, source := own, payload := m.payload[0 := 1])
  }

  /** A fire (type 3) or reset (type 4) message with an all-zero payload. */
  function AlarmMessage(kind: Byte, own: Address, dest: Address): Message
  {
    Message(kind, own, dest, ZeroPayload, 0)
  }

  /** The idle-state beacon: this node's address followed by its four edges. */
  function BeaconMessage(own: Address, edges: seq<Address>, dest: Address): Message
    requires |edges| == MaxChannel
  {
    Message(TopologyType, own, dest, own + edges[0] + edges[1] + edges[2] + edges[3], 0)
  }

  /** The sender address a topology message carries, `payload[0..3)`. */
  function Mac(p: Payload): Address
  {
    p[0..3]
  }

  /** Neighbour `k` (0-based) a topology message carries, `payload[3 + 3k .. 6 + 3k)`. */
  function NeighbourAt(p: Payload, k: nat): Address
    requires k < MaxChannel
  {
    p[3 + 3 * k .. 6 + 3 * k]
  }

  /** A beacon read back by `updateEdges` names its sender and the sender's four edges. */
  lemma BeaconCarriesEdges(own: Address, edges: seq<Address>, dest: Address)
    requires |edges| == MaxChannel
    ensures var p := BeaconMessage(own, edges, dest).payload;
      Mac(p) == own && forall k :: 0 <= k < MaxChannel ==> NeighbourAt(p, k) == edges[k]
  {
    var p := BeaconMessage(own, edges, dest).payload;
    assert p == own + edges[0] + edges[1] + edges[2] + edges[3];
    assert NeighbourAt(p, 0) == edges[0] && NeighbourAt(p, 1) == edges[1];
    assert NeighbourAt(p, 2) == edges[2] && NeighbourAt(p, 3) == edges[3];
  }

  // ---------------------------------------------------------------------
  // What the node writes
  // ---------------------------------------------------------------------

  function Copies(channel: nat, frame: seq<Byte>, n: nat): (s: seq<Sent>)
  {
    seq(n, _ => Sent(channel, frame))
  }

  /**
   * Channel by channel in increasing order, `copies` writes of `frames[i]`
   * on every channel `i < n` for which `send[i]` holds.
   */
  function Fanout(send: seq<bool>, frames: seq<seq<Byte>>, copies: nat, n: nat): seq<Sent>
    requires n <= |send| && |frames| == |send|
  {
    if n == 0 then []
    else Fanout(send, frames, copies, n - 1) + (if send[n - 1] then Copies(n - 1, frames[n - 1], copies) else [])
  }

  /** The number of `i < n` with `send[i]`. */
  function CountTrue(send: seq<bool>, n: nat): nat
    requires n <= |send|
  {
    if n == 0 then 0 else CountTrue(send, n - 1) + (if send[n - 1] then 1 else 0)
  }

  lemma MulStep(a: nat, c: nat)
    ensures a * (c + 1) == a * c + a
  {
  }

  /** Each selected channel gets `copies` writes. */
  lemma {:induction false} FanoutLength(send: seq<bool>, frames: seq<seq<Byte>>, copies: nat, n: nat)
    requires n <= |send| && |frames| == |send|
    ensures |Fanout(send, frames, copies, n)| == copies * CountTrue(send, n)
  {
    if n > 0 {
      FanoutLength(send, frames, copies, n - 1);
      if send[n - 1] {
        MulStep(copies, CountTrue(send, n - 1));
      }
    }
  }

  /** Every write of a fan-out goes to a selected channel and carries that channel's frame. */
  lemma {:induction false} FanoutChannels(send: seq<bool>, frames: seq<seq<Byte>>, copies: nat, n: nat)
    requires n <= |send| && |frames| == |send|
    ensures forall j :: 0 <= j < |Fanout(send, frames, copies, n)| ==>
      var w := Fanout(send, frames, copies, n)[j]; w.channel < n && send[w.channel] && w.frame == frames[w.channel]
  {
    if n > 0 {
      FanoutChannels(send, frames, copies, n - 1);
    }
  }

  /** A selected channel is written `copies` times. */
  lemma {:induction false} FanoutReaches(send: seq<bool>, frames: seq<seq<Byte>>, copies: nat, n: nat, c: nat)
    requires n <= |send| && |frames| == |send| && c < n && send[c] && copies > 0
    ensures Sent(c, frames[c]) in Fanout(send, frames, copies, n)
  {
    if c < n - 1 {
      FanoutReaches(send, frames, copies, n - 1, c);
    } else {
      assert Copies(c, frames[c], copies)[0] == Sent(c, frames[c]);
    }
  }

  // ---------------------------------------------------------------------
  // The address registry
  // ---------------------------------------------------------------------

  /**
   * `std::find_if` over `address_set`: the first position holding `a`, or
   * the size when there is none.  The source compares the addresses'
   * `mcp_address_to_u32` numbers, which agree exactly when the addresses do
   * (`Mcp.AddressToU32Injective`).
   */
  function Find(reg: seq<Address>, a: Address): (r: nat)
    ensures r <= |reg|
    ensures r < |reg| ==> reg[r] == a
    ensures forall j :: 0 <= j < r ==> reg[j] != a
  {
    if |reg| == 0 then 0
    else if reg[0] == a then 0
    else 1 + Find(reg[1..], a)
  }

  /** Entries from `index` on are empty: the registry fills up from the front. */
  predicate Registry(reg: seq<Address>, index: nat)
  {
    |reg| == RegistrySize && forall k :: index <= k < RegistrySize ==> reg[k] == ZeroAddress
  }

  /** The four neighbour addresses of a topology message. */
  function Neighbours(p: Payload): (ns: seq<Address>)
    ensures |ns| == MaxChannel && forall k :: 0 <= k < MaxChannel ==> ns[k] == NeighbourAt(p, k)
  {
    [NeighbourAt(p, 0), NeighbourAt(p, 1), NeighbourAt(p, 2), NeighbourAt(p, 3)]
  }

  /** `exist1` .. `exist4`: where each neighbour was found before anything was inserted. */
  function Lookups(reg: seq<Address>, p: Payload): (looked: seq<nat>)
    ensures |looked| == MaxChannel && forall k :: 0 <= k < MaxChannel ==> looked[k] == Find(reg, NeighbourAt(p, k))
  {
    [Find(reg, NeighbourAt(p, 0)), Find(reg, NeighbourAt(p, 1)), Find(reg, NeighbourAt(p, 2)), Find(reg, NeighbourAt(p, 3))]
  }

  /** The sender's address when `updateEdges` appends it: it is not yet registered. */
  function NewSender(reg: seq<Address>, p: Payload): seq<Address>
  {
    if Find(reg, Mac(p)) == |reg| then [Mac(p)] else []
  }

  /**
   * The neighbours among the first `n` that `updateEdges` appends: the
   * non-zero ones the lookups did not find.  Every lookup happens before any
   * insertion, so a new address named twice is appended twice.
   */
  function NewNeighbours(ns: seq<Address>, looked: seq<nat>, n: nat): seq<Address>
    requires n <= |ns| == |looked|
  {
    if n == 0 then []
    else NewNeighbours(ns, looked, n - 1) + (if ns[n - 1] != ZeroAddress && looked[n - 1] == RegistrySize then [ns[n - 1]] else [])
  }

  /** Everything `updateEdges` appends, in order. */
  function Fresh(reg: seq<Address>, p: Payload): seq<Address>
    requires |reg| == RegistrySize
  {
    NewSender(reg, p) + NewNeighbours(Neighbours(p), Lookups(reg, p), MaxChannel)
  }

  lemma {:induction false} NewNeighboursLength(ns: seq<Address>, looked: seq<nat>, n: nat)
    requires n <= |ns| == |looked|
    ensures |NewNeighbours(ns, looked, n)| <= n
  {
    if n > 0 {
      NewNeighboursLength(ns, looked, n - 1);
    }
  }

  /** Later neighbour slots only add to what earlier ones appended. */
  lemma {:induction false} NewNeighboursGrow(ns: seq<Address>, looked: seq<nat>, k: nat, n: nat)
    requires k <= n <= |ns| == |looked|
    ensures |NewNeighbours(ns, looked, k)| <= |NewNeighbours(ns, looked, n)|
    ensures NewNeighbours(ns, looked, n)[..|NewNeighbours(ns, looked, k)|] == NewNeighbours(ns, looked, k)
  {
    if k < n {
      NewNeighboursGrow(ns, looked, k, n - 1);
      var a := NewNeighbours(ns, looked, n - 1);
      assert NewNeighbours(ns, looked, n)[..|a|] == a;
    }
  }

  /** One call appends at most five addresses. */
  lemma FreshBound(reg: seq<Address>, p: Payload)
    requires |reg| == RegistrySize
    ensures |Fresh(reg, p)| <= 5
  {
    NewNeighboursLength(Neighbours(p), Lookups(reg, p), MaxChannel);
  }

  /**
   * The lookups run before the insertions: an unregistered neighbour named
   * in the first two slots is appended twice, at two positions.
   */
  lemma RepeatedNeighbourAppendedTwice(reg: seq<Address>, p: Payload)
    requires |reg| == RegistrySize
    requires NeighbourAt(p, 0) == NeighbourAt(p, 1) != ZeroAddress && Find(reg, NeighbourAt(p, 0)) == RegistrySize
    ensures var i := |NewSender(reg, p)|;
      i + 1 < |Fresh(reg, p)| && Fresh(reg, p)[i] == Fresh(reg, p)[i + 1] == NeighbourAt(p, 0)
  {
    var n := NeighbourAt(p, 0);
    var ns, looked := Neighbours(p), Lookups(reg, p);
    assert NewNeighbours(ns, looked, 1) == [n];
    assert NewNeighbours(ns, looked, 2) == [n, n];
    NewNeighboursGrow(ns, looked, 2, MaxChannel);
  }

  /** The `neighbour_list` row `updateEdges` fills: the sender's existing entry, or the next free one. */
  function SenderRow(reg: seq<Address>, index: nat, p: Payload): nat
  {
    if Find(reg, Mac(p)) < |reg| then Find(reg, Mac(p)) else index
  }

  /**
   * Neighbour slot entry `e` for address `n`: -1 exactly when `n` is zero,
   * otherwise a registry position below `bound` holding `n`, the position
   * the lookup returned when it found one.
   */
  predicate Resolved(reg: seq<Address>, e: int, n: Address, found: nat, bound: nat)
    requires |reg| == RegistrySize
  {
    (n == ZeroAddress <==> e == NoNeighbour) &&
    (n != ZeroAddress ==> 0 <= e < bound && e < RegistrySize && reg[e] == n && (found < RegistrySize ==> e == found))
  }

  predicate Table(nb: seq<seq<int>>)
  {
    |nb| == RegistrySize &&
    (forall r :: 0 <= r < RegistrySize ==> |nb[r]| == MaxChannel) &&
    forall r, k :: 0 <= r < RegistrySize && 0 <= k < MaxChannel ==> NoNeighbour <= nb[r][k] < RegistrySize
  }

  predicate Appended(reg: seq<Address>, index: nat, added: seq<Address>, reg': seq<Address>)
    requires |reg| == RegistrySize && |reg'| == RegistrySize
  {
    forall j :: 0 <= j < RegistrySize ==> reg'[j] == if index <= j < index + |added| then added[j - index] else reg[j]
  }

  /** Writing the next address right after those appended extends them. */
  lemma AppendedStep(reg: seq<Address>, index: nat, added: seq<Address>, x: Address, reg': seq<Address>)
    requires |reg| == RegistrySize && |reg'| == RegistrySize && index + |added| < RegistrySize
    requires Appended(reg, index, added, reg')
    ensures Appended(reg, index, added + [x], reg'[index + |added| := x])
  {
  }

  lemma AppendedIsOverwrite(reg: seq<Address>, index: nat, added: seq<Address>, reg': seq<Address>)
    requires |reg| == RegistrySize && |reg'| == RegistrySize && index + |added| <= RegistrySize
    requires Appended(reg, index, added, reg')
    ensures reg' == Overwrite(reg, index, added)
  {
  }

  /** Slots `0 .. k)` of a neighbour row are resolved against registry `reg'`. */
  predicate Slots(reg': seq<Address>, es: seq<int>, ns: seq<Address>, looked: seq<nat>, k: nat, bound: nat)
    requires |reg'| == RegistrySize && k <= |es| && k <= |ns| && k <= |looked|
  {
    forall i :: 0 <= i < k ==> Resolved(reg', es[i], ns[i], looked[i], bound)
  }

  lemma SlotsExtend(reg': seq<Address>, es: seq<int>, ns: seq<Address>, looked: seq<nat>, k: nat, bound: nat, e: int)
    requires |reg'| == RegistrySize && k < |es| && k < |ns| && k < |looked|
    requires Slots(reg', es, ns, looked, k, bound) && Resolved(reg', e, ns[k], looked[k], bound)
    ensures Slots(reg', es[k := e], ns, looked, k + 1, bound)
  {
    forall i | 0 <= i < k + 1
      ensures Resolved(reg', es[k := e][i], ns[i], looked[i], bound)
    {
      if i < k {
        assert es[k := e][i] == es[i];
      }
    }
  }

  lemma SlotsWiden(reg': seq<Address>, reg2: seq<Address>, es: seq<int>, ns: seq<Address>, looked: seq<nat>, k: nat, bound: nat)
    requires |reg'| == RegistrySize && |reg2| == RegistrySize && k <= |es| && k <= |ns| && k <= |looked|
    requires Slots(reg', es, ns, looked, k, bound)
    requires forall j :: 0 <= j < bound && j < RegistrySize ==> reg2[j] == reg'[j]
    ensures Slots(reg2, es, ns, looked, k, bound + 1)
  {
    forall i | 0 <= i < k
      ensures Resolved(reg2, es[i], ns[i], looked[i], bound + 1)
    {
      assert Resolved(reg', es[i], ns[i], looked[i], bound);
    }
  }

  /**
   * The state after `updateEdges` has dealt with the sender and neighbour
   * slots `0 .. k)`: what was appended so far (`head`, then the new
   * neighbours) sits from `index` on, the sender's address is at `row`, and
   * slots `0 .. k)` of that row are resolved.
   */
  predicate Progress(reg: seq<Address>, index: nat, head: seq<Address>, mac: Address, ns: seq<Address>, looked: seq<nat>,
                     row: nat, k: nat, reg': seq<Address>, nb': seq<seq<int>>, index': nat)
    requires k <= |ns| == |looked| == MaxChannel
  {
    |reg| == RegistrySize && |reg'| == RegistrySize && Table(nb') && row < RegistrySize &&
    index' == index + |head + NewNeighbours(ns, looked, k)| &&
    Appended(reg, index, head + NewNeighbours(ns, looked, k), reg') &&
    (mac != ZeroAddress ==> reg'[row] == mac) &&
    Slots(reg', nb'[row], ns, looked, k, index')
  }

  /** Writing slot `k` of row `row` keeps the table well formed. */
  lemma TableSet(nb: seq<seq<int>>, row: nat, k: nat, e: int)
    requires Table(nb) && row < RegistrySize && k < MaxChannel && NoNeighbour <= e < RegistrySize
    ensures Table(nb[row := nb[row][k := e]])
  {
  }

  lemma ProgressZero(reg: seq<Address>, index: nat, head: seq<Address>, mac: Address, ns: seq<Address>, looked: seq<nat>,
                     row: nat, k: nat, reg': seq<Address>, nb: seq<seq<int>>, index': nat)
    requires k < |ns| == |looked| == MaxChannel && ns[k] == ZeroAddress
    requires Progress(reg, index, head, mac, ns, looked, row, k, reg', nb, index')
    ensures Progress(reg, index, head, mac, ns, looked, row, k + 1, reg', nb[row := nb[row][k := NoNeighbour]], index')
  {
    assert NewNeighbours(ns, looked, k + 1) == NewNeighbours(ns, looked, k);
    TableSet(nb, row, k, NoNeighbour);
    SlotsExtend(reg', nb[row], ns, looked, k, index', NoNeighbour);
  }

  lemma ProgressFound(reg: seq<Address>, index: nat, head: seq<Address>, mac: Address, ns: seq<Address>, looked: seq<nat>,
                      row: nat, k: nat, reg': seq<Address>, nb: seq<seq<int>>, index': nat)
    requires k < |ns| == |looked| == MaxChannel && ns[k] != ZeroAddress && looked[k] < RegistrySize
    requires Registry(reg, index) && reg[looked[k]] == ns[k]
    requires Progress(reg, index, head, mac, ns, looked, row, k, reg', nb, index')
    ensures Progress(reg, index, head, mac, ns, looked, row, k + 1, reg', nb[row := nb[row][k := looked[k]]], index')
  {
    var e := looked[k];
    assert NewNeighbours(ns, looked, k + 1) == NewNeighbours(ns, looked, k);
    assert reg[e] == ns[k] && e < index;
    assert reg'[e] == ns[k];
    TableSet(nb, row, k, e);
    SlotsExtend(reg', nb[row], ns, looked, k, index', e);
  }

  lemma ProgressNew(reg: seq<Address>, index: nat, head: seq<Address>, mac: Address, ns: seq<Address>, looked: seq<nat>,
                    row: nat, k: nat, reg': seq<Address>, nb: seq<seq<int>>, index': nat)
    requires k < |ns| == |looked| == MaxChannel && ns[k] != ZeroAddress && looked[k] == RegistrySize
    requires Registry(reg, index) && index' < RegistrySize
    requires Progress(reg, index, head, mac, ns, looked, row, k, reg', nb, index')
    ensures Progress(reg, index, head, mac, ns, looked, row, k + 1, reg'[index' := ns[k]], nb[row := nb[row][k := index']], index' + 1)
  {
    var before := head + NewNeighbours(ns, looked, k);
    var after := head + NewNeighbours(ns, looked, k + 1);
    assert after == before + [ns[k]];
    var reg2 := reg'[index' := ns[k]];
    assert reg'[index'] == ZeroAddress;
    forall j | 0 <= j < RegistrySize
      ensures reg2[j] == if index <= j < index + |after| then after[j - index] else reg[j]
    {
      if index <= j < index' {
        assert after[j - index] == before[j - index];
      }
    }
    TableSet(nb, row, k, index');
    SlotsWiden(reg', reg2, nb[row], ns, looked, k, index');
    SlotsExtend(reg2, nb[row], ns, looked, k, index' + 1, index');
  }

  /** The sender block of `updateEdges` starts the progress at slot 0. */
  lemma SenderRegistered(reg: seq<Address>, index: nat, p: Payload, reg': seq<Address>, nb: seq<seq<int>>, index': nat)
    requires Registry(reg, index) && Table(nb)
    requires Find(reg, Mac(p)) < RegistrySize ==> reg' == reg && index' == index
    requires Find(reg, Mac(p)) == RegistrySize ==> index < RegistrySize && reg' == reg[index := Mac(p)] && index' == index + 1
    ensures Progress(reg, index, NewSender(reg, p), Mac(p), Neighbours(p), Lookups(reg, p), SenderRow(reg, index, p), 0, reg', nb, index')
  {
    assert NewNeighbours(Neighbours(p), Lookups(reg, p), 0) == [];
  }

  // ---------------------------------------------------------------------
  // The adjacency matrix
  // ---------------------------------------------------------------------

  /** The first pass of `createTopo`: 0 on the diagonal, -1 elsewhere. */
  function Initial(i: int, j: int): int
  {
    if i == j then 0 else -1
  }

  /** Row `i` of the matrix once the first `k` neighbour slots `row` have been linked. */
  function LinkedRow(row: seq<int>, k: nat, i: nat): seq<int>
    requires k <= |row|
  {
    seq(RegistrySize, c => if c in row[..k] then 1 else Initial(i, c))
  }

  /** The matrix `createTopo` builds from `neighbour_list`. */
  function TopoOf(nb: seq<seq<int>>): (m: seq<seq<int>>)
    requires Table(nb)
    ensures Topo.IsMatrix(m)
  {
    seq(RegistrySize, i requires 0 <= i < RegistrySize => LinkedRow(nb[i], MaxChannel, i))
  }

  /** Linking one more slot sets one entry of the row to 1, or nothing for an empty slot. */
  lemma LinkedRowStep(row: seq<int>, k: nat, i: nat)
    requires k < |row| && NoNeighbour <= row[k] < RegistrySize
    ensures LinkedRow(row, k + 1, i) == if row[k] != NoNeighbour then LinkedRow(row, k, i)[row[k] := 1] else LinkedRow(row, k, i)
  {
    assert row[..k + 1] == row[..k] + [row[k]];
  }

  /**
   * `createTopo`: an entry is a link (1) exactly when the column is one of
   * the row's recorded neighbours; otherwise the diagonal is 0 and the rest
   * is -1.  So a node that lists itself gets a 1 on the diagonal.
   */
  lemma TopoOfEntries(nb: seq<seq<int>>, i: nat, j: nat)
    requires Table(nb) && i < RegistrySize && j < RegistrySize
    ensures TopoOf(nb)[i][j] == 1 <==> exists k :: 0 <= k < MaxChannel && nb[i][k] == j
    ensures TopoOf(nb)[i][j] != 1 ==> TopoOf(nb)[i][j] == if i == j then 0 else -1
    ensures TopoOf(nb)[i][j] > 0 <==> TopoOf(nb)[i][j] == 1
  {
    assert nb[i][..MaxChannel] == nb[i];
    if TopoOf(nb)[i][j] == 1 {
      var k :| 0 <= k < MaxChannel && nb[i][k] == j;
    }
  }

  // ---------------------------------------------------------------------
  // saveMyEdges
  // ---------------------------------------------------------------------

  /** `saveMyEdges` takes an edge for real only when all three bytes are non-zero. */
  predicate Full(a: Address)
  {
    a[0] != 0 && a[1] != 0 && a[2] != 0
  }

  /** The full edges among the first `n`, in channel order. */
  function FullEdges(edges: seq<Address>, n: nat): seq<Address>
    requires n <= |edges|
  {
    if n == 0 then []
    else FullEdges(edges, n - 1) + (if Full(edges[n - 1]) then [edges[n - 1]] else [])
  }

  lemma {:induction false} FullEdgesGrow(edges: seq<Address>, k: nat, n: nat)
    requires k <= n <= |edges|
    ensures |FullEdges(edges, k)| <= |FullEdges(edges, n)| <= n
    ensures FullEdges(edges, n)[..|FullEdges(edges, k)|] == FullEdges(edges, k)
  {
    if k < n {
      FullEdgesGrow(edges, k, n - 1);
      var a := FullEdges(edges, n - 1);
      assert FullEdges(edges, n)[..|a|] == a;
    } else if n > 0 {
      FullEdgesGrow(edges, n - 1, n - 1);
    }
  }

  /** Every full edge is among those appended. */
  lemma {:induction false} FullEdgesHas(edges: seq<Address>, n: nat, i: nat)
    requires i < n <= |edges| && Full(edges[i])
    ensures edges[i] in FullEdges(edges, n)
  {
    if i < n - 1 {
      FullEdgesHas(edges, n - 1, i);
    }
  }

  /** The first all-zero registry entry, or 0 when there is none. */
  function FirstEmpty(reg: seq<Address>): (r: nat)
    ensures r < |reg| || r == 0
  {
    if Find(reg, ZeroAddress) < |reg| then Find(reg, ZeroAddress) else 0
  }

  /** `reg` with `added` written from position `start` on. */
  function Overwrite(reg: seq<Address>, start: nat, added: seq<Address>): (r: seq<Address>)
    requires |reg| == RegistrySize
    ensures |r| == RegistrySize && Appended(reg, start, added, r)
  {
    seq(RegistrySize, j requires 0 <= j < RegistrySize => if start <= j < start + |added| then added[j - start] else reg[j])
  }

  /** Row 0 of `neighbour_list` after `saveMyEdges`. */
  function SavedRow(reg: seq<Address>, edges: seq<Address>): seq<int>
    requires |edges| == MaxChannel
  {
    seq(MaxChannel, k requires 0 <= k < MaxChannel => if Full(edges[k]) then Find(reg, edges[k]) else NoNeighbour)
  }

  /** `saveMyEdges` has room to write every full edge. */
  predicate SaveFits(h: Roster)
    requires |h.edges| == MaxChannel
  {
    FirstEmpty(h.addressSet) + |FullEdges(h.edges, MaxChannel)| <= RegistrySize
  }

  // ---------------------------------------------------------------------
  // The node
  // ---------------------------------------------------------------------

  /** Every global of the firmware that the protocol logic reads or writes. */
  datatype Snapshot = Snapshot(
    state: NodeState, configTries: int, startTime: bv32,
    edges: seq<Address>, verified: seq<bool>, inFire: seq<bool>,
    addressSet: seq<Address>, neighbours: seq<seq<int>>, indexAddressSet: nat,
    matrix: seq<seq<int>>, sent: seq<Sent>)

  /** The shapes of the globals, and the registry filling up from the front. */
  predicate Wf(s: Snapshot)
  {
    |s.edges| == MaxChannel && |s.verified| == MaxChannel && |s.inFire| == MaxChannel &&
    Registry(s.addressSet, s.indexAddressSet) && Table(s.neighbours) && Topo.IsMatrix(s.matrix)
  }

  /** The registry and the matrix are all `Wf` depends on beyond the channel arrays' sizes. */
  lemma WfKept(s: Snapshot, a: Snapshot)
    requires Wf(s) && a.addressSet == s.addressSet && a.indexAddressSet == s.indexAddressSet
    requires a.neighbours == s.neighbours && a.matrix == s.matrix
    requires |a.edges| == MaxChannel && |a.verified| == MaxChannel && |a.inFire| == MaxChannel
    ensures Wf(a)
  {
  }

  /**
   * What `updateEdges` with payload `p` does to state `b`: it appends the
   * fresh addresses at `index_address_set`, puts the sender's address at
   * its row, resolves the four neighbour slots of that row against the
   * lookups made before any insertion, and touches nothing else.
   */
  predicate Registered(b: Snapshot, p: Payload, a: Snapshot)
    requires Wf(b) && Wf(a)
  {
    var row := SenderRow(b.addressSet, b.indexAddressSet, p);
    var added := Fresh(b.addressSet, p);
    a == b.(addressSet := a.addressSet, neighbours := a.neighbours, indexAddressSet := a.indexAddressSet) &&
    a.indexAddressSet == b.indexAddressSet + |added| &&
    Appended(b.addressSet, b.indexAddressSet, added, a.addressSet) &&
    row < RegistrySize &&
    (forall r :: 0 <= r < RegistrySize && r != row ==> a.neighbours[r] == b.neighbours[r]) &&
    (Mac(p) != ZeroAddress ==> a.addressSet[row] == Mac(p)) &&
    Slots(a.addressSet, a.neighbours[row], Neighbours(p), Lookups(b.addressSet, p), MaxChannel, a.indexAddressSet)
  }

  /** Progress through all four slots is the whole effect of `updateEdges`. */
  lemma RegisteredOfProgress(b: Snapshot, p: Payload, a: Snapshot)
    requires Wf(b) && Table(a.neighbours)
    requires a == b.(addressSet := a.addressSet, neighbours := a.neighbours, indexAddressSet := a.indexAddressSet)
    requires Progress(b.addressSet, b.indexAddressSet, NewSender(b.addressSet, p), Mac(p), Neighbours(p), Lookups(b.addressSet, p),
                      SenderRow(b.addressSet, b.indexAddressSet, p), MaxChannel, a.addressSet, a.neighbours, a.indexAddressSet)
    requires forall r :: 0 <= r < RegistrySize && r != SenderRow(b.addressSet, b.indexAddressSet, p) ==> a.neighbours[r] == b.neighbours[r]
    ensures Wf(a) && Registered(b, p, a)
  {
    assert Registry(a.addressSet, a.indexAddressSet);
  }

  /**
   * `saveMyEdges`: the full edges are written from the first empty entry
   * on (entry 0 when none is empty), the count grows by their number, and
   * row 0 of `neighbour_list` gets each full edge's first registry
   * position, -1 for the others.
   */
  function Saved(b: Snapshot): (a: Snapshot)
    requires Wf(b)
  {
    var reg := Overwrite(b.addressSet, FirstEmpty(b.addressSet), FullEdges(b.edges, MaxChannel));
    b.(addressSet := reg, indexAddressSet := b.indexAddressSet + |FullEdges(b.edges, MaxChannel)|,
       neighbours := b.neighbours[0 := SavedRow(reg, b.edges)])
  }

  /**
   * After `saveMyEdges` the registry still fills from the front, every
   * full edge of this node is registered, and row 0 names for each full
   * edge a position holding it and -1 for every other channel.
   */
  lemma SavedResolves(b: Snapshot)
    requires Wf(b) && SaveFits(RosterOf(b))
    ensures Wf(Saved(b))
    ensures forall k :: 0 <= k < MaxChannel ==>
      var e := Saved(b).neighbours[0][k];
      (Full(b.edges[k]) ==> 0 <= e < RegistrySize && Saved(b).addressSet[e] == b.edges[k]) &&
      (!Full(b.edges[k]) ==> e == NoNeighbour)
  {
    var added := FullEdges(b.edges, MaxChannel);
    var start := FirstEmpty(b.addressSet);
    var reg := Saved(b).addressSet;
    FullEdgesGrow(b.edges, MaxChannel, MaxChannel);
    if b.indexAddressSet < RegistrySize {
      assert b.addressSet[b.indexAddressSet] == ZeroAddress;
      assert start <= b.indexAddressSet;
    }
    assert Registry(reg, Saved(b).indexAddressSet);
    forall k | 0 <= k < MaxChannel && Full(b.edges[k])
      ensures Find(reg, b.edges[k]) < RegistrySize
    {
      FullEdgesHas(b.edges, MaxChannel, k);
      var t :| 0 <= t < |added| && added[t] == b.edges[k];
      assert reg[start + t] == b.edges[k];
    }
  }

  // ---------------------------------------------------------------------
  // handle_message
  // ---------------------------------------------------------------------

  /** The message a 23-byte packet carries, read without checking its CRC. */
  function Received(pkt: Packet): Message
    requires pkt.size as nat == BufferSize
  {
    Decode(pkt.data[..BufferSize])
  }

  /** A topology message is forwarded on every verified channel except the one it came in on. */
  function ForwardTo(verified: seq<bool>, channel: nat): (send: seq<bool>)
    requires |verified| == MaxChannel
    ensures |send| == MaxChannel && forall i :: 0 <= i < MaxChannel ==> (send[i] <==> i != channel && verified[i])
  {
    seq(MaxChannel, i requires 0 <= i < MaxChannel => i != channel && verified[i])
  }

  /** The forwarded copy on channel `i` is addressed to the edge heard there. */
  function ForwardFrames(m: Message, edges: seq<Address>): (frames: seq<seq<Byte>>)
    requires |edges| == MaxChannel
    ensures |frames| == MaxChannel && forall i :: 0 <= i < MaxChannel ==> frames[i] == Encode(m.(destination := edges[i]))
  {
    seq(MaxChannel, i requires 0 <= i < MaxChannel => Encode(m.(destination := edges[i])))
  }

  /** The same alarm frame for every channel. */
  function AlarmFrames(kind: Byte, own: Address, dest: Address): (frames: seq<seq<Byte>>)
    ensures |frames| == MaxChannel && forall i :: 0 <= i < MaxChannel ==> frames[i] == Encode(AlarmMessage(kind, own, dest))
  {
    seq(MaxChannel, _ => Encode(AlarmMessage(kind, own, dest)))
  }

  /** The addresses `handle_message(pkt)` appends to registry `reg`: those of a full-size topology message. */
  function Added(reg: seq<Address>, pkt: Packet): seq<Address>
    requires |reg| == RegistrySize
  {
    if pkt.size as nat == BufferSize && Received(pkt).kind == TopologyType then Fresh(reg, Received(pkt).payload) else []
  }

  /** `handle_message` needs room in the registry for what a topology message adds. */
  predicate Fits(h: Roster, pkt: Packet)
    requires |h.addressSet| == RegistrySize
  {
    h.indexAddressSet + |Added(h.addressSet, pkt)| <= RegistrySize || Added(h.addressSet, pkt) == []
  }

  /**
   * A type-0 frame on channel `ch`: an acknowledgement (`payload[0] == 1`)
   * records and verifies its sender; a probe records the sender only on an
   * unverified channel and is answered with 16 acknowledgements.
   */
  predicate ProbeHandled(b: Snapshot, own: Address, m: Message, ch: nat, a: Snapshot)
    requires Wf(b) && ch < MaxChannel
  {
    if m.payload[0] == 1 then
      a == b.(edges := b.edges[ch := m.source], verified := b.verified[ch := true])
    else
      a == b.(edges := if b.verified[ch] then b.edges else b.edges[ch := m.source], verified := b.verified[ch := true],
              sent := b.sent + Copies(ch, Encode(AckMessage(m, own)), FloodCopies))
  }

  /**
   * A type-1 frame: `updateEdges`, then `createTopo`, then 8 copies
   * readdressed to the edge of every other verified channel.
   */
  predicate TopologyHandled(b: Snapshot, m: Message, ch: nat, a: Snapshot)
    requires Wf(b) && Wf(a)
  {
    var registered := a.(matrix := b.matrix, sent := b.sent);
    Registered(b, m.payload, registered) && a.matrix == TopoOf(a.neighbours) &&
    a.sent == b.sent + Fanout(ForwardTo(b.verified, ch), ForwardFrames(m, b.edges), ForwardCopies, MaxChannel)
  }

  /**
   * A fire (type 3) or reset (type 4) frame: with `payload[0] == 1` it sets
   * or clears `neighbour_in_fire[ch]`; otherwise the state becomes fire or
   * idle and 16 alarm frames go out on every verified channel.
   */
  predicate AlarmHandled(b: Snapshot, own: Address, m: Message, ch: nat, a: Snapshot)
    requires Wf(b) && ch < MaxChannel && (m.kind == FireType || m.kind == ResetType)
  {
    var fire := m.kind == FireType;
    if m.payload[0] == 1 then a == b.(inFire := b.inFire[ch := fire])
    else
      var dest := if fire then b.edges[ch] else ZeroAddress;
      a == b.(state := if fire then Fire else Idle,
              sent := b.sent + Fanout(b.verified, AlarmFrames(m.kind, own, dest), FloodCopies, MaxChannel))
  }

  /**
   * What `handle_message` does to state `b` for packet `pkt` at a node with
   * address `own`.  Packets of any size but 23 and frames of any other type
   * change nothing; the CRC byte is never looked at.
   */
  predicate Handled(b: Snapshot, own: Address, pkt: Packet, a: Snapshot)
    requires Wf(b) && Wf(a)
    requires pkt.size as nat == BufferSize ==> pkt.channel as nat < MaxChannel
  {
    if pkt.size as nat != BufferSize then a == b
    else
      var m := Received(pkt);
      var ch := pkt.channel as nat;
      if m.kind == ProbeType then ProbeHandled(b, own, m, ch, a)
      else if m.kind == TopologyType then TopologyHandled(b, m, ch, a)
      else if m.kind == FireType || m.kind == ResetType then AlarmHandled(b, own, m, ch, a)
      else a == b
  }

  /**
   * An acknowledgement is a well-formed type-0 frame flagged with
   * `payload[0] == 1`, from this node and addressed to the prober.
   */
  lemma AckAnswersProbe(m: Message, own: Address)
    requires m.kind == ProbeType
    ensures var r := Decode(Encode(AckMessage(m, own)));
      r.kind == ProbeType && r.payload[0] == 1 && r.source == own && r.destination == m.source
    ensures CheckCrc(Encode(AckMessage(m, own)))
  {
    DecodeEncode(AckMessage(m, own));
    EncodePassesCheck(AckMessage(m, own));
  }

  /** The prober, handling that acknowledgement, records the responder on the channel and sends nothing. */
  lemma AckRecordsResponder(b: Snapshot, x: Address, m: Message, own: Address, ch: nat, a: Snapshot)
    requires Wf(b) && ch < MaxChannel && m.kind == ProbeType
    requires ProbeHandled(b, x, Decode(Encode(AckMessage(m, own))), ch, a)
    ensures a.edges[ch] == own && a.verified[ch] && a.sent == b.sent
  {
    AckAnswersProbe(m, own);
  }

  /**
   * Every copy of a fire or reset flood goes to a verified channel and
   * carries `payload[0] == 0`: the flag is set only after the frame is
   * built.  The channel the alarm arrived on gets copies too.
   */
  lemma AlarmFloodUnflagged(verified: seq<bool>, kind: Byte, own: Address, dest: Address, copies: nat, ch: nat)
    requires |verified| == MaxChannel
    ensures forall j :: 0 <= j < |Fanout(verified, AlarmFrames(kind, own, dest), copies, MaxChannel)| ==>
      var w := Fanout(verified, AlarmFrames(kind, own, dest), copies, MaxChannel)[j];
      w.channel < MaxChannel && verified[w.channel] && |w.frame| == BufferSize &&
      Decode(w.frame).kind == kind && Decode(w.frame).payload[0] == 0
    ensures ch < MaxChannel && verified[ch] && copies > 0 ==>
      Sent(ch, Encode(AlarmMessage(kind, own, dest))) in Fanout(verified, AlarmFrames(kind, own, dest), copies, MaxChannel)
  {
    var frames := AlarmFrames(kind, own, dest);
    FanoutChannels(verified, frames, copies, MaxChannel);
    DecodeEncode(AlarmMessage(kind, own, dest));
    EncodeLayout(AlarmMessage(kind, own, dest));
    if ch < MaxChannel && verified[ch] && copies > 0 {
      FanoutReaches(verified, frames, copies, MaxChannel, ch);
    }
  }

  /** The CRC field never reaches the wire: frames are rebuilt from the header. */
  lemma EncodeIgnoresCrc(m: Message, x: Byte)
    ensures Encode(m.(crc := x)) == Encode(m)
  {
    assert Header(m.(crc := x)) == Header(m);
  }

  /**
   * `handle_message` never checks the CRC: a packet whose CRC byte is
   * changed is handled exactly like the original.
   */
  lemma CrcIgnored(b: Snapshot, own: Address, pkt: Packet, x: Byte, a: Snapshot)
    requires Wf(b) && Wf(a) && pkt.size as nat == BufferSize && pkt.channel as nat < MaxChannel
    ensures Handled(b, own, pkt, a) <==> Handled(b, own, pkt.(data := pkt.data[BufferSize - 1 := x]), a)
  {
    var m, ch := Received(pkt), pkt.channel as nat;
    ReceivedCrc(pkt, x);
    ProbeIgnoresCrc(b, own, m, ch, x, a);
    TopologyIgnoresCrc(b, m, ch, x, a);
  }

  /** The CRC byte is the last byte of the buffer. */
  lemma ReceivedCrc(pkt: Packet, x: Byte)
    requires pkt.size as nat == BufferSize
    ensures Received(pkt.(data := pkt.data[BufferSize - 1 := x])) == Received(pkt).(crc := x)
  {
    var pkt' := pkt.(data := pkt.data[BufferSize - 1 := x]);
    assert pkt'.data[..BufferSize] == pkt.data[..BufferSize][BufferSize - 1 := x];
  }

  lemma ProbeIgnoresCrc(b: Snapshot, own: Address, m: Message, ch: nat, x: Byte, a: Snapshot)
    requires Wf(b) && ch < MaxChannel
    ensures ProbeHandled(b, own, m, ch, a) == ProbeHandled(b, own, m.(crc := x), ch, a)
  {
    EncodeIgnoresCrc(AckMessage(m, own), x);
    assert AckMessage(m.(crc := x), own) == AckMessage(m, own).(crc := x);
  }

  lemma TopologyIgnoresCrc(b: Snapshot, m: Message, ch: nat, x: Byte, a: Snapshot)
    requires Wf(b) && Wf(a)
    ensures TopologyHandled(b, m, ch, a) == TopologyHandled(b, m.(crc := x), ch, a)
  {
    ForwardIgnoresCrc(m, b.edges, x);
  }

  lemma ForwardIgnoresCrc(m: Message, edges: seq<Address>, x: Byte)
    requires |edges| == MaxChannel
    ensures ForwardFrames(m.(crc := x), edges) == ForwardFrames(m, edges)
  {
    var f, f' := ForwardFrames(m, edges), ForwardFrames(m.(crc := x), edges);
    forall i | 0 <= i < MaxChannel
      ensures f'[i] == f[i]
    {
      EncodeIgnoresCrc(m.(destination := edges[i]), x);
      assert m.(crc := x).(destination := edges[i]) == m.(destination := edges[i]).(crc := x);
    }
  }

  /**
   * After a topology message, every non-zero neighbour it names sits in
   * the registry at the position the sender's row records, and the matrix
   * links the sender's row to it; an all-zero neighbour leaves -1.
   */
  lemma TopologyLinksNeighbours(b: Snapshot, m: Message, ch: nat, a: Snapshot, k: nat)
    requires Wf(b) && Wf(a) && TopologyHandled(b, m, ch, a) && k < MaxChannel
    ensures var row := SenderRow(b.addressSet, b.indexAddressSet, m.payload);
      var e := a.neighbours[row][k];
      row < RegistrySize &&
      (NeighbourAt(m.payload, k) == ZeroAddress ==> e == NoNeighbour) &&
      (NeighbourAt(m.payload, k) != ZeroAddress ==> 0 <= e < RegistrySize && a.addressSet[e] == NeighbourAt(m.payload, k) && a.matrix[row][e] == 1)
  {
    var row := SenderRow(b.addressSet, b.indexAddressSet, m.payload);
    var r := a.(matrix := b.matrix, sent := b.sent);
    assert Registered(b, m.payload, r);
    assert Resolved(a.addressSet, a.neighbours[row][k], Neighbours(m.payload)[k], Lookups(b.addressSet, m.payload)[k], a.indexAddressSet);
    var e := a.neighbours[row][k];
    if NeighbourAt(m.payload, k) != ZeroAddress {
      TopoOfEntries(a.neighbours, row, e);
    }
  }

  /**
   * `saveMyEdges` appends a full edge even when it is registered already;
   * row 0 then names the earlier entry.
   */
  lemma SavedKeepsEarlierEntry(b: Snapshot, k: nat)
    requires Wf(b) && SaveFits(RosterOf(b)) && k < MaxChannel && Full(b.edges[k])
    requires Find(b.addressSet, b.edges[k]) < FirstEmpty(b.addressSet)
    ensures Saved(b).neighbours[0][k] == Find(b.addressSet, b.edges[k])
    ensures Saved(b).indexAddressSet == b.indexAddressSet + |FullEdges(b.edges, MaxChannel)|
  {
    var p := Find(b.addressSet, b.edges[k]);
    var reg := Saved(b).addressSet;
    assert reg[p] == b.edges[k];
    assert forall j :: 0 <= j < p ==> reg[j] == b.addressSet[j];
  }

  /**
   * The probe timer compares in unsigned 32-bit arithmetic, so it keeps
   * working when `millis()` wraps: started 16 ms before the wrap, 126 ms
   * later is due and 125 ms later is not.
   */
  lemma ProbeAcrossWrap(b: Snapshot, own: Address)
    requires Wf(b) && b.startTime == 0xFFFF_FFF0
    ensures Probed(b, own, 0x6E).configTries == b.configTries - 1
    ensures Probed(b, own, 0x6D) == b
  {
  }

  // ---------------------------------------------------------------------
  // The branches of loop
  // ---------------------------------------------------------------------

  /**
   * The part of the globals that decides whether `handle_message` stays
   * inside the registry and whether `saveMyEdges` does: the registry, its
   * count, the edges and their verified flags.
   */
  datatype Roster = Roster(addressSet: seq<Address>, indexAddressSet: nat, edges: seq<Address>, verified: seq<bool>)

  function RosterOf(s: Snapshot): Roster
  {
    Roster(s.addressSet, s.indexAddressSet, s.edges, s.verified)
  }

  predicate Shaped(h: Roster)
  {
    |h.addressSet| == RegistrySize && |h.edges| == MaxChannel && |h.verified| == MaxChannel
  }

  /**
   * `handle_message(pkt)` on the roster: a topology message appends its
   * fresh addresses, an acknowledgement records its sender on the arrival
   * channel, a probe does so only on an unverified channel, and both
   * verify that channel.
   */
  function Step(h: Roster, pkt: Packet): (h': Roster)
    requires Shaped(h)
    ensures Shaped(h')
  {
    var added := Added(h.addressSet, pkt);
    var ch := pkt.channel as nat;
    var probed := pkt.size as nat == BufferSize && Received(pkt).kind == ProbeType && ch < MaxChannel;
    Roster(Overwrite(h.addressSet, h.indexAddressSet, added), h.indexAddressSet + |added|,
           if probed && (Received(pkt).payload[0] == 1 || !h.verified[ch]) then h.edges[ch := Received(pkt).source] else h.edges,
           if probed then h.verified[ch := true] else h.verified)
  }

  /** The roster after `handle_message` has run on each of `packets` in order. */
  function Reached(h: Roster, packets: seq<Packet>): (h': Roster)
    requires Shaped(h)
    ensures Shaped(h')
    decreases |packets|
  {
    if packets == [] then h else Reached(Step(h, packets[0]), packets[1..])
  }

  /** Every topology message among `packets` finds room for what it appends in the registry it meets. */
  predicate RoomFor(h: Roster, packets: seq<Packet>)
    requires Shaped(h)
    decreases |packets|
  {
    packets == [] || (Fits(h, packets[0]) && RoomFor(Step(h, packets[0]), packets[1..]))
  }

  /** The four packets `com.read(0..3)` returned; a full-size one names a real channel. */
  predicate Readable(packets: seq<Packet>)
  {
    |packets| == MaxChannel &&
    forall i :: 0 <= i < MaxChannel ==> packets[i].size as nat == BufferSize ==> packets[i].channel as nat < MaxChannel
  }

  /** `trace[i + 1]` is `trace[i]` after `handle_message(packets[i])`. */
  predicate HandledAt(trace: seq<Snapshot>, own: Address, packets: seq<Packet>, i: nat)
    requires Readable(packets) && i < MaxChannel && i + 1 < |trace|
  {
    Wf(trace[i]) && Wf(trace[i + 1]) && Handled(trace[i], own, packets[i], trace[i + 1])
  }

  /** The four packets handled in order. */
  predicate HandledAll(trace: seq<Snapshot>, own: Address, packets: seq<Packet>)
    requires Readable(packets)
  {
    |trace| == MaxChannel + 1 && forall i :: 0 <= i < MaxChannel ==> HandledAt(trace, own, packets, i)
  }

  /** `millis() - start_time > 125` in unsigned 32-bit arithmetic, so it survives the counter wrapping. */
  predicate Elapsed(now: bv32, start: bv32)
  {
    now - start > Period
  }

  function ProbeFrames(own: Address): (frames: seq<seq<Byte>>)
    ensures |frames| == MaxChannel && forall i :: 0 <= i < MaxChannel ==> frames[i] == Encode(ProbeMessage(own))
  {
    seq(MaxChannel, _ => Encode(ProbeMessage(own)))
  }

  function Unverified(verified: seq<bool>): (send: seq<bool>)
    requires |verified| == MaxChannel
    ensures |send| == MaxChannel && forall i :: 0 <= i < MaxChannel ==> send[i] == !verified[i]
  {
    seq(MaxChannel, i requires 0 <= i < MaxChannel => !verified[i])
  }

  /** The timed part of the config branch: one probe on every unverified channel. */
  function Probed(b: Snapshot, own: Address, now: bv32): Snapshot
    requires Wf(b)
  {
    if Elapsed(now, b.startTime) then
      b.(startTime := now, configTries := b.configTries - 1, sent := b.sent + Fanout(Unverified(b.verified), ProbeFrames(own), 1, MaxChannel))
    else b
  }

  /** The end of the config branch once the tries are used up: idle, and `saveMyEdges`. */
  function ConfigDone(b: Snapshot): Snapshot
    requires Wf(b)
  {
    if b.configTries == 0 then Saved(b.(startTime := 0, state := Idle)) else b
  }

  /** The idle beacon goes out on every channel whose edge has a non-zero first byte. */
  function BeaconTo(edges: seq<Address>): (send: seq<bool>)
    requires |edges| == MaxChannel
    ensures |send| == MaxChannel && forall i :: 0 <= i < MaxChannel ==> send[i] == (edges[i][0] != 0)
  {
    seq(MaxChannel, i requires 0 <= i < MaxChannel => edges[i][0] != 0)
  }

  function BeaconFrames(own: Address, edges: seq<Address>): (frames: seq<seq<Byte>>)
    requires |edges| == MaxChannel
    ensures |frames| == MaxChannel && forall i :: 0 <= i < MaxChannel ==> frames[i] == Encode(BeaconMessage(own, edges, edges[i]))
  {
    seq(MaxChannel, i requires 0 <= i < MaxChannel => Encode(BeaconMessage(own, edges, edges[i])))
  }

  /** The timed part of the idle branch: a beacon to every known edge. */
  function Beaconed(b: Snapshot, own: Address, now: bv32): Snapshot
    requires Wf(b)
  {
    if Elapsed(now, b.startTime) then
      b.(startTime := now, sent := b.sent + Fanout(BeaconTo(b.edges), BeaconFrames(own, b.edges), 1, MaxChannel))
    else b
  }

  /** Channels whose verified neighbour is (`burning`) or is not (`!burning`) known to be on fire. */
  function FireMarked(s: Snapshot, burning: bool): (send: seq<bool>)
    requires Wf(s)
    ensures |send| == MaxChannel && forall i :: 0 <= i < MaxChannel ==> send[i] == (s.inFire[i] == burning && s.verified[i])
  {
    seq(MaxChannel, i requires 0 <= i < MaxChannel => s.inFire[i] == burning && s.verified[i])
  }

  /** The tail of the idle branch: one reset to every verified neighbour on fire, then the fire switch. */
  function Relieved(b: Snapshot, own: Address, fire: bool): Snapshot
    requires Wf(b)
  {
    b.(sent := b.sent + Fanout(FireMarked(b, true), AlarmFrames(ResetType, own, ZeroAddress), 1, MaxChannel),
       state := if fire then Fire else b.state)
  }

  /** The head of the fire branch: one alarm to every verified neighbour not known to be on fire, then the reset switch. */
  function Alarmed(b: Snapshot, own: Address, reset: bool): Snapshot
    requires Wf(b)
  {
    b.(sent := b.sent + Fanout(FireMarked(b, false), AlarmFrames(FireType, own, ZeroAddress), 1, MaxChannel),
       state := if reset then Idle else b.state)
  }

  lemma OverwriteNothing(reg: seq<Address>, start: nat)
    requires |reg| == RegistrySize
    ensures Overwrite(reg, start, []) == reg
  {
  }

  /** A topology message appends its fresh addresses to the registry and leaves the edges alone. */
  lemma TopologyStep(b: Snapshot, m: Message, ch: nat, a: Snapshot)
    requires Wf(b) && Wf(a) && TopologyHandled(b, m, ch, a)
    requires b.indexAddressSet + |Fresh(b.addressSet, m.payload)| <= RegistrySize || Fresh(b.addressSet, m.payload) == []
    ensures a.addressSet == Overwrite(b.addressSet, b.indexAddressSet, Fresh(b.addressSet, m.payload))
    ensures a.indexAddressSet == b.indexAddressSet + |Fresh(b.addressSet, m.payload)|
    ensures a.edges == b.edges && a.verified == b.verified
  {
    var added := Fresh(b.addressSet, m.payload);
    var registered := a.(matrix := b.matrix, sent := b.sent);
    assert Registered(b, m.payload, registered);
    if added != [] {
      AppendedIsOverwrite(b.addressSet, b.indexAddressSet, added, a.addressSet);
    } else {
      assert forall j :: 0 <= j < RegistrySize ==> a.addressSet[j] == b.addressSet[j];
      OverwriteNothing(b.addressSet, b.indexAddressSet);
    }
  }

  /** A packet that is no topology message leaves the registry alone; only a probe changes the edges. */
  lemma OtherStep(b: Snapshot, own: Address, pkt: Packet, a: Snapshot)
    requires Wf(b) && Wf(a) && (pkt.size as nat == BufferSize ==> pkt.channel as nat < MaxChannel)
    requires Handled(b, own, pkt, a)
    requires pkt.size as nat == BufferSize ==> Received(pkt).kind != TopologyType
    ensures a.addressSet == b.addressSet && a.indexAddressSet == b.indexAddressSet
    ensures pkt.size as nat == BufferSize && Received(pkt).kind == ProbeType ==>
      var m := Received(pkt);
      var ch := pkt.channel as nat;
      a.edges == (if m.payload[0] == 1 || !b.verified[ch] then b.edges[ch := m.source] else b.edges) &&
      a.verified == b.verified[ch := true]
    ensures !(pkt.size as nat == BufferSize && Received(pkt).kind == ProbeType) ==> a.edges == b.edges && a.verified == b.verified
  {
    if pkt.size as nat == BufferSize {
      var m := Received(pkt);
      var ch := pkt.channel as nat;
      if m.kind == ProbeType {
        assert ProbeHandled(b, own, m, ch, a);
      } else if m.kind == FireType || m.kind == ResetType {
        assert AlarmHandled(b, own, m, ch, a);
      } else {
        assert a == b;
      }
    }
  }

  /** `handle_message` changes the roster exactly as `Step` says. */
  lemma HandledStep(b: Snapshot, own: Address, pkt: Packet, a: Snapshot)
    requires Wf(b) && Wf(a) && (pkt.size as nat == BufferSize ==> pkt.channel as nat < MaxChannel)
    requires Fits(RosterOf(b), pkt) && Handled(b, own, pkt, a)
    ensures RosterOf(a) == Step(RosterOf(b), pkt)
  {
    if pkt.size as nat != BufferSize || Received(pkt).kind != TopologyType {
      OtherStep(b, own, pkt, a);
      OverwriteNothing(b.addressSet, b.indexAddressSet);
    } else {
      TopologyStep(b, Received(pkt), pkt.channel as nat, a);
    }
  }

  /** The first of the remaining packets fits, and the rest start from the roster it leaves. */
  lemma RoomUnfold(h: Roster, packets: seq<Packet>, i: nat)
    requires Shaped(h) && i < |packets| && RoomFor(h, packets[i..])
    ensures Fits(h, packets[i]) && RoomFor(Step(h, packets[i]), packets[i + 1..])
    ensures Reached(h, packets[i..]) == Reached(Step(h, packets[i]), packets[i + 1..])
  {
    assert packets[i..][0] == packets[i] && packets[i..][1..] == packets[i + 1..];
  }

  /** After `handle_message` the packets left still fit, and reach the same roster. */
  lemma RoomAfter(b: Snapshot, own: Address, packets: seq<Packet>, i: nat, a: Snapshot)
    requires Wf(b) && Wf(a) && Readable(packets) && i < MaxChannel
    requires RoomFor(RosterOf(b), packets[i..]) && Handled(b, own, packets[i], a)
    ensures RoomFor(RosterOf(a), packets[i + 1..])
    ensures Reached(RosterOf(a), packets[i + 1..]) == Reached(RosterOf(b), packets[i..])
  {
    RoomUnfold(RosterOf(b), packets, i);
    HandledStep(b, own, packets[i], a);
  }

  /**
   * Packets that name only registered addresses append nothing, so they
   * fit however full the registry is, and leave it as it was.
   */
  lemma {:induction false} NothingNewFits(h: Roster, packets: seq<Packet>)
    requires Shaped(h) && forall i :: 0 <= i < |packets| ==> Added(h.addressSet, packets[i]) == []
    ensures RoomFor(h, packets)
    ensures Reached(h, packets).addressSet == h.addressSet && Reached(h, packets).indexAddressSet == h.indexAddressSet
    decreases |packets|
  {
    if packets != [] {
      var next := Step(h, packets[0]);
      assert Overwrite(h.addressSet, h.indexAddressSet, []) == h.addressSet;
      assert next.addressSet == h.addressSet;
      forall i | 0 <= i < |packets[1..]|
        ensures Added(next.addressSet, packets[1..][i]) == []
      {
        assert packets[1..][i] == packets[i + 1];
      }
      NothingNewFits(next, packets[1..]);
    }
  }

  /** With four entries to spare, `saveMyEdges` fits. */
  lemma RoomToSave(b: Snapshot)
    requires Wf(b) && b.indexAddressSet + MaxChannel <= RegistrySize
    ensures SaveFits(RosterOf(b))
  {
    FullEdgesGrow(b.edges, MaxChannel, MaxChannel);
    assert b.addressSet[b.indexAddressSet] == ZeroAddress;
  }

  lemma TraceExtend(trace: seq<Snapshot>, own: Address, packets: seq<Packet>, i: nat, a: Snapshot)
    requires Readable(packets) && i < MaxChannel && |trace| == i + 1
    requires forall j :: 0 <= j < i ==> HandledAt(trace, own, packets, j)
    requires Wf(trace[i]) && Wf(a) && Handled(trace[i], own, packets[i], a)
    ensures forall j :: 0 <= j <= i ==> HandledAt(trace + [a], own, packets, j)
  {
    var t := trace + [a];
    forall j | 0 <= j <= i
      ensures HandledAt(t, own, packets, j)
    {
      if j < i {
        assert HandledAt(trace, own, packets, j);
        assert t[j] == trace[j] && t[j + 1] == trace[j + 1];
      }
    }
  }

  class Node {
    /** `ESP.getChipId()`. */
    const chipId: bv32
    /** `current_state`. */
    var state: NodeState
    /** `max_config_tries`. */
    var configTries: int
    /** `start_time`. */
    var startTime: bv32
    /** `edges`: the address heard on each channel. */
    var edges: seq<Address>
    /** `verified_edges`. */
    var verified: seq<bool>
    /** `neighbour_in_fire`. */
    var inFire: seq<bool>
    /** `address_set`. */
    var addressSet: seq<Address>
    /** `neighbour_list`. */
    var neighbours: seq<seq<int>>
    /** `index_address_set`. */
    var indexAddressSet: nat
    /** `topo.matrix`. */
    var matrix: seq<seq<int>>
    /** Every `com.write`, oldest first. */
    var sent: seq<Sent>

    function Snap(): Snapshot
      reads this
    {
      Snapshot(state, configTries, startTime, edges, verified, inFire, addressSet, neighbours, indexAddressSet, matrix, sent)
    }

    predicate Valid()
      reads this
    {
      Wf(Snap())
    }

    /** This node's address, the low 24 bits of the chip id. */
    function Own(): Address
    {
      AddressOf(chipId)
    }

    /**
     * The globals' initial values followed by the registry part of `setup`:
     * entry 0 is this node, the count is 1 and every neighbour slot is -1.
     */
    constructor (chipId: bv32)
      ensures Valid() && this.chipId == chipId
      ensures state == Config && configTries == ConfigTries && startTime == 0
      ensures edges == [ZeroAddress, ZeroAddress, ZeroAddress, ZeroAddress]
      ensures verified == [false, false, false, false] && inFire == [false, false, false, false]
      ensures addressSet[0] == AddressOf(chipId) && indexAddressSet == 1
      ensures forall k :: 1 <= k < RegistrySize ==> addressSet[k] == ZeroAddress
      ensures forall r, k :: 0 <= r < RegistrySize && 0 <= k < MaxChannel ==> neighbours[r][k] == NoNeighbour
      ensures forall r, c :: 0 <= r < RegistrySize && 0 <= c < RegistrySize ==> matrix[r][c] == 0
      ensures sent == []
    {
      this.chipId := chipId;
      state, configTries, startTime := Config, ConfigTries, 0;
      edges := [ZeroAddress, ZeroAddress, ZeroAddress, ZeroAddress];
      verified := [false, false, false, false];
      inFire := [false, false, false, false];
      addressSet := [AddressOf(chipId)] + seq(RegistrySize - 1, _ => ZeroAddress);
      indexAddressSet := 1;
      neighbours := seq(RegistrySize, _ => [NoNeighbour, NoNeighbour, NoNeighbour, NoNeighbour]);
      matrix := seq(RegistrySize, _ => seq(RegistrySize, _ => 0));
      sent := [];
    }

    /**
     * One neighbour block of `updateEdges`: a zero address gives -1; an
     * address the lookup found gets that position; otherwise it is appended
     * at `index_address_set`, which then grows.
     */
    method RecordNeighbour(row: nat, k: nat, n: Address, exist: nat,
                           ghost reg: seq<Address>, ghost index: nat, ghost head: seq<Address>, ghost mac: Address,
                           ghost ns: seq<Address>, ghost looked: seq<nat>, ghost nb0: seq<seq<int>>)
      requires k < MaxChannel && |ns| == |looked| == MaxChannel && n == ns[k] && exist == looked[k]
      requires Registry(reg, index) && (exist < RegistrySize ==> reg[exist] == n) && exist <= RegistrySize
      requires index + |head + NewNeighbours(ns, looked, MaxChannel)| <= RegistrySize || NewNeighbours(ns, looked, MaxChannel) == []
      requires Progress(reg, index, head, mac, ns, looked, row, k, addressSet, neighbours, indexAddressSet)
      requires |nb0| == RegistrySize && forall r :: 0 <= r < RegistrySize && r != row ==> neighbours[r] == nb0[r]
      modifies this`addressSet, this`neighbours, this`indexAddressSet
      ensures Progress(reg, index, head, mac, ns, looked, row, k + 1, addressSet, neighbours, indexAddressSet)
      ensures forall r :: 0 <= r < RegistrySize && r != row ==> neighbours[r] == nb0[r]
    {
      AddressZero(n);
      if AddressToU32(n) != 0 {
        if exist != RegistrySize {
          ProgressFound(reg, index, head, mac, ns, looked, row, k, addressSet, neighbours, indexAddressSet);
          neighbours := neighbours[row := neighbours[row][k := exist]];
        } else {
          NewNeighboursGrow(ns, looked, k + 1, MaxChannel);
          assert NewNeighbours(ns, looked, k + 1) == NewNeighbours(ns, looked, k) + [n];
          ProgressNew(reg, index, head, mac, ns, looked, row, k, addressSet, neighbours, indexAddressSet);
          addressSet := addressSet[indexAddressSet := n];
          neighbours := neighbours[row := neighbours[row][k := indexAddressSet]];
          indexAddressSet := indexAddressSet + 1;
        }
      } else {
        ProgressZero(reg, index, head, mac, ns, looked, row, k, addressSet, neighbours, indexAddressSet);
        neighbours := neighbours[row := neighbours[row][k := NoNeighbour]];
      }
    }

    /** The four neighbour blocks of `updateEdges`, in order. */
    method RecordNeighbours(row: nat, n1: Address, n2: Address, n3: Address, n4: Address, e1: nat, e2: nat, e3: nat, e4: nat,
                            ghost reg: seq<Address>, ghost index: nat, ghost head: seq<Address>, ghost mac: Address,
                            ghost ns: seq<Address>, ghost looked: seq<nat>)
      requires |ns| == |looked| == MaxChannel && ns == [n1, n2, n3, n4] && looked == [e1, e2, e3, e4]
      requires Registry(reg, index) && forall k :: 0 <= k < MaxChannel ==> looked[k] <= RegistrySize && (looked[k] < RegistrySize ==> reg[looked[k]] == ns[k])
      requires index + |head + NewNeighbours(ns, looked, MaxChannel)| <= RegistrySize || NewNeighbours(ns, looked, MaxChannel) == []
      requires Progress(reg, index, head, mac, ns, looked, row, 0, addressSet, neighbours, indexAddressSet)
      modifies this`addressSet, this`neighbours, this`indexAddressSet
      ensures Progress(reg, index, head, mac, ns, looked, row, MaxChannel, addressSet, neighbours, indexAddressSet)
      ensures forall r :: 0 <= r < RegistrySize && r != row ==> neighbours[r] == old(neighbours)[r]
    {
      ghost var nb0 := neighbours;
      RecordNeighbour(row, 0, n1, e1, reg, index, head, mac, ns, looked, nb0);
      RecordNeighbour(row, 1, n2, e2, reg, index, head, mac, ns, looked, nb0);
      RecordNeighbour(row, 2, n3, e3, reg, index, head, mac, ns, looked, nb0);
      RecordNeighbour(row, 3, n4, e4, reg, index, head, mac, ns, looked, nb0);
    }

    /** The sender block of `updateEdges`: an unknown sender is appended at `index_address_set`. */
    method RegisterSender(ghost p: Payload, macAddr: Address, exist0: nat) returns (srcindex: nat)
      requires Valid() && macAddr == Mac(p) && exist0 == Find(addressSet, macAddr)
      requires indexAddressSet + |Fresh(addressSet, p)| <= RegistrySize || Fresh(addressSet, p) == []
      modifies this`addressSet, this`indexAddressSet
      ensures srcindex == SenderRow(old(addressSet), old(indexAddressSet), p)
      ensures Progress(old(addressSet), old(indexAddressSet), NewSender(old(addressSet), p), macAddr, Neighbours(p),
                       Lookups(old(addressSet), p), srcindex, 0, addressSet, neighbours, indexAddressSet)
    {
      if exist0 != RegistrySize {
        srcindex := exist0;
      } else {
        assert Fresh(addressSet, p) != [];
        addressSet := addressSet[indexAddressSet := macAddr];
        srcindex := indexAddressSet;
        indexAddressSet := indexAddressSet + 1;
      }
      SenderRegistered(old(addressSet), old(indexAddressSet), p, addressSet, neighbours, indexAddressSet);
    }

    /**
     * `updateEdges`: registers the sender of a topology message and its
     * four neighbours, and records the neighbours' registry positions in
     * the sender's row of `neighbour_list`.  All five lookups happen before
     * anything is inserted.  The source never checks that the registry has
     * room; the precondition asks for it.
     */
    method UpdateEdges(p: Payload)
      requires Valid()
      requires indexAddressSet + |Fresh(addressSet, p)| <= RegistrySize || Fresh(addressSet, p) == []
      modifies this`addressSet, this`neighbours, this`indexAddressSet
      ensures Valid()
      ensures Registered(old(Snap()), p, Snap())
    {
      var macAddr := Mac(p);
      var neighbour1, neighbour2, neighbour3, neighbour4 := NeighbourAt(p, 0), NeighbourAt(p, 1), NeighbourAt(p, 2), NeighbourAt(p, 3);
      var exist0 := Find(addressSet, macAddr);
      var exist1 := Find(addressSet, neighbour1);
      var exist2 := Find(addressSet, neighbour2);
      var exist3 := Find(addressSet, neighbour3);
      var exist4 := Find(addressSet, neighbour4);
      ghost var reg, index := addressSet, indexAddressSet;
      ghost var head, ns, looked := NewSender(reg, p), Neighbours(p), Lookups(reg, p);
      ghost var before := Snap();
      var srcindex := RegisterSender(p, macAddr, exist0);
      RecordNeighbours(srcindex, neighbour1, neighbour2, neighbour3, neighbour4, exist1, exist2, exist3, exist4,
                       reg, index, head, macAddr, ns, looked);
      ghost var after := Snap();
      assert after == before.(addressSet := after.addressSet, neighbours := after.neighbours, indexAddressSet := after.indexAddressSet);
      assert Progress(before.addressSet, before.indexAddressSet, NewSender(before.addressSet, p), Mac(p), Neighbours(p), Lookups(before.addressSet, p),
                      SenderRow(before.addressSet, before.indexAddressSet, p), MaxChannel, after.addressSet, after.neighbours, after.indexAddressSet);
      assert forall r :: 0 <= r < RegistrySize && r != SenderRow(before.addressSet, before.indexAddressSet, p) ==> after.neighbours[r] == before.neighbours[r];
      RegisteredOfProgress(before, p, after);
    }

    /**
     * `createTopo`: the whole matrix is set to -1 with 0 on the diagonal,
     * then every recorded neighbour of each row becomes a link of cost 1.
     */
    method CreateTopo()
      requires Valid()
      modifies this`matrix
      ensures Valid() && matrix == TopoOf(neighbours)
    {
      for i := 0 to RegistrySize
        invariant Topo.IsMatrix(matrix)
        invariant forall r, c :: 0 <= r < i && 0 <= c < RegistrySize ==> matrix[r][c] == Initial(r, c)
      {
        for j := 0 to RegistrySize
          invariant Topo.IsMatrix(matrix)
          invariant forall r, c :: 0 <= r < i && 0 <= c < RegistrySize ==> matrix[r][c] == Initial(r, c)
          invariant forall c :: 0 <= c < j ==> matrix[i][c] == Initial(i, c)
        {
          matrix := matrix[i := matrix[i][j := -1]];
          if i == j {
            matrix := matrix[i := matrix[i][j := 0]];
          }
        }
      }
      for i := 0 to RegistrySize
        invariant Topo.IsMatrix(matrix)
        invariant forall r :: 0 <= r < i ==> matrix[r] == LinkedRow(neighbours[r], MaxChannel, r)
        invariant forall r :: i <= r < RegistrySize ==> matrix[r] == LinkedRow(neighbours[r], 0, r)
      {
        LinkRow(i);
      }
      assert forall r :: 0 <= r < RegistrySize ==> matrix[r] == TopoOf(neighbours)[r];
    }

    /** The four `if (neighbour_list[i][k] != -1)` writes of `createTopo` for row `i`. */
    method LinkRow(i: nat)
      requires Valid() && i < RegistrySize && matrix[i] == LinkedRow(neighbours[i], 0, i)
      modifies this`matrix
      ensures Valid() && matrix == old(matrix)[i := LinkedRow(neighbours[i], MaxChannel, i)]
    {
      for k := 0 to MaxChannel
        invariant Valid() && matrix == old(matrix)[i := LinkedRow(neighbours[i], k, i)]
      {
        LinkedRowStep(neighbours[i], k, i);
        if neighbours[i][k] != NoNeighbour {
          matrix := matrix[i := matrix[i][neighbours[i][k] := 1]];
        }
      }
    }

    /** The search loop of `saveMyEdges`: the first position holding `a`, or the size. */
    static method Search(reg: seq<Address>, a: Address) returns (r: nat)
      ensures r == Find(reg, a)
    {
      r := 0;
      while r < |reg| && reg[r] != a
        invariant r <= |reg| && forall j :: 0 <= j < r ==> reg[j] != a
      {
        r := r + 1;
      }
    }

    /** `saveMyEdges`, run once when the config state ends. */
    method SaveMyEdges()
      requires Valid() && SaveFits(RosterOf(Snap()))
      modifies this`addressSet, this`indexAddressSet, this`neighbours
      ensures Valid() && Snap() == Saved(old(Snap()))
    {
      ghost var b := Snap();
      SavedResolves(b);
      var empty := Search(addressSet, ZeroAddress);
      var index := if empty < RegistrySize then empty else 0;
      AppendFullEdges(index);
      FillRowZero();
    }

    /** The second loop of `saveMyEdges`: each full edge is written at `index`, which moves on. */
    method AppendFullEdges(start: nat)
      requires |addressSet| == RegistrySize && |edges| == MaxChannel && start + |FullEdges(edges, MaxChannel)| <= RegistrySize
      modifies this`addressSet, this`indexAddressSet
      ensures addressSet == Overwrite(old(addressSet), start, FullEdges(edges, MaxChannel))
      ensures indexAddressSet == old(indexAddressSet) + |FullEdges(edges, MaxChannel)|
    {
      var reg0: seq<Address>, count := addressSet, indexAddressSet;
      var reg: seq<Address>, index := reg0, start;
      FullEdgesGrow(edges, MaxChannel, MaxChannel);
      for i := 0 to MaxChannel
        invariant |reg| == RegistrySize
        invariant index == start + |FullEdges(edges, i)| <= RegistrySize
        invariant Appended(reg0, start, FullEdges(edges, i), reg)
      {
        FullEdgesGrow(edges, i + 1, MaxChannel);
        if Full(edges[i]) {
          AppendedStep(reg0, start, FullEdges(edges, i), edges[i], reg);
          reg := reg[index := edges[i]];
          index := index + 1;
        }
      }
      AppendedIsOverwrite(reg0, start, FullEdges(edges, MaxChannel), reg);
      addressSet, indexAddressSet := reg, count + (index - start);
    }

    /** The third loop of `saveMyEdges`: row 0 gets where each full edge is, -1 for the others. */
    method FillRowZero()
      requires |neighbours| == RegistrySize && |neighbours[0]| == MaxChannel && |edges| == MaxChannel
      requires forall k :: 0 <= k < MaxChannel && Full(edges[k]) ==> Find(addressSet, edges[k]) < RegistrySize
      modifies this`neighbours
      ensures neighbours == old(neighbours)[0 := SavedRow(addressSet, edges)]
    {
      for i := 0 to MaxChannel
        invariant |neighbours| == RegistrySize && |neighbours[0]| == MaxChannel
        invariant forall r :: 1 <= r < RegistrySize ==> neighbours[r] == old(neighbours)[r]
        invariant forall k :: 0 <= k < i ==> neighbours[0][k] == SavedRow(addressSet, edges)[k]
        invariant forall k :: i <= k < MaxChannel ==> neighbours[0][k] == old(neighbours)[0][k]
      {
        if Full(edges[i]) {
          var j := Search(addressSet, edges[i]);
          if j < RegistrySize {
            neighbours := neighbours[0 := neighbours[0][i := j]];
          }
        } else {
          neighbours := neighbours[0 := neighbours[0][i := NoNeighbour]];
        }
      }
      assert neighbours[0] == SavedRow(addressSet, edges);
    }

    /** `com.write`: the frame goes out on `channel`. */
    method Write(channel: nat, frame: seq<Byte>)
      modifies this`sent
      ensures sent == old(sent) + [Sent(channel, frame)]
    {
      sent := sent + [Sent(channel, frame)];
    }

    /** `for (i = 0; i < n; ++i) com.write(pkt)`: flooding one channel's buffer. */
    method Repeat(channel: nat, frame: seq<Byte>, n: nat)
      modifies this`sent
      ensures sent == old(sent) + Copies(channel, frame, n)
    {
      for j := 0 to n
        invariant sent == old(sent) + Copies(channel, frame, j)
      {
        assert Copies(channel, frame, j + 1) == Copies(channel, frame, j) + [Sent(channel, frame)];
        Write(channel, frame);
      }
    }

    /** The channel loops of `handle_message` and `loop`: `copies` writes on every selected channel. */
    method Flood(send: seq<bool>, frames: seq<seq<Byte>>, copies: nat)
      requires |send| == MaxChannel && |frames| == MaxChannel
      modifies this`sent
      ensures sent == old(sent) + Fanout(send, frames, copies, MaxChannel)
    {
      for i := 0 to MaxChannel
        invariant sent == old(sent) + Fanout(send, frames, copies, i)
      {
        if send[i] {
          Repeat(i, frames[i], copies);
        }
      }
    }

    /** `handle_message` for one packet read from the serial multiplexer. */
    method HandleMessage(pkt: Packet)
      requires Valid() && Fits(RosterOf(Snap()), pkt)
      requires pkt.size as nat == BufferSize ==> pkt.channel as nat < MaxChannel
      modifies this`state, this`edges, this`verified, this`inFire, this`addressSet, this`neighbours,
               this`indexAddressSet, this`matrix, this`sent
      ensures Valid() && Handled(old(Snap()), Own(), pkt, Snap())
    {
      if pkt.size as nat != BufferSize {
        return;
      }
      var m := Decode(pkt.data[..BufferSize]);
      var channel := pkt.channel as nat;
      if m.kind == ProbeType {
        HandleProbe(m, channel);
      } else if m.kind == TopologyType {
        HandleTopology(m, channel);
      } else if m.kind == FireType || m.kind == ResetType {
        HandleAlarm(m, channel);
      }
    }

    /** The type-0 branch of `handle_message`. */
    method HandleProbe(m: Message, channel: nat)
      requires Valid() && channel < MaxChannel
      modifies this`edges, this`verified, this`sent
      ensures Valid() && ProbeHandled(old(Snap()), Own(), m, channel, Snap())
    {
      if m.payload[0] == 1 {
        edges := edges[channel := m.source];
        verified := verified[channel := true];
      } else {
        if !verified[channel] {
          edges := edges[channel := m.source];
          verified := verified[channel := true];
        }
        Acknowledge(m, channel);
      }
    }

    /** The reply to a probe: back to the prober, from this node, flagged, flooded 16 times on the arrival channel. */
    method Acknowledge(m: Message, channel: nat)
      modifies this`sent
      ensures sent == old(sent) + Copies(channel, Encode(AckMessage(m, Own())), FloodCopies)
    {
      var reply := m.(destination := m.source);
      reply := reply.(source := Own());
      reply := reply.(payload := reply.payload[0 := 1]);
      Repeat(channel, Encode(reply), FloodCopies);
    }

    /** The type-1 branch of `handle_message`. */
    method HandleTopology(m: Message, channel: nat)
      requires Valid() && channel < MaxChannel
      requires indexAddressSet + |Fresh(addressSet, m.payload)| <= RegistrySize || Fresh(addressSet, m.payload) == []
      modifies this`addressSet, this`neighbours, this`indexAddressSet, this`matrix, this`sent
      ensures Valid() && TopologyHandled(old(Snap()), m, channel, Snap())
    {
      ghost var b := Snap();
      UpdateEdges(m.payload);
      ghost var registered := Snap();
      CreateTopo();
      Flood(ForwardTo(verified, channel), ForwardFrames(m, edges), ForwardCopies);
      assert Snap().(matrix := b.matrix, sent := b.sent) == registered;
    }

    /** The type-3 and type-4 branches of `handle_message`. */
    method HandleAlarm(m: Message, channel: nat)
      requires Valid() && channel < MaxChannel && (m.kind == FireType || m.kind == ResetType)
      modifies this`state, this`inFire, this`sent
      ensures Valid() && AlarmHandled(old(Snap()), Own(), m, channel, Snap())
    {
      if m.kind == FireType {
        if m.payload[0] == 1 {
          inFire := inFire[channel := true];
        } else {
          Raise(Fire, AlarmFrames(FireType, Own(), edges[channel]));
        }
      } else {
        if m.payload[0] == 1 {
          inFire := inFire[channel := false];
        } else {
          Raise(Idle, AlarmFrames(ResetType, Own(), ZeroAddress));
        }
      }
    }

    /** The state change and 16-copy flood of an alarm or reset that is not an acknowledgement. */
    method Raise(next: NodeState, frames: seq<seq<Byte>>)
      requires Valid() && |frames| == MaxChannel
      modifies this`state, this`sent
      ensures Valid() && Snap() == old(Snap()).(state := next, sent := old(sent) + Fanout(verified, frames, FloodCopies, MaxChannel))
    {
      ghost var b := Snap();
      state := next;
      Flood(verified, frames, FloodCopies);
      WfKept(b, Snap());
    }

    /** The four `handle_message` calls of every branch of `loop`, in channel order. */
    method HandleAll(packets: seq<Packet>) returns (ghost trace: seq<Snapshot>)
      requires Valid() && Readable(packets) && RoomFor(RosterOf(Snap()), packets)
      modifies this`state, this`edges, this`verified, this`inFire, this`addressSet, this`neighbours,
               this`indexAddressSet, this`matrix, this`sent
      ensures Valid() && HandledAll(trace, Own(), packets) && trace[0] == old(Snap()) && trace[MaxChannel] == Snap()
      ensures RosterOf(Snap()) == Reached(RosterOf(old(Snap())), packets)
    {
      trace := [Snap()];
      assert packets[0..] == packets;
      for i := 0 to MaxChannel
        invariant Valid() && |trace| == i + 1 && trace[0] == old(Snap()) && trace[i] == Snap()
        invariant forall j :: 0 <= j < i ==> HandledAt(trace, Own(), packets, j)
        invariant RoomFor(RosterOf(Snap()), packets[i..])
        invariant Reached(RosterOf(Snap()), packets[i..]) == Reached(RosterOf(old(Snap())), packets)
      {
        RoomUnfold(RosterOf(Snap()), packets, i);
        HandleMessage(packets[i]);
        RoomAfter(trace[i], Own(), packets, i, Snap());
        TraceExtend(trace, Own(), packets, i, Snap());
        trace := trace + [Snap()];
      }
    }

    /**
     * The config branch of `loop` at time `now`: probe the unverified
     * channels when 125 ms have passed, handle the four packets, and when
     * the tries are used up go idle and save this node's edges.
     */
    method LoopConfig(now: bv32, packets: seq<Packet>) returns (ghost trace: seq<Snapshot>)
      requires Valid() && Readable(packets) && RoomFor(RosterOf(Snap()), packets)
      requires Probed(Snap(), Own(), now).configTries == 0 ==> SaveFits(Reached(RosterOf(Snap()), packets))
      modifies this
      ensures Valid() && HandledAll(trace, Own(), packets) && Wf(trace[MaxChannel])
      ensures trace[0] == Probed(old(Snap()), Own(), now) && Snap() == ConfigDone(trace[MaxChannel])
    {
      ProbeTick(now);
      trace := HandleAll(packets);
      ConfigFinish();
    }

    /** The timed probe of the config branch. */
    method ProbeTick(now: bv32)
      requires Valid()
      modifies this`startTime, this`configTries, this`sent
      ensures Valid() && Snap() == Probed(old(Snap()), Own(), now)
    {
      if Elapsed(now, startTime) {
        Probe(now, ProbeFrames(Own()));
      }
    }

    /** One round of probes: restart the timer, count the try, probe every unverified channel once. */
    method Probe(now: bv32, frames: seq<seq<Byte>>)
      requires Valid() && |frames| == MaxChannel
      modifies this`startTime, this`configTries, this`sent
      ensures Valid()
      ensures Snap() == old(Snap()).(startTime := now, configTries := old(configTries) - 1,
                                     sent := old(sent) + Fanout(Unverified(verified), frames, 1, MaxChannel))
    {
      ghost var b := Snap();
      startTime := now;
      configTries := configTries - 1;
      Flood(Unverified(verified), frames, 1);
      WfKept(b, Snap());
    }

    /** `if (max_config_tries == 0)`: leave the config state and save this node's edges. */
    method ConfigFinish()
      requires Valid() && (configTries == 0 ==> SaveFits(RosterOf(Snap())))
      modifies this`startTime, this`state, this`addressSet, this`indexAddressSet, this`neighbours
      ensures Valid() && Snap() == ConfigDone(old(Snap()))
    {
      if configTries == 0 {
        startTime := 0;
        state := Idle;
        SaveMyEdges();
      }
    }

    /**
     * The idle branch of `loop` at time `now` with the fire switch read as
     * `fire`: beacon every known edge when 125 ms have passed, handle the
     * four packets, send a reset to every verified neighbour on fire, and
     * go to the fire state when the switch says so.
     */
    method LoopIdle(now: bv32, packets: seq<Packet>, fire: bool) returns (ghost trace: seq<Snapshot>)
      requires Valid() && Readable(packets) && RoomFor(RosterOf(Snap()), packets)
      modifies this
      ensures Valid() && HandledAll(trace, Own(), packets) && Wf(trace[MaxChannel])
      ensures trace[0] == Beaconed(old(Snap()), Own(), now) && Snap() == Relieved(trace[MaxChannel], Own(), fire)
    {
      BeaconTick(now);
      trace := HandleAll(packets);
      IdleFinish(fire);
    }

    /** The timed beacon of the idle branch. */
    method BeaconTick(now: bv32)
      requires Valid()
      modifies this`startTime, this`sent
      ensures Valid() && Snap() == Beaconed(old(Snap()), Own(), now)
    {
      ghost var b := Snap();
      if Elapsed(now, startTime) {
        startTime := now;
        Flood(BeaconTo(edges), BeaconFrames(Own(), edges), 1);
      }
      assert Snap() == Beaconed(b, Own(), now);
      WfKept(b, Snap());
    }

    /** The resets and the fire switch at the end of the idle branch. */
    method IdleFinish(fire: bool)
      requires Valid()
      modifies this`state, this`sent
      ensures Valid() && Snap() == Relieved(old(Snap()), Own(), fire)
    {
      ghost var b := Snap();
      Flood(FireMarked(Snap(), true), AlarmFrames(ResetType, Own(), ZeroAddress), 1);
      if fire {
        state := Fire;
      }
      assert Snap() == Relieved(b, Own(), fire);
      WfKept(b, Snap());
    }

    /**
     * The fire branch of `loop` with the reset switch read as `reset`: an
     * alarm to every verified neighbour not yet known to be on fire, back
     * to idle when the switch says so, then the four packets.
     */
    method LoopFire(packets: seq<Packet>, reset: bool) returns (ghost trace: seq<Snapshot>)
      requires Valid() && Readable(packets) && RoomFor(RosterOf(Snap()), packets)
      modifies this
      ensures Valid() && HandledAll(trace, Own(), packets) && Wf(trace[MaxChannel])
      ensures trace[0] == Alarmed(old(Snap()), Own(), reset) && Snap() == trace[MaxChannel]
    {
      FireStart(reset);
      trace := HandleAll(packets);
    }

    /** The alarms and the reset switch at the start of the fire branch. */
    method FireStart(reset: bool)
      requires Valid()
      modifies this`state, this`sent
      ensures Valid() && Snap() == Alarmed(old(Snap()), Own(), reset)
    {
      ghost var b := Snap();
      Flood(FireMarked(Snap(), false), AlarmFrames(FireType, Own(), ZeroAddress), 1);
      if reset {
        state := Idle;
      }
      assert Snap() == Alarmed(b, Own(), reset);
      WfKept(b, Snap());
    }
  }
}
