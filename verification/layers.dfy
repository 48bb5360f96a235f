/** The decoded form of one frame: the ordered list of protocol layers the
    packet-decoding library hands back, as tagged values.  Decoding and
    re-serialising bytes, and printing and parsing textual addresses, belong
    to libraries outside this repository; they appear here only as function
    values carried by `Codec` and `AddrText`. */
module Layers {
  import opened Wrappers

  newtype Byte = b: int | 0 <= b < 256
  type Bytes = seq<Byte>

  /** A hardware address as the octets it holds. */
  type MacAddr = Bytes
  /** An IP address (4 or 16 octets) as the octets it holds. */
  type IPAddr = Bytes

  /** The type tag the library uses to look a layer up. */
  datatype LayerType =
    | EthernetLayer | ARPLayer | IPv4Layer | IPv6Layer
    | TCPLayer | UDPLayer | ICMPv4Layer | ICMPv6Layer
    | PayloadLayer | DecodeFailureLayer | OtherLayer

  /** One decoded layer with the header fields the model distinguishes.
      `DecodeFailure` is the error layer the decoder appends when a header
      does not fit; `Other` stands for every layer kind outside the eight
      the rewriter knows. */
  datatype Layer =
    | Ethernet(src: MacAddr, dst: MacAddr, etherType: nat)
    | ARP(operation: nat, senderHw: MacAddr, senderProto: Bytes, targetHw: MacAddr, targetProto: Bytes)
    | IPv4(ttl: nat, protocol: nat, checksum: nat, src: IPAddr, dst: IPAddr)
    | IPv6(nextHeader: nat, hopLimit: nat, src: IPAddr, dst: IPAddr)
    | TCP(srcPort: nat, dstPort: nat, seqNum: nat, ackNum: nat, flags: nat, checksum: nat)
    | UDP(srcPort: nat, dstPort: nat, length: nat, checksum: nat)
    | ICMPv4(icmpType: nat, code: nat, checksum: nat)
    | ICMPv6(icmpType: nat, code: nat, checksum: nat)
    | Payload(contents: Bytes)
    | DecodeFailure(reason: string)
    | Other(name: string, contents: Bytes)

  function TypeOf(l: Layer): LayerType
  {
    match l
    case Ethernet(_, _, _) => EthernetLayer
    case ARP(_, _, _, _, _) => ARPLayer
    case IPv4(_, _, _, _, _) => IPv4Layer
    case IPv6(_, _, _, _) => IPv6Layer
    case TCP(_, _, _, _, _, _) => TCPLayer
    case UDP(_, _, _, _) => UDPLayer
    case ICMPv4(_, _, _) => ICMPv4Layer
    case ICMPv6(_, _, _) => ICMPv6Layer
    case Payload(_) => PayloadLayer
    case DecodeFailure(_) => DecodeFailureLayer
    case Other(_, _) => OtherLayer
  }

  /** The position a layer type takes in a serialised stack: 0 for the link
      layer, 1 for a network layer, 2 for a transport layer, 3 for the rest. */
  function Tier(t: LayerType): nat
  {
    match t
    case EthernetLayer => 0
    case ARPLayer | IPv4Layer | IPv6Layer => 1
    case TCPLayer | UDPLayer | ICMPv4Layer | ICMPv6Layer => 2
    case _ => 3
  }

  /** `l` with its source and destination address replaced; layers without
      addresses are returned as they are. */
  function WithAddresses(l: Layer, src: Bytes, dst: Bytes): Layer
  {
    match l
    case Ethernet(_, _, etherType) => Ethernet(src, dst, etherType)
    case IPv4(ttl, protocol, checksum, _, _) => IPv4(ttl, protocol, checksum, src, dst)
    case IPv6(nextHeader, hopLimit, _, _) => IPv6(nextHeader, hopLimit, src, dst)
    case _ => l
  }

  /** Where the library's by-type lookup lands: the first layer of type `t`. */
  function FirstIndex(ls: seq<Layer>, t: LayerType): (r: Option<nat>)
    ensures r.Some? ==> r.value < |ls| && TypeOf(ls[r.value]) == t
    ensures r.Some? ==> forall j :: 0 <= j < r.value ==> TypeOf(ls[j]) != t
    ensures r.None? ==> forall j :: 0 <= j < |ls| ==> TypeOf(ls[j]) != t
  {
    if |ls| == 0 then None
    else if TypeOf(ls[0]) == t then Some(0)
    else match FirstIndex(ls[1..], t)
      case None => None
      case Some(i) => Some(i + 1)
  }

  predicate Has(ls: seq<Layer>, t: LayerType)
  {
    FirstIndex(ls, t).Some?
  }

  /** The library's `packet.Layer(t)`: the first layer of type `t`, or nil. */
  function LayerOf(ls: seq<Layer>, t: LayerType): (r: Option<Layer>)
    ensures r.Some? <==> Has(ls, t)
    ensures r.Some? ==> TypeOf(r.value) == t && r.value in ls
    ensures r.Some? ==> FirstIndex(ls, t).Some? && r.value == ls[FirstIndex(ls, t).value]
  {
    match FirstIndex(ls, t)
    case None => None
    case Some(i) => Some(ls[i])
  }
  /** The lookup returns the first layer of the requested type. */
  lemma LayerOfIsFirst(ls: seq<Layer>, t: LayerType)
    ensures LayerOf(ls, t).Some? ==>
              exists i :: 0 <= i < |ls| && ls[i] == LayerOf(ls, t).value && forall j :: 0 <= j < i ==> TypeOf(ls[j]) != t
  {
    match FirstIndex(ls, t)
    case None =>
    case Some(i) =>
      assert ls[i] == LayerOf(ls, t).value;
  }


  /** Two stacks whose layers have the same types position by position
      answer every by-type lookup with the same position. */
  lemma FirstIndexFollowsTypes(a: seq<Layer>, b: seq<Layer>, t: LayerType)
    requires |a| == |b|
    requires forall j :: 0 <= j < |a| ==> TypeOf(a[j]) == TypeOf(b[j])
    ensures FirstIndex(a, t) == FirstIndex(b, t)
  {
  }

  /** A decoded packet: the bytes it was decoded from and its layers. */
  datatype Packet = Packet(data: Bytes, layers: seq<Layer>)

  /** The library's `packet.ErrorLayer() != nil`. */
  predicate HasErrorLayer(p: Packet)
  {
    Has(p.layers, DecodeFailureLayer)
  }

  /** The packet library: decoding a frame from its Ethernet header on, and
      serialising a list of layers with lengths and checksums fixed (or
      refusing to). */
  datatype Codec = Codec(decode: Bytes -> seq<Layer>, serialize: seq<Layer> -> Option<Bytes>)

  /** The library's `NewPacket(data, LayerTypeEthernet, Default)`. */
  function NewPacket(data: Bytes, codec: Codec): Packet
  {
    Packet(data, codec.decode(data))
  }

  /** Printing and parsing of textual addresses (the network library's
      `String` methods, `ParseMAC` and `ParseIP`). */
  datatype AddrText = AddrText(
    showMac: MacAddr -> string,
    parseMac: string -> Option<MacAddr>,
    showIP: IPAddr -> string,
    parseIP: string -> Option<IPAddr>)
}
