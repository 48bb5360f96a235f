/** The address-rewrite engine: four text-keyed maps applied to the first
    Ethernet, IPv4 and IPv6 layers of a decoded packet, and the choice of
    layers handed back to the serialiser when something changed. */
module Rewriter {
  import opened Wrappers
  import opened Layers

  /** Replacement tables keyed by the current textual address.  Both IP
      versions share the two IP tables. */
  datatype RewriteConfig = RewriteConfig(
    ipMapSrc: map<string, string>,
    ipMapDst: map<string, string>,
    macMapSrc: map<string, string>,
    macMapDst: map<string, string>)

  datatype RewriteError = DecodeError | NoEthernetLayer | SerializeError

  // ---------------------------------------------------------------------
  // The engine, step by step as the rewriter performs it.
  // ---------------------------------------------------------------------

  /** Look one address up by its text; the new address and whether it was
      replaced.  A value that does not parse leaves the address alone. */
  function Substitute(m: map<string, string>, current: Bytes,
                      show: Bytes -> string, parse: string -> Option<Bytes>): (r: (Bytes, bool))
    ensures r.1 <==> show(current) in m && parse(m[show(current)]).Some?
    ensures r.1 ==> Some(r.0) == parse(m[show(current)])
    ensures !r.1 ==> r.0 == current
  {
    var key := show(current);
    if key in m then
      match parse(m[key])
      case Some(a) => (a, true)
      case None => (current, false)
    else (current, false)
  }

  function RewriteEthernet(eth: Layer, cfg: RewriteConfig, text: AddrText): (Layer, bool)
    requires eth.Ethernet?
  {
    var (src, srcHit) := Substitute(cfg.macMapSrc, eth.src, text.showMac, text.parseMac);
    var (dst, dstHit) := Substitute(cfg.macMapDst, eth.dst, text.showMac, text.parseMac);
    (WithAddresses(eth, src, dst), srcHit || dstHit)
  }

  /** The same tables serve an IPv4 and an IPv6 layer. */
  function RewriteIP(ip: Layer, cfg: RewriteConfig, text: AddrText): (Layer, bool)
    requires ip.IPv4? || ip.IPv6?
  {
    var (src, srcHit) := Substitute(cfg.ipMapSrc, ip.src, text.showIP, text.parseIP);
    var (dst, dstHit) := Substitute(cfg.ipMapDst, ip.dst, text.showIP, text.parseIP);
    (WithAddresses(ip, src, dst), srcHit || dstHit)
  }

  predicate IsAddressLayer(t: LayerType)
  {
    t == EthernetLayer || t == IPv4Layer || t == IPv6Layer
  }

  /** Rewrite the first layer of type `t`, if the packet has one. */
  function RewriteFirst(ls: seq<Layer>, t: LayerType, cfg: RewriteConfig, text: AddrText): (r: (seq<Layer>, bool))
    requires IsAddressLayer(t)
    ensures |r.0| == |ls|
    ensures forall j :: 0 <= j < |ls| ==> TypeOf(r.0[j]) == TypeOf(ls[j])
  {
    match FirstIndex(ls, t)
    case None => (ls, false)
    case Some(i) =>
      var (l, hit) := if t == EthernetLayer then RewriteEthernet(ls[i], cfg, text) else RewriteIP(ls[i], cfg, text);
      (ls[i := l], hit)
  }

  /** The three rewrite blocks in order, and the `modified` flag. */
  function RewriteLayers(ls: seq<Layer>, cfg: RewriteConfig, text: AddrText): (r: (seq<Layer>, bool))
    ensures |r.0| == |ls|
    ensures forall j :: 0 <= j < |ls| ==> TypeOf(r.0[j]) == TypeOf(ls[j])
  {
    var (afterEth, ethHit) := RewriteFirst(ls, EthernetLayer, cfg, text);
    var (afterV4, v4Hit) := RewriteFirst(afterEth, IPv4Layer, cfg, text);
    var (afterV6, v6Hit) := RewriteFirst(afterV4, IPv6Layer, cfg, text);
    (afterV6, ethHit || v4Hit || v6Hit)
  }

  // ---------------------------------------------------------------------
  // What the engine is meant to do, field by field.
  // ---------------------------------------------------------------------

  /** The six address fields the engine may rewrite. */
  datatype Field = EthSrc | EthDst | IPv4Src | IPv4Dst | IPv6Src | IPv6Dst

  function Carrier(f: Field): LayerType
  {
    match f
    case EthSrc | EthDst => EthernetLayer
    case IPv4Src | IPv4Dst => IPv4Layer
    case IPv6Src | IPv6Dst => IPv6Layer
  }

  predicate IsSource(f: Field)
  {
    f == EthSrc || f == IPv4Src || f == IPv6Src
  }

  /** The table a field is looked up in. */
  function MapFor(cfg: RewriteConfig, f: Field): map<string, string>
  {
    match f
    case EthSrc => cfg.macMapSrc
    case EthDst => cfg.macMapDst
    case IPv4Src | IPv6Src => cfg.ipMapSrc
    case IPv4Dst | IPv6Dst => cfg.ipMapDst
  }

  function Show(text: AddrText, f: Field, a: Bytes): string
  {
    if Carrier(f) == EthernetLayer then text.showMac(a) else text.showIP(a)
  }

  function Parse(text: AddrText, f: Field, s: string): Option<Bytes>
  {
    if Carrier(f) == EthernetLayer then text.parseMac(s) else text.parseIP(s)
  }

  function AddressOf(l: Layer, f: Field): Bytes
    requires TypeOf(l) == Carrier(f)
  {
    if IsSource(f) then l.src else l.dst
  }

  /** The value of field `f` in the packet: its address in the first layer
      of the carrying type, if there is one. */
  function Current(ls: seq<Layer>, f: Field): Option<Bytes>
  {
    match FirstIndex(ls, Carrier(f))
    case None => None
    case Some(i) => Some(AddressOf(ls[i], f))
  }

  /** The address field `f` is to be given: present exactly when the field
      exists, its current text is a key of its table, and the value stored
      under that key parses. */
  function Replacement(ls: seq<Layer>, cfg: RewriteConfig, text: AddrText, f: Field): Option<Bytes>
  {
    match Current(ls, f)
    case None => None
    case Some(a) =>
      var key := Show(text, f, a);
      if key in MapFor(cfg, f) then Parse(text, f, MapFor(cfg, f)[key]) else None
  }

  ghost predicate AnyReplacement(ls: seq<Layer>, cfg: RewriteConfig, text: AddrText)
  {
    exists f: Field :: Replacement(ls, cfg, text, f).Some?
  }

  function ReplaceOr(ls: seq<Layer>, cfg: RewriteConfig, text: AddrText, f: Field, a: Bytes): Bytes
  {
    match Replacement(ls, cfg, text, f)
    case Some(b) => b
    case None => a
  }

  /** Layer `j` after one pass: the first Ethernet, IPv4 and IPv6 layers get
      their replacements, computed from the packet as decoded; every other
      layer and every other field stays as it was. */
  function Updated(ls: seq<Layer>, cfg: RewriteConfig, text: AddrText, j: nat): Layer
    requires j < |ls|
  {
    var l := ls[j];
    if FirstIndex(ls, TypeOf(l)) != Some(j) then l
    else match TypeOf(l)
      case EthernetLayer =>
        WithAddresses(l, ReplaceOr(ls, cfg, text, EthSrc, l.src), ReplaceOr(ls, cfg, text, EthDst, l.dst))
      case IPv4Layer =>
        WithAddresses(l, ReplaceOr(ls, cfg, text, IPv4Src, l.src), ReplaceOr(ls, cfg, text, IPv4Dst, l.dst))
      case IPv6Layer =>
        WithAddresses(l, ReplaceOr(ls, cfg, text, IPv6Src, l.src), ReplaceOr(ls, cfg, text, IPv6Dst, l.dst))
      case _ => l
  }

  function Reference(ls: seq<Layer>, cfg: RewriteConfig, text: AddrText): (r: seq<Layer>)
    ensures |r| == |ls|
  {
    seq(|ls|, j requires 0 <= j < |ls| => Updated(ls, cfg, text, j))
  }

  // ---------------------------------------------------------------------
  // The engine agrees with the field-by-field description.
  // ---------------------------------------------------------------------

  function SourceField(t: LayerType): Field
    requires IsAddressLayer(t)
  {
    if t == EthernetLayer then EthSrc else if t == IPv4Layer then IPv4Src else IPv6Src
  }

  function DestinationField(t: LayerType): Field
    requires IsAddressLayer(t)
  {
    if t == EthernetLayer then EthDst else if t == IPv4Layer then IPv4Dst else IPv6Dst
  }

  /** Whether the layer of type `t` has a field with a replacement. */
  function Hit(ls: seq<Layer>, cfg: RewriteConfig, text: AddrText, t: LayerType): bool
    requires IsAddressLayer(t)
  {
    Replacement(ls, cfg, text, SourceField(t)).Some? || Replacement(ls, cfg, text, DestinationField(t)).Some?
  }

  /** The stack once the layer types in `done` have been rewritten. */
  function Partial(ls: seq<Layer>, cfg: RewriteConfig, text: AddrText, done: set<LayerType>): (r: seq<Layer>)
    ensures |r| == |ls|
  {
    seq(|ls|, j requires 0 <= j < |ls| => if TypeOf(ls[j]) in done then Updated(ls, cfg, text, j) else ls[j])
  }

  lemma UpdatedKeepsType(ls: seq<Layer>, cfg: RewriteConfig, text: AddrText, j: nat)
    requires j < |ls|
    ensures TypeOf(Updated(ls, cfg, text, j)) == TypeOf(ls[j])
  {
  }

  lemma PartialKeepsTypes(ls: seq<Layer>, cfg: RewriteConfig, text: AddrText, done: set<LayerType>, t: LayerType)
    ensures FirstIndex(Partial(ls, cfg, text, done), t) == FirstIndex(ls, t)
  {
    var p := Partial(ls, cfg, text, done);
    forall j | 0 <= j < |ls|
      ensures TypeOf(p[j]) == TypeOf(ls[j])
    {
      UpdatedKeepsType(ls, cfg, text, j);
    }
    FirstIndexFollowsTypes(p, ls, t);
  }

  /** Replacing one address by its table entry, as the engine does it, is
      what `Replacement` describes. */
  lemma SubstituteIsReplacement(ls: seq<Layer>, cfg: RewriteConfig, text: AddrText, f: Field, i: nat)
    requires FirstIndex(ls, Carrier(f)) == Some(i)
    ensures Substitute(MapFor(cfg, f), AddressOf(ls[i], f),
                       if Carrier(f) == EthernetLayer then text.showMac else text.showIP,
                       if Carrier(f) == EthernetLayer then text.parseMac else text.parseIP)
         == (ReplaceOr(ls, cfg, text, f, AddressOf(ls[i], f)), Replacement(ls, cfg, text, f).Some?)
  {
    assert Current(ls, f) == Some(AddressOf(ls[i], f));
  }

  /** The rewrite of the first layer of type `t` is its `Updated` form. */
  lemma RewriteOneLayer(ls: seq<Layer>, cfg: RewriteConfig, text: AddrText, t: LayerType, i: nat)
    requires IsAddressLayer(t) && FirstIndex(ls, t) == Some(i)
    ensures (if t == EthernetLayer then RewriteEthernet(ls[i], cfg, text) else RewriteIP(ls[i], cfg, text))
         == (Updated(ls, cfg, text, i), Hit(ls, cfg, text, t))
  {
    SubstituteIsReplacement(ls, cfg, text, SourceField(t), i);
    SubstituteIsReplacement(ls, cfg, text, DestinationField(t), i);
  }

  /** One rewrite block takes the stack from `done` to `done + {t}`. */
  lemma RewriteFirstStep(ls: seq<Layer>, cfg: RewriteConfig, text: AddrText, done: set<LayerType>, t: LayerType)
    requires IsAddressLayer(t) && t !in done
    ensures RewriteFirst(Partial(ls, cfg, text, done), t, cfg, text)
         == (Partial(ls, cfg, text, done + {t}), Hit(ls, cfg, text, t))
  {
    var before := Partial(ls, cfg, text, done);
    var after := Partial(ls, cfg, text, done + {t});
    PartialKeepsTypes(ls, cfg, text, done, t);
    match FirstIndex(ls, t)
    case None =>
      assert Current(ls, SourceField(t)).None? && Current(ls, DestinationField(t)).None?;
      forall j | 0 <= j < |ls|
        ensures before[j] == after[j]
      {
        assert TypeOf(ls[j]) != t;
      }
      assert before == after;
    case Some(i) =>
      assert before[i] == ls[i];
      RewriteOneLayer(ls, cfg, text, t, i);
      var l := Updated(ls, cfg, text, i);
      forall j | 0 <= j < |ls|
        ensures before[i := l][j] == after[j]
      {
        if j != i && TypeOf(ls[j]) == t {
          assert FirstIndex(ls, TypeOf(ls[j])) != Some(j);
        }
      }
      assert before[i := l] == after;
  }

  lemma PartialNone(ls: seq<Layer>, cfg: RewriteConfig, text: AddrText)
    ensures Partial(ls, cfg, text, {}) == ls
  {
  }

  lemma PartialAll(ls: seq<Layer>, cfg: RewriteConfig, text: AddrText)
    ensures Partial(ls, cfg, text, {EthernetLayer, IPv4Layer, IPv6Layer}) == Reference(ls, cfg, text)
  {
    var all := Partial(ls, cfg, text, {EthernetLayer, IPv4Layer, IPv6Layer});
    forall j | 0 <= j < |ls|
      ensures all[j] == Reference(ls, cfg, text)[j]
    {
    }
  }

  lemma AnyReplacementIsSomeHit(ls: seq<Layer>, cfg: RewriteConfig, text: AddrText)
    ensures AnyReplacement(ls, cfg, text)
        <==> Hit(ls, cfg, text, EthernetLayer) || Hit(ls, cfg, text, IPv4Layer) || Hit(ls, cfg, text, IPv6Layer)
  {
    if AnyReplacement(ls, cfg, text) {
      var f: Field :| Replacement(ls, cfg, text, f).Some?;
      assert Hit(ls, cfg, text, Carrier(f));
    }
  }

  /** The rewrite engine computes exactly the field-by-field description:
      every address field of the first Ethernet, IPv4 and IPv6 layer gets
      its replacement, looked up with the value the packet was decoded with,
      and `modified` is set exactly when some field has a replacement. */
  lemma {:induction false} RewriteMatchesReference(ls: seq<Layer>, cfg: RewriteConfig, text: AddrText)
    ensures RewriteLayers(ls, cfg, text).0 == Reference(ls, cfg, text)
    ensures RewriteLayers(ls, cfg, text).1 <==> AnyReplacement(ls, cfg, text)
  {
    var e, v4, v6 := EthernetLayer, IPv4Layer, IPv6Layer;
    PartialNone(ls, cfg, text);
    RewriteFirstStep(ls, cfg, text, {}, e);
    assert {} + {e} == {e};
    var s1 := RewriteFirst(ls, e, cfg, text);
    assert s1 == (Partial(ls, cfg, text, {e}), Hit(ls, cfg, text, e));
    RewriteFirstStep(ls, cfg, text, {e}, v4);
    assert {e} + {v4} == {e, v4};
    var s2 := RewriteFirst(s1.0, v4, cfg, text);
    assert s2 == (Partial(ls, cfg, text, {e, v4}), Hit(ls, cfg, text, v4));
    RewriteFirstStep(ls, cfg, text, {e, v4}, v6);
    assert {e, v4} + {v6} == {e, v4, v6};
    var s3 := RewriteFirst(s2.0, v6, cfg, text);
    assert s3 == (Partial(ls, cfg, text, {e, v4, v6}), Hit(ls, cfg, text, v6));
    assert RewriteLayers(ls, cfg, text) == (s3.0, s1.1 || s2.1 || s3.1);
    PartialAll(ls, cfg, text);
    AnyReplacementIsSomeHit(ls, cfg, text);
  }

  lemma ReferenceKeepsTypes(ls: seq<Layer>, cfg: RewriteConfig, text: AddrText, t: LayerType)
    ensures FirstIndex(Reference(ls, cfg, text), t) == FirstIndex(ls, t)
  {
    PartialAll(ls, cfg, text);
    PartialKeepsTypes(ls, cfg, text, {EthernetLayer, IPv4Layer, IPv6Layer}, t);
  }

  /** The first layer of an address-carrying type gets both its
      replacements. */
  lemma UpdatedFirst(ls: seq<Layer>, cfg: RewriteConfig, text: AddrText, j: nat)
    requires j < |ls| && IsAddressLayer(TypeOf(ls[j])) && FirstIndex(ls, TypeOf(ls[j])) == Some(j)
    ensures var l, t := ls[j], TypeOf(ls[j]);
      Updated(ls, cfg, text, j)
        == WithAddresses(l, ReplaceOr(ls, cfg, text, SourceField(t), l.src),
                            ReplaceOr(ls, cfg, text, DestinationField(t), l.dst))
  {
  }

  lemma AddressOfUpdated(ls: seq<Layer>, cfg: RewriteConfig, text: AddrText, f: Field, i: nat)
    requires FirstIndex(ls, Carrier(f)) == Some(i)
    ensures TypeOf(Updated(ls, cfg, text, i)) == Carrier(f)
    ensures AddressOf(Updated(ls, cfg, text, i), f) == ReplaceOr(ls, cfg, text, f, AddressOf(ls[i], f))
  {
    UpdatedFirst(ls, cfg, text, i);
    var t := Carrier(f);
    assert f == if IsSource(f) then SourceField(t) else DestinationField(t);
  }

  /** Each address field ends up with its replacement when it has one and
      keeps its decoded value otherwise.  The lookup uses the decoded value,
      so an earlier replacement never feeds a later lookup. */
  lemma {:induction false} RewriteFieldsOnce(ls: seq<Layer>, cfg: RewriteConfig, text: AddrText, f: Field)
    ensures Current(RewriteLayers(ls, cfg, text).0, f)
         == if Replacement(ls, cfg, text, f).Some? then Replacement(ls, cfg, text, f) else Current(ls, f)
  {
    RewriteMatchesReference(ls, cfg, text);
    var out := Reference(ls, cfg, text);
    ReferenceKeepsTypes(ls, cfg, text, Carrier(f));
    match FirstIndex(ls, Carrier(f))
    case None =>
    case Some(i) =>
      AddressOfUpdated(ls, cfg, text, f, i);
      assert out[i] == Updated(ls, cfg, text, i);
      assert Current(out, f) == Some(AddressOf(out[i], f));
  }

  /** The layer with its addresses blanked out: what a rewrite must leave alone. */
  function Strip(l: Layer): Layer
  {
    WithAddresses(l, [], [])
  }

  /** One position of the rewritten stack changes at most its addresses. */
  lemma UpdatedOnlyAddresses(ls: seq<Layer>, cfg: RewriteConfig, text: AddrText, j: nat)
    requires j < |ls|
    ensures Strip(Updated(ls, cfg, text, j)) == Strip(ls[j])
    ensures FirstIndex(ls, TypeOf(ls[j])) != Some(j) ==> Updated(ls, cfg, text, j) == ls[j]
    ensures !IsAddressLayer(TypeOf(ls[j])) ==> Updated(ls, cfg, text, j) == ls[j]
  {
  }

  /** A rewrite touches nothing but addresses: the stack keeps its length,
      every layer keeps every non-address field, and every layer other than
      the first Ethernet, IPv4 and IPv6 layer (ARP, transport, payload, a
      second IP header) is left exactly as decoded. */
  lemma {:induction false} RewriteChangesOnlyAddresses(ls: seq<Layer>, cfg: RewriteConfig, text: AddrText)
    ensures |RewriteLayers(ls, cfg, text).0| == |ls|
    ensures forall j :: 0 <= j < |ls| ==> Strip(RewriteLayers(ls, cfg, text).0[j]) == Strip(ls[j])
    ensures forall j :: 0 <= j < |ls| && FirstIndex(ls, TypeOf(ls[j])) != Some(j) ==> RewriteLayers(ls, cfg, text).0[j] == ls[j]
    ensures forall j :: 0 <= j < |ls| && !IsAddressLayer(TypeOf(ls[j])) ==> RewriteLayers(ls, cfg, text).0[j] == ls[j]
  {
    RewriteMatchesReference(ls, cfg, text);
    var out := RewriteLayers(ls, cfg, text).0;
    forall j | 0 <= j < |ls|
      ensures Strip(out[j]) == Strip(ls[j])
      ensures FirstIndex(ls, TypeOf(ls[j])) != Some(j) ==> out[j] == ls[j]
      ensures !IsAddressLayer(TypeOf(ls[j])) ==> out[j] == ls[j]
    {
      assert out[j] == Updated(ls, cfg, text, j);
      UpdatedOnlyAddresses(ls, cfg, text, j);
    }
  }

  /** Destination fields come out the same whatever the source tables hold. */
  lemma {:induction false} SourceMapsNeverTouchDestinations(ls: seq<Layer>, cfg1: RewriteConfig, cfg2: RewriteConfig,
                                                            text: AddrText, f: Field)
    requires !IsSource(f)
    requires cfg1.macMapDst == cfg2.macMapDst && cfg1.ipMapDst == cfg2.ipMapDst
    ensures Current(RewriteLayers(ls, cfg1, text).0, f) == Current(RewriteLayers(ls, cfg2, text).0, f)
  {
    RewriteFieldsOnce(ls, cfg1, text, f);
    RewriteFieldsOnce(ls, cfg2, text, f);
  }

  /** Source fields come out the same whatever the destination tables hold. */
  lemma {:induction false} DestinationMapsNeverTouchSources(ls: seq<Layer>, cfg1: RewriteConfig, cfg2: RewriteConfig,
                                                            text: AddrText, f: Field)
    requires IsSource(f)
    requires cfg1.macMapSrc == cfg2.macMapSrc && cfg1.ipMapSrc == cfg2.ipMapSrc
    ensures Current(RewriteLayers(ls, cfg1, text).0, f) == Current(RewriteLayers(ls, cfg2, text).0, f)
  {
    RewriteFieldsOnce(ls, cfg1, text, f);
    RewriteFieldsOnce(ls, cfg2, text, f);
  }

  /** A table that maps `a` to `b` and `b` back to `a` is applied once per
      pass: one pass turns `a` into `b`, a second pass turns it back. */
  lemma {:induction false} CyclicMapAppliedOnce(ls: seq<Layer>, cfg: RewriteConfig, text: AddrText, f: Field, a: Bytes, b: Bytes)
    requires Current(ls, f) == Some(a)
    requires Show(text, f, a) in MapFor(cfg, f) && Parse(text, f, MapFor(cfg, f)[Show(text, f, a)]) == Some(b)
    requires Show(text, f, b) in MapFor(cfg, f) && Parse(text, f, MapFor(cfg, f)[Show(text, f, b)]) == Some(a)
    ensures Current(RewriteLayers(ls, cfg, text).0, f) == Some(b)
    ensures Current(RewriteLayers(RewriteLayers(ls, cfg, text).0, cfg, text).0, f) == Some(a)
  {
    RewriteFieldsOnce(ls, cfg, text, f);
    RewriteFieldsOnce(RewriteLayers(ls, cfg, text).0, cfg, text, f);
  }

  // ---------------------------------------------------------------------
  // Choosing the layers to serialise.
  // ---------------------------------------------------------------------

  const NetworkPriority: seq<LayerType> := [ARPLayer, IPv4Layer, IPv6Layer]
  const TransportPriority: seq<LayerType> := [TCPLayer, UDPLayer, ICMPv4Layer, ICMPv6Layer]

  /** The first layer, by priority order of types, that the packet has: at
      most one layer, present exactly when the packet has a layer of one of
      the types, and of the highest-priority type it has. */
  function Pick(ls: seq<Layer>, priority: seq<LayerType>): (r: seq<Layer>)
    ensures |r| <= 1
    ensures |r| == 1 <==> exists k :: 0 <= k < |priority| && Has(ls, priority[k])
    ensures |r| == 1 ==> exists k :: 0 <= k < |priority| && LayerOf(ls, priority[k]) == Some(r[0])
                                  && forall j :: 0 <= j < k ==> !Has(ls, priority[j])
  {
    if |priority| == 0 then []
    else match LayerOf(ls, priority[0])
      case Some(l) => [l]
      case None =>
        var rest := Pick(ls, priority[1..]);
        assert forall k :: 1 <= k < |priority| ==> priority[1..][k - 1] == priority[k];
        rest
  }

  /** The stack the serialiser is meant to get: the first Ethernet layer,
      the best network layer and the best transport layer. */
  function PriorityStack(ls: seq<Layer>): seq<Layer>
    requires Has(ls, EthernetLayer)
  {
    [LayerOf(ls, EthernetLayer).value] + Pick(ls, NetworkPriority) + Pick(ls, TransportPriority)
  }

  /** The layers handed to the serialiser, chosen as the rewriter chooses
      them: the first Ethernet layer, then ARP or else IPv4 or else IPv6,
      then TCP or else UDP or else ICMPv4 or else ICMPv6. */
  function SelectLayers(ls: seq<Layer>): (r: Result<seq<Layer>, RewriteError>)
    ensures r.Failure? <==> !Has(ls, EthernetLayer)
    ensures r.Failure? ==> r.error == NoEthernetLayer
    ensures r.Success? ==> r.value == PriorityStack(ls)
  {
    var eth := LayerOf(ls, EthernetLayer);
    if eth.None? then Failure(NoEthernetLayer)
    else
      var arp, ip4, ip6 := LayerOf(ls, ARPLayer), LayerOf(ls, IPv4Layer), LayerOf(ls, IPv6Layer);
      var tcp, udp := LayerOf(ls, TCPLayer), LayerOf(ls, UDPLayer);
      var icmp4, icmp6 := LayerOf(ls, ICMPv4Layer), LayerOf(ls, ICMPv6Layer);
      var network :=
        if arp.Some? then [arp.value]
        else if ip4.Some? then [ip4.value]
        else if ip6.Some? then [ip6.value]
        else [];
      var transport :=
        if tcp.Some? then [tcp.value]
        else if udp.Some? then [udp.value]
        else if icmp4.Some? then [icmp4.value]
        else if icmp6.Some? then [icmp6.value]
        else [];
      PickNetwork(ls);
      PickTransport(ls);
      Success([eth.value] + network + transport)
  }

  lemma PickNetwork(ls: seq<Layer>)
    ensures Pick(ls, NetworkPriority)
         == if Has(ls, ARPLayer) then [LayerOf(ls, ARPLayer).value]
            else if Has(ls, IPv4Layer) then [LayerOf(ls, IPv4Layer).value]
            else if Has(ls, IPv6Layer) then [LayerOf(ls, IPv6Layer).value]
            else []
  {
    var p3 := [IPv6Layer];
    assert p3[1..] == [];
    assert Pick(ls, p3) == if Has(ls, IPv6Layer) then [LayerOf(ls, IPv6Layer).value] else [];
    var p2 := [IPv4Layer, IPv6Layer];
    assert p2[1..] == p3;
    assert NetworkPriority[1..] == p2;
  }

  lemma PickTransport(ls: seq<Layer>)
    ensures Pick(ls, TransportPriority)
         == if Has(ls, TCPLayer) then [LayerOf(ls, TCPLayer).value]
            else if Has(ls, UDPLayer) then [LayerOf(ls, UDPLayer).value]
            else if Has(ls, ICMPv4Layer) then [LayerOf(ls, ICMPv4Layer).value]
            else if Has(ls, ICMPv6Layer) then [LayerOf(ls, ICMPv6Layer).value]
            else []
  {
    var p4 := [ICMPv6Layer];
    assert p4[1..] == [];
    assert Pick(ls, p4) == if Has(ls, ICMPv6Layer) then [LayerOf(ls, ICMPv6Layer).value] else [];
    var p3 := [ICMPv4Layer, ICMPv6Layer];
    assert p3[1..] == p4;
    assert Pick(ls, p3) == if Has(ls, ICMPv4Layer) then [LayerOf(ls, ICMPv4Layer).value] else Pick(ls, p4);
    var p2 := [UDPLayer, ICMPv4Layer, ICMPv6Layer];
    assert p2[1..] == p3;
    assert Pick(ls, p2) == if Has(ls, UDPLayer) then [LayerOf(ls, UDPLayer).value] else Pick(ls, p3);
    assert TransportPriority[1..] == p2;
  }

  ghost predicate HasTier(list: seq<Layer>, n: nat)
  {
    exists x :: x in list && Tier(TypeOf(x)) == n
  }

  lemma NetworkPart(ls: seq<Layer>)
    ensures |Pick(ls, NetworkPriority)| == 1 <==> Has(ls, ARPLayer) || Has(ls, IPv4Layer) || Has(ls, IPv6Layer)
    ensures |Pick(ls, NetworkPriority)| == 1 ==>
              Pick(ls, NetworkPriority)[0] in ls && Tier(TypeOf(Pick(ls, NetworkPriority)[0])) == 1
  {
    PickNetwork(ls);
  }

  lemma TransportPart(ls: seq<Layer>)
    ensures |Pick(ls, TransportPriority)| == 1
        <==> Has(ls, TCPLayer) || Has(ls, UDPLayer) || Has(ls, ICMPv4Layer) || Has(ls, ICMPv6Layer)
    ensures |Pick(ls, TransportPriority)| == 1 ==>
              Pick(ls, TransportPriority)[0] in ls && Tier(TypeOf(Pick(ls, TransportPriority)[0])) == 2
  {
    PickTransport(ls);
  }

  /** Position by position: the Ethernet layer, then the network layer if
      any, then the transport layer if any. */
  lemma StackPositions(ls: seq<Layer>, eth: Layer, net: seq<Layer>, tr: seq<Layer>)
    requires eth in ls && TypeOf(eth) == EthernetLayer
    requires |net| <= 1 && (|net| == 1 ==> net[0] in ls && Tier(TypeOf(net[0])) == 1)
    requires |tr| <= 1 && (|tr| == 1 ==> tr[0] in ls && Tier(TypeOf(tr[0])) == 2)
    ensures var list := [eth] + net + tr;
      forall i :: 0 <= i < |list| ==>
        list[i] in ls && Tier(TypeOf(list[i])) == if i == 0 then 0 else if i <= |net| then 1 else 2
    ensures var list := [eth] + net + tr;
      && (forall x :: x in list ==> x in ls && Tier(TypeOf(x)) <= 2)
      && (forall j, k :: 0 <= j < k < |list| ==> Tier(TypeOf(list[j])) < Tier(TypeOf(list[k])))
  {
    var list := [eth] + net + tr;
    forall i | 0 <= i < |list|
      ensures list[i] in ls
      ensures Tier(TypeOf(list[i])) == if i == 0 then 0 else if i <= |net| then 1 else 2
    {
      if i == 0 {
      } else if i <= |net| {
        assert list[i] == net[0];
      } else {
        assert list[i] == tr[0];
      }
    }
  }

  /** The stack holds a network (transport) layer exactly when the network
      (transport) part is not empty. */
  lemma StackTiers(ls: seq<Layer>, eth: Layer, net: seq<Layer>, tr: seq<Layer>)
    requires eth in ls && TypeOf(eth) == EthernetLayer
    requires |net| <= 1 && (|net| == 1 ==> net[0] in ls && Tier(TypeOf(net[0])) == 1)
    requires |tr| <= 1 && (|tr| == 1 ==> tr[0] in ls && Tier(TypeOf(tr[0])) == 2)
    ensures HasTier([eth] + net + tr, 1) <==> |net| == 1
    ensures HasTier([eth] + net + tr, 2) <==> |tr| == 1
  {
    var list := [eth] + net + tr;
    StackPositions(ls, eth, net, tr);
    if HasTier(list, 1) {
      var x :| x in list && Tier(TypeOf(x)) == 1;
    }
    if |net| == 1 {
      assert list[1] in list;
    }
    if HasTier(list, 2) {
      var x :| x in list && Tier(TypeOf(x)) == 2;
    }
    if |tr| == 1 {
      assert list[|list| - 1] in list;
    }
  }

  /** The serialised stack has the rewriter's shape: the first Ethernet
      layer at position 0, then at most one network layer, then at most one
      transport layer, all taken from the packet, and nothing else (no
      payload, no second header).  A network (transport) layer is present
      exactly when the packet has one of the network (transport) types. */
  lemma {:induction false} SelectedStackShape(ls: seq<Layer>)
    requires Has(ls, EthernetLayer)
    ensures SelectLayers(ls).Success?
    ensures var list := SelectLayers(ls).value;
      && 1 <= |list| <= 3
      && list[0] == LayerOf(ls, EthernetLayer).value && TypeOf(list[0]) == EthernetLayer
      && (forall x :: x in list ==> x in ls && Tier(TypeOf(x)) <= 2)
      && (forall j, k :: 0 <= j < k < |list| ==> Tier(TypeOf(list[j])) < Tier(TypeOf(list[k])))
      && (HasTier(list, 1) <==> Has(ls, ARPLayer) || Has(ls, IPv4Layer) || Has(ls, IPv6Layer))
      && (HasTier(list, 2) <==> Has(ls, TCPLayer) || Has(ls, UDPLayer) || Has(ls, ICMPv4Layer) || Has(ls, ICMPv6Layer))
  {
    NetworkPart(ls);
    TransportPart(ls);
    var list := SelectLayers(ls).value;
    var eth := LayerOf(ls, EthernetLayer).value;
    var net, tr := Pick(ls, NetworkPriority), Pick(ls, TransportPriority);
    assert list == [eth] + net + tr;
    StackPositions(ls, eth, net, tr);
    StackTiers(ls, eth, net, tr);
  }

  /** Serialise a rewritten packet: fails without an Ethernet layer, and
      otherwise passes the selected layers to the serialiser. */
  function SerializePacket(ls: seq<Layer>, codec: Codec): (r: Result<Bytes, RewriteError>)
    ensures r == Failure(NoEthernetLayer) <==> !Has(ls, EthernetLayer)
    ensures r.Success? ==> codec.serialize(SelectLayers(ls).value) == Some(r.value)
    ensures r == Failure(SerializeError) <==> Has(ls, EthernetLayer) && codec.serialize(SelectLayers(ls).value).None?
    ensures r.Failure? ==> r.error != DecodeError
  {
    match SelectLayers(ls)
    case Failure(e) => Failure(e)
    case Success(list) =>
      match codec.serialize(list)
      case Some(b) => Success(b)
      case None => Failure(SerializeError)
  }

  /** Rewrite one frame.  A frame the decoder reports an error for is
      refused; a frame none of whose address fields has a replacement comes
      back as the very bytes it arrived as; any other frame is re-serialised
      from the rewritten layers, which is an error when it has no Ethernet
      layer. */
  function RewritePacket(data: Bytes, cfg: RewriteConfig, codec: Codec, text: AddrText): (r: Result<Bytes, RewriteError>)
    ensures HasErrorLayer(NewPacket(data, codec)) ==> r == Failure(DecodeError)
    ensures (!HasErrorLayer(NewPacket(data, codec)) && !AnyReplacement(codec.decode(data), cfg, text))
              ==> r == Success(data)
    ensures (!HasErrorLayer(NewPacket(data, codec)) && AnyReplacement(codec.decode(data), cfg, text))
              ==> r == SerializePacket(Reference(codec.decode(data), cfg, text), codec)
    ensures (!HasErrorLayer(NewPacket(data, codec)) && AnyReplacement(codec.decode(data), cfg, text)
             && !Has(codec.decode(data), EthernetLayer))
              ==> r == Failure(NoEthernetLayer)
  {
    var packet := NewPacket(data, codec);
    if HasErrorLayer(packet) then Failure(DecodeError)
    else
      RewriteMatchesReference(packet.layers, cfg, text);
      ReferenceKeepsTypes(packet.layers, cfg, text, EthernetLayer);
      var (ls, modified) := RewriteLayers(packet.layers, cfg, text);
      if !modified then Success(data) else SerializePacket(ls, codec)
  }

  // ---------------------------------------------------------------------
  // The rewriter's own example.
  // ---------------------------------------------------------------------

  const ExampleConfig: RewriteConfig := RewriteConfig(
    ipMapSrc := map["192.168.1.100" := "10.0.0.5"],
    ipMapDst := map["192.168.1.200" := "10.0.0.10"],
    macMapSrc := map["00:11:22:33:44:55" := "66:77:88:99:aa:bb"],
    macMapDst := map["aa:bb:cc:dd:ee:ff" := "11:22:33:44:55:66"])

  /** The two layers the example produces. */
  function ExampleOutput(eth: Layer, ip: Layer, macSrc: MacAddr, macDst: MacAddr, ipSrc: IPAddr, ipDst: IPAddr): seq<Layer>
    requires eth.Ethernet? && ip.IPv4?
  {
    [Ethernet(macSrc, macDst, eth.etherType), IPv4(ip.ttl, ip.protocol, ip.checksum, ipSrc, ipDst)]
  }

  /** A field whose decoded text is a key with a parsable value gets that
      value. */
  lemma ReplacementAt(ls: seq<Layer>, cfg: RewriteConfig, text: AddrText, f: Field, i: nat, b: Bytes)
    requires FirstIndex(ls, Carrier(f)) == Some(i)
    requires Show(text, f, AddressOf(ls[i], f)) in MapFor(cfg, f)
    requires Parse(text, f, MapFor(cfg, f)[Show(text, f, AddressOf(ls[i], f))]) == Some(b)
    ensures Replacement(ls, cfg, text, f) == Some(b)
  {
  }

  /** The example's two MAC keys each find their parsed replacement. */
  lemma ExampleMacReplacements(text: AddrText, eth: Layer, ip: Layer, macSrc: MacAddr, macDst: MacAddr)
    requires eth.Ethernet? && ip.IPv4?
    requires text.showMac(eth.src) == "00:11:22:33:44:55" && text.showMac(eth.dst) == "aa:bb:cc:dd:ee:ff"
    requires text.parseMac("66:77:88:99:aa:bb") == Some(macSrc) && text.parseMac("11:22:33:44:55:66") == Some(macDst)
    ensures Replacement([eth, ip], ExampleConfig, text, EthSrc) == Some(macSrc)
    ensures Replacement([eth, ip], ExampleConfig, text, EthDst) == Some(macDst)
  {
    var ls, cfg := [eth, ip], ExampleConfig;
    assert FirstIndex(ls, EthernetLayer) == Some(0);
    ReplacementAt(ls, cfg, text, EthSrc, 0, macSrc);
    ReplacementAt(ls, cfg, text, EthDst, 0, macDst);
  }

  /** The example's two IPv4 keys each find their parsed replacement. */
  lemma ExampleIPReplacements(text: AddrText, eth: Layer, ip: Layer, ipSrc: IPAddr, ipDst: IPAddr)
    requires eth.Ethernet? && ip.IPv4?
    requires text.showIP(ip.src) == "192.168.1.100" && text.showIP(ip.dst) == "192.168.1.200"
    requires text.parseIP("10.0.0.5") == Some(ipSrc) && text.parseIP("10.0.0.10") == Some(ipDst)
    ensures Replacement([eth, ip], ExampleConfig, text, IPv4Src) == Some(ipSrc)
    ensures Replacement([eth, ip], ExampleConfig, text, IPv4Dst) == Some(ipDst)
  {
    var ls, cfg := [eth, ip], ExampleConfig;
    assert FirstIndex(ls, IPv4Layer) == Some(1);
    ReplacementAt(ls, cfg, text, IPv4Src, 1, ipSrc);
    ReplacementAt(ls, cfg, text, IPv4Dst, 1, ipDst);
  }

  /** The example's four keys each find their parsed replacement. */
  lemma ExampleReplacements(text: AddrText, eth: Layer, ip: Layer,
                            macSrc: MacAddr, macDst: MacAddr, ipSrc: IPAddr, ipDst: IPAddr)
    requires eth.Ethernet? && ip.IPv4?
    requires text.showMac(eth.src) == "00:11:22:33:44:55" && text.showMac(eth.dst) == "aa:bb:cc:dd:ee:ff"
    requires text.showIP(ip.src) == "192.168.1.100" && text.showIP(ip.dst) == "192.168.1.200"
    requires text.parseMac("66:77:88:99:aa:bb") == Some(macSrc) && text.parseMac("11:22:33:44:55:66") == Some(macDst)
    requires text.parseIP("10.0.0.5") == Some(ipSrc) && text.parseIP("10.0.0.10") == Some(ipDst)
    ensures FirstIndex([eth, ip], EthernetLayer) == Some(0)
    ensures FirstIndex([eth, ip], IPv4Layer) == Some(1)
    ensures FirstIndex([eth, ip], IPv6Layer) == None
    ensures Replacement([eth, ip], ExampleConfig, text, EthSrc) == Some(macSrc)
    ensures Replacement([eth, ip], ExampleConfig, text, EthDst) == Some(macDst)
    ensures Replacement([eth, ip], ExampleConfig, text, IPv4Src) == Some(ipSrc)
    ensures Replacement([eth, ip], ExampleConfig, text, IPv4Dst) == Some(ipDst)
  {
    assert FirstIndex([eth, ip], EthernetLayer) == Some(0);
    assert FirstIndex([eth, ip], IPv4Layer) == Some(1);
    ExampleMacReplacements(text, eth, ip, macSrc, macDst);
    ExampleIPReplacements(text, eth, ip, ipSrc, ipDst);
  }

  /** What the by-type lookups find in an Ethernet/IPv4 stack. */
  lemma EthernetIPv4Lookups(eth: Layer, ip: Layer)
    requires eth.Ethernet? && ip.IPv4?
    ensures LayerOf([eth, ip], EthernetLayer) == Some(eth) && LayerOf([eth, ip], IPv4Layer) == Some(ip)
    ensures !Has([eth, ip], ARPLayer)
    ensures !Has([eth, ip], TCPLayer) && !Has([eth, ip], UDPLayer)
    ensures !Has([eth, ip], ICMPv4Layer) && !Has([eth, ip], ICMPv6Layer)
  {
    assert FirstIndex([eth, ip], EthernetLayer) == Some(0);
    assert FirstIndex([eth, ip], IPv4Layer) == Some(1);
  }

  /** An Ethernet/IPv4 stack is handed to the serialiser as it is. */
  lemma SelectEthernetIPv4(eth: Layer, ip: Layer)
    requires eth.Ethernet? && ip.IPv4?
    ensures SelectLayers([eth, ip]) == Success([eth, ip])
  {
    var out := [eth, ip];
    EthernetIPv4Lookups(eth, ip);
    PickNetwork(out);
    PickTransport(out);
    assert PriorityStack(out) == [eth] + [ip] + [];
    assert [eth] + [ip] + [] == out;
  }

  /** An Ethernet/IPv4 stack whose four addresses all have replacements
      comes out with exactly those four fields replaced, and modified. */
  lemma RewriteEthernetIPv4(cfg: RewriteConfig, text: AddrText, eth: Layer, ip: Layer,
                            macSrc: MacAddr, macDst: MacAddr, ipSrc: IPAddr, ipDst: IPAddr)
    requires eth.Ethernet? && ip.IPv4?
    requires Replacement([eth, ip], cfg, text, EthSrc) == Some(macSrc)
    requires Replacement([eth, ip], cfg, text, EthDst) == Some(macDst)
    requires Replacement([eth, ip], cfg, text, IPv4Src) == Some(ipSrc)
    requires Replacement([eth, ip], cfg, text, IPv4Dst) == Some(ipDst)
    ensures RewriteLayers([eth, ip], cfg, text) == (ExampleOutput(eth, ip, macSrc, macDst, ipSrc, ipDst), true)
  {
    var ls := [eth, ip];
    var out := ExampleOutput(eth, ip, macSrc, macDst, ipSrc, ipDst);
    assert FirstIndex(ls, EthernetLayer) == Some(0);
    assert FirstIndex(ls, IPv4Layer) == Some(1);
    RewriteMatchesReference(ls, cfg, text);
    UpdatedFirst(ls, cfg, text, 0);
    UpdatedFirst(ls, cfg, text, 1);
    assert Updated(ls, cfg, text, 0) == out[0];
    assert Updated(ls, cfg, text, 1) == out[1];
    assert Reference(ls, cfg, text) == out;
  }

  /** An Ethernet/IPv4 stack whose four addresses print as the example's
      keys has exactly those four fields replaced and everything else kept. */
  lemma ExampleRewrite(text: AddrText, eth: Layer, ip: Layer,
                       macSrc: MacAddr, macDst: MacAddr, ipSrc: IPAddr, ipDst: IPAddr)
    requires eth.Ethernet? && ip.IPv4?
    requires text.showMac(eth.src) == "00:11:22:33:44:55" && text.showMac(eth.dst) == "aa:bb:cc:dd:ee:ff"
    requires text.showIP(ip.src) == "192.168.1.100" && text.showIP(ip.dst) == "192.168.1.200"
    requires text.parseMac("66:77:88:99:aa:bb") == Some(macSrc) && text.parseMac("11:22:33:44:55:66") == Some(macDst)
    requires text.parseIP("10.0.0.5") == Some(ipSrc) && text.parseIP("10.0.0.10") == Some(ipDst)
    ensures RewriteLayers([eth, ip], ExampleConfig, text)
         == (ExampleOutput(eth, ip, macSrc, macDst, ipSrc, ipDst), true)
  {
    ExampleReplacements(text, eth, ip, macSrc, macDst, ipSrc, ipDst);
    RewriteEthernetIPv4(ExampleConfig, text, eth, ip, macSrc, macDst, ipSrc, ipDst);
  }

  /** The example frame is re-serialised from exactly the two rewritten
      layers, Ethernet first. */
  lemma ExampleRewritePacket(data: Bytes, codec: Codec, text: AddrText, eth: Layer, ip: Layer,
                             macSrc: MacAddr, macDst: MacAddr, ipSrc: IPAddr, ipDst: IPAddr)
    requires eth.Ethernet? && ip.IPv4? && codec.decode(data) == [eth, ip]
    requires text.showMac(eth.src) == "00:11:22:33:44:55" && text.showMac(eth.dst) == "aa:bb:cc:dd:ee:ff"
    requires text.showIP(ip.src) == "192.168.1.100" && text.showIP(ip.dst) == "192.168.1.200"
    requires text.parseMac("66:77:88:99:aa:bb") == Some(macSrc) && text.parseMac("11:22:33:44:55:66") == Some(macDst)
    requires text.parseIP("10.0.0.5") == Some(ipSrc) && text.parseIP("10.0.0.10") == Some(ipDst)
    ensures RewritePacket(data, ExampleConfig, codec, text)
         == match codec.serialize(ExampleOutput(eth, ip, macSrc, macDst, ipSrc, ipDst))
            case Some(b) => Success(b)
            case None => Failure(SerializeError)
  {
    ExampleRewrite(text, eth, ip, macSrc, macDst, ipSrc, ipDst);
    var out := ExampleOutput(eth, ip, macSrc, macDst, ipSrc, ipDst);
    assert FirstIndex([eth, ip], DecodeFailureLayer) == None;
    SelectEthernetIPv4(out[0], out[1]);
    assert [out[0], out[1]] == out;
  }
}
