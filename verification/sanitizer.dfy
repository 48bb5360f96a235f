/** The sanitizer: a keep/drop decision on a decoded packet, taken on the
    source and destination of its first IPv4 layer against a blocklist. */
module Sanitizer {
  import opened Wrappers
  import opened Layers

  /** The blocklist, keyed by address text.  A key is blocked when it maps
      to true; a missing key reads as false. */
  const BlockedIPs: map<string, bool> := map["10.0.0.1" := true]

  predicate IsBlocked(blocklist: map<string, bool>, key: string)
  {
    key in blocklist && blocklist[key]
  }

  /** The packet is to be dropped: its first IPv4 layer has a blocked
      source or a blocked destination. */
  ghost predicate Drops(p: Packet, blocklist: map<string, bool>, showIP: IPAddr -> string)
  {
    exists i :: 0 <= i < |p.layers| && p.layers[i].IPv4?
      && (forall j :: 0 <= j < i ==> !p.layers[j].IPv4?)
      && (IsBlocked(blocklist, showIP(p.layers[i].src)) || IsBlocked(blocklist, showIP(p.layers[i].dst)))
  }

  /** The sanitizer's verdict, as the pair (packet or nil, keep).  It keeps
      exactly the packets it does not drop, hands back a kept packet
      untouched, and keeps every packet without an IPv4 layer (IPv6-only
      and ARP packets among them). */
  function SanitizePacket(p: Packet, blocklist: map<string, bool>, showIP: IPAddr -> string): (r: (Option<Packet>, bool))
    ensures r.1 <==> r.0.Some?
    ensures r.0.Some? ==> r.0.value == p
    ensures !r.1 <==> Drops(p, blocklist, showIP)
    ensures !Has(p.layers, IPv4Layer) ==> r == (Some(p), true)
  {
    match LayerOf(p.layers, IPv4Layer)
    case Some(ip4) =>
      var i := FirstIndex(p.layers, IPv4Layer).value;
      assert p.layers[i] == ip4;
      if IsBlocked(blocklist, showIP(ip4.src)) || IsBlocked(blocklist, showIP(ip4.dst)) then (None, false)
      else (Some(p), true)
    case None => (Some(p), true)
  }

  /** Only the one address is blocked. */
  lemma BlockedIPsIsOneAddress(key: string)
    ensures IsBlocked(BlockedIPs, key) <==> key == "10.0.0.1"
  {
  }

  /** The sanitizer's own examples: a packet from 10.0.0.1 is dropped, one
      between 192.168.100.5 and 192.168.100.10 is kept. */
  lemma ExampleVerdicts(showIP: IPAddr -> string, blocked: Packet, allowed: Packet)
    requires |blocked.layers| == 1 && blocked.layers[0].IPv4?
    requires showIP(blocked.layers[0].src) == "10.0.0.1" && showIP(blocked.layers[0].dst) == "192.168.1.10"
    requires |allowed.layers| == 1 && allowed.layers[0].IPv4?
    requires showIP(allowed.layers[0].src) == "192.168.100.5" && showIP(allowed.layers[0].dst) == "192.168.100.10"
    ensures SanitizePacket(blocked, BlockedIPs, showIP) == (None, false)
    ensures SanitizePacket(allowed, BlockedIPs, showIP) == (Some(allowed), true)
  {
    assert FirstIndex(blocked.layers, IPv4Layer) == Some(0);
    assert FirstIndex(allowed.layers, IPv4Layer) == Some(0);
  }
}
