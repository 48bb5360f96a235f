# Packet-capture address rewriter and sanitizer, modelled in Dafny

This project models the decision logic of a small packet-capture toolkit.
It covers three pieces:

- the **address-rewrite engine**. Four text-keyed tables (MAC source and destination, IP source and destination) are applied to the first Ethernet, IPv4 and IPv6 layers of a decoded packet. IPv4 and IPv6 share the IP tables. A `modified` flag decides whether the original bytes are returned unchanged or the packet is re-serialised.
- the **serialisation-stack selection**. Ethernet is required and comes first. Then ARP, else IPv4, else IPv6. Then TCP, else UDP, else ICMPv4, else ICMPv6.
- the **sanitizer**. It is a keep/drop predicate on the source and destination text of the first IPv4 layer, checked against a blocklist. It fails open when there is no IPv4 layer.

It also models the two file-to-file **drivers** (rewrite and transform). Each is a loop over the reader's outcomes that skips failures per packet, keeps input order and counts what it writes. The two source loops have the same shape, so the model states that loop once, as `Capture.Drive`. Each driver supplies its own per-frame step.

A decoded packet is a `seq<Layer>` of tagged layers (`Layers`). The library's lookup by type is `FirstIndex`/`LayerOf`: the first layer of that type. The packet library, the capture-file library and the network library's address functions are not part of this model. They appear only as function values:

- `Codec.decode` and `Codec.serialize` stand for decoding from the Ethernet header and for serialising with lengths and checksums fixed.
- `AddrText` stands for printing and parsing MAC and IP addresses.
- The reader's outcomes are a `seq<ReadOutcome>`. The writer's verdict is `writeOk`, and the setup step that failed is `setup`.

Every operation is a pure function over immutable values, so the sanitizer cannot change a packet or the blocklist. The drivers keep only their counters from one packet to the next. How one packet is handled does not depend on earlier packets, as `Pipeline.CollectAppend` states.

Module layout: `Wrappers` (Option/Result), `Layers` (layer stack, codec and address-text interfaces), `Pipeline` (the skip-or-emit fold both drivers share), `Capture` (read outcomes, records, the output header), `Rewriter` (rewrite engine and layer selection), `Sanitizer`, `RewriterRun` (rewrite driver), `Transform` (transform driver).

The engine is stated twice:

- `RewriteLayers` follows the code's three sequential blocks.
- `Reference` is a declarative, per-position description. Each address field of the first Ethernet, IPv4 and IPv6 layer gets `Replacement`: the parsed table value stored under the field's decoded text, if there is one.

`RewriteMatchesReference` proves the two equal. The other rewrite lemmas are stated against this description.

The code behaves as follows, and the model does the same:

- The sanitizer looks only at the first IPv4 layer. IPv6 addresses are never checked.
- A replacement value that does not parse is skipped silently. No per-packet warning is produced.
- A packet that needs re-serialising but cannot be serialised is not written at all, rather than written unchanged.
- The list handed to the serialiser never contains the application payload layer or any layer beyond the chosen network and transport layers (`SelectedStackShape`). So whether a rewritten packet keeps its payload bytes depends entirely on the serialiser, which is outside this model.

## Model

| member | source | states |
|---|---|---|
| Layers.FirstIndex | pkg/rewriter/rewriter.go:164-184 | The by-type layer lookup lands on a layer of the requested type with none of that type before it; when it finds none, the packet has no layer of that type. |
| Layers.LayerOf | pkg/rewriter/rewriter.go:80 | The lookup returns a layer exactly when the packet has one of that type. That layer is of the type, comes from the packet, and sits at the position `FirstIndex` finds. |
| Layers.LayerOfIsFirst | pkg/rewriter/rewriter.go:80 | The layer the lookup returns sits at a position with no layer of the same type before it, so it is the first layer of that type. |
| Rewriter.Substitute | pkg/rewriter/rewriter.go:83-89 | One lookup replaces an address exactly when its text is a key of the table and the stored value parses. The new address is then the parsed value; otherwise the address is kept. |
| Rewriter.RewriteLayers | pkg/rewriter/rewriter.go:78-133 | The three rewrite blocks keep the stack's length and the type of every layer. What they write into each field is stated by `RewriteMatchesReference` and `RewriteFieldsOnce`. |
| Rewriter.RewriteMatchesReference | pkg/rewriter/rewriter.go:78-133 | The rewrite blocks produce exactly the declarative rewrite: the first Ethernet, IPv4 and IPv6 layers get their replacements, computed from the decoded values, and every other position is kept. `modified` is set exactly when some address field has a key in its table whose value parses. |
| Rewriter.RewriteFieldsOnce | pkg/rewriter/rewriter.go:83-133 | Each of the six address fields ends up with the parsed table value under its decoded text when the key exists and the value parses, and keeps its decoded value otherwise. No lookup sees an earlier replacement. |
| Rewriter.RewriteChangesOnlyAddresses | pkg/rewriter/rewriter.go:80-133 | The rewritten stack has the same length, every layer keeps all its non-address fields, and every layer other than the first Ethernet/IPv4/IPv6 layer is left exactly as decoded. This covers ARP, transport, payload and a second IP header. |
| Rewriter.SourceMapsNeverTouchDestinations | pkg/rewriter/rewriter.go:90-131 | A rewritten destination field (MAC, IPv4 or IPv6) is the same whatever the source tables hold. |
| Rewriter.DestinationMapsNeverTouchSources | pkg/rewriter/rewriter.go:83-124 | A rewritten source field (MAC, IPv4 or IPv6) is the same whatever the destination tables hold. |
| Rewriter.CyclicMapAppliedOnce | pkg/rewriter/rewriter.go:83-133 | With a table that maps a to b and b back to a, one pass turns a into b (not back into a) and a second pass turns it back to a. A cyclic table is applied once per pass, and the rewrite is not idempotent. |
| Rewriter.Pick | pkg/rewriter/rewriter.go:189-206 | Choosing by priority yields at most one layer. It yields one exactly when the packet has a layer of some listed type, and that layer is the first layer of the highest-priority type present. |
| Rewriter.PickNetwork | pkg/rewriter/rewriter.go:189-195 | The network choice is the ARP layer if there is one, else the IPv4 layer, else the IPv6 layer, else nothing. |
| Rewriter.PickTransport | pkg/rewriter/rewriter.go:197-206 | The transport choice is TCP, else UDP, else ICMPv4, else ICMPv6, else nothing. |
| Rewriter.SelectLayers | pkg/rewriter/rewriter.go:142-206 | Selection fails with the missing-Ethernet error exactly when there is no Ethernet layer. Otherwise the list is the first Ethernet layer, then the network choice, then the transport choice. |
| Rewriter.SelectedStackShape | pkg/rewriter/rewriter.go:186-206 | The selected list has 1 to 3 layers, all from the packet, with the Ethernet layer at position 0. Tiers strictly increase (link, network, transport), so there is at most one network and one transport layer and nothing else. A network (transport) layer is included exactly when the packet has one. |
| Rewriter.SerializePacket | pkg/rewriter/rewriter.go:141-212 | Serialising fails with the missing-Ethernet error exactly when there is no Ethernet layer. It fails with the serialise error exactly when the serialiser refuses the selected list. On success the bytes are what the serialiser made of the selected list. |
| Rewriter.RewritePacket | pkg/rewriter/rewriter.go:72-139 | A decode error gives an error and no bytes. When no field has a usable replacement (no key matches, or no matched value parses), the result is the input bytes, unchanged and without error. Otherwise the result is the serialisation of the declaratively rewritten stack, which is the missing-Ethernet error when the packet has no Ethernet layer. |
| Rewriter.RewriteEthernetIPv4 | pkg/rewriter/rewriter.go:80-133 | An Ethernet/IPv4 stack whose four address fields all have usable replacements comes out with exactly those four fields replaced, every other field kept, and marked modified. |
| Rewriter.ExampleRewrite | pkg/rewriter/rewriter_test.go:39-80 | For the four-address example, the Ethernet/IPv4 stack has exactly its two MACs and two IPs replaced by the parsed values, with every other field kept, and is marked modified. |
| Rewriter.ExampleRewritePacket | pkg/rewriter/rewriter_test.go:13-80 | The example frame is re-serialised from exactly the rewritten Ethernet and IPv4 layers. |
| Sanitizer.SanitizePacket | pkg/sanitizer/sanitizer.go:15-24 | The packet is dropped exactly when its first IPv4 layer has a source or destination whose text is blocked. Keep holds exactly when the returned packet is non-nil, and a kept packet is returned identical. A packet without an IPv4 layer (IPv6-only, ARP) is always kept. |
| Sanitizer.BlockedIPsIsOneAddress | pkg/sanitizer/sanitizer.go:9-11 | The blocklist blocks exactly the address text 10.0.0.1. |
| Sanitizer.ExampleVerdicts | pkg/sanitizer/sanitizer_test.go:13-63 | An IPv4 packet from 10.0.0.1 is dropped; one from 192.168.100.5 to 192.168.100.10 is kept. |
| Pipeline.Collect | pkg/rewriter/rewriter.go:47-67 | A skip-or-write loop never writes more records than it handles items. |
| Pipeline.CollectAppend | pkg/rewriter/rewriter.go:47-67 | Items are handled independently: the output for two consecutive runs of items is the concatenation of their outputs. |
| Pipeline.CollectIndices | pkg/transform/transform.go:41-68 | The output is, in input order, exactly the results of the items that were not skipped. Output positions map to increasing input positions, and every item that was not skipped appears. |
| Pipeline.CollectShrinks | pkg/transform/transform.go:50-67 | A loop that skips at least the items another loop skips writes at most as many records. |
| Capture.Drive | pkg/transform/transform.go:41-68 | The read loop stops at the first end of file. It writes exactly the fold of the per-frame handler over the outcomes before it, counts the successful reads (read errors are skipped and not counted), and counts exactly the records written. |
| Capture.UntilEnd | pkg/transform/transform.go:42-45 | The handled outcomes are the prefix before the first end-of-file marker: they contain none, and the stream either ends there or has end of file next. |
| Capture.UntilEndAt | pkg/rewriter/rewriter.go:47-51 | Any prefix that contains no end-of-file marker and stops at one, or at the end of the stream, is the handled prefix. |
| RewriterRun.RewriteStep | pkg/rewriter/rewriter.go:48-66 | One pass of the loop writes a record exactly when the outcome is a read frame, the rewrite succeeds and the writer accepts the rewritten bytes. The record carries the frame's capture metadata and the rewritten bytes. |
| RewriterRun.Run | pkg/rewriter/rewriter.go:23-69 | A failed setup step ends the run with that error. Otherwise the output header is snap length 65536 with link type Ethernet, whatever the input header says. The records written are the fold of the per-packet rewrite over the outcomes before end of file, and `count` equals the number of records written. |
| RewriterRun.WrittenInOrder | pkg/rewriter/rewriter.go:47-67 | The written records are, in input order, the successful rewrites of the successfully read packets that the writer accepted, each with its capture metadata. Every such packet is written, and read errors and rewrite errors write nothing. |
| Transform.TransformStep | pkg/transform/transform.go:42-67 | One pass of the loop writes a record exactly when the outcome is a read frame that decodes, that the sanitizer does not drop and that the writer accepts. The record is the frame as read, with its bytes and metadata. |
| Transform.Run | pkg/transform/transform.go:17-71 | A failed setup step ends the run with that error. Otherwise the output header is snap length 65536 with link type Ethernet. The records written are the fold of the per-packet filter. `total` is the number of successful reads (read errors do not count), `kept` is the number of records written, and `kept <= total`. |
| Transform.KeptInOrder | pkg/transform/transform.go:41-68 | The written records are an order-preserving subsequence of the input. Each one carries the bytes and capture metadata it was read with. A read packet is written exactly when it decodes, the sanitizer keeps it and the writer accepts it, so undecodable and dropped packets are never written. |
| Transform.KeptWithinRead | pkg/transform/transform.go:50-67 | The transform never writes more records than it read successfully. |

## Left out

- Byte-level decoding and serialisation are left out. This covers the Ethernet/ARP/IP/TCP/UDP/ICMP header layouts, `FixLengths` and `ComputeChecksums`. They belong to the packet library, which is not part of this model, and `Codec` is a parameter. So nothing here states that re-encoding an unmodified stack reproduces its bytes, or that a re-serialised packet's checksums are valid.
- Capture-file reading and writing is left out: the global header, record headers, byte order and snap-length checks. They belong to the capture-file library. The reader is a sequence of outcomes, and the writer is the `writeOk` verdict. The writer's own refusal of a record whose captured length differs from its data length is folded into `writeOk`.
- Printing and parsing MAC and IP address text (`String`, `ParseMAC`, `ParseIP`) is left out. It belongs to the network library, and `AddrText` is a parameter.
- RewriterRun.Run: the reader is a finite sequence of outcomes. A reader that returned non-EOF errors forever would keep the source's loop running forever; the model cannot express that.
- Transform.Run: the same finiteness holds for the transform's reader.
- Log messages (error, warning and info lines and their counts in text) are left out. They are output-only side effects.
- Opening and closing files is a parameter: `setup` names the first setup step that failed. Closing files on return is not modelled.
- Live capture and replay on a network interface (`pkg/capture/capture.go`, `pkg/replay/replay.go`) are left out. That is device I/O driven by a channel.
- The command-line entry points (`cmd/*/main.go`) and the common helpers (`pkg/common`) are left out. They cover flag parsing, fixed configurations, logging and filesystem helpers.
