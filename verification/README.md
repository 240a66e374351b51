# Verified models of the VoWiFi testing framework

A Dafny model of the parts of the framework that carry the most logic, with proofs about it. The
ePDG is a strongSwan tree (`epdg/`); the IMS server is a Kamailio tree (`ims/`); the test
generator is a Python script (`scripts/`). `dafny verify dfyconfig.toml` checks everything.

## What is modelled

**The user-space ESP data path** (`epdg/src/libipsec`).

- `EspContext`: sequence numbers and the anti-replay window. The window is an array of bytes used
  as a circular bitmap; it refines the plain set of authenticated numbers.
- `IpPacket`, `IpBuilder`: parsing and building IP packets, with the IPv6 extension header walk.
  `IpLayout`: what the parser makes of any packet, byte by byte (RFC 791 and RFC 8200).
- `EspPacket`: encapsulation and decapsulation (sections 2 and 3 of RFC 4303). `EspLayout`: the
  same byte by byte.
- `Policies`: the priority-ordered policy database.
- `IpsecSa`: lifetime accounting and expiry of one SA.
- `SaTimer`: the two-stage expiry timer of an SA, interleaved with its use.
- `Processor`: the inbound and outbound pipelines over the two databases. `Pipelines`: which policy
  and which SA they choose, what they send, deliver and count, in the fields of these.
- `Tunnel`, `TunnelExample`, `TunnelPolicies`: the pipelines of two peers composed. For every run of the sender and
  everything that can arrive, a packet is delivered exactly when it arrives for the first time and
  no limit of the receiving SA has been reached; there is a tunnel to which this applies.
- `SaProtocol`, `SaRuns`: the checkout/checkin/delete protocol of the SA manager as a transition
  system of threads over one mutex and the condition variables of the entries, and what holds over
  all its runs: mutual exclusion, no use after removal, no lost wake-up, and completion of every
  removal in fair runs.
- `SaFlush`: what a flush achieves while other threads go on.
- `SaWindow`: threads that verify and mark sequence numbers while they hold an SA, in any
  interleaving. `SaExample`: a fair run with a pending removal.
- `SaExpiry`, `SaExpiryRuns`: threads that expire an SA while they hold it, and the timer that
  expires it without holding it, with `expire` cut into its test, its flag and its event.
- `SpiAllocator`: the allocation of SPIs.

**RADIUS** (`epdg/src/libradius`).

- `RadiusCrypt`: the chained MD5 cipher, one loop that encrypts in place and decrypts into another
  buffer.
- `RadiusMessage`: attributes, `add`, `sign` and `verify`. `RadiusLayout`: what `sign` makes and what
  `verify` accepts, byte by byte (RFC 2865 and RFC 3579).
- `RadiusBuilding`: messages built by any sequence of adds and then signed.
- `RadiusVendor`: attributes inside of Vendor-Specific attributes.
- `RadiusMsk`: the master session key from the MPPE keys of a response.

**Smaller parts.**

- `PtTls`: PT-TLS framing over a stream (`epdg/src/libpttls`).
- `FormatOptions`, `OptionOutput`, `OptionLines`: the option store, the output order and the lines of
  `epdg/conf/format-options.py`.
- `PhostPort`: the `[proto:]host[:port]` grammar of the IMS server.
- `Testcases`: the value mutator of `scripts/generate_testcases.py`.
- `Bytes`, `Lists`, `Decimals`: what these share.

Ciphers, hash functions, signatures, checksums and random numbers are function-valued parameters.
Of an AEAD it is assumed that decryption inverts encryption and that lengths are as announced
(`EspContext.Lawful`); of a signer, that it accepts its own signatures
(`RadiusMessage.LawfulSigner`). Nothing is assumed of MD5 or of the checksums.

Code that updates state is modelled by classes and by methods with loops. Each is proved against a
function on values, and the promises are lemmas about these functions. What a function computes is
also stated without it: a lemma or a contract says in bytes, fields and positions what the result is
(most of these are called `...Exactly`).

## What turned out to be false

Some properties that one would expect do not hold of the code. For these there is an input that
shows it, and the exact condition.

- A packet without payload (a dummy in the sense of section 2.6 of RFC 4303) is authenticated and
  then refused, although `process_inbound` has a case for it: `EspPacket.DummyIsRejected`.
- An IPv4 packet that declares a total length below 20 is accepted and its clone is not:
  `IpPacket.ShortHeaderIsLost`, `IpPacket.ReparseExactly`.
- The policy that admits a delivered packet carries the reqid of the SA only if that is not 0:
  `TunnelPolicies.ReqidBindsExactly`, `TunnelExample.StrayIsDelivered`.
- An SA that is limited both by time and by use can report soft after hard, or an event twice:
  `SaExpiryRuns.SoftAfterHard`. The exact conditions are `SaExpiry.EventsExactly` on the
  interleaving and `SaExpiryRuns.LifetimeExactly` on the lifetime.
- `set_authenticated_seqno` marks the number it is given only if that is not behind the window:
  `EspContext.MarkedExactly`, `EspContext.StaleMarksAnother`. No caller in the library gets there,
  since `decrypt` asks `verify_seqno` first.
- Expiry timers take 32 bits while lifetimes have 64: `SaTimer.TimerExactly`,
  `SaTimer.LongLifeEndsAtOnce`.
- Reserved and installed SPIs stay apart only if `add_sa` is told that it updates a reserved one:
  `SpiAllocator.StepKeepsDisjointExactly`, `SpiAllocator.ReservedIsInstalled`.
- `verify` refuses what `sign` made if there is an EAP-Message and no Message-Authenticator:
  `RadiusMessage.SignThenVerify`, `RadiusMessage.EapNeedsMac`.
- A padded password of more than 240 bytes does not come back:
  `RadiusBuilding.PasswordComesBackExactly`, `RadiusBuilding.LongPasswordIsLost`.
- The first definition of an option, not the last, decides whether it is an include:
  `FormatOptions.LastDefinitionExactly`, `FormatOptions.RedefinedInclude`.
- `proto:host` is read as `host:port` if the host is a number: `PhostPort.ProtoHostExactly`,
  `PhostPort.NumberIsPort`.

## Model

| member | source | states |
|---|---|---|
| EspContext.NeverTwice | epdg/src/libipsec/esp_context.c:115-174 | over any sequence of packets, genuine or not, no sequence number gets through twice, and none that was seen before |
| EspContext.SetBit | epdg/src/libipsec/esp_context.c:78-101 | writing one bit of the byte buffer changes that bit and no other |
| EspContext.SlotIgnoresWrap | epdg/src/libipsec/esp_context.c:106-113 | reducing the unsigned 32-bit difference modulo 128 gives the slot counted backwards around the window, also where the subtraction wraps |
| EspContext.AdvanceShifts | epdg/src/libipsec/esp_context.c:157-168 | after n rounds of the clearing loop the slot d behind the index is empty for d below n, and otherwise what was d - n behind it before |
| EspContext.AdvanceRepresents | epdg/src/libipsec/esp_context.c:147-174 | moving the window up to a higher number and marking it is adding that number to the set of seen ones, however far it jumps |
| EspContext.MarkedExactly | epdg/src/libipsec/esp_context.c:147-174 | marking is adding the number to the set for all that verify_seqno accepts; in general it is so if and only if the number is ahead, positive and within the window, or seen like the one that shares its slot |
| EspContext.StaleMarksAnother | epdg/src/libipsec/esp_context.c:147-174 | a number behind the window, which verify_seqno refuses, would mark another one |
| EspContext.MarkRepresents | epdg/src/libipsec/esp_context.c:147-174 | for every number that is not ahead, marking its slot is marking the one number of the window that has this slot |
| EspContext.Context.constructor | epdg/src/libipsec/esp_context.c:320-361 | a new context has seen no number |
| EspContext.Context.SetWindowBit | epdg/src/libipsec/esp_context.c:78-91 | the buffer stands for the bit sequence with that one bit changed |
| EspContext.Context.GetWindowBit | epdg/src/libipsec/esp_context.c:96-101 | the bit that the buffer stands for |
| EspContext.Context.CheckWindow | epdg/src/libipsec/esp_context.c:106-113 | true exactly for numbers of the window that have not been seen |
| EspContext.Context.VerifySeqno | epdg/src/libipsec/esp_context.c:115-145 | inbound: accepts exactly the positive numbers that are ahead of the highest one, or less than 128 behind it and not seen |
| EspContext.Context.SetAuthenticatedSeqno | epdg/src/libipsec/esp_context.c:147-174 | any number, accepted before or not: one ahead becomes the highest and is seen, for any other the number with its slot is seen |
| EspContext.Context.AdvanceWindow | epdg/src/libipsec/esp_context.c:157-168 | the loop clears what the index passes |
| EspContext.Context.NextSeqno | epdg/src/libipsec/esp_context.c:182-191 | outbound numbers count up by one and stop before they would wrap; inbound contexts give none |
| IpPacket.ParseTransportHeaderV6 | epdg/src/libipsec/ip_packet.c:234-277 | the loop over extension headers ends and finds what the recursive walk finds; what that is, is said by IpLayout.ChainExactly |
| IpPacket.WalkStaysInside | epdg/src/libipsec/ip_packet.c:234-277 | however the extension headers are built, the payload is a suffix of the packet |
| IpLayout.ChainExactly | epdg/src/libipsec/ip_packet.c:234-277 | for any chain of extension headers laid out as section 4 of RFC 8200 says, the walk ends at what follows it, with its protocol and its ports unless a Fragment header hides these; an extension header that is cut off leaves nothing |
| IpLayout.EveryChain | epdg/src/libipsec/ip_packet.c:234-277 | every byte string is such a chain and an end, whatever its first header is said to be |
| IpLayout.V6Exactly | epdg/src/libipsec/ip_packet.c:327-349 | every IPv6 packet of at least 40 bytes: addresses, protocol, ports, payload and encoding from the positions RFC 8200 gives them, or a refusal exactly if the transport header is cut off |
| IpLayout.V4Exactly | epdg/src/libipsec/ip_packet.c:301-325 | the same for every IPv4 packet of at least 20 bytes and the positions of RFC 791, for any header length and any declared length; fragments but the first have no ports |
| IpLayout.EveryV4 | epdg/src/libipsec/ip_packet.c:301-325 | every such packet falls into header, payload and the rest in this way |
| IpLayout.Refused | epdg/src/libipsec/ip_packet.c:291-337 | anything shorter than the fixed header of its version, or of another version, is refused |
| IpLayout.TransportExactly | epdg/src/libipsec/ip_packet.c:190-227 | the ports of UDP and TCP, none for other protocols, and a refusal exactly of a UDP header below 8 or a TCP header below 20 bytes |
| IpPacket.Create | epdg/src/libipsec/ip_packet.c:283-379 | the parser accepts what the specification accepts, with the same addresses, ports, protocol and payload |
| IpPacket.IpEqualsExactly | epdg/src/libstrongswan/networking/host.c:250-275 | two hosts have equal addresses exactly if the bytes are the same or both are unspecified, of whatever family |
| IpPacket.ParseTrims | epdg/src/libipsec/ip_packet.c:304-347 | the encoding is the received data without anything behind its declared length, and the payload is a suffix of it |
| IpPacket.ParseIgnoresPadding | epdg/src/libipsec/ip_packet.c:283-379 | packets that agree up to the declared length parse alike |
| IpPacket.ReparseExactly | epdg/src/libipsec/ip_packet.c:173-177 | cloning gives the same packet again if and only if the header declares at least its own length |
| IpPacket.TrailingBytesExactly | epdg/src/libipsec/ip_packet.c:304-347 | bytes behind the encoding are ignored if and only if the packet is as long as it declares |
| IpPacket.ShortHeaderIsLost | epdg/src/libipsec/ip_packet.c:173-177 | a packet that is accepted and whose clone is refused |
| IpBuilder.FixedPorts | epdg/src/libipsec/ip_packet.c:432-489 | the ports a parser reads are those of the hosts, or those of the data where a host has none; nothing else but the checksum changes |
| IpBuilder.BuiltExactly | epdg/src/libipsec/ip_packet.c:494-547 | data too short for its UDP or TCP header is refused; any other built packet parses back into its hosts, protocol and data if and only if its length fits 16 bits and, for IPv6, the protocol is no extension header or has less than 2 bytes |
| IpBuilder.UdpExactly | epdg/src/libipsec/ip_packet.c:552-565 | a UDP packet carries both ports and the data if and only if it fits |
| IpBuilder.HeaderV4Exactly | epdg/src/libipsec/ip_packet.c:494-547 | the 20 bytes of the IPv4 header: no options, TTL 128, the length modulo 2^16, and the checksum over the header with none |
| IpBuilder.HeaderV6Exactly | epdg/src/libipsec/ip_packet.c:494-547 | the 40 bytes of the IPv6 header, with hop limit 128 |
| IpBuilder.FixedExactly | epdg/src/libipsec/ip_packet.c:432-489 | ports that are set are written in network byte order, the checksum stands at 6 for UDP and 16 for TCP and is that of the result with none; shorter data and other protocols are left alone |
| IpBuilder.UdpPayloadExactly | epdg/src/libipsec/ip_packet.c:552-565 | the 8 bytes of the UDP header and the data |
| IpBuilder.FixTransportHeader | epdg/src/libipsec/ip_packet.c:432-489 | the transport header is fixed in place, and the IP header before it is not touched |
| IpBuilder.CreateFromData | epdg/src/libipsec/ip_packet.c:494-547 | the packet that parsing the built bytes gives; nothing for unknown or different address families |
| EspPacket.GeneratePadding | epdg/src/libipsec/esp_packet.c:283-291 | fills the buffer with 1, 2, 3 and so on, modulo 256 |
| EspPacket.CheckPadding | epdg/src/libipsec/esp_packet.c:167-179 | accepts exactly the padding that generate_padding makes |
| EspPacket.WritePlaintext | epdg/src/libipsec/esp_packet.c:323-357 | payload, padding, pad length and next header, in that order |
| EspPacket.PaddingFits | epdg/src/libipsec/esp_packet.c:326-330 | for block sizes that divide 4 or are multiples of 4 and IVs of whole words, the plaintext fills whole blocks; up to 256 bytes per block the pad length fits one byte |
| EspPacket.AlignedExactly | epdg/src/libipsec/esp_packet.c:326-330 | the plaintext fills whole blocks for every payload if and only if the block size divides 4 or is a multiple of 4 |
| EspPacket.StripPlaintext | epdg/src/libipsec/esp_packet.c:184-222 | removing the padding of a plaintext leaves the payload, with the part of the padding that its one-byte length does not count |
| EspPacket.SealedFrame | epdg/src/libipsec/esp_packet.c:224-383 | a sealed packet starts with its SPI; it is parsed into its sequence number and decrypts to its plaintext if and only if that fills whole blocks |
| EspPacket.RoundTripExactly | epdg/src/libipsec/esp_packet.c:224-383 | decrypt after encrypt returns the same packet and next header if and only if the plaintext fills whole blocks and the packet declares at least its own header |
| EspPacket.LongPaddingExactly | epdg/src/libipsec/esp_packet.c:184-222 | with more than 255 bytes of padding, the packet comes back if and only if it is as long as it declares |
| EspPacket.DummyIsRejected | epdg/src/libipsec/esp_packet.c:184-222 | a packet without payload is authenticated and then refused |
| EspLayout.PlaintextExactly | epdg/src/libipsec/esp_packet.c:323-357 | the plaintext is the payload, padding that counts from 1, its length and the next header, with as little padding as fills the block and then aligns to 4 bytes |
| EspLayout.ContentExactly | epdg/src/libipsec/esp_packet.c:184-222 | a plaintext is accepted with a packet and next header if and only if it is a payload that parses into that packet, proper padding of at most 255 bytes, its length, and that next header |
| EspLayout.SealedExactly | epdg/src/libipsec/esp_packet.c:293-383 | what is sent is SPI and sequence number in network byte order, the IV for that number, and the plaintext sealed under these 8 bytes and the IV |
| EspLayout.SealFails | epdg/src/libipsec/esp_packet.c:293-383 | sealing fails exactly without an IV generator, without an IV, or if the cipher fails, each with its status |
| EspLayout.OpenedExactly | epdg/src/libipsec/esp_packet.c:224-278 | for any data: which status, what is delivered, and that the window changes exactly if the number was acceptable and the ICV right, and then by that number only |
| EspPacket.Esp.ParseHeader | epdg/src/libipsec/esp_packet.c:143-162 | the SPI of anything that is at least 8 bytes long |
| EspPacket.Esp.Encrypt | epdg/src/libipsec/esp_packet.c:293-383 | status, packet and context after encapsulation; a sequence number is used up even when a later step fails |
| EspPacket.Esp.Decrypt | epdg/src/libipsec/esp_packet.c:224-278 | status, payload and context after decapsulation; the number is authenticated exactly when the ICV is right |
| EspPacket.Esp.StripPadding | epdg/src/libipsec/esp_packet.c:184-222 | the payload and next header, or a refusal that changes nothing |
| Policies.PriorityIsPlain | epdg/src/libipsec/ipsec_policy_mgr.c:73-113 | for masks up to 128 the 32-bit computation neither underflows nor overflows |
| Policies.PriorityOrder | epdg/src/libipsec/ipsec_policy_mgr.c:73-113 | priorities are ordered by class, then total mask length, then port, then protocol, and equal exactly if all four are |
| Policies.InsertedIsSorted | epdg/src/libipsec/ipsec_policy_mgr.c:140-175 | adding keeps the list sorted, newest first among equals |
| Policies.DeletedIsSorted | epdg/src/libipsec/ipsec_policy_mgr.c:177-217 | deleting keeps the list sorted |
| Policies.FindIsBest | epdg/src/libipsec/ipsec_policy_mgr.c:236-263 | of all policies that apply to a packet, in the numbers of their ranges, the one found has the smallest priority, and is the newest among equals; nothing is found only if none applies |
| Policies.FindExactly | epdg/src/libipsec/ipsec_policy_mgr.c:236-263 | the one found is the first of the list that applies: its direction and reqid fit, the larger of its two protocols is any or that of the packet, and source and destination each lie in their range of addresses and of ports |
| Policies.EligibleExactly | epdg/src/libipsec/ipsec_policy.c:105-134 | a policy is eligible exactly if it applies in this sense |
| Policies.AddressOrder | epdg/src/libstrongswan/selectors/traffic_selector.c:556-572 | comparing addresses byte by byte is comparing them as numbers |
| Policies.DeleteUndoesAdd | epdg/src/libipsec/ipsec_policy_mgr.c:140-217 | deleting a policy that has just been added restores the list |
| Policies.Manager.AddPolicy | epdg/src/libipsec/ipsec_policy_mgr.c:140-175 | the policy stands behind all of smaller priority and before all others, which stay in order; forward and non-IPsec policies are ignored |
| Policies.Manager.DelPolicy | epdg/src/libipsec/ipsec_policy_mgr.c:177-217 | the first entry with the same direction, class, reqid, mark, ranges and total mask length is gone, and the others stay in order; the result tells whether there was one |
| Policies.Manager.FlushPolicies | epdg/src/libipsec/ipsec_policy_mgr.c:219-234 | no policy is left |
| Policies.Manager.FindByPacket | epdg/src/libipsec/ipsec_policy_mgr.c:236-263 | the first entry of the list that applies to the packet, in the sense of Policies.FindExactly, and nothing exactly if none does |
| IpsecSa.RunIsConsistent | epdg/src/libipsec/ipsec_sa.c:189-239 | one operation after the other: the events sent are what the two flags say, over any run |
| IpsecSa.EventsOfRun | epdg/src/libipsec/ipsec_sa.c:189-239 | one operation after the other: an SA reports nothing, soft, hard, or soft and then hard, never soft after hard and nothing twice |
| IpsecSa.RunCounts | epdg/src/libipsec/ipsec_sa.c:212-239 | the counters are the sums of what was recorded, and the SA is hard-expired exactly when a hard timer fired or a limit was reached |
| IpsecSa.UsedExactly | epdg/src/libipsec/ipsec_sa.c:212-239 | one use, in the counters and limits before it: a life limit reached ends the SA, a rekey limit counts only otherwise, each event is sent once, and the counters wrap at 64 bits |
| IpsecSa.ExpiredExactly | epdg/src/libipsec/ipsec_sa.c:189-210 | one expiry: which flag and which event, and that nothing follows hard and nothing comes twice |
| SaTimer.TimerExactly | epdg/src/libipsec/ipsec_sa_mgr.c:317-381 | however a new SA without usage limits is used, and unless it is deleted before, it reports soft at the rekey time and hard at exactly the end of its life, if and only if the delays fit 32 bits |
| SaTimer.LogOfRun | epdg/src/libipsec/ipsec_sa_mgr.c:317-343 | over any run in which uses and timer firings come one after the other, whatever the limits, an SA reports nothing, soft, hard, or soft and then hard |
| SaTimer.LongLifeEndsAtOnce | epdg/src/libipsec/ipsec_sa_mgr.c:348-381 | an SA with a life of 2^32 seconds expires at time 0 |
| SaTimer.Timer.constructor | epdg/src/libipsec/ipsec_sa_mgr.c:348-381 | the job that is pending after an SA was installed, if there is one, with its delays cut to 32 bits |
| SaTimer.Timer.SaExpired | epdg/src/libipsec/ipsec_sa_mgr.c:317-343 | a firing expires the SA, soft while a hard offset is left, and then reschedules the job or removes the SA |
| IpsecSa.Sa.constructor | epdg/src/libipsec/ipsec_sa.c:308-338 | a new SA has the SPI, endpoints, reqid, lifetime and keys it was given, has used and seen no number, and is unused and not expired |
| IpsecSa.Sa.Create | epdg/src/libipsec/ipsec_sa.c:274-347 | there is an SA if and only if ESP in UDP, in tunnel mode, without compression and extended numbers, was asked for and the algorithms are available; it is unused and not expired |
| IpsecSa.Sa.Expire | epdg/src/libipsec/ipsec_sa.c:189-210 | flags and events after an expiry |
| IpsecSa.Sa.UpdateUsestats | epdg/src/libipsec/ipsec_sa.c:212-239 | counters, flags and events after a packet |
| Processor.Databases.CheckoutBySpi | epdg/src/libipsec/ipsec_sa_mgr.c:639-654 | the index of the first SA that has that SPI, the same destination address and no hard expiry, and the length of the list if there is none |
| Processor.Databases.CheckoutByReqid | epdg/src/libipsec/ipsec_sa_mgr.c:622-637 | the index of the first SA that has that reqid and direction and no hard expiry, and the length of the list if there is none |
| Processor.Databases.Install | epdg/src/libipsec/ipsec_sa_mgr.c:519-521 | the new SA is the first of the list, and those before it are as they were |
| Processor.Databases.ReceiveOn | epdg/src/libipsec/ipsec_processor.c:116-163 | what an SA does with an ESP packet: only inbound SAs, only genuine packets, only what a policy admits |
| Processor.Databases.HandleInbound | epdg/src/libipsec/ipsec_processor.c:91-165 | the SA database and the delivered packet; one SA changes and no other |
| Processor.Databases.TransmitOn | epdg/src/libipsec/ipsec_processor.c:219-235 | what an SA does with an outbound packet |
| Processor.Databases.HandleOutbound | epdg/src/libipsec/ipsec_processor.c:189-236 | the SA database and the packet that is sent; one SA changes and no other |
| Pipelines.OutboundExactly | epdg/src/libipsec/ipsec_processor.c:189-236 | a packet is sent through the first live outbound SA that has the reqid of the first policy applying to it, and only that SA changes; without such a policy or SA nothing is sent and nothing changes |
| Pipelines.TransmittedExactly | epdg/src/libipsec/ipsec_processor.c:219-235 | that SA takes the next number; what is sent goes from its source to its destination, sealed under its key, SPI and that number, and is counted by packets and bytes; nothing is sent once the numbers are used up |
| Pipelines.InboundExactly | epdg/src/libipsec/ipsec_processor.c:91-165 | a packet goes to the first live SA that has its SPI and destination, and only that SA changes; what is no ESP packet, or has no such SA, changes nothing |
| Pipelines.TakenExactly | epdg/src/libipsec/ipsec_processor.c:116-163 | an outbound SA takes nothing; what an inbound one can open is counted, and is delivered exactly if it is a tunnelled packet to which an inbound policy with the reqid of the SA applies |
| Processor.Processor.ProcessInbound | epdg/src/libipsec/ipsec_processor.c:91-165 | takes one packet from the queue and delivers what the pipeline lets through |
| Processor.Processor.ProcessOutbound | epdg/src/libipsec/ipsec_processor.c:189-236 | takes one packet from the queue and sends what the pipeline makes of it |
| Tunnel.OutboundKeeps | epdg/src/libipsec/ipsec_processor.c:189-236 | processing never changes keys, SPIs, endpoints, reqids or lifetimes, and takes back no hard expiry |
| Tunnel.InboundKeeps | epdg/src/libipsec/ipsec_processor.c:91-165 | the same inbound |
| Tunnel.SendAllSealed | epdg/src/libipsec/ipsec_processor.c:189-236 | over any run of the sender, all that goes out is sealed under the key and SPI of one of its SAs |
| Tunnel.SendAllIncreases | epdg/src/libipsec/ipsec_processor.c:189-236 | each SA numbers what it sends in strictly increasing order |
| Tunnel.DeliveryNeedsPolicy | epdg/src/libipsec/ipsec_processor.c:124-150 | whatever is delivered has an inbound policy that applies to it, in the numbers of its ranges, with the reqid of the installed inbound SA it was addressed to |
| TunnelPolicies.ReqidBindsExactly | epdg/src/libipsec/ipsec_processor.c:124-150 | the policy that admits a delivered packet carries the reqid of its SA, for all databases and packets, if and only if the reqid is not 0 |
| Tunnel.GenuineArrives | epdg/src/libipsec/ipsec_processor.c:91-165 | one packet from the other end is delivered, byte for byte, exactly if its number is accepted |
| Tunnel.ForgeryIsDropped | epdg/src/libipsec/ipsec_processor.c:91-165 | a packet with a wrong ICV is not delivered and changes nothing |
| Tunnel.EndToEndExactly | epdg/src/libipsec/ipsec_processor.c:91-236 | for every run of the sender and everything that can arrive, a sent packet is delivered if and only if its number is accepted at that moment and no limit of the receiving SA has been reached |
| Tunnel.ArrivalsAreTracked | epdg/src/libipsec/ipsec_sa.c:212-239 | while nothing arrives 128 or more numbers late, the receiving SA is hard-expired exactly if what has arrived reaches a limit, and until then it has seen and counted exactly what has arrived |
| Tunnel.EndToEnd | epdg/src/libipsec/ipsec_processor.c:91-236 | under any selection, reordering and repetition within the window, and any injection of forgeries and of packets for other SAs, a packet is delivered byte for byte if and only if it arrives for the first time and the packets and bytes that arrived before it are below the limits |
| TunnelExample.DeliversOnce | epdg/src/libipsec/ipsec_processor.c:91-236 | a packet that arrives twice is delivered the first time and not the second |
| TunnelExample.TunnelExists | epdg/src/libipsec/ipsec_processor.c:91-236 | there are peers, policies and a packet that meet all that the end-to-end theorem asks for |
| TunnelExample.StrayIsDelivered | epdg/src/libipsec/ipsec_processor.c:91-165 | an SA with reqid 0 delivers a packet under a policy with reqid 1 |
| SaProtocol.EnterKeepsInv | epdg/src/libipsec/ipsec_sa_mgr.c:190-207 | wait_for_entry, entered by checkout, update or query, keeps the invariant |
| SaProtocol.RetryKeepsInv | epdg/src/libipsec/ipsec_sa_mgr.c:190-207 | so does its loop after a wake-up |
| SaProtocol.CheckinKeepsInv | epdg/src/libipsec/ipsec_sa_mgr.c:656-672 | so does checkin, which wakes one sleeper |
| SaProtocol.RemoveKeepsInv | epdg/src/libipsec/ipsec_sa_mgr.c:165-185 | so do the two wait loops of wait_remove_entry |
| SaProtocol.FlushKeepsInv | epdg/src/libipsec/ipsec_sa_mgr.c:213-230 | so does each turn of the flush loop |
| SaProtocol.AddKeepsInv | epdg/src/libipsec/ipsec_sa_mgr.c:474-526 | so does adding an entry |
| SaProtocol.StepKeepsInv | epdg/src/libipsec/ipsec_sa_mgr.c:165-230 | every step of every thread keeps the invariant: the fields of an entry count the threads tied to it, and while it is unlocked a sleeper implies a woken thread |
| SaProtocol.InitHasInv | epdg/src/libipsec/ipsec_sa_mgr.c:702-726 | the invariant holds for a new manager |
| SaRuns.RunHasInv | epdg/src/libipsec/ipsec_sa_mgr.c:165-230 | the invariant holds in every state of every run |
| SaRuns.MutualExclusion | epdg/src/libipsec/ipsec_sa_mgr.c:165-230 | in every interleaving at most one thread holds an entry, at most one removes it, whatever a thread works with is installed, and an entry that is being freed is used by nobody |
| SaRuns.LeavesUnused | epdg/src/libipsec/ipsec_sa_mgr.c:291-312 | an entry leaves the list only while it is unlocked, nobody waits for it and no other thread is tied to it |
| SaRuns.NoLostWakeup | epdg/src/libipsec/ipsec_sa_mgr.c:174-206 | whenever a thread sleeps on an unlocked entry, another one on it has been woken and can go on |
| SaRuns.UnlockedIsRemoved | epdg/src/libipsec/ipsec_sa_mgr.c:165-185 | once the entry is unlocked its removal completes, by induction on the number of waiting threads |
| SaRuns.RemovalCompletes | epdg/src/libipsec/ipsec_sa_mgr.c:588-620 | in every fair run in which SAs that are checked out are checked in again, every removal that has begun completes |
| SaFlush.StepKeepsCovered | epdg/src/libipsec/ipsec_sa_mgr.c:213-230 | every step of every thread keeps this: an installed entry is being deleted, or the flushing thread has it still before it |
| SaFlush.FlushIsComplete | epdg/src/libipsec/ipsec_sa_mgr.c:213-230 | in every run, each entry that was installed when a flush began and has not left the list when it ends is being removed by another thread |
| SaExample.RemovalIsPossible | epdg/src/libipsec/ipsec_sa_mgr.c:588-620 | there is a fair run in which SAs are checked in again and in which a removal is pending behind a holder |
| SaWindow.RunIsSound | epdg/src/libipsec/ipsec_processor.c:107-133 | in every interleaving, what each SA has seen is what it let through, and a number that a holder has verified is still good |
| SaWindow.DecryptInOneGo | epdg/src/libipsec/esp_packet.c:224-278 | the moves of a thread that verifies and marks a number, in a row, let it through exactly if it is acceptable and genuine, and change nothing else |
| SaWindow.NeverTwiceConcurrently | epdg/src/libipsec/ipsec_processor.c:107-133 | however inbound threads interleave with each other and with deletions, no SA lets a number through twice, and no other thread marks a number between its verification and its marking |
| SaExpiry.PartsMakeUp | epdg/src/libipsec/ipsec_sa.c:189-239 | counting, the test, the flag and the event, without anybody in between, are update_usestats and expire |
| SaExpiry.UseInOneGo | epdg/src/libipsec/ipsec_sa.c:189-239 | the moves of a holder that records a use, in a row, are update_usestats on that SA and change nothing else |
| SaExpiry.FireInOneGo | epdg/src/libipsec/ipsec_sa_mgr.c:317-343 | the moves of a timer, in a row: the SA is expired, soft while a hard offset is left, and then the job is rescheduled or the removal begins |
| SaExpiry.TraceIsSound | epdg/src/libipsec/ipsec_sa_mgr.c:317-343 | in every interleaving, who is inside of expire holds the SA or is its timer, what has been sent is flagged, and the SA of a firing timer stays installed |
| SaExpiry.EventsExactly | epdg/src/libipsec/ipsec_sa.c:189-210 | in every interleaving of any number of threads, an SA reports nothing, soft, hard, or soft and then hard at all times if and only if, while a call is between its test and its event, no other call sends for that SA, except soft during hard |
| SaExpiry.TimerIsInvolved | epdg/src/libipsec/ipsec_sa_mgr.c:317-343 | whenever one call overtakes another, one is from the holder of the SA and the other from its timer |
| SaExpiry.OneKindIsInOrder | epdg/src/libipsec/ipsec_sa.c:189-239 | an SA limited only by time or only by use reports in order in every interleaving |
| SaExpiryRuns.LifetimeExactly | epdg/src/libipsec/ipsec_sa.c:189-239 | SAs with a given lifetime report in order in all interleavings if and only if that limits only time or only use |
| SaExpiryRuns.SoftAfterHard | epdg/src/libipsec/ipsec_sa_mgr.c:317-343 | an interleaving in which an SA reports hard and then soft |
| SpiAllocator.PickIsFree | epdg/src/libipsec/ipsec_sa_mgr.c:421-472 | what is handed out lies in the clamped range, is at least 256, and is neither reserved nor in use by an inbound SA |
| SpiAllocator.PickIsFirst | epdg/src/libipsec/ipsec_sa_mgr.c:421-472 | it is the candidate of the first draw that is free, and if nothing is handed out all were taken |
| SpiAllocator.EverySpi | epdg/src/libipsec/ipsec_sa_mgr.c:421-472 | every SPI of the range, in order and without those below 256, is the candidate of some draw |
| SpiAllocator.LookupExactly | epdg/src/libipsec/ipsec_sa_mgr.c:528-620 | the SA that is found is the first with that SPI and these two addresses, and there is one exactly if one is found |
| SpiAllocator.Modulus | epdg/src/libipsec/ipsec_sa_mgr.c:421-472 | the modulus is the size of the range and never 0, for every setting |
| SpiAllocator.Candidate | epdg/src/libipsec/ipsec_sa_mgr.c:421-472 | every random number lands in the range |
| SpiAllocator.StepKeepsDisjointExactly | epdg/src/libipsec/ipsec_sa_mgr.c:474-526 | an operation keeps reserved and installed inbound SPIs apart if and only if it installs no inbound SA under an SPI that stays reserved |
| SpiAllocator.ReservedIsInstalled | epdg/src/libipsec/ipsec_sa_mgr.c:474-526 | an SPI that is both reserved and installed after add_sa without update |
| SpiAllocator.RunKeepsDisjoint | epdg/src/libipsec/ipsec_sa_mgr.c:405-526 | they stay disjoint over every run in which inbound SAs are added with update set |
| SpiAllocator.Allocator.AllocateSpi | epdg/src/libipsec/ipsec_sa_mgr.c:405-419 | reserves an SPI that is free, and only that |
| SpiAllocator.Allocator.GetSpi | epdg/src/libipsec/ipsec_sa_mgr.c:421-472 | a free SPI of the range, which is then reserved and nothing else is, or nothing when the generator fails first; it is that of the first draw that is free |
| SpiAllocator.Allocator.AddSa | epdg/src/libipsec/ipsec_sa_mgr.c:474-526 | fails without any change if the SA cannot be created; else it is installed unless there is one with its key, which fails; with update set the reserved SPI is released either way |
| SpiAllocator.Allocator.DelSa | epdg/src/libipsec/ipsec_sa_mgr.c:588-620 | the first SA with that SPI and these addresses is gone and all others stay in order, unless another thread is deleting it already; the status tells whether it was this call |
| SpiAllocator.Allocator.UpdateSa | epdg/src/libipsec/ipsec_sa_mgr.c:528-564 | the first SA with that SPI and these addresses has the new source and destination and is otherwise as it was, and so are all others, unless it is being deleted, which is a success too; turning off UDP encapsulation is not supported |
| SpiAllocator.Allocator.FlushSas | epdg/src/libipsec/ipsec_sa_mgr.c:213-230 | exactly the entries that other threads are deleting are left, in their order |
| RadiusCrypt.DecryptInvertsEncrypt | epdg/src/libradius/radius_message.c:398-457 | decryption inverts encryption, for any whole number of blocks |
| RadiusCrypt.EncryptInvertsDecrypt | epdg/src/libradius/radius_message.c:398-457 | and the other way around |
| RadiusCrypt.EncryptIsChain | epdg/src/libradius/radius_message.c:398-457 | block by block: the first is combined with the seed, every other one with the hash of the secret and the encrypted block before it |
| RadiusCrypt.XorExactly | epdg/src/libradius/radius_message.c:437-455 | each bit of the result is set exactly if it is set in one of the two bytes |
| RadiusCrypt.Crypt | epdg/src/libradius/radius_message.c:398-457 | run in place the loop is the encryption of section 5.2 of RFC 2865 with the hash of secret, authenticator and salt as seed, run into another buffer it is the decryption; anything but a positive number of whole blocks is refused and nothing written |
| RadiusCrypt.ChainIsCipher | epdg/src/libradius/radius_message.c:437-455 | which of the two it is depends only on whether the next seed is hashed from the block before or after it was combined |
| RadiusMessage.AppendSplits | epdg/src/libradius/radius_message.c:388-396 | an add appends one attribute, cut to 253 bytes, to what enumerating yields |
| RadiusBuilding.EnumeratesWhatWasAdded | epdg/src/libradius/radius_message.c:374-396 | after any sequence of adds, the message can be enumerated, and that yields what was added, in order and cut to 253 bytes, without the first non-empty User-Password, which is stored null-padded, and the empty ones before it |
| RadiusBuilding.KeptExactly | epdg/src/libradius/radius_message.c:374-396 | what the adds append one by one is that closed form |
| RadiusBuilding.SignedSplits | epdg/src/libradius/radius_message.c:459-524 | a signed message has the attributes it had, then the encrypted password if one was stored, then the Message-Authenticator if asked for; its authenticator is the random one or the response hash |
| RadiusBuilding.PasswordComesBackExactly | epdg/src/libradius/radius_message.c:374-524 | the password stored by any sequence of adds stands behind all that was added and before the Message-Authenticator of the signed message; under the random authenticator which that carries, or the request authenticator which it does not, it decrypts to the null-padded original if and only if that has at most 240 bytes |
| RadiusBuilding.LongPasswordIsLost | epdg/src/libradius/radius_message.c:374-524 | a password of 241 bytes in a request does not decrypt to itself |
| RadiusMessage.SignThenVerify | epdg/src/libradius/radius_message.c:459-609 | verify terminates on what sign made; it accepts it with the same secret and request authenticator if and only if there is a Message-Authenticator or no EAP-Message, and leaves every byte as it was |
| RadiusMessage.SignedIsSound | epdg/src/libradius/radius_message.c:459-524 | what sign makes meets what enumerating and verifying it asks for |
| RadiusMessage.EapNeedsMac | epdg/src/libradius/radius_message.c:603-607 | an answer with an EAP-Message that is signed without a Message-Authenticator is refused |
| RadiusMessage.AttrsAtIsSplit | epdg/src/libradius/radius_message.c:246-290 | walking the attributes by position yields what cutting the body apart yields |
| RadiusMessage.Enumerator.constructor | epdg/src/libradius/radius_message.c:271-290 | a new enumerator has all attributes of the message before it, whatever these are |
| RadiusMessage.Enumerator.Enumerate | epdg/src/libradius/radius_message.c:246-269 | the kind, place and data length of the next attribute and the cursor behind it, for any length, with the wrap-around of lengths below 2; a truncated attribute ends the enumeration |
| RadiusMessage.Message.constructor | epdg/src/libradius/radius_message.c:680-691 | an empty message with its length set |
| RadiusMessage.Message.Parse | epdg/src/libradius/radius_message.c:696-710 | accepts exactly the buffers that are as long as their header says |
| RadiusMessage.Message.Add | epdg/src/libradius/radius_message.c:374-396 | the first User-Password is kept back, null-padded; anything else is appended |
| RadiusMessage.Message.EmitPassword | epdg/src/libradius/radius_message.c:484-494 | the password is encrypted in place under the authenticator in the message and appended |
| RadiusMessage.Message.Sign | epdg/src/libradius/radius_message.c:459-524 | the signed message, or no change when the generator fails |
| RadiusMessage.Message.CheckMac | epdg/src/libradius/radius_message.c:573-588 | the Message-Authenticator is checked over the message with its value blanked, and put back only if it is right |
| RadiusMessage.FirstMac | epdg/src/libradius/radius_message.c:562-595 | enumerating stops at the first Message-Authenticator and tells whether an EAP-Message came before it |
| RadiusMessage.Message.ScanMessageAuthenticator | epdg/src/libradius/radius_message.c:562-595 | the first Message-Authenticator is checked, and one of a wrong length refused; the message is changed only if that fails |
| RadiusMessage.Message.Verify | epdg/src/libradius/radius_message.c:526-609 | the result and what is left in the buffer, also when verification fails half-way; which messages are accepted is said by RadiusLayout.VerifiesExactly |
| RadiusLayout.VerifiesExactly | epdg/src/libradius/radius_message.c:526-609 | a message is accepted if and only if the authenticator of an answer is the hash of the message with that of the request and of the secret, and the first Message-Authenticator has 16 bytes that the signer accepts over this message with them null, or there is none and no EAP-Message; and what is left in the buffer otherwise |
| RadiusLayout.EveryWalk | epdg/src/libradius/radius_message.c:246-290 | every message with which verify comes to an end has a walk along its attributes as this asks for |
| RadiusLayout.ForgeryIsRefused | epdg/src/libradius/radius_message.c:526-560 | an answer whose authenticator is not that hash is refused, whatever attributes it has |
| RadiusLayout.SignedExactly | epdg/src/libradius/radius_message.c:459-524 | the bytes that sign makes: header and length, the attributes, the encrypted password, the Message-Authenticator over all of that with 16 null bytes, and a random authenticator or the hash over all of that and the secret |
| RadiusLayout.AppendExactly | epdg/src/libradius/radius_message.c:388-396 | the bytes of a message after one more attribute, with its length |
| RadiusLayout.CreateExactly | epdg/src/libradius/radius_message.c:680-691 | the 20 bytes of a new message |
| RadiusLayout.WellFormedExactly | epdg/src/libradius/radius_message.c:696-710 | the buffers of the declared length are those that are laid out as code, identifier, length, authenticator and attributes |
| RadiusVendor.VendorAttrsComeBack | epdg/src/libradius/radius_message.c:306-348 | vendor attributes added to a message come back in order, each with its vendor; whatever is added in between, passwords and malformed Vendor-Specific attributes included, yields only what is in it by itself |
| RadiusVendor.InsideExactly | epdg/src/libradius/radius_message.c:306-348 | in any Vendor-Specific attribute: the vendor in network byte order and the whole attributes behind it, up to the first malformed one |
| RadiusVendor.SplitExactly | epdg/src/libradius/radius_message.c:246-269 | whole attributes, laid out one after the other, and something malformed behind them, are enumerated as these attributes |
| RadiusVendor.EverySplit | epdg/src/libradius/radius_message.c:246-269 | every byte string falls into whole attributes and something malformed |
| RadiusVendor.VendorEnumerator.ReadNext | epdg/src/libradius/radius_message.c:317-330 | the next attribute of the current vendor, or the end of it at the first malformed one |
| RadiusVendor.VendorEnumerator.Enumerate | epdg/src/libradius/radius_message.c:306-348 | the next vendor attribute of the message, and exactly the others left; it ends only when there are none |
| RadiusMsk.KeyComesBack | epdg/src/libradius/radius_socket.c:302-316 | a key encrypted as section 2.4.2 of RFC 2548 says decrypts to itself |
| RadiusMsk.IsKeyExactly | epdg/src/libradius/radius_socket.c:327-341 | which attributes hold a key, byte by byte |
| RadiusMsk.KeyExactly | epdg/src/libradius/radius_socket.c:302-316 | the key of any attribute: whole blocks behind the salt, decrypted under secret, authenticator and salt, give its length and the key; otherwise it is empty |
| RadiusMsk.MskComesBack | epdg/src/libradius/radius_socket.c:318-363 | whatever else is added to a response, passwords included, its last receive and send keys make the master session key, receive key first, null-padded to 64 bytes; an empty key makes none |
| RadiusMsk.Msk | epdg/src/libradius/radius_socket.c:349-362 | a session key is empty exactly if one of the keys is; otherwise it is the receive key, the send key, and null bytes up to 64 |
| RadiusMsk.Socket.DecryptMppeKey | epdg/src/libradius/radius_socket.c:302-316 | the key without its length byte and padding; empty if that does not work out |
| RadiusMsk.Socket.FindKeys | epdg/src/libradius/radius_socket.c:327-348 | the last key of each type in the response |
| RadiusMsk.Socket.DecryptMsk | epdg/src/libradius/radius_socket.c:318-363 | the session key of the response |
| PtTls.RoundTripExactly | epdg/src/libpttls/pt_tls.c:91-166 | a written message is read back, and what follows it stays in the stream, if and only if its length fits 32 bits |
| PtTls.SequenceRoundTrip | epdg/src/libpttls/pt_tls.c:91-166 | any sequence of messages is read back in order, empty values included |
| PtTls.LayoutExactly | epdg/src/libpttls/pt_tls.c:138-166 | the written bytes, in the layout of section 3.5 of RFC 6876 |
| PtTls.ReadExactly | epdg/src/libpttls/pt_tls.c:91-133 | what is read from any stream with a whole header, of any vendor, and what is left of the stream, also for lengths that are too small or too large |
| PtTls.ReadTls | epdg/src/libpttls/pt_tls.c:69-86 | the next bytes of the stream however the reads split it; nothing if a read fails, and on a healthy connection only if the stream ends before |
| PtTls.PtTlsRead | epdg/src/libpttls/pt_tls.c:91-133 | any message returned is the next one, with the stream left behind it; on a healthy connection nothing is returned exactly if the next one is cut off or malformed |
| PtTls.PtTlsWrite | epdg/src/libpttls/pt_tls.c:138-166 | a prefix of the message is written, and the result tells whether it is all of it |
| FormatOptions.AddKeepsOrder | epdg/conf/format-options.py:177-206 | whatever is defined, siblings stay unique by name and kind and sorted by name, at every depth |
| FormatOptions.PlaceInserts | epdg/conf/format-options.py:187-190 | appending to a sorted list and sorting it is a stable insertion |
| FormatOptions.NameLessExactly | epdg/conf/format-options.py:90-91 | the order of names is that of Python strings: at the first difference the smaller character or the end comes first |
| FormatOptions.LookupAfterAdd | epdg/conf/format-options.py:177-206 | a definition sets or changes its own name, makes missing sections above it appear, and changes nothing else |
| FormatOptions.BuildHoldsFinal | epdg/conf/format-options.py:177-206 | after any sequence of definitions the store holds exactly what these say about each name |
| FormatOptions.Undefined | epdg/conf/format-options.py:192-206 | a name without a definition is an undescribed section above a defined one, or is not there |
| FormatOptions.LastDefinitionExactly | epdg/conf/format-options.py:107-111 | a node carries the last definition of its name with the kind of the first; it carries the last one whole if and only if both agree on being an include |
| FormatOptions.RedefinedInclude | epdg/conf/format-options.py:107-111 | an option that is redefined as an include and stays an option |
| FormatOptions.FinalIgnoresOrder | epdg/conf/format-options.py:177-206 | for definitions that do not contradict each other, order and repetition do not matter |
| FormatOptions.Parser.AddOption | epdg/conf/format-options.py:177-190 | the store is what the definitions so far make it, with empty paragraphs dropped |
| FormatOptions.Parser.GetOption | epdg/conf/format-options.py:192-210 | the section with that name and what is known about it, or nothing |
| OptionOutput.SortedByKind | epdg/conf/format-options.py:113-118 | a stable sort with cmp is plain options, then sections, then includes, each in their order |
| OptionOutput.PrintsSorted | epdg/conf/format-options.py:285-308 | printing siblings of each kind after those of the kind before is printing them sorted with cmp, at any indentation |
| OptionOutput.SectionPrintsSorted | epdg/conf/format-options.py:285-298 | at every depth a section is its opening line, its options sorted with cmp and one level deeper, and its closing line, commented out if it or one above it is |
| OptionOutput.FormatPrintsSorted | epdg/conf/format-options.py:300-308 | the top level is printed sorted with cmp |
| OptionLines.LinesExactly | epdg/conf/format-options.py:273-308 | the lines that are printed are exactly those of the options of the tree, each with its name, default, first paragraph and depth, and commented out if it or a section above it is |
| OptionOutput.Canonical | epdg/conf/format-options.py:273-308 | two stores in which the same is known about every name print the same, at every depth |
| OptionOutput.OutputIsFinal | epdg/conf/format-options.py:259-308 | what is printed depends only on what is finally known about each name |
| OptionOutput.OutputIgnoresOrder | epdg/conf/format-options.py:259-308 | describing the same names in another order, or several times alike, prints the same |
| PhostPort.SumIsSpread | ims/src/main.c:949-956 | adding the shifted bytes of a name puts them side by side |
| PhostPort.ProtoExactly | ims/src/main.c:947-1002 | the packed comparison accepts exactly the names of the enabled protocols, in any mix of cases |
| PhostPort.DecimalExactly | ims/src/main.c:1177-1178 | a decimal number is read back as a port if and only if it fits an int |
| PhostPort.HostExactly | ims/src/main.c:1165-1174 | a host without a colon outside of brackets is read back if and only if it is not empty |
| PhostPort.HostPortExactly | ims/src/main.c:1183-1196 | host:port is read back if and only if the port fits an int |
| PhostPort.ProtoHostExactly | ims/src/main.c:1183-1196 | proto:host is read back if and only if the host is neither empty nor a number; a number is taken for the port and the protocol for the host |
| PhostPort.NumberIsPort | ims/src/main.c:1183-1196 | udp:5 is host udp with port 5 |
| PhostPort.ProtoHostPortExactly | ims/src/main.c:1175-1182 | proto:host:port is read back if and only if the port fits an int |
| PhostPort.FieldsExactly | ims/src/main.c:1140-1174 | a text falls into fields if and only if these are proper and make it up when joined with colons |
| PhostPort.PieceExactly | ims/src/main.c:1140-1164 | a field has no colon outside of brackets, and its brackets are closed and not nested, counted by position |
| PhostPort.IsNumberExactly | ims/src/main.c:1177-1192 | a text is a number exactly if it is spaces, a sign or none, and decimal digits |
| PhostPort.SpelledIsNumber | ims/src/main.c:1177-1192 | what such a text is stored as: the value of the digits with the sign, limited to 64 bits and cut to 32 |
| PhostPort.AcceptedExactly | ims/src/main.c:1131-1211 | a text is accepted with a host, port and protocol if and only if it has one of the four shapes, with the name of an enabled protocol and a number that fits where they are due, and this is what it says |
| PhostPort.Scan | ims/src/main.c:1140-1164 | the scan accepts exactly brackets of one level and at most two colons outside of them, and finds these |
| PhostPort.ParsePhostport | ims/src/main.c:1131-1211 | host, port and protocol of a text, or a refusal, as the grammar says |
| Testcases.FindsFirst | scripts/generate_testcases.py:158-168 | finds the first node of that name in post-order at any depth, and nothing only if there is none |
| Testcases.MutatedDiffers | scripts/generate_testcases.py:196-201 | a generated testcase differs from the original in the id of its head and the value and op of the target, and in nothing else |
| Testcases.IdsDiffer | scripts/generate_testcases.py:197-198 | no two testcases of one property have the same id |
| Testcases.AskedExactly | scripts/generate_testcases.py:184-194 | a testcase is generated for exactly those testcases, targets and values for which the first node of that name allows an update and the value is possible but not correct |
| Testcases.UpdateValues | scripts/generate_testcases.py:184-204 | for one property, per testcase and target found in it that may be updated, exactly one testcase for each value that is possible but not correct |
| Testcases.UpdateAll | scripts/generate_testcases.py:170-207 | over all properties, each message has the testcases of the properties about it, in order; the only failure is a testcase for a message that is not listed |

## Left out

- EspContext.Context.constructor: the selection of algorithms and keys; that it can fail is part of IpsecSa.Sa.Create.
- IpsecSa.Sa.constructor: the time of the last use; the refusals are in IpsecSa.Sa.Create.
- IpsecSa.Sa.Create: whether the algorithms and keys are usable is a parameter.
- Processor.Databases.CheckoutBySpi: the SA list has no locking here; waiting for an entry, and giving up on one that is being deleted, are steps of SaProtocol. That checkout never returns an SA that expired while waiting is not claimed: the match is evaluated before the wait.
- Processor.Databases.CheckoutByReqid: as Processor.Databases.CheckoutBySpi.
- SaRuns.MutualExclusion: is about the locking fields; that sa_expired calls expire on an entry that another thread may hold is in SaExpiry.
- SaFlush.FlushIsComplete: the place of the flush loop in the list is an index; that the enumerator of the source stays usable while other threads change the list is not claimed.
- SaExpiry.EventsExactly: memory is sequentially consistent, the two flags are read in one step, and a job that is still pending for an entry that was freed is not modelled.
- IpsecSa.EventsOfRun: expire is one step here; SaExpiry.EventsExactly has it in its parts. The same holds for IpsecSa.RunIsConsistent and SaTimer.LogOfRun.
- SaTimer.Timer.SaExpired: as SaTimer.TimerExactly.
- SaTimer.TimerExactly: that sa_expired finds the right entry under the pointer it remembers is not modelled, and the removal it ends with is one step; waiting for the entry is in SaProtocol.
- Tunnel.EndToEnd: the receiving SA stays installed, and its counters start at 0.
- SpiAllocator.Allocator.GetSpi: SPIs are in host byte order throughout.
- SpiAllocator.Allocator.DelSa: whether another thread is deleting the entry is a parameter. The same holds for SpiAllocator.Allocator.UpdateSa and SpiAllocator.Allocator.FlushSas.
- RadiusCrypt.Crypt: hashing does not fail.
- RadiusMessage.Message.Add: messages stay below 65536 bytes; the source does not check that its 16-bit length does not wrap.
- RadiusMessage.Message.Sign: messages stay below 65536 bytes, and hashing and signing do not fail; a failing random number generator is modelled.
- RadiusMessage.FirstMac: no attribute before the Message-Authenticator has length 0; the loop of the source does not end on one.
- RadiusMessage.Message.ScanMessageAuthenticator: as RadiusMessage.FirstMac.
- RadiusMessage.Message.Verify: as RadiusMessage.FirstMac.
- RadiusLayout.VerifiesExactly: as RadiusMessage.FirstMac.
- RadiusLayout.SignedExactly: as RadiusMessage.Message.Sign. The same holds for RadiusLayout.AppendExactly.
- RadiusVendor.VendorEnumerator.Enumerate: attributes of the message have a length of at least 2, as shorter ones make the source read beyond the message; those inside of a Vendor-Specific attribute are arbitrary.
- RadiusMsk.Socket.FindKeys: attributes have a length of at least 2, as shorter ones make the source read beyond the message.
- RadiusMsk.Socket.DecryptMsk: as RadiusMsk.Socket.FindKeys.
- RadiusBuilding.EnumeratesWhatWasAdded: what is added fits into 65535 bytes. The same holds for RadiusBuilding.PasswordComesBackExactly, RadiusVendor.VendorAttrsComeBack and RadiusMsk.MskComesBack.
- PhostPort.ParseProto: the shifted bytes are combined with a bitwise or where the source adds them, which PhostPort.SumIsSpread shows to be the same; TCP, TLS and SCTP are compiled in.
- FormatOptions.Add: nodes are values, so updating a node in place and sharing nodes are not modelled; sorting is on, as in the default of the parser.
- Testcases.UpdateValues: testcases are values, so that copies are deep is built in. The order of the values of a target is left open, as the source iterates over a set.
- Uniqueness of SPI and endpoints across update_sa is not claimed, since only add_sa checks it.
- Ciphers, hash functions, signers, random number and IV generators, the selection of algorithms, and the values of Internet checksums.
- Linked lists, hash tables, queues and the thread pool are sequences, sets and steps.
- The retransmission loop, sockets and authentication state of radius_socket.c.
- Parsing the lines of option files, groff output, wrapping and tag replacement in format-options.py.
- parse_name_lst and the rest of the IMS server; the other mutators of the test generator, which would only add easy members.
- PT-TLS clients, servers and dispatchers, libfast, the daemons, loggers and benchmarks: process, network and I/O plumbing.
