# Open.Nat / Mono.Nat port-mapping core in Dafny

This project models the protocol logic of Open.Nat and of its ancestor Mono.Nat. Both are .NET libraries that find a home router and ask it to forward ports. They speak two protocols:

- **UPnP IGD.** The searcher multicasts an SSDP probe and filters the answers on the WANIPConnection / WANPPPConnection service URNs. It reads the `Location:` header, fetches the device description and resolves the control URL. Port mappings are then created, listed and deleted with SOAP calls. UPnP error 713 ends the mapping enumeration, 714 means "no such entry" and 725 means only permanent leases are supported.
- **NAT-PMP (RFC 6886).** The searcher sends the 2-byte external-address probe to every IPv4 gateway. It backs off from 250 ms to 64 s and then pauses ten minutes. A mapping is asked for with the 12-byte request of section 3.3 of RFC 6886 and read from the 16-byte answer.

The repository holds several revisions side by side, and they are modelled each as written rather than merged:

- the Open.Nat and Mono.Nat `Mapping` classes;
- the two `Guard` classes;
- the three `Searcher` base classes;
- the two `UpnpSearcher` and `UpnpNatDevice` classes;
- the two `UpnpServiceProxy` classes.

The model follows the code wherever it departs from what the libraries set out to do, such as renewing a mapping when less than 5 s of its lease remains, deleting a NAT-PMP mapping with lifetime 0, or deduplicating devices by identity. Each such departure is listed under Findings, together with a corrected definition.

The test mock router's table serves as an environment model for end-to-end properties. One example: create, list, delete, list shows a mapping present and then gone.

Everything is pure functions over immutable datatypes:

- Time is .NET ticks, passed in as `now`.
- UDP sockets are sequences of waiting datagrams.
- An HTTP exchange is a value saying how it ended.
- An XML document is an element tree.
- .NET exceptions are an `Exceptions.Exception` datatype carried by `Fallible<T>`.
- Int32 arithmetic and the `(int)` cast are written out.
- The NAT-PMP constants (`PmpConstants`) are not in the repository. They are a record parameter with a well-formedness predicate, and `RFC6886` gives the values that standard fixes.

Files:

| file | models |
|---|---|
| wrappers.dfy, net.dfy, numbers.dfy, text.dfy, uris.dfy, utf8.dfy, xml.dfy | Option/Fallible and the exception kinds, DateTime and IP end points, Int32 and big-endian fields, .NET string operations, the http URI grammar, UTF-8, the element tree and WriteFullElement |
| guard.dfy, open_nat_mapping.dfy, mono_nat_mapping.dfy | the guards and both Mapping revisions |
| pmp_device.dfy, pmp_searcher.dfy | NAT-PMP requests, answers, retries and the search backoff |
| ssdp.dfy, upnp_searchers.dfy | the SSDP answer parser, URN filter, Location extraction and both UPnP searchers |
| sockets.dfy, searchers.dfy, discoverer.dfy | the searcher skeletons and NatDiscoverer's registry |
| device_info.dfy, upnp_request.dfy, upnp_response.dfy, upnp_control.dfy | device info and control-URL resolution, SOAP requests, fault-first response decoding, the mapping operations of both proxies and devices |
| mock_router.dfy | the test mock router's table, fault answers and SSDP answer |

## Model

| member | source | states |
|---|---|---|
| Guard.IsInRange | Open.Nat/Utils/Guard.cs:7-11 | passes exactly when lowerBound <= value <= upperBound, so both bounds are inclusive; otherwise fails with ArgumentOutOfRangeException naming the parameter, and has no other outcome |
| Guard.IsTrue | Open.Nat/Utils/Guard.cs:13-17 | passes exactly when the expression holds; otherwise fails with ArgumentOutOfRangeException naming the parameter |
| Guard.IsInRangeBoundaries | Open.Nat/Utils/Guard.cs:9 | both bounds pass; lowerBound - 1 and upperBound + 1 fail |
| OpenNatMapping.GuardIsInRange | Open.Nat/Mapping.cs:235-239 | the second Guard class inside Mapping.cs passes exactly for values within the inclusive bounds |
| OpenNatMapping.GuardIsTrue | Open.Nat/Mapping.cs:241-245 | the second Guard class passes exactly when the expression holds |
| OpenNatMapping.GuardCopiesAgree | Open.Nat/Mapping.cs:233-246 | the two Guard classes of namespace Open.Nat give the same outcome on every input |
| OpenNatMapping.SetLifetime | Open.Nat/Mapping.cs:86-108 | int.MaxValue gives the maximal expiration and a permanent mapping; 0 gives expiration now and a permanent mapping; any other lifetime gives now plus that many seconds and a non-permanent mapping; only an AddSeconds overflow fails; no other field changes |
| OpenNatMapping.SetExpiration | Open.Nat/Mapping.cs:116-120 | the lifetime becomes the whole seconds remaining, truncated toward zero, and permanence is derived again; an expiration less than one second away gives a permanent lifetime-0 mapping that expires now |
| OpenNatMapping.New | Open.Nat/Mapping.cs:142-156 | fails with ArgumentOutOfRangeException for privatePort, then publicPort outside 0..65535, then a negative lifetime, then a protocol other than Tcp or Udp, in that order; otherwise it succeeds unless AddSeconds overflows, copies every argument, sets PublicIP to None and derives expiration and permanence from the lifetime |
| OpenNatMapping.NewInternal | Open.Nat/Mapping.cs:123-126 | gives a permanent lifetime-0 mapping described "Open.Nat" |
| OpenNatMapping.NewInternalDescribed | Open.Nat/Mapping.cs:128-131 | gives a permanent lifetime-0 mapping with the given description |
| OpenNatMapping.NewPermanentDescribed | Open.Nat/Mapping.cs:182-185 | succeeds exactly when the ports and protocol pass the guards; gives a permanent lifetime-0 mapping with the given description |
| OpenNatMapping.NewPermanent | Open.Nat/Mapping.cs:167-170 | succeeds exactly when the ports and protocol pass the guards; gives a permanent lifetime-0 mapping described "Open.NAT" that expires now and has PublicIP None |
| OpenNatMapping.NewWithLifetime | Open.Nat/Mapping.cs:195-198 | succeeds only for arguments the guards accept, and keeps the lifetime |
| OpenNatMapping.ConstructedExpiry | Open.Nat/Mapping.cs:206-209 | a constructed mapping is expired at a later instant exactly when its lifetime is neither 0 nor int.MaxValue and creation time plus lifetime lies before that instant |
| OpenNatMapping.PermanentIsNeverDue | Open.Nat/Mapping.cs:206-214 | a permanent mapping is never expired and never due for renewal, under the test as written and under the intended one |
| OpenNatMapping.ShoundRenewSignIsInverted | Open.Nat/Mapping.cs:211-214 | as written, a one-hour mapping is due for renewal at the instant it is created, and no longer due a minute after it expired |
| OpenNatMapping.ShouldRenewNearExpiry | Open.Nat/Mapping.cs:211-214 | the intended test: a mapping with more than 5 s of lifetime is not due at creation, and is due exactly when fewer than 5 s remain |
| OpenNatMapping.SentinelIsRejected | Open.Nat/Mapping.cs:144 | the public constructor rejects the (Tcp, -1, -1) sentinel with ArgumentOutOfRangeException for privatePort |
| MonoNatMapping.New | src/Mono.Nat/Mapping.cs:57-77 | performs no validation and copies every argument; expiration is the maximum for int.MaxValue, now for 0 and now plus lifetime otherwise; only an AddSeconds overflow fails |
| MonoNatMapping.NewDefault | src/Mono.Nat/Mapping.cs:47-50 | gives lifetime 0, description "Mono.Nat" and expiration now, keeping protocol and ports |
| MonoNatMapping.NewDescribed | src/Mono.Nat/Mapping.cs:52-55 | gives lifetime 0, the given description and expiration now, keeping protocol and ports |
| MonoNatMapping.EqualsIgnoresDetails | src/Mono.Nat/Mapping.cs:84-90 | a mapping equals any copy with another description, lifetime or expiration |
| MonoNatMapping.EqualsIsEquivalence | src/Mono.Nat/Mapping.cs:84-90 | equality is reflexive, symmetric and transitive |
| MonoNatMapping.EqualsAgreesWithHashCode | src/Mono.Nat/Mapping.cs:92-95 | equal mappings have equal hash codes |
| MonoNatMapping.SentinelIsAccepted | src/Mono.Nat/Mapping.cs:57-63 | the (Tcp, -1, -1) sentinel is constructed with its negative ports |
| MonoNatMapping.ZeroLifetimeExpires | src/Mono.Nat/Mapping.cs:79-82 | with no permanence exemption, a lifetime-0 mapping is expired at every instant after its creation |
| MappingRevisions.RevisionsAgreeOnExpiry | src/Mono.Nat/Mapping.cs:65-82 | whenever the Open.Nat constructor succeeds, the Mono.Nat one gives the same expiration; the two IsExpired answers differ exactly for lifetime 0 at a later instant |
| Clock.TruncatedSeconds | Open.Nat/Mapping.cs:119 | the (int) cast of TotalSeconds: whole seconds truncated toward zero, for negative spans too |
| Clock.AddTicks | src/Mono.Nat/Mapping.cs:74 | DateTime addition: defined exactly when the result stays within the DateTime range |
| Pmp.RFC6886IsWellFormed | src/Mono.Nat/Pmp/PmpNatDevice.cs:97-98 | the constants RFC 6886 fixes have distinct request opcodes below 128 and a retry delay that stays an Int32 while it doubles |
| Pmp.EncodeRequest | src/Mono.Nat/Pmp/PmpNatDevice.cs:95-103 | the mapping request datagram is exactly 12 bytes |
| Pmp.DecodeRequest | src/Mono.Nat/Pmp/PmpNatDevice.cs:101-103 | reading a 12-byte request gives ports within 0..65535 and a lifetime within the unsigned 32-bit range |
| Pmp.RequestRoundTrip | src/Mono.Nat/Pmp/PmpNatDevice.cs:95-103 | the request reads back as version, opcode, two reserved zero bytes, the private port, the public port (0 in a delete) and the lifetime, each truncated to its field width as the casts to short and int do |
| Pmp.RequestOpcodeIsTcpIffTcp | src/Mono.Nat/Pmp/PmpNatDevice.cs:98 | byte 1 is the TCP opcode exactly when the mapping's protocol is Tcp |
| Pmp.DeleteRequestZeroesPublicPort | src/Mono.Nat/Pmp/PmpNatDevice.cs:102 | a delete request is the create request with bytes 6 and 7 zeroed and every other byte the same |
| Pmp.DeleteRequestKeepsLifetime | src/Mono.Nat/Pmp/PmpNatDevice.cs:103 | a delete request of a mapping with a positive lifetime asks for that lifetime, not for 0 |
| Pmp.EncodeDeleteRequest | src/Mono.Nat/Pmp/PmpNatDevice.cs:95-103 | the corrected delete request is 12 bytes |
| Pmp.DeleteRequestRequestsZeroLifetime | src/Mono.Nat/Pmp/PmpNatDevice.cs:102-103 | the corrected delete request reads back with lifetime 0 and public port 0, keeping the private port and the opcode, as section 3.4 of RFC 6886 asks |
| Pmp.AnswerProtocol | src/Mono.Nat/Pmp/PmpNatDevice.cs:152-156 | an answer names Udp exactly when its opcode's low seven bits are the UDP opcode, and Tcp otherwise |
| Pmp.HandleMappingAnswer | src/Mono.Nat/Pmp/PmpNatDevice.cs:144-180 | a datagram shorter than 16 bytes or of another version is skipped with the mapping unchanged; a bad result code fails with "Invalid result code" and the mapping unchanged; a lifetime-0 answer ends listening with the mapping unchanged; any other answer sets public port, protocol and expiration (now plus the lifetime) and goes on listening, or fails with the port and protocol already written when the expiration leaves the DateTime range |
| Pmp.AnswerTouchesThreeFields | src/Mono.Nat/Pmp/PmpNatDevice.cs:175-179 | handling a datagram changes no field of the mapping other than public port, protocol and expiration, and changes the expiration only for a read answer after which listening goes on |
| Pmp.EncodeMappingAnswer | src/Mono.Nat/Pmp/PmpNatDevice.cs:146-164 | the answer datagram a gateway sends is 16 bytes |
| Pmp.MappingAnswerRoundTrip | src/Mono.Nat/Pmp/PmpNatDevice.cs:146-180 | a successful answer built for a protocol, port and lifetime is handled as ending listening for lifetime 0, and otherwise as setting exactly that port, protocol and now plus lifetime |
| Pmp.AnswerFields | src/Mono.Nat/Pmp/PmpNatDevice.cs:152-164 | the fields of a built answer read back through the big-endian readers: version, opcode, result code, public port and lifetime |
| Pmp.Listen | src/Mono.Nat/Pmp/PmpNatDevice.cs:138-181 | with no datagram, or only datagrams shorter than 16 bytes, listening goes on and the mapping is unchanged |
| Pmp.ListenOne | src/Mono.Nat/Pmp/PmpNatDevice.cs:142-180 | listening over one datagram is one pass of the loop body on it |
| Pmp.ListenAppend | src/Mono.Nat/Pmp/PmpNatDevice.cs:142-180 | listening ends at the first datagram that returns or throws, and nothing received after it matters; until then each datagram is handled against the mapping the earlier ones left |
| Pmp.FailureMessage | src/Mono.Nat/Pmp/PmpNatDevice.cs:111-112 | the message names "create" exactly for a create, shows the mapping's protocol after "(protocol=" and ends with the private port |
| Pmp.CreatePortMap | src/Mono.Nat/Pmp/PmpNatDevice.cs:105-115 | no result while listening goes on; the mapping as the answers left it when an answer ended listening; when listening failed, always the MappingException naming the operation, with the protocol and private port of the mapping as the answers had left it |
| Pmp.FailureReportsAnsweredProtocol | src/Mono.Nat/Pmp/PmpNatDevice.cs:105-179 | a Tcp mapping answered as UDP and then failed is reported with protocol Udp, because the listener wrote the answered protocol into the mapping before the failure |
| Pmp.SendLoop | src/Mono.Nat/Pmp/PmpNatDevice.cs:120-134 | sends exactly RetryAttempts datagrams and pauses after each, the delay doubled before every pause, with no pause beyond the Int32 range |
| Pmp.PausesTotal | src/Mono.Nat/Pmp/PmpNatDevice.cs:127-134 | n sends pause delay * (2^(n+1) - 2) in total |
| Pmp.DeviceEqualsIsEquivalence | src/Mono.Nat/Pmp/PmpNatDevice.cs:77-91 | device equality is reflexive, symmetric and transitive |
| Pmp.DeviceEqualsIgnoresGateway | src/Mono.Nat/Pmp/PmpNatDevice.cs:88-91 | two devices reporting one public address are equal whatever gateway they were found at |
| Pmp.GetAllMappings | src/Mono.Nat/Pmp/PmpNatDevice.cs:60-63 | always fails with NotSupportedException |
| Pmp.GetSpecificMapping | src/Mono.Nat/Pmp/PmpNatDevice.cs:70-74 | always fails with NotSupportedException |
| Pmp.GetExternalIP | src/Mono.Nat/Pmp/PmpNatDevice.cs:65-68 | the address returned identifies the device under its own equality |
| PmpSearcher.InterNetworkOnly | src/Mono.Nat/PmpSearcher.cs:66-70 | an address is kept exactly when it is in the list and IPv4 |
| PmpSearcher.InterNetworkOnlyConcat | src/Mono.Nat/PmpSearcher.cs:66-70 | the filter keeps order and repetitions: filtering joined lists joins the filtered lists, and one address is kept exactly when it is IPv4 |
| PmpSearcher.GatewayList | src/Mono.Nat/PmpSearcher.cs:63-80 | every end point is an IPv4 gateway, or an IPv4 DNS address when the interface has no IPv4 gateway, at the server port; every such address is in the list |
| PmpSearcher.InterfaceSockets | src/Mono.Nat/PmpSearcher.cs:60-101 | an interface that is neither Up nor Unknown, or has no gateway end point, gets no socket; otherwise there is one socket for each IPv4 unicast address that can be bound, each with the interface's gateway list, and no other |
| PmpSearcher.BindEach | src/Mono.Nat/PmpSearcher.cs:84-101 | a socket for exactly the IPv4 addresses that can be bound, the others skipped |
| PmpSearcher.BindOne | src/Mono.Nat/PmpSearcher.cs:84-101 | one address gives one socket, with the interface's gateways, exactly when it is IPv4 and can be bound, and none otherwise |
| PmpSearcher.BindEachConcat | src/Mono.Nat/PmpSearcher.cs:84-101 | the addresses are bound in order, one socket per bindable IPv4 address, repetitions included |
| PmpSearcher.CreateSockets | src/Mono.Nat/PmpSearcher.cs:51-108 | a socket is created exactly when it is one of some interface's sockets |
| PmpSearcher.CreateSocketsConcat | src/Mono.Nat/PmpSearcher.cs:51-108 | the interfaces are taken one by one in order: one interface gives exactly its own sockets, and joined interface lists give the sockets of each list in turn |
| PmpSearcher.Probe | src/Mono.Nat/PmpSearcher.cs:127 | the probe is the two bytes Version, OperationExternalAddressRequest |
| PmpSearcher.ProbeEach | src/Mono.Nat/PmpSearcher.cs:128-129 | the probe is sent once to each gateway end point of the socket, in order |
| PmpSearcher.SearchSocketDoubles | src/Mono.Nat/PmpSearcher.cs:115-116 | below 64 s, a call sets NextSearch to now plus the current timeout, doubles the timeout and probes every gateway of the socket |
| PmpSearcher.SearchSocketGivesUp | src/Mono.Nat/PmpSearcher.cs:119-124 | at 64 s the doubled timeout reaches 128000: the timeout goes back to 250, NextSearch becomes now plus 10 minutes and nothing is sent |
| PmpSearcher.SearchSocketKeepsLadder | src/Mono.Nat/PmpSearcher.cs:115-124 | between calls the timeout stays one of 250, 500, ..., 64000 |
| PmpSearcher.EightProbesThenPause | src/Mono.Nat/PmpSearcher.cs:47 | from the initial 250 ms, exactly eight consecutive calls probe, ending at 64 s, and the ninth resets without sending |
| PmpSearcher.RepeatClimbs | src/Mono.Nat/PmpSearcher.cs:115-129 | the n-th of the first eight calls probes and leaves the n-th doubling of 250 ms |
| PmpSearcher.SearchRoundKeepsLadder | src/Mono.Nat/PmpSearcher.cs:110-124 | after each socket's call in a round of the base class's Search, the timeout is still on the ladder |
| PmpSearcher.Handle | src/Mono.Nat/PmpSearcher.cs:138-155 | a datagram from an address no socket probes, of a length other than 12, or without Version and ServerNoop in its first two bytes changes nothing; otherwise the result code is ignored, the timeout returns to 250, NextSearch becomes now plus 5 minutes and one device is reported, found at the sender with public address bytes 8 to 11 in order |
| PmpSearcher.EncodeAddressAnswer | src/Mono.Nat/PmpSearcher.cs:141 | an external-address answer is 12 bytes |
| PmpSearcher.AddressAnswerFindsDevice | src/Mono.Nat/PmpSearcher.cs:146-154 | an answer a probed gateway sends, whatever its result code, reports exactly one device with the address it carries and resets the back-off |
| PmpSearcher.StrangerIsIgnored | src/Mono.Nat/PmpSearcher.cs:140 | any datagram from an address that is not a probed gateway changes nothing |
| Numbers.WrapInt32 | src/Mono.Nat/PmpSearcher.cs:116 | Int32 arithmetic wraps modulo 2^32 and leaves values within range unchanged |
| Numbers.BigEndian16RoundTrip | src/Mono.Nat/Pmp/PmpNatDevice.cs:101 | a 16-bit big-endian field reads back as the value modulo 2^16 |
| Numbers.BigEndian32RoundTrip | src/Mono.Nat/Pmp/PmpNatDevice.cs:103 | a 32-bit big-endian field reads back as the value modulo 2^32 |
| Numbers.ReadInt16 | src/Mono.Nat/Pmp/PmpNatDevice.cs:158 | a signed 16-bit field lies within -32768..32767 and agrees with the unsigned reading modulo 2^16 |
| Numbers.IntToStringRoundTrip | Open.Nat/Upnp/Messages/Requests/CreatePortMappingMessage.cs:58 | the invariant-culture decimal text of an Int32 parses back to it |
| Numbers.IntToStringInjective | Open.Nat/Upnp/Messages/Requests/CreatePortMappingMessage.cs:58 | two Int32 values with the same decimal text are equal |
| Numbers.DigitsRoundTrip | Open.Nat/Upnp/Messages/Requests/CreatePortMappingMessage.cs:64 | the decimal digits of a natural number read back as that number |
| DiscoveryResponse.ParseLine | Open.Nat/Upnp/DiscoveryResponseMessage.cs:40-45 | a line with no ':' is a key with an empty value; otherwise the key is the text before the first ':' and the value is everything after it, other colons included, trimmed |
| DiscoveryResponse.ParseLineOf | Open.Nat/Upnp/DiscoveryResponseMessage.cs:40-45 | a colon-free key, ':' and any value parse back as that key and the trimmed value, so "http://h:p/x" survives intact |
| DiscoveryResponse.HeaderLines | Open.Nat/Upnp/DiscoveryResponseMessage.cs:38-39 | the header lines are the non-empty "\r\n"-separated lines after the first, in order |
| DiscoveryResponse.ParseLines | Open.Nat/Upnp/DiscoveryResponseMessage.cs:39-45 | each header line is parsed on its own, in order |
| DiscoveryResponse.ToDictionary | Open.Nat/Upnp/DiscoveryResponseMessage.cs:46 | fails with ArgumentException exactly when two keys coincide once upper-cased; otherwise maps each upper-cased key to its value and holds no other key |
| DiscoveryResponse.Parse | Open.Nat/Upnp/DiscoveryResponseMessage.cs:36-47 | construction succeeds exactly when the header keys are distinct ignoring case |
| DiscoveryResponse.Get | Open.Nat/Upnp/DiscoveryResponseMessage.cs:49-52 | a lookup succeeds exactly when the upper-cased query is a stored key, and otherwise fails with KeyNotFoundException |
| DiscoveryResponse.LookupIgnoresCase | Open.Nat/Upnp/DiscoveryResponseMessage.cs:46-51 | looking up any spelling of a header's key, ignoring case, gives that header's value |
| DiscoveryResponse.RepeatedKeyFails | Open.Nat/Upnp/DiscoveryResponseMessage.cs:46 | two header lines whose keys agree ignoring case make construction fail with ArgumentException |
| DiscoveryResponse.SplitTerminated | Open.Nat/Upnp/DiscoveryResponseMessage.cs:38 | splitting "\r\n"-terminated lines on "\r\n" gives the lines and one empty piece after them |
| DiscoveryResponse.RemoveEmptyKeepsNonEmpty | Open.Nat/Upnp/DiscoveryResponseMessage.cs:38 | RemoveEmptyEntries drops only the empty pieces |
| DiscoveryResponse.HeaderLinesOfReply | Open.Nat/Upnp/DiscoveryResponseMessage.cs:38-39 | the header lines of a reply written as a status line and header lines, each ending in "\r\n", are exactly the header lines |
| DiscoveryResponse.SampleShapedDistinct | Open.Nat/Upnp/DiscoveryResponseMessage.cs:59-67 | the keys of a reply shaped like the sample are distinct ignoring case |
| DiscoveryResponse.LocationOfSampleHeaders | Open.Nat/Upnp/DiscoveryResponseMessage.cs:69-70 | a reply whose header lines are shaped like the sample parses, and its "Location" is the trimmed LOCATION value |
| DiscoveryResponse.SampleReplyLocation | Open.Nat/Upnp/DiscoveryResponseMessage.cs:59-70 | for the sample's text with any header values, ["Location"] is the LOCATION value, for instance "http://192.168.0.1:1900/igd.xml" |
| Ssdp.ContainsIgnoreCase | src/Mono.Nat/UpnpSearcher.cs:171-177 | holds exactly when the pattern occurs in the text as an ordinal case-insensitive substring |
| Ssdp.FindService | Open.Nat/UpnpSearcher.cs:110-125 | no service exactly when no "urn:schemas-upnp-org:service:" URN of the list occurs ignoring case; otherwise the first URN of the list that occurs, in list order |
| Ssdp.ExtractLocation | Open.Nat/UpnpSearcher.cs:129-132 | the location never holds a line feed, and the only failure is Substring's ArgumentOutOfRangeException |
| Ssdp.LocationAfterKey | Open.Nat/UpnpSearcher.cs:129-132 | the location is the trimmed text after the first case-insensitive "Location:" up to the next "\n" |
| Ssdp.ExtractLocationAt | Open.Nat/UpnpSearcher.cs:130-132 | the location is the trimmed text between the end of the first "Location:" and the next line feed |
| Ssdp.MissingLocationReadsFromEight | Open.Nat/UpnpSearcher.cs:130 | a reply without "Location:" is read from position 8, as IndexOf's -1 plus the key's length gives |
| SsdpSearch.SearchSocket | Open.Nat/UpnpSearcher.cs:79-91 | a probe sets NextSearch to five minutes after now and sends the discovery message exactly three times to 255.255.255.255:1900 from that socket; when now plus five minutes is past the DateTime range, nothing is sent and the search throws |
| SsdpSearch.ThrottleAbsorbsRepeats | Open.Nat/UpnpSearcher.cs:146-152 | once a fetch from a source is recorded, another reply from that source is held back exactly when it arrives less than 20 seconds later |
| SsdpSearch.HandleEachTotal | Open.Nat/UpnpSearcher.cs:98-100 | a handler that catches every exception lets every waiting datagram be handled without the receive loop failing |
| OpenNatUpnpSearcher.Announced | Open.Nat/UpnpSearcher.cs:110-134 | a reply that contains none of the five service URNs gives no device; a reply that does announces the first URN it contains, bound to the local address, with no control URL yet |
| OpenNatUpnpSearcher.Fetch | Open.Nat/UpnpSearcher.cs:168-184 | when the device cannot be built (for example, its description fails), the state is unchanged and DeviceFound is not raised; otherwise the built device is added under a key not yet present and reported once, and the throttle table is left alone |
| OpenNatUpnpSearcher.Handle | Open.Nat/UpnpSearcher.cs:93-166 | a reply without a known URN changes nothing; a known description URI only refreshes that device's LastSeen; a throttled source changes nothing; otherwise the source's fetch time becomes now; at most one device is found, and a new one is added under a fresh key; NextSearch is never changed |
| OpenNatUpnpSearcher.FirstReplyRegisters | Open.Nat/UpnpSearcher.cs:136-156 | the first reply from an unthrottled source, for a device that builds, reports that device, registers it and records the fetch time |
| OpenNatUpnpSearcher.RepeatIsLost | Open.Nat/UpnpSearcher.cs:175-176 | as written: when the key read after the device is built is already registered, Dictionary.Add throws, the exception is swallowed, and the new device is neither reported nor stored |
| OpenNatUpnpSearcher.RetargetedDeviceIsNeverTouched | Open.Nat/UpnpSearcher.cs:136-176 | as written: when building the device changes its description URI, a later reply is looked up under the announced URI, misses it, and is lost again instead of refreshing the device |
| OpenNatUpnpSearcher.IntendedDeviceIsTouched | Open.Nat/UpnpSearcher.cs:136-143 | when the device is registered under the URI it is looked up by, a second reply for it refreshes its LastSeen and leaves its description alone |
| OpenNatUpnpSearcher.ReceiveNeverFails | Open.Nat/UpnpSearcher.cs:98-165 | the receive loop over every socket never fails, whatever the replies hold |
| MonoUpnpSearcher.IndexOf | src/Mono.Nat/UpnpSearcher.cs:122-126 | the position of the first known device equal to the new one, or -1 when none is equal; it fails only if comparing some known device throws |
| MonoUpnpSearcher.DeviceSetupComplete | src/Mono.Nat/UpnpSearcher.cs:156-168 | a device is appended and reported exactly when no equal one is known; otherwise the list is unchanged; the list never holds two equal devices |
| MonoUpnpSearcher.Admit | src/Mono.Nat/UpnpSearcher.cs:122-143 | a known device only has its LastSeen refreshed at its position; a throttled source changes nothing; otherwise the fetch time is recorded, and a found device is appended; the list stays free of duplicates |
| MonoUpnpSearcher.Handle | src/Mono.Nat/UpnpSearcher.cs:93-153 | a reply without one of the three ":1" URNs changes nothing; at most one device is found, and it is appended; the device list stays free of duplicates and NextSearch is never changed |
| MonoUpnpSearcher.TouchKeepsDistinct | src/Mono.Nat/UpnpSearcher.cs:126 | refreshing the LastSeen of one device keeps the list free of duplicates |
| MonoUpnpSearcher.ReceiveNeverFails | src/Mono.Nat/UpnpSearcher.cs:98-152 | the receive loop over every socket never fails, whatever the replies hold |
| Sockets.ProbeAll | src/Open.Nat/Searcher.cs:59-69 | every socket is probed once, in order, each probe starting from the state the previous one left, whether or not it threw; everything sent is what the probes sent, in order |
| Sockets.ArrivalsConcat | src/Open.Nat/Searcher.cs:45-47 | arrivals are read in socket order: the arrivals of two groups of sockets are the first group's, then the second's |
| Sockets.Arrivals | src/Open.Nat/Searcher.cs:45-47 | the sockets with a datagram waiting contribute exactly one arrival each, their first datagram with their local address, and no other arrival is read; nothing is read when no socket has data |
| Sockets.Consume | src/Open.Nat/Searcher.cs:48 | a socket with data loses exactly its first datagram; the others are unchanged |
| Sockets.Receive | src/Open.Nat/Searcher.cs:42-51 | the receive loop fails exactly when handling one of the arrivals fails; when it succeeds, the state is what handling every arrival in order gives, and each socket with data has consumed one datagram |
| Sockets.ReceiveIdle | src/Mono.Nat/Searcher.cs:14-23 | with no datagram waiting, receiving changes neither the state nor the sockets |
| Sockets.ReceiveReadsOnePerSocket | src/Mono.Nat/Searcher.cs:17-20 | one pass reads at most one datagram from each socket: a socket with data has one fewer waiting afterwards, and the others keep theirs |
| Sockets.OnDeviceFound | src/Open.Nat/Searcher.cs:72-77 | DeviceFound is raised once, from this searcher and with the device, when a handler is subscribed, and not at all otherwise |
| MonoSearcher.Search | src/Mono.Nat/Searcher.cs:25-40 | Mono.Nat's search is not gated: every socket is probed in order, each from the state the previous probe left |
| GatedSearcher.Search | src/Open.Nat/Searcher.cs:53-70 | no probe is sent before NextSearch has passed; once it has, every socket is probed in order |
| GatedSearcher.SecondSearchIsGated | src/Open.Nat/Searcher.cs:85-88 | when every probe moves NextSearch to now or later, a second search right after the first sends nothing and changes nothing |
| TaskSearcher.Discover | Open.Nat/Searcher.cs:81-97 | the sockets are probed in order until cancellation is seen: exactly the sockets before the cancellation point are probed, and all of them when it comes too late |
| TaskSearcher.Somes | Open.Nat/Searcher.cs:74-75 | the devices kept are exactly the non-null analysis results, and no more of them than there were results |
| TaskSearcher.AnalyseEach | Open.Nat/Searcher.cs:67-76 | every arrival is analysed, and each result is that arrival's analysis; the loop fails only when some analysis throws |
| TaskSearcher.Receive | Open.Nat/Searcher.cs:63-79 | the pass fails exactly when analysing some arrival throws; otherwise every non-null analysis result is returned, every device returned comes from analysing one arrival, and no more devices are returned than arrivals were read; with no data waiting, the result is empty |
| TaskSearcher.SomesConcat | Open.Nat/Searcher.cs:74-75 | the non-null results of joined result lists are those of each list, in order |
| TaskSearcher.AnalyseEachConcat | Open.Nat/Searcher.cs:67-76 | analysing joined arrivals fails with the first list's exception, then the second's, and otherwise joins the results in order |
| TaskSearcher.ReceiveConcat | Open.Nat/Searcher.cs:63-79 | the devices come in socket order: a pass over two groups of sockets returns the first group's devices, then the second's, and fails with the first exception in that order |
| TaskSearcher.ReceiveOne | Open.Nat/Searcher.cs:67-76 | one socket: nothing waiting gives no device; otherwise its first datagram is analysed, a non-null result is the one device, null gives none and an exception propagates |
| TaskSearcher.CloseAll | Open.Nat/Searcher.cs:103-109 | every socket is closed, and the sockets keep their local addresses |
| TaskSearcher.Search | Open.Nat/Searcher.cs:44-61 | the search sends what the cancellable probe loop sends and returns what the receive loop returns; every socket is closed afterwards, even when receiving fails |
| TaskSearcher.CancelledSearchSendsNothing | Open.Nat/Searcher.cs:85 | a search cancelled before it starts sends no probe |
| NatDiscoverer.Searchers | Open.Nat/NatDiscoverer.cs:66-78 | the UPnP searcher runs exactly when the Upnp flag is set and the PMP searcher exactly when the Pmp flag is set; neither runs twice, and UPnP comes first when both run |
| NatDiscoverer.Collected | Open.Nat/NatDiscoverer.cs:80-83 | the devices collected are exactly those found by the searchers that ran, and their number is the sum of what each found; with no flag set nothing is found |
| NatDiscoverer.FoundCancelsOnlyOne | Open.Nat/NatDiscoverer.cs:70 | a DeviceFound event cancels the search exactly when only one device is wanted; without an event, the cancellation state is unchanged |
| NatDiscoverer.RegisterOne | Open.Nat/NatDiscoverer.cs:86-95 | a device whose key is already registered refreshes the registered device instead; a new key is added with the device; no other entry changes; a ToString that throws fails the registration |
| NatDiscoverer.RegisterAll | Open.Nat/NatDiscoverer.cs:84-96 | registering the found devices succeeds exactly when every key can be computed; the registry then holds its old keys plus the keys of the found devices, and entries for other keys are unchanged |
| NatDiscoverer.FailureStops | Open.Nat/NatDiscoverer.cs:84-96 | once registering a device throws, the devices after it are not looked at |
| NatDiscoverer.Register | Open.Nat/NatDiscoverer.cs:84-96 | the loop form of the registration agrees with the recursive one; when it fails, the error is the key failure of one of the devices |
| NatDiscoverer.RegisterPrefix | Open.Nat/NatDiscoverer.cs:84-96 | registering one more device is registering the shorter prefix and then that device, and an earlier failure is kept |
| NatDiscoverer.LastPass | Open.Nat/NatDiscoverer.cs:84-96 | a registration that succeeds is the registration of all but the last device, followed by the last one |
| NatDiscoverer.TouchesKnown | Open.Nat/NatDiscoverer.cs:88-91 | with an idempotent Touch, a key that was registered before and is found again ends as the refreshed old device, and the newly found copy is not stored |
| NatDiscoverer.InsertsNew | Open.Nat/NatDiscoverer.cs:92-95 | a key that was not registered before ends holding one of the found devices with that key, possibly refreshed by a later duplicate |
| NatDiscoverer.Discover | Open.Nat/NatDiscoverer.cs:57-98 | discovery returns exactly the collected devices and registers them all; it fails only when some key cannot be computed |
| NatDiscoverer.DiscoverDevice | Open.Nat/NatDiscoverer.cs:46-55 | the first collected device is returned, a UPnP one when UPnP ran and found any; when nothing is found, NatDeviceNotFoundException is raised |
| NatDiscoverer.VisitAll | Open.Nat/NatDiscoverer.cs:124-138 | ReleaseAll and RenewMappings visit every registered device exactly once |
| NatDiscoverer.IdentityOf | Open.Nat/Upnp/UpnpNatDevice.cs:128-130 | the intended registry key of a UPnP device is its description URI and service type; it exists exactly when the device's description can be written |
| NatDiscoverer.IdentityIgnoresLastSeen | Open.Nat/Upnp/UpnpNatDevice.cs:128-130 | refreshing a device does not change its intended key |
| NatDiscoverer.RediscoveryDuplicates | Open.Nat/NatDiscoverer.cs:86-94 | as written: the key is ToString(), which shows LastSeen to the second, so a device found again in a later second gets a second registry entry and the registered one is never refreshed |
| NatDiscoverer.SameSecondRediscoveryTouches | Open.Nat/NatDiscoverer.cs:86-94 | as written, a device found again within the same second has the same key, so the registered entry is touched and nothing is added |
| NatDiscoverer.RediscoveryTouches | Open.Nat/NatDiscoverer.cs:86-91 | keyed by its identity, a device found again keeps a single entry, which is refreshed to the new LastSeen and keeps its description |
| UpnpDeviceInfo.New | Open.Nat/Upnp/UpnpNatDeviceInfo.cs:14-25 | the device info is built exactly when the location is an absolute URI, and then holds that URI's host, port and path, the local address and the service type, with no control URL; any other location raises UriFormatException |
| UpnpDeviceInfo.HostEndPoint | Open.Nat/Upnp/UpnpNatDeviceInfo.cs:38-41 | the host end point is the parsed host address with the device's port; a host that is not an IP address raises FormatException |
| UpnpDeviceInfo.ServiceControlUri | Open.Nat/Upnp/UpnpNatDeviceInfo.cs:43-50 | the control URI points at the device's host and port, and at "/" when no control URL is known |
| UpnpDeviceInfo.ServiceDescriptionUri | Open.Nat/Upnp/UpnpNatDeviceInfo.cs:52-59 | the description URI points at the device's host and port |
| UpnpDeviceInfo.ResolveService | Open.Nat/Upnp/UpnpNatDeviceInfo.cs:90-112 | a service of another type (compared ignoring case) changes nothing; a relative control URL is stored as it is; the local address, service type and description path never change |
| UpnpDeviceInfo.ResolveAll | Open.Nat/Upnp/UpnpNatDeviceInfo.cs:87-114 | going through the service list never changes the local address, service type or description path |
| UpnpDeviceInfo.UpdateInfo | Open.Nat/Upnp/UpnpNatDeviceInfo.cs:61-128 | Open.Nat's description fetch rethrows a failed fetch, except that a WebException on a host that is not an IP address becomes the FormatException its catch block's log line throws; it throws on a status other than OK; it succeeds only after an OK answer, and never changes the local address, service type or description path |
| UpnpDeviceInfo.GetServicesList | Open.Nat/Upnp/UpnpServiceProxy.cs:130-191 | UpnpServiceProxy's description fetch returns silently on a status other than OK and swallows a WebException when the host is an IP address, or throws FormatException from its log line when it is not; any other exception escapes; identity fields never change |
| UpnpDeviceInfo.NewOfLocation | Open.Nat/Upnp/UpnpNatDeviceInfo.cs:14-25 | a device built from the text of a canonical URI holds that URI's parts, and its description URI is that URI again |
| UpnpDeviceInfo.AbsoluteControlUrl | Open.Nat/Upnp/UpnpNatDeviceInfo.cs:101-111 | an absolute control URL moves the device to that URL's host and port and keeps only its path as the control part, so the control URI is the announced URL again |
| UpnpDeviceInfo.UnmatchedServicesChangeNothing | Open.Nat/Upnp/UpnpNatDeviceInfo.cs:96 | a service list without the device's service type leaves the device info unchanged |
| UpnpDeviceInfo.UnmatchedSuffix | Open.Nat/Upnp/UpnpNatDeviceInfo.cs:90-96 | services of other types after the last matching one change nothing |
| UpnpDeviceInfo.LastMatchWins | Open.Nat/Upnp/UpnpNatDeviceInfo.cs:90-112 | when several services match, the control URL of the last matching one is kept |
| UpnpDeviceInfo.RevisionsAgreeOnSuccess | Open.Nat/Upnp/UpnpServiceProxy.cs:146-179 | after an OK answer, Open.Nat's UpdateInfo and UpnpServiceProxy's GetServicesListAsync leave the same device info |
| UpnpExchange.Receive | Open.Nat/Upnp/SoapClient.cs:61-74 | an answer is read whether it came normally or attached to a WebException; a WebException without a response is rethrown with its status; whatever escapes is never a WebException carrying a response |
| UpnpExchange.ReadResponse | Open.Nat/Upnp/Messages/ResponseMessageBase.cs:40-75 | a response message is read only from an answer that arrived, and its node is an element of the service type's namespace named after the message; a failed exchange fails the same way |
| UpnpExchange.MonoRequest | src/Mono.Nat/Upnp/UpnpServiceProxy.cs:146-210 | Mono.Nat's request fails like the exchange when no answer arrives, with an XML error when the body does not parse, and otherwise gives the decoded answer cast to the expected message kind; a success always has that kind |
| UpnpExchange.MonoFaultAnswer | src/Mono.Nat/Upnp/UpnpServiceProxy.cs:168-176 | a fault answer fails a Mono.Nat request with its MappingException, whether it came as a normal answer or attached to a WebException |
| UpnpExchange.FaultBeforeNode | Open.Nat/Upnp/Messages/ResponseMessageBase.cs:40-52 | a fault answer fails an Open.Nat response message with its MappingException before any response element is looked for |
| MappingEnumeration.TerminatesTail | Open.Nat/Upnp/UpnpServiceProxy.cs:73-96 | the index loop that ends from some answer on still ends after one entry has been taken |
| MappingEnumeration.FirstStop | Open.Nat/Upnp/UpnpServiceProxy.cs:73-96 | the loop stops at the first answer that is not a valid entry, and every answer before it is one |
| MappingEnumeration.GetAll | Open.Nat/Upnp/UpnpServiceProxy.cs:68-98 | the loop has ended exactly when some answer stops it; it then succeeds exactly when the first stopping answer is error 713, with one mapping per earlier index in index order, and any other stopping error propagates unchanged |
| MappingEnumeration.EndlessEntriesNeverEnd | Open.Nat/Upnp/UpnpNatDevice.cs:77-99 | a router that answers every index with an accepted entry never ends the loop, however many answers arrive |
| MappingEnumeration.BoundedEnds | Open.Nat/Upnp/UpnpNatDevice.cs:77-99 | the enumeration bounded at `limit` entries has ended after `limit` answers whatever they are, with at most `limit` mappings |
| MappingEnumeration.BoundedAgrees | Open.Nat/Upnp/UpnpNatDevice.cs:77-99 | a router whose first stopping answer comes before the bound gets the same result from the bounded enumeration as from the loop as written |
| MappingEnumeration.EndlessEntriesAreCut | Open.Nat/Upnp/UpnpNatDevice.cs:77-99 | against a router that never stops the loop, the enumeration bounded at 65536 entries ends successfully while the loop as written does not |
| MappingEnumeration.Replies | Open.Nat.Tests/UpnpMockServer.cs:159-195 | a router holding a table answers one entry per index and one 713 fault after the last |
| MappingEnumeration.ListsTable | src/Mono.Nat/Upnp/UpnpServiceProxy.cs:69-100 | against a router that answers its table entries and then 713, the enumeration returns exactly the table's mappings in order, whatever would follow |
| OpenNatProxy.ToMapping | Open.Nat/Upnp/UpnpServiceProxy.cs:82-86 | an entry becomes a mapping only through the validating constructor; the mapping keeps the entry's protocol, ports, lease and description; an internal port outside 0..65535 is rejected as privatePort |
| OpenNatProxy.GetSpecificMapping | Open.Nat/Upnp/UpnpServiceProxy.cs:101-120 | an entry answer becomes a mapping; an error other than 714 propagates; 714 builds the (Tcp, -1, -1) mapping |
| OpenNatProxy.NotFoundFails | Open.Nat/Upnp/UpnpServiceProxy.cs:115-119 | as written: the (Tcp, -1, -1) sentinel for 714 fails the constructor's port check, so a missing entry raises ArgumentOutOfRangeException instead of answering "no mapping" |
| OpenNatProxy.GetSpecificMappingIntended | Open.Nat/Upnp/UpnpServiceProxy.cs:101-120 | a 714 answer means exactly "no such mapping"; every other answer gives the same mapping or the same error as the code as written |
| MonoProxy.ToMapping | src/Mono.Nat/Upnp/UpnpServiceProxy.cs:84-88 | an entry becomes a Mono.Nat mapping exactly when Mono.Nat's constructor accepts its lease, and the mapping keeps the entry's values; a rejected lease raises ArgumentOutOfRangeException |
| MonoProxy.AcceptsAnyPorts | src/Mono.Nat/Upnp/UpnpServiceProxy.cs:84-88 | Mono.Nat's constructor checks no port: an entry with a permanent or maximal lease is always accepted |
| MonoProxy.GetSpecificMapping | src/Mono.Nat/Upnp/UpnpServiceProxy.cs:103-121 | an entry answer becomes a mapping; an error other than 714 propagates; 714 gives a permanent TCP mapping with ports -1 and the default description |
| MonoProxy.ControlRequest | src/Mono.Nat/Upnp/UpnpServiceProxy.cs:123-151 | the control request is a POST without keep-alive to the device's control URI, carrying the envelope with its length as Content-Length |
| MonoProxy.ControlRequestsAgree | src/Mono.Nat/Upnp/UpnpServiceProxy.cs:131 | Mono.Nat's control request equals Open.Nat's SoapClient request, and its SOAPACTION header names the service type and the action |
| UpnpDevice.Touch | Open.Nat/Upnp/UpnpNatDevice.cs:46 | touching a device sets LastSeen to now and leaves its description alone |
| UpnpDevice.New | Open.Nat/Upnp/UpnpNatDevice.cs:44-50 | a device is built exactly when its description fetch succeeds; it is then seen now, holds the resolved info, and keeps its identity fields; otherwise the fetch's exception escapes |
| UpnpDevice.NewNeedsDescription | Open.Nat/Upnp/UpnpNatDevice.cs:48 | a description that cannot be fetched, or answers with a status other than OK, means no device |
| UpnpDevice.GetAllMappings | Open.Nat/Upnp/UpnpNatDevice.cs:72-102 | the device's loop is still asking exactly when no answer received so far stops it; when it returns a list, that list holds one mapping per entry before an answer 713, and it agrees with the shared enumeration |
| UpnpDevice.SameAsEnumeration | Open.Nat/Upnp/UpnpNatDevice.cs:72-102 | any result that lists the converted entries before the first stop and then ends as that stop dictates is the enumeration's result |
| UpnpDevice.Describe | Open.Nat/Upnp/UpnpNatDevice.cs:125-131 | ToString shows the end point, control and description URIs, service type and the second LastSeen falls in; a host that is not an address raises FormatException |
| UpnpDevice.DescriptionShowsLastSeen | Open.Nat/Upnp/UpnpNatDevice.cs:128-130 | the same device touched at two instants is shown as two different texts exactly when the instants fall in different seconds |
| ProxiedUpnpDevice.New | src/Open.Nat/Upnp/UpnpNatDevice.cs:43-55 | a device is built from an SSDP reply exactly when it has a Location line whose value is an absolute URI; it is then seen now, on the given local address and service type, with no control URL |
| ProxiedUpnpDevice.NewOfReply | src/Open.Nat/Upnp/UpnpNatDevice.cs:47-53 | a reply whose first Location key, in any case, is followed by a canonical URI and a newline gives a device at that URI |
| ProxiedUpnpDevice.TrimOfTrimmed | src/Open.Nat/Upnp/UpnpNatDevice.cs:51 | trimming text that has no white space at either end leaves it unchanged |
| ProxiedUpnpDevice.Equals | src/Open.Nat/Upnp/UpnpNatDevice.cs:101-106 | two devices are equal exactly when their host end points and description paths are equal; reading a host that is not an address raises FormatException |
| ProxiedUpnpDevice.EqualsIsEquivalence | src/Open.Nat/Upnp/UpnpNatDevice.cs:101-106 | over hosts that are addresses, Equals is reflexive, symmetric and transitive, and ignores LastSeen and the control URL |
| ProxiedUpnpDevice.GetAllMappings | src/Open.Nat/Upnp/UpnpNatDevice.cs:73-88 | the proxy's result passes through, except that a WebException with a response, or whose status is 713, becomes an empty list |
| ProxiedUpnpDevice.CatchIsTransparent | src/Open.Nat/Upnp/UpnpNatDevice.cs:79-84 | the proxy never lets a WebException with a response escape, and no real WebException status is 713, so the catch never changes the result |
| ProxiedUpnpDevice.GetServicesList | src/Open.Nat/Upnp/UpnpNatDevice.cs:116-120 | the device keeps its LastSeen and identity fields; a failure of the description fetch is wrapped in AggregateException by Task.Wait |
| UpnpRequest.Unwrap | src/Open.Nat/Upnp/Messages/UpnpMessage.cs:60-69 | what is found between the envelope's head and tail is exactly the text they enclose |
| UpnpRequest.UnwrapOf | src/Open.Nat/Upnp/Messages/UpnpMessage.cs:60-69 | text wrapped in a head and a tail unwraps to the wrapped text |
| UpnpRequest.ReadWrapped | src/Open.Nat/Upnp/Messages/UpnpMessage.cs:64-67 | an action element binding u to the service type reads back as its action, service type and content, when the action has no space and the service type no quote |
| UpnpRequest.ReadEnvelopeText | src/Open.Nat/Upnp/Messages/UpnpMessage.cs:58-69 | a router reading the envelope finds the action, the service type and the message's argument fragments that were put in it |
| UpnpRequest.EnvelopDecodes | src/Open.Nat/Upnp/Messages/UpnpMessage.cs:71 | the bytes sent are the UTF-8 encoding of the envelope text and decode to it |
| UpnpRequest.Lookup | src/Open.Nat/Upnp/Messages/UpnpMessage.cs:45-50 | a name found among read arguments has that value at some position, and a name is missing exactly when no argument carries it |
| UpnpRequest.LookupAt | src/Open.Nat/Upnp/Messages/UpnpMessage.cs:45-50 | the value read for a name is the one at its first occurrence |
| UpnpRequest.AddFieldsFront | Open.Nat/Upnp/Messages/Requests/CreatePortMappingMessage.cs:57-60 | AddPortMapping's arguments give an empty remote host, the public port, "TCP" or "UDP", and the private port |
| UpnpRequest.AddFieldsBack | Open.Nat/Upnp/Messages/Requests/CreatePortMappingMessage.cs:61-64 | AddPortMapping's arguments give the local address as client, "1" for enabled, the description and the lifetime |
| UpnpRequest.NumberText | Open.Nat/Upnp/Messages/Requests/CreatePortMappingMessage.cs:58-65 | the text of a number holds only characters XML allows and reads back unchanged |
| UpnpRequest.AddFieldsWritable | Open.Nat/Upnp/Messages/Requests/CreatePortMappingMessage.cs:52-69 | every argument value is one XML allows exactly when the client and the description are |
| UpnpRequest.AddFieldsRead | Open.Nat/Upnp/Messages/Requests/CreatePortMappingMessage.cs:52-69 | ToXml succeeds exactly when the client and the description hold only characters XML allows, and its fragments then read back as the eight arguments in order, with the line ends of those two texts normalised |
| UpnpRequest.ReadBackAddFields | Open.Nat/Upnp/Messages/Requests/CreatePortMappingMessage.cs:57-64 | what a reader gets for the eight arguments is the arguments of the same mapping with the client and the description line-normalised |
| UpnpRequest.AddRequestOfFields | Open.Nat/Upnp/Messages/Requests/CreatePortMappingMessage.cs:57-64 | the eight arguments name the mapping's ports, protocol, client, description and lifetime, enabled and for any remote host |
| UpnpRequest.AddPortMappingReadsBack | Open.Nat/Upnp/Messages/Requests/CreatePortMappingMessage.cs:47-69 | the request is written exactly when the client and the description hold only characters XML allows; a router reading it is then asked for the mapping's public and private ports, its protocol, description and lifetime, for the local address, enabled and for any remote host, the two texts with their line ends normalised |
| UpnpRequest.GetSpecificRead | src/Mono.Nat/Upnp/Messages/Requests/GetSpecificPortMappingEntryMessage.cs:51-63 | the argument fragments of GetSpecificPortMappingEntry, the empty remote host in the short form included, are always written and read back as its three arguments in order |
| UpnpRequest.GetSpecificReadsBack | src/Mono.Nat/Upnp/Messages/Requests/GetSpecificPortMappingEntryMessage.cs:46-63 | the request is always written, and a router reading its arguments is asked about exactly the given external port and protocol |
| SoapClient.SoapActionRoundTrip | Open.Nat/Upnp/SoapClient.cs:100 | the SOAPACTION header reads back as the service type and the operation, when the service type holds no '#' |
| SoapClient.BuildHttpWebRequest | Open.Nat/Upnp/SoapClient.cs:94-103 | a SOAP call is a POST without keep-alive that carries the message body and announces its exact length |
| SoapClient.ArgumentsOutsideEnvelope | Open.Nat/Upnp/SoapClient.cs:105-124 | as written: the action element inside the envelope is empty, and the arguments are appended after the closing envelope |
| SoapClient.ArgumentTextIsMalformed | Open.Nat/Upnp/SoapClient.cs:117-120 | as written: an argument is written as the key's start tag, the collection's type name and an end tag named after the value, which does not read as an element |
| SoapClient.BuildMessageBody | Open.Nat/Upnp/SoapClient.cs:105-124 | as written: the bytes decode to the message text and begin with the encoding of the whole envelope with its empty action element |
| SoapClient.IntendedMessageBody | Open.Nat/Upnp/SoapClient.cs:105-124 | the corrected body is written exactly when every argument value is text XML allows, and then decodes to the intended text; otherwise ArgumentException |
| SoapClient.IntendedArgumentsInsideEnvelope | Open.Nat/Upnp/SoapClient.cs:105-124 | with each argument written as an element inside the action element, the body is written exactly when every value holds only characters XML allows, and a router then reads the action, the service type, and exactly the arguments in order with their line ends normalised |
| SoapClient.ReadPlanAsWritten | Open.Nat/Upnp/SoapClient.cs:77-84 | as written: the whole stream is read only when ContentLength is 1; any other length, -1 included, is read as the long length cast to int, its low 32 bits, and as that many characters when it fits in an Int32 |
| SoapClient.LongLengthWraps | Open.Nat/Upnp/SoapClient.cs:83 | the cast of a length past Int32 keeps its low bits: 2^32 + 1 is read as one character and 2^31 as a negative count |
| SoapClient.ReadPlanIntended | Open.Nat/Upnp/SoapClient.cs:80-84 | the whole stream is read exactly when the length is unknown (-1); otherwise exactly that many characters, never a negative count |
| SoapClient.ReadPlanAsWrittenMisreads | Open.Nat/Upnp/SoapClient.cs:82 | as written, an unknown length (-1) asks to read -1 characters and a one-character body is read to the end; the intended plan does the opposite |
| Uris.ToText | Open.Nat/Upnp/UpnpNatDeviceInfo.cs:52-58 | the text of a URI is its scheme and authority followed by its path |
| Uris.SplitHostPort | Open.Nat/Upnp/UpnpNatDeviceInfo.cs:16-22 | an authority that parses gives a valid host and a port within 0..65535; any other raises UriFormatException |
| Uris.Parse | Open.Nat/Upnp/UpnpNatDeviceInfo.cs:16 | new Uri either raises UriFormatException or gives a URI in canonical form |
| Uris.Build | Open.Nat/Upnp/UpnpNatDeviceInfo.cs:47 | UriBuilder keeps the host and port and gives a path that starts with '/', adding one when the given path lacks it |
| Uris.SplitAuthorityOf | Open.Nat/Upnp/UpnpNatDeviceInfo.cs:21-23 | the authority ends at the first '/', which starts the path |
| Uris.SplitHostPortOf | Open.Nat/Upnp/UpnpNatDeviceInfo.cs:21-22 | the authority of a canonical URI reads back as its host and port |
| Uris.ParseToText | Open.Nat/Upnp/UpnpNatDeviceInfo.cs:16-23 | parsing the text of a canonical URI gives the same URI back |
| Uris.ToTextInjective | Open.Nat/Upnp/UpnpNatDeviceInfo.cs:52-58 | two canonical URIs with the same text are the same URI, so a description URI used as a key identifies the device |
| Utf8.EncodeChar | src/Open.Nat/Upnp/Messages/UpnpMessage.cs:71 | a character takes one to four bytes, and exactly one when it is ASCII |
| Utf8.Encode | Open.Nat/Upnp/SoapClient.cs:122 | the encoding of a text takes between one and four bytes per character |
| Utf8.Decode | Open.Nat/UpnpSearcher.cs:102 | whatever is read from bytes encodes back to exactly those bytes: only well-formed UTF-8, in the shortest form, is read |
| Utf8.EncodeCodePoint | Open.Nat/UpnpSearcher.cs:102 | a well-formed sequence of one to four bytes is the encoding of the character it carries |
| Utf8.DecodeEncode | Open.Nat/UpnpSearcher.cs:102 | decoding the UTF-8 encoding of a text gives the text back |
| Utf8.DecodeIsInverse | Open.Nat/UpnpSearcher.cs:102 | bytes decode to a text exactly when they are that text's encoding |
| Utf8.IllFormedIsRejected | Open.Nat/UpnpSearcher.cs:102 | a lead byte followed by a non-continuation byte, and the overlong form of U+0000, are not read |
| Utf8.EncodeAscii | Open.Nat/Upnp/SoapClient.cs:101 | an ASCII text encodes to one byte per character, each its code, so the content length is the text's length |
| Utf8.EncodeConcat | Open.Nat/Upnp/SoapClient.cs:122 | encoding is done piece by piece: the encoding of two joined texts is the two encodings joined |
| Text.Trim | Open.Nat/UpnpSearcher.cs:132 | Trim removes white space from both ends and nothing else: the result is a slice of the text with only white space cut before and after it, and it has none left at either end |
| Text.TrimPadded | src/Open.Nat/Upnp/UpnpNatDevice.cs:51 | a non-empty text without white space at its ends, padded with white space, trims back to itself |
| Text.IndexOf | Open.Nat/UpnpSearcher.cs:131 | the position of the first occurrence at or after the start, or -1 exactly when there is none |
| Text.IndexOfIgnoreCase | Open.Nat/UpnpSearcher.cs:130 | the position of the first occurrence ignoring case at or after the start, or -1 exactly when there is none |
| Text.MatchAtUpper | Open.Nat/Upnp/DiscoveryResponseMessage.cs:46-51 | comparing upper-cased texts is comparing them ignoring case |
| Text.Upper | Open.Nat/Upnp/DiscoveryResponseMessage.cs:46 | ToUpperInvariant maps each character on its own and keeps the length |
| Text.RemoveEmpty | Open.Nat/Upnp/DiscoveryResponseMessage.cs:38 | RemoveEmptyEntries keeps every non-empty piece and only pieces that were there |
| Text.JoinSplit | Open.Nat/Upnp/DiscoveryResponseMessage.cs:38 | splitting on a separator loses nothing: joining the pieces with it gives the text back |
| Text.SplitFirst | Open.Nat/Upnp/DiscoveryResponseMessage.cs:38 | the first piece is the text before the first separator, and the rest are the pieces of what follows it; a text without the separator is one piece |
| Xml.Preorder | Open.Nat/Upnp/Messages/ResponseMessageBase.cs:51 | "//" searches the document in document order, starting with the document element |
| Xml.FirstNamed | Open.Nat/Upnp/Messages/ResponseMessageBase.cs:51 | the position of the first element with the namespace and name, or the end when there is none |
| Xml.SelectSingleNode | Open.Nat/Upnp/Messages/ResponseMessageBase.cs:70 | the node found is the first element, in document order, with that namespace and local name; none is found exactly when no element has them |
| Xml.ChildText | Open.Nat/Upnp/Messages/ResponseMessageBase.cs:72-73 | an element's child text is missing exactly when no child has that name, and otherwise is the text of a child with that name |
| Xml.EscapeMarkup | src/Open.Nat/Upnp/Messages/UpnpMessage.cs:48 | the entity references leave no '<' or '>' in the written text, and leave text without '&', '<' or '>' alone |
| Xml.NewLines | src/Open.Nat/Upnp/Messages/UpnpMessage.cs:52-56 | the default NewLineHandling.Replace leaves text without line breaks alone |
| Xml.Escape | src/Open.Nat/Upnp/Messages/UpnpMessage.cs:48 | WriteString leaves no '<' or '>' in the written text, and leaves text without markup characters or line breaks alone |
| Xml.LineEnds | src/Open.Nat/Upnp/Messages/UpnpMessage.cs:52-56 | a reader's line-end normalisation leaves text without '\r' alone |
| Xml.UnescapeMarkup | src/Open.Nat/Upnp/Messages/UpnpMessage.cs:48 | a reader unescaping entity references gets the original text back |
| Xml.LineEndsNewLines | src/Open.Nat/Upnp/Messages/UpnpMessage.cs:52-56 | a reader sees the same line ends whichever newline characters the writer replaced line breaks with |
| Xml.ReadEscaped | src/Open.Nat/Upnp/Messages/UpnpMessage.cs:48 | text written by WriteString reads back as the original value with its line ends normalised |
| Xml.FullElement | src/Open.Nat/Upnp/Messages/UpnpMessage.cs:45-50 | WriteFullElement succeeds exactly when the value holds only characters XML allows, and otherwise raises ArgumentException |
| Xml.ScanEmptyElement | src/Open.Nat/Upnp/Messages/UpnpMessage.cs:45-50 | an element closed in the short form `<name />` reads as that name with empty text |
| Xml.ReadFullElement | src/Open.Nat/Upnp/Messages/UpnpMessage.cs:45-50 | an element WriteFullElement writes for a plain name, in the short form when the value is empty, reads back as that name and the value with its line ends normalised, followed by the rest of the text |
| Xml.ReadMismatchedElement | Open.Nat/Upnp/SoapClient.cs:119 | a start tag closed by an end tag with another name is not read as an element |
| Xml.Fragments | src/Open.Nat/Upnp/Messages/UpnpMessage.cs:52-56 | the fragment is written exactly when every value holds only characters XML allows |
| Xml.ReadFragments | src/Open.Nat/Upnp/Messages/UpnpMessage.cs:52-56 | a fragment of full elements written one after another reads back as exactly those names and values, in order, with the values' line ends normalised |
| MockRouter.ReadRow | Open.Nat.Tests/UpnpMockServer.cs:206-216 | a table row is read exactly when all eight arguments are present, and holds their values; a missing one raises KeyNotFoundException |
| MockRouter.AddPortMapping | Open.Nat.Tests/UpnpMockServer.cs:197-231 | a lease other than "0" is refused with fault 725 and the table unchanged; a permanent lease appends exactly the request's row and answers AddPortMappingResponse; a missing lease or argument raises KeyNotFoundException |
| MockRouter.GetGenericEntry | Open.Nat.Tests/UpnpMockServer.cs:159-195 | an index that parses and lies inside the table is answered with that row's eight values; any other index, or none, is answered with fault 713 |
| MockRouter.RowMatches | Open.Nat.Tests/UpnpMockServer.cs:238-240 | a row matches a delete request exactly when its protocol, remote host and external port equal the request's; the test throws only when one of those arguments is missing |
| MockRouter.RemoveAll | Open.Nat.Tests/UpnpMockServer.cs:238-240 | RemoveAll never adds rows, and fails only with KeyNotFoundException |
| MockRouter.RemoveAllTotal | Open.Nat.Tests/UpnpMockServer.cs:238-240 | RemoveAll succeeds exactly when the match test succeeds on every row |
| MockRouter.RemoveAllNoMatch | Open.Nat.Tests/UpnpMockServer.cs:238-240 | when no row matches, the table is unchanged |
| MockRouter.RemoveAllKeeps | Open.Nat.Tests/UpnpMockServer.cs:238-240 | the rows kept are exactly the rows that do not match |
| MockRouter.ThrowRemovesNothing | Open.Nat.Tests/UpnpMockServer.cs:238-240 | when the match test throws, some row made it throw and no row of the table matches, so nothing can have been removed |
| MockRouter.RemoveAllConcat | Open.Nat.Tests/UpnpMockServer.cs:238-240 | RemoveAll works row by row: removing from two joined tables is removing from each and joining the results |
| MockRouter.DeletePortMapping | Open.Nat.Tests/UpnpMockServer.cs:233-261 | the matching rows are removed; when none was removed the table is unchanged and fault 714 is answered, otherwise DeletePortMappingResponse |
| MockRouter.KeptAllMeansNoneMatched | Open.Nat.Tests/UpnpMockServer.cs:242-245 | removing no row leaves exactly the same table |
| MockRouter.ReadSoapAction | Open.Nat.Tests/UpnpMockServer.cs:117-122 | the service type and action are the first two '#'-separated pieces between the header's quotes; an empty header raises ArgumentOutOfRangeException for startIndex, a one-character header raises it for length, and a header with no '#' inside raises IndexOutOfRangeException |
| MockRouter.ReadsClientSoapAction | Open.Nat.Tests/UpnpMockServer.cs:117-122 | the router reads back the service type and action of the client's SOAPACTION header when neither holds '#' |
| MockRouter.Process | Open.Nat.Tests/UpnpMockServer.cs:114-151 | a request is dispatched on its action to the add, delete, entry or external-address handler; any other action is answered with the service description |
| MockRouter.FaultIsRead | Open.Nat.Tests/UpnpMockServer.cs:264-288 | the router's fault document carries its code and description in a UPnPError element, and the client's fault check raises the MappingException with exactly that code and description |
| MockRouter.ClientAnswer | Open.Nat.Tests/UpnpMockServer.cs:264-288 | a fault answer reaches the client as the MappingException with the fault's code and description |
| MockRouter.EntryAt | Open.Nat.Tests/UpnpMockServer.cs:166 | index i is answered with row i inside the table and with fault 713 past it |
| MockRouter.ListsMockTable | Open.Nat.Tests/UpnpMockServer.cs:159-195 | the client's enumeration of the mock's table returns exactly the table's entries in order |
| MockRouter.CreateListDeleteList | Open.Nat.Tests/UpnpMockServer.cs:197-261 | adding a permanent mapping appends it as the last entry, deleting it by protocol, remote host and port removes it again, and the index past the table is invalid again |
| MockRouter.AnnouncementShape | Open.Nat.Tests/UpnpMockServer.cs:63-70 | the mock's SSDP answer has a Location line holding the service URL, ended by "\r\n" |
| MockRouter.AnnouncedLocation | Open.Nat.Tests/UpnpMockServer.cs:63-70 | a searcher reading the mock's SSDP answer finds exactly the service URL as its location |
| UpnpResponse.ToInt32 | Open.Nat/Upnp/Messages/ResponseMessageBase.cs:72 | Convert.ToInt32 gives 0 for a missing text and the value of a numeral that fits an Int32; it raises OverflowException for a numeral that does not fit and FormatException for any other text |
| UpnpResponse.CheckFault | Open.Nat/Upnp/Messages/ResponseMessageBase.cs:57-78 | the document passes unchanged exactly when it holds no UPnPError element of the control namespace; otherwise the first such element raises a MappingException with its code and description, or the code's conversion error |
| UpnpResponse.Load | Open.Nat/Upnp/Messages/ResponseMessageBase.cs:40-45 | a response message is built only from text that parses as XML and carries no fault |
| UpnpResponse.MessageName | Open.Nat/Upnp/Messages/ResponseMessageBase.cs:49-50 | the message name is the type name without its seven-character "Message" suffix; a shorter name raises ArgumentOutOfRangeException |
| UpnpResponse.MessageNameOf | Open.Nat/Upnp/Messages/ResponseMessageBase.cs:49-50 | a type named after its response element plus "Message" looks up that element |
| UpnpResponse.GetNode | Open.Nat/Upnp/Messages/ResponseMessageBase.cs:47-55 | the node is an element of the service type's namespace named after the message; InvalidOperationException naming the message is raised exactly when the document has no such element |
| UpnpResponse.Decode | src/Mono.Nat/Upnp/UpnpServiceProxy.cs:212-250 | a fault wins over every response element; add and delete answers give NoResponseMessage; otherwise the external address, generic entry or specific entry answer is read, in that order; ArgumentException is raised exactly when the answer holds none of them |
| UpnpResponse.Cast | src/Mono.Nat/Upnp/UpnpServiceProxy.cs:209 | the cast lets an error through, keeps an answer of the expected kind, and raises InvalidCastException exactly for an answer of another kind |
| UpnpResponse.SpecificAnswerIsAnEntry | src/Mono.Nat/Upnp/UpnpServiceProxy.cs:244-245 | a specific-entry answer is read as an entry message built for a non-generic answer, and the entry cast accepts it |
| UpnpResponse.FaultWinsOverResponse | src/Mono.Nat/Upnp/UpnpServiceProxy.cs:225-230 | a fault answer fails every request with its code and description, whatever else it holds, and the cast does not hide it |

## Left out

- Threads, timers and the background discovery loops of both NatUtility files are not modelled, because they are concurrency plumbing. A search is one probe pass and one receive pass. The RenewTimer, the CancellationTokenSource timeout and `Thread.Sleep` are absent. Cancellation is the index of the first socket that sees it.
- Socket creation and binding, `UdpClient.Send/Receive`, HTTP requests and response streams are not modelled, because they are I/O. `DecodeMessageFromResponse`, the byte reading of `SoapClient.InvokeAsync` and the `ReadToEnd` stream helper are left out too. Datagrams, HTTP statuses, description fetches and decoded documents are inputs.
- The enumeration of operating-system network interfaces and addresses (`IPAddressesProvider`) is not modelled. Interfaces and addresses are inputs.
- `UpnpSearcher.CreateSockets`, which binds one UDP client per unicast address, is not modelled, because it only creates sockets. The searchers take the socket list as given.
- The NAT-PMP send-while-listening orchestration is not modelled. This is `Task.Factory.StartNew` with `Thread.Sleep` in `PmpNatDevice.CreatePortMapAsync`. Only the request encoder, the per-datagram answer handler and the retry schedule's arithmetic are modelled.
- XML parsing and XPath are abstracted: a document is an element tree, and `//ns:name` is the first match in document order. Only the XML text written by `WriteFullElement` is modelled as text: escaping of `&`, `<` and `>`, the short form of an empty element, NewLineHandling.Replace and the check for characters XML forbids. `Environment.NewLine` is a parameter. A reader of that text is modelled only as far as the leaf elements it writes, with the entity references and the line-end handling of section 2.11 of XML 1.0. `GetXmlElementText` is not part of this model and is read as the text of the first child with that name.
- `Uris.Parse` covers only the `http://host[:port]/path` form these libraries use. Query strings, user info, IPv6 literals and schemes other than http are not modelled.
- Case-insensitive comparison (`OrdinalIgnoreCase`, `ToUpperInvariant`) folds ASCII letters only, because Unicode case tables are out of reach.
- `DiscoveryResponse.ToDictionary` models a repeated key, after upper-casing, as the ArgumentException it raises. The order in which .NET would report the duplicate is not modelled.
- `Convert.ToInt32` and `int.Parse` accept an optional '-' and ASCII digits. Leading and trailing white space and a leading '+' are not modelled.
- OpenNatMapping.SetExpiration: requires the remaining seconds to fit in an Int32. The source's `(int)` cast of an out-of-range double has no defined result.
- Logging, tracing and `ToString` are not modelled, except `UpnpNatDevice.ToString`, which serves as the registry key. `UpnpDevice.Describe` keeps the fields it shows rather than their formatted text.
- `PmpNatDevice.GetHashCode` and `UpnpNatDevice.GetHashCode` are not modelled, because nothing in the core keys on them. The Mono.Nat mapping's hash code is modelled.
- The mock router's HttpListener, UDP announcer, file-served service description and request body reading are not modelled. Its table, fault answers, SOAPACTION parsing and SSDP answer text are modelled.
- MockRouter.RemoveAll: when the match test throws, the model reports KeyNotFoundException without the list `List.RemoveAll` leaves behind. `List.RemoveAll` compacts the list while it tests, but each lookup the test makes depends only on the request, so a throw means no row matches (ThrowRemovesNothing) and nothing has been removed.
- Clock.TruncatedSeconds: `TimeSpan.TotalSeconds` is a double; the model computes the seconds exactly from the ticks, so rounding of very long spans in floating point is not modelled.
- NatDiscoverer.Discover: the searchers' results are given as plain sequences of devices. A searcher task that faults, which makes `Task.WhenAll` rethrow, is not represented.
- UpnpDevice.Describe: LastSeen is kept as the whole second the text shows. The culture-dependent date and time pattern itself is not modelled.
- Utf8.Decode: ill-formed UTF-8 is not read. `Encoding.UTF8.GetString` would read it with U+FFFD in place of each bad sequence; that replacement is not modelled.
- The demo programs and the socket-driven searcher fixtures are not modelled, because they are examples and tests over real sockets.

## Findings

| source | as written | input that shows it | evidently intended | confidence | as-written member | corrected member |
|---|---|---|---|---|---|---|
| Open.Nat/Mapping.cs:211-214 | `ShoundRenew` is `(now - Expiration).TotalSeconds < 5`, true for every mapping whose expiration is still ahead | a one-hour mapping created at t: it is due at t and no longer due at t + 3660 s | due when the expiration is less than 5 s ahead: `(Expiration - now).TotalSeconds < 5` | not executed; high | OpenNatMapping.ShoundRenewSignIsInverted | OpenNatMapping.ShouldRenewNearExpiry |
| src/Mono.Nat/Pmp/PmpNatDevice.cs:102-103 | a delete request zeroes the public port but sends the mapping's own lifetime | deleting a mapping whose lifetime is 7200 sends lifetime 7200, which asks the gateway to renew it | section 3.4 of RFC 6886: a mapping is deleted by a request with lifetime 0 | not executed; high | Pmp.DeleteRequestKeepsLifetime | Pmp.DeleteRequestRequestsZeroLifetime |
| Open.Nat/Upnp/SoapClient.cs:105-120 | the action element is closed before the arguments, which are appended after `</s:Envelope>` as `<key>` + the collection's type name + `</value>` | any call with an argument, such as AddPortMapping with NewRemoteHost: the router sees an empty action and malformed text after the envelope | each argument written as the element `<key>value</key>` inside the action element, as the request messages write their arguments | not executed; high | SoapClient.ArgumentsOutsideEnvelope | SoapClient.IntendedArgumentsInsideEnvelope |
| Open.Nat/Upnp/UpnpServiceProxy.cs:115-119 | error 714 returns `new Mapping(Protocol.Tcp, -1, -1)`, which the constructor's port guard rejects | a GetSpecificPortMappingEntry answered with fault 714 raises ArgumentOutOfRangeException for privatePort | 714 answers "no such mapping" without an exception | not executed; high | OpenNatProxy.NotFoundFails | OpenNatProxy.GetSpecificMappingIntended |
| Open.Nat/UpnpSearcher.cs:136-176 | the device is looked up under the announced description URI but stored under the URI read after construction, which an absolute control URL has moved to another host or port | location http://192.168.0.1:1900/igd.xml and controlURL http://192.168.0.1:5431/ctl: a reply more than 20 s later misses the entry, builds the device again and stops at the exception Dictionary.Add raises, so the stored device is never touched | store the device under the URI it is looked up by, so later replies refresh it | not executed; medium | OpenNatUpnpSearcher.RetargetedDeviceIsNeverTouched | OpenNatUpnpSearcher.IntendedDeviceIsTouched |
| Open.Nat/NatDiscoverer.cs:86-95 | the registry key is `device.ToString()`, which includes LastSeen | the same router found by two discoveries in different seconds gets two registry entries, and the first is never touched | key the registry by the device's identity (description URI and service type) | not executed; high | NatDiscoverer.RediscoveryDuplicates | NatDiscoverer.RediscoveryTouches |
| Open.Nat/Upnp/SoapClient.cs:82-84 | the whole body is read only when `contentLength != 1` is false, that is when the length is 1 | an answer without Content-Length (-1) is read as `ReadAsMany(-1)`; a 1-byte answer is read to the end | compare with -1: read to the end exactly when the length is unknown | not executed; high | SoapClient.ReadPlanAsWrittenMisreads | SoapClient.ReadPlanIntended |
| Open.Nat/Upnp/UpnpNatDevice.cs:77-99 | `while (true)` asks for index after index and ends only at an exception; nothing bounds the index | a router that answers every GetGenericPortMappingEntry with the same accepted entry: the loop never ends and the list grows without limit | stop at the most entries a gateway can hold, 65536, since NewPortMappingIndex and PortMappingNumberOfEntries are 16-bit (ui2) in the WANIPConnection service template | not executed; medium | MappingEnumeration.EndlessEntriesNeverEnd | MappingEnumeration.EndlessEntriesAreCut |
