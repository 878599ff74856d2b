/**
 * NAT-PMP (RFC 6886) as Mono.Nat speaks it: the protocol constants, the
 * mapping request and its answer (sections 3.3 and 3.4 of RFC 6886), the
 * retransmission schedule of the sender, and the PmpNatDevice operations
 * (src/Mono.Nat/Pmp/PmpNatDevice.cs).
 */
module Pmp {
  import opened Wrappers
  import opened Exceptions
  import opened Numbers
  import opened Clock
  import opened Net
  import MonoNatMapping

  /** The PmpConstants class, which is not part of this model: its values are
      parameters here, with RFC6886 below giving the ones the RFC fixes. */
  datatype PmpConstants = PmpConstants(
    version: byte,
    operationCodeUdp: byte,
    operationCodeTcp: byte,
    operationExternalAddressRequest: byte,
    serverNoop: byte,
    resultCodeSuccess: int,
    retryDelay: int,
    retryAttempts: int,
    serverPort: int)

  /** What the code relies on: distinct request opcodes below 128 (a response
      opcode is 128 plus the request opcode), and a retry delay that stays an
      Int32 while it doubles. */
  predicate WellFormed(k: PmpConstants)
  {
    && k.operationCodeUdp != k.operationCodeTcp
    && k.operationCodeUdp < 128 && k.operationCodeTcp < 128
    && k.operationExternalAddressRequest < 128
    && k.serverNoop == 128
    && k.retryAttempts >= 0
    && 0 < k.retryDelay && k.retryDelay * Pow2(k.retryAttempts) <= MaxInt32
  }

  /** Version 0, opcodes 1 (UDP) and 2 (TCP), 0 for the external address,
      result 0 for success, server port 5351 (RFC 6886 sections 3.2-3.5);
      a 250 ms first delay and nine attempts. */
  const RFC6886: PmpConstants := PmpConstants(0, 1, 2, 0, 128, 0, 250, 9, 5351)

  lemma RFC6886IsWellFormed()
    ensures WellFormed(RFC6886)
  {
    assert Pow2(9) == 512 by {
      assert Pow2(2) == 4;
      assert Pow2(4) == 16;
      assert Pow2(8) == 256;
    }
  }

  // ------------------------------------------------------------ the request

  /** The request opcode: the TCP opcode iff the protocol is Tcp. */
  function RequestOpcode(k: PmpConstants, p: Protocol): byte
  {
    if p == Tcp then k.operationCodeTcp else k.operationCodeUdp
  }

  /** CreatePortMapAsync(mapping, create): the request datagram. The public
      port is 0 in a delete; the lifetime is the mapping's in both. */
  function EncodeRequest(k: PmpConstants, m: MonoNatMapping.Mapping, create: bool): (r: seq<byte>)
    ensures |r| == 12
  {
    [k.version, RequestOpcode(k, m.protocol), 0, 0]
      + BigEndian16(m.privatePort)
      + (if create then BigEndian16(m.publicPort) else BigEndian16(0))
      + BigEndian32(m.lifetime)
  }

  /** What a NAT-PMP server reads from a 12-byte mapping request (RFC 6886
      section 3.3). */
  datatype MappingRequest = MappingRequest(
    version: byte, opcode: byte, privatePort: int, publicPort: int, lifetime: int)

  function DecodeRequest(data: seq<byte>): (r: MappingRequest)
    requires |data| == 12
    ensures 0 <= r.privatePort <= MaxUInt16 && 0 <= r.publicPort <= MaxUInt16
    ensures 0 <= r.lifetime < 0x1_0000_0000
  {
    MappingRequest(data[0], data[1], ReadUInt16(data[4], data[5]), ReadUInt16(data[6], data[7]),
                   ReadUInt32(data[8], data[9], data[10], data[11]))
  }

  /** The server reads back the version, the protocol's opcode, the low 16
      bits of both ports (the public one 0 in a delete) and the low 32 bits of
      the lifetime; the two reserved bytes are zero. */
  lemma RequestRoundTrip(k: PmpConstants, m: MonoNatMapping.Mapping, create: bool)
    ensures var r := EncodeRequest(k, m, create);
      && r[2] == 0 && r[3] == 0
      && DecodeRequest(r) == MappingRequest(
           k.version, RequestOpcode(k, m.protocol),
           m.privatePort % 0x1_0000,
           if create then m.publicPort % 0x1_0000 else 0,
           m.lifetime % 0x1_0000_0000)
  {
    var r := EncodeRequest(k, m, create);
    var pub := if create then BigEndian16(m.publicPort) else BigEndian16(0);
    RequestFields([k.version, RequestOpcode(k, m.protocol), 0, 0], BigEndian16(m.privatePort), pub, BigEndian32(m.lifetime));
    BigEndian16RoundTrip(m.privatePort);
    BigEndian16RoundTrip(if create then m.publicPort else 0);
    BigEndian32RoundTrip(m.lifetime);
  }

  lemma RequestFields(head: seq<byte>, privatePort: seq<byte>, publicPort: seq<byte>, lifetime: seq<byte>)
    requires |head| == 4 && |privatePort| == 2 && |publicPort| == 2 && |lifetime| == 4
    ensures var r := head + privatePort + publicPort + lifetime;
            r[..4] == head && r[4..6] == privatePort && r[6..8] == publicPort && r[8..12] == lifetime
  {
  }

  /** The request opcode is the TCP opcode iff the protocol is Tcp (for
      distinct opcodes). */
  lemma RequestOpcodeIsTcpIffTcp(k: PmpConstants, m: MonoNatMapping.Mapping, create: bool)
    requires WellFormed(k)
    ensures EncodeRequest(k, m, create)[1] == k.operationCodeTcp <==> m.protocol == Tcp
  {
  }

  /** A delete request is the create request with the public port zeroed. */
  lemma DeleteRequestZeroesPublicPort(k: PmpConstants, m: MonoNatMapping.Mapping)
    ensures var c := EncodeRequest(k, m, true);
      EncodeRequest(k, m, false) == c[..6] + [0, 0] + c[8..]
  {
    var c := EncodeRequest(k, m, true);
    var d := EncodeRequest(k, m, false);
    assert BigEndian16(0) == [0, 0];
    assert d[..6] == c[..6];
    assert d[8..] == c[8..];
  }

  /** The delete request of a mapping with a positive lifetime asks for that
      lifetime, where RFC 6886 section 3.4 asks for 0. */
  lemma DeleteRequestKeepsLifetime(k: PmpConstants, m: MonoNatMapping.Mapping)
    requires 0 < m.lifetime
    ensures DecodeRequest(EncodeRequest(k, m, false)).lifetime == m.lifetime
  {
    RequestRoundTrip(k, m, false);
    LowBitsOfSmall(m.lifetime);
  }

  /** A delete request as RFC 6886 section 3.4 describes it: the create request
      with both the public port and the lifetime zeroed. */
  function EncodeDeleteRequest(k: PmpConstants, m: MonoNatMapping.Mapping): (r: seq<byte>)
    ensures |r| == 12
  {
    EncodeRequest(k, m.(lifetime := 0), false)
  }

  lemma DeleteRequestRequestsZeroLifetime(k: PmpConstants, m: MonoNatMapping.Mapping)
    ensures var r := DecodeRequest(EncodeDeleteRequest(k, m));
      && r.lifetime == 0 && r.publicPort == 0
      && r.privatePort == m.privatePort % 0x1_0000
      && r.opcode == RequestOpcode(k, m.protocol)
  {
    var z := m.(lifetime := 0);
    var e := EncodeRequest(k, z, false);
    assert EncodeDeleteRequest(k, m) == e;
    RequestRoundTrip(k, z, false);
    var d := DecodeRequest(e);
    assert d == MappingRequest(k.version, RequestOpcode(k, z.protocol), z.privatePort % 0x1_0000, 0,
                               z.lifetime % 0x1_0000_0000);
    LowBitsOfSmall(z.lifetime);
  }

  // ------------------------------------------------------------ the answer

  /** One step of CreatePortMapListen on one received datagram. The mapping
      is the caller's Mapping object as the datagrams so far have left it:
      the listener writes to it in place, so a failure carries it too. */
  datatype ListenStep =
    | KeepListening(mapping: MonoNatMapping.Mapping)
    | Finished(mapping: MonoNatMapping.Mapping)
    | ListenFailed(error: Exception, mapping: MonoNatMapping.Mapping)

  /** The protocol an answer opcode names: Udp iff its low seven bits are the
      UDP opcode. */
  function AnswerProtocol(k: PmpConstants, opcode: byte): (p: Protocol)
    ensures p == Udp <==> opcode % 128 == k.operationCodeUdp
  {
    if opcode % 128 == k.operationCodeUdp then Udp else Tcp
  }

  /** A datagram CreatePortMapListen reads rather than skips. */
  predicate IsAnswer(k: PmpConstants, data: seq<byte>)
  {
    |data| >= 16 && data[0] == k.version
  }

  /** CreatePortMapListen's handling of one datagram received at 'now'. */
  function HandleMappingAnswer(k: PmpConstants, data: seq<byte>, m: MonoNatMapping.Mapping, now: DateTime): (r: ListenStep)
    ensures !IsAnswer(k, data) ==> r == KeepListening(m)
    ensures IsAnswer(k, data) ==>
      var success := ReadInt16(data[2], data[3]) == k.resultCodeSuccess;
      var lifetime := ReadUInt32(data[12], data[13], data[14], data[15]);
      var answered := m.(publicPort := ReadUInt16(data[10], data[11]), protocol := AnswerProtocol(k, data[1]));
      && (!success ==> r == ListenFailed(General("Invalid result code"), m))
      && (success && lifetime == 0 ==> r == Finished(m))
      && (success && lifetime != 0 && now + lifetime * TicksPerSecond <= MaxTicks ==>
            r == KeepListening(answered.(expiration := now + lifetime * TicksPerSecond)))
      && (success && lifetime != 0 && now + lifetime * TicksPerSecond > MaxTicks ==>
            r == ListenFailed(ArgumentOutOfRange("value"), answered))
  {
    if |data| < 16 || data[0] != k.version then KeepListening(m)
    else
      var protocol := AnswerProtocol(k, data[1]);
      var resultCode := ReadInt16(data[2], data[3]);
      var publicPort := ReadUInt16(data[10], data[11]);
      var lifetime := ReadUInt32(data[12], data[13], data[14], data[15]);
      if resultCode != k.resultCodeSuccess then ListenFailed(General("Invalid result code"), m)
      else if lifetime == 0 then Finished(m)
      else
        var answered := m.(publicPort := publicPort, protocol := protocol);
        match AddSeconds(now, lifetime)
        case None => ListenFailed(ArgumentOutOfRange("value"), answered)
        case Some(expiration) => KeepListening(answered.(expiration := expiration))
  }

  /** Only the public port, the protocol and the expiration are ever written,
      and the expiration only together with the other two. */
  lemma AnswerTouchesThreeFields(k: PmpConstants, data: seq<byte>, m: MonoNatMapping.Mapping, now: DateTime)
    ensures var r := HandleMappingAnswer(k, data, m, now);
            r.mapping.(publicPort := m.publicPort, protocol := m.protocol, expiration := m.expiration) == m
    ensures var r := HandleMappingAnswer(k, data, m, now);
            r.mapping.expiration != m.expiration ==> r.KeepListening? && IsAnswer(k, data)
  {
  }

  /** The answer a NAT-PMP server sends to a mapping request (RFC 6886
      section 3.3): version, 128 + request opcode, result code, seconds since
      start of epoch, internal port, mapped external port, lifetime. */
  function EncodeMappingAnswer(k: PmpConstants, opcode: byte, resultCode: int, epoch: int,
                               privatePort: int, publicPort: int, lifetime: int): (r: seq<byte>)
    requires opcode < 128
    ensures |r| == 16
  {
    [k.version, 128 + opcode] + BigEndian16(resultCode) + BigEndian32(epoch)
      + BigEndian16(privatePort) + BigEndian16(publicPort) + BigEndian32(lifetime)
  }

  /** A successful answer with a non-zero lifetime updates the mapping's public
      port, protocol and expiration from the answer; a successful answer with
      lifetime 0 finishes and leaves the mapping as it was. */
  lemma MappingAnswerRoundTrip(k: PmpConstants, protocol: Protocol, epoch: int, publicPort: int,
                               lifetime: int, m: MonoNatMapping.Mapping, now: DateTime)
    requires WellFormed(k) && -0x8000 <= k.resultCodeSuccess < 0x8000
    requires protocol == Tcp || protocol == Udp
    requires 0 <= publicPort <= MaxUInt16 && 0 <= lifetime < 0x1_0000_0000
    requires now + lifetime * TicksPerSecond <= MaxTicks
    ensures var data := EncodeMappingAnswer(k, RequestOpcode(k, protocol), k.resultCodeSuccess, epoch,
                                            m.privatePort, publicPort, lifetime);
      HandleMappingAnswer(k, data, m, now) ==
        if lifetime == 0 then Finished(m)
        else KeepListening(m.(publicPort := publicPort, protocol := protocol, expiration := now + lifetime * TicksPerSecond))
  {
    AnswerFields(k, RequestOpcode(k, protocol), k.resultCodeSuccess, epoch, m.privatePort, publicPort, lifetime);
  }

  /** The fields of an encoded answer read back as they were written. */
  lemma AnswerFields(k: PmpConstants, opcode: byte, resultCode: int, epoch: int,
                     privatePort: int, publicPort: int, lifetime: int)
    requires opcode < 128
    requires -0x8000 <= resultCode < 0x8000
    requires 0 <= publicPort <= MaxUInt16 && 0 <= lifetime < 0x1_0000_0000
    ensures var data := EncodeMappingAnswer(k, opcode, resultCode, epoch, privatePort, publicPort, lifetime);
      && data[0] == k.version && data[1] % 128 == opcode
      && ReadInt16(data[2], data[3]) == resultCode
      && ReadUInt16(data[10], data[11]) == publicPort
      && ReadUInt32(data[12], data[13], data[14], data[15]) == lifetime
  {
    var data := EncodeMappingAnswer(k, opcode, resultCode, epoch, privatePort, publicPort, lifetime);
    assert data[2..4] == BigEndian16(resultCode);
    BigEndian16RoundTrip(resultCode);
    assert data[10..12] == BigEndian16(publicPort);
    BigEndian16RoundTrip(publicPort);
    assert data[12..16] == BigEndian32(lifetime);
    BigEndian32RoundTrip(lifetime);
  }

  /** A datagram received while listening, with the instant it arrived. */
  datatype Datagram = Datagram(data: seq<byte>, receivedAt: DateTime)

  /** CreatePortMapListen over the datagrams received in order: the step that
      ended listening, or KeepListening with the mapping as the datagrams left
      it when none did. */
  function Listen(k: PmpConstants, received: seq<Datagram>, m: MonoNatMapping.Mapping): (r: ListenStep)
    ensures (forall i :: 0 <= i < |received| ==> |received[i].data| < 16) ==> r == KeepListening(m)
    decreases |received|
  {
    if |received| == 0 then KeepListening(m)
    else match HandleMappingAnswer(k, received[0].data, m, received[0].receivedAt)
      case KeepListening(m') => Listen(k, received[1..], m')
      case Finished(m') => Finished(m')
      case ListenFailed(e, m') => ListenFailed(e, m')
  }

  /** Listening over one datagram is the handling of that datagram. */
  lemma ListenOne(k: PmpConstants, d: Datagram, m: MonoNatMapping.Mapping)
    ensures Listen(k, [d], m) == HandleMappingAnswer(k, d.data, m, d.receivedAt)
  {
    assert [d][1..] == [];
  }

  /** Listening stops at the first datagram that ends it: what arrives later
      changes nothing, and until then each datagram continues from the mapping
      the previous ones left. */
  lemma {:induction false} ListenAppend(k: PmpConstants, a: seq<Datagram>, b: seq<Datagram>, m: MonoNatMapping.Mapping)
    ensures Listen(k, a + b, m) ==
              var s := Listen(k, a, m);
              if s.KeepListening? then Listen(k, b, s.mapping) else s
    decreases |a|
  {
    if |a| == 0 {
      assert a + b == b;
    } else {
      assert (a + b)[0] == a[0];
      assert (a + b)[1..] == a[1..] + b;
      match HandleMappingAnswer(k, a[0].data, m, a[0].receivedAt)
      case KeepListening(m') => ListenAppend(k, a[1..], b, m');
      case Finished(_) =>
      case ListenFailed(_, _) =>
    }
  }

  /** The message of the MappingException that replaces any failure. */
  function FailureMessage(create: bool, m: MonoNatMapping.Mapping): (s: string)
    ensures |s| > 10 && (s[10] == 'c' <==> create)
    ensures 35 + |ProtocolName(m.protocol)| <= |s| && s[35..35 + |ProtocolName(m.protocol)|] == ProtocolName(m.protocol)
    ensures |IntToString(m.privatePort)| <= |s| && s[|s| - |IntToString(m.privatePort)|..] == IntToString(m.privatePort)
  {
    var head := FailureHead(create);
    var name, port := ProtocolName(m.protocol), IntToString(m.privatePort);
    ConcatSlices(head, name, ", private port=", port);
    head + name + ", private port=" + port
  }

  /** The message up to the protocol name: the operation is its eleventh
      character onwards. */
  function FailureHead(create: bool): (h: string)
    ensures |h| == 35 && (h[10] == 'c' <==> create)
  {
    "Failed to " + (if create then "create" else "delete") + " portmap (protocol="
  }

  /** Where the pieces of a concatenation sit. */
  lemma ConcatSlices(head: string, name: string, middle: string, tail: string)
    ensures var s := head + name + middle + tail;
            && |s| == |head| + |name| + |middle| + |tail|
            && (forall i :: 0 <= i < |head| ==> s[i] == head[i])
            && s[|head|..|head| + |name|] == name
            && s[|s| - |tail|..] == tail
  {
    var s := head + name + middle + tail;
    assert s == head + (name + (middle + tail));
    assert s[|head|..] == name + (middle + tail);
    assert s[|head|..|head| + |name|] == s[|head|..][..|name|];
  }

  /** CreatePortMapAsync(mapping, create) as listening left it: no result
      while it is still listening (the call has not returned), the mapping as
      the answers left it once an answer ended listening, or the
      MappingException naming the operation and the mapping as it was when
      listening failed. */
  function CreatePortMap(create: bool, outcome: ListenStep): (r: Option<Fallible<MonoNatMapping.Mapping>>)
    ensures r.None? <==> outcome.KeepListening?
    ensures outcome.Finished? ==> r == Some(Ok(outcome.mapping))
    ensures outcome.ListenFailed? ==> r == Some(Err(PmpMapping(FailureMessage(create, outcome.mapping))))
  {
    match outcome
    case KeepListening(_) => None
    case Finished(m) => Some(Ok(m))
    case ListenFailed(_, m) => Some(Err(PmpMapping(FailureMessage(create, m))))
  }

  /** The failure names the protocol the answers left in the mapping: a Tcp
      mapping that a gateway answered as UDP, and whose next answer fails, is
      reported as a Udp mapping. */
  lemma FailureReportsAnsweredProtocol(k: PmpConstants, m: MonoNatMapping.Mapping, create: bool,
                                       epoch: int, publicPort: int, lifetime: int, first: DateTime,
                                       failing: seq<byte>, second: DateTime)
    requires WellFormed(k) && -0x8000 <= k.resultCodeSuccess < 0x8000
    requires m.protocol == Tcp
    requires 0 <= publicPort <= MaxUInt16 && 0 < lifetime < 0x1_0000_0000
    requires first + lifetime * TicksPerSecond <= MaxTicks
    requires IsAnswer(k, failing) && ReadInt16(failing[2], failing[3]) != k.resultCodeSuccess
    ensures var udpAnswer := EncodeMappingAnswer(k, RequestOpcode(k, Udp), k.resultCodeSuccess, epoch,
                                                 m.privatePort, publicPort, lifetime);
            var left := m.(publicPort := publicPort, protocol := Udp, expiration := first + lifetime * TicksPerSecond);
            var r := CreatePortMap(create, Listen(k, [Datagram(udpAnswer, first), Datagram(failing, second)], m));
            && r == Some(Err(PmpMapping(FailureMessage(create, left))))
            && r != Some(Err(PmpMapping(FailureMessage(create, m))))
  {
    var udpAnswer := EncodeMappingAnswer(k, RequestOpcode(k, Udp), k.resultCodeSuccess, epoch,
                                         m.privatePort, publicPort, lifetime);
    var left := m.(publicPort := publicPort, protocol := Udp, expiration := first + lifetime * TicksPerSecond);
    var d1, d2 := Datagram(udpAnswer, first), Datagram(failing, second);
    MappingAnswerRoundTrip(k, Udp, epoch, publicPort, lifetime, m, first);
    ListenOne(k, d1, m);
    ListenOne(k, d2, left);
    ListenAppend(k, [d1], [d2], m);
    assert [d1] + [d2] == [d1, d2];
    var a, b := FailureMessage(create, left), FailureMessage(create, m);
    assert a[35..38] == "Udp" && b[35..38] == "Tcp";
  }

  // ------------------------------------------------------------ the retry schedule

  /** The pauses of CreatePortMapAsync2 after each of n sends: the delay is
      doubled before every pause. */
  function Pauses(delay: int, n: nat): (r: seq<int>)
    ensures |r| == n
  {
    if n == 0 then [] else Pauses(delay, n - 1) + [delay * Pow2(n)]
  }

  function Sum(s: seq<int>): int
  {
    if |s| == 0 then 0 else Sum(s[..|s| - 1]) + s[|s| - 1]
  }

  /** The send loop of CreatePortMapAsync2, with the sends and pauses
      recorded instead of performed. */
  method SendLoop(k: PmpConstants) returns (sends: nat, pauses: seq<int>)
    requires WellFormed(k)
    ensures sends == k.retryAttempts
    ensures pauses == Pauses(k.retryDelay, sends)
    ensures forall i :: 0 <= i < |pauses| ==> pauses[i] <= MaxInt32
  {
    var attempt := 0;
    var delay := k.retryDelay;
    pauses := [];
    while attempt < k.retryAttempts
      invariant 0 <= attempt <= k.retryAttempts
      invariant delay == k.retryDelay * Pow2(attempt)
      invariant pauses == Pauses(k.retryDelay, attempt)
      invariant forall i :: 0 <= i < |pauses| ==> pauses[i] <= MaxInt32
    {
      ScaledPowMonotone(k.retryDelay, attempt + 1, k.retryAttempts);
      assert delay * 2 == k.retryDelay * Pow2(attempt + 1);
      attempt := attempt + 1;
      delay := delay * 2;
      pauses := pauses + [delay];
    }
    sends := attempt;
  }

  lemma {:induction false} ScaledPowMonotone(d: int, a: nat, b: nat)
    requires 0 < d && a <= b
    ensures d * Pow2(a) <= d * Pow2(b)
    decreases b
  {
    if a < b {
      ScaledPowMonotone(d, a, b - 1);
      assert d * Pow2(b) == 2 * (d * Pow2(b - 1));
    }
  }

  /** The total pause over n sends is delay * (2^(n+1) - 2). */
  lemma {:induction false} PausesTotal(delay: int, n: nat)
    ensures Sum(Pauses(delay, n)) == delay * (Pow2(n + 1) - 2)
  {
    if n > 0 {
      var p := Pauses(delay, n);
      assert p[..|p| - 1] == Pauses(delay, n - 1);
      PausesTotal(delay, n - 1);
    }
  }

  // ------------------------------------------------------------ the device

  /** A PmpNatDevice: the gateway it was found at and the public address it reported. */
  datatype PmpNatDevice = PmpNatDevice(localAddress: IPAddress, publicAddress: IPAddress)

  /** Equals: the same public address. */
  predicate DeviceEquals(a: PmpNatDevice, b: PmpNatDevice)
  {
    a.publicAddress == b.publicAddress
  }

  lemma DeviceEqualsIsEquivalence(a: PmpNatDevice, b: PmpNatDevice, c: PmpNatDevice)
    ensures DeviceEquals(a, a)
    ensures DeviceEquals(a, b) ==> DeviceEquals(b, a)
    ensures DeviceEquals(a, b) && DeviceEquals(b, c) ==> DeviceEquals(a, c)
  {
  }

  /** Two devices found at different gateways that report the same public
      address are equal. */
  lemma DeviceEqualsIgnoresGateway(d: PmpNatDevice, gateway: IPAddress)
    ensures DeviceEquals(d, d.(localAddress := gateway))
  {
  }

  /** GetAllMappingsAsync: NAT-PMP cannot list mappings. */
  function GetAllMappings(d: PmpNatDevice): (r: Fallible<seq<MonoNatMapping.Mapping>>)
    ensures r == Err(NotSupported)
  {
    Err(NotSupported)
  }

  /** GetSpecificMappingAsync: NAT-PMP cannot look a mapping up. */
  function GetSpecificMapping(d: PmpNatDevice, protocol: Protocol, port: int): (r: Fallible<MonoNatMapping.Mapping>)
    ensures r == Err(NotSupported)
  {
    Err(NotSupported)
  }

  /** GetExternalIPAsync: the public address the device reported when found. */
  function GetExternalIP(d: PmpNatDevice): (r: IPAddress)
    ensures DeviceEquals(d, PmpNatDevice(d.localAddress, r))
  {
    d.publicAddress
  }
}
