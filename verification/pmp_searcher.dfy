/**
 * The NAT-PMP searcher (src/Mono.Nat/PmpSearcher.cs): which gateways each
 * socket probes, the retransmission back-off of section 3.1 of RFC 6886 as a
 * state machine over (timeout, NextSearch), and the handling of the 12-byte
 * external-address answer of section 3.2.
 */
module PmpSearcher {
  import opened Wrappers
  import opened Exceptions
  import opened Numbers
  import opened Clock
  import opened Net
  import opened Sockets
  import opened Pmp
  import MonoSearcher

  // ------------------------------------------------------------ gateway selection

  datatype OperationalStatus = Up | Down | Testing | Unknown | Dormant | NotPresent | LowerLayerDown

  /** What CreateSocketsAndAddGateways reads of a network interface. */
  datatype NetworkInterface = NetworkInterface(
    status: OperationalStatus,
    gatewayAddresses: seq<IPAddress>,
    dnsAddresses: seq<IPAddress>,
    unicastAddresses: seq<IPAddress>)

  /** A socket bound to a local IPv4 address, with the gateways it probes. */
  datatype GatewaySocket = GatewaySocket(localAddress: IPAddress, gateways: seq<IPEndPoint>)

  /** Interfaces that are Up or whose status is Unknown are searched. */
  predicate Searched(n: NetworkInterface)
  {
    n.status == Up || n.status == Unknown
  }

  /** The IPv4 (InterNetwork) addresses among addrs, in order. */
  function InterNetworkOnly(addrs: seq<IPAddress>): (r: seq<IPAddress>)
    ensures forall a :: a in r <==> a in addrs && IsInterNetwork(a)
  {
    if |addrs| == 0 then []
    else
      var rest := InterNetworkOnly(addrs[1..]);
      assert forall a :: a in addrs <==> a == addrs[0] || a in addrs[1..];
      if IsInterNetwork(addrs[0]) then [addrs[0]] + rest else rest
  }

  /** Where(...) keeps order and repetitions: filtering joined lists joins the
      filtered lists, and a single address is kept iff it is IPv4. */
  lemma {:induction false} InterNetworkOnlyConcat(x: seq<IPAddress>, y: seq<IPAddress>)
    ensures InterNetworkOnly(x + y) == InterNetworkOnly(x) + InterNetworkOnly(y)
    ensures forall a :: InterNetworkOnly([a]) == if IsInterNetwork(a) then [a] else []
    decreases |x|
  {
    forall a ensures InterNetworkOnly([a]) == if IsInterNetwork(a) then [a] else [] {
      assert [a][1..] == [];
    }
    if |x| > 0 {
      assert (x + y)[0] == x[0];
      assert (x + y)[1..] == x[1..] + y;
      InterNetworkOnlyConcat(x[1..], y);
    } else {
      assert x + y == y;
    }
  }

  function EndPoints(addrs: seq<IPAddress>, port: int): (r: seq<IPEndPoint>)
    ensures |r| == |addrs|
    ensures forall i :: 0 <= i < |addrs| ==> r[i] == IPEndPoint(addrs[i], port)
  {
    seq(|addrs|, i requires 0 <= i < |addrs| => IPEndPoint(addrs[i], port))
  }

  /** The gateways of an interface: its IPv4 gateway addresses, or, only when it
      has none, its IPv4 DNS server addresses, each at the NAT-PMP server port. */
  function GatewayList(k: PmpConstants, n: NetworkInterface): (r: seq<IPEndPoint>)
    ensures forall e :: e in r ==> e.port == k.serverPort && IsInterNetwork(e.address)
    ensures forall e :: e in r ==>
      e.address in n.gatewayAddresses || (InterNetworkOnly(n.gatewayAddresses) == [] && e.address in n.dnsAddresses)
    ensures forall a :: a in n.gatewayAddresses && IsInterNetwork(a) ==> IPEndPoint(a, k.serverPort) in r
    ensures InterNetworkOnly(n.gatewayAddresses) == [] ==>
      forall a :: a in n.dnsAddresses && IsInterNetwork(a) ==> IPEndPoint(a, k.serverPort) in r
  {
    var gateways := InterNetworkOnly(n.gatewayAddresses);
    var chosen := if gateways != [] then gateways else InterNetworkOnly(n.dnsAddresses);
    var r := EndPoints(chosen, k.serverPort);
    assert forall e :: e in r ==> exists i :: 0 <= i < |chosen| && e == IPEndPoint(chosen[i], k.serverPort);
    assert forall a :: a in chosen ==> IPEndPoint(a, k.serverPort) in r by {
      forall a | a in chosen ensures IPEndPoint(a, k.serverPort) in r {
        var i :| 0 <= i < |chosen| && chosen[i] == a;
        assert r[i] == IPEndPoint(a, k.serverPort);
      }
    }
    r
  }

  /** The sockets of one interface: one per IPv4 unicast address that binds,
      none at all for an interface that is not searched or has no gateway. */
  function InterfaceSockets(k: PmpConstants, n: NetworkInterface, canBind: IPAddress -> bool): (r: seq<GatewaySocket>)
    ensures !Searched(n) || GatewayList(k, n) == [] ==> r == []
    ensures forall s :: s in r ==>
      && s.localAddress in n.unicastAddresses && IsInterNetwork(s.localAddress) && canBind(s.localAddress)
      && s.gateways == GatewayList(k, n) && Searched(n) && s.gateways != []
    ensures Searched(n) && GatewayList(k, n) != [] ==>
      forall a :: a in n.unicastAddresses && IsInterNetwork(a) && canBind(a) ==> GatewaySocket(a, GatewayList(k, n)) in r
  {
    if !Searched(n) then []
    else
      var gateways := GatewayList(k, n);
      if gateways == [] then []
      else BindEach(n.unicastAddresses, gateways, canBind)
  }

  function BindEach(addrs: seq<IPAddress>, gateways: seq<IPEndPoint>, canBind: IPAddress -> bool): (r: seq<GatewaySocket>)
    ensures forall s :: s in r ==>
      s.localAddress in addrs && IsInterNetwork(s.localAddress) && canBind(s.localAddress) && s.gateways == gateways
    ensures forall a :: a in addrs && IsInterNetwork(a) && canBind(a) ==> GatewaySocket(a, gateways) in r
  {
    if |addrs| == 0 then []
    else
      var rest := BindEach(addrs[1..], gateways, canBind);
      assert forall a :: a in addrs <==> a == addrs[0] || a in addrs[1..];
      if IsInterNetwork(addrs[0]) && canBind(addrs[0]) then [GatewaySocket(addrs[0], gateways)] + rest else rest
  }

  /** One address gives one socket exactly when it is IPv4 and binds. */
  lemma BindOne(a: IPAddress, gateways: seq<IPEndPoint>, canBind: IPAddress -> bool)
    ensures BindEach([a], gateways, canBind) == (if IsInterNetwork(a) && canBind(a) then [GatewaySocket(a, gateways)] else [])
  {
  }

  /** The foreach over unicast addresses binds in order, one socket per
      bindable IPv4 address, repetitions included. */
  lemma {:induction false} BindEachConcat(x: seq<IPAddress>, y: seq<IPAddress>, gateways: seq<IPEndPoint>, canBind: IPAddress -> bool)
    ensures BindEach(x + y, gateways, canBind) == BindEach(x, gateways, canBind) + BindEach(y, gateways, canBind)
    decreases |x|
  {
    if |x| > 0 {
      assert (x + y)[0] == x[0];
      assert (x + y)[1..] == x[1..] + y;
      BindEachConcat(x[1..], y, gateways, canBind);
    } else {
      assert x + y == y;
    }
  }

  /** CreateSocketsAndAddGateways over the interfaces in order; 'canBind' says
      which local addresses a UdpClient can be bound to. */
  function CreateSockets(k: PmpConstants, interfaces: seq<NetworkInterface>, canBind: IPAddress -> bool): (r: seq<GatewaySocket>)
    ensures forall s :: s in r ==> exists n :: n in interfaces && s in InterfaceSockets(k, n, canBind)
    ensures forall n :: n in interfaces ==> forall s :: s in InterfaceSockets(k, n, canBind) ==> s in r
  {
    if |interfaces| == 0 then []
    else
      var rest := CreateSockets(k, interfaces[1..], canBind);
      assert forall n :: n in interfaces <==> n == interfaces[0] || n in interfaces[1..];
      InterfaceSockets(k, interfaces[0], canBind) + rest
  }

  /** The interfaces are taken one by one: the sockets of joined interface
      lists are the sockets of each list in order, and one interface gives
      exactly its own sockets. */
  lemma {:induction false} CreateSocketsConcat(k: PmpConstants, x: seq<NetworkInterface>, y: seq<NetworkInterface>, canBind: IPAddress -> bool)
    ensures CreateSockets(k, x + y, canBind) == CreateSockets(k, x, canBind) + CreateSockets(k, y, canBind)
    ensures forall n :: CreateSockets(k, [n], canBind) == InterfaceSockets(k, n, canBind)
    decreases |x|
  {
    forall n ensures CreateSockets(k, [n], canBind) == InterfaceSockets(k, n, canBind) {
      assert [n][1..] == [];
      assert InterfaceSockets(k, n, canBind) + [] == InterfaceSockets(k, n, canBind);
    }
    if |x| > 0 {
      assert (x + y)[0] == x[0];
      assert (x + y)[1..] == x[1..] + y;
      CreateSocketsConcat(k, x[1..], y, canBind);
      assert InterfaceSockets(k, x[0], canBind) + (CreateSockets(k, x[1..], canBind) + CreateSockets(k, y, canBind))
          == (InterfaceSockets(k, x[0], canBind) + CreateSockets(k, x[1..], canBind)) + CreateSockets(k, y, canBind);
    } else {
      assert x + y == y;
    }
  }

  // ------------------------------------------------------------ search back-off

  /** The searcher's mutable state: _timeout (milliseconds) and NextSearch. */
  datatype State = State(timeout: int, nextSearch: DateTime)

  const InitialTimeout: int := 250
  /** The doubled timeout at which the searcher gives up for a while. */
  const GiveUpTimeout: int := 128 * 1000

  /** The timeouts the searcher can hold between calls. */
  predicate OnLadder(timeout: int)
  {
    timeout in Ladder
  }

  /** The external-address probe: [Version, OperationExternalAddressRequest]. */
  function Probe(k: PmpConstants): (r: seq<byte>)
    ensures |r| == 2 && r[0] == k.version && r[1] == k.operationExternalAddressRequest
  {
    [k.version, k.operationExternalAddressRequest]
  }

  /** The probe sent once to each gateway of the socket at position i. */
  function ProbeEach(k: PmpConstants, i: nat, gateways: seq<IPEndPoint>): (r: seq<Sent>)
    ensures |r| == |gateways|
    ensures forall j :: 0 <= j < |gateways| ==> r[j] == Sent(i, gateways[j], Probe(k))
  {
    seq(|gateways|, j requires 0 <= j < |gateways| => Sent(i, gateways[j], Probe(k)))
  }

  /** Search(client) for the socket at position i at instant 'now'. */
  function SearchSocket(k: PmpConstants, sockets: seq<GatewaySocket>, st: State, i: nat, now: DateTime): (r: ProbeOutcome<State>)
  {
    match AddMilliseconds(now, st.timeout)
    case None => ProbeOutcome(st, [], true)
    case Some(next) =>
      var timeout := WrapInt32(st.timeout * 2);
      if timeout == GiveUpTimeout then
        match AddMinutes(now, 10)
        case None => ProbeOutcome(State(InitialTimeout, next), [], true)
        case Some(later) => ProbeOutcome(State(InitialTimeout, later), [], false)
      else if i < |sockets| then ProbeOutcome(State(timeout, next), ProbeEach(k, i, sockets[i].gateways), false)
      else ProbeOutcome(State(timeout, next), [], true)
  }

  /** Each call on a timeout below 64 s doubles it, sets NextSearch to now
      plus the old timeout and sends the probe to every gateway of the socket. */
  lemma SearchSocketDoubles(k: PmpConstants, sockets: seq<GatewaySocket>, st: State, i: nat, now: DateTime)
    requires OnLadder(st.timeout) && st.timeout < 64000
    requires i < |sockets|
    requires now + st.timeout * TicksPerMillisecond <= MaxTicks
    ensures SearchSocket(k, sockets, st, i, now) ==
      ProbeOutcome(State(2 * st.timeout, now + st.timeout * TicksPerMillisecond), ProbeEach(k, i, sockets[i].gateways), false)
  {
  }

  /** The call on the 64 s timeout resets it to 250 ms, schedules the next
      search ten minutes ahead and sends nothing. */
  lemma SearchSocketGivesUp(k: PmpConstants, sockets: seq<GatewaySocket>, st: State, i: nat, now: DateTime)
    requires st.timeout == 64000
    requires now + 10 * TicksPerMinute <= MaxTicks
    ensures SearchSocket(k, sockets, st, i, now) == ProbeOutcome(State(InitialTimeout, now + 10 * TicksPerMinute), [], false)
  {
  }

  /** Whatever happens in a call, including an exception, the timeout stays on
      the ladder 250, 500, ..., 64000. */
  lemma SearchSocketKeepsLadder(k: PmpConstants, sockets: seq<GatewaySocket>, st: State, i: nat, now: DateTime)
    requires OnLadder(st.timeout)
    ensures OnLadder(SearchSocket(k, sockets, st, i, now).state.timeout)
  {
  }

  /** n consecutive calls for one socket at the same instant. */
  function Repeat(k: PmpConstants, sockets: seq<GatewaySocket>, st: State, i: nat, now: DateTime, n: nat): (r: seq<ProbeOutcome<State>>)
    ensures |r| == n
    decreases n
  {
    if n == 0 then []
    else
      var before := Repeat(k, sockets, st, i, now, n - 1);
      var from := if n == 1 then st else before[n - 2].state;
      before + [SearchSocket(k, sockets, from, i, now)]
  }

  /** From a fresh 250 ms timeout the first eight calls each probe every
      gateway and double the timeout, up to 64 s; the ninth sends nothing,
      resets the timeout and waits ten minutes. */
  lemma EightProbesThenPause(k: PmpConstants, sockets: seq<GatewaySocket>, nextSearch: DateTime, i: nat, now: DateTime)
    requires i < |sockets|
    requires now + 10 * TicksPerMinute <= MaxTicks
    ensures var calls := Repeat(k, sockets, State(InitialTimeout, nextSearch), i, now, 9);
      && (forall j :: 0 <= j < 8 ==> calls[j].sent == ProbeEach(k, i, sockets[i].gateways) && !calls[j].threw)
      && calls[7].state.timeout == 64000
      && calls[8] == ProbeOutcome(State(InitialTimeout, now + 10 * TicksPerMinute), [], false)
  {
    var st := State(InitialTimeout, nextSearch);
    RepeatClimbs(k, sockets, st, i, now, 8);
    var first := Repeat(k, sockets, st, i, now, 8);
    var calls := Repeat(k, sockets, st, i, now, 9);
    RepeatStep(k, sockets, st, i, now, 9);
    assert calls == first + [SearchSocket(k, sockets, first[7].state, i, now)];
    assert ClimbedAt(k, sockets, i, first, 7);
    assert first[7].state.timeout == 64000;
    SearchSocketGivesUp(k, sockets, first[7].state, i, now);
    forall j | 0 <= j < 8
      ensures calls[j].sent == ProbeEach(k, i, sockets[i].gateways) && !calls[j].threw
    {
      assert ClimbedAt(k, sockets, i, first, j);
      assert calls[j] == first[j];
    }
  }

  /** The timeouts the first eight calls start from. */
  const Ladder: seq<int> := [250, 500, 1000, 2000, 4000, 8000, 16000, 32000, 64000]

  /** A call on the j-th rung below the top probes and climbs one rung. */
  lemma Climb(k: PmpConstants, sockets: seq<GatewaySocket>, st: State, i: nat, now: DateTime, j: nat)
    requires i < |sockets| && j < 8 && st.timeout == Ladder[j]
    requires now + 10 * TicksPerMinute <= MaxTicks
    ensures var o := SearchSocket(k, sockets, st, i, now);
      o.sent == ProbeEach(k, i, sockets[i].gateways) && !o.threw && o.state.timeout == Ladder[j + 1]
  {
    assert OnLadder(st.timeout) && st.timeout < 64000;
    SearchSocketDoubles(k, sockets, st, i, now);
  }

  /** Repeat grows by one call made from the state the previous call left. */
  lemma RepeatStep(k: PmpConstants, sockets: seq<GatewaySocket>, st: State, i: nat, now: DateTime, n: nat)
    requires n >= 2
    ensures var before := Repeat(k, sockets, st, i, now, n - 1);
      Repeat(k, sockets, st, i, now, n) == before + [SearchSocket(k, sockets, before[n - 2].state, i, now)]
  {
  }

  /** The j-th call of a run from 250 ms probes and leaves the timeout on rung j + 1. */
  predicate ClimbedAt(k: PmpConstants, sockets: seq<GatewaySocket>, i: nat, calls: seq<ProbeOutcome<State>>, j: nat)
    requires i < |sockets| && j < |calls| && j + 1 < |Ladder|
  {
    calls[j].sent == ProbeEach(k, i, sockets[i].gateways) && !calls[j].threw && calls[j].state.timeout == Ladder[j + 1]
  }

  lemma {:induction false} RepeatClimbs(k: PmpConstants, sockets: seq<GatewaySocket>, st: State, i: nat, now: DateTime, n: nat)
    requires i < |sockets| && 1 <= n <= 8
    requires st.timeout == 250
    requires now + 10 * TicksPerMinute <= MaxTicks
    ensures forall j :: 0 <= j < n ==> ClimbedAt(k, sockets, i, Repeat(k, sockets, st, i, now, n), j)
  {
    var calls := Repeat(k, sockets, st, i, now, n);
    if n == 1 {
      Climb(k, sockets, st, i, now, 0);
    } else {
      RepeatClimbs(k, sockets, st, i, now, n - 1);
      var before := Repeat(k, sockets, st, i, now, n - 1);
      var last := SearchSocket(k, sockets, before[n - 2].state, i, now);
      RepeatStep(k, sockets, st, i, now, n);
      assert ClimbedAt(k, sockets, i, before, n - 2);
      Climb(k, sockets, before[n - 2].state, i, now, n - 1);
      forall j | 0 <= j < n
        ensures ClimbedAt(k, sockets, i, calls, j)
      {
        if j < n - 1 {
          assert ClimbedAt(k, sockets, i, before, j);
          assert calls[j] == before[j];
        } else {
          assert calls[j] == last;
        }
      }
    }
  }

  /** One Search() round of the Mono.Nat base class over all sockets. */
  function SearchRound(k: PmpConstants, sockets: seq<GatewaySocket>, st: State, now: DateTime): (r: ProbeRun<State>)
    ensures |r.outcomes| == |sockets|
  {
    MonoSearcher.Search((s: State, i: nat) => SearchSocket(k, sockets, s, i, now), st, |sockets|)
  }

  /** The timeout is on the ladder after every socket's call of a round. */
  lemma SearchRoundKeepsLadder(k: PmpConstants, sockets: seq<GatewaySocket>, st: State, now: DateTime, j: nat)
    requires OnLadder(st.timeout)
    requires j < |sockets|
    ensures OnLadder(SearchRound(k, sockets, st, now).outcomes[j].state.timeout)
    decreases j
  {
    var r := SearchRound(k, sockets, st, now);
    if j == 0 {
      SearchSocketKeepsLadder(k, sockets, st, 0, now);
    } else {
      SearchRoundKeepsLadder(k, sockets, st, now, j - 1);
      SearchSocketKeepsLadder(k, sockets, r.outcomes[j - 1].state, j, now);
    }
  }

  // ------------------------------------------------------------ the answer

  /** The end point is one of the gateways some socket probes. */
  predicate IsSearchAddress(sockets: seq<GatewaySocket>, a: IPAddress)
  {
    exists i, j :: 0 <= i < |sockets| && 0 <= j < |sockets[i].gateways| && sockets[i].gateways[j].address == a
  }

  /** What Handle leaves: the state and the devices it reported. */
  datatype Handled = Handled(state: State, found: seq<PmpNatDevice>)

  /** Handle(localAddress, response, endpoint) at instant 'now'. A non-zero
      result code is only logged. */
  function Handle(k: PmpConstants, sockets: seq<GatewaySocket>, st: State, response: seq<byte>,
                  endpoint: IPEndPoint, now: DateTime): (r: Fallible<Handled>)
    ensures (!IsSearchAddress(sockets, endpoint.address) || |response| != 12
             || response[0] != k.version || response[1] != k.serverNoop) ==> r == Ok(Handled(st, []))
    ensures r.Ok? && r.value.found != [] ==>
      && |response| == 12 && IsSearchAddress(sockets, endpoint.address)
      && r.value.found == [PmpNatDevice(endpoint.address, V4(response[8], response[9], response[10], response[11]))]
      && r.value.state.timeout == InitialTimeout && AddMinutes(now, 5) == Some(r.value.state.nextSearch)
    ensures r.Err? <==> r != Ok(Handled(st, [])) && AddMinutes(now, 5).None?
  {
    if !IsSearchAddress(sockets, endpoint.address) || |response| != 12
       || response[0] != k.version || response[1] != k.serverNoop then
      Ok(Handled(st, []))
    else
      var publicIp := V4(response[8], response[9], response[10], response[11]);
      match AddMinutes(now, 5)
      case None => Err(ArgumentOutOfRange("value"))
      case Some(next) => Ok(Handled(State(InitialTimeout, next), [PmpNatDevice(endpoint.address, publicIp)]))
  }

  /** The external-address answer of section 3.2 of RFC 6886: version,
      128 + 0, result code, seconds since start of epoch, external IPv4 address. */
  function EncodeAddressAnswer(k: PmpConstants, resultCode: int, epoch: int, a: byte, b: byte, c: byte, d: byte): (r: seq<byte>)
    ensures |r| == 12
  {
    [k.version, k.serverNoop] + BigEndian16(resultCode) + BigEndian32(epoch) + [a, b, c, d]
  }

  /** An answer from a probed gateway reports one device at that gateway with
      the public address the answer carries, whatever its result code, and
      restarts the back-off with a search five minutes ahead. */
  lemma AddressAnswerFindsDevice(k: PmpConstants, sockets: seq<GatewaySocket>, st: State, resultCode: int, epoch: int,
                                 a: byte, b: byte, c: byte, d: byte, gateway: IPEndPoint, now: DateTime)
    requires IsSearchAddress(sockets, gateway.address)
    requires now + 5 * TicksPerMinute <= MaxTicks
    ensures Handle(k, sockets, st, EncodeAddressAnswer(k, resultCode, epoch, a, b, c, d), gateway, now) ==
      Ok(Handled(State(InitialTimeout, now + 5 * TicksPerMinute), [PmpNatDevice(gateway.address, V4(a, b, c, d))]))
  {
    var r := EncodeAddressAnswer(k, resultCode, epoch, a, b, c, d);
    assert r[8..] == [a, b, c, d];
  }

  /** A datagram from an address no socket probes is ignored. */
  lemma StrangerIsIgnored(k: PmpConstants, sockets: seq<GatewaySocket>, st: State, response: seq<byte>,
                          endpoint: IPEndPoint, now: DateTime)
    requires forall s :: s in sockets ==> forall g :: g in s.gateways ==> g.address != endpoint.address
    ensures Handle(k, sockets, st, response, endpoint, now) == Ok(Handled(st, []))
  {
  }
}
