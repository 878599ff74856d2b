/**
 * The searcher skeleton shared by the searcher revisions: UDP sockets with
 * the datagrams waiting on them, a probe of every socket in order (an
 * exception from one socket's probe is swallowed), and a receive pass that
 * reads one datagram from each socket that has one.
 */
module Sockets {
  import opened Wrappers
  import opened Exceptions
  import opened Numbers
  import opened Net

  /** A datagram as UdpClient.Receive returns it, with the sender's end point. */
  datatype Received = Received(data: seq<byte>, sender: IPEndPoint)

  /** A UdpClient: its local address, the datagrams waiting on it (Available > 0
      iff there is one) and whether it is still open. */
  datatype UdpSocket = UdpSocket(localAddress: IPAddress, inbox: seq<Received>, open: bool)

  predicate Available(s: UdpSocket)
  {
    |s.inbox| > 0
  }

  /** A datagram sent through the socket at position 'socket'. */
  datatype Sent = Sent(socket: nat, to: IPEndPoint, data: seq<byte>)

  /** What a searcher's Search(client) did: the searcher state it left (also
      when it threw), what it sent, and whether it threw. */
  datatype ProbeOutcome<S> = ProbeOutcome(state: S, sent: seq<Sent>, threw: bool)

  /** The outcome of probing a run of sockets, one outcome per socket probed. */
  datatype ProbeRun<S> = ProbeRun(state: S, sent: seq<Sent>, outcomes: seq<ProbeOutcome<S>>)

  function Flatten<S>(outcomes: seq<ProbeOutcome<S>>): seq<Sent>
  {
    if |outcomes| == 0 then [] else Flatten(outcomes[..|outcomes| - 1]) + outcomes[|outcomes| - 1].sent
  }

  /** The loop over Sockets with try { Search(socket) } catch { continue; }: the
      sockets at positions 0 .. n-1 are probed in order, each from the state
      the previous probe left, whether or not that probe threw. */
  function ProbeAll<S>(probe: (S, nat) -> ProbeOutcome<S>, s: S, n: nat): (r: ProbeRun<S>)
    ensures |r.outcomes| == n
    ensures n > 0 ==> r.outcomes[0] == probe(s, 0)
    ensures forall i :: 0 < i < n ==> r.outcomes[i] == probe(r.outcomes[i - 1].state, i)
    ensures r.state == if n == 0 then s else r.outcomes[n - 1].state
    ensures r.sent == Flatten(r.outcomes)
    decreases n
  {
    if n == 0 then ProbeRun(s, [], [])
    else
      var p := ProbeAll(probe, s, n - 1);
      var o := probe(p.state, n - 1);
      var outcomes := p.outcomes + [o];
      assert outcomes[..n - 1] == p.outcomes;
      ProbeRun(o.state, p.sent + o.sent, outcomes)
  }

  /** A datagram read from a socket, with that socket's local address. */
  datatype Arrival = Arrival(localAddress: IPAddress, datagram: Received)

  /** The first datagram of every socket with one waiting, in socket order. */
  function Arrivals(sockets: seq<UdpSocket>): (r: seq<Arrival>)
    ensures |r| <= |sockets|
    ensures r == [] <==> forall i :: 0 <= i < |sockets| ==> !Available(sockets[i])
    ensures forall i :: 0 <= i < |sockets| && Available(sockets[i]) ==>
      Arrival(sockets[i].localAddress, sockets[i].inbox[0]) in r
    ensures forall a :: a in r ==>
      exists i :: 0 <= i < |sockets| && Available(sockets[i]) && a == Arrival(sockets[i].localAddress, sockets[i].inbox[0])
  {
    if |sockets| == 0 then []
    else
      var rest := Arrivals(sockets[1..]);
      assert forall i :: 1 <= i < |sockets| ==> sockets[i] == sockets[1..][i - 1];
      if Available(sockets[0]) then [Arrival(sockets[0].localAddress, sockets[0].inbox[0])] + rest else rest
  }

  /** The arrivals of two groups of sockets are the first group's, then the second's. */
  lemma {:induction false} ArrivalsConcat(x: seq<UdpSocket>, y: seq<UdpSocket>)
    ensures Arrivals(x + y) == Arrivals(x) + Arrivals(y)
    decreases |x|
  {
    if |x| > 0 {
      assert (x + y)[0] == x[0];
      assert (x + y)[1..] == x[1..] + y;
      ArrivalsConcat(x[1..], y);
    } else {
      assert x + y == y;
    }
  }

  /** The sockets once their first waiting datagram has been read. */
  function Consume(sockets: seq<UdpSocket>): (r: seq<UdpSocket>)
    ensures |r| == |sockets|
    ensures forall i :: 0 <= i < |sockets| ==>
      r[i] == if Available(sockets[i]) then sockets[i].(inbox := sockets[i].inbox[1..]) else sockets[i]
  {
    seq(|sockets|, i requires 0 <= i < |sockets| =>
      if Available(sockets[i]) then sockets[i].(inbox := sockets[i].inbox[1..]) else sockets[i])
  }

  /** Handle applied to each arrival in order; an exception stops the pass. */
  function HandleEach<S>(handle: (S, Arrival) -> Fallible<S>, s: S, arrivals: seq<Arrival>): (r: Fallible<S>)
    ensures arrivals == [] ==> r == Ok(s)
    decreases |arrivals|
  {
    if |arrivals| == 0 then Ok(s)
    else
      var s' :- handle(s, arrivals[0]);
      HandleEach(handle, s', arrivals[1..])
  }

  /** Receive(): one datagram read from each socket with Available > 0 and
      handed to Handle with that socket's local address. */
  function Receive<S>(handle: (S, Arrival) -> Fallible<S>, s: S, sockets: seq<UdpSocket>): (r: Fallible<(S, seq<UdpSocket>)>)
    ensures r.Ok? ==> r.value.1 == Consume(sockets)
    ensures r.Err? <==> HandleEach(handle, s, Arrivals(sockets)).Err?
    ensures r.Ok? ==> r.value.0 == HandleEach(handle, s, Arrivals(sockets)).value
  {
    var s' :- HandleEach(handle, s, Arrivals(sockets));
    Ok((s', Consume(sockets)))
  }

  /** With nothing waiting on any socket, Receive changes nothing. */
  lemma ReceiveIdle<S>(handle: (S, Arrival) -> Fallible<S>, s: S, sockets: seq<UdpSocket>)
    requires forall i :: 0 <= i < |sockets| ==> !Available(sockets[i])
    ensures Receive(handle, s, sockets) == Ok((s, sockets))
  {
    assert Consume(sockets) == sockets;
  }

  /** Reading shortens each available socket's queue by exactly one datagram
      and leaves the others alone. */
  lemma ReceiveReadsOnePerSocket<S>(handle: (S, Arrival) -> Fallible<S>, s: S, sockets: seq<UdpSocket>, i: nat)
    requires i < |sockets|
    requires Receive(handle, s, sockets).Ok?
    ensures var after := Receive(handle, s, sockets).value.1;
      |after[i].inbox| == if Available(sockets[i]) then |sockets[i].inbox| - 1 else |sockets[i].inbox|
  {
  }

  /** OnDeviceFound: nothing without a subscriber, otherwise one notification
      whose sender is the searcher. */
  datatype Notification<D> = Notification(sender: string, device: D)

  function OnDeviceFound<D>(subscribed: bool, searcher: string, device: D): (r: seq<Notification<D>>)
    ensures |r| == if subscribed then 1 else 0
    ensures forall n :: n in r ==> n.sender == searcher && n.device == device
  {
    if subscribed then [Notification(searcher, device)] else []
  }
}
