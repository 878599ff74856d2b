/**
 * The three Searcher base-class revisions over the shared socket skeleton:
 * src/Mono.Nat/Searcher.cs probes on every call, src/Open.Nat/Searcher.cs
 * only when the next search time has passed, and Open.Nat/Searcher.cs probes
 * until cancellation, collects the devices its subclass recognises and always
 * closes its sockets.
 */
module MonoSearcher {
  import opened Clock
  import opened Sockets

  /** IsSearchTime: strictly after NextSearch. */
  predicate IsSearchTime(nextSearch: DateTime, now: DateTime)
  {
    nextSearch < now
  }

  /** Search(): no time gate; every socket is probed on every call. */
  function Search<S>(probe: (S, nat) -> ProbeOutcome<S>, s: S, socketCount: nat): (r: ProbeRun<S>)
    ensures |r.outcomes| == socketCount
    ensures socketCount > 0 ==> r.outcomes[0] == probe(s, 0)
    ensures forall i :: 0 < i < socketCount ==> r.outcomes[i] == probe(r.outcomes[i - 1].state, i)
  {
    ProbeAll(probe, s, socketCount)
  }
}

module GatedSearcher {
  import opened Clock
  import opened Sockets

  /** IsSearchTime: strictly after NextSearch. */
  predicate IsSearchTime(nextSearch: DateTime, now: DateTime)
  {
    nextSearch < now
  }

  /** Search(): nothing at all unless NextSearch < now; then every socket is
      probed in order. */
  function Search<S>(probe: (S, nat) -> ProbeOutcome<S>, nextSearchOf: S -> DateTime,
                     s: S, socketCount: nat, now: DateTime): (r: ProbeRun<S>)
    ensures !IsSearchTime(nextSearchOf(s), now) ==> r == ProbeRun(s, [], [])
    ensures IsSearchTime(nextSearchOf(s), now) ==> |r.outcomes| == socketCount && r == ProbeAll(probe, s, socketCount)
  {
    if !IsSearchTime(nextSearchOf(s), now) then ProbeRun(s, [], []) else ProbeAll(probe, s, socketCount)
  }

  /** Searching twice at the same instant probes once at most when the probe
      pushes NextSearch to 'now' or later. */
  lemma SecondSearchIsGated<S>(probe: (S, nat) -> ProbeOutcome<S>, nextSearchOf: S -> DateTime,
                               s: S, socketCount: nat, now: DateTime)
    requires socketCount > 0
    requires forall t: S, i: nat :: nextSearchOf(probe(t, i).state) >= now
    ensures var first := Search(probe, nextSearchOf, s, socketCount, now);
      Search(probe, nextSearchOf, first.state, socketCount, now) == ProbeRun(first.state, [], [])
  {
  }
}

module TaskSearcher {
  import opened Wrappers
  import opened Exceptions
  import opened Sockets

  /** Discover(): the sockets are probed in order until the token is seen
      cancelled; 'cancelledBefore' is the position of the first socket whose
      check sees the cancellation. A probe's exception is logged and skipped. */
  function Discover<S>(probe: (S, nat) -> ProbeOutcome<S>, s: S, socketCount: nat, cancelledBefore: nat): (r: ProbeRun<S>)
    ensures |r.outcomes| == if cancelledBefore < socketCount then cancelledBefore else socketCount
    ensures r == ProbeAll(probe, s, |r.outcomes|)
  {
    ProbeAll(probe, s, if cancelledBefore < socketCount then cancelledBefore else socketCount)
  }

  /** The devices among the results, in order. */
  function Somes<D(!new)>(results: seq<Option<D>>): (r: seq<D>)
    ensures |r| <= |results|
    ensures forall d :: d in r <==> Some(d) in results
  {
    if |results| == 0 then []
    else
      var rest := Somes(results[1..]);
      assert forall x :: x in results <==> x == results[0] || x in results[1..];
      if results[0].Some? then [results[0].value] + rest else rest
  }

  /** AnalyseReceivedResponse applied to each arrival in order; an exception
      ends the pass. */
  function AnalyseEach<D>(analyse: Arrival -> Fallible<Option<D>>, arrivals: seq<Arrival>): (r: Fallible<seq<Option<D>>>)
    ensures r.Ok? ==> |r.value| == |arrivals|
    ensures r.Ok? ==> forall i :: 0 <= i < |arrivals| ==> analyse(arrivals[i]) == Ok(r.value[i])
    ensures r.Ok? <==> forall i :: 0 <= i < |arrivals| ==> analyse(arrivals[i]).Ok?
    decreases |arrivals|
  {
    if |arrivals| == 0 then Ok([])
    else
      var first :- analyse(arrivals[0]);
      var rest :- AnalyseEach(analyse, arrivals[1..]);
      Ok([first] + rest)
  }

  /** Receive(onlyOne, token): the non-null results of AnalyseReceivedResponse
      for the first datagram of every socket with Available > 0, in socket order. */
  function Receive<D(!new)>(analyse: Arrival -> Fallible<Option<D>>, sockets: seq<UdpSocket>): (r: Fallible<seq<D>>)
    ensures r.Ok? ==> forall i :: 0 <= i < |Arrivals(sockets)| ==> analyse(Arrivals(sockets)[i]).Ok?
    ensures r.Err? ==> exists i :: 0 <= i < |Arrivals(sockets)| && analyse(Arrivals(sockets)[i]).Err?
    ensures r.Ok? ==> |r.value| <= |Arrivals(sockets)|
    ensures r.Ok? ==> forall d :: d in r.value ==> exists a :: a in Arrivals(sockets) && analyse(a) == Ok(Some(d))
    ensures r.Ok? ==> forall i, d :: 0 <= i < |Arrivals(sockets)| && analyse(Arrivals(sockets)[i]) == Ok(Some(d)) ==> d in r.value
    ensures (forall i :: 0 <= i < |sockets| ==> !Available(sockets[i])) ==> r == Ok([])
  {
    var each := AnalyseEach(analyse, Arrivals(sockets));
    if each.Err? then Err(each.error)
    else
      assert forall i, d :: 0 <= i < |each.value| && each.value[i] == Some(d) ==> Some(d) in each.value;
      Ok(Somes(each.value))
  }

  /** The devices of joined results are the devices of each part, in order. */
  lemma {:induction false} SomesConcat<D(!new)>(x: seq<Option<D>>, y: seq<Option<D>>)
    ensures Somes(x + y) == Somes(x) + Somes(y)
    decreases |x|
  {
    if |x| > 0 {
      assert (x + y)[1..] == x[1..] + y;
      SomesConcat(x[1..], y);
    } else {
      assert x + y == y;
    }
  }

  /** Analysing joined arrivals: the first part's exception wins, then the
      second's; otherwise the results are joined in order. */
  lemma {:induction false} AnalyseEachConcat<D>(analyse: Arrival -> Fallible<Option<D>>, x: seq<Arrival>, y: seq<Arrival>)
    ensures AnalyseEach(analyse, x + y) ==
      match AnalyseEach(analyse, x)
      case Err(e) => Err(e)
      case Ok(rx) => (match AnalyseEach(analyse, y)
                      case Err(e) => Err(e)
                      case Ok(ry) => Ok(rx + ry))
    decreases |x|
  {
    if |x| > 0 {
      assert (x + y)[0] == x[0];
      assert (x + y)[1..] == x[1..] + y;
      AnalyseEachConcat(analyse, x[1..], y);
      var first := analyse(x[0]);
      var restX := AnalyseEach(analyse, x[1..]);
      var restY := AnalyseEach(analyse, y);
      if first.Ok? && restX.Ok? && restY.Ok? {
        assert [first.value] + (restX.value + restY.value) == ([first.value] + restX.value) + restY.value;
      }
    } else {
      assert x + y == y;
      if AnalyseEach(analyse, y).Ok? {
        assert [] + AnalyseEach(analyse, y).value == AnalyseEach(analyse, y).value;
      }
    }
  }

  /** Receive works socket by socket in socket order: a pass over two groups of
      sockets reports the first group's devices, then the second's, and fails
      with the first exception in that order. */
  lemma ReceiveConcat<D(!new)>(analyse: Arrival -> Fallible<Option<D>>, x: seq<UdpSocket>, y: seq<UdpSocket>)
    ensures Receive(analyse, x + y) ==
      match Receive(analyse, x)
      case Err(e) => Err(e)
      case Ok(dx) => (match Receive(analyse, y)
                      case Err(e) => Err(e)
                      case Ok(dy) => Ok(dx + dy))
  {
    ArrivalsConcat(x, y);
    AnalyseEachConcat(analyse, Arrivals(x), Arrivals(y));
    var ax := AnalyseEach(analyse, Arrivals(x));
    var ay := AnalyseEach(analyse, Arrivals(y));
    if ax.Ok? && ay.Ok? {
      SomesConcat(ax.value, ay.value);
    }
  }

  /** One socket: nothing waiting gives no device; otherwise its first
      datagram is analysed, and a non-null result is the one device. */
  lemma ReceiveOne<D(!new)>(analyse: Arrival -> Fallible<Option<D>>, socket: UdpSocket)
    ensures !Available(socket) ==> Receive(analyse, [socket]) == Ok([])
    ensures Available(socket) ==>
      Receive(analyse, [socket]) ==
        match analyse(Arrival(socket.localAddress, socket.inbox[0]))
        case Err(e) => Err(e)
        case Ok(None) => Ok([])
        case Ok(Some(d)) => Ok([d])
  {
    assert [socket][1..] == [];
    if Available(socket) {
      var a := Arrival(socket.localAddress, socket.inbox[0]);
      assert Arrivals([socket]) == [a];
      assert [a][1..] == [];
      var first := analyse(a);
      if first.Ok? {
        assert AnalyseEach(analyse, [a]) == Ok([first.value] + []);
        assert [first.value][1..] == [];
        assert Somes([first.value]) == (if first.value.Some? then [first.value.value] else []);
      }
    }
  }

  /** CloseSockets(). */
  function CloseAll(sockets: seq<UdpSocket>): (r: seq<UdpSocket>)
    ensures |r| == |sockets|
    ensures forall i :: 0 <= i < |r| ==> !r[i].open && r[i].localAddress == sockets[i].localAddress
  {
    seq(|sockets|, i requires 0 <= i < |sockets| => sockets[i].(open := false))
  }

  datatype SearchResult<S, D> = SearchResult(state: S, sent: seq<Sent>, devices: Fallible<seq<D>>, sockets: seq<UdpSocket>)

  /** Search(onlyOne, token): Discover, then Receive, and in a finally block
      close every socket, so the sockets end closed whatever Receive does. */
  function Search<S, D(!new)>(probe: (S, nat) -> ProbeOutcome<S>, analyse: Arrival -> Fallible<Option<D>>,
                        s: S, sockets: seq<UdpSocket>, cancelledBefore: nat): (r: SearchResult<S, D>)
    ensures |r.sockets| == |sockets|
    ensures forall i :: 0 <= i < |r.sockets| ==> !r.sockets[i].open
    ensures r.devices == Receive(analyse, sockets)
    ensures r.sent == Discover(probe, s, |sockets|, cancelledBefore).sent
  {
    var run := Discover(probe, s, |sockets|, cancelledBefore);
    SearchResult(run.state, run.sent, Receive(analyse, sockets), CloseAll(sockets))
  }

  /** Once cancellation is requested before the first socket, nothing is probed. */
  lemma CancelledSearchSendsNothing<S, D(!new)>(probe: (S, nat) -> ProbeOutcome<S>, analyse: Arrival -> Fallible<Option<D>>,
                                          s: S, sockets: seq<UdpSocket>)
    ensures Search(probe, analyse, s, sockets, 0).sent == []
  {
  }
}
