/**
 * What the two UPnP searchers share: the SSDP probe sent three times to the
 * broadcast address, and the 20-second per-source throttle that keeps the
 * three answers to one probe from fetching the description three times.
 */
module SsdpSearch {
  import opened Wrappers
  import opened Exceptions
  import opened Clock
  import opened Net
  import opened Numbers
  import opened Sockets

  /** The SSDP port probes are sent to. */
  const SsdpPort: int := 1900
  /** Section 1.1.2 of the UPnP Device Architecture 1.0: UDP is unreliable,
      so the probe is sent several times. */
  const ProbeCopies: nat := 3
  /** TimeSpan.FromSeconds(20), the minimum time between two fetches from
      the same source. */
  const FetchInterval: int := 20 * TicksPerSecond

  function Copies(socket: nat, to: IPEndPoint, data: seq<byte>, n: nat): (r: seq<Sent>)
    ensures |r| == n && forall j :: 0 <= j < n ==> r[j] == Sent(socket, to, data)
  {
    seq(n, j requires 0 <= j < n => Sent(socket, to, data))
  }

  /** Search(client) for the socket at position i, the same in both
      revisions: NextSearch becomes now plus five minutes (AddMinutes throws
      past the DateTime range, before anything is sent), then the probe goes
      three times to 255.255.255.255:1900. */
  function SearchSocket<S>(s: S, setNextSearch: (S, DateTime) -> S, i: nat, probe: seq<byte>, now: DateTime): (r: ProbeOutcome<S>)
    ensures AddMinutes(now, 5).None? ==> r == ProbeOutcome(s, [], true)
    ensures AddMinutes(now, 5).Some? ==>
              && !r.threw && r.state == setNextSearch(s, AddMinutes(now, 5).value)
              && |r.sent| == ProbeCopies
              && forall j :: 0 <= j < |r.sent| ==> r.sent[j] == Sent(i, IPEndPoint(AddressBroadcast, SsdpPort), probe)
  {
    match AddMinutes(now, 5)
    case None => ProbeOutcome(s, [], true)
    case Some(next) =>
      ProbeOutcome(setNextSearch(s, next), Copies(i, IPEndPoint(AddressBroadcast, SsdpPort), probe, ProbeCopies), false)
  }

  /** The source was fetched from less than 20 seconds ago. */
  predicate Throttled(lastFetched: map<IPAddress, DateTime>, source: IPAddress, now: DateTime)
  {
    source in lastFetched && now - lastFetched[source] < FetchInterval
  }

  /** The three answers to one probe, arriving within 20 seconds of each
      other, pass the throttle once: after the first is recorded the others
      are held back, and a source is let through again 20 seconds later. */
  lemma ThrottleAbsorbsRepeats(lastFetched: map<IPAddress, DateTime>, source: IPAddress, first: DateTime, later: DateTime)
    requires first <= later
    ensures Throttled(lastFetched[source := first], source, later) <==> later - first < FetchInterval
  {
  }
  /** A handler that never throws lets Receive read every waiting datagram:
      the UPnP searchers' Handle catches every exception itself. */
  lemma {:induction false} HandleEachTotal<S>(handle: (S, Arrival) -> Fallible<S>, s: S, arrivals: seq<Arrival>)
    requires forall t, a :: handle(t, a).Ok?
    ensures HandleEach(handle, s, arrivals).Ok?
    decreases |arrivals|
  {
    if |arrivals| > 0 {
      HandleEachTotal(handle, handle(s, arrivals[0]).value, arrivals[1..]);
    }
  }
}

/**
 * Open.Nat/UpnpSearcher.cs: replies are filtered on the five service URNs,
 * the device is looked up by its description URI, and a new one is built
 * (which fetches its description) and registered under a URI key.
 */
module OpenNatUpnpSearcher {
  import opened Wrappers
  import opened Exceptions
  import opened Clock
  import opened Net
  import opened Uris
  import opened UpnpDeviceInfo
  import opened UpnpDevice
  import opened SsdpSearch
  import Ssdp
  import Sockets
  import opened Numbers

  datatype State = State(devices: map<Uri, Device>, lastFetched: map<IPAddress, DateTime>, nextSearch: DateTime)

  /** What Handle leaves: the state and the devices DeviceFound was raised for. */
  datatype Handled = Handled(state: State, found: seq<Device>)

  /** Which URI a new device is registered under: the one read after the
      device's construction, as written, or the one looked up before it. */
  datatype Revision = AsWritten | Intended

  /** The device info a reply announces: the first of the five URNs it
      contains, and its Location; None where Handle returns or throws
      before changing anything. */
  function Announced(localAddress: IPAddress, data: string): (r: Option<DeviceInfo>)
    ensures Ssdp.FindService(data, Ssdp.OpenNatServices).None? ==> r.None?
    ensures r.Some? ==> Ssdp.FindService(data, Ssdp.OpenNatServices).Some?
                        && r.value.serviceType == Ssdp.FindService(data, Ssdp.OpenNatServices).value
                        && r.value.localAddress == localAddress && r.value.serviceControlPart.None?
  {
    var urn :- Ssdp.FindService(data, Ssdp.OpenNatServices);
    match Ssdp.ExtractLocation(data)
    case Err(_) => None
    case Ok(location) =>
      match UpnpDeviceInfo.New(localAddress, location, urn)
      case Err(_) => None
      case Ok(info) => Some(info)
  }

  /** The key a new device is registered under. */
  function StoreKey(revision: Revision, announced: DeviceInfo, built: DeviceInfo): Uri
  {
    match revision
    case AsWritten => ServiceDescriptionUri(built)
    case Intended => ServiceDescriptionUri(announced)
  }

  /** FetchDeciceServiceListInfo: the device is built (its constructor
      fetches the description) and added; Dictionary.Add throws on a key
      already present. Any exception is logged and nothing changes. */
  function Fetch(revision: Revision, st: State, info: DeviceInfo, fetch: Uri -> DescriptionFetch,
                 parseIp: AddressParser, now: DateTime): (r: Handled)
    ensures r.state.lastFetched == st.lastFetched && r.state.nextSearch == st.nextSearch
    ensures r.found == [] ==> r.state == st
    ensures r.found != [] ==>
              && UpnpDevice.New(info, fetch(ServiceDescriptionUri(info)), parseIp, now).Ok?
              && var device := UpnpDevice.New(info, fetch(ServiceDescriptionUri(info)), parseIp, now).value;
                 var key := StoreKey(revision, info, device.info);
                 r.found == [device] && key !in st.devices && r.state.devices == st.devices[key := device]
    ensures UpnpDevice.New(info, fetch(ServiceDescriptionUri(info)), parseIp, now).Err? ==> r == Handled(st, [])
  {
    match UpnpDevice.New(info, fetch(ServiceDescriptionUri(info)), parseIp, now)
    case Err(_) => Handled(st, [])
    case Ok(device) =>
      var key := StoreKey(revision, info, device.info);
      if key in st.devices then Handled(st, [])
      else Handled(st.(devices := st.devices[key := device]), [device])
  }

  /** Handle(localAddress, response, endpoint) on the reply's text at
      instant 'now'. Every exception is caught inside, so the result is
      always a state. */
  function Handle(revision: Revision, st: State, localAddress: IPAddress, data: string, sender: IPEndPoint,
                  fetch: Uri -> DescriptionFetch, parseIp: AddressParser, now: DateTime): (r: Handled)
    ensures Announced(localAddress, data).None? ==> r == Handled(st, [])
    ensures Announced(localAddress, data).Some? ==>
              var key := ServiceDescriptionUri(Announced(localAddress, data).value);
              && (key in st.devices ==>
                    r == Handled(st.(devices := st.devices[key := Touch(st.devices[key], now)]), []))
              && (key !in st.devices && Throttled(st.lastFetched, sender.address, now) ==> r == Handled(st, []))
              && (key !in st.devices && !Throttled(st.lastFetched, sender.address, now) ==>
                    r.state.lastFetched == st.lastFetched[sender.address := now])
    ensures r.state.nextSearch == st.nextSearch
    ensures |r.found| <= 1
    ensures r.found == [] ==> r.state.devices.Keys == st.devices.Keys
    ensures r.found != [] ==> exists key :: key !in st.devices && r.state.devices == st.devices[key := r.found[0]]
  {
    match Announced(localAddress, data)
    case None => Handled(st, [])
    case Some(info) =>
      var key := ServiceDescriptionUri(info);
      if key in st.devices then
        Handled(st.(devices := st.devices[key := Touch(st.devices[key], now)]), [])
      else if Throttled(st.lastFetched, sender.address, now) then Handled(st, [])
      else
        var recorded := st.(lastFetched := st.lastFetched[sender.address := now]);
        if HostEndPoint(info, parseIp).Err? then Handled(recorded, [])
        else
          var r := Fetch(revision, recorded, info, fetch, parseIp, now);
          assert r.found != [] ==> StoreKey(revision, info, r.found[0].info) !in st.devices;
          r
  }

  /** A first reply from an unthrottled source whose device can be built
      registers it under the revision's key and reports it. */
  lemma FirstReplyRegisters(revision: Revision, st: State, localAddress: IPAddress, data: string, sender: IPEndPoint,
                            fetch: Uri -> DescriptionFetch, parseIp: AddressParser, now: DateTime)
    requires Announced(localAddress, data).Some?
    requires var info := Announced(localAddress, data).value;
             && ServiceDescriptionUri(info) !in st.devices
             && !Throttled(st.lastFetched, sender.address, now)
             && parseIp(info.ip).Some?
             && UpnpDevice.New(info, fetch(ServiceDescriptionUri(info)), parseIp, now).Ok?
             && StoreKey(revision, info, UpnpDevice.New(info, fetch(ServiceDescriptionUri(info)), parseIp, now).value.info) !in st.devices
    ensures var info := Announced(localAddress, data).value;
            var built := UpnpDevice.New(info, fetch(ServiceDescriptionUri(info)), parseIp, now).value;
            var r := Handle(revision, st, localAddress, data, sender, fetch, parseIp, now);
            && r.found == [built]
            && r.state.devices == st.devices[StoreKey(revision, info, built.info) := built]
            && r.state.lastFetched == st.lastFetched[sender.address := now]
  {
  }

  /** As written, a reply whose rebuilt device's key is already taken
      reports nothing and leaves the devices as they were. */
  lemma RepeatIsLost(st: State, localAddress: IPAddress, data: string, sender: IPEndPoint,
                     fetch: Uri -> DescriptionFetch, parseIp: AddressParser, now: DateTime)
    requires Announced(localAddress, data).Some?
    requires var info := Announced(localAddress, data).value;
             && ServiceDescriptionUri(info) !in st.devices
             && !Throttled(st.lastFetched, sender.address, now)
             && parseIp(info.ip).Some?
             && UpnpDevice.New(info, fetch(ServiceDescriptionUri(info)), parseIp, now).Ok?
             && ServiceDescriptionUri(UpnpDevice.New(info, fetch(ServiceDescriptionUri(info)), parseIp, now).value.info) in st.devices
    ensures var r := Handle(AsWritten, st, localAddress, data, sender, fetch, parseIp, now);
            r.found == [] && r.state.devices == st.devices
  {
  }

  /** As written: when the description re-targets the device to the host of
      an absolute controlURL, the device is registered under that host's URI.
      The next reply from the router, 20 seconds or more later, looks up the
      announced URI, misses it, builds the device again and fails to add
      it, so the registered device is never touched and nothing is
      reported. */
  lemma RetargetedDeviceIsNeverTouched(st: State, localAddress: IPAddress, data: string, sender: IPEndPoint,
                                       fetch: Uri -> DescriptionFetch, parseIp: AddressParser,
                                       first: DateTime, second: DateTime)
    requires Announced(localAddress, data).Some?
    requires var info := Announced(localAddress, data).value;
             && ServiceDescriptionUri(info) !in st.devices
             && !Throttled(st.lastFetched, sender.address, first)
             && parseIp(info.ip).Some?
             && UpnpDevice.New(info, fetch(ServiceDescriptionUri(info)), parseIp, first).Ok?
             && ServiceDescriptionUri(UpnpDevice.New(info, fetch(ServiceDescriptionUri(info)), parseIp, first).value.info)
                !in st.devices
             && ServiceDescriptionUri(UpnpDevice.New(info, fetch(ServiceDescriptionUri(info)), parseIp, first).value.info)
                != ServiceDescriptionUri(info)
    requires first <= second && second - first >= FetchInterval
    ensures var once := Handle(AsWritten, st, localAddress, data, sender, fetch, parseIp, first);
            var twice := Handle(AsWritten, once.state, localAddress, data, sender, fetch, parseIp, second);
            && |once.found| == 1
            && twice.found == [] && twice.state.devices == once.state.devices
  {
    var info := Announced(localAddress, data).value;
    var key := ServiceDescriptionUri(info);
    var built := UpnpDevice.New(info, fetch(key), parseIp, first).value;
    FirstReplyRegisters(AsWritten, st, localAddress, data, sender, fetch, parseIp, first);
    var once := Handle(AsWritten, st, localAddress, data, sender, fetch, parseIp, first);
    assert once.state.devices == st.devices[ServiceDescriptionUri(built.info) := built];
    assert once.state.lastFetched[sender.address] == first;
    assert UpnpDevice.New(info, fetch(key), parseIp, second).value.info == built.info;
    RepeatIsLost(once.state, localAddress, data, sender, fetch, parseIp, second);
  }

  /** Intended: the device is registered under the URI the router announces,
      so its next reply touches it. */
  lemma IntendedDeviceIsTouched(st: State, localAddress: IPAddress, data: string, sender: IPEndPoint,
                                fetch: Uri -> DescriptionFetch, parseIp: AddressParser,
                                first: DateTime, second: DateTime)
    requires Announced(localAddress, data).Some?
    requires var info := Announced(localAddress, data).value;
             && ServiceDescriptionUri(info) !in st.devices
             && !Throttled(st.lastFetched, sender.address, first)
             && parseIp(info.ip).Some?
             && UpnpDevice.New(info, fetch(ServiceDescriptionUri(info)), parseIp, first).Ok?
    ensures var key := ServiceDescriptionUri(Announced(localAddress, data).value);
            var once := Handle(Intended, st, localAddress, data, sender, fetch, parseIp, first);
            var twice := Handle(Intended, once.state, localAddress, data, sender, fetch, parseIp, second);
            && |once.found| == 1 && key in once.state.devices
            && twice.found == [] && key in twice.state.devices && twice.state.devices[key].lastSeen == second
            && twice.state.devices[key].info == once.state.devices[key].info
  {
    var info := Announced(localAddress, data).value;
    var key := ServiceDescriptionUri(info);
    FirstReplyRegisters(Intended, st, localAddress, data, sender, fetch, parseIp, first);
  }

  /** Search's state update. */
  function SetNextSearch(st: State, next: DateTime): State
  {
    st.(nextSearch := next)
  }

  /** One datagram handed to Handle: its bytes as text (Encoding.UTF8's
      decoding is the parameter 'decode'), the devices found so far kept. */
  function Step(revision: Revision, decode: seq<byte> -> string, fetch: Uri -> DescriptionFetch,
                parseIp: AddressParser, now: DateTime): (Handled, Sockets.Arrival) -> Fallible<Handled>
  {
    (h: Handled, a: Sockets.Arrival) =>
      var r := Handle(revision, h.state, a.localAddress, decode(a.datagram.data), a.datagram.sender, fetch, parseIp, now);
      Ok(Handled(r.state, h.found + r.found))
  }

  /** Receive never fails with this searcher's Handle, whatever arrives. */
  lemma ReceiveNeverFails(revision: Revision, h: Handled, sockets: seq<Sockets.UdpSocket>, decode: seq<byte> -> string,
                          fetch: Uri -> DescriptionFetch, parseIp: AddressParser, now: DateTime)
    ensures Sockets.Receive(Step(revision, decode, fetch, parseIp, now), h, sockets).Ok?
  {
    HandleEachTotal(Step(revision, decode, fetch, parseIp, now), h, Sockets.Arrivals(sockets));
  }
}

/**
 * src/Mono.Nat/UpnpSearcher.cs: replies are filtered on three ":1" URNs, the
 * device is built from the reply (the constructor of
 * src/Open.Nat/Upnp/UpnpNatDevice.cs, whose Mono.Nat twin is not part of
 * this model) and compared with the known ones by Equals.
 */
module MonoUpnpSearcher {
  import opened Wrappers
  import opened Exceptions
  import opened Clock
  import opened Net
  import opened Uris
  import opened UpnpDeviceInfo
  import opened ProxiedUpnpDevice
  import opened SsdpSearch
  import Ssdp
  import Sockets
  import opened Numbers

  datatype State = State(devices: seq<Device>, lastFetched: map<IPAddress, DateTime>, nextSearch: DateTime)

  datatype Handled = Handled(state: State, found: seq<Device>)

  /** List.IndexOf: the first known device equal to d, -1 when there is
      none. Equals reads both HostEndPoints, so a host that is not an
      address throws FormatException when it is reached. */
  function IndexOf(devices: seq<Device>, d: Device, parseIp: AddressParser): (r: Fallible<int>)
    ensures r.Ok? ==> -1 <= r.value < |devices|
    ensures r.Ok? ==> forall j :: 0 <= j < |devices| && (r.value == -1 || j < r.value) ==>
                        Equals(devices[j], d, parseIp) == Ok(false)
    ensures r.Ok? && r.value >= 0 ==> Equals(devices[r.value], d, parseIp) == Ok(true)
    ensures r.Err? ==> exists j :: 0 <= j < |devices| && Equals(devices[j], d, parseIp).Err?
    decreases |devices|
  {
    if |devices| == 0 then Ok(-1)
    else
      var here :- Equals(devices[0], d, parseIp);
      if here then Ok(0)
      else
        var k := IndexOf(devices[1..], d, parseIp);
        assert forall j :: 1 <= j < |devices| ==> devices[j] == devices[1..][j - 1];
        match k
        case Err(e) => Err(e)
        case Ok(i) => if i == -1 then Ok(-1) else Ok(i + 1)
  }

  /** No two known devices are equal. */
  predicate Distinct(devices: seq<Device>, parseIp: AddressParser)
  {
    forall i, j :: 0 <= i < j < |devices| ==> Equals(devices[i], devices[j], parseIp) != Ok(true)
  }

  /** DeviceSetupComplete: the device is added unless an equal one is
      known, and DeviceFound is raised exactly when it was added. */
  function DeviceSetupComplete(devices: seq<Device>, d: Device, parseIp: AddressParser): (r: Fallible<(seq<Device>, seq<Device>)>)
    ensures r.Ok? <==> IndexOf(devices, d, parseIp).Ok?
    ensures r.Ok? ==> (r.value.1 == [d] <==> IndexOf(devices, d, parseIp) == Ok(-1))
    ensures r.Ok? && r.value.1 == [] ==> r.value.0 == devices
    ensures r.Ok? && r.value.1 != [] ==> r.value.1 == [d] && r.value.0 == devices + [d]
    ensures r.Ok? && Distinct(devices, parseIp) ==> Distinct(r.value.0, parseIp)
  {
    var i :- IndexOf(devices, d, parseIp);
    if i >= 0 then Ok((devices, []))
    else
      var added := devices + [d];
      assert Distinct(devices, parseIp) ==> Distinct(added, parseIp) by {
        if Distinct(devices, parseIp) {
          forall a, b | 0 <= a < b < |added| ensures Equals(added[a], added[b], parseIp) != Ok(true) {
            if b == |devices| {
              assert added[a] == devices[a] && added[b] == d;
            } else {
              assert added[a] == devices[a] && added[b] == devices[b];
            }
          }
        }
      }
      Ok((added, [d]))
  }

  /** Handle(localAddress, response, endpoint) on the reply's text at
      instant 'now'; the description fetch of GetServicesList is the oracle
      'fetch'. Every exception is caught inside. */
  function Handle(st: State, localAddress: IPAddress, data: string, sender: IPEndPoint,
                  fetch: Uri -> DescriptionFetch, parseIp: AddressParser, now: DateTime): (r: Handled)
    ensures Ssdp.FindService(data, Ssdp.MonoNatServices).None? ==> r == Handled(st, [])
    ensures r.state.nextSearch == st.nextSearch
    ensures |r.found| <= 1
    ensures |r.state.devices| == |st.devices| + |r.found|
    ensures r.found != [] ==> r.state.devices == st.devices + r.found
    ensures Distinct(st.devices, parseIp) ==> Distinct(r.state.devices, parseIp)
  {
    match Ssdp.FindService(data, Ssdp.MonoNatServices)
    case None => Handled(st, [])
    case Some(urn) =>
      match ProxiedUpnpDevice.New(localAddress, data, urn, now)
      case Err(_) => Handled(st, [])
      case Ok(device) => Admit(st, device, sender, fetch, parseIp, now)
  }

  /** The part of Handle after the device is built: touch a known device,
      hold back a throttled source, or record the fetch, resolve the
      services and complete the setup. */
  function Admit(st: State, device: Device, sender: IPEndPoint, fetch: Uri -> DescriptionFetch,
                 parseIp: AddressParser, now: DateTime): (r: Handled)
    ensures IndexOf(st.devices, device, parseIp).Ok? && IndexOf(st.devices, device, parseIp).value >= 0 ==>
              var i := IndexOf(st.devices, device, parseIp).value;
              r == Handled(st.(devices := st.devices[i := st.devices[i].(lastSeen := now)]), [])
    ensures IndexOf(st.devices, device, parseIp) == Ok(-1) && Throttled(st.lastFetched, sender.address, now) ==>
              r == Handled(st, [])
    ensures IndexOf(st.devices, device, parseIp) == Ok(-1) && !Throttled(st.lastFetched, sender.address, now) ==>
              r.state.lastFetched == st.lastFetched[sender.address := now]
    ensures r.state.nextSearch == st.nextSearch
    ensures |r.found| <= 1
    ensures |r.state.devices| == |st.devices| + |r.found|
    ensures r.found != [] ==> r.state.devices == st.devices + r.found
    ensures Distinct(st.devices, parseIp) ==> Distinct(r.state.devices, parseIp)
  {
    match IndexOf(st.devices, device, parseIp)
    case Err(_) => Handled(st, [])
    case Ok(i) =>
      if i >= 0 then
        var touched := st.devices[i := st.devices[i].(lastSeen := now)];
        TouchKeepsDistinct(st.devices, i, now, parseIp);
        Handled(st.(devices := touched), [])
      else if Throttled(st.lastFetched, sender.address, now) then Handled(st, [])
      else
        var recorded := st.(lastFetched := st.lastFetched[sender.address := now]);
        if HostEndPoint(device.info, parseIp).Err? then Handled(recorded, [])
        else
          match ProxiedUpnpDevice.GetServicesList(device, fetch(ServiceDescriptionUri(device.info)), parseIp)
          case Err(_) => Handled(recorded, [])
          case Ok(resolved) =>
            match DeviceSetupComplete(recorded.devices, resolved, parseIp)
            case Err(_) => Handled(recorded, [])
            case Ok(result) => Handled(recorded.(devices := result.0), result.1)
  }

  /** Touching a device does not change what it equals. */
  lemma TouchKeepsDistinct(devices: seq<Device>, i: nat, now: DateTime, parseIp: AddressParser)
    requires i < |devices|
    ensures Distinct(devices, parseIp) ==> Distinct(devices[i := devices[i].(lastSeen := now)], parseIp)
  {
    var touched := devices[i := devices[i].(lastSeen := now)];
    if Distinct(devices, parseIp) {
      forall a, b | 0 <= a < b < |touched| ensures Equals(touched[a], touched[b], parseIp) != Ok(true) {
        assert Equals(touched[a], touched[b], parseIp) == Equals(devices[a], devices[b], parseIp);
      }
    }
  }

  /** Search's state update. */
  function SetNextSearch(st: State, next: DateTime): State
  {
    st.(nextSearch := next)
  }

  /** One datagram handed to Handle, as in the Open.Nat searcher. */
  function Step(decode: seq<byte> -> string, fetch: Uri -> DescriptionFetch,
                parseIp: AddressParser, now: DateTime): (Handled, Sockets.Arrival) -> Fallible<Handled>
  {
    (h: Handled, a: Sockets.Arrival) =>
      var r := Handle(h.state, a.localAddress, decode(a.datagram.data), a.datagram.sender, fetch, parseIp, now);
      Ok(Handled(r.state, h.found + r.found))
  }

  /** Receive never fails with this searcher's Handle, whatever arrives. */
  lemma ReceiveNeverFails(h: Handled, sockets: seq<Sockets.UdpSocket>, decode: seq<byte> -> string,
                          fetch: Uri -> DescriptionFetch, parseIp: AddressParser, now: DateTime)
    ensures Sockets.Receive(Step(decode, fetch, parseIp, now), h, sockets).Ok?
  {
    HandleEachTotal(Step(decode, fetch, parseIp, now), h, Sockets.Arrivals(sockets));
  }
}
