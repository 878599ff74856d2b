/**
 * UpnpNatDeviceInfo: where a UPnP gateway lives (host, port and the path of
 * its description document, taken from the SSDP Location URI) and where its
 * WAN connection service is controlled (the controlURL of the service whose
 * type was advertised). The description document is fetched over HTTP; the
 * model receives the fetch's result, with the services of every serviceList
 * flattened in document order.
 */
module UpnpDeviceInfo {
  import opened Wrappers
  import opened Exceptions
  import opened Text
  import opened Net
  import opened Uris

  /** IPAddress.Parse: the address a host text denotes, None where it throws
      FormatException. Its grammar is a parameter of the model. */
  type AddressParser = string -> Option<IPAddress>

  /** The properties of UpnpNatDeviceInfo. ServiceControlPart is null (None)
      until a matching service has been seen. */
  datatype DeviceInfo = DeviceInfo(
    localAddress: IPAddress,
    ip: string,
    port: int,
    serviceDescriptionPart: string,
    serviceType: string,
    serviceControlPart: Option<string>)

  /** One service element of a serviceList: its serviceType and controlURL texts. */
  datatype Service = Service(serviceType: string, controlUrl: string)

  /** What fetching the description document gave: an HTTP response with its
      status code and services, or the exception GetResponse threw. */
  datatype DescriptionFetch =
    | Fetched(status: int, services: seq<Service>)
    | FetchFailed(error: Exception)

  const StatusOK: int := 200

  /** new UpnpNatDeviceInfo(localAddress, location, serviceType): the location
      URI's host, port and absolute path; UriFormatException for a location
      that is not a URI. */
  function New(localAddress: IPAddress, location: string, serviceType: string): (r: Fallible<DeviceInfo>)
    ensures r.Ok? <==> IsWellFormed(location)
    ensures r.Err? ==> r.error == UriFormat
    ensures r.Ok? ==> (r.value.localAddress == localAddress && r.value.serviceType == serviceType
      && r.value.serviceControlPart == None
      && Canonical(Uri(r.value.ip, r.value.port, r.value.serviceDescriptionPart)))
  {
    var u :- Parse(location);
    Ok(DeviceInfo(localAddress, u.host, u.port, u.path, serviceType, None))
  }

  /** HostEndPoint: the parsed Ip with the Port; FormatException when Ip is
      not an address. */
  function HostEndPoint(d: DeviceInfo, parseIp: AddressParser): (r: Fallible<IPEndPoint>)
    ensures r.Ok? <==> parseIp(d.ip).Some?
    ensures r.Ok? ==> r.value == IPEndPoint(parseIp(d.ip).value, d.port)
    ensures r.Err? ==> r.error == Format
  {
    match parseIp(d.ip)
    case Some(a) => Ok(IPEndPoint(a, d.port))
    case None => Err(Format)
  }

  /** ServiceControlUri: UriBuilder("http", Ip, Port, ServiceControlPart). */
  function ServiceControlUri(d: DeviceInfo): (r: Uri)
    ensures r.host == d.ip && r.port == d.port
    ensures d.serviceControlPart == None ==> r.path == "/"
  {
    Build(d.ip, d.port, if d.serviceControlPart.Some? then d.serviceControlPart.value else "")
  }

  /** ServiceDescriptionUri: UriBuilder("http", Ip, Port, ServiceDescriptionPart). */
  function ServiceDescriptionUri(d: DeviceInfo): (r: Uri)
    ensures r.host == d.ip && r.port == d.port
  {
    Build(d.ip, d.port, d.serviceDescriptionPart)
  }

  /** What resolving the control URL never changes: the local address, the
      advertised service type and the description path. */
  predicate Keeps(before: DeviceInfo, after: DeviceInfo)
  {
    after.localAddress == before.localAddress && after.serviceType == before.serviceType
    && after.serviceDescriptionPart == before.serviceDescriptionPart
  }

  /** The loop body for one service. A service of another type changes
      nothing. A matching one sets ServiceControlPart to its controlURL; when
      that is an absolute URI, Ip and Port are re-targeted to its host and
      port and ServiceControlPart keeps the text after its authority (the
      Substring by the length of GetLeftPart(Authority)); the log line that
      follows reads HostEndPoint of the new host. This is the order of
      Open.Nat/Upnp/UpnpNatDeviceInfo.cs:105-109. The GetServicesListAsync
      copy (Open.Nat/Upnp/UpnpServiceProxy.cs:171-174) reads the new
      HostEndPoint before the Substring, so when both fail it throws
      FormatException where this gives ArgumentOutOfRangeException. */
  function ResolveService(d: DeviceInfo, s: Service, parseIp: AddressParser): (r: Fallible<DeviceInfo>)
    ensures !EqualsIgnoreCase(s.serviceType, d.serviceType) ==> r == Ok(d)
    ensures r.Ok? ==> Keeps(d, r.value)
    ensures EqualsIgnoreCase(s.serviceType, d.serviceType) && !IsWellFormed(s.controlUrl) ==>
      r == Ok(d.(serviceControlPart := Some(s.controlUrl)))
  {
    if !EqualsIgnoreCase(s.serviceType, d.serviceType) then Ok(d)
    else
      match Parse(s.controlUrl)
      case Err(_) => Ok(d.(serviceControlPart := Some(s.controlUrl)))
      case Ok(u) =>
        var cut := |LeftPart(u)|;
        if cut > |s.controlUrl| then Err(ArgumentOutOfRange("startIndex"))
        else
          var d' := d.(ip := u.host, port := u.port, serviceControlPart := Some(s.controlUrl[cut..]));
          if parseIp(u.host).None? then Err(Format) else Ok(d')
  }

  /** The foreach over the services in document order; an exception ends it. */
  function ResolveAll(d: DeviceInfo, services: seq<Service>, parseIp: AddressParser): (r: Fallible<DeviceInfo>)
    ensures r.Ok? ==> Keeps(d, r.value)
    decreases |services|
  {
    if |services| == 0 then Ok(d)
    else
      var d' :- ResolveAll(d, services[..|services| - 1], parseIp);
      ResolveService(d', services[|services| - 1], parseIp)
  }

  /** No service of the advertised type: nothing is resolved. */
  predicate NoMatch(services: seq<Service>, serviceType: string)
  {
    forall i :: 0 <= i < |services| ==> !EqualsIgnoreCase(services[i].serviceType, serviceType)
  }

  /** UpdateInfo() of Open.Nat/Upnp/UpnpNatDeviceInfo.cs: a status other than
      OK throws, an exception from the fetch is re-thrown (a WebException
      only after the catch's log line has read HostEndPoint, which throws
      FormatException of its own when Ip is not an address), and otherwise
      HostEndPoint is read for the log and the services are resolved in
      order. */
  function UpdateInfo(d: DeviceInfo, fetch: DescriptionFetch, parseIp: AddressParser): (r: Fallible<DeviceInfo>)
    ensures fetch.FetchFailed? && (!fetch.error.Web? || parseIp(d.ip).Some?) ==> r == Err(fetch.error)
    ensures fetch.FetchFailed? && fetch.error.Web? && parseIp(d.ip).None? ==> r == Err(Format)
    ensures fetch.Fetched? && fetch.status != StatusOK ==> r.Err? && r.error.General?
    ensures fetch.Fetched? && parseIp(d.ip).None? ==> r.Err?
    ensures r.Ok? ==> fetch.Fetched? && fetch.status == StatusOK
    ensures r.Ok? ==> Keeps(d, r.value)
  {
    match fetch
    case FetchFailed(e) =>
      if e.Web? then
        var _ :- HostEndPoint(d, parseIp);
        Err(e)
      else Err(e)
    case Fetched(status, services) =>
      if status != StatusOK then Err(General("Couldn't get services list"))
      else
        var _ :- HostEndPoint(d, parseIp);
        ResolveAll(d, services, parseIp)
  }

  /** GetServicesListAsync() of Open.Nat/Upnp/UpnpServiceProxy.cs: a status
      other than OK returns quietly and a WebException is swallowed after a
      log line that reads HostEndPoint; both leave the device info as it was.
      Other exceptions propagate. */
  function GetServicesList(d: DeviceInfo, fetch: DescriptionFetch, parseIp: AddressParser): (r: Fallible<DeviceInfo>)
    ensures fetch.Fetched? && fetch.status != StatusOK ==> r == Ok(d)
    ensures fetch.FetchFailed? && fetch.error.Web? && parseIp(d.ip).Some? ==> r == Ok(d)
    ensures fetch.FetchFailed? && fetch.error.Web? && parseIp(d.ip).None? ==> r == Err(Format)
    ensures fetch.FetchFailed? && !fetch.error.Web? ==> r == Err(fetch.error)
    ensures r.Ok? ==> Keeps(d, r.value)
  {
    match fetch
    case FetchFailed(e) =>
      if e.Web? then
        var _ :- HostEndPoint(d, parseIp);
        Ok(d)
      else Err(e)
    case Fetched(status, services) =>
      if status != StatusOK then Ok(d)
      else
        var _ :- HostEndPoint(d, parseIp);
        ResolveAll(d, services, parseIp)
  }

  // ------------------------------------------------------------------ lemmas

  /** The device info built from the text of a URI holds that URI's host,
      port and path, and its description URI is the location itself. */
  lemma NewOfLocation(localAddress: IPAddress, u: Uri, serviceType: string)
    requires Canonical(u)
    ensures New(localAddress, ToText(u), serviceType) == Ok(DeviceInfo(localAddress, u.host, u.port, u.path, serviceType, None))
    ensures ServiceDescriptionUri(New(localAddress, ToText(u), serviceType).value) == u
  {
    ParseToText(u);
  }

  /** A matching service whose controlURL is the text of an absolute URI
      re-targets the device to that URI's host and port and keeps its path as
      the control part, so the control URI is that URI. */
  lemma AbsoluteControlUrl(d: DeviceInfo, serviceType: string, u: Uri, parseIp: AddressParser)
    requires Canonical(u)
    requires EqualsIgnoreCase(serviceType, d.serviceType)
    requires parseIp(u.host).Some?
    ensures ResolveService(d, Service(serviceType, ToText(u)), parseIp)
      == Ok(d.(ip := u.host, port := u.port, serviceControlPart := Some(u.path)))
    ensures ServiceControlUri(ResolveService(d, Service(serviceType, ToText(u)), parseIp).value) == u
  {
    ParseToText(u);
  }

  /** Services of other types leave the device info untouched. */
  lemma {:induction false} UnmatchedServicesChangeNothing(d: DeviceInfo, services: seq<Service>, parseIp: AddressParser)
    requires NoMatch(services, d.serviceType)
    ensures ResolveAll(d, services, parseIp) == Ok(d)
    decreases |services|
  {
    if |services| > 0 {
      UnmatchedServicesChangeNothing(d, services[..|services| - 1], parseIp);
    }
  }

  /** Appending services of other types after a prefix does not change what
      the prefix resolved to. */
  lemma {:induction false} UnmatchedSuffix(d: DeviceInfo, prefix: seq<Service>, suffix: seq<Service>, parseIp: AddressParser)
    requires NoMatch(suffix, d.serviceType)
    ensures ResolveAll(d, prefix + suffix, parseIp) == ResolveAll(d, prefix, parseIp)
    decreases |suffix|
  {
    if |suffix| > 0 {
      var all := prefix + suffix;
      var shorter := suffix[..|suffix| - 1];
      assert all[..|all| - 1] == prefix + shorter;
      assert all[|all| - 1] == suffix[|suffix| - 1];
      assert NoMatch(shorter, d.serviceType) by {
        forall i | 0 <= i < |shorter| ensures !EqualsIgnoreCase(shorter[i].serviceType, d.serviceType) {
          assert shorter[i] == suffix[i];
        }
      }
      UnmatchedSuffix(d, prefix, shorter, parseIp);
      var last := suffix[|suffix| - 1];
      assert !EqualsIgnoreCase(last.serviceType, d.serviceType);
      var mid := ResolveAll(d, prefix + shorter, parseIp);
      if mid.Ok? {
        assert ResolveService(mid.value, last, parseIp) == Ok(mid.value);
        assert ResolveAll(d, all, parseIp) == ResolveService(mid.value, last, parseIp);
      } else {
        assert ResolveAll(d, all, parseIp) == Err(mid.error);
      }
    } else {
      assert prefix + suffix == prefix;
    }
  }

  /** The last matching service decides: whatever earlier services set is
      overwritten by it, and later services of other types do not count. */
  lemma LastMatchWins(d: DeviceInfo, before: seq<Service>, s: Service, after: seq<Service>, parseIp: AddressParser)
    requires EqualsIgnoreCase(s.serviceType, d.serviceType)
    requires NoMatch(after, d.serviceType)
    requires ResolveAll(d, before, parseIp).Ok?
    ensures ResolveAll(d, before + [s] + after, parseIp) == ResolveService(ResolveAll(d, before, parseIp).value, s, parseIp)
  {
    UnmatchedSuffix(d, before + [s], after, parseIp);
    assert (before + [s])[..|before|] == before;
  }

  /** On an OK response the two revisions resolve the same device info; they
      differ only on failures, where UpdateInfo throws and
      GetServicesListAsync keeps the device info. */
  lemma RevisionsAgreeOnSuccess(d: DeviceInfo, services: seq<Service>, parseIp: AddressParser)
    ensures UpdateInfo(d, Fetched(StatusOK, services), parseIp) == GetServicesList(d, Fetched(StatusOK, services), parseIp)
  {
  }
}
