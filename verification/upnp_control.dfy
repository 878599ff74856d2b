/**
 * One SOAP exchange with the router as the two request paths see it: the
 * catch that reads the response carried by a WebException
 * (SoapClient.InvokeAsync in Open.Nat, RequestAsync in Mono.Nat), then the
 * fault check and the lookup of the response element. Reading and decoding
 * the body's bytes is not modelled: a response carries the document its body
 * parses to.
 */
module UpnpExchange {
  import opened Wrappers
  import opened Exceptions
  import opened Numbers
  import opened Xml
  import opened UpnpResponse

  /** Any exception other than a WebException. */
  type NonWebException = e: Exception | !e.Web? witness Format

  /** An HTTP response: its status code, its announced ContentLength and the
      document its body holds (None for a body XmlDocument.LoadXml rejects). */
  datatype HttpResponse = HttpResponse(status: int, contentLength: int, document: Option<Element>)

  /** How GetResponseAsync ended: with a response, with a WebException (its
      Status and, for an HTTP error status, the response attached to it), or
      with some other exception. */
  datatype Exchange =
    | Answered(response: HttpResponse)
    | WebFailure(status: int, attached: Option<HttpResponse>)
    | OtherFailure(error: NonWebException)

  /** An exception that can leave the request code: anything but a
      WebException that carries a response. */
  predicate Unanswered(e: Exception)
  {
    !(e.Web? && e.hasResponse)
  }

  /** GetResponseAsync inside its catch: a WebException with a response is
      read like any answer, one without a response is re-thrown. */
  function Receive(exchange: Exchange): (r: Fallible<HttpResponse>)
    ensures r.Ok? <==> exchange.Answered? || (exchange.WebFailure? && exchange.attached.Some?)
    ensures r.Ok? && exchange.Answered? ==> r.value == exchange.response
    ensures r.Ok? && exchange.WebFailure? ==> r.value == exchange.attached.value
    ensures exchange.WebFailure? && exchange.attached.None? ==> r == Err(Web(false, exchange.status))
    ensures r.Err? ==> Unanswered(r.error)
  {
    match exchange
    case Answered(response) => Ok(response)
    case WebFailure(status, attached) =>
      if attached.Some? then Ok(attached.value) else Err(Web(false, status))
    case OtherFailure(e) => Err(e)
  }

  /** An answer read by Open.Nat: InvokeAsync returns the body, the response
      message's constructor loads it and runs the fault check, and GetNode
      finds the element named after the message type. */
  function ReadResponse(exchange: Exchange, serviceType: string, typeName: string): (r: Fallible<Element>)
    ensures r.Ok? ==> Receive(exchange).Ok? && MessageName(typeName).Ok?
                      && Named(r.value, serviceType, MessageName(typeName).value)
    ensures Receive(exchange).Err? ==> r == Err(Receive(exchange).error)
    ensures r.Err? ==> Unanswered(r.error)
  {
    var response :- Receive(exchange);
    var doc :- Load(response.document);
    GetNode(doc, serviceType, typeName)
  }

  /** RequestAsync<T> of Mono.Nat: the answer, decoded by Decode and cast to
      the message type the request expects. */
  function MonoRequest(expected: Expected, exchange: Exchange, serviceType: string): (r: Fallible<Response>)
    ensures r.Ok? ==> Matches(expected, r.value)
    ensures Receive(exchange).Err? ==> r == Err(Receive(exchange).error)
    ensures Receive(exchange).Ok? && Receive(exchange).value.document.None? ==> r == Err(Xml)
    ensures Receive(exchange).Ok? && Receive(exchange).value.document.Some? ==>
              r == Cast(expected, Decode(Receive(exchange).value.document.value, serviceType))
  {
    var response :- Receive(exchange);
    var doc :- Load(response.document);
    Cast(expected, Decode(doc, serviceType))
  }

  /** The fault element a router puts in the body of an error answer. */
  predicate CarriesFault(doc: Element, code: int32, description: string)
  {
    && Has(doc, ControlNs, "UPnPError")
    && var node := SelectSingleNode(doc, ControlNs, "UPnPError").value;
       ChildText(node, "errorCode") == Some(IntToString(code))
       && ChildText(node, "errorDescription") == Some(description)
  }

  /** A fault answer, even one delivered as an HTTP error inside a
      WebException, becomes the MappingException with its code and
      description, whatever response the caller waited for. */
  lemma MonoFaultAnswer(expected: Expected, status: int, response: HttpResponse, serviceType: string,
                        code: int32, description: string)
    requires response.document.Some? && CarriesFault(response.document.value, code, description)
    ensures MonoRequest(expected, WebFailure(status, Some(response)), serviceType) == Err(UpnpMapping(code, description))
    ensures MonoRequest(expected, Answered(response), serviceType) == Err(UpnpMapping(code, description))
  {
    FaultWinsOverResponse(response.document.value, serviceType, expected, code, description);
  }

  /** The same for Open.Nat: the fault check runs before the response element
      is looked up, so a fault answer fails with its code and description. */
  lemma FaultBeforeNode(exchange: Exchange, serviceType: string, typeName: string, code: int32, description: string)
    requires Receive(exchange).Ok? && Receive(exchange).value.document.Some?
    requires CarriesFault(Receive(exchange).value.document.value, code, description)
    ensures ReadResponse(exchange, serviceType, typeName) == Err(UpnpMapping(code, description))
  {
    IntToStringRoundTrip(code);
  }
}

/**
 * The GetGenericPortMappingEntry enumeration both revisions run: index 0, 1,
 * 2, ... is requested until an answer is not an entry. Error 713 (the index
 * is past the last entry) ends it normally; any other failure propagates.
 * The router's answers are a sequence, the i-th being its reply to index i.
 */
module MappingEnumeration {
  import opened Wrappers
  import opened Exceptions
  import opened Numbers
  import opened Net

  /** The values GetGenericPortMappingEntryResponseMessage reads from an entry
      answer. Reading them from the answer's node is not part of this model. */
  datatype Entry = Entry(protocol: Protocol, internalPort: int32, externalPort: int32,
                         leaseDuration: int32, description: string)

  /** UPnP IGD error 713, SpecifiedArrayIndexInvalid. */
  const SpecifiedArrayIndexInvalid: int := 713
  /** UPnP IGD error 714, NoSuchEntryInArray. */
  const NoSuchEntryInArray: int := 714

  /** An answer that ends the loop: a failed request, or an entry the Mapping
      constructor (the conversion) rejects. */
  predicate Stops<M>(answer: Fallible<Entry>, convert: Entry -> Fallible<M>)
  {
    answer.Err? || convert(answer.value).Err?
  }

  /** The exception that ends the loop at a stopping answer. */
  function StopError<M>(answer: Fallible<Entry>, convert: Entry -> Fallible<M>): Exception
    requires Stops(answer, convert)
  {
    if answer.Err? then answer.error else convert(answer.value).error
  }

  /** The loop ends: some answer stops it. */
  predicate Terminates<M>(answers: seq<Fallible<Entry>>, convert: Entry -> Fallible<M>)
  {
    exists k :: 0 <= k < |answers| && Stops(answers[k], convert)
  }

  lemma TerminatesTail<M>(answers: seq<Fallible<Entry>>, convert: Entry -> Fallible<M>)
    requires Terminates(answers, convert) && !Stops(answers[0], convert)
    ensures Terminates(answers[1..], convert)
  {
    var k :| 0 <= k < |answers| && Stops(answers[k], convert);
    assert answers[1..][k - 1] == answers[k];
  }

  /** The index at which the loop ends. */
  function FirstStop<M>(answers: seq<Fallible<Entry>>, convert: Entry -> Fallible<M>): (k: nat)
    requires Terminates(answers, convert)
    ensures k < |answers| && Stops(answers[k], convert)
    ensures forall i :: 0 <= i < k ==> !Stops(answers[i], convert)
    decreases |answers|
  {
    if Stops(answers[0], convert) then 0
    else
      TerminatesTail(answers, convert);
      var k := FirstStop(answers[1..], convert);
      assert forall i :: 1 <= i < k + 1 ==> answers[i] == answers[1..][i - 1];
      k + 1
  }

  /** GetAllMappingsAsync's loop over the answers to indices 0, 1, 2, ...
      received so far: None while no answer has stopped it (the loop goes on
      asking); otherwise the entries before the first stopping answer,
      converted, in index order, when that answer is error 713, and the
      exception that stopped it when it is anything else. */
  function GetAll<M>(answers: seq<Fallible<Entry>>, convert: Entry -> Fallible<M>): (r: Option<Fallible<seq<M>>>)
    ensures r.Some? <==> Terminates(answers, convert)
    ensures r.Some? ==>
            var k := FirstStop(answers, convert);
            && (r.value.Ok? <==> HasErrorCode(StopError(answers[k], convert), SpecifiedArrayIndexInvalid))
            && (r.value.Err? ==> r.value.error == StopError(answers[k], convert))
            && (r.value.Ok? ==> |r.value.value| == k
                                && forall i :: 0 <= i < k ==> convert(answers[i].value) == Ok(r.value.value[i]))
    decreases |answers|
  {
    if |answers| == 0 then None
    else if Stops(answers[0], convert) then
      var e := StopError(answers[0], convert);
      Some(if HasErrorCode(e, SpecifiedArrayIndexInvalid) then Ok([]) else Err(e))
    else
      assert Terminates(answers, convert) <==> Terminates(answers[1..], convert) by {
        if Terminates(answers, convert) { TerminatesTail(answers, convert); }
        if Terminates(answers[1..], convert) {
          var k :| 0 <= k < |answers[1..]| && Stops(answers[1..][k], convert);
          assert answers[k + 1] == answers[1..][k];
        }
      }
      match GetAll(answers[1..], convert)
      case None => None
      case Some(Err(e)) => Some(Err(e))
      case Some(Ok(rest)) =>
        assert forall i :: 1 <= i < |answers| ==> answers[i] == answers[1..][i - 1];
        Some(Ok([convert(answers[0].value).value] + rest))
  }

  /** As written, a router that answers every index with an entry the
      conversion accepts is never done with: however many answers arrive,
      the loop asks for the next index. */
  lemma {:induction false} EndlessEntriesNeverEnd<M>(answers: seq<Fallible<Entry>>, convert: Entry -> Fallible<M>)
    requires forall i :: 0 <= i < |answers| ==> answers[i].Ok? && convert(answers[i].value).Ok?
    ensures GetAll(answers, convert) == None
  {
    assert forall k :: 0 <= k < |answers| ==> !Stops(answers[k], convert);
  }

  /** The largest number of entries a gateway can hold: the index argument
      NewPortMappingIndex and PortMappingNumberOfEntries are 16-bit unsigned
      (ui2) in the WANIPConnection service template. */
  const MaxEntries: nat := 0x1_0000

  /** The enumeration with the bound the index type implies: it stops like
      GetAll, and also once 'limit' entries have been read, with those
      entries. */
  function GetAllBounded<M>(answers: seq<Fallible<Entry>>, convert: Entry -> Fallible<M>, limit: nat): (r: Option<Fallible<seq<M>>>)
    decreases limit
  {
    if limit == 0 then Some(Ok([]))
    else if |answers| == 0 then None
    else if Stops(answers[0], convert) then
      var e := StopError(answers[0], convert);
      Some(if HasErrorCode(e, SpecifiedArrayIndexInvalid) then Ok([]) else Err(e))
    else
      match GetAllBounded(answers[1..], convert, limit - 1)
      case None => None
      case Some(Err(e)) => Some(Err(e))
      case Some(Ok(rest)) => Some(Ok([convert(answers[0].value).value] + rest))
  }

  /** The bounded enumeration always ends once 'limit' answers have arrived,
      whatever the router answers, and returns at most 'limit' mappings. */
  lemma {:induction false} BoundedEnds<M>(answers: seq<Fallible<Entry>>, convert: Entry -> Fallible<M>, limit: nat)
    requires |answers| >= limit
    ensures GetAllBounded(answers, convert, limit).Some?
    ensures GetAllBounded(answers, convert, limit).value.Ok? ==> |GetAllBounded(answers, convert, limit).value.value| <= limit
    decreases limit
  {
    if limit > 0 && !Stops(answers[0], convert) {
      BoundedEnds(answers[1..], convert, limit - 1);
    }
  }

  /** A router that stops the enumeration before the bound is listed
      exactly as the unbounded loop lists it. */
  lemma {:induction false} BoundedAgrees<M>(answers: seq<Fallible<Entry>>, convert: Entry -> Fallible<M>, limit: nat)
    requires Terminates(answers, convert) && FirstStop(answers, convert) < limit
    ensures GetAllBounded(answers, convert, limit) == GetAll(answers, convert)
    decreases limit
  {
    if !Stops(answers[0], convert) {
      TerminatesTail(answers, convert);
      var k := FirstStop(answers[1..], convert);
      assert answers[1..][k] == answers[k + 1];
      assert forall i :: 0 <= i < k ==> answers[1..][i] == answers[i + 1];
      FirstStopUnique(answers, convert, k + 1);
      BoundedAgrees(answers[1..], convert, limit - 1);
    }
  }

  /** The first stopping answer is the one before which nothing stops. */
  lemma FirstStopUnique<M>(answers: seq<Fallible<Entry>>, convert: Entry -> Fallible<M>, k: nat)
    requires k < |answers| && Stops(answers[k], convert)
    requires forall i :: 0 <= i < k ==> !Stops(answers[i], convert)
    ensures FirstStop(answers, convert) == k
  {
  }

  /** An endless router is cut off at the bound: after MaxEntries accepted
      entries the bounded enumeration returns them. */
  lemma EndlessEntriesAreCut<M>(answers: seq<Fallible<Entry>>, convert: Entry -> Fallible<M>)
    requires |answers| >= MaxEntries
    requires forall i :: 0 <= i < |answers| ==> answers[i].Ok? && convert(answers[i].value).Ok?
    ensures GetAllBounded(answers, convert, MaxEntries).Some?
    ensures GetAllBounded(answers, convert, MaxEntries).value.Ok?
    ensures GetAll(answers, convert) == None
  {
    BoundedEnds(answers, convert, MaxEntries);
    NoStopIsOk(answers, convert, MaxEntries);
    EndlessEntriesNeverEnd(answers, convert);
  }

  lemma {:induction false} NoStopIsOk<M>(answers: seq<Fallible<Entry>>, convert: Entry -> Fallible<M>, limit: nat)
    requires |answers| >= limit
    requires forall i :: 0 <= i < |answers| ==> answers[i].Ok? && convert(answers[i].value).Ok?
    ensures GetAllBounded(answers, convert, limit) != None
    ensures GetAllBounded(answers, convert, limit).value.Ok?
    decreases limit
  {
    if limit > 0 {
      assert !Stops(answers[0], convert);
      assert forall i :: 0 <= i < |answers[1..]| ==> answers[1..][i] == answers[i + 1];
      NoStopIsOk(answers[1..], convert, limit - 1);
    }
  }

  /** A router's replies for a table of entries: each entry in turn, then
      error 713 at index |table|, then anything. */
  function Replies(table: seq<Entry>, description: string): (r: seq<Fallible<Entry>>)
    ensures |r| == |table| + 1
  {
    seq(|table|, i requires 0 <= i < |table| => Ok(table[i]))
      + [Err(UpnpMapping(SpecifiedArrayIndexInvalid, description))]
  }

  /** With a table of N entries the conversion accepts, exactly N mappings
      are returned, the i-th converted from entry i. */
  lemma ListsTable<M>(table: seq<Entry>, description: string, later: seq<Fallible<Entry>>,
                      convert: Entry -> Fallible<M>)
    requires forall i :: 0 <= i < |table| ==> convert(table[i]).Ok?
    ensures Terminates(Replies(table, description) + later, convert)
    ensures var r := GetAll(Replies(table, description) + later, convert);
            r.Some? && r.value.Ok? && |r.value.value| == |table|
            && forall i :: 0 <= i < |table| ==> Ok(r.value.value[i]) == convert(table[i])
  {
    var answers := Replies(table, description) + later;
    assert answers[|table|] == Err(UpnpMapping(SpecifiedArrayIndexInvalid, description));
    assert Stops(answers[|table|], convert);
    forall i | 0 <= i < |table| ensures answers[i] == Ok(table[i]) && !Stops(answers[i], convert) {
      assert answers[i] == Replies(table, description)[i];
    }
    var k := FirstStop(answers, convert);
    assert k == |table|;
  }
}

/**
 * The mapping operations of UpnpServiceProxy in Open.Nat: each entry answer
 * is turned into a Mapping by the validating five-argument constructor, and
 * a 714 answer to a specific-entry request takes the (Tcp, -1, -1) path.
 */
module OpenNatProxy {
  import opened Wrappers
  import opened Exceptions
  import opened Numbers
  import opened Clock
  import opened Net
  import opened OpenNatMapping
  import opened MappingEnumeration

  /** new Mapping(Protocol, InternalPort, ExternalPort, LeaseDuration,
      PortMappingDescription) of an entry answer. */
  function ToMapping(e: Entry, now: DateTime): (r: Fallible<Mapping>)
    ensures r.Ok? ==> ValidArguments(e.protocol, e.internalPort, e.externalPort, e.leaseDuration)
    ensures !(0 <= e.internalPort <= MaxUInt16) ==> r == Err(ArgumentOutOfRange("privatePort"))
    ensures r.Ok? ==> r.value.protocol == e.protocol && r.value.privatePort == e.internalPort
                      && r.value.publicPort == e.externalPort && r.value.lifetime == e.leaseDuration
                      && r.value.description == e.description
  {
    NewWithLifetime(e.protocol, e.internalPort, e.externalPort, e.leaseDuration, e.description, now)
  }

  function Converter(now: DateTime): Entry -> Fallible<Mapping>
  {
    e => ToMapping(e, now)
  }

  /** GetSpecificMappingAsync as written: an entry is converted; a
      MappingException other than 714 is re-thrown, and 714 builds the
      sentinel Mapping(Tcp, -1, -1) with the public constructor. */
  function GetSpecificMapping(answer: Fallible<Entry>, now: DateTime): (r: Fallible<Mapping>)
    ensures answer.Ok? ==> r == ToMapping(answer.value, now)
    ensures answer.Err? && !HasErrorCode(answer.error, NoSuchEntryInArray) ==> r == Err(answer.error)
    ensures answer.Err? && HasErrorCode(answer.error, NoSuchEntryInArray) ==> r == NewPermanent(Tcp, -1, -1, now)
  {
    match answer
    case Ok(e) => ToMapping(e, now)
    case Err(e) =>
      if !HasErrorCode(e, NoSuchEntryInArray) then Err(e)
      else NewPermanent(Tcp, -1, -1, now)
  }

  /** As written, a router that has no entry for the port makes the call
      fail with ArgumentOutOfRangeException from the constructor's guard: the
      sentinel cannot be built. */
  lemma NotFoundFails(description: string, now: DateTime)
    ensures GetSpecificMapping(Err(UpnpMapping(NoSuchEntryInArray, description)), now)
            == Err(ArgumentOutOfRange("privatePort"))
  {
    SentinelIsRejected(now);
  }

  /** The evidently intended behaviour: 714 means "no such mapping", an
      answer of its own rather than a failure. */
  function GetSpecificMappingIntended(answer: Fallible<Entry>, now: DateTime): (r: Fallible<Option<Mapping>>)
    ensures r == Ok(None) <==> answer.Err? && HasErrorCode(answer.error, NoSuchEntryInArray)
    ensures r.Ok? && r.value.Some? <==> answer.Ok? && ToMapping(answer.value, now).Ok?
    ensures r.Ok? && r.value.Some? ==> Ok(r.value.value) == GetSpecificMapping(answer, now)
    ensures r.Err? ==> r.error == GetSpecificMapping(answer, now).error
  {
    match answer
    case Ok(e) =>
      var m :- ToMapping(e, now);
      Ok(Some(m))
    case Err(e) =>
      if !HasErrorCode(e, NoSuchEntryInArray) then Err(e) else Ok(None)
  }
}

/**
 * The mapping operations of UpnpServiceProxy in Mono.Nat: entries become
 * Mono.Nat mappings, whose constructor validates nothing, and the 714
 * sentinel is an ordinary mapping.
 */
module MonoProxy {
  import opened Wrappers
  import opened Exceptions
  import opened Numbers
  import opened Clock
  import opened Net
  import opened Uris
  import opened MonoNatMapping
  import opened MappingEnumeration
  import opened UpnpDeviceInfo
  import SoapClient

  /** new Mapping(...) of an entry answer; DateTime.AddSeconds throws
      ArgumentOutOfRangeException (parameter "value") when the lease leaves
      the DateTime range. */
  function ToMapping(e: Entry, now: DateTime): (r: Fallible<Mapping>)
    ensures r.Ok? <==> MonoNatMapping.New(e.protocol, e.internalPort, e.externalPort, e.leaseDuration, e.description, now).Some?
    ensures r.Err? ==> r.error == ArgumentOutOfRange("value")
    ensures r.Ok? ==> r.value.protocol == e.protocol && r.value.privatePort == e.internalPort
                      && r.value.publicPort == e.externalPort && r.value.lifetime == e.leaseDuration
                      && r.value.description == e.description
  {
    match MonoNatMapping.New(e.protocol, e.internalPort, e.externalPort, e.leaseDuration, e.description, now)
    case Some(m) => Ok(m)
    case None => Err(ArgumentOutOfRange("value"))
  }

  function Converter(now: DateTime): Entry -> Fallible<Mapping>
  {
    e => ToMapping(e, now)
  }

  /** Every entry with a lease that is permanent (0 or int.MaxValue) or
      fits in the DateTime range is accepted, whatever its ports. */
  lemma AcceptsAnyPorts(e: Entry, now: DateTime)
    requires e.leaseDuration == 0 || e.leaseDuration == MaxInt32
    ensures ToMapping(e, now).Ok?
  {
  }

  /** GetSpecificMappingAsync: 714 gives the sentinel Mapping(Tcp, -1, -1),
      which this revision's constructor accepts; other codes are re-thrown. */
  function GetSpecificMapping(answer: Fallible<Entry>, now: DateTime): (r: Fallible<Mapping>)
    ensures answer.Ok? ==> r == ToMapping(answer.value, now)
    ensures answer.Err? && !HasErrorCode(answer.error, NoSuchEntryInArray) ==> r == Err(answer.error)
    ensures answer.Err? && HasErrorCode(answer.error, NoSuchEntryInArray) ==>
              r.Ok? && r.value.protocol == Tcp && r.value.privatePort == -1 && r.value.publicPort == -1
              && r.value.lifetime == 0 && r.value.description == "Mono.Nat"
  {
    match answer
    case Ok(e) => ToMapping(e, now)
    case Err(e) =>
      if !HasErrorCode(e, NoSuchEntryInArray) then Err(e)
      else Ok(NewDefault(Tcp, -1, -1, now))
  }

  /** BuildRequestServiceControl with the ContentLength RequestAsync sets:
      the request Open.Nat's SoapClient builds for the same control URI,
      service type and action. */
  function ControlRequest(d: DeviceInfo, action: string, body: seq<byte>): (r: SoapClient.HttpRequest)
    ensures r.verb == "POST" && !r.keepAlive && r.contentLength == |body| && r.url == ServiceControlUri(d)
    ensures r.body == body
  {
    var header := "\"" + d.serviceType + "#" + action + "\"";
    SoapClient.HttpRequest(ServiceControlUri(d), "POST", false, SoapClient.ContentType, header, |body|, body)
  }

  /** Both revisions send the same control request, and a receiver that
      drops the quotes and splits on '#' reads back the service type and the
      action, provided the service type holds no '#'. */
  lemma ControlRequestsAgree(d: DeviceInfo, action: string, body: seq<byte>)
    requires forall i :: 0 <= i < |d.serviceType| ==> d.serviceType[i] != '#'
    ensures ControlRequest(d, action, body) == SoapClient.BuildHttpWebRequest(ServiceControlUri(d), d.serviceType, action, body)
    ensures SoapClient.ParseSoapAction(ControlRequest(d, action, body).soapAction) == Some((d.serviceType, action))
  {
    SoapClient.SoapActionRoundTrip(d.serviceType, action);
  }
}

/**
 * Open.Nat/Upnp/UpnpNatDevice.cs: a UPnP device that resolves its control
 * URL as it is constructed and enumerates mappings with its own loop.
 */
module UpnpDevice {
  import opened Wrappers
  import opened Exceptions
  import opened Clock
  import opened Net
  import opened Uris
  import opened OpenNatMapping
  import opened UpnpDeviceInfo
  import opened MappingEnumeration
  import OpenNatProxy

  /** The device: its info and LastSeen. */
  datatype Device = Device(info: DeviceInfo, lastSeen: DateTime)

  /** NatDevice.Touch: LastSeen becomes now. */
  function Touch(d: Device, now: DateTime): (r: Device)
    ensures r.lastSeen == now && r.info == d.info
  {
    d.(lastSeen := now)
  }

  /** The constructor: Touch, then UpdateInfo over the fetched description,
      then the SOAP client for the control URI. A failing UpdateInfo fails
      the construction with its exception. */
  function New(info: DeviceInfo, fetch: DescriptionFetch, parseIp: AddressParser, now: DateTime): (r: Fallible<Device>)
    ensures r.Ok? <==> UpdateInfo(info, fetch, parseIp).Ok?
    ensures r.Err? ==> r.error == UpdateInfo(info, fetch, parseIp).error
    ensures r.Ok? ==> r.value.lastSeen == now && Keeps(info, r.value.info)
                      && r.value.info == UpdateInfo(info, fetch, parseIp).value
  {
    var updated :- UpdateInfo(info, fetch, parseIp);
    Ok(Device(updated, now))
  }

  /** A construction never succeeds when the description could not be
      fetched or was not served with status OK. */
  lemma NewNeedsDescription(info: DeviceInfo, fetch: DescriptionFetch, parseIp: AddressParser, now: DateTime)
    requires fetch.FetchFailed? || fetch.status != StatusOK
    ensures New(info, fetch, parseIp, now).Err?
  {
  }

  /** GetAllMappingsAsync: the loop over indices 0, 1, 2, ... as written in
      the device, run over the answers received so far; None when none of
      them has ended it. */
  method GetAllMappings(answers: seq<Fallible<Entry>>, now: DateTime) returns (r: Option<Fallible<seq<Mapping>>>)
    ensures r == GetAll(answers, OpenNatProxy.Converter(now))
    ensures r.None? <==> forall i :: 0 <= i < |answers| ==> !Stops(answers[i], OpenNatProxy.Converter(now))
    ensures r.Some? && r.value.Ok? ==>
            var k := |r.value.value|;
            && k < |answers| && HasErrorCode(StopError(answers[k], OpenNatProxy.Converter(now)), SpecifiedArrayIndexInvalid)
            && forall i :: 0 <= i < k ==> OpenNatProxy.ToMapping(answers[i].value, now) == Ok(r.value.value[i])
  {
    var convert := OpenNatProxy.Converter(now);
    var mappings: seq<Mapping> := [];
    var index := 0;
    r := None;
    while index < |answers|
      invariant 0 <= index <= |answers|
      invariant |mappings| == index
      invariant forall i :: 0 <= i < index ==> !Stops(answers[i], convert)
      invariant forall i :: 0 <= i < index ==> convert(answers[i].value) == Ok(mappings[i])
      decreases |answers| - index
    {
      var answer := answers[index];
      if answer.Err? {
        if HasErrorCode(answer.error, SpecifiedArrayIndexInvalid) {
          r := Some(Ok(mappings));
        } else {
          r := Some(Err(answer.error));
        }
        break;
      }
      var mapping := OpenNatProxy.ToMapping(answer.value, now);
      if mapping.Err? {
        if HasErrorCode(mapping.error, SpecifiedArrayIndexInvalid) {
          r := Some(Ok(mappings));
        } else {
          r := Some(Err(mapping.error));
        }
        break;
      }
      mappings := mappings + [mapping.value];
      index := index + 1;
    }
    if r.Some? {
      assert Stops(answers[index], convert);
      FirstStopUnique(answers, convert, index);
      SameAsEnumeration(answers, convert, mappings, r.value);
    }
  }

  /** The loop's exit agrees with the enumeration: the collected mappings are
      the enumeration's result when the stop is 713, and the stop's
      exception otherwise. */
  lemma SameAsEnumeration(answers: seq<Fallible<Entry>>, convert: Entry -> Fallible<Mapping>,
                          mappings: seq<Mapping>, r: Fallible<seq<Mapping>>)
    requires Terminates(answers, convert)
    requires |mappings| == FirstStop(answers, convert)
    requires forall i :: 0 <= i < |mappings| ==> convert(answers[i].value) == Ok(mappings[i])
    requires var e := StopError(answers[FirstStop(answers, convert)], convert);
             r == if HasErrorCode(e, SpecifiedArrayIndexInvalid) then Ok(mappings) else Err(e)
    ensures Some(r) == GetAll(answers, convert)
  {
    var g := GetAll(answers, convert);
    if g.value.Ok? {
      assert g.value.value == mappings;
    }
  }

  /** What ToString shows: the host end point, the control and description
      URIs, the service type and LastSeen. LastSeen is formatted with the
      culture's general date and time pattern, which ends at whole seconds:
      the text shows the second LastSeen falls in. */
  datatype Description = Description(endPoint: IPEndPoint, controlUri: Uri, descriptionUri: Uri,
                                     serviceType: string, lastSeenSecond: int)

  /** ToString; reading HostEndPoint throws FormatException when the host
      is not an address. */
  function Describe(d: Device, parseIp: AddressParser): (r: Fallible<Description>)
    ensures r.Ok? <==> parseIp(d.info.ip).Some?
    ensures r.Err? ==> r.error == Format
    ensures r.Ok? ==> && r.value.lastSeenSecond * TicksPerSecond <= d.lastSeen < (r.value.lastSeenSecond + 1) * TicksPerSecond
                      && r.value.serviceType == d.info.serviceType
                      && r.value.descriptionUri == ServiceDescriptionUri(d.info)
  {
    var endPoint :- HostEndPoint(d.info, parseIp);
    Ok(Description(endPoint, ServiceControlUri(d.info), ServiceDescriptionUri(d.info), d.info.serviceType,
                   d.lastSeen / TicksPerSecond))
  }

  /** The same device touched at two instants is shown as two different texts
      exactly when the instants fall in different seconds. */
  lemma DescriptionShowsLastSeen(d: Device, parseIp: AddressParser, t1: DateTime, t2: DateTime)
    requires parseIp(d.info.ip).Some?
    ensures Describe(Touch(d, t1), parseIp).Ok? && Describe(Touch(d, t2), parseIp).Ok?
    ensures Describe(Touch(d, t1), parseIp).value != Describe(Touch(d, t2), parseIp).value
            <==> t1 / TicksPerSecond != t2 / TicksPerSecond
  {
  }
}

/**
 * src/Open.Nat/Upnp/UpnpNatDevice.cs: the revision that builds the device
 * from the SSDP reply itself, delegates to a UpnpServiceProxy and compares
 * devices by end point and description path.
 */
module ProxiedUpnpDevice {
  import opened Wrappers
  import opened Exceptions
  import opened Text
  import opened Clock
  import opened Net
  import opened Uris
  import opened UpnpDeviceInfo
  import opened UpnpExchange
  import Ssdp
  import OpenNatMapping

  datatype Device = Device(info: DeviceInfo, lastSeen: DateTime)

  /** The constructor: Touch, the Location extraction the searcher also
      uses, and the device info of that location. */
  function New(localAddress: IPAddress, deviceDetails: string, serviceType: string, now: DateTime): (r: Fallible<Device>)
    ensures r.Ok? <==> Ssdp.ExtractLocation(deviceDetails).Ok? && IsWellFormed(Ssdp.ExtractLocation(deviceDetails).value)
    ensures r.Err? ==> r.error.ArgumentOutOfRange? || r.error == UriFormat
    ensures r.Ok? ==> r.value.lastSeen == now && r.value.info.localAddress == localAddress
                      && r.value.info.serviceType == serviceType && r.value.info.serviceControlPart == None
  {
    var location :- Ssdp.ExtractLocation(deviceDetails);
    var info :- UpnpDeviceInfo.New(localAddress, location, serviceType);
    Ok(Device(info, now))
  }

  /** A reply whose first "Location:" line carries the text of a URI gives
      the device at that URI's host, port and path. */
  lemma NewOfReply(localAddress: IPAddress, prefix: string, key: string, u: Uri, rest: string,
                   serviceType: string, now: DateTime)
    requires Canonical(u) && IsTrimmed(ToText(u))
    requires forall i :: 0 <= i < |ToText(u)| ==> ToText(u)[i] != '\n'
    requires EqualsIgnoreCase(key, Ssdp.LocationKey)
    requires forall i :: 0 <= i < |prefix| ==> !MatchAtIgnoreCase(prefix + key + ToText(u) + "\n" + rest, Ssdp.LocationKey, i)
    ensures New(localAddress, prefix + key + ToText(u) + "\n" + rest, serviceType, now)
            == Ok(Device(DeviceInfo(localAddress, u.host, u.port, u.path, serviceType, None), now))
  {
    Ssdp.LocationAfterKey(prefix, key, ToText(u), rest);
    TrimOfTrimmed(ToText(u));
    NewOfLocation(localAddress, u, serviceType);
  }

  lemma TrimOfTrimmed(s: string)
    requires IsTrimmed(s)
    ensures Trim(s) == s
  {
    if |s| > 0 {
      TrimPadded("", s, "");
      assert "" + s + "" == s;
    }
  }

  /** Equals(UpnpNatDevice): equal end points and description paths. Both
      HostEndPoint reads throw FormatException for a host that is not an
      address. */
  function Equals(a: Device, b: Device, parseIp: AddressParser): (r: Fallible<bool>)
    ensures r.Ok? <==> parseIp(a.info.ip).Some? && parseIp(b.info.ip).Some?
    ensures r.Err? ==> r.error == Format
    ensures r.Ok? ==> (r.value <==> parseIp(a.info.ip) == parseIp(b.info.ip) && a.info.port == b.info.port
                                    && a.info.serviceDescriptionPart == b.info.serviceDescriptionPart)
  {
    var ea :- HostEndPoint(a.info, parseIp);
    var eb :- HostEndPoint(b.info, parseIp);
    Ok(ea == eb && a.info.serviceDescriptionPart == b.info.serviceDescriptionPart)
  }

  /** Equality is reflexive, symmetric and transitive on devices whose hosts
      are addresses, and ignores the control part and LastSeen. */
  lemma EqualsIsEquivalence(a: Device, b: Device, c: Device, parseIp: AddressParser)
    requires parseIp(a.info.ip).Some? && parseIp(b.info.ip).Some? && parseIp(c.info.ip).Some?
    ensures Equals(a, a, parseIp) == Ok(true)
    ensures Equals(a, b, parseIp) == Equals(b, a, parseIp)
    ensures Equals(a, b, parseIp) == Ok(true) && Equals(b, c, parseIp) == Ok(true) ==> Equals(a, c, parseIp) == Ok(true)
    ensures Equals(a, a.(lastSeen := c.lastSeen, info := a.info.(serviceControlPart := c.info.serviceControlPart)), parseIp) == Ok(true)
  {
  }

  /** WebExceptionStatus: its members run from Success (0) to
      RequestProhibitedByProxy (20). */
  predicate IsWebExceptionStatus(status: int)
  {
    0 <= status <= 20
  }

  /** GetAllMappingsAsync: the proxy's enumeration inside a catch that turns
      a WebException into an empty result unless it has no response and its
      Status, cast to int, is not 713. */
  function GetAllMappings(proxied: Fallible<seq<OpenNatMapping.Mapping>>): (r: Fallible<seq<OpenNatMapping.Mapping>>)
    ensures proxied.Ok? ==> r == proxied
    ensures proxied.Err? && !proxied.error.Web? ==> r == proxied
    ensures proxied.Err? && proxied.error.Web? ==>
              (r == proxied <==> !proxied.error.hasResponse && proxied.error.status != 713)
    ensures r != proxied ==> r == Ok([])
  {
    match proxied
    case Ok(_) => proxied
    case Err(e) =>
      if !e.Web? || (!e.hasResponse && e.status != 713) then proxied else Ok([])
  }

  /** The catch never changes anything: the request code re-throws only
      WebExceptions without a response, and no WebExceptionStatus is 713. */
  lemma CatchIsTransparent(proxied: Fallible<seq<OpenNatMapping.Mapping>>)
    requires proxied.Err? ==> Unanswered(proxied.error)
    requires proxied.Err? && proxied.error.Web? ==> IsWebExceptionStatus(proxied.error.status)
    ensures GetAllMappings(proxied) == proxied
  {
  }

  /** GetServicesList: the proxy's GetServicesListAsync run to completion;
      Task.Wait wraps its exception in an AggregateException. */
  function GetServicesList(d: Device, fetch: DescriptionFetch, parseIp: AddressParser): (r: Fallible<Device>)
    ensures r.Ok? <==> UpnpDeviceInfo.GetServicesList(d.info, fetch, parseIp).Ok?
    ensures r.Ok? ==> r.value.lastSeen == d.lastSeen && Keeps(d.info, r.value.info)
    ensures r.Err? ==> r.error == Aggregate(UpnpDeviceInfo.GetServicesList(d.info, fetch, parseIp).error)
  {
    match UpnpDeviceInfo.GetServicesList(d.info, fetch, parseIp)
    case Ok(info) => Ok(d.(info := info))
    case Err(e) => Err(Aggregate(e))
  }
}
