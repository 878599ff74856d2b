/**
 * The SOAP requests sent to a router's WANIPConnection service: the envelope
 * RequestMessageBase.Envelop wraps around a message's argument fragments, the
 * arguments of AddPortMapping and GetSpecificPortMappingEntry, and the
 * parsers a router applies to read them back.
 */
module UpnpRequest {
  import opened Wrappers
  import opened Numbers
  import opened Net
  import opened Text
  import opened Exceptions
  import opened Xml
  import Utf8
  import OpenNatMapping

  // ------------------------------------------------------------- the envelope

  /** Everything before the action element. */
  const EnvelopeHead: string :=
    "<s:Envelope xmlns:s=\"http://schemas.xmlsoap.org/soap/envelope/\" "
    + "s:encodingStyle=\"http://schemas.xmlsoap.org/soap/encoding/\"><s:Body>"

  /** Everything after the action element. */
  const EnvelopeTail: string := "</s:Body>" + "</s:Envelope>" + "\r\n\r\n"

  const ActionPrefix: string := "<u:"
  const NsAttribute: string := " xmlns:u=\""
  const AttributeEnd: string := "\">"

  /** The start tag of the action element, binding the prefix u to the service type. */
  function ActionOpen(action: string, serviceType: string): string
  {
    ActionPrefix + action + NsAttribute + serviceType + AttributeEnd
  }

  function ActionClose(action: string): string
  {
    "</u:" + action + ">"
  }

  /** An action element holding 'body' between a head and a tail. */
  function Wrap(head: string, action: string, serviceType: string, body: string, tail: string): string
  {
    head + (ActionOpen(action, serviceType) + body + ActionClose(action)) + tail
  }

  /** The text of RequestMessageBase.Envelop: the action element, holding the
      message's ToXml(), inside the SOAP envelope and body. */
  function EnvelopeText(action: string, serviceType: string, body: string): string
  {
    Wrap(EnvelopeHead, action, serviceType, body, EnvelopeTail)
  }

  /** RequestMessageBase.Envelop: the UTF-8 bytes of the envelope text. */
  function Envelop(action: string, serviceType: string, body: string): seq<byte>
  {
    Utf8.Encode(EnvelopeText(action, serviceType, body))
  }

  /** The text between a known head and tail, if the text has both. */
  function Unwrap(text: string, head: string, tail: string): (r: Option<string>)
    ensures r.Some? ==> head + r.value + tail == text
  {
    if |head| + |tail| <= |text| && text[..|head|] == head && text[|text| - |tail|..] == tail then
      var inner := text[|head|..|text| - |tail|];
      assert text == text[..|head|] + inner + text[|text| - |tail|..];
      Some(inner)
    else None
  }

  /** Splits an action element into its name, its service type and its content. */
  function SplitAction(inner: string): Option<(string, string, string)>
  {
    if !MatchAt(inner, ActionPrefix, 0) then None
    else
      var space := IndexOf(inner, " ", |ActionPrefix|);
      if space == -1 then None else SplitAttribute(inner, space)
  }

  /** The rest of SplitAction once the action name ends at 'space'. */
  function SplitAttribute(inner: string, space: nat): Option<(string, string, string)>
    requires |ActionPrefix| <= space <= |inner|
  {
    if !MatchAt(inner, NsAttribute, space) then None
    else
      var quote := IndexOf(inner, "\"", space + |NsAttribute|);
      if quote == -1 then None else SplitContent(inner, space, quote)
  }

  /** The rest of SplitAction once the service type ends at 'quote'. */
  function SplitContent(inner: string, space: nat, quote: nat): Option<(string, string, string)>
    requires |ActionPrefix| <= space && space + |NsAttribute| <= quote <= |inner|
  {
    if !MatchAt(inner, AttributeEnd, quote) then None
    else
      var action := inner[|ActionPrefix|..space];
      var rest := inner[quote + |AttributeEnd|..];
      var close := ActionClose(action);
      if |close| <= |rest| && rest[|rest| - |close|..] == close then
        Some((action, inner[space + |NsAttribute|..quote], rest[..|rest| - |close|]))
      else None
  }

  /** What a router reads out of a request envelope: action, service type and arguments. */
  function ReadEnvelope(text: string, head: string, tail: string): Option<(string, string, string)>
  {
    match Unwrap(text, head, tail)
    case None => None
    case Some(inner) => SplitAction(inner)
  }

  lemma UnwrapOf(head: string, inner: string, tail: string)
    ensures Unwrap(head + inner + tail, head, tail) == Some(inner)
  {
    var text := head + inner + tail;
    assert text[..|head|] == head;
    assert text[|text| - |tail|..] == tail;
    assert text[|head|..|text| - |tail|] == inner;
  }

  /** Where the pieces of an action element sit. */
  lemma ActionLayout(action: string, serviceType: string, body: string)
    ensures var inner := ActionOpen(action, serviceType) + body + ActionClose(action);
            var a, s := |action|, |serviceType|;
            && inner[..3] == ActionPrefix
            && inner[3..3 + a] == action
            && inner[3 + a..13 + a] == NsAttribute
            && inner[13 + a..13 + a + s] == serviceType
            && inner[13 + a + s..15 + a + s] == AttributeEnd
            && inner[15 + a + s..] == body + ActionClose(action)
  {
    var tail := body + ActionClose(action);
    assert ActionOpen(action, serviceType) + body + ActionClose(action)
           == ActionPrefix + action + NsAttribute + serviceType + AttributeEnd + tail;
    assert |ActionPrefix| == 3 && |NsAttribute| == 10 && |AttributeEnd| == 2;
    FivePieces(ActionPrefix, action, NsAttribute, serviceType, AttributeEnd, tail);
  }

  /** Where each of six concatenated texts sits. */
  lemma FivePieces(p0: string, x: string, p1: string, y: string, p2: string, z: string)
    ensures var t := p0 + x + p1 + y + p2 + z;
            var a, b, c, d, e := |p0|, |p0| + |x|, |p0| + |x| + |p1|, |p0| + |x| + |p1| + |y|,
                                 |p0| + |x| + |p1| + |y| + |p2|;
            t[..a] == p0 && t[a..b] == x && t[b..c] == p1 && t[c..d] == y && t[d..e] == p2 && t[e..] == z
  {
  }

  lemma SplitActionOf(action: string, serviceType: string, body: string)
    requires forall i :: 0 <= i < |action| ==> action[i] != ' '
    requires forall i :: 0 <= i < |serviceType| ==> serviceType[i] != '"'
    ensures SplitAction(ActionOpen(action, serviceType) + body + ActionClose(action)) == Some((action, serviceType, body))
  {
    var inner := ActionOpen(action, serviceType) + body + ActionClose(action);
    var a, s := |action|, |serviceType|;
    ActionLayout(action, serviceType, body);
    assert MatchAt(inner, ActionPrefix, 0);
    forall i | 3 <= i < 3 + a ensures inner[i] != ' ' {
      assert inner[i] == inner[3..3 + a][i - 3];
    }
    assert inner[3 + a] == inner[3 + a..13 + a][0];
    FirstCharMatchFrom(inner, ' ', 3, 3 + a);
    assert IndexOf(inner, " ", 3) == 3 + a;
    SplitAttributeOf(action, serviceType, body);
  }

  lemma SplitAttributeOf(action: string, serviceType: string, body: string)
    requires forall i :: 0 <= i < |serviceType| ==> serviceType[i] != '"'
    ensures |action| + 3 <= |ActionOpen(action, serviceType) + body + ActionClose(action)|
    ensures SplitAttribute(ActionOpen(action, serviceType) + body + ActionClose(action), |action| + 3)
            == Some((action, serviceType, body))
  {
    var inner := ActionOpen(action, serviceType) + body + ActionClose(action);
    var a := |action|;
    ActionLayout(action, serviceType, body);
    assert MatchAt(inner, NsAttribute, 3 + a);
    QuoteAfterServiceType(action, serviceType, body);
    SplitContentOf(action, serviceType, body);
  }

  lemma QuoteAfterServiceType(action: string, serviceType: string, body: string)
    requires forall i :: 0 <= i < |serviceType| ==> serviceType[i] != '"'
    ensures var inner := ActionOpen(action, serviceType) + body + ActionClose(action);
            13 + |action| + |serviceType| < |inner|
            && IndexOf(inner, "\"", 13 + |action|) == 13 + |action| + |serviceType|
  {
    var inner := ActionOpen(action, serviceType) + body + ActionClose(action);
    var a, s := |action|, |serviceType|;
    ActionLayout(action, serviceType, body);
    forall i | 13 + a <= i < 13 + a + s ensures inner[i] != '"' {
      assert inner[i] == inner[13 + a..13 + a + s][i - 13 - a];
    }
    assert inner[13 + a + s] == inner[13 + a + s..15 + a + s][0];
    FirstCharMatchFrom(inner, '"', 13 + a, 13 + a + s);
  }

  lemma SplitContentOf(action: string, serviceType: string, body: string)
    ensures |action| + 3 + 10 + |serviceType| <= |ActionOpen(action, serviceType) + body + ActionClose(action)|
    ensures SplitContent(ActionOpen(action, serviceType) + body + ActionClose(action), |action| + 3,
                         |action| + 3 + 10 + |serviceType|)
            == Some((action, serviceType, body))
  {
    var inner := ActionOpen(action, serviceType) + body + ActionClose(action);
    var a, s := |action|, |serviceType|;
    ActionLayout(action, serviceType, body);
    assert MatchAt(inner, AttributeEnd, 13 + a + s);
    var rest := inner[15 + a + s..];
    var close := ActionClose(action);
    assert rest == body + close;
    assert rest[|rest| - |close|..] == close;
    assert rest[..|rest| - |close|] == body;
  }

  /** Reading a wrapped action element finds the action, the service type
      and the content that were put in it. */
  lemma ReadWrapped(head: string, action: string, serviceType: string, body: string, tail: string)
    requires forall i :: 0 <= i < |action| ==> action[i] != ' '
    requires forall i :: 0 <= i < |serviceType| ==> serviceType[i] != '"'
    ensures ReadEnvelope(Wrap(head, action, serviceType, body, tail), head, tail) == Some((action, serviceType, body))
  {
    UnwrapOf(head, ActionOpen(action, serviceType) + body + ActionClose(action), tail);
    SplitActionOf(action, serviceType, body);
  }

  /** A router reading a request envelope finds the action, the service type
      and the message's arguments that were put in it. */
  lemma ReadEnvelopeText(action: string, serviceType: string, body: string)
    requires forall i :: 0 <= i < |action| ==> action[i] != ' '
    requires forall i :: 0 <= i < |serviceType| ==> serviceType[i] != '"'
    ensures ReadEnvelope(EnvelopeText(action, serviceType, body), EnvelopeHead, EnvelopeTail)
            == Some((action, serviceType, body))
  {
    ReadWrapped(EnvelopeHead, action, serviceType, body, EnvelopeTail);
  }

  /** The bytes sent decode to the envelope text. */
  lemma EnvelopDecodes(action: string, serviceType: string, body: string)
    ensures Utf8.Decode(Envelop(action, serviceType, body)) == Some(EnvelopeText(action, serviceType, body))
  {
    Utf8.DecodeEncode(EnvelopeText(action, serviceType, body));
  }

  // ------------------------------------------------------------ the arguments

  /** The first value given for a name among read arguments. */
  function Lookup(fields: seq<(string, string)>, name: string): (r: Option<string>)
    ensures r.Some? ==> exists i :: 0 <= i < |fields| && fields[i] == (name, r.value)
    ensures r.None? <==> forall i :: 0 <= i < |fields| ==> fields[i].0 != name
    decreases |fields|
  {
    if |fields| == 0 then None
    else if fields[0].0 == name then Some(fields[0].1)
    else
      var r := Lookup(fields[1..], name);
      assert r.Some? ==> fields[1..][0..] == fields[1..];
      r
  }

  /** The value at the first position holding the name. */
  lemma {:induction false} LookupAt(fields: seq<(string, string)>, name: string, k: nat)
    requires k < |fields| && fields[k].0 == name
    requires forall i :: 0 <= i < k ==> fields[i].0 != name
    ensures Lookup(fields, name) == Some(fields[k].1)
    decreases k
  {
    if k > 0 {
      LookupAt(fields[1..], name, k - 1);
    }
  }

  /** A numeric argument as the router parses it. */
  function LookupInt(fields: seq<(string, string)>, name: string): Option<int32>
  {
    match Lookup(fields, name)
    case None => None
    case Some(text) => ParseInt32(text)
  }

  /** The protocol text of a request: "TCP" for Tcp and "UDP" for anything else. */
  function ProtocolText(p: Protocol): string
  {
    if p == Tcp then "TCP" else "UDP"
  }

  const AddPortMappingAction: string := "AddPortMapping"
  const GetSpecificAction: string := "GetSpecificPortMappingEntry"

  /** The arguments of CreatePortMappingRequestMessage.ToXml, in order; the
      client is the text of the local address. */
  function AddPortMappingFields(m: OpenNatMapping.Mapping, client: string): seq<(string, string)>
  {
    [("NewRemoteHost", ""),
     ("NewExternalPort", IntToString(m.publicPort)),
     ("NewProtocol", ProtocolText(m.protocol)),
     ("NewInternalPort", IntToString(m.privatePort)),
     ("NewInternalClient", client),
     ("NewEnabled", "1"),
     ("NewPortMappingDescription", m.description),
     ("NewLeaseDuration", IntToString(m.lifetime))]
  }

  /** CreatePortMappingRequestMessage.ToXml, written with the given
      Environment.NewLine. */
  function AddPortMappingXml(nl: NewLine, m: OpenNatMapping.Mapping, client: string): Fallible<string>
  {
    Fragments(nl, AddPortMappingFields(m, client))
  }

  /** What an AddPortMapping request asks the router for. */
  datatype AddRequest = AddRequest(
    remoteHost: string,
    externalPort: int32,
    isTcp: bool,
    internalPort: int32,
    client: string,
    enabled: bool,
    description: string,
    leaseDuration: int32)

  /** A router's reading of AddPortMapping arguments. */
  function ParseAddRequest(xml: string): Option<AddRequest>
  {
    match ReadElements(xml)
    case None => None
    case Some(fields) => AddRequestOf(fields)
  }

  /** The request the argument elements name; None when one is missing or
      a number does not parse. */
  function AddRequestOf(fields: seq<(string, string)>): Option<AddRequest>
  {
    var remoteHost :- Lookup(fields, "NewRemoteHost");
    var externalPort :- LookupInt(fields, "NewExternalPort");
    var protocol :- Lookup(fields, "NewProtocol");
    var internalPort :- LookupInt(fields, "NewInternalPort");
    var client :- Lookup(fields, "NewInternalClient");
    var enabled :- Lookup(fields, "NewEnabled");
    var description :- Lookup(fields, "NewPortMappingDescription");
    var lease :- LookupInt(fields, "NewLeaseDuration");
    Some(AddRequest(remoteHost, externalPort, protocol == "TCP", internalPort, client, enabled == "1",
                    description, lease))
  }

  lemma AddFieldsFront(m: OpenNatMapping.Mapping, client: string)
    ensures var fields := AddPortMappingFields(m, client);
            && Lookup(fields, "NewRemoteHost") == Some("")
            && Lookup(fields, "NewExternalPort") == Some(IntToString(m.publicPort))
            && Lookup(fields, "NewProtocol") == Some(ProtocolText(m.protocol))
            && Lookup(fields, "NewInternalPort") == Some(IntToString(m.privatePort))
  {
    AddFieldsHost(m, client);
    AddFieldsPorts(m, client);
  }

  lemma AddFieldsHost(m: OpenNatMapping.Mapping, client: string)
    ensures var fields := AddPortMappingFields(m, client);
            && Lookup(fields, "NewRemoteHost") == Some("")
            && Lookup(fields, "NewExternalPort") == Some(IntToString(m.publicPort))
  {
    var fields := AddPortMappingFields(m, client);
    LookupAt(fields, "NewRemoteHost", 0);
    LookupAt(fields, "NewExternalPort", 1);
  }

  lemma AddFieldsPorts(m: OpenNatMapping.Mapping, client: string)
    ensures var fields := AddPortMappingFields(m, client);
            && Lookup(fields, "NewProtocol") == Some(ProtocolText(m.protocol))
            && Lookup(fields, "NewInternalPort") == Some(IntToString(m.privatePort))
  {
    var fields := AddPortMappingFields(m, client);
    LookupAt(fields, "NewProtocol", 2);
    LookupAt(fields, "NewInternalPort", 3);
  }

  lemma AddFieldsBack(m: OpenNatMapping.Mapping, client: string)
    ensures var fields := AddPortMappingFields(m, client);
            && Lookup(fields, "NewInternalClient") == Some(client)
            && Lookup(fields, "NewEnabled") == Some("1")
            && Lookup(fields, "NewPortMappingDescription") == Some(m.description)
            && Lookup(fields, "NewLeaseDuration") == Some(IntToString(m.lifetime))
  {
    AddFieldsClient(m, client);
    AddFieldsLease(m, client);
  }

  lemma AddFieldsClient(m: OpenNatMapping.Mapping, client: string)
    ensures var fields := AddPortMappingFields(m, client);
            && Lookup(fields, "NewInternalClient") == Some(client)
            && Lookup(fields, "NewEnabled") == Some("1")
  {
    var fields := AddPortMappingFields(m, client);
    LookupAt(fields, "NewInternalClient", 4);
    LookupAt(fields, "NewEnabled", 5);
  }

  lemma AddFieldsLease(m: OpenNatMapping.Mapping, client: string)
    ensures var fields := AddPortMappingFields(m, client);
            && Lookup(fields, "NewPortMappingDescription") == Some(m.description)
            && Lookup(fields, "NewLeaseDuration") == Some(IntToString(m.lifetime))
  {
    var fields := AddPortMappingFields(m, client);
    LookupAt(fields, "NewPortMappingDescription", 6);
    LookupAt(fields, "NewLeaseDuration", 7);
  }

  /** The text of a number holds only characters XML allows and no line
      break. */
  lemma NumberText(n: int)
    ensures XmlText(IntToString(n))
    ensures LineEnds(IntToString(n)) == IntToString(n)
  {
    var t := IntToString(n);
    assert forall i :: 0 <= i < |t| ==> t[i] == '-' || IsDigit(t[i]) by {
      if n < 0 {
        assert forall i :: 1 <= i < |t| ==> t[i] == NatToDigits(-n)[i - 1];
      }
    }
  }

  /** The arguments are written unless the client or the description holds
      a character XML does not allow, and then read back as the arguments of
      the same mapping with the line ends of those two texts normalised. */
  lemma AddFieldsRead(nl: NewLine, m: OpenNatMapping.Mapping, client: string)
    ensures AddPortMappingXml(nl, m, client).Ok? <==> XmlText(client) && XmlText(m.description)
    ensures AddPortMappingXml(nl, m, client).Ok? ==>
            ReadElements(AddPortMappingXml(nl, m, client).value)
            == Some(AddPortMappingFields(m.(description := LineEnds(m.description)), LineEnds(client)))
  {
    var fields := AddPortMappingFields(m, client);
    FrontNamesArePlain();
    BackNamesArePlain();
    assert forall i :: 0 <= i < |fields| ==> PlainName(fields[i].0);
    AddFieldsWritable(m, client);
    ReadFragments(nl, fields);
    ReadBackAddFields(m, client);
  }

  lemma AddFieldsWritable(m: OpenNatMapping.Mapping, client: string)
    ensures (forall i :: 0 <= i < |AddPortMappingFields(m, client)| ==> XmlText(AddPortMappingFields(m, client)[i].1))
            <==> XmlText(client) && XmlText(m.description)
  {
    var fields := AddPortMappingFields(m, client);
    NumberText(m.publicPort);
    NumberText(m.privatePort);
    NumberText(m.lifetime);
    assert XmlText("") && XmlText("1") && XmlText(ProtocolText(m.protocol));
    assert fields[4].1 == client && fields[6].1 == m.description;
  }

  lemma ReadBackAddFields(m: OpenNatMapping.Mapping, client: string)
    ensures ReadBack(AddPortMappingFields(m, client))
            == AddPortMappingFields(m.(description := LineEnds(m.description)), LineEnds(client))
  {
    var fields := AddPortMappingFields(m, client);
    var read := ReadBack(fields);
    var expected := AddPortMappingFields(m.(description := LineEnds(m.description)), LineEnds(client));
    NumberText(m.publicPort);
    NumberText(m.privatePort);
    NumberText(m.lifetime);
    assert LineEnds("") == "" && LineEnds("1") == "1";
    assert LineEnds(ProtocolText(m.protocol)) == ProtocolText(m.protocol);
    assert read[0] == expected[0] && read[1] == expected[1] && read[2] == expected[2] && read[3] == expected[3];
    assert read[4] == expected[4] && read[5] == expected[5] && read[6] == expected[6] && read[7] == expected[7];
    assert read == expected;
  }

  lemma FrontNamesArePlain()
    ensures PlainName("NewRemoteHost") && PlainName("NewExternalPort") && PlainName("NewProtocol")
    ensures PlainName("NewInternalPort")
  {
  }

  lemma BackNamesArePlain()
    ensures PlainName("NewInternalClient") && PlainName("NewEnabled")
    ensures PlainName("NewPortMappingDescription") && PlainName("NewLeaseDuration")
  {
  }

  /** The request asks for the mapping's ports, protocol, description and
      lifetime, for the given client, enabled and for any remote host; the
      client and the description arrive with their line ends normalised,
      and a character XML does not allow in either stops the writing. */
  lemma AddPortMappingReadsBack(nl: NewLine, m: OpenNatMapping.Mapping, client: string)
    ensures AddPortMappingXml(nl, m, client).Ok? <==> XmlText(client) && XmlText(m.description)
    ensures AddPortMappingXml(nl, m, client).Ok? ==>
            ParseAddRequest(AddPortMappingXml(nl, m, client).value)
            == Some(AddRequest("", m.publicPort, m.protocol == Tcp, m.privatePort, LineEnds(client), true,
                               LineEnds(m.description), m.lifetime))
  {
    AddFieldsRead(nl, m, client);
    AddRequestOfFields(m.(description := LineEnds(m.description)), LineEnds(client));
  }

  /** The arguments of a mapping name its ports, protocol, client,
      description and lifetime. */
  lemma AddRequestOfFields(m: OpenNatMapping.Mapping, client: string)
    ensures AddRequestOf(AddPortMappingFields(m, client))
            == Some(AddRequest("", m.publicPort, m.protocol == Tcp, m.privatePort, client, true,
                               m.description, m.lifetime))
  {
    var fields := AddPortMappingFields(m, client);
    AddFieldsFront(m, client);
    AddFieldsBack(m, client);
    IntToStringRoundTrip(m.publicPort);
    IntToStringRoundTrip(m.privatePort);
    IntToStringRoundTrip(m.lifetime);
    assert LookupInt(fields, "NewExternalPort") == Some(m.publicPort);
    assert LookupInt(fields, "NewInternalPort") == Some(m.privatePort);
    assert LookupInt(fields, "NewLeaseDuration") == Some(m.lifetime);
    assert (ProtocolText(m.protocol) == "TCP") == (m.protocol == Tcp);
  }

  /** The arguments of GetSpecificPortMappingEntryRequestMessage.ToXml, in order. */
  function GetSpecificFields(protocol: Protocol, externalPort: int32): seq<(string, string)>
  {
    [("NewRemoteHost", ""),
     ("NewExternalPort", IntToString(externalPort)),
     ("NewProtocol", ProtocolText(protocol))]
  }

  function GetSpecificXml(nl: NewLine, protocol: Protocol, externalPort: int32): Fallible<string>
  {
    Fragments(nl, GetSpecificFields(protocol, externalPort))
  }

  /** A router's reading of GetSpecificPortMappingEntry arguments: the
      external port and whether the protocol is TCP. */
  function ParseGetSpecific(xml: string): Option<(int32, bool)>
  {
    match ReadElements(xml)
    case None => None
    case Some(fields) =>
      var port :- LookupInt(fields, "NewExternalPort");
      var protocol :- Lookup(fields, "NewProtocol");
      Some((port, protocol == "TCP"))
  }

  /** The request is always written, and names the port and the protocol
      asked about. */
  lemma GetSpecificReadsBack(nl: NewLine, protocol: Protocol, externalPort: int32)
    ensures GetSpecificXml(nl, protocol, externalPort).Ok?
    ensures ParseGetSpecific(GetSpecificXml(nl, protocol, externalPort).value) == Some((externalPort, protocol == Tcp))
  {
    var fields := GetSpecificFields(protocol, externalPort);
    GetSpecificRead(nl, protocol, externalPort);
    LookupAt(fields, "NewExternalPort", 1);
    LookupAt(fields, "NewProtocol", 2);
    IntToStringRoundTrip(externalPort);
    assert LookupInt(fields, "NewExternalPort") == Some(externalPort);
    assert (ProtocolText(protocol) == "TCP") == (protocol == Tcp);
  }

  /** The three arguments are always written, and read back unchanged. */
  lemma GetSpecificRead(nl: NewLine, protocol: Protocol, externalPort: int32)
    ensures GetSpecificXml(nl, protocol, externalPort).Ok?
    ensures ReadElements(GetSpecificXml(nl, protocol, externalPort).value) == Some(GetSpecificFields(protocol, externalPort))
  {
    var fields := GetSpecificFields(protocol, externalPort);
    FrontNamesArePlain();
    assert forall i :: 0 <= i < |fields| ==> PlainName(fields[i].0);
    NumberText(externalPort);
    assert XmlText("") && XmlText(ProtocolText(protocol));
    assert LineEnds("") == "" && LineEnds(ProtocolText(protocol)) == ProtocolText(protocol);
    ReadFragments(nl, fields);
    assert ReadBack(fields) == fields;
  }
}

/**
 * Open.Nat's SoapClient: the HTTP request of a SOAP call, its body, and the
 * choice of how the answer is read.
 */
module SoapClient {
  import opened Wrappers
  import opened Exceptions
  import opened Numbers
  import opened Text
  import opened Uris
  import opened Xml
  import Utf8
  import UpnpRequest

  const ContentType: string := "text/xml; charset=\"utf-8\""

  /** The SOAPACTION header: the quoted "serviceType#operation". */
  function SoapAction(serviceType: string, operation: string): string
  {
    "\"" + serviceType + "#" + operation + "\""
  }

  /** A router's reading of a SOAPACTION header: service type and operation. */
  function ParseSoapAction(header: string): Option<(string, string)>
  {
    if |header| < 2 || header[0] != '"' || header[|header| - 1] != '"' then None
    else
      var inner := header[1..|header| - 1];
      var hash := IndexOf(inner, "#", 0);
      if hash == -1 then None else Some((inner[..hash], inner[hash + 1..]))
  }

  /** The header names the service type and the operation invoked. */
  lemma SoapActionRoundTrip(serviceType: string, operation: string)
    requires forall i :: 0 <= i < |serviceType| ==> serviceType[i] != '#'
    ensures ParseSoapAction(SoapAction(serviceType, operation)) == Some((serviceType, operation))
  {
    var header := SoapAction(serviceType, operation);
    var inner := header[1..|header| - 1];
    assert inner == serviceType + "#" + operation;
    FirstCharMatch(inner, '#', |serviceType|);
    assert inner[..|serviceType|] == serviceType;
    assert inner[|serviceType| + 1..] == operation;
  }

  /** The parts of an HttpWebRequest the code sets. */
  datatype HttpRequest = HttpRequest(
    url: Uri,
    verb: string,
    keepAlive: bool,
    contentType: string,
    soapAction: string,
    contentLength: int,
    body: seq<byte>)

  /** BuildHttpWebRequest: a POST to the control URL without keep-alive,
      announcing the body's exact length. */
  function BuildHttpWebRequest(url: Uri, serviceType: string, operation: string, body: seq<byte>): (r: HttpRequest)
    ensures r.contentLength == |r.body| && r.body == body
    ensures r.verb == "POST" && !r.keepAlive
  {
    HttpRequest(url, "POST", false, ContentType, SoapAction(serviceType, operation), |body|, body)
  }

  /** The head of the envelope BuildMessageBody writes. */
  const ClientHead: string :=
    "<s:Envelope    xmlns:s=\"http://schemas.xmlsoap.org/soap/envelope/\" "
    + "   s:encodingStyle=\"http://schemas.xmlsoap.org/soap/encoding/\"><s:Body>   "

  /** The text BuildMessageBody appends for one argument: the key's start
      tag, the text of the argument collection, and an end tag named after the
      argument's value. */
  function ArgumentText(key: string, value: string, argsText: string): string
  {
    StartTag(key) + argsText + EndTag(value)
  }

  function ArgumentTexts(args: seq<(string, string)>, argsText: string): string
    decreases |args|
  {
    if |args| == 0 then "" else ArgumentText(args[0].0, args[0].1, argsText) + ArgumentTexts(args[1..], argsText)
  }

  /** The envelope BuildMessageBody writes, with 'body' in the action element. */
  function ClientEnvelope(operation: string, serviceType: string, body: string): string
  {
    UpnpRequest.Wrap(ClientHead, operation, serviceType, body, UpnpRequest.EnvelopeTail)
  }

  /** The text of BuildMessageBody as written: an empty action element, then
      the arguments after the end of the envelope. */
  function MessageText(operation: string, serviceType: string, args: seq<(string, string)>, argsText: string): string
  {
    ClientEnvelope(operation, serviceType, "   ") + ArgumentTexts(args, argsText)
  }

  /** The text BuildMessageBody evidently intends: each argument as a leaf
      element holding its value, written as the request messages'
      WriteFullElement writes it, inside the action element. */
  function IntendedMessageText(nl: NewLine, operation: string, serviceType: string, args: seq<(string, string)>): Fallible<string>
  {
    var body :- Fragments(nl, args);
    Ok(ClientEnvelope(operation, serviceType, body + "   "))
  }

  /** BuildMessageBody as written: the UTF-8 bytes of the message text,
      which begin with the whole envelope and its empty action element. */
  function BuildMessageBody(operation: string, serviceType: string, args: seq<(string, string)>, argsText: string): (r: seq<byte>)
    ensures Utf8.Decode(r) == Some(MessageText(operation, serviceType, args, argsText))
    ensures var envelope := Utf8.Encode(ClientEnvelope(operation, serviceType, "   "));
            |envelope| <= |r| && r[..|envelope|] == envelope
  {
    var text := MessageText(operation, serviceType, args, argsText);
    Utf8.DecodeEncode(text);
    Utf8.EncodeConcat(ClientEnvelope(operation, serviceType, "   "), ArgumentTexts(args, argsText));
    Utf8.Encode(text)
  }

  /** The bytes of the intended body: written exactly when every argument
      value is text XML allows, and then decoding to the intended text. */
  function IntendedMessageBody(nl: NewLine, operation: string, serviceType: string, args: seq<(string, string)>): (r: Fallible<seq<byte>>)
    ensures r.Ok? <==> forall i :: 0 <= i < |args| ==> XmlText(args[i].1)
    ensures r.Ok? ==> Utf8.Decode(r.value) == Some(IntendedMessageText(nl, operation, serviceType, args).value)
    ensures r.Err? ==> r.error == Argument("")
  {
    var text :- IntendedMessageText(nl, operation, serviceType, args);
    Utf8.DecodeEncode(text);
    Ok(Utf8.Encode(text))
  }

  /** As written, the envelope a router reads has an empty action element
      whatever the arguments, and the argument texts follow the envelope. */
  lemma ArgumentsOutsideEnvelope(operation: string, serviceType: string, args: seq<(string, string)>, argsText: string)
    requires forall i :: 0 <= i < |operation| ==> operation[i] != ' '
    requires forall i :: 0 <= i < |serviceType| ==> serviceType[i] != '"'
    ensures var envelope := ClientEnvelope(operation, serviceType, "   ");
            && MessageText(operation, serviceType, args, argsText) == envelope + ArgumentTexts(args, argsText)
            && UpnpRequest.ReadEnvelope(envelope, ClientHead, UpnpRequest.EnvelopeTail)
               == Some((operation, serviceType, "   "))
  {
    UpnpRequest.ReadWrapped(ClientHead, operation, serviceType, "   ", UpnpRequest.EnvelopeTail);
  }

  /** As written, the text of an argument is not an element: its end tag
      carries the value, not the key. */
  lemma ArgumentTextIsMalformed(key: string, value: string, argsText: string, rest: string)
    requires PlainName(key) && PlainName(value) && key != value
    requires forall i :: 0 <= i < |argsText| ==> argsText[i] != '<'
    ensures ReadElement(ArgumentText(key, value, argsText) + rest) == None
  {
    ReadMismatchedElement(key, argsText, value, rest);
  }

  /** The intended body carries the arguments inside the action element,
      where a router reads each of them back with its value. */
  lemma IntendedArgumentsInsideEnvelope(nl: NewLine, operation: string, serviceType: string, args: seq<(string, string)>)
    requires forall i :: 0 <= i < |operation| ==> operation[i] != ' '
    requires forall i :: 0 <= i < |serviceType| ==> serviceType[i] != '"'
    requires forall i :: 0 <= i < |args| ==> PlainName(args[i].0)
    ensures IntendedMessageText(nl, operation, serviceType, args).Ok?
            <==> forall i :: 0 <= i < |args| ==> XmlText(args[i].1)
    ensures IntendedMessageText(nl, operation, serviceType, args).Ok? ==>
            && UpnpRequest.ReadEnvelope(IntendedMessageText(nl, operation, serviceType, args).value,
                                        ClientHead, UpnpRequest.EnvelopeTail)
               == Some((operation, serviceType, Fragments(nl, args).value + "   "))
            && ReadElements(Fragments(nl, args).value) == Some(ReadBack(args))
  {
    if Fragments(nl, args).Ok? {
      UpnpRequest.ReadWrapped(ClientHead, operation, serviceType, Fragments(nl, args).value + "   ", UpnpRequest.EnvelopeTail);
      ReadFragments(nl, args);
    }
  }

  /** How the answer's body is read: a given number of characters, or the
      whole stream. */
  datatype ReadPlan = ReadCount(count: int) | ReadWhole

  /** InvokeAsync as written: the whole stream is read only when the
      announced length is 1; any other length, a long, is cast to int for
      ReadAsMany, which keeps its low 32 bits. */
  function ReadPlanAsWritten(contentLength: int): (r: ReadPlan)
    ensures r.ReadWhole? <==> contentLength == 1
    ensures r.ReadCount? ==> r.count == WrapInt32(contentLength)
    ensures r.ReadCount? && MinInt32 <= contentLength <= MaxInt32 ==> r.count == contentLength
  {
    if contentLength != 1 then ReadCount(WrapInt32(contentLength)) else ReadWhole
  }

  /** A length past Int32 is read as its low 32 bits: 2^32 + 1 bytes are
      read as one character, and 2^31 as a negative count. */
  lemma LongLengthWraps()
    ensures ReadPlanAsWritten(0x1_0000_0001) == ReadCount(1)
    ensures ReadPlanAsWritten(0x8000_0000) == ReadCount(-0x8000_0000)
  {
  }

  /** The evidently intended reading: the whole stream exactly when the
      length is unknown (-1), as Mono.Nat's DecodeMessageFromResponse does. */
  function ReadPlanIntended(contentLength: int): (r: ReadPlan)
    requires contentLength >= -1
    ensures r.ReadWhole? <==> contentLength == -1
    ensures r.ReadCount? ==> r.count == contentLength && r.count >= 0
  {
    if contentLength != -1 then ReadCount(contentLength) else ReadWhole
  }

  /** As written, an answer of unknown length is read as -1 characters and a
      one-byte answer is read to the end. */
  lemma ReadPlanAsWrittenMisreads()
    ensures ReadPlanAsWritten(-1) == ReadCount(-1)
    ensures ReadPlanAsWritten(1) == ReadWhole
    ensures ReadPlanIntended(-1) == ReadWhole
    ensures ReadPlanIntended(1) == ReadCount(1)
  {
  }
}
