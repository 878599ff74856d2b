/**
 * Reading a router's SOAP answer: the fault check every answer goes through
 * first (ResponseMessageBase.GetXmlDocument in Open.Nat, the head of Decode
 * in Mono.Nat), the node a response message reads its values from
 * (ResponseMessageBase.GetNode), and Mono.Nat's dispatch of an answer to a
 * response message kind together with the cast its caller applies.
 */
module UpnpResponse {
  import opened Wrappers
  import opened Exceptions
  import opened Numbers
  import opened Xml

  /** The namespace of UPnP control errors. */
  const ControlNs: string := "urn:schemas-upnp-org:control-1-0"
  const MessageSuffix: string := "Message"

  /** Text Convert.ToInt32 reads as a number, whether or not it fits. */
  predicate IsNumeral(t: string)
  {
    AllDigits(t) || (|t| > 0 && t[0] == '-' && AllDigits(t[1..]))
  }

  /** Convert.ToInt32(string, InvariantCulture): 0 for null, the value of a
      numeral that fits, OverflowException for one that does not and
      FormatException for any other text. */
  function ToInt32(text: Option<string>): (r: Fallible<int32>)
    ensures text.None? ==> r == Ok(0)
    ensures text.Some? ==> (r.Ok? <==> ParseInt32(text.value).Some?)
    ensures r.Ok? && text.Some? ==> r.value == ParseInt32(text.value).value
    ensures r.Err? ==> r.error == (if IsNumeral(text.value) then Overflow else Format)
  {
    match text
    case None => Ok(0)
    case Some(t) =>
      match ParseInt32(t)
      case Some(v) => Ok(v)
      case None => if IsNumeral(t) then Err(Overflow) else Err(Format)
  }

  /** The message of a MappingException; a missing errorDescription (null)
      is the empty text here. */
  function DescriptionText(text: Option<string>): string
  {
    match text
    case None => ""
    case Some(t) => t
  }

  /** The fault check: the first UPnPError element of the control namespace
      anywhere in the answer becomes a MappingException carrying its
      errorCode and errorDescription; a code Convert.ToInt32 rejects raises
      that conversion's exception instead. Without such an element the
      document is returned unchanged. */
  function CheckFault(doc: Element): (r: Fallible<Element>)
    ensures r.Ok? <==> SelectSingleNode(doc, ControlNs, "UPnPError").None?
    ensures r.Ok? ==> r.value == doc
    ensures r.Err? ==> var node := SelectSingleNode(doc, ControlNs, "UPnPError").value;
                       var code := ToInt32(ChildText(node, "errorCode"));
                       r.error == if code.Ok? then UpnpMapping(code.value, DescriptionText(ChildText(node, "errorDescription")))
                                  else code.error
  {
    match SelectSingleNode(doc, ControlNs, "UPnPError")
    case None => Ok(doc)
    case Some(node) =>
      var code :- ToInt32(ChildText(node, "errorCode"));
      Err(UpnpMapping(code, DescriptionText(ChildText(node, "errorDescription"))))
  }

  /** The construction of a response message: the answer's text is parsed
      (None stands for text XmlDocument.LoadXml rejects) and checked for a
      fault. */
  function Load(parsed: Option<Element>): (r: Fallible<Element>)
    ensures parsed.None? ==> r == Err(Xml)
    ensures parsed.Some? ==> r == CheckFault(parsed.value)
  {
    match parsed
    case None => Err(Xml)
    case Some(doc) => CheckFault(doc)
  }

  /** The message name GetNode derives from the type name: the name without
      its last seven characters; Substring throws when the name is shorter. */
  function MessageName(typeName: string): (r: Fallible<string>)
    ensures r.Err? <==> |typeName| < |MessageSuffix|
    ensures r.Err? ==> r.error == ArgumentOutOfRange("length")
    ensures r.Ok? ==> |typeName| - |r.value| == |MessageSuffix| && r.value + typeName[|r.value|..] == typeName
  {
    if |typeName| < |MessageSuffix| then Err(ArgumentOutOfRange("length"))
    else
      var name := typeName[..|typeName| - |MessageSuffix|];
      assert name + typeName[|name|..] == typeName;
      Ok(name)
  }

  /** A response message type named after its response element is looked up
      by that element's name. */
  lemma MessageNameOf(name: string)
    ensures MessageName(name + MessageSuffix) == Ok(name)
  {
    assert (name + MessageSuffix)[..|name|] == name;
  }

  /** GetNode: the first element of the service type's namespace named after
      the message, or InvalidOperationException naming what was missing. */
  function GetNode(doc: Element, serviceType: string, typeName: string): (r: Fallible<Element>)
    ensures r.Ok? ==> MessageName(typeName).Ok? && Named(r.value, serviceType, MessageName(typeName).value)
                      && r.value in Preorder(doc)
    ensures MessageName(typeName).Ok? ==>
              (r.Err? <==> forall i :: 0 <= i < |Preorder(doc)| ==> !Named(Preorder(doc)[i], serviceType, MessageName(typeName).value))
    ensures MessageName(typeName).Ok? && r.Err? ==>
              r.error == InvalidOperation("The response is invalid: " + MessageName(typeName).value)
  {
    var name :- MessageName(typeName);
    match SelectSingleNode(doc, serviceType, name)
    case None => Err(InvalidOperation("The response is invalid: " + name))
    case Some(node) => Ok(node)
  }

  // ------------------------------------------------------- Mono.Nat's Decode

  /** The response messages Mono.Nat's Decode builds. GenericEntry stands for
      GetGenericPortMappingEntryResponseMessage over the given node, built for
      a generic (true) or a specific (false) entry answer. */
  datatype Response =
    | NoResponse
    | ExternalIPAddress(address: Option<string>)
    | GenericEntry(node: Element, generic: bool)

  const AddResponse: string := "AddPortMappingResponse"
  const DeleteResponse: string := "DeletePortMappingResponse"
  const ExternalIPResponse: string := "GetExternalIPAddressResponse"
  const GenericResponse: string := "GetGenericPortMappingEntryResponse"
  const SpecificResponse: string := "GetSpecificPortMappingEntryResponse"

  predicate Has(doc: Element, serviceType: string, name: string)
  {
    SelectSingleNode(doc, serviceType, name).Some?
  }

  /** Decode: the fault check first, then the first response element found,
      in the order add, delete, external address, generic entry, specific
      entry; ArgumentException when the answer holds none of them. */
  function Decode(doc: Element, serviceType: string): (r: Fallible<Response>)
    ensures !Has(doc, ControlNs, "UPnPError") && !Has(doc, serviceType, AddResponse) && !Has(doc, serviceType, DeleteResponse)
            && !Has(doc, serviceType, ExternalIPResponse) && !Has(doc, serviceType, GenericResponse)
            && !Has(doc, serviceType, SpecificResponse)
            <==> r == Err(Argument("message"))
    ensures Has(doc, ControlNs, "UPnPError") ==> r.Err? && r.error == CheckFault(doc).error
    ensures r == Ok(NoResponse) <==>
              !Has(doc, ControlNs, "UPnPError") && (Has(doc, serviceType, AddResponse) || Has(doc, serviceType, DeleteResponse))
    ensures r.Ok? && r.value.GenericEntry? ==>
              Named(r.value.node, serviceType, if r.value.generic then GenericResponse else SpecificResponse)
  {
    var _ :- CheckFault(doc);
    if Has(doc, serviceType, AddResponse) then Ok(NoResponse)
    else if Has(doc, serviceType, DeleteResponse) then Ok(NoResponse)
    else
      match SelectSingleNode(doc, serviceType, ExternalIPResponse)
      case Some(node) => Ok(ExternalIPAddress(ChildText(node, "NewExternalIPAddress")))
      case None =>
        match SelectSingleNode(doc, serviceType, GenericResponse)
        case Some(node) => Ok(GenericEntry(node, true))
        case None =>
          match SelectSingleNode(doc, serviceType, SpecificResponse)
          case Some(node) => Ok(GenericEntry(node, false))
          case None => Err(Argument("message"))
  }

  /** The response message type a request expects. */
  datatype Expected = ExpectNoResponse | ExpectExternalIP | ExpectEntry

  function Matches(expected: Expected, response: Response): bool
  {
    match expected
    case ExpectNoResponse => response.NoResponse?
    case ExpectExternalIP => response.ExternalIPAddress?
    case ExpectEntry => response.GenericEntry?
  }

  /** The cast (T)Decode(...): InvalidCastException when the answer decodes
      to another message type. */
  function Cast(expected: Expected, decoded: Fallible<Response>): (r: Fallible<Response>)
    ensures decoded.Err? ==> r == decoded
    ensures decoded.Ok? ==> (r.Ok? <==> Matches(expected, decoded.value))
    ensures r.Ok? ==> r == decoded
    ensures decoded.Ok? && r.Err? ==> r.error == InvalidCast
  {
    match decoded
    case Err(_) => decoded
    case Ok(response) => if Matches(expected, response) then decoded else Err(InvalidCast)
  }

  /** An answer to a specific-entry request is read as an entry message,
      just as an answer to a generic one: both become
      GetGenericPortMappingEntryResponseMessage. */
  lemma SpecificAnswerIsAnEntry(doc: Element, serviceType: string)
    requires !Has(doc, ControlNs, "UPnPError")
    requires !Has(doc, serviceType, AddResponse) && !Has(doc, serviceType, DeleteResponse)
    requires !Has(doc, serviceType, ExternalIPResponse) && !Has(doc, serviceType, GenericResponse)
    requires Has(doc, serviceType, SpecificResponse)
    ensures Cast(ExpectEntry, Decode(doc, serviceType)).Ok?
    ensures Cast(ExpectEntry, Decode(doc, serviceType)).value.generic == false
  {
  }

  /** A fault answer fails every request the same way, whatever else it
      holds, and the cast does not hide it. */
  lemma FaultWinsOverResponse(doc: Element, serviceType: string, expected: Expected, code: int32, description: string)
    requires Has(doc, ControlNs, "UPnPError")
    requires var node := SelectSingleNode(doc, ControlNs, "UPnPError").value;
             ChildText(node, "errorCode") == Some(IntToString(code))
             && ChildText(node, "errorDescription") == Some(description)
    ensures Cast(expected, Decode(doc, serviceType)) == Err(UpnpMapping(code, description))
  {
    IntToStringRoundTrip(code);
  }
}
