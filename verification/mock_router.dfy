/**
 * The router that Open.Nat.Tests/UpnpMockServer.cs simulates: a table of
 * port mappings behind four SOAP actions, the fault answers it gives, the
 * SOAPACTION header it reads and the SSDP reply it announces itself with.
 * The HTTP listener, the UDP announcer and the parsing of request bodies are
 * left out: a request reaches the model as its SOAPACTION header and the
 * dictionary of its argument elements.
 */
module MockRouter {
  import opened Wrappers
  import opened Exceptions
  import opened Numbers
  import opened Text
  import opened Xml
  import opened MappingEnumeration
  import SoapClient
  import UpnpResponse
  import UpnpExchange
  import Ssdp

  /** One row of the table: the eight argument texts of AddPortMapping. */
  datatype Row = Row(leaseDuration: string, remoteHost: string, externalPort: string, protocol: string,
                     internalPort: string, internalClient: string, enabled: string, description: string)

  /** The argument elements of a request, by local name. */
  type Arguments = map<string, string>

  /** What the router answers: a response element with its fields, a UPnP
      fault (HTTP 500), or the service description it serves for any other
      action. */
  datatype Answer =
    | Success(response: string, fields: seq<(string, string)>)
    | Fault(code: int, description: string)
    | ServiceDescription

  /** UPnP IGD error 725, OnlyPermanentLeasesSupported. */
  const OnlyPermanentLeaseSupported: int := 725

  const IndexInvalid: Answer := Fault(SpecifiedArrayIndexInvalid, "SpecifiedArrayIndexInvalid")
  const NoSuchEntry: Answer := Fault(NoSuchEntryInArray, "NoSuchEntryInArray")
  const ExternalAddress: string := "222.222.111.111"

  /** The entry fields of a GetGenericPortMappingEntryResponse, in order. */
  function RowFields(row: Row): seq<(string, string)>
  {
    [("NewRemoteHost", row.remoteHost), ("NewExternalPort", row.externalPort), ("NewProtocol", row.protocol),
     ("NewInternalPort", row.internalPort), ("NewInternalClient", row.internalClient), ("NewEnabled", row.enabled),
     ("NewPortMappingDescription", row.description), ("NewLeaseDuration", row.leaseDuration)]
  }

  /** Every argument processAddPortMapping reads is present. */
  predicate HasRowArguments(args: Arguments)
  {
    && "NewLeaseDuration" in args && "NewRemoteHost" in args && "NewExternalPort" in args && "NewProtocol" in args
    && "NewInternalPort" in args && "NewInternalClient" in args && "NewEnabled" in args
    && "NewPortMappingDescription" in args
  }

  /** The new Mapping of processAddPortMapping; a missing argument throws
      KeyNotFoundException. */
  function ReadRow(args: Arguments): (r: Fallible<Row>)
    ensures r.Ok? <==> HasRowArguments(args)
    ensures r.Err? ==> r.error == KeyNotFound
    ensures r.Ok? ==> r.value == Row(args["NewLeaseDuration"], args["NewRemoteHost"], args["NewExternalPort"],
                                     args["NewProtocol"], args["NewInternalPort"], args["NewInternalClient"],
                                     args["NewEnabled"], args["NewPortMappingDescription"])
  {
    if HasRowArguments(args) then
      Ok(Row(args["NewLeaseDuration"], args["NewRemoteHost"], args["NewExternalPort"], args["NewProtocol"],
             args["NewInternalPort"], args["NewInternalClient"], args["NewEnabled"], args["NewPortMappingDescription"]))
    else Err(KeyNotFound)
  }

  /** processAddPortMapping: only a lease of "0" is accepted, and then the
      row is appended. */
  function AddPortMapping(table: seq<Row>, args: Arguments): (r: Fallible<(seq<Row>, Answer)>)
    ensures "NewLeaseDuration" !in args ==> r == Err(KeyNotFound)
    ensures "NewLeaseDuration" in args && args["NewLeaseDuration"] != "0" ==>
              r == Ok((table, Fault(OnlyPermanentLeaseSupported, "OnlyPermanentLeaseSupported")))
    ensures "NewLeaseDuration" in args && args["NewLeaseDuration"] == "0" ==>
              (r.Ok? <==> ReadRow(args).Ok?)
              && (r.Ok? ==> r.value == (table + [ReadRow(args).value], Success("AddPortMappingResponse", [])))
    ensures r.Ok? ==> r.value.0 == table || (|r.value.0| == |table| + 1 && r.value.0[..|table|] == table)
  {
    if "NewLeaseDuration" !in args then Err(KeyNotFound)
    else if args["NewLeaseDuration"] != "0" then Ok((table, Fault(OnlyPermanentLeaseSupported, "OnlyPermanentLeaseSupported")))
    else
      var row :- ReadRow(args);
      assert (table + [row])[..|table|] == table;
      Ok((table + [row], Success("AddPortMappingResponse", [])))
  }

  /** processGetGenericPortMappingEntry: the row at the parsed index; every
      failure inside the try block (a missing argument, an index int.Parse
      rejects, one outside the table) is answered with fault 713. */
  function GetGenericEntry(table: seq<Row>, args: Arguments): (r: Answer)
    ensures !r.ServiceDescription?
    ensures r.Success? <==> "NewPortMappingIndex" in args && ParseInt32(args["NewPortMappingIndex"]).Some?
                            && 0 <= ParseInt32(args["NewPortMappingIndex"]).value < |table|
    ensures r.Success? ==> r == Success("GetGenericPortMappingEntryResponse",
                                        RowFields(table[ParseInt32(args["NewPortMappingIndex"]).value]))
    ensures r.Fault? ==> r == IndexInvalid
  {
    if "NewPortMappingIndex" !in args then IndexInvalid
    else
      match ParseInt32(args["NewPortMappingIndex"])
      case None => IndexInvalid
      case Some(i) =>
        if 0 <= i < |table| then Success("GetGenericPortMappingEntryResponse", RowFields(table[i]))
        else IndexInvalid
  }

  /** The RemoveAll predicate: protocol, then remote host, then external
      port, each argument looked up only when the previous ones matched. */
  function RowMatches(row: Row, args: Arguments): (r: Fallible<bool>)
    ensures r == Ok(true) <==> "NewProtocol" in args && "NewRemoteHost" in args && "NewExternalPort" in args
                               && row.protocol == args["NewProtocol"] && row.remoteHost == args["NewRemoteHost"]
                               && row.externalPort == args["NewExternalPort"]
    ensures "NewProtocol" in args && "NewRemoteHost" in args && "NewExternalPort" in args ==> r.Ok?
    ensures r.Err? ==> r.error == KeyNotFound
  {
    if "NewProtocol" !in args then Err(KeyNotFound)
    else if row.protocol != args["NewProtocol"] then Ok(false)
    else if "NewRemoteHost" !in args then Err(KeyNotFound)
    else if row.remoteHost != args["NewRemoteHost"] then Ok(false)
    else if "NewExternalPort" !in args then Err(KeyNotFound)
    else Ok(row.externalPort == args["NewExternalPort"])
  }

  /** List.RemoveAll: the rows the predicate rejects, in order; an exception
      from the predicate propagates, and ThrowRemovesNothing shows it leaves
      every row in the list. */
  function RemoveAll(table: seq<Row>, args: Arguments): (r: Fallible<seq<Row>>)
    ensures r.Err? ==> r.error == KeyNotFound
    ensures r.Ok? ==> |r.value| <= |table|
    decreases |table|
  {
    if |table| == 0 then Ok([])
    else
      var here :- RowMatches(table[0], args);
      var kept :- RemoveAll(table[1..], args);
      if here then Ok(kept) else Ok([table[0]] + kept)
  }

  /** RemoveAll on a table that starts with the given row. */
  lemma RemoveAllCons(row: Row, rest: seq<Row>, args: Arguments)
    ensures RemoveAll([row] + rest, args).Ok? <==> RowMatches(row, args).Ok? && RemoveAll(rest, args).Ok?
    ensures RemoveAll([row] + rest, args).Ok? ==>
              RemoveAll([row] + rest, args).value
              == (if RowMatches(row, args).value then [] else [row]) + RemoveAll(rest, args).value
  {
    var table := [row] + rest;
    assert table[0] == row;
    assert table[1..] == rest;
  }

  /** RemoveAll fails exactly when the predicate throws for some row. */
  lemma {:induction false} RemoveAllTotal(table: seq<Row>, args: Arguments)
    ensures RemoveAll(table, args).Ok? <==> forall i :: 0 <= i < |table| ==> RowMatches(table[i], args).Ok?
    decreases |table|
  {
    if |table| > 0 {
      assert table == [table[0]] + table[1..];
      RemoveAllCons(table[0], table[1..], args);
      RemoveAllTotal(table[1..], args);
      assert forall i :: 1 <= i < |table| ==> table[i] == table[1..][i - 1];
    }
  }

  /** When the predicate rejects every row, nothing is removed. */
  lemma {:induction false} RemoveAllNoMatch(table: seq<Row>, args: Arguments)
    requires forall i :: 0 <= i < |table| ==> RowMatches(table[i], args) == Ok(false)
    ensures RemoveAll(table, args) == Ok(table)
    decreases |table|
  {
    if |table| > 0 {
      assert table == [table[0]] + table[1..];
      assert forall i :: 1 <= i < |table| ==> table[1..][i - 1] == table[i];
      RemoveAllNoMatch(table[1..], args);
      RemoveAllCons(table[0], table[1..], args);
    }
  }

  /** RemoveAll keeps exactly the rows the predicate rejects. */
  lemma {:induction false} RemoveAllKeeps(table: seq<Row>, args: Arguments)
    requires RemoveAll(table, args).Ok?
    ensures forall row :: row in RemoveAll(table, args).value <==> row in table && RowMatches(row, args) == Ok(false)
    decreases |table|
  {
    if |table| > 0 {
      assert table == [table[0]] + table[1..];
      RemoveAllCons(table[0], table[1..], args);
      RemoveAllKeeps(table[1..], args);
      assert forall row :: row in table <==> row == table[0] || row in table[1..];
    }
  }

  /** RemoveAll keeps the order of the rows it keeps: it works on each part
      of a table separately. */
  lemma {:induction false} RemoveAllConcat(a: seq<Row>, b: seq<Row>, args: Arguments)
    requires RemoveAll(a + b, args).Ok?
    ensures RemoveAll(a, args).Ok? && RemoveAll(b, args).Ok?
    ensures RemoveAll(a + b, args).value == RemoveAll(a, args).value + RemoveAll(b, args).value
    decreases |a|
  {
    if |a| == 0 {
      assert a + b == b;
    } else {
      var head, tail := a[0], a[1..];
      assert a == [head] + tail;
      assert a + b == [head] + (tail + b);
      RemoveAllCons(head, tail + b, args);
      RemoveAllConcat(tail, b, args);
      RemoveAllCons(head, tail, args);
    }
  }

  /** Every lookup the predicate makes depends only on the request, so when it
      throws for one row no row matches at all: whatever List.RemoveAll has
      compacted before the exception, the table still holds every row. */
  lemma ThrowRemovesNothing(table: seq<Row>, args: Arguments)
    requires RemoveAll(table, args).Err?
    ensures exists k :: 0 <= k < |table| && RowMatches(table[k], args).Err?
    ensures forall i :: 0 <= i < |table| ==> RowMatches(table[i], args) != Ok(true)
  {
  }

  /** processDeletePortMapping: every matching row is removed; when none was,
      the answer is fault 714. */
  function DeletePortMapping(table: seq<Row>, args: Arguments): (r: Fallible<(seq<Row>, Answer)>)
    ensures r.Ok? <==> RemoveAll(table, args).Ok?
    ensures r.Err? ==> r.error == KeyNotFound
    ensures r.Ok? ==> r.value.0 == RemoveAll(table, args).value
    ensures r.Ok? ==> (r.value.1 == NoSuchEntry <==> |r.value.0| == |table|)
    ensures r.Ok? && r.value.1 == NoSuchEntry ==> r.value.0 == table
    ensures r.Ok? && r.value.1 != NoSuchEntry ==> r.value.1 == Success("DeletePortMappingResponse", [])
  {
    match RemoveAll(table, args)
    case Err(e) => Err(e)
    case Ok(kept) =>
      if |table| - |kept| == 0 then
        KeptAllMeansNoneMatched(table, args);
        Ok((table, NoSuchEntry))
      else Ok((kept, Success("DeletePortMappingResponse", [])))
  }

  /** When RemoveAll keeps as many rows as there were, it removed none. */
  lemma {:induction false} KeptAllMeansNoneMatched(table: seq<Row>, args: Arguments)
    requires RemoveAll(table, args).Ok? && |RemoveAll(table, args).value| == |table|
    ensures RemoveAll(table, args).value == table
    decreases |table|
  {
    if |table| > 0 {
      assert table == [table[0]] + table[1..];
      RemoveAllCons(table[0], table[1..], args);
      assert RowMatches(table[0], args) == Ok(false);
      KeptAllMeansNoneMatched(table[1..], args);
    }
  }

  // ------------------------------------------------------ the SOAPACTION header

  /** The router's reading of SOAPACTION: the text without its first and last
      characters, split on '#', pieces 0 and 1. Substring(1, Length - 2)
      throws for a header shorter than two characters, naming startIndex for
      the empty header (1 is past its end) and length for a one-character
      one; the indexer throws for a header without '#'. */
  function ReadSoapAction(header: string): (r: Fallible<(string, string)>)
    ensures |header| == 0 ==> r == Err(ArgumentOutOfRange("startIndex"))
    ensures |header| == 1 ==> r == Err(ArgumentOutOfRange("length"))
    ensures |header| >= 2 && r.Err? ==> r.error == IndexOutOfRange && |Split(header[1..|header| - 1], "#")| < 2
    ensures r.Ok? ==> var pieces := Split(header[1..|header| - 1], "#");
                      |pieces| >= 2 && r.value == (pieces[0], pieces[1])
  {
    if |header| == 0 then Err(ArgumentOutOfRange("startIndex"))
    else if |header| == 1 then Err(ArgumentOutOfRange("length"))
    else
      var pieces := Split(header[1..|header| - 1], "#");
      if |pieces| < 2 then Err(IndexOutOfRange) else Ok((pieces[0], pieces[1]))
  }

  predicate NoHash(s: string)
  {
    forall i :: 0 <= i < |s| ==> s[i] != '#'
  }

  lemma NoHashNoMatch(s: string)
    requires NoHash(s)
    ensures forall i :: 0 <= i <= |s| ==> !MatchAt(s, "#", i)
  {
    forall i | 0 <= i <= |s| ensures !MatchAt(s, "#", i) {
      if i < |s| {
        assert s[i..i + 1][0] == s[i];
      }
    }
  }

  /** The router reads back the service type and action the client's header
      names, when neither holds a '#'. */
  lemma ReadsClientSoapAction(serviceType: string, action: string)
    requires NoHash(serviceType) && NoHash(action)
    ensures ReadSoapAction(SoapClient.SoapAction(serviceType, action)) == Ok((serviceType, action))
  {
    var header := SoapClient.SoapAction(serviceType, action);
    var inner := header[1..|header| - 1];
    assert inner == serviceType + "#" + action;
    NoHashNoMatch(serviceType);
    forall i | 0 <= i <= |serviceType| ensures !MatchAt(serviceType + "#", "#", i) || i == |serviceType| {
      if i < |serviceType| {
        assert (serviceType + "#")[i..i + 1][0] == serviceType[i];
      }
    }
    SplitCons(serviceType, "#", action);
    NoHashNoMatch(action);
    SplitNoSeparator(action, "#");
  }

  // ---------------------------------------------------------------- dispatch

  /** ListenerCallback on the control URL: the action named in SOAPACTION
      picks the handler; any other action gets the service description. */
  function Process(table: seq<Row>, soapAction: string, args: Arguments): (r: Fallible<(seq<Row>, Answer)>)
    ensures ReadSoapAction(soapAction).Err? ==> r == Err(ReadSoapAction(soapAction).error)
    ensures ReadSoapAction(soapAction).Ok? ==>
              var action := ReadSoapAction(soapAction).value.1;
              && (action == "AddPortMapping" ==> r == AddPortMapping(table, args))
              && (action == "DeletePortMapping" ==> r == DeletePortMapping(table, args))
              && (action == "GetGenericPortMappingEntry" ==> r == Ok((table, GetGenericEntry(table, args))))
              && (action == "GetExternalIPAddress" ==>
                    r == Ok((table, Success("GetExternalIPAddressResponse", [("NewExternalIPAddress", ExternalAddress)]))))
              && (action !in {"AddPortMapping", "DeletePortMapping", "GetGenericPortMappingEntry", "GetExternalIPAddress"}
                  ==> r == Ok((table, ServiceDescription)))
  {
    var (_, action) :- ReadSoapAction(soapAction);
    if action == "GetExternalIPAddress" then
      Ok((table, Success("GetExternalIPAddressResponse", [("NewExternalIPAddress", ExternalAddress)])))
    else if action == "AddPortMapping" then AddPortMapping(table, args)
    else if action == "GetGenericPortMappingEntry" then Ok((table, GetGenericEntry(table, args)))
    else if action == "DeletePortMapping" then DeletePortMapping(table, args)
    else Ok((table, ServiceDescription))
  }

  // ------------------------------------------------------------ the fault body

  const SoapEnvelopeNs: string := "http://schemas.xmlsoap.org/soap/envelope/"

  /** The document of Error(code, description): the UPnPError element, in
      the control namespace, inside s:Envelope/s:Body/s:Fault/detail. */
  function FaultDocument(code: int, description: string): Element
  {
    Element(SoapEnvelopeNs, "Envelope", "", [
      Element(SoapEnvelopeNs, "Body", "", [
        Element(SoapEnvelopeNs, "Fault", "", [
          Element("", "faultcode", "s:Client", []),
          Element("", "faultstring", "UPnPError", []),
          Element("", "detail", "", [
            Element(UpnpResponse.ControlNs, "UPnPError", "", [
              Element(UpnpResponse.ControlNs, "errorCode", IntToString(code), []),
              Element(UpnpResponse.ControlNs, "errorDescription", description, [])])])])])])
  }

  /** The fault body carries its code and description where a client's
      fault check finds them, so the client fails with exactly that
      MappingException. */
  lemma FaultIsRead(code: int32, description: string)
    ensures UpnpExchange.CarriesFault(FaultDocument(code, description), code, description)
    ensures UpnpResponse.CheckFault(FaultDocument(code, description)) == Err(UpnpMapping(code, description))
  {
    var doc := FaultDocument(code, description);
    var body := doc.children[0];
    var fault := body.children[0];
    var faultCode, faultString, detail := fault.children[0], fault.children[1], fault.children[2];
    var upnpError := detail.children[0];
    var codeText, descriptionText := upnpError.children[0], upnpError.children[1];
    PreorderLeaves(codeText, descriptionText);
    assert Preorder(upnpError) == [upnpError, codeText, descriptionText];
    PreorderSingle(upnpError);
    assert Preorder(detail) == [detail, upnpError, codeText, descriptionText];
    PreorderLeaves(faultCode, faultString);
    PreorderSingle(detail);
    assert PreorderAll(fault.children) == [faultCode] + PreorderAll([faultString, detail]);
    assert PreorderAll([faultString, detail]) == [faultString] + PreorderAll([detail]);
    PreorderSingle(fault);
    PreorderSingle(body);
    assert Preorder(doc) == [doc, body, fault, faultCode, faultString, detail, upnpError, codeText, descriptionText];
    assert Named(Preorder(doc)[6], UpnpResponse.ControlNs, "UPnPError");
    assert forall i :: 0 <= i < 6 ==> !Named(Preorder(doc)[i], UpnpResponse.ControlNs, "UPnPError");
    assert SelectSingleNode(doc, UpnpResponse.ControlNs, "UPnPError") == Some(upnpError);
    assert upnpError.children[1].name == "errorDescription";
    assert ChildText(upnpError, "errorCode") == Some(IntToString(code));
    assert ChildText(upnpError, "errorDescription") == Some(description);
    IntToStringRoundTrip(code);
  }

  lemma PreorderSingle(e: Element)
    ensures PreorderAll([e]) == Preorder(e)
  {
    assert [e][1..] == [];
  }

  lemma PreorderLeaves(a: Element, b: Element)
    requires a.children == [] && b.children == []
    ensures PreorderAll([a, b]) == [a, b]
  {
    assert [a, b][1..] == [b];
    PreorderSingle(b);
  }

  /** What the client's enumeration sees of an answer: a fault becomes its
      MappingException; reading an entry's values from its fields is the
      parameter 'readEntry'; the service description has no response
      element. */
  function ClientAnswer(a: Answer, readEntry: seq<(string, string)> -> Fallible<Entry>): (r: Fallible<Entry>)
    ensures a.Fault? ==> r == Err(UpnpMapping(a.code, a.description))
  {
    match a
    case Fault(code, description) => Err(UpnpMapping(code, description))
    case Success(_, fields) => readEntry(fields)
    case ServiceDescription => Err(InvalidOperation("The response is invalid: GetGenericPortMappingEntryResponse"))
  }

  /** The arguments of a GetGenericPortMappingEntry request for index i. */
  function IndexArgs(i: int32): Arguments
  {
    map["NewPortMappingIndex" := IntToString(i)]
  }

  lemma EntryAt(table: seq<Row>, i: int32)
    ensures GetGenericEntry(table, IndexArgs(i)) ==
              if 0 <= i < |table| then Success("GetGenericPortMappingEntryResponse", RowFields(table[i])) else IndexInvalid
  {
    IntToStringRoundTrip(i);
  }

  /** The client's enumeration against this router lists its whole table:
      the answers to indices 0 .. N are the N rows and then fault 713, so
      GetAllMappingsAsync returns N mappings, the i-th from row i. */
  lemma ListsMockTable<M>(table: seq<Row>, entries: seq<Entry>, readEntry: seq<(string, string)> -> Fallible<Entry>,
                          convert: Entry -> Fallible<M>)
    requires |table| < MaxInt32 && |entries| == |table|
    requires forall i :: 0 <= i < |table| ==> readEntry(RowFields(table[i])) == Ok(entries[i])
    requires forall i :: 0 <= i < |entries| ==> convert(entries[i]).Ok?
    ensures var answers := seq(|table| + 1, i requires 0 <= i <= |table| => ClientAnswer(GetGenericEntry(table, IndexArgs(i)), readEntry));
            && Terminates(answers, convert)
            && GetAll(answers, convert).Some? && GetAll(answers, convert).value.Ok?
            && |GetAll(answers, convert).value.value| == |table|
            && forall i :: 0 <= i < |table| ==> Ok(GetAll(answers, convert).value.value[i]) == convert(entries[i])
  {
    var answers := seq(|table| + 1, i requires 0 <= i <= |table| => ClientAnswer(GetGenericEntry(table, IndexArgs(i)), readEntry));
    var replies := Replies(entries, "SpecifiedArrayIndexInvalid");
    forall i | 0 <= i <= |table| ensures answers[i] == replies[i] {
      EntryAt(table, i);
    }
    assert answers == replies + [];
    ListsTable(entries, "SpecifiedArrayIndexInvalid", [], convert);
  }

  /** Create, list, delete, list: a permanent mapping added to a table
      where nothing has its protocol, remote host and external port is
      listed at index N, its deletion restores the table, and index N then
      answers 713. */
  lemma CreateListDeleteList(table: seq<Row>, addArgs: Arguments, deleteArgs: Arguments)
    requires |table| < MaxInt32
    requires ReadRow(addArgs).Ok? && ReadRow(addArgs).value.leaseDuration == "0"
    requires var row := ReadRow(addArgs).value;
             && "NewProtocol" in deleteArgs && deleteArgs["NewProtocol"] == row.protocol
             && "NewRemoteHost" in deleteArgs && deleteArgs["NewRemoteHost"] == row.remoteHost
             && "NewExternalPort" in deleteArgs && deleteArgs["NewExternalPort"] == row.externalPort
    requires forall i :: 0 <= i < |table| ==> RowMatches(table[i], deleteArgs) == Ok(false)
    ensures var row := ReadRow(addArgs).value;
            && AddPortMapping(table, addArgs) == Ok((table + [row], Success("AddPortMappingResponse", [])))
            && GetGenericEntry(table + [row], IndexArgs(|table|)) == Success("GetGenericPortMappingEntryResponse", RowFields(row))
            && DeletePortMapping(table + [row], deleteArgs) == Ok((table, Success("DeletePortMappingResponse", [])))
            && GetGenericEntry(table, IndexArgs(|table|)) == IndexInvalid
  {
    var row := ReadRow(addArgs).value;
    EntryAt(table + [row], |table|);
    EntryAt(table, |table|);
    assert RowMatches(row, deleteArgs) == Ok(true);
    assert forall i :: 0 <= i < |table + [row]| ==> RowMatches((table + [row])[i], deleteArgs).Ok?;
    RemoveAllTotal(table + [row], deleteArgs);
    RemoveAllConcat(table, [row], deleteArgs);
    RemoveAllNoMatch(table, deleteArgs);
    RemoveAllCons(row, [], deleteArgs);
    assert [row] + [] == [row];
    assert RemoveAll(table + [row], deleteArgs).value == table;
  }

  // ------------------------------------------------------------ the SSDP reply

  const ReplyHead: string := "HTTP/1.1 200 OK\r\n" + "Server: Custom/1.0 UPnP/1.0 Proc/Ver\r\n" + "EXT:\r\n"

  /** The lines after Location. */
  function AnnouncementTail(st: string): string
  {
    "Cache-Control:max-age=1800\r\n"
    + "ST:urn:schemas-upnp-org:service:" + st + "\r\n"
    + "USN:uuid:0000e068-20a0-00e0-20a0-48a802086048::urn:schemas-upnp-org:service:" + st
  }

  /** The reply the announcer sends to every probe. */
  function Announcement(serviceUrl: string, st: string): string
  {
    ReplyHead + "Location: " + serviceUrl + "\r\n" + AnnouncementTail(st)
  }

  lemma HeadHasNoL()
    ensures forall i :: 0 <= i < |ReplyHead| ==> ReplyHead[i] != 'l' && ReplyHead[i] != 'L'
  {
  }

  lemma NoLocationKeyIn(head: string, rest: string)
    requires forall i :: 0 <= i < |head| ==> head[i] != 'l' && head[i] != 'L'
    ensures forall i :: 0 <= i < |head| ==> !MatchAtIgnoreCase(head + rest, Ssdp.LocationKey, i)
  {
    forall i | 0 <= i < |head| ensures !MatchAtIgnoreCase(head + rest, Ssdp.LocationKey, i) {
      var s := head + rest;
      assert s[i] == head[i];
    }
  }

  lemma AnnouncementShape(serviceUrl: string, st: string)
    ensures Announcement(serviceUrl, st) == ReplyHead + "Location:" + (" " + serviceUrl + "\r") + "\n" + AnnouncementTail(st)
  {
  }

  /** A reply whose lines before Location hold no 'l' yields the URL of
      a "Location: url\r" line. */
  lemma LocationAfterHead(head: string, serviceUrl: string, rest: string)
    requires forall i :: 0 <= i < |head| ==> head[i] != 'l' && head[i] != 'L'
    requires |serviceUrl| > 0 && IsTrimmed(serviceUrl)
    requires forall i :: 0 <= i < |serviceUrl| ==> serviceUrl[i] != '\n'
    ensures Ssdp.ExtractLocation(head + "Location:" + (" " + serviceUrl + "\r") + "\n" + rest) == Ok(serviceUrl)
  {
    var key := "Location:";
    var value := " " + serviceUrl + "\r";
    NoLocationKeyIn(head, key + value + "\n" + rest);
    assert head + key + value + "\n" + rest == head + (key + value + "\n" + rest);
    assert forall i :: 0 <= i < |value| ==> value[i] != '\n';
    assert EqualsIgnoreCase(key, Ssdp.LocationKey);
    Ssdp.LocationAfterKey(head, key, value, rest);
    TrimPadded(" ", serviceUrl, "\r");
  }

  /** The searcher's Location extraction reads back exactly the announced
      URL: the line ends in "\r\n", and Trim removes the space and the
      '\r'. */
  lemma AnnouncedLocation(serviceUrl: string, st: string)
    requires |serviceUrl| > 0 && IsTrimmed(serviceUrl)
    requires forall i :: 0 <= i < |serviceUrl| ==> serviceUrl[i] != '\n'
    ensures Ssdp.ExtractLocation(Announcement(serviceUrl, st)) == Ok(serviceUrl)
  {
    AnnouncementShape(serviceUrl, st);
    HeadHasNoL();
    LocationAfterHead(ReplyHead, serviceUrl, AnnouncementTail(st));
  }
}
