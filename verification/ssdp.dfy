/**
 * SSDP discovery replies (section 1 of the UPnP Device Architecture 1.0):
 * the generic header parser of Open.Nat/Upnp/DiscoveryResponseMessage.cs,
 * and the service-URN filter and Location extraction the UPnP searchers and
 * src/Open.Nat/Upnp/UpnpNatDevice.cs apply to the raw reply text.
 */
module DiscoveryResponse {
  import opened Wrappers
  import opened Exceptions
  import opened Text

  datatype Header = Header(key: string, value: string)

  /** One header line: the key is the text before the first ':', the value the
      rest (colons included) trimmed, and empty when there is no ':'. */
  function ParseLine(line: string): (h: Header)
    ensures IndexOf(line, ":", 0) == -1 ==> h == Header(line, "")
    ensures IndexOf(line, ":", 0) != -1 ==>
      h == Header(line[..IndexOf(line, ":", 0)], Trim(line[IndexOf(line, ":", 0) + 1..]))
  {
    var c := Split(line, ":");
    SplitFirst(line, ":");
    var value := if |c| > 1 then Join(":", c[1..]) else "";
    Header(c[0], Trim(value))
  }

  /** The non-empty "\r\n"-separated lines of a message. */
  function Lines(message: string): seq<string>
  {
    RemoveEmpty(Split(message, "\r\n"))
  }

  /** The lines after the first (status) line. */
  function HeaderLines(message: string): (r: seq<string>)
    ensures |r| == if |Lines(message)| == 0 then 0 else |Lines(message)| - 1
    ensures forall i :: 0 <= i < |r| ==> r[i] == Lines(message)[i + 1]
  {
    var lines := Lines(message);
    if |lines| == 0 then [] else lines[1..]
  }

  function ParseLines(lines: seq<string>): (r: seq<Header>)
    ensures |r| == |lines|
    ensures forall i :: 0 <= i < |lines| ==> r[i] == ParseLine(lines[i])
  {
    seq(|lines|, i requires 0 <= i < |lines| => ParseLine(lines[i]))
  }

  /** No two headers have keys that agree once upper-cased. */
  predicate DistinctKeys(hs: seq<Header>)
  {
    forall i, j :: 0 <= i < j < |hs| ==> Upper(hs[i].key) != Upper(hs[j].key)
  }

  /** ToDictionary(x => x.Key.ToUpper(), x => x.Value): ArgumentException on a
      repeated key. */
  function ToDictionary(hs: seq<Header>): (r: Fallible<map<string, string>>)
    ensures r.Ok? <==> DistinctKeys(hs)
    ensures r.Err? ==> r.error == Argument("key")
    ensures r.Ok? ==> forall i :: 0 <= i < |hs| ==> Upper(hs[i].key) in r.value && r.value[Upper(hs[i].key)] == hs[i].value
    ensures r.Ok? ==> forall k :: k in r.value ==> exists i :: 0 <= i < |hs| && Upper(hs[i].key) == k
    decreases |hs|
  {
    if |hs| == 0 then Ok(map[])
    else
      var front := hs[..|hs| - 1];
      var last := hs[|hs| - 1];
      assert forall i :: 0 <= i < |hs| - 1 ==> front[i] == hs[i];
      match ToDictionary(front)
      case Err(e) =>
        assert !DistinctKeys(front);
        Err(e)
      case Ok(m) =>
        if Upper(last.key) in m then
          var i :| 0 <= i < |front| && Upper(front[i].key) == Upper(last.key);
          assert Upper(hs[i].key) == Upper(hs[|hs| - 1].key);
          Err(Argument("key"))
        else
          Ok(m[Upper(last.key) := last.value])
  }

  /** new DiscoveryResponseMessage(message). */
  function Parse(message: string): (r: Fallible<map<string, string>>)
    ensures r.Ok? <==> DistinctKeys(ParseLines(HeaderLines(message)))
  {
    ToDictionary(ParseLines(HeaderLines(message)))
  }

  /** The indexer this[key]: KeyNotFoundException for an absent key. */
  function Get(headers: map<string, string>, key: string): (r: Fallible<string>)
    ensures r.Ok? <==> Upper(key) in headers
    ensures r.Err? ==> r.error == KeyNotFound
  {
    if Upper(key) in headers then Ok(headers[Upper(key)]) else Err(KeyNotFound)
  }

  /** Looking a header up by any spelling of its key, ignoring case, gives
      the value of the line that carried it. */
  lemma LookupIgnoresCase(message: string, i: nat, key: string)
    requires Parse(message).Ok?
    requires i < |HeaderLines(message)|
    requires EqualsIgnoreCase(key, ParseLine(HeaderLines(message)[i]).key)
    ensures Get(Parse(message).value, key) == Ok(ParseLine(HeaderLines(message)[i]).value)
  {
    var hs := ParseLines(HeaderLines(message));
    assert hs[i] == ParseLine(HeaderLines(message)[i]);
  }

  /** Two header lines whose keys agree ignoring case make the parse fail. */
  lemma RepeatedKeyFails(message: string, i: nat, j: nat)
    requires i < j < |HeaderLines(message)|
    requires EqualsIgnoreCase(ParseLine(HeaderLines(message)[i]).key, ParseLine(HeaderLines(message)[j]).key)
    ensures Parse(message) == Err(Argument("key"))
  {
    var hs := ParseLines(HeaderLines(message));
    assert Upper(hs[i].key) == Upper(hs[j].key);
    assert !DistinctKeys(hs);
  }

  /** A line "key:value" with a colon-free key splits at that first colon, so
      a value such as "http://h:p/x" keeps its own colons. */
  lemma ParseLineOf(key: string, value: string)
    requires forall i :: 0 <= i < |key| ==> key[i] != ':'
    ensures ParseLine(key + ":" + value) == Header(key, Trim(value))
  {
    var line := key + ":" + value;
    FirstCharMatch(line, ':', |key|);
    assert line[..|key|] == key;
    assert line[|key| + 1..] == value;
  }

  // ------------------------------------------------------------ lines

  /** The lines of a message each terminated by "\r\n". */
  function Terminated(lines: seq<string>): string
  {
    if |lines| == 0 then "" else lines[0] + "\r\n" + Terminated(lines[1..])
  }

  predicate NoCarriageReturn(s: string)
  {
    forall i :: 0 <= i < |s| ==> s[i] != '\r'
  }

  lemma {:induction false} SplitTerminated(lines: seq<string>)
    requires forall k :: 0 <= k < |lines| ==> NoCarriageReturn(lines[k])
    ensures Split(Terminated(lines), "\r\n") == lines + [""]
    decreases |lines|
  {
    if |lines| == 0 {
      NoCharNoMatch("", '\r');
      assert Split("", "\r\n") == [""];
    } else {
      var head := lines[0];
      forall i | 0 <= i <= |head|
        ensures !MatchAt(head + "\r\n", "\r\n", i) || i == |head|
      {
        if i < |head| {
          assert (head + "\r\n")[i] == head[i];
          assert (head + "\r\n")[i..i + 2][0] == head[i];
        }
      }
      SplitCons(head, "\r\n", Terminated(lines[1..]));
      SplitTerminated(lines[1..]);
      assert lines == [head] + lines[1..];
    }
  }

  lemma {:induction false} RemoveEmptyKeepsNonEmpty(lines: seq<string>)
    requires forall k :: 0 <= k < |lines| ==> |lines[k]| > 0
    ensures RemoveEmpty(lines + [""]) == lines
    decreases |lines|
  {
    if |lines| > 0 {
      assert (lines + [""])[1..] == lines[1..] + [""];
      RemoveEmptyKeepsNonEmpty(lines[1..]);
      assert lines == [lines[0]] + lines[1..];
    }
  }

  /** For a status line followed by header lines, each ended by "\r\n", the
      parser sees exactly the header lines: the status line is never parsed
      as a header. */
  lemma HeaderLinesOfReply(status: string, headers: seq<string>)
    requires |status| > 0 && NoCarriageReturn(status)
    requires forall k :: 0 <= k < |headers| ==> |headers[k]| > 0 && NoCarriageReturn(headers[k])
    ensures HeaderLines(Terminated([status] + headers)) == headers
  {
    var lines := [status] + headers;
    assert forall k :: 1 <= k < |lines| ==> lines[k] == headers[k - 1];
    SplitTerminated(lines);
    RemoveEmptyKeepsNonEmpty(lines);
    assert lines[1..] == headers;
  }

  // ------------------------------------------------------------ the example reply

  lemma AbsentCarriageReturn(s: string)
    requires '\r' !in s
    ensures NoCarriageReturn(s)
  {
    forall i | 0 <= i < |s| ensures s[i] != '\r' {
      assert s[i] in s;
    }
  }

  /** The header keys of the example reply a TL-WR740N router sends, in order. */
  const SampleKeys: seq<string> := ["CACHE-CONTROL", "DATE", "EXT", "LOCATION", "SERVER", "ST", "USN"]

  /** A reply laid out like the example: one "key: value" line per sample key,
      the LOCATION line carrying the location. */
  function SampleShaped(values: seq<string>, location: string): (r: seq<string>)
    requires |values| == |SampleKeys|
    ensures |r| == |SampleKeys|
  {
    seq(|SampleKeys|, k requires 0 <= k < |SampleKeys| =>
      SampleKeys[k] + ":" + (if k == 3 then " " + location else values[k]))
  }

  lemma SampleKeysHaveNoColon()
    ensures forall k, i :: 0 <= k < |SampleKeys| && 0 <= i < |SampleKeys[k]| ==> SampleKeys[k][i] != ':'
  {
    forall k | 0 <= k < |SampleKeys| ensures ':' !in SampleKeys[k] {
    }
    forall k, i | 0 <= k < |SampleKeys| && 0 <= i < |SampleKeys[k]| ensures SampleKeys[k][i] != ':' {
      assert SampleKeys[k][i] in SampleKeys[k];
    }
  }

  lemma SampleKeysDistinct()
    ensures forall i, j :: 0 <= i < j < |SampleKeys| ==> Upper(SampleKeys[i]) != Upper(SampleKeys[j])
  {
    assert Upper(SampleKeys[2])[0] == 'E' && Upper(SampleKeys[6])[0] == 'U';
  }

  lemma SampleShapedLines(values: seq<string>, location: string)
    requires |values| == |SampleKeys|
    requires forall k :: 0 <= k < |values| ==> NoCarriageReturn(values[k])
    requires NoCarriageReturn(location)
    ensures forall k :: 0 <= k < |SampleKeys| ==>
      |SampleShaped(values, location)[k]| > 0 && NoCarriageReturn(SampleShaped(values, location)[k])
  {
    var lines := SampleShaped(values, location);
    forall k | 0 <= k < |SampleKeys| ensures NoCarriageReturn(lines[k]) {
      assert '\r' !in SampleKeys[k];
      var v := if k == 3 then " " + location else values[k];
      assert lines[k] == SampleKeys[k] + ":" + v;
      forall i | 0 <= i < |lines[k]| ensures lines[k][i] != '\r' {
        if i < |SampleKeys[k]| {
          assert lines[k][i] in SampleKeys[k];
        } else if i > |SampleKeys[k]| {
          assert lines[k][i] == v[i - |SampleKeys[k]| - 1];
        }
      }
    }
  }

  lemma SampleShapedHeaders(values: seq<string>, location: string)
    requires |values| == |SampleKeys|
    requires |location| > 0 && IsTrimmed(location)
    ensures forall k :: 0 <= k < |SampleKeys| ==> ParseLines(SampleShaped(values, location))[k].key == SampleKeys[k]
    ensures ParseLines(SampleShaped(values, location))[3].value == location
  {
    SampleShapedKeys(values, location);
    SampleShapedLocation(values, location);
  }

  lemma SampleShapedKeys(values: seq<string>, location: string)
    requires |values| == |SampleKeys|
    ensures forall k :: 0 <= k < |SampleKeys| ==> ParseLines(SampleShaped(values, location))[k].key == SampleKeys[k]
  {
    var lines := SampleShaped(values, location);
    SampleKeysHaveNoColon();
    forall k | 0 <= k < |SampleKeys| ensures ParseLine(lines[k]).key == SampleKeys[k] {
      ParseLineOf(SampleKeys[k], if k == 3 then " " + location else values[k]);
    }
  }

  lemma SampleShapedLocation(values: seq<string>, location: string)
    requires |values| == |SampleKeys|
    requires |location| > 0 && IsTrimmed(location)
    ensures ParseLines(SampleShaped(values, location))[3].value == location
  {
    var lines := SampleShaped(values, location);
    SampleKeysHaveNoColon();
    ParseLineOf(SampleKeys[3], " " + location);
    TrimPadded(" ", location, "");
    assert " " + location + "" == " " + location;
    assert ParseLines(lines)[3] == ParseLine(lines[3]);
  }

  lemma SampleShapedDistinct(values: seq<string>, location: string)
    requires |values| == |SampleKeys|
    requires |location| > 0 && IsTrimmed(location)
    ensures DistinctKeys(ParseLines(SampleShaped(values, location)))
  {
    SampleShapedHeaders(values, location);
    SampleKeysDistinct();
  }

  lemma LocationKeyCase()
    ensures EqualsIgnoreCase("Location", SampleKeys[3])
  {
    assert Upper("Location") == "LOCATION";
  }

  lemma LocationOfSampleHeaders(message: string, values: seq<string>, location: string)
    requires |values| == |SampleKeys|
    requires |location| > 0 && IsTrimmed(location)
    requires HeaderLines(message) == SampleShaped(values, location)
    ensures Parse(message).Ok?
    ensures Get(Parse(message).value, "Location") == Ok(location)
  {
    SampleShapedDistinct(values, location);
    SampleShapedHeaders(values, location);
    LocationKeyCase();
    LookupIgnoresCase(message, 3, "Location");
  }

  /** A reply laid out like the example (for instance the TL-WR740N reply
      with LOCATION "http://192.168.0.1:1900/igd.xml") parses, and looking
      up "Location" in any case gives the LOCATION line's value. */
  lemma SampleReplyLocation(status: string, values: seq<string>, location: string)
    requires |status| > 0 && NoCarriageReturn(status)
    requires |values| == |SampleKeys|
    requires forall k :: 0 <= k < |values| ==> NoCarriageReturn(values[k])
    requires |location| > 0 && IsTrimmed(location) && NoCarriageReturn(location)
    ensures Parse(Terminated([status] + SampleShaped(values, location))).Ok?
    ensures Get(Parse(Terminated([status] + SampleShaped(values, location))).value, "Location") == Ok(location)
  {
    var lines := SampleShaped(values, location);
    SampleShapedLines(values, location);
    HeaderLinesOfReply(status, lines);
    LocationOfSampleHeaders(Terminated([status] + lines), values, location);
  }
}

module Ssdp {
  import opened Wrappers
  import opened Exceptions
  import opened Text

  const ServiceUrnPrefix: string := "urn:schemas-upnp-org:service:"

  /** The services Open.Nat/UpnpSearcher.cs recognises, in priority order. */
  const OpenNatServices: seq<string> :=
    ["WANIPConnection:1", "WANIPConnection:2", "WANPPPConnection:1", "WANPPPConnection:2", "InternetGatewayDevice:1"]

  /** The services src/Mono.Nat/UpnpSearcher.cs recognises, in priority order
      (each name formatted with the ":1" version). */
  const MonoNatServices: seq<string> := ["WANIPConnection:1", "InternetGatewayDevice:1", "WANPPPConnection:1"]

  /** StringExtensions.ContainsIgnoreCase: IndexOf(pattern, OrdinalIgnoreCase) >= 0. */
  function ContainsIgnoreCase(s: string, pattern: string): (r: bool)
    ensures r <==> exists i :: 0 <= i <= |s| && MatchAtIgnoreCase(s, pattern, i)
  {
    IndexOfIgnoreCase(s, pattern, 0) >= 0
  }

  /** The URN of the first service in 'names' whose URN occurs in the reply,
      ignoring case (FirstOrDefault over the names in order). */
  function FindService(data: string, names: seq<string>): (r: Option<string>)
    ensures r.None? <==> forall k :: 0 <= k < |names| ==> !ContainsIgnoreCase(data, ServiceUrnPrefix + names[k])
    ensures r.Some? ==> exists k :: (0 <= k < |names| && r.value == ServiceUrnPrefix + names[k]
                                     && ContainsIgnoreCase(data, r.value)
                                     && forall j :: 0 <= j < k ==> !ContainsIgnoreCase(data, ServiceUrnPrefix + names[j]))
    decreases |names|
  {
    if |names| == 0 then None
    else if ContainsIgnoreCase(data, ServiceUrnPrefix + names[0]) then Some(ServiceUrnPrefix + names[0])
    else
      var r := FindService(data, names[1..]);
      assert forall k :: 1 <= k < |names| ==> names[k] == names[1..][k - 1];
      r
  }

  const LocationKey: string := "Location:"

  /** The Location extraction: the text from just after the first "Location:"
      (ignoring case) up to the next "\n", trimmed. Without the key the search
      returns -1 and the text is read from index 8. An index past the end or a
      missing "\n" makes IndexOf or Substring throw ArgumentOutOfRangeException. */
  function ExtractLocation(data: string): (r: Fallible<string>)
    ensures r.Err? ==> r.error.ArgumentOutOfRange?
    ensures r.Ok? ==> forall i :: 0 <= i < |r.value| ==> r.value[i] != '\n'
  {
    var start := IndexOfIgnoreCase(data, LocationKey, 0) + |LocationKey|;
    if start > |data| then Err(ArgumentOutOfRange("startIndex"))
    else
      var end := IndexOf(data, "\n", start);
      if end == -1 then Err(ArgumentOutOfRange("length"))
      else
        BeforeFirstNewLine(data, start, end);
        TrimKeeps(data[start..end]);
        Ok(Trim(data[start..end]))
  }

  lemma BeforeFirstNewLine(data: string, start: nat, end: int)
    requires start <= |data| && end == IndexOf(data, "\n", start) && end != -1
    ensures forall i :: 0 <= i < |data[start..end]| ==> data[start..end][i] != '\n'
  {
    forall i | start <= i < end ensures data[i] != '\n' {
      assert !MatchAt(data, "\n", i);
      assert data[i..i + 1][0] == data[i];
    }
  }

  lemma TrimKeeps(v: string)
    requires forall i :: 0 <= i < |v| ==> v[i] != '\n'
    ensures forall i :: 0 <= i < |Trim(v)| ==> Trim(v)[i] != '\n'
  {
    var a, b :| 0 <= a <= b <= |v| && Trim(v) == v[a..b];
  }

  lemma NoNewLineUntil(head: string, value: string, rest: string)
    requires forall i :: 0 <= i < |value| ==> value[i] != '\n'
    ensures IndexOf(head + value + "\n" + rest, "\n", |head|) == |head| + |value|
  {
    var data := head + value + "\n" + rest;
    assert data[|head| + |value|] == '\n';
    forall i | |head| <= i < |head| + |value| ensures data[i] != '\n' {
      assert data[i] == value[i - |head|];
    }
    FirstCharMatchFrom(data, '\n', |head|, |head| + |value|);
  }

  lemma KeyFoundAt(prefix: string, key: string, value: string, rest: string)
    requires EqualsIgnoreCase(key, LocationKey)
    requires forall i :: 0 <= i < |prefix| ==> !MatchAtIgnoreCase(prefix + key + value + "\n" + rest, LocationKey, i)
    ensures IndexOfIgnoreCase(prefix + key + value + "\n" + rest, LocationKey, 0) == |prefix|
  {
    var data := prefix + key + value + "\n" + rest;
    assert |key| == |LocationKey|;
    assert data[|prefix|..|prefix| + |key|] == key;
    assert MatchAtIgnoreCase(data, LocationKey, |prefix|);
  }

  /** A reply "prefix + key + value + \n + rest" whose first case-insensitive
      "Location:" is 'key' yields the trimmed 'value'. */
  lemma LocationAfterKey(prefix: string, key: string, value: string, rest: string)
    requires EqualsIgnoreCase(key, LocationKey)
    requires forall i :: 0 <= i < |prefix| ==> !MatchAtIgnoreCase(prefix + key + value + "\n" + rest, LocationKey, i)
    requires forall i :: 0 <= i < |value| ==> value[i] != '\n'
    ensures ExtractLocation(prefix + key + value + "\n" + rest) == Ok(Trim(value))
  {
    var data := prefix + key + value + "\n" + rest;
    var head := prefix + key;
    KeyFoundAt(prefix, key, value, rest);
    assert |key| == |LocationKey|;
    assert data == head + value + "\n" + rest;
    NoNewLineUntil(head, value, rest);
    assert data[|head|..|head| + |value|] == value;
    ExtractLocationAt(data, |head|, |head| + |value|);
  }

  lemma ExtractLocationAt(data: string, start: nat, end: nat)
    requires start == IndexOfIgnoreCase(data, LocationKey, 0) + |LocationKey| && start <= |data|
    requires end == IndexOf(data, "\n", start)
    ensures ExtractLocation(data) == Ok(Trim(data[start..end]))
  {
  }

  /** Without any "Location:" the value is read from index 8, the position
      -1 + |"Location:"|. */
  lemma MissingLocationReadsFromEight(head: string, value: string, rest: string)
    requires |head| == 8
    requires forall i :: 0 <= i <= |head + value + "\n" + rest| ==> !MatchAtIgnoreCase(head + value + "\n" + rest, LocationKey, i)
    requires forall i :: 0 <= i < |value| ==> value[i] != '\n'
    ensures ExtractLocation(head + value + "\n" + rest) == Ok(Trim(value))
  {
    var data := head + value + "\n" + rest;
    assert IndexOfIgnoreCase(data, LocationKey, 0) == -1;
    NoNewLineUntil(head, value, rest);
    assert data[8..8 + |value|] == value;
  }
}
