/**
 * The slice of System.Xml the SOAP code relies on: a document as a tree of
 * namespaced elements, SelectSingleNode("//p:name") as the first such element
 * in document order, the text of a named child element, and the text an
 * XmlWriter produces for a leaf element (start tag, escaped text, end tag).
 * The reading functions (Unescape, ReadElement, ReadElements) are the
 * model's inverses of the writer, used to state what the written text holds.
 */
module Xml {
  import opened Wrappers
  import opened Exceptions
  import opened Text

  /** An element: namespace URI, local name, its own text and its child elements. */
  datatype Element = Element(ns: string, name: string, text: string, children: seq<Element>)

  /** The elements of a tree in document order. */
  function Preorder(e: Element): (r: seq<Element>)
    ensures |r| > 0 && r[0] == e
    decreases e, 1
  {
    [e] + PreorderAll(e.children)
  }

  function PreorderAll(es: seq<Element>): seq<Element>
    decreases es, 0
  {
    if |es| == 0 then [] else Preorder(es[0]) + PreorderAll(es[1..])
  }

  predicate Named(e: Element, ns: string, name: string)
  {
    e.ns == ns && e.name == name
  }

  /** The position of the first element with that namespace and name, or |es|. */
  function FirstNamed(es: seq<Element>, ns: string, name: string): (k: nat)
    ensures k <= |es|
    ensures k < |es| ==> Named(es[k], ns, name)
    ensures forall i :: 0 <= i < k ==> !Named(es[i], ns, name)
    decreases |es|
  {
    if |es| == 0 then 0
    else if Named(es[0], ns, name) then 0
    else 1 + FirstNamed(es[1..], ns, name)
  }

  /** SelectSingleNode("//p:name") with the prefix p bound to ns: the first
      element of that namespace and name in document order, or null (None). */
  function SelectSingleNode(doc: Element, ns: string, name: string): (r: Option<Element>)
    ensures r.None? ==> forall i :: 0 <= i < |Preorder(doc)| ==> !Named(Preorder(doc)[i], ns, name)
    ensures r.Some? ==> exists k :: (0 <= k < |Preorder(doc)| && r.value == Preorder(doc)[k]
                                     && Named(r.value, ns, name)
                                     && forall i :: 0 <= i < k ==> !Named(Preorder(doc)[i], ns, name))
  {
    var k := FirstNamed(Preorder(doc), ns, name);
    if k < |Preorder(doc)| then
      assert Named(Preorder(doc)[k], ns, name);
      Some(Preorder(doc)[k])
    else None
  }

  /** The position of the first child with that local name, or |es|. */
  function FirstChild(es: seq<Element>, name: string): (k: nat)
    ensures k <= |es|
    ensures k < |es| ==> es[k].name == name
    ensures forall i :: 0 <= i < k ==> es[i].name != name
    decreases |es|
  {
    if |es| == 0 then 0
    else if es[0].name == name then 0
    else 1 + FirstChild(es[1..], name)
  }

  /** GetXmlElementText(name): the text of the first child element with that
      local name, or null (None) when there is none. */
  function ChildText(e: Element, name: string): (r: Option<string>)
    ensures r.None? <==> forall i :: 0 <= i < |e.children| ==> e.children[i].name != name
    ensures r.Some? ==> exists i :: 0 <= i < |e.children| && e.children[i].name == name && e.children[i].text == r.value
  {
    var k := FirstChild(e.children, name);
    if k < |e.children| then Some(e.children[k].text) else None
  }

  // ------------------------------------------------------------------ writing

  /** Environment.NewLine, the default of XmlWriterSettings.NewLineChars:
      "\n" on Unix-like systems and "\r\n" on Windows. */
  datatype NewLine = Lf | CrLf

  function NewLineChars(nl: NewLine): string
  {
    if nl == Lf then "\n" else "\r\n"
  }

  /** The Char production of XML 1.0 (section 2.2): tab, line feed,
      carriage return and every character from U+0020 on except U+FFFE and
      U+FFFF. A Dafny char is never a lone surrogate. */
  predicate XmlChar(c: char)
  {
    c == '\t' || c == '\n' || c == '\r' || (0x20 <= c as int && c as int != 0xFFFE && c as int != 0xFFFF)
  }

  predicate XmlText(s: string)
  {
    forall i :: 0 <= i < |s| ==> XmlChar(s[i])
  }

  predicate Special(c: char)
  {
    c == '&' || c == '<' || c == '>'
  }

  function EscapeChar(c: char): (r: string)
    ensures forall i :: 0 <= i < |r| ==> r[i] != '<' && r[i] != '>'
  {
    if c == '&' then "&amp;" else if c == '<' then "&lt;" else if c == '>' then "&gt;" else [c]
  }

  /** The entity references of element content: '&', '<' and '>' become
      "&amp;", "&lt;" and "&gt;", everything else is written as is. */
  function EscapeMarkup(s: string): (r: string)
    ensures forall i :: 0 <= i < |r| ==> r[i] != '<' && r[i] != '>'
    ensures (forall i :: 0 <= i < |s| ==> !Special(s[i])) ==> r == s
    decreases |s|
  {
    if |s| == 0 then ""
    else
      var r := EscapeChar(s[0]) + EscapeMarkup(s[1..]);
      assert forall i :: 0 <= i < |r| ==> r[i] != '<' && r[i] != '>' by {
        var h := EscapeChar(s[0]);
        forall i | 0 <= i < |r| ensures r[i] != '<' && r[i] != '>' {
          if i >= |h| { assert r[i] == EscapeMarkup(s[1..])[i - |h|]; }
        }
      }
      r
  }

  /** NewLineHandling.Replace, the writer's default: "\r\n", a lone '\r'
      and a lone '\n' are each written as the newline characters. */
  function NewLines(nl: NewLine, s: string): (r: string)
    ensures (forall i :: 0 <= i < |s| ==> s[i] != '\r' && s[i] != '\n') ==> r == s
    decreases |s|
  {
    if |s| == 0 then ""
    else if s[0] == '\r' && |s| >= 2 && s[1] == '\n' then NewLineChars(nl) + NewLines(nl, s[2..])
    else if s[0] == '\r' || s[0] == '\n' then NewLineChars(nl) + NewLines(nl, s[1..])
    else
      assert forall i :: 1 <= i < |s| ==> s[1..][i - 1] == s[i];
      [s[0]] + NewLines(nl, s[1..])
  }

  /** XmlWriter.WriteString in element content under the default settings:
      line breaks as the newline characters, then the entity references. */
  function Escape(nl: NewLine, s: string): (r: string)
    ensures forall i :: 0 <= i < |r| ==> r[i] != '<' && r[i] != '>'
    ensures (forall i :: 0 <= i < |s| ==> !Special(s[i]) && s[i] != '\r' && s[i] != '\n') ==> r == s
  {
    EscapeMarkup(NewLines(nl, s))
  }

  // ------------------------------------------------------------------ reading

  /** Reading text content back: the three entity references become the
      characters they stand for. */
  function Unescape(s: string): string
    decreases |s|
  {
    if |s| == 0 then ""
    else if |s| >= 5 && s[..5] == "&amp;" then "&" + Unescape(s[5..])
    else if |s| >= 4 && s[..4] == "&lt;" then "<" + Unescape(s[4..])
    else if |s| >= 4 && s[..4] == "&gt;" then ">" + Unescape(s[4..])
    else [s[0]] + Unescape(s[1..])
  }

  /** The end-of-line handling of section 2.11 of XML 1.0: a reader passes
      "\r\n" and a lone '\r' on as '\n'. */
  function LineEnds(s: string): (r: string)
    ensures (forall i :: 0 <= i < |s| ==> s[i] != '\r') ==> r == s
    decreases |s|
  {
    if |s| == 0 then ""
    else if s[0] == '\r' && |s| >= 2 && s[1] == '\n' then "\n" + LineEnds(s[2..])
    else if s[0] == '\r' then "\n" + LineEnds(s[1..])
    else
      assert forall i :: 1 <= i < |s| ==> s[1..][i - 1] == s[i];
      [s[0]] + LineEnds(s[1..])
  }

  /** The text a reader gets from element content as written. */
  function ReadText(e: string): string
  {
    LineEnds(Unescape(e))
  }

  lemma UnescapeChar(c: char, rest: string)
    ensures Unescape(EscapeChar(c) + rest) == [c] + Unescape(rest)
  {
    var t := EscapeChar(c) + rest;
    if c == '&' {
      assert t[..5] == "&amp;" && t[5..] == rest;
    } else if c == '<' {
      assert t[..4] == "&lt;" && t[4..] == rest;
      assert |t| >= 5 ==> t[..5] != "&amp;" by { if |t| >= 5 { assert t[1] != "&amp;"[1]; } }
    } else if c == '>' {
      assert t[..4] == "&gt;" && t[4..] == rest;
      assert |t| >= 5 ==> t[..5] != "&amp;" by { if |t| >= 5 { assert t[1] != "&amp;"[1]; } }
      assert t[..4] != "&lt;" by { assert t[1] != "&lt;"[1]; }
    } else {
      assert t[0] == c && t[1..] == rest;
      assert |t| >= 5 ==> t[..5] != "&amp;" by { if |t| >= 5 { assert t[0] != "&amp;"[0]; } }
      assert |t| >= 4 ==> t[..4] != "&lt;" by { if |t| >= 4 { assert t[0] != "&lt;"[0]; } }
      assert |t| >= 4 ==> t[..4] != "&gt;" by { if |t| >= 4 { assert t[0] != "&gt;"[0]; } }
    }
  }

  /** Unescaping text with entity references gives the original text. */
  lemma {:induction false} UnescapeMarkup(s: string)
    ensures Unescape(EscapeMarkup(s)) == s
    decreases |s|
  {
    if |s| > 0 {
      UnescapeChar(s[0], EscapeMarkup(s[1..]));
      UnescapeMarkup(s[1..]);
      assert s == [s[0]] + s[1..];
    }
  }

  /** A reader sees the same line ends whichever newline characters the
      writer used. */
  lemma {:induction false} LineEndsNewLines(nl: NewLine, s: string)
    ensures LineEnds(NewLines(nl, s)) == LineEnds(s)
    decreases |s|
  {
    if |s| > 0 {
      if s[0] == '\r' && |s| >= 2 && s[1] == '\n' {
        LineEndsNewLines(nl, s[2..]);
        LineEndsOfNewLine(nl, NewLines(nl, s[2..]));
      } else if s[0] == '\r' || s[0] == '\n' {
        LineEndsNewLines(nl, s[1..]);
        LineEndsOfNewLine(nl, NewLines(nl, s[1..]));
      } else {
        LineEndsNewLines(nl, s[1..]);
        LineEndsOfChar(s[0], NewLines(nl, s[1..]));
      }
    }
  }

  lemma LineEndsOfNewLine(nl: NewLine, rest: string)
    ensures LineEnds(NewLineChars(nl) + rest) == "\n" + LineEnds(rest)
  {
    var t := NewLineChars(nl) + rest;
    if nl == Lf {
      assert t[0] == '\n' && t[1..] == rest;
    } else {
      assert t[0] == '\r' && t[1] == '\n' && t[2..] == rest;
    }
  }

  lemma LineEndsOfChar(c: char, rest: string)
    requires c != '\r'
    ensures LineEnds([c] + rest) == [c] + LineEnds(rest)
  {
    assert ([c] + rest)[1..] == rest;
  }

  /** Written text reads back with its line ends normalised, and otherwise
      unchanged. */
  lemma ReadEscaped(nl: NewLine, s: string)
    ensures ReadText(Escape(nl, s)) == LineEnds(s)
  {
    UnescapeMarkup(NewLines(nl, s));
    LineEndsNewLines(nl, s);
  }

  // ------------------------------------------------------------------ elements

  function StartTag(name: string): string
  {
    "<" + name + ">"
  }

  function EndTag(name: string): string
  {
    "</" + name + ">"
  }

  /** The short form the writer closes an element without content in. */
  function EmptyTag(name: string): string
  {
    "<" + name + " />"
  }

  /** WriteFullElement(writer, name, value): WriteStartElement, WriteString
      and WriteEndElement. An element without content is closed in the
      short form; a character XML does not allow makes WriteString raise an
      ArgumentException without a parameter name (CheckCharacters). */
  function FullElement(nl: NewLine, name: string, value: string): (r: Fallible<string>)
    ensures r.Ok? <==> XmlText(value)
    ensures r.Err? ==> r.error == Argument("")
  {
    if !XmlText(value) then Err(Argument(""))
    else if |value| == 0 then Ok(EmptyTag(name))
    else Ok(StartTag(name) + Escape(nl, value) + EndTag(name))
  }

  /** A tag name the fragment reader can delimit: no markup and no
      white space or slash, which no XML name holds. */
  predicate PlainName(name: string)
  {
    forall i :: 0 <= i < |name| ==> name[i] != '<' && name[i] != '>' && name[i] != ' ' && name[i] != '/'
  }

  /** Finds one leaf element, "<n>text</n>" or "<n />", at the front of a
      text: its name, its text as written and what follows it. */
  function ScanElement(text: string): (r: Option<(string, string, string)>)
    ensures r.Some? ==> |r.value.2| < |text|
  {
    if |text| == 0 || text[0] != '<' then None
    else
      var close := IndexOf(text, ">", 1);
      if close == -1 then None
      else if close >= 3 && text[close - 2..close] == " /" then Some((text[1..close - 2], "", text[close + 1..]))
      else
        var open := IndexOf(text, "<", close + 1);
        if open == -1 then None
        else ScanTags(text, close, open)
  }

  /** The element once its start tag is known to end at 'close' and its
      text at 'open': found when the end tag that follows names the start
      tag's name. */
  function ScanTags(text: string, close: nat, open: nat): (r: Option<(string, string, string)>)
    requires 1 <= close < open <= |text|
    ensures r.Some? ==> |r.value.2| < |text|
  {
    var name := text[1..close];
    var tail := EndTag(name);
    if open + |tail| <= |text| && text[open..open + |tail|] == tail then
      Some((name, text[close + 1..open], text[open + |tail|..]))
    else None
  }

  /** Reads one leaf element off the front of a text: its name, its text
      as a reader gets it and what follows it. */
  function ReadElement(text: string): (r: Option<(string, string, string)>)
    ensures r.Some? ==> |r.value.2| < |text|
  {
    match ScanElement(text)
    case None => None
    case Some((name, e, rest)) => Some((name, ReadText(e), rest))
  }

  /** Where the start tag of an element ends ('close'), where its content
      'e' ends ('open') and what follows the content ('after'). */
  predicate Layout(text: string, name: string, close: nat, open: nat, e: string, after: string)
  {
    && 1 <= close < open <= |text| && text[0] == '<' && text[close - 1] != '/'
    && IndexOf(text, ">", 1) == close && IndexOf(text, "<", close + 1) == open
    && text[1..close] == name && text[close + 1..open] == e && text[open..] == after
  }

  /** ScanElement once the start tag is known to end at 'close' and the
      content at 'open'. */
  lemma ScanElementAt(text: string, name: string, close: nat, open: nat, e: string, rest: string)
    requires Layout(text, name, close, open, e, EndTag(name) + rest)
    ensures ScanElement(text) == Some((name, e, rest))
  {
    assert !(close >= 3 && text[close - 2..close] == " /") by {
      if close >= 3 { assert text[close - 2..close][1] == text[close - 1]; }
    }
    assert ScanTags(text, close, open) == Some((name, e, rest)) by {
      SliceAfter(text, open, EndTag(name), rest);
    }
  }

  /** The short form of a plain name reads as that name with no text. */
  lemma ScanEmptyElement(name: string, rest: string)
    requires PlainName(name)
    ensures ScanElement(EmptyTag(name) + rest) == Some((name, "", rest))
  {
    var tag := EmptyTag(name);
    var text := tag + rest;
    var close := |name| + 3;
    assert text[..|tag|] == tag;
    forall i | 1 <= i < close ensures text[i] != '>' {
      assert text[i] == tag[i];
      if i <= |name| { assert tag[i] == name[i - 1]; }
    }
    assert text[close] == tag[close] == '>';
    FirstCharMatchFrom(text, '>', 1, close);
    assert text[close - 2..close] == tag[close - 2..close] == " /";
    assert text[1..close - 2] == tag[1..close - 2] == name;
    assert text[close + 1..] == rest;
  }

  /** Reads a run of leaf elements covering the whole text. */
  function ReadElements(text: string): Option<seq<(string, string)>>
    decreases |text|
  {
    if |text| == 0 then Some([])
    else
      match ReadElement(text)
      case None => None
      case Some((name, value, rest)) =>
        match ReadElements(rest)
        case None => None
        case Some(more) => Some([(name, value)] + more)
  }

  /** The fragments of WriteFullElement for each (name, value) in order;
      the first value XML does not allow stops the writing. */
  function Fragments(nl: NewLine, fields: seq<(string, string)>): (r: Fallible<string>)
    ensures r.Ok? <==> forall i :: 0 <= i < |fields| ==> XmlText(fields[i].1)
    ensures r.Err? ==> r.error == Argument("")
    decreases |fields|
  {
    if |fields| == 0 then Ok("")
    else
      assert forall i :: 1 <= i < |fields| ==> fields[1..][i - 1] == fields[i];
      var head :- FullElement(nl, fields[0].0, fields[0].1);
      var tail :- Fragments(nl, fields[1..]);
      Ok(head + tail)
  }

  /** The (name, text) pairs a reader gets for written fields. */
  function ReadBack(fields: seq<(string, string)>): (r: seq<(string, string)>)
    ensures |r| == |fields|
  {
    seq(|fields|, i requires 0 <= i < |fields| => (fields[i].0, LineEnds(fields[i].1)))
  }

  /** The start tag of a plain name ends at the first '>'. */
  lemma StartTagEnd(name: string, after: string)
    requires PlainName(name)
    ensures IndexOf(StartTag(name) + after, ">", 1) == 1 + |name|
  {
    var text := StartTag(name) + after;
    assert text[..|StartTag(name)|] == StartTag(name);
    forall i | 1 <= i < 1 + |name| ensures text[i] != '>' {
      assert text[i] == StartTag(name)[i] == name[i - 1];
    }
    assert text[1 + |name|] == StartTag(name)[1 + |name|] == '>';
    FirstCharMatchFrom(text, '>', 1, 1 + |name|);
  }

  /** Content without '<' runs up to the end tag that follows it. */
  lemma ContentEnd(prefix: string, e: string, closing: string, rest: string)
    requires forall i :: 0 <= i < |e| ==> e[i] != '<'
    ensures IndexOf(prefix + e + EndTag(closing) + rest, "<", |prefix|) == |prefix| + |e|
  {
    var text := prefix + e + EndTag(closing) + rest;
    forall i | |prefix| <= i < |prefix| + |e| ensures text[i] != '<' {
      assert text[i] == e[i - |prefix|];
    }
    assert text[|prefix| + |e|] == EndTag(closing)[0] == '<';
    FirstCharMatchFrom(text, '<', |prefix|, |prefix| + |e|);
  }

  /** Reading an element whose start tag is plain and whose content has no
      '<': the start tag and the content end where they do. */
  lemma TaggedBounds(name: string, e: string, closing: string, rest: string)
    requires PlainName(name)
    requires forall i :: 0 <= i < |e| ==> e[i] != '<'
    ensures IndexOf(StartTag(name) + e + EndTag(closing) + rest, ">", 1) == 1 + |name|
    ensures IndexOf(StartTag(name) + e + EndTag(closing) + rest, "<", 2 + |name|) == 2 + |name| + |e|
  {
    var start, tail := StartTag(name), EndTag(closing) + rest;
    assert start + e + EndTag(closing) + rest == start + (e + tail);
    StartTagEnd(name, e + tail);
    ContentEnd(start, e, closing, rest);
  }

  /** The name, the content and the end tag of such an element. */
  lemma TaggedPieces(name: string, e: string, closing: string, rest: string)
    ensures (StartTag(name) + e + EndTag(closing) + rest)[1..1 + |name|] == name
    ensures (StartTag(name) + e + EndTag(closing) + rest)[2 + |name|..2 + |name| + |e|] == e
    ensures (StartTag(name) + e + EndTag(closing) + rest)[2 + |name| + |e|..] == EndTag(closing) + rest
  {
    var start, tail := StartTag(name), EndTag(closing) + rest;
    var text := start + e + EndTag(closing) + rest;
    assert text == start + (e + tail);
    assert text[..|start|] == start;
    assert text[1..1 + |name|] == start[1..1 + |name|] == name;
    assert text[|start|..] == e + tail;
    assert text[|start|..][..|e|] == e;
    assert text[|start| + |e|..] == tail;
  }

  /** Reading a written element back finds its name, its escaped content
      and what follows. */
  lemma ReadWrittenElement(name: string, e: string, rest: string)
    requires PlainName(name)
    requires forall i :: 0 <= i < |e| ==> e[i] != '<'
    ensures ReadElement(StartTag(name) + e + EndTag(name) + rest) == Some((name, ReadText(e), rest))
  {
    ScanWrittenElement(name, e, rest);
  }

  lemma ScanWrittenElement(name: string, e: string, rest: string)
    requires PlainName(name)
    requires forall i :: 0 <= i < |e| ==> e[i] != '<'
    ensures ScanElement(StartTag(name) + e + EndTag(name) + rest) == Some((name, e, rest))
  {
    WrittenLayout(name, e, name, rest);
    ScanElementAt(StartTag(name) + e + EndTag(name) + rest, name, 1 + |name|, 2 + |name| + |e|, e, rest);
  }

  /** Where the tags, the name and the content of an element sit. */
  lemma WrittenLayout(name: string, e: string, closing: string, rest: string)
    requires PlainName(name)
    requires forall i :: 0 <= i < |e| ==> e[i] != '<'
    ensures var text := StartTag(name) + e + EndTag(closing) + rest;
            Layout(text, name, 1 + |name|, 2 + |name| + |e|, e, EndTag(closing) + rest)
  {
    TaggedBounds(name, e, closing, rest);
    TaggedPieces(name, e, closing, rest);
    var text := StartTag(name) + e + EndTag(closing) + rest;
    assert text[0] == '<';
    assert text[|name|] != '/' by {
      if |name| > 0 { assert text[|name|] == name[|name| - 1]; }
    }
  }

  /** Where a text continues with p and then rest. */
  lemma SliceAfter(text: string, k: nat, p: string, rest: string)
    requires k <= |text| && text[k..] == p + rest
    ensures k + |p| <= |text| && text[k..k + |p|] == p && text[k + |p|..] == rest
  {
    assert text[k..k + |p|] == text[k..][..|p|];
    assert text[k + |p|..] == text[k..][|p|..];
  }

  /** A written element reads back as its name and its value with the
      line ends a reader normalises, followed by the rest of the text. */
  lemma ReadFullElement(nl: NewLine, name: string, value: string, rest: string)
    requires PlainName(name)
    ensures FullElement(nl, name, value).Ok? ==>
            ReadElement(FullElement(nl, name, value).value + rest) == Some((name, LineEnds(value), rest))
  {
    if XmlText(value) {
      if |value| == 0 {
        ScanEmptyElement(name, rest);
      } else {
        ReadWrittenElement(name, Escape(nl, value), rest);
        ReadEscaped(nl, value);
      }
    }
  }

  /** An element whose end tag names something else is not read. */
  lemma ReadMismatchedElement(name: string, e: string, closing: string, rest: string)
    requires PlainName(name) && PlainName(closing) && name != closing
    requires forall i :: 0 <= i < |e| ==> e[i] != '<'
    ensures ReadElement(StartTag(name) + e + EndTag(closing) + rest) == None
  {
    var text := StartTag(name) + e + EndTag(closing) + rest;
    var close, open := 1 + |name|, 2 + |name| + |e|;
    var tail := EndTag(name);
    var found := EndTag(closing) + rest;
    WrittenLayout(name, e, closing, rest);
    if open + |tail| <= |text| {
      assert text[open..open + |tail|] == found[..|tail|];
      TagMismatch(name, closing, rest);
    }
    ScanElementMissesAt(text, close, open);
  }

  /** ScanElement fails when the end tag after the content is not the
      start tag's. */
  lemma ScanElementMissesAt(text: string, close: nat, open: nat)
    requires 1 <= close < open <= |text| && Layout(text, text[1..close], close, open, text[close + 1..open], text[open..])
    requires !(open + |EndTag(text[1..close])| <= |text|
               && text[open..open + |EndTag(text[1..close])|] == EndTag(text[1..close]))
    ensures ScanElement(text) == None
  {
  }

  /** The first position where two texts of one length differ. */
  function FirstDifference(a: string, b: string): (j: nat)
    requires |a| == |b| && a != b
    ensures j < |a| && a[j] != b[j]
    decreases |a|
  {
    if a[0] != b[0] then 0
    else
      assert a == [a[0]] + a[1..] && b == [b[0]] + b[1..];
      1 + FirstDifference(a[1..], b[1..])
  }

  /** The end tag of one plain name does not begin a text that starts with
      the end tag of another. */
  lemma TagMismatch(name: string, closing: string, rest: string)
    requires PlainName(name) && PlainName(closing) && name != closing
    requires |EndTag(name)| <= |EndTag(closing) + rest|
    ensures (EndTag(closing) + rest)[..|EndTag(name)|] != EndTag(name)
  {
    var tail := EndTag(name);
    var found := EndTag(closing) + rest;
    var j: nat;
    if |closing| == |name| {
      var d := FirstDifference(closing, name);
      j := 2 + d;
      assert found[j] == closing[d];
    } else if |closing| < |name| {
      j := 2 + |closing|;
      assert found[j] == '>';
      assert tail[j] == name[|closing|];
    } else {
      j := 2 + |name|;
      assert found[j] == closing[|name|];
    }
    assert found[..|tail|][j] != tail[j];
  }

  /** Reading the written fragments back gives the fields, names and values,
      in the order they were written, with the values' line ends
      normalised. */
  lemma {:induction false} ReadFragments(nl: NewLine, fields: seq<(string, string)>)
    requires forall i :: 0 <= i < |fields| ==> PlainName(fields[i].0)
    ensures Fragments(nl, fields).Ok? ==> ReadElements(Fragments(nl, fields).value) == Some(ReadBack(fields))
    decreases |fields|
  {
    if |fields| > 0 && Fragments(nl, fields).Ok? {
      var f, more := fields[0], fields[1..];
      var head := FullElement(nl, f.0, f.1).value;
      var rest := Fragments(nl, more).value;
      ReadFragments(nl, more);
      ReadFullElement(nl, f.0, f.1, rest);
      ReadElementsStep(head + rest, f.0, LineEnds(f.1), rest, ReadBack(more));
      assert Fragments(nl, fields).value == head + rest;
      ReadBackCons(fields);
    }
  }

  lemma ReadBackCons(fields: seq<(string, string)>)
    requires |fields| > 0
    ensures ReadBack(fields) == [(fields[0].0, LineEnds(fields[0].1))] + ReadBack(fields[1..])
  {
    var r, more := ReadBack(fields), ReadBack(fields[1..]);
    forall i | 1 <= i < |fields| ensures r[i] == more[i - 1] {
      assert fields[1..][i - 1] == fields[i];
    }
  }

  /** A run of elements read after a first one. */
  lemma ReadElementsStep(text: string, name: string, value: string, rest: string, more: seq<(string, string)>)
    requires ReadElement(text) == Some((name, value, rest)) && ReadElements(rest) == Some(more)
    ensures ReadElements(text) == Some([(name, value)] + more)
  {
  }
}
