/**
 * The System.String operations the modelled code relies on: ordinal and
 * case-insensitive search, Trim, Split and Join.
 */
module Text {

  // ------------------------------------------------------------ white space

  /** Char.IsWhiteSpace: the Unicode space separators, line and paragraph
      separators, U+0009..U+000D and U+0085. */
  predicate IsWhiteSpace(c: char)
  {
    || c == ' ' || ('\t' <= c <= '\r') || c == '\U{85}' || c == '\U{A0}' || c == '\U{1680}'
    || ('\U{2000}' <= c <= '\U{200A}') || c == '\U{2028}' || c == '\U{2029}'
    || c == '\U{202F}' || c == '\U{205F}' || c == '\U{3000}'
  }

  predicate AllWhiteSpace(s: string)
  {
    forall i :: 0 <= i < |s| ==> IsWhiteSpace(s[i])
  }

  /** No white space at either end. */
  predicate IsTrimmed(s: string)
  {
    |s| > 0 ==> !IsWhiteSpace(s[0]) && !IsWhiteSpace(s[|s| - 1])
  }

  /** The number of white-space characters that start s. */
  function LeadingWhiteSpace(s: string): (k: nat)
    ensures k <= |s|
    ensures AllWhiteSpace(s[..k])
    ensures k < |s| ==> !IsWhiteSpace(s[k])
    decreases |s|
  {
    if |s| > 0 && IsWhiteSpace(s[0]) then
      var k := 1 + LeadingWhiteSpace(s[1..]);
      assert s[..k] == [s[0]] + s[1..][..k - 1];
      k
    else 0
  }

  /** The number of white-space characters that end s. */
  function TrailingWhiteSpace(s: string): (k: nat)
    ensures k <= |s|
    ensures AllWhiteSpace(s[|s| - k..])
    ensures k < |s| ==> !IsWhiteSpace(s[|s| - k - 1])
    decreases |s|
  {
    if |s| > 0 && IsWhiteSpace(s[|s| - 1]) then
      var k := 1 + TrailingWhiteSpace(s[..|s| - 1]);
      assert s[|s| - k..] == s[..|s| - 1][|s| - k..] + [s[|s| - 1]];
      k
    else 0
  }

  /** String.Trim(): s without its leading and trailing white space. */
  function Trim(s: string): (r: string)
    ensures IsTrimmed(r)
    ensures exists a, b :: 0 <= a <= b <= |s| && r == s[a..b] && AllWhiteSpace(s[..a]) && AllWhiteSpace(s[b..])
  {
    var a := LeadingWhiteSpace(s);
    var t := s[a..];
    var b := a + |t| - TrailingWhiteSpace(t);
    assert t[..|t| - TrailingWhiteSpace(t)] == s[a..b];
    assert s[b..] == t[|t| - TrailingWhiteSpace(t)..];
    s[a..b]
  }

  /** Trim removes exactly the white-space padding around trimmed text. */
  lemma TrimPadded(front: string, body: string, back: string)
    requires AllWhiteSpace(front) && AllWhiteSpace(back)
    requires |body| > 0 && IsTrimmed(body)
    ensures Trim(front + body + back) == body
  {
    var s := front + body + back;
    LeadingWhiteSpaceOfPadded(front, body + back);
    assert s == front + (body + back);
    assert s[|front|..] == body + back;
    TrailingWhiteSpaceOfPadded(body, back);
    assert s[|front|..|front| + |body|] == body;
  }

  lemma {:induction false} LeadingWhiteSpaceOfPadded(front: string, rest: string)
    requires AllWhiteSpace(front)
    requires |rest| > 0 && !IsWhiteSpace(rest[0])
    ensures LeadingWhiteSpace(front + rest) == |front|
    decreases |front|
  {
    if |front| > 0 {
      assert (front + rest)[1..] == front[1..] + rest;
      LeadingWhiteSpaceOfPadded(front[1..], rest);
    } else {
      assert front + rest == rest;
    }
  }

  lemma {:induction false} TrailingWhiteSpaceOfPadded(body: string, back: string)
    requires AllWhiteSpace(back)
    requires |body| > 0 && !IsWhiteSpace(body[|body| - 1])
    ensures TrailingWhiteSpace(body + back) == |back|
    decreases |back|
  {
    if |back| > 0 {
      assert (body + back)[..|body + back| - 1] == body + back[..|back| - 1];
      TrailingWhiteSpaceOfPadded(body, back[..|back| - 1]);
    } else {
      assert body + back == body;
    }
  }

  // ------------------------------------------------------------ case folding

  /** Char.ToUpperInvariant restricted to ASCII letters; every other character
      is its own upper case. */
  function UpperChar(c: char): char
  {
    if 'a' <= c <= 'z' then (c as int - 32) as char else c
  }

  /** String.ToUpper(). */
  function Upper(s: string): (r: string)
    ensures |r| == |s|
    ensures forall i :: 0 <= i < |s| ==> r[i] == UpperChar(s[i])
  {
    seq(|s|, i requires 0 <= i < |s| => UpperChar(s[i]))
  }

  /** Ordinal case-insensitive equality (StringComparison.OrdinalIgnoreCase). */
  predicate EqualsIgnoreCase(a: string, b: string)
  {
    Upper(a) == Upper(b)
  }

  lemma UpperSlice(s: string, i: nat, j: nat)
    requires i <= j <= |s|
    ensures Upper(s)[i..j] == Upper(s[i..j])
  {
  }

  lemma UpperConcat(a: string, b: string)
    ensures Upper(a + b) == Upper(a) + Upper(b)
  {
  }

  // ------------------------------------------------------------ searching

  /** p occurs in s at position i. */
  predicate MatchAt(s: string, p: string, i: int)
  {
    0 <= i && i + |p| <= |s| && s[i..i + |p|] == p
  }

  /** String.IndexOf(p, from) with ordinal comparison: the first position at
      or after 'from' where p occurs, or -1. */
  function IndexOf(s: string, p: string, from: nat): (r: int)
    requires from <= |s|
    ensures r == -1 || (from <= r && MatchAt(s, p, r))
    ensures r == -1 <==> forall i :: from <= i <= |s| ==> !MatchAt(s, p, i)
    ensures r != -1 ==> forall i :: from <= i < r ==> !MatchAt(s, p, i)
    decreases |s| - from
  {
    if from + |p| > |s| then -1
    else if s[from..from + |p|] == p then from
    else IndexOf(s, p, from + 1)
  }

  /** p occurs in s at position i, ignoring case. */
  predicate MatchAtIgnoreCase(s: string, p: string, i: int)
  {
    0 <= i && i + |p| <= |s| && EqualsIgnoreCase(s[i..i + |p|], p)
  }

  lemma MatchAtUpper(s: string, p: string, i: int)
    ensures MatchAt(Upper(s), Upper(p), i) <==> MatchAtIgnoreCase(s, p, i)
  {
    if 0 <= i && i + |p| <= |s| {
      UpperSlice(s, i, i + |p|);
    }
  }

  /** String.IndexOf(p, from, ...IgnoreCase): the first case-insensitive
      occurrence of p at or after 'from', or -1. */
  function IndexOfIgnoreCase(s: string, p: string, from: nat): (r: int)
    requires from <= |s|
    ensures r == -1 || (from <= r && MatchAtIgnoreCase(s, p, r))
    ensures r == -1 <==> forall i :: from <= i <= |s| ==> !MatchAtIgnoreCase(s, p, i)
    ensures r != -1 ==> forall i :: from <= i < r ==> !MatchAtIgnoreCase(s, p, i)
  {
    var r := IndexOf(Upper(s), Upper(p), from);
    forall i ensures MatchAt(Upper(s), Upper(p), i) <==> MatchAtIgnoreCase(s, p, i) {
      MatchAtUpper(s, p, i);
    }
    r
  }

  /** A character that does not occur is not found. */
  lemma NoCharNoMatch(s: string, c: char)
    requires forall i :: 0 <= i < |s| ==> s[i] != c
    ensures IndexOf(s, [c], 0) == -1
  {
    forall i | 0 <= i <= |s| ensures !MatchAt(s, [c], i) {
      if i < |s| {
        assert s[i..i + 1][0] == s[i];
      }
    }
  }

  /** The first occurrence of a character is where IndexOf finds it. */
  lemma FirstCharMatch(s: string, c: char, k: nat)
    requires k < |s| && s[k] == c
    requires forall i :: 0 <= i < k ==> s[i] != c
    ensures IndexOf(s, [c], 0) == k
  {
    assert MatchAt(s, [c], k) by { assert s[k..k + 1] == [c]; }
    forall i | 0 <= i < k ensures !MatchAt(s, [c], i) {
      assert s[i..i + 1][0] == s[i];
    }
  }

  /** The first occurrence of a character at or after 'from' is where
      IndexOf(c, from) finds it. */
  lemma FirstCharMatchFrom(s: string, c: char, from: nat, k: nat)
    requires from <= k < |s| && s[k] == c
    requires forall i :: from <= i < k ==> s[i] != c
    ensures IndexOf(s, [c], from) == k
  {
    assert MatchAt(s, [c], k) by { assert s[k..k + 1] == [c]; }
    forall i | from <= i < k ensures !MatchAt(s, [c], i) {
      assert s[i..i + 1][0] == s[i];
    }
  }

  // ------------------------------------------------------------ split / join

  /** String.Split(sep) without options: the pieces between the leftmost
      non-overlapping occurrences of sep, empty pieces included. */
  function Split(s: string, sep: string): (pieces: seq<string>)
    requires |sep| > 0
    ensures |pieces| > 0
    decreases |s|
  {
    var i := IndexOf(s, sep, 0);
    if i < 0 then [s] else [s[..i]] + Split(s[i + |sep|..], sep)
  }

  /** StringSplitOptions.RemoveEmptyEntries. */
  function RemoveEmpty(pieces: seq<string>): (r: seq<string>)
    ensures forall k :: 0 <= k < |r| ==> |r[k]| > 0
    ensures forall k :: 0 <= k < |r| ==> r[k] in pieces
    ensures forall p :: p in pieces && |p| > 0 ==> p in r
  {
    if |pieces| == 0 then []
    else if |pieces[0]| == 0 then RemoveEmpty(pieces[1..])
    else [pieces[0]] + RemoveEmpty(pieces[1..])
  }

  /** String.Join(sep, pieces). */
  function Join(sep: string, pieces: seq<string>): string
  {
    if |pieces| == 0 then ""
    else if |pieces| == 1 then pieces[0]
    else pieces[0] + sep + Join(sep, pieces[1..])
  }

  /** Joining the pieces of a split with the same separator rebuilds the text. */
  lemma {:induction false} JoinSplit(s: string, sep: string)
    requires |sep| > 0
    ensures Join(sep, Split(s, sep)) == s
    decreases |s|
  {
    var i := IndexOf(s, sep, 0);
    if i >= 0 {
      var rest := s[i + |sep|..];
      JoinSplit(rest, sep);
      assert s == s[..i] + sep + rest by {
        assert s[i..i + |sep|] == sep;
      }
    }
  }

  /** The first piece of a split is the text before the first separator, and
      the remaining pieces joined again are the text after it. */
  lemma SplitFirst(s: string, sep: string)
    requires |sep| > 0
    ensures IndexOf(s, sep, 0) == -1 ==> Split(s, sep) == [s]
    ensures IndexOf(s, sep, 0) != -1 ==>
      var i := IndexOf(s, sep, 0);
      Split(s, sep)[0] == s[..i] && Join(sep, Split(s, sep)[1..]) == s[i + |sep|..]
  {
    if IndexOf(s, sep, 0) != -1 {
      SplitAt(s, sep);
    }
  }

  lemma SplitAt(s: string, sep: string)
    requires |sep| > 0 && IndexOf(s, sep, 0) != -1
    ensures var i := IndexOf(s, sep, 0);
            Split(s, sep)[0] == s[..i] && Join(sep, Split(s, sep)[1..]) == s[i + |sep|..]
  {
    var i := IndexOf(s, sep, 0);
    var rest := s[i + |sep|..];
    var pieces := Split(s, sep);
    assert pieces == [s[..i]] + Split(rest, sep);
    assert pieces[1..] == Split(rest, sep);
    JoinSplit(rest, sep);
  }

  /** A separator-free text is split into itself alone. */
  lemma SplitNoSeparator(s: string, sep: string)
    requires |sep| > 0
    requires forall i :: 0 <= i <= |s| ==> !MatchAt(s, sep, i)
    ensures Split(s, sep) == [s]
  {
  }

  /** Splitting a separator-free head followed by the separator peels off the head. */
  lemma SplitCons(head: string, sep: string, rest: string)
    requires |sep| > 0
    requires forall i :: 0 <= i <= |head| ==> !MatchAt(head + sep, sep, i) || i == |head|
    ensures Split(head + sep + rest, sep) == [head] + Split(rest, sep)
  {
    var s := head + sep + rest;
    assert MatchAt(s, sep, |head|) by {
      assert s[|head|..|head| + |sep|] == sep;
    }
    forall i | 0 <= i < |head|
      ensures !MatchAt(s, sep, i)
    {
      if MatchAt(s, sep, i) {
        assert i + |sep| <= |head| + |sep|;
        assert (head + sep)[i..i + |sep|] == s[i..i + |sep|];
        assert MatchAt(head + sep, sep, i);
      }
    }
    assert IndexOf(s, sep, 0) == |head|;
    assert s[..|head|] == head;
    assert s[|head| + |sep|..] == rest;
  }
}
