/**
 * Encoding.UTF8.GetBytes for the texts the UPnP code sends, and a decoder
 * that reads well-formed UTF-8 back (Encoding.UTF8.GetString on well-formed
 * input; ill-formed input, which GetString reads with U+FFFD, is None).
 * Characters are Unicode scalar values, so there are no lone surrogates.
 */
module Utf8 {
  import opened Wrappers
  import opened Numbers

  predicate IsScalar(n: int)
  {
    (0 <= n < 0xD800) || (0xE000 <= n < 0x11_0000)
  }

  /** The one to four bytes of a character. */
  function EncodeChar(c: char): (r: seq<byte>)
    ensures 1 <= |r| <= 4
    ensures |r| == 1 <==> c as int < 0x80
  {
    var n := c as int;
    if n < 0x80 then [n]
    else if n < 0x800 then [0xC0 + n / 64, 0x80 + n % 64]
    else if n < 0x1_0000 then [0xE0 + n / 4096, 0x80 + (n / 64) % 64, 0x80 + n % 64]
    else [0xF0 + n / 262144, 0x80 + (n / 4096) % 64, 0x80 + (n / 64) % 64, 0x80 + n % 64]
  }

  /** Encoding.UTF8.GetBytes: the characters' encodings in order. */
  function Encode(s: string): (r: seq<byte>)
    ensures |s| <= |r| <= 4 * |s|
    decreases |s|
  {
    if |s| == 0 then [] else EncodeChar(s[0]) + Encode(s[1..])
  }

  /** How many bytes a sequence starting with this byte has; 0 for a byte
      that cannot start one. */
  function SequenceLength(b: byte): nat
  {
    if b < 0x80 then 1
    else if 0xC0 <= b < 0xE0 then 2
    else if 0xE0 <= b < 0xF0 then 3
    else if 0xF0 <= b < 0xF8 then 4
    else 0
  }

  /** The code point of one whole sequence. */
  function CodePoint(b: seq<byte>): int
    requires 1 <= |b| <= 4
  {
    var b0, b1, b2, b3 := b[0] as int, if |b| > 1 then b[1] as int else 0,
                          if |b| > 2 then b[2] as int else 0, if |b| > 3 then b[3] as int else 0;
    if |b| == 1 then b0
    else if |b| == 2 then (b0 - 0xC0) * 64 + (b1 - 0x80)
    else if |b| == 3 then (b0 - 0xE0) * 4096 + (b1 - 0x80) * 64 + (b2 - 0x80)
    else (b0 - 0xF0) * 262144 + (b1 - 0x80) * 4096 + (b2 - 0x80) * 64 + (b3 - 0x80)
  }

  predicate IsContinuation(b: byte)
  {
    0x80 <= b < 0xC0
  }

  /** The least code point a sequence of k bytes may carry: anything less
      has a shorter (overlong) encoding. */
  function ShortestFrom(k: nat): int
  {
    if k <= 1 then 0 else if k == 2 then 0x80 else if k == 3 then 0x800 else 0x1_0000
  }

  /** One well-formed sequence (the table of section 3.9 of the Unicode
      Standard): the lead byte announces the length, every other byte is a
      continuation byte, and the value is a scalar value in the shortest
      form. */
  predicate WellFormed(e: seq<byte>)
  {
    && 1 <= |e| <= 4 && SequenceLength(e[0]) == |e|
    && (forall i :: 1 <= i < |e| ==> IsContinuation(e[i]))
    && ShortestFrom(|e|) <= CodePoint(e) && IsScalar(CodePoint(e))
  }

  /** Reads the characters back; None for bytes that are not well-formed
      UTF-8, so that whatever it reads is exactly what encodes to the bytes. */
  function Decode(b: seq<byte>): (r: Option<string>)
    ensures r.Some? ==> Encode(r.value) == b
    decreases |b|
  {
    if |b| == 0 then Some("")
    else
      var k := SequenceLength(b[0]);
      if k == 0 || |b| < k || !WellFormed(b[..k]) then None
      else
        match Decode(b[k..])
        case None => None
        case Some(rest) =>
          var c := CodePoint(b[..k]) as char;
          EncodeCodePoint(b[..k]);
          assert ([c] + rest)[1..] == rest;
          assert b == b[..k] + b[k..];
          Some([c] + rest)
  }

  /** A well-formed sequence is the encoding of the character it carries. */
  lemma EncodeCodePoint(e: seq<byte>)
    requires WellFormed(e)
    ensures EncodeChar(CodePoint(e) as char) == e
  {
    var n := CodePoint(e);
    if |e| == 2 {
      var q, r := e[0] as int - 0xC0, e[1] as int - 0x80;
      DivMod64(q, r);
    } else if |e| == 3 {
      var q, r := (e[0] as int - 0xE0) * 64 + (e[1] as int - 0x80), e[2] as int - 0x80;
      DivMod64(q, r);
      DivMod64(e[0] as int - 0xE0, e[1] as int - 0x80);
      assert n / 4096 == q / 64;
    } else if |e| == 4 {
      var p := (e[0] as int - 0xF0) * 64 + (e[1] as int - 0x80);
      var q, r := p * 64 + (e[2] as int - 0x80), e[3] as int - 0x80;
      DivMod64(q, r);
      DivMod64(p, e[2] as int - 0x80);
      DivMod64(e[0] as int - 0xF0, e[1] as int - 0x80);
      assert n / 4096 == q / 64 == p;
      assert n / 262144 == p / 64;
    }
  }

  lemma DivMod64(q: int, r: int)
    requires 0 <= q && 0 <= r < 64
    ensures (q * 64 + r) / 64 == q && (q * 64 + r) % 64 == r
  {
  }

  /** Decoding is the exact inverse of encoding: it reads a text back from
      bytes exactly when they are that text's encoding. */
  lemma DecodeIsInverse(b: seq<byte>, s: string)
    ensures Decode(b) == Some(s) <==> Encode(s) == b
  {
    if Encode(s) == b { DecodeEncode(s); }
  }

  /** A stray continuation byte and an overlong form are not read. */
  lemma IllFormedIsRejected()
    ensures Decode([0xC2, 0x41]) == None
    ensures Decode([0xC0, 0x80]) == None
  {
    assert [0xC2, 0x41][..2] == [0xC2, 0x41];
    assert [0xC0, 0x80][..2] == [0xC0, 0x80];
  }

  lemma CodePointOfTwo(n: int)
    requires 0x80 <= n < 0x800
    ensures 0xC0 <= 0xC0 + n / 64 < 0xE0
    ensures var e: seq<byte> := [0xC0 + n / 64, 0x80 + n % 64]; CodePoint(e) == n
  {
    var e: seq<byte> := [0xC0 + n / 64, 0x80 + n % 64];
    assert CodePoint(e) == (n / 64) * 64 + n % 64;
  }

  lemma CodePointOfThree(n: int)
    requires 0x800 <= n < 0x1_0000
    ensures 0xE0 <= 0xE0 + n / 4096 < 0xF0
    ensures var e: seq<byte> := [0xE0 + n / 4096, 0x80 + (n / 64) % 64, 0x80 + n % 64]; CodePoint(e) == n
  {
    var e: seq<byte> := [0xE0 + n / 4096, 0x80 + (n / 64) % 64, 0x80 + n % 64];
    var q := n / 64;
    assert n == q * 64 + n % 64;
    assert q / 64 == n / 4096;
    assert q == (q / 64) * 64 + q % 64;
    assert CodePoint(e) == (n / 4096) * 4096 + (q % 64) * 64 + n % 64;
  }

  lemma CodePointOfFour(n: int)
    requires 0x1_0000 <= n < 0x11_0000
    ensures 0xF0 <= 0xF0 + n / 262144 < 0xF8
    ensures var e: seq<byte> := [0xF0 + n / 262144, 0x80 + (n / 4096) % 64, 0x80 + (n / 64) % 64, 0x80 + n % 64];
            CodePoint(e) == n
  {
    var e: seq<byte> := [0xF0 + n / 262144, 0x80 + (n / 4096) % 64, 0x80 + (n / 64) % 64, 0x80 + n % 64];
    var q := n / 64;
    var p := n / 4096;
    assert n == q * 64 + n % 64;
    assert q / 64 == p;
    assert q == p * 64 + q % 64;
    assert p / 64 == n / 262144;
    assert p == (p / 64) * 64 + p % 64;
    assert CodePoint(e) == (n / 262144) * 262144 + (p % 64) * 4096 + (q % 64) * 64 + n % 64;
  }

  lemma DecodeCharStep(c: char, rest: seq<byte>)
    ensures var e := EncodeChar(c);
            && SequenceLength(e[0]) == |e|
            && (e + rest)[..|e|] == e
            && CodePoint(e) == c as int
            && WellFormed(e)
  {
    var e := EncodeChar(c);
    var n := c as int;
    assert (e + rest)[..|e|] == e;
    if n < 0x80 {
    } else if n < 0x800 {
      CodePointOfTwo(n);
    } else if n < 0x1_0000 {
      CodePointOfThree(n);
    } else {
      CodePointOfFour(n);
    }
  }

  /** Reading back the bytes of a text gives the text. */
  lemma {:induction false} DecodeEncode(s: string)
    ensures Decode(Encode(s)) == Some(s)
    decreases |s|
  {
    if |s| > 0 {
      var e := EncodeChar(s[0]);
      var rest := Encode(s[1..]);
      DecodeCharStep(s[0], rest);
      assert (e + rest)[0] == e[0];
      assert (e + rest)[|e|..] == rest;
      DecodeEncode(s[1..]);
      assert (s[0] as int) as char == s[0];
      assert s == [s[0]] + s[1..];
    }
  }

  predicate IsAscii(s: string)
  {
    forall i :: 0 <= i < |s| ==> s[i] as int < 0x80
  }

  /** An ASCII text is encoded one byte per character, each byte being the
      character's code. */
  lemma {:induction false} EncodeAscii(s: string)
    requires IsAscii(s)
    ensures |Encode(s)| == |s|
    ensures forall i :: 0 <= i < |s| ==> Encode(s)[i] == s[i] as int
    decreases |s|
  {
    if |s| > 0 {
      EncodeAscii(s[1..]);
      var r := Encode(s);
      forall i | 0 <= i < |s| ensures r[i] == s[i] as int {
        if i > 0 { assert r[i] == Encode(s[1..])[i - 1]; }
      }
    }
  }

  /** The bytes of a concatenation are the concatenation of the bytes. */
  lemma {:induction false} EncodeConcat(a: string, b: string)
    ensures Encode(a + b) == Encode(a) + Encode(b)
    decreases |a|
  {
    if |a| > 0 {
      assert (a + b)[0] == a[0];
      assert (a + b)[1..] == a[1..] + b;
      EncodeConcat(a[1..], b);
    } else {
      assert a + b == b;
    }
  }
}
