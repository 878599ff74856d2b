/**
 * Fixed-width integers, network byte order and invariant-culture decimal text,
 * as the .NET code uses them.
 */
module Numbers {
  import opened Wrappers

  const MinInt32: int := -0x8000_0000
  const MaxInt32: int := 0x7fff_ffff
  /** ushort.MaxValue, the upper bound of a port number. */
  const MaxUInt16: int := 0xffff

  /** System.Int32. */
  type int32 = x: int | MinInt32 <= x <= MaxInt32
  /** System.Byte. */
  type byte = x: int | 0 <= x < 256

  /** Unchecked conversion to Int32: keep the low 32 bits, two's complement. */
  function WrapInt32(x: int): (r: int32)
    ensures MinInt32 <= x <= MaxInt32 ==> r == x
    ensures (r - x) % 0x1_0000_0000 == 0
  {
    var low := x % 0x1_0000_0000;
    if low <= MaxInt32 then low else low - 0x1_0000_0000
  }

  /** The bitwise exclusive or of two Int32 values (two's complement). */
  function XorInt32(a: int32, b: int32): int32
  {
    var bits := ((a as int) % 0x1_0000_0000) as bv32 ^ ((b as int) % 0x1_0000_0000) as bv32;
    WrapInt32(bits as int)
  }

  /** The two bytes of the low 16 bits of x, most significant first: what
      BitConverter.GetBytes(IPAddress.HostToNetworkOrder((short)x)) yields on a
      little-endian host. */
  function BigEndian16(x: int): (r: seq<byte>)
    ensures |r| == 2
  {
    var low := x % 0x1_0000;
    [low / 0x100, low % 0x100]
  }

  /** The four bytes of the low 32 bits of x, most significant first. */
  function BigEndian32(x: int): (r: seq<byte>)
    ensures |r| == 4
  {
    var low := x % 0x1_0000_0000;
    [low / 0x100_0000, (low / 0x1_0000) % 0x100, (low / 0x100) % 0x100, low % 0x100]
  }

  /** The unsigned value of two bytes in network order ((ushort)NetworkToHostOrder(ToInt16)). */
  function ReadUInt16(b0: byte, b1: byte): (r: int)
    ensures 0 <= r <= MaxUInt16
  {
    b0 * 0x100 + b1
  }

  /** The signed value of two bytes in network order (NetworkToHostOrder(ToInt16)). */
  function ReadInt16(b0: byte, b1: byte): (r: int)
    ensures -0x8000 <= r < 0x8000
    ensures r % 0x1_0000 == ReadUInt16(b0, b1)
  {
    var u := ReadUInt16(b0, b1);
    if u < 0x8000 then u else u - 0x1_0000
  }

  /** 2 to the power n. */
  function Pow2(n: nat): (r: nat)
    ensures r >= 1
  {
    if n == 0 then 1 else 2 * Pow2(n - 1)
  }

  /** The unsigned value of four bytes in network order ((uint)NetworkToHostOrder(ToInt32)). */
  function ReadUInt32(b0: byte, b1: byte, b2: byte, b3: byte): (r: int)
    ensures 0 <= r < 0x1_0000_0000
  {
    ((b0 * 0x100 + b1) * 0x100 + b2) * 0x100 + b3
  }

  /** Reading back two bytes written by BigEndian16 recovers the low 16 bits. */
  lemma BigEndian16RoundTrip(x: int)
    ensures ReadUInt16(BigEndian16(x)[0], BigEndian16(x)[1]) == x % 0x1_0000
  {
  }

  /** Reading back four bytes written by BigEndian32 recovers the low 32 bits. */
  lemma BigEndian32RoundTrip(x: int)
    ensures var b := BigEndian32(x); ReadUInt32(b[0], b[1], b[2], b[3]) == x % 0x1_0000_0000
  {
    var low := x % 0x1_0000_0000;
    var q1 := low / 0x100;
    var q2 := q1 / 0x100;
    var q3 := q2 / 0x100;
    assert 0x100 * q1 <= low < 0x100 * q1 + 0x100;
    assert 0x100 * q2 <= q1 < 0x100 * q2 + 0x100;
    assert 0x100 * q3 <= q2 < 0x100 * q3 + 0x100;
    assert 0x1_0000 * q2 <= low < 0x1_0000 * q2 + 0x1_0000;
    assert q2 == low / 0x1_0000;
    assert 0x100_0000 * q3 <= low < 0x100_0000 * q3 + 0x100_0000;
    assert q3 == low / 0x100_0000;
  }

  /** A value that already fits in 32 (or 16) unsigned bits is its own low bits. */
  lemma LowBitsOfSmall(x: int)
    ensures 0 <= x < 0x1_0000_0000 ==> x % 0x1_0000_0000 == x
    ensures 0 <= x < 0x1_0000 ==> x % 0x1_0000 == x
  {
  }

  // ---------------------------------------------------------------- decimals

  function DigitChar(d: int): (c: char)
    requires 0 <= d < 10
  {
    ['0', '1', '2', '3', '4', '5', '6', '7', '8', '9'][d]
  }

  predicate IsDigit(c: char)
  {
    '0' <= c <= '9'
  }

  function DigitValue(c: char): (d: int)
    requires IsDigit(c)
    ensures 0 <= d < 10
  {
    c as int - '0' as int
  }

  /** The decimal digits of n, without leading zeros. */
  function NatToDigits(n: nat): (s: string)
    ensures |s| > 0
    ensures forall i :: 0 <= i < |s| ==> IsDigit(s[i])
    decreases n
  {
    if n < 10 then [DigitChar(n)] else NatToDigits(n / 10) + [DigitChar(n % 10)]
  }

  /** n.ToString(CultureInfo.InvariantCulture): optional '-' then the digits. */
  function IntToString(n: int): string
  {
    if n < 0 then "-" + NatToDigits(-n) else NatToDigits(n)
  }

  /** The value of a run of decimal digits. */
  function DigitsValue(s: string): (v: nat)
    requires forall i :: 0 <= i < |s| ==> IsDigit(s[i])
    decreases |s|
  {
    if |s| == 0 then 0 else DigitsValue(s[..|s| - 1]) * 10 + DigitValue(s[|s| - 1])
  }

  predicate AllDigits(s: string)
  {
    |s| > 0 && forall i :: 0 <= i < |s| ==> IsDigit(s[i])
  }

  /** int.Parse / Convert.ToInt32 with the invariant culture, restricted to an
      optional '-' followed by decimal digits; None where .NET throws
      (FormatException for other text, OverflowException outside Int32). */
  function ParseInt32(s: string): (r: Option<int32>)
  {
    if |s| > 0 && s[0] == '-' then
      if AllDigits(s[1..]) && DigitsValue(s[1..]) <= -MinInt32 then Some(0 - DigitsValue(s[1..]) as int) else None
    else
      if AllDigits(s) && DigitsValue(s) <= MaxInt32 then Some(DigitsValue(s)) else None
  }

  lemma {:induction false} DigitsRoundTrip(n: nat)
    ensures DigitsValue(NatToDigits(n)) == n
    decreases n
  {
    if n >= 10 {
      var s := NatToDigits(n);
      DigitsRoundTrip(n / 10);
      assert s[..|s| - 1] == NatToDigits(n / 10);
    }
  }

  /** Parsing the invariant-culture text of an Int32 gives the number back. */
  lemma IntToStringRoundTrip(n: int32)
    ensures ParseInt32(IntToString(n)) == Some(n)
  {
    var magnitude: nat := if n < 0 then -(n as int) else n as int;
    DigitsRoundTrip(magnitude);
    if n < 0 {
      assert IntToString(n)[1..] == NatToDigits(magnitude);
    } else {
      assert NatToDigits(n)[0] != '-';
    }
  }

  /** Distinct numbers have distinct decimal texts. */
  lemma IntToStringInjective(a: int32, b: int32)
    requires IntToString(a) == IntToString(b)
    ensures a == b
  {
    IntToStringRoundTrip(a);
    IntToStringRoundTrip(b);
  }
}
