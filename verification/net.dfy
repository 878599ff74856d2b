/**
 * System.DateTime as a tick count. Every reading of the clock (DateTime.Now or
 * DateTime.UtcNow) is an explicit parameter of the operation that reads it.
 */
module Clock {
  import opened Wrappers

  const TicksPerMillisecond: int := 10_000
  const TicksPerSecond: int := 10_000_000
  const TicksPerMinute: int := 600_000_000
  /** DateTime.MaxValue.Ticks (23:59:59.9999999, 31 December 9999). */
  const MaxTicks: int := 3_155_378_975_999_999_999

  /** A System.DateTime: 100-nanosecond ticks since 1 January 0001. */
  type DateTime = t: int | 0 <= t <= MaxTicks

  /** DateTime.Add of a whole number of ticks; None where .NET throws
      ArgumentOutOfRangeException because the result leaves the DateTime range. */
  function AddTicks(t: DateTime, ticks: int): (r: Option<DateTime>)
    ensures r.Some? <==> 0 <= t + ticks <= MaxTicks
    ensures r.Some? ==> r.value == t + ticks
  {
    if 0 <= t + ticks <= MaxTicks then Some(t + ticks) else None
  }

  /** DateTime.AddSeconds of a whole number of seconds. */
  function AddSeconds(t: DateTime, seconds: int): Option<DateTime>
  {
    AddTicks(t, seconds * TicksPerSecond)
  }

  /** DateTime.AddMilliseconds of a whole number of milliseconds. */
  function AddMilliseconds(t: DateTime, ms: int): Option<DateTime>
  {
    AddTicks(t, ms * TicksPerMillisecond)
  }

  /** DateTime.AddMinutes of a whole number of minutes. */
  function AddMinutes(t: DateTime, minutes: int): Option<DateTime>
  {
    AddTicks(t, minutes * TicksPerMinute)
  }

  /** (int)TimeSpan.TotalSeconds for a span of the given ticks: the whole
      seconds, truncated toward zero (Dafny's own division rounds down). */
  function TruncatedSeconds(ticks: int): (r: int)
    ensures ticks >= 0 ==> 0 <= r * TicksPerSecond <= ticks < (r + 1) * TicksPerSecond
    ensures ticks < 0 ==> (r - 1) * TicksPerSecond < ticks <= r * TicksPerSecond <= 0
  {
    if ticks >= 0 then ticks / TicksPerSecond else -((-ticks) / TicksPerSecond)
  }
}

/**
 * Addresses, end points and the transport protocol enum.
 */
module Net {
  import opened Numbers

  /** System.Net.IPAddress: an IPv4 address (InterNetwork) or any other family. */
  datatype IPAddress =
    | V4(a: byte, b: byte, c: byte, d: byte)
    | V6(bytes: seq<byte>)

  /** IPAddress.None and IPAddress.Broadcast are both 255.255.255.255. */
  const AddressNone: IPAddress := V4(255, 255, 255, 255)
  const AddressBroadcast: IPAddress := V4(255, 255, 255, 255)

  predicate IsInterNetwork(a: IPAddress)
  {
    a.V4?
  }

  /** System.Net.IPEndPoint. */
  datatype IPEndPoint = IPEndPoint(address: IPAddress, port: int)

  /** The Protocol enum. Tcp and Udp are its members; Undefined stands for
      any other value an int can be cast to. */
  datatype Protocol = Tcp | Udp | Undefined(value: int)

  /** The underlying integer of the enum value (Tcp = 0, Udp = 1). */
  function ProtocolValue(p: Protocol): int
  {
    match p
    case Tcp => 0
    case Udp => 1
    case Undefined(v) => v
  }

  /** Protocol.ToString() for the defined members. */
  function ProtocolName(p: Protocol): string
  {
    match p
    case Tcp => "Tcp"
    case Udp => "Udp"
    case Undefined(v) => IntToString(v)
  }
}
