/**
 * The Open.Nat revision of the port-mapping value (Open.Nat/Mapping.cs): a
 * constructor that validates its arguments, a Lifetime setter that derives the
 * expiration and permanence, an Expiration setter that derives the lifetime
 * back, and the expiry and renewal tests.
 */
module OpenNatMapping {
  import opened Wrappers
  import opened Exceptions
  import opened Numbers
  import opened Clock
  import opened Net
  import Guard

  datatype Mapping = Mapping(
    description: string,
    privateIP: IPAddress,
    protocol: Protocol,
    privatePort: int32,
    publicIP: IPAddress,
    publicPort: int32,
    lifetime: int32,
    expiration: DateTime,
    isPermanent: bool)

  /** Renewal threshold of ShoundRenew, in seconds. */
  const RenewThresholdSeconds: int := 5

  // ------------------------------------------------------------ the file's own Guard

  /** Guard.IsInRange as this file declares it (a second copy of the class). */
  function GuardIsInRange(paramValue: int, lowerBound: int, upperBound: int, paramName: string): (r: Outcome<Exception>)
    ensures r.Pass? <==> lowerBound <= paramValue <= upperBound
  {
    if paramValue < lowerBound || paramValue > upperBound then Fail(ArgumentOutOfRange(paramName)) else Pass
  }

  /** Guard.IsTrue as this file declares it. */
  function GuardIsTrue(exp: bool, paramName: string): (r: Outcome<Exception>)
    ensures r.Pass? <==> exp
  {
    if !exp then Fail(ArgumentOutOfRange(paramName)) else Pass
  }

  /** The two copies of Guard behave identically. */
  lemma GuardCopiesAgree(v: int, lo: int, hi: int, b: bool, name: string)
    ensures GuardIsInRange(v, lo, hi, name) == Guard.IsInRange(v, lo, hi, name)
    ensures GuardIsTrue(b, name) == Guard.IsTrue(b, name)
  {
  }

  // ------------------------------------------------------------ lifetime and expiration

  /** How the Lifetime setter relates lifetime, expiration and permanence when
      it runs at instant 'setAt'. */
  predicate LifetimeDerived(m: Mapping, setAt: DateTime)
  {
    && (m.lifetime == MaxInt32 ==> m.expiration == MaxTicks && m.isPermanent)
    && (m.lifetime == 0 ==> m.expiration == setAt && m.isPermanent)
    && (m.lifetime != 0 && m.lifetime != MaxInt32 ==>
          m.expiration == setAt + m.lifetime * TicksPerSecond && !m.isPermanent)
  }

  /** The Lifetime setter. None where DateTime.AddSeconds throws. */
  function SetLifetime(m: Mapping, lifetime: int32, now: DateTime): (r: Option<Mapping>)
    ensures r.None? <==> lifetime != 0 && lifetime != MaxInt32 && !(0 <= now + lifetime * TicksPerSecond <= MaxTicks)
    ensures r.Some? ==> LifetimeDerived(r.value, now) && r.value.lifetime == lifetime
    ensures r.Some? ==> r.value.(lifetime := m.lifetime, expiration := m.expiration, isPermanent := m.isPermanent) == m
  {
    if lifetime == MaxInt32 then
      Some(m.(lifetime := lifetime, expiration := MaxTicks, isPermanent := true))
    else if lifetime == 0 then
      Some(m.(lifetime := lifetime, expiration := now, isPermanent := true))
    else
      var expiration :- AddSeconds(now, lifetime);
      Some(m.(lifetime := lifetime, expiration := expiration, isPermanent := false))
  }

  /** The Expiration setter: the lifetime becomes the whole seconds remaining
      (truncated toward zero) and the Lifetime setter then re-derives the
      expiration and permanence. The C# cast of the seconds to int is only
      specified when they fit in an Int32, hence the precondition. */
  function SetExpiration(m: Mapping, expiration: DateTime, now: DateTime): (r: Option<Mapping>)
    requires MinInt32 <= TruncatedSeconds(expiration - now) <= MaxInt32
    ensures r.Some? ==> r.value.lifetime == TruncatedSeconds(expiration - now) && LifetimeDerived(r.value, now)
    ensures -TicksPerSecond < expiration - now < TicksPerSecond ==>
      r == Some(m.(lifetime := 0, expiration := now, isPermanent := true))
  {
    SetLifetime(m.(expiration := expiration), TruncatedSeconds(expiration - now), now)
  }

  // ------------------------------------------------------------ construction

  /** The arguments the constructor accepts. */
  predicate ValidArguments(protocol: Protocol, privatePort: int, publicPort: int, lifetime: int)
  {
    && 0 <= privatePort <= MaxUInt16
    && 0 <= publicPort <= MaxUInt16
    && lifetime >= 0
    && (protocol == Tcp || protocol == Udp)
  }

  /** The internal six-argument constructor: four guards in order, then the fields,
      with PublicIP always IPAddress.None. */
  function New(protocol: Protocol, privateIP: IPAddress, privatePort: int32, publicPort: int32,
               lifetime: int32, description: string, now: DateTime): (r: Fallible<Mapping>)
    ensures !(0 <= privatePort <= MaxUInt16) ==> r == Err(ArgumentOutOfRange("privatePort"))
    ensures 0 <= privatePort <= MaxUInt16 && !(0 <= publicPort <= MaxUInt16) ==>
      r == Err(ArgumentOutOfRange("publicPort"))
    ensures 0 <= privatePort <= MaxUInt16 && 0 <= publicPort <= MaxUInt16 && lifetime < 0 ==>
      r == Err(ArgumentOutOfRange("lifetime"))
    ensures (0 <= privatePort <= MaxUInt16 && 0 <= publicPort <= MaxUInt16 && lifetime >= 0
             && protocol != Tcp && protocol != Udp) ==> r == Err(ArgumentOutOfRange("protocol"))
    ensures r.Ok? ==> ValidArguments(protocol, privatePort, publicPort, lifetime)
    ensures ValidArguments(protocol, privatePort, publicPort, lifetime) ==>
      (r.Ok? <==> lifetime == MaxInt32 || now + lifetime * TicksPerSecond <= MaxTicks)
    ensures r.Ok? ==>
      && r.value.protocol == protocol && r.value.privateIP == privateIP
      && r.value.privatePort == privatePort && r.value.publicPort == publicPort
      && r.value.publicIP == AddressNone && r.value.description == description
      && r.value.lifetime == lifetime && LifetimeDerived(r.value, now)
  {
    var guards := [GuardIsInRange(privatePort, 0, MaxUInt16, "privatePort"),
                   GuardIsInRange(publicPort, 0, MaxUInt16, "publicPort"),
                   GuardIsInRange(lifetime, 0, MaxInt32, "lifetime"),
                   GuardIsTrue(protocol == Tcp || protocol == Udp, "protocol")];
    if guards[0].Fail? then Err(guards[0].error)
    else if guards[1].Fail? then Err(guards[1].error)
    else if guards[2].Fail? then Err(guards[2].error)
    else if guards[3].Fail? then Err(guards[3].error)
    else
    var fields := Mapping(description, privateIP, protocol, privatePort, AddressNone, publicPort, 0, 0, false);
    match SetLifetime(fields, lifetime, now)
    case Some(m) => Ok(m)
    case None => Err(ArgumentOutOfRange("value"))
  }

  /** The internal four-argument constructor: lifetime 0, description "Open.Nat". */
  function NewInternal(protocol: Protocol, privateIP: IPAddress, privatePort: int32, publicPort: int32,
                       now: DateTime): (r: Fallible<Mapping>)
    ensures r.Ok? ==> r.value.lifetime == 0 && r.value.isPermanent && r.value.description == "Open.Nat"
  {
    New(protocol, privateIP, privatePort, publicPort, 0, "Open.Nat", now)
  }

  /** The internal five-argument constructor: lifetime 0 with a caller's description. */
  function NewInternalDescribed(protocol: Protocol, privateIP: IPAddress, privatePort: int32, publicPort: int32,
                                description: string, now: DateTime): (r: Fallible<Mapping>)
    ensures r.Ok? ==> r.value.lifetime == 0 && r.value.isPermanent && r.value.description == description
  {
    New(protocol, privateIP, privatePort, publicPort, 0, description, now)
  }

  /** The public four-argument constructor: a permanent mapping with a caller's description. */
  function NewPermanentDescribed(protocol: Protocol, privatePort: int32, publicPort: int32, description: string,
                                 now: DateTime): (r: Fallible<Mapping>)
    ensures r.Ok? <==> ValidArguments(protocol, privatePort, publicPort, 0)
    ensures r.Ok? ==> r.value.lifetime == 0 && r.value.isPermanent && r.value.description == description
  {
    New(protocol, AddressNone, privatePort, publicPort, 0, description, now)
  }

  /** The public three-argument constructor: a permanent mapping (lifetime 0)
      described as "Open.NAT". */
  function NewPermanent(protocol: Protocol, privatePort: int32, publicPort: int32, now: DateTime): (r: Fallible<Mapping>)
    ensures r.Ok? <==> ValidArguments(protocol, privatePort, publicPort, 0)
    ensures r.Ok? ==>
      && r.value.lifetime == 0 && r.value.isPermanent && r.value.expiration == now
      && r.value.description == "Open.NAT" && r.value.publicIP == AddressNone
  {
    New(protocol, AddressNone, privatePort, publicPort, 0, "Open.NAT", now)
  }

  /** The public five-argument constructor. */
  function NewWithLifetime(protocol: Protocol, privatePort: int32, publicPort: int32, lifetime: int32,
                           description: string, now: DateTime): (r: Fallible<Mapping>)
    ensures r.Ok? ==> ValidArguments(protocol, privatePort, publicPort, lifetime) && r.value.lifetime == lifetime
  {
    New(protocol, AddressNone, privatePort, publicPort, lifetime, description, now)
  }

  // ------------------------------------------------------------ expiry and renewal

  /** IsExpired: permanent mappings never expire. */
  predicate IsExpired(m: Mapping, now: DateTime)
  {
    !m.isPermanent && m.expiration < now
  }

  /** ShoundRenew, as written: true when the mapping is not permanent and
      now - Expiration is under five seconds. */
  predicate ShoundRenew(m: Mapping, now: DateTime)
  {
    !m.isPermanent && now - m.expiration < RenewThresholdSeconds * TicksPerSecond
  }

  /** The renewal test the name ShoundRenew (Mapping.cs:211-214) and its use
      by the renew timer call for: a non-permanent mapping is due when it
      expires within five seconds. */
  predicate ShouldRenew(m: Mapping, now: DateTime)
  {
    !m.isPermanent && m.expiration - now < RenewThresholdSeconds * TicksPerSecond
  }

  /** A constructed mapping expires exactly when a finite lifetime has elapsed:
      lifetime 0 and int.MaxValue never expire, any other lifetime L expires
      at every instant later than construction time plus L seconds. */
  lemma ConstructedExpiry(protocol: Protocol, privateIP: IPAddress, privatePort: int32, publicPort: int32,
                          lifetime: int32, description: string, createdAt: DateTime, now: DateTime)
    requires New(protocol, privateIP, privatePort, publicPort, lifetime, description, createdAt).Ok?
    ensures var m := New(protocol, privateIP, privatePort, publicPort, lifetime, description, createdAt).value;
      IsExpired(m, now) <==>
        (lifetime != 0 && lifetime != MaxInt32 && createdAt + lifetime * TicksPerSecond < now)
  {
  }

  /** A permanent mapping is neither expired nor due for renewal, whichever test is used. */
  lemma PermanentIsNeverDue(m: Mapping, now: DateTime)
    requires m.isPermanent
    ensures !IsExpired(m, now) && !ShoundRenew(m, now) && !ShouldRenew(m, now)
  {
  }

  /** As written, ShoundRenew asks for renewal of a mapping created a moment
      ago with an hour to run, and refuses it for one that expired a minute ago. */
  lemma ShoundRenewSignIsInverted(createdAt: DateTime)
    requires createdAt + 3600 * TicksPerSecond + 60 * TicksPerSecond <= MaxTicks
    ensures var m := NewWithLifetime(Tcp, 80, 80, 3600, "", createdAt);
      && m.Ok?
      && ShoundRenew(m.value, createdAt)
      && !ShoundRenew(m.value, createdAt + 3600 * TicksPerSecond + 60 * TicksPerSecond)
  {
  }

  /** The intended test: a mapping with lifetime L > 5 is not due when created
      and is due from five seconds before its expiration onwards. */
  lemma ShouldRenewNearExpiry(lifetime: int32, createdAt: DateTime, now: DateTime)
    requires RenewThresholdSeconds < lifetime < MaxInt32
    requires createdAt + lifetime * TicksPerSecond <= MaxTicks
    ensures var m := NewWithLifetime(Tcp, 80, 80, lifetime, "", createdAt);
      && m.Ok?
      && !ShouldRenew(m.value, createdAt)
      && (ShouldRenew(m.value, now) <==> now > createdAt + (lifetime - RenewThresholdSeconds) * TicksPerSecond)
  {
  }

  /** The UPnP "not found" sentinel Mapping(Tcp, -1, -1) cannot be built by
      this revision: the constructor rejects the private port. */
  lemma SentinelIsRejected(now: DateTime)
    ensures NewPermanent(Tcp, -1, -1, now) == Err(ArgumentOutOfRange("privatePort"))
  {
  }
}
