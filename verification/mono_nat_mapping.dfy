/**
 * The Mono.Nat revision of the port-mapping value (src/Mono.Nat/Mapping.cs):
 * no argument validation, an expiration derived once at construction, an
 * expiry test without a permanence exemption, and equality on the
 * (protocol, private port, public port) triple.
 */
module MonoNatMapping {
  import opened Wrappers
  import opened Numbers
  import opened Clock
  import opened Net

  datatype Mapping = Mapping(
    description: string,
    protocol: Protocol,
    privatePort: int32,
    publicPort: int32,
    lifetime: int32,
    expiration: DateTime)

  /** The expiration the constructor derives from a lifetime at instant 'now'. */
  predicate ExpirationDerived(lifetime: int, expiration: DateTime, now: DateTime)
  {
    && (lifetime == MaxInt32 ==> expiration == MaxTicks)
    && (lifetime == 0 ==> expiration == now)
    && (lifetime != 0 && lifetime != MaxInt32 ==> expiration == now + lifetime * TicksPerSecond)
  }

  /** The five-argument constructor. It stores its arguments as given; None
      only where DateTime.AddSeconds throws. */
  function New(protocol: Protocol, privatePort: int32, publicPort: int32, lifetime: int32,
               description: string, now: DateTime): (r: Option<Mapping>)
    ensures r.None? <==> lifetime != 0 && lifetime != MaxInt32 && !(0 <= now + lifetime * TicksPerSecond <= MaxTicks)
    ensures r.Some? ==>
      && r.value.protocol == protocol && r.value.privatePort == privatePort
      && r.value.publicPort == publicPort && r.value.lifetime == lifetime
      && r.value.description == description
      && ExpirationDerived(lifetime, r.value.expiration, now)
  {
    var expiration :-
      if lifetime == MaxInt32 then Some(MaxTicks)
      else if lifetime == 0 then Some(now)
      else AddSeconds(now, lifetime);
    Some(Mapping(description, protocol, privatePort, publicPort, lifetime, expiration))
  }

  /** The three-argument constructor: lifetime 0, description "Mono.Nat". */
  function NewDefault(protocol: Protocol, privatePort: int32, publicPort: int32, now: DateTime): (r: Mapping)
    ensures r.lifetime == 0 && r.description == "Mono.Nat" && r.expiration == now
    ensures r.protocol == protocol && r.privatePort == privatePort && r.publicPort == publicPort
  {
    New(protocol, privatePort, publicPort, 0, "Mono.Nat", now).value
  }

  /** The four-argument constructor: lifetime 0 with a caller's description. */
  function NewDescribed(protocol: Protocol, privatePort: int32, publicPort: int32, description: string,
                        now: DateTime): (r: Mapping)
    ensures r.lifetime == 0 && r.description == description && r.expiration == now
    ensures r.protocol == protocol && r.privatePort == privatePort && r.publicPort == publicPort
  {
    New(protocol, privatePort, publicPort, 0, description, now).value
  }

  /** IsExpired: the expiration lies before 'now'; no lifetime is exempt. */
  predicate IsExpired(m: Mapping, now: DateTime)
  {
    m.expiration < now
  }

  /** Equals: the same protocol and the same two ports. */
  predicate Equals(a: Mapping, b: Mapping)
  {
    a.protocol == b.protocol && a.privatePort == b.privatePort && a.publicPort == b.publicPort
  }

  /** GetHashCode: the exclusive or of the enum value and the two ports (an
      Int32's hash code is the Int32 itself). */
  function HashCode(m: Mapping): int32
  {
    XorInt32(XorInt32(WrapInt32(ProtocolValue(m.protocol)), m.privatePort), m.publicPort)
  }

  /** Two mappings are equal exactly when they agree on the key triple, so
      description, lifetime and expiration play no part. */
  lemma EqualsIgnoresDetails(a: Mapping, description: string, lifetime: int32, expiration: DateTime)
    ensures Equals(a, a.(description := description, lifetime := lifetime, expiration := expiration))
  {
  }

  /** Equals is an equivalence relation. */
  lemma EqualsIsEquivalence(a: Mapping, b: Mapping, c: Mapping)
    ensures Equals(a, a)
    ensures Equals(a, b) ==> Equals(b, a)
    ensures Equals(a, b) && Equals(b, c) ==> Equals(a, c)
  {
  }

  /** Equal mappings have equal hash codes. */
  lemma EqualsAgreesWithHashCode(a: Mapping, b: Mapping)
    requires Equals(a, b)
    ensures HashCode(a) == HashCode(b)
  {
  }

  /** With no validation, the UPnP "not found" sentinel (Tcp, -1, -1) is an
      ordinary mapping of this revision. */
  lemma SentinelIsAccepted(now: DateTime)
    ensures var m := NewDefault(Tcp, -1, -1, now);
      m.protocol == Tcp && m.privatePort == -1 && m.publicPort == -1
  {
  }

  /** A lifetime-0 mapping, which the Open.Nat revision treats as permanent,
      is expired at every instant after its construction. */
  lemma ZeroLifetimeExpires(protocol: Protocol, privatePort: int32, publicPort: int32, createdAt: DateTime, now: DateTime)
    ensures IsExpired(NewDefault(protocol, privatePort, publicPort, createdAt), now) <==> createdAt < now
  {
  }
}

/**
 * The two Mapping revisions side by side.
 */
module MappingRevisions {
  import opened Wrappers
  import opened Numbers
  import opened Clock
  import opened Net
  import OpenNat = OpenNatMapping
  import MonoNat = MonoNatMapping

  /** For arguments the Open.Nat guards accept, both revisions derive the same
      expiration; they disagree on expiry exactly for a lifetime-0 mapping
      looked at after its construction. */
  lemma RevisionsAgreeOnExpiry(protocol: Protocol, privatePort: int32, publicPort: int32, lifetime: int32,
                               description: string, createdAt: DateTime, now: DateTime)
    requires OpenNat.New(protocol, AddressNone, privatePort, publicPort, lifetime, description, createdAt).Ok?
    ensures var o := OpenNat.New(protocol, AddressNone, privatePort, publicPort, lifetime, description, createdAt).value;
      var m := MonoNat.New(protocol, privatePort, publicPort, lifetime, description, createdAt);
      && m.Some?
      && o.expiration == m.value.expiration
      && (OpenNat.IsExpired(o, now) != MonoNat.IsExpired(m.value, now) <==>
            (lifetime == 0 && createdAt < now))
  {
  }
}
