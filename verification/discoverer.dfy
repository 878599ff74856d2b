/**
 * Open.Nat/NatDiscoverer.cs: which searchers a discovery runs, how a found
 * device cancels a first-device discovery, and the registry of known
 * devices, keyed by the device's ToString text, that every discovery
 * updates by touch-or-insert and that ReleaseAll and RenewMappings walk.
 * The registry is generic over the key and the device; the key function
 * stands for ToString, which may throw, and 'touch' for NatDevice.Touch at
 * the instant of the discovery.
 */
module NatDiscoverer {
  import opened Wrappers
  import opened Exceptions
  import opened Clock
  import opened Net
  import opened Uris
  import opened UpnpDeviceInfo
  import UpnpDevice

  /** The PortMapper flags: Upnp and Pmp, either or both. */
  datatype PortMapper = PortMapper(upnp: bool, pmp: bool)

  datatype SearcherKind = UpnpSearch | PmpSearch

  /** The searchers DiscoverAsync starts, in the order it starts them. */
  function Searchers(portMapper: PortMapper): (r: seq<SearcherKind>)
    ensures UpnpSearch in r <==> portMapper.upnp
    ensures PmpSearch in r <==> portMapper.pmp
    ensures |r| <= 2 && forall i, j :: 0 <= i < j < |r| ==> r[i] != r[j]
    ensures |r| == 2 ==> r == [UpnpSearch, PmpSearch]
  {
    (if portMapper.upnp then [UpnpSearch] else []) + (if portMapper.pmp then [PmpSearch] else [])
  }

  /** The devices of the started searchers' tasks, concatenated in order. */
  function Collected<D(!new)>(portMapper: PortMapper, upnpFound: seq<D>, pmpFound: seq<D>): (r: seq<D>)
    ensures !portMapper.upnp && !portMapper.pmp ==> r == []
    ensures |r| == (if portMapper.upnp then |upnpFound| else 0) + (if portMapper.pmp then |pmpFound| else 0)
    ensures forall d :: d in r <==> (portMapper.upnp && d in upnpFound) || (portMapper.pmp && d in pmpFound)
  {
    (if portMapper.upnp then upnpFound else []) + (if portMapper.pmp then pmpFound else [])
  }

  // ------------------------------------------------------------ cancellation

  /** The token shared by the searchers, after 'events' DeviceFound events
      each handled by `if (onlyOne) cts.Cancel()`. */
  function AfterFound(onlyOne: bool, cancelled: bool, events: nat): bool
    decreases events
  {
    if events == 0 then cancelled else AfterFound(onlyOne, cancelled || onlyOne, events - 1)
  }

  /** In first-device mode any DeviceFound cancels the token; in all-devices
      mode none does, and without events it stays as it was. */
  lemma {:induction false} FoundCancelsOnlyOne(onlyOne: bool, cancelled: bool, events: nat)
    ensures events == 0 ==> AfterFound(onlyOne, cancelled, events) == cancelled
    ensures events > 0 ==> AfterFound(onlyOne, cancelled, events) == (cancelled || onlyOne)
    decreases events
  {
    if events > 1 {
      FoundCancelsOnlyOne(onlyOne, cancelled || onlyOne, events - 1);
    }
  }

  // ---------------------------------------------------------------- registry

  /** Every device has a key (its ToString did not throw). */
  predicate AllKeyed<K, D>(devices: seq<D>, keyOf: D -> Fallible<K>)
  {
    forall i :: 0 <= i < |devices| ==> keyOf(devices[i]).Ok?
  }

  /** The keys of the devices. */
  function KeysOf<K, D>(devices: seq<D>, keyOf: D -> Fallible<K>): set<K>
  {
    set i | 0 <= i < |devices| && keyOf(devices[i]).Ok? :: keyOf(devices[i]).value
  }

  lemma KeysOfSnoc<K, D>(devices: seq<D>, d: D, keyOf: D -> Fallible<K>)
    requires keyOf(d).Ok?
    ensures KeysOf(devices + [d], keyOf) == KeysOf(devices, keyOf) + {keyOf(d).value}
  {
    var s := devices + [d];
    assert forall i :: 0 <= i < |devices| ==> s[i] == devices[i];
    assert s[|devices|] == d;
  }

  /** One pass of the loop: TryGetValue finds the key and the stored device
      is touched, or the device is added under it. */
  function RegisterOne<K, D>(registry: map<K, D>, d: D, keyOf: D -> Fallible<K>, touch: D -> D): (r: Fallible<map<K, D>>)
    ensures r.Err? <==> keyOf(d).Err?
    ensures r.Err? ==> r.error == keyOf(d).error
    ensures r.Ok? ==> r.value.Keys == registry.Keys + {keyOf(d).value}
    ensures r.Ok? ==> forall k :: k in registry && k != keyOf(d).value ==> r.value[k] == registry[k]
    ensures r.Ok? && keyOf(d).value in registry ==> r.value[keyOf(d).value] == touch(registry[keyOf(d).value])
    ensures r.Ok? && keyOf(d).value !in registry ==> r.value[keyOf(d).value] == d
  {
    var key :- keyOf(d);
    if key in registry then Ok(registry[key := touch(registry[key])])
    else Ok(registry[key := d])
  }

  /** The registry after the loop over the found devices, in order. */
  function RegisterAll<K, D>(registry: map<K, D>, devices: seq<D>, keyOf: D -> Fallible<K>, touch: D -> D): (r: Fallible<map<K, D>>)
    ensures r.Ok? <==> AllKeyed(devices, keyOf)
    ensures r.Ok? ==> r.value.Keys == registry.Keys + KeysOf(devices, keyOf)
    ensures r.Ok? ==> forall k :: k in registry && k !in KeysOf(devices, keyOf) ==> r.value[k] == registry[k]
    decreases |devices|
  {
    if |devices| == 0 then Ok(registry)
    else
      var front := devices[..|devices| - 1];
      var last := devices[|devices| - 1];
      assert devices == front + [last];
      assert forall i :: 0 <= i < |front| ==> front[i] == devices[i];
      var before :- RegisterAll(registry, front, keyOf, touch);
      assert keyOf(last).Ok? ==> KeysOf(devices, keyOf) == KeysOf(front, keyOf) + {keyOf(last).value} by {
        if keyOf(last).Ok? { KeysOfSnoc(front, last, keyOf); }
      }
      RegisterOne(before, last, keyOf, touch)
  }

  /** A failed key stops the loop there: what follows is never looked at. */
  lemma {:induction false} FailureStops<K, D>(registry: map<K, D>, devices: seq<D>, more: seq<D>,
                                             keyOf: D -> Fallible<K>, touch: D -> D)
    requires RegisterAll(registry, devices, keyOf, touch).Err?
    ensures RegisterAll(registry, devices + more, keyOf, touch) == RegisterAll(registry, devices, keyOf, touch)
    decreases |more|
  {
    if |more| == 0 {
      assert devices + more == devices;
    } else {
      var front := more[..|more| - 1];
      FailureStops(registry, devices, front, keyOf, touch);
      assert (devices + more)[..|devices + more| - 1] == devices + front;
    }
  }

  /** The loop of DiscoverAsync over the found devices. ToString throwing
      ends it with that exception. */
  method Register<K, D>(registry: map<K, D>, devices: seq<D>, keyOf: D -> Fallible<K>, touch: D -> D)
    returns (r: Fallible<map<K, D>>)
    ensures r == RegisterAll(registry, devices, keyOf, touch)
    ensures r.Ok? <==> AllKeyed(devices, keyOf)
    ensures r.Ok? ==> r.value.Keys == registry.Keys + KeysOf(devices, keyOf)
    ensures r.Err? ==> exists i :: 0 <= i < |devices| && keyOf(devices[i]) == Err(r.error)
  {
    var current := registry;
    var i := 0;
    while i < |devices|
      invariant 0 <= i <= |devices|
      invariant RegisterAll(registry, devices[..i], keyOf, touch) == Ok(current)
    {
      RegisterPrefix(registry, devices, i, keyOf, touch);
      match RegisterOne(current, devices[i], keyOf, touch)
      case Err(e) =>
        FailureStops(registry, devices[..i + 1], devices[i + 1..], keyOf, touch);
        assert devices[..i + 1] + devices[i + 1..] == devices;
        return Err(e);
      case Ok(next) =>
        current := next;
      i := i + 1;
    }
    assert devices[..i] == devices;
    return Ok(current);
  }

  /** One more device registered on top of a prefix. */
  lemma RegisterPrefix<K, D>(registry: map<K, D>, devices: seq<D>, i: nat, keyOf: D -> Fallible<K>, touch: D -> D)
    requires i < |devices|
    ensures RegisterAll(registry, devices[..i + 1], keyOf, touch)
            == match RegisterAll(registry, devices[..i], keyOf, touch)
               case Err(e) => Err(e)
               case Ok(before) => RegisterOne(before, devices[i], keyOf, touch)
  {
    var prefix := devices[..i + 1];
    assert prefix[..|prefix| - 1] == devices[..i];
    assert prefix[|prefix| - 1] == devices[i];
  }

  /** The last pass of RegisterAll. */
  lemma LastPass<K, D>(registry: map<K, D>, devices: seq<D>, keyOf: D -> Fallible<K>, touch: D -> D)
    requires |devices| > 0 && RegisterAll(registry, devices, keyOf, touch).Ok?
    ensures var front := devices[..|devices| - 1];
            var last := devices[|devices| - 1];
            && AllKeyed(front, keyOf) && keyOf(last).Ok?
            && KeysOf(devices, keyOf) == KeysOf(front, keyOf) + {keyOf(last).value}
            && RegisterOne(RegisterAll(registry, front, keyOf, touch).value, last, keyOf, touch)
               == RegisterAll(registry, devices, keyOf, touch)
  {
    var front := devices[..|devices| - 1];
    var last := devices[|devices| - 1];
    assert devices == front + [last];
    assert forall i :: 0 <= i < |front| ==> front[i] == devices[i];
    KeysOfSnoc(front, last, keyOf);
  }

  /** With a touch that is idempotent at the discovery's instant, a known
      key found again ends touched once. */
  lemma {:induction false} TouchesKnown<K, D>(registry: map<K, D>, devices: seq<D>, keyOf: D -> Fallible<K>, touch: D -> D, k: K)
    requires forall d :: touch(touch(d)) == touch(d)
    requires RegisterAll(registry, devices, keyOf, touch).Ok?
    requires k in registry && k in KeysOf(devices, keyOf)
    ensures RegisterAll(registry, devices, keyOf, touch).value[k] == touch(registry[k])
    decreases |devices|
  {
    var front := devices[..|devices| - 1];
    var last := devices[|devices| - 1];
    LastPass(registry, devices, keyOf, touch);
    var before := RegisterAll(registry, front, keyOf, touch).value;
    if k in KeysOf(front, keyOf) {
      TouchesKnown(registry, front, keyOf, touch, k);
    } else {
      assert before[k] == registry[k];
    }
  }

  /** A new key holds the first device found under it, touched when it was
      found again. */
  lemma {:induction false} InsertsNew<K, D>(registry: map<K, D>, devices: seq<D>, keyOf: D -> Fallible<K>, touch: D -> D, k: K)
    requires forall d :: touch(touch(d)) == touch(d)
    requires RegisterAll(registry, devices, keyOf, touch).Ok?
    requires k !in registry && k in KeysOf(devices, keyOf)
    ensures var r := RegisterAll(registry, devices, keyOf, touch).value;
            exists i :: 0 <= i < |devices| && keyOf(devices[i]) == Ok(k) && (r[k] == devices[i] || r[k] == touch(devices[i]))
    decreases |devices|
  {
    var front := devices[..|devices| - 1];
    var last := devices[|devices| - 1];
    LastPass(registry, devices, keyOf, touch);
    var before := RegisterAll(registry, front, keyOf, touch).value;
    var r := RegisterAll(registry, devices, keyOf, touch).value;
    if k in KeysOf(front, keyOf) {
      InsertsNew(registry, front, keyOf, touch, k);
      var i :| 0 <= i < |front| && keyOf(front[i]) == Ok(k) && (before[k] == front[i] || before[k] == touch(front[i]));
      assert devices[i] == front[i];
      assert r[k] == before[k] || r[k] == touch(before[k]);
    } else {
      assert keyOf(devices[|devices| - 1]) == Ok(k) && r[k] == devices[|devices| - 1];
    }
  }

  /** DiscoverAsync after the searchers have finished: the devices the
      started searchers returned, registered in the registry. */
  function Discover<K, D(!new)>(portMapper: PortMapper, upnpFound: seq<D>, pmpFound: seq<D>, registry: map<K, D>,
                          keyOf: D -> Fallible<K>, touch: D -> D): (r: Fallible<(seq<D>, map<K, D>)>)
    ensures r.Ok? <==> AllKeyed(Collected(portMapper, upnpFound, pmpFound), keyOf)
    ensures r.Ok? ==> r.value.0 == Collected(portMapper, upnpFound, pmpFound)
    ensures r.Ok? ==> r.value.1.Keys == registry.Keys + KeysOf(r.value.0, keyOf)
  {
    var devices := Collected(portMapper, upnpFound, pmpFound);
    var updated :- RegisterAll(registry, devices, keyOf, touch);
    Ok((devices, updated))
  }

  /** DiscoverDeviceAsync: the first device found, or
      NatDeviceNotFoundException when there is none. */
  function DiscoverDevice<K, D(!new)>(portMapper: PortMapper, upnpFound: seq<D>, pmpFound: seq<D>, registry: map<K, D>,
                                keyOf: D -> Fallible<K>, touch: D -> D): (r: Fallible<(D, map<K, D>)>)
    ensures var found := Collected(portMapper, upnpFound, pmpFound);
            AllKeyed(found, keyOf) ==>
              && (r.Ok? <==> |found| > 0)
              && (r.Ok? ==> r.value.0 == found[0])
              && (r.Err? ==> r.error == NatDeviceNotFound)
    ensures portMapper.upnp && |upnpFound| > 0 && r.Ok? ==> r.value.0 == upnpFound[0]
  {
    var (devices, updated) :- Discover(portMapper, upnpFound, pmpFound, registry, keyOf, touch);
    if |devices| == 0 then Err(NatDeviceNotFound) else Ok((devices[0], updated))
  }

  /** ReleaseAll and RenewMappings: each registered device is visited once,
      in the dictionary's order (left open here). */
  method VisitAll<K, D>(registry: map<K, D>) returns (visited: seq<K>)
    ensures |visited| == |registry.Keys|
    ensures forall k :: k in registry <==> k in visited
    ensures forall i, j :: 0 <= i < j < |visited| ==> visited[i] != visited[j]
  {
    var remaining := registry.Keys;
    visited := [];
    while remaining != {}
      invariant remaining <= registry.Keys
      invariant forall k :: k in registry <==> k in visited || k in remaining
      invariant forall k :: k in visited ==> k !in remaining
      invariant |visited| + |remaining| == |registry.Keys|
      invariant forall i, j :: 0 <= i < j < |visited| ==> visited[i] != visited[j]
      decreases |remaining|
    {
      var k :| k in remaining;
      visited := visited + [k];
      remaining := remaining - {k};
    }
  }

  // --------------------------------------------------- the UPnP registry key

  /** The key as written: ToString, which shows LastSeen. */
  function ShownKey(parseIp: AddressParser): UpnpDevice.Device -> Fallible<UpnpDevice.Description>
  {
    d => UpnpDevice.Describe(d, parseIp)
  }

  /** What identifies a UPnP device: ToString without LastSeen. */
  datatype Identity = Identity(endPoint: IPEndPoint, controlUri: Uri, descriptionUri: Uri, serviceType: string)

  function IdentityOf(d: UpnpDevice.Device, parseIp: AddressParser): (r: Fallible<Identity>)
    ensures r.Ok? <==> UpnpDevice.Describe(d, parseIp).Ok?
    ensures r.Ok? ==> r.value.descriptionUri == ServiceDescriptionUri(d.info) && r.value.serviceType == d.info.serviceType
  {
    var shown :- UpnpDevice.Describe(d, parseIp);
    Ok(Identity(shown.endPoint, shown.controlUri, shown.descriptionUri, shown.serviceType))
  }

  /** Touching a device does not change its identity. */
  lemma IdentityIgnoresLastSeen(d: UpnpDevice.Device, parseIp: AddressParser, t: DateTime)
    ensures IdentityOf(UpnpDevice.Touch(d, t), parseIp) == IdentityOf(d, parseIp)
  {
  }

  function IdentityKey(parseIp: AddressParser): UpnpDevice.Device -> Fallible<Identity>
  {
    d => IdentityOf(d, parseIp)
  }

  function TouchAt(now: DateTime): UpnpDevice.Device -> UpnpDevice.Device
  {
    d => UpnpDevice.Touch(d, now)
  }

  /** As written: a router registered by one discovery and found again by a
      later one, in another second, is shown differently, so it is added a
      second time and the registered entry is not touched. ReleaseAll and
      RenewMappings then visit the same router twice. */
  lemma RediscoveryDuplicates(d: UpnpDevice.Device, parseIp: AddressParser, first: DateTime, second: DateTime)
    requires parseIp(d.info.ip).Some? && first / TicksPerSecond != second / TicksPerSecond
    ensures var registered := UpnpDevice.Touch(d, first);
            var registry := map[UpnpDevice.Describe(registered, parseIp).value := registered];
            var r := RegisterAll(registry, [UpnpDevice.Touch(d, second)], ShownKey(parseIp), TouchAt(second));
            && r.Ok? && |r.value.Keys| == 2
            && r.value[UpnpDevice.Describe(registered, parseIp).value].lastSeen == first
  {
    var registered := UpnpDevice.Touch(d, first);
    var again := UpnpDevice.Touch(d, second);
    UpnpDevice.DescriptionShowsLastSeen(d, parseIp, first, second);
    var k1 := UpnpDevice.Describe(registered, parseIp).value;
    var k2 := UpnpDevice.Describe(again, parseIp).value;
    KeysOfSnoc([], again, ShownKey(parseIp));
    assert KeysOf([again], ShownKey(parseIp)) == {k2};
    assert RegisterAll(map[k1 := registered], [again], ShownKey(parseIp), TouchAt(second)).value.Keys == {k1, k2};
  }

  /** As written, a rediscovery within the same second is shown as the same
      text, so only then is the registered entry touched. */
  lemma SameSecondRediscoveryTouches(d: UpnpDevice.Device, parseIp: AddressParser, first: DateTime, second: DateTime)
    requires parseIp(d.info.ip).Some? && first / TicksPerSecond == second / TicksPerSecond
    ensures var registered := UpnpDevice.Touch(d, first);
            var key := UpnpDevice.Describe(registered, parseIp).value;
            var r := RegisterAll(map[key := registered], [UpnpDevice.Touch(d, second)], ShownKey(parseIp), TouchAt(second));
            && r.Ok? && r.value.Keys == {key} && r.value[key].lastSeen == second
  {
    var registered := UpnpDevice.Touch(d, first);
    var again := UpnpDevice.Touch(d, second);
    UpnpDevice.DescriptionShowsLastSeen(d, parseIp, first, second);
    var key := UpnpDevice.Describe(registered, parseIp).value;
    assert UpnpDevice.Describe(again, parseIp) == Ok(key);
    KeysOfSnoc([], again, ShownKey(parseIp));
    assert KeysOf([again], ShownKey(parseIp)) == {key};
  }

  /** Keyed by identity, the same rediscovery touches the registered entry
      and adds nothing. */
  lemma RediscoveryTouches(d: UpnpDevice.Device, parseIp: AddressParser, first: DateTime, second: DateTime)
    requires parseIp(d.info.ip).Some?
    ensures var registered := UpnpDevice.Touch(d, first);
            var key := IdentityOf(registered, parseIp).value;
            var r := RegisterAll(map[key := registered], [UpnpDevice.Touch(d, second)], IdentityKey(parseIp), TouchAt(second));
            && r.Ok? && r.value.Keys == {key}
            && r.value[key].lastSeen == second && r.value[key].info == d.info
  {
    var registered := UpnpDevice.Touch(d, first);
    var again := UpnpDevice.Touch(d, second);
    var key := IdentityOf(registered, parseIp).value;
    IdentityIgnoresLastSeen(d, parseIp, first);
    IdentityIgnoresLastSeen(d, parseIp, second);
    assert IdentityOf(again, parseIp) == Ok(key);
    KeysOfSnoc([], again, IdentityKey(parseIp));
    assert KeysOf([again], IdentityKey(parseIp)) == {key};
  }
}
