/** The order in which sortAndCombinePorts visits the bindings, and hence the order of its rows. */
module PortOrder {
  import opened Seqs
  import opened PortSpecs
  import opened PortGroups
  import opened PortSupply
  import opened PortRoundTrip

  /** x stands in the list before the first y. */
  ghost predicate MetFirst(x: string, y: string, list: seq<string>) {
    exists k | 0 <= k < |list| :: list[k] == x && y !in list[..k + 1]
  }

  ghost predicate InOrderOfAppearance(names: seq<string>, list: seq<string>) {
    && (forall n :: n in names <==> n in list)
    && forall i, j | 0 <= i < j < |names| :: MetFirst(names[i], names[j], list)
  }

  lemma MetFirstStays(x: string, y: string, list: seq<string>, z: string)
    requires MetFirst(x, y, list)
    ensures MetFirst(x, y, list + [z])
  {
    var k :| 0 <= k < |list| && list[k] == x && y !in list[..k + 1];
    var all := list + [z];
    assert all[..k + 1] == list[..k + 1];
    assert all[k] == x;
  }

  /** Adding what comes next keeps the order of first appearance. */
  lemma AddKeepsOrder(names: seq<string>, list: seq<string>, z: string)
    requires InOrderOfAppearance(names, list)
    ensures InOrderOfAppearance(Add(names, z), list + [z])
  {
    var r, all := Add(names, z), list + [z];
    forall i, j | 0 <= i < j < |r|
      ensures MetFirst(r[i], r[j], all)
    {
      if j < |names| {
        MetFirstStays(names[i], names[j], list, z);
      } else {
        assert names[i] in names;
        var k :| 0 <= k < |list| && list[k] == names[i];
        assert z !in list;
        assert all[..k + 1] == list[..k + 1];
        assert all[k] == names[i];
      }
    }
  }

  // ---- Protocols and addresses

  function ProtocolList(keys: seq<string>): seq<string> {
    Map(Protocol, keys)
  }

  lemma {:induction false} ProtocolsInOrder(keys: seq<string>)
    ensures InOrderOfAppearance(Protocols(keys), ProtocolList(keys))
  {
    if keys != [] {
      hide Protocol, Add, InOrderOfAppearance;
      var front, last := keys[..|keys| - 1], keys[|keys| - 1];
      assert keys == front + [last];
      ProtocolsInOrder(front);
      MapSnoc(Protocol, front, last);
      AddKeepsOrder(Protocols(front), ProtocolList(front), Protocol(last));
    }
  }

  function IpList(keys: seq<string>, lists: map<string, seq<Published>>): seq<string>
    requires forall k :: k in keys ==> k in lists
  {
    if keys == [] then [] else IpList(keys[..|keys| - 1], lists) + IpsOf(lists[keys[|keys| - 1]])
  }

  lemma {:induction false} IpsInOrderOfOne(names: seq<string>, list: seq<string>, own: seq<Published>)
    requires InOrderOfAppearance(names, list)
    ensures InOrderOfAppearance(IpsIn(names, own), list + IpsOf(own))
  {
    hide InOrderOfAppearance, Add;
    if own == [] {
      assert list + IpsOf(own) == list;
    } else {
      var front, last := own[..|own| - 1], own[|own| - 1];
      IpsInOrderOfOne(names, list, front);
      AddKeepsOrder(IpsIn(names, front), list + IpsOf(front), last.hostIp);
      assert list + IpsOf(own) == list + IpsOf(front) + [last.hostIp];
    }
  }

  lemma {:induction false} IpsInOrder(keys: seq<string>, lists: map<string, seq<Published>>)
    requires forall k :: k in keys ==> k in lists
    ensures InOrderOfAppearance(Ips(keys, lists), IpList(keys, lists))
  {
    if keys != [] {
      hide InOrderOfAppearance, IpsIn, IpsOf;
      IpsInOrder(keys[..|keys| - 1], lists);
      IpsInOrderOfOne(Ips(keys[..|keys| - 1], lists), IpList(keys[..|keys| - 1], lists), lists[keys[|keys| - 1]]);
    }
  }

  /** The keys of a protocol, in their order. */
  lemma {:induction false} KeysWithIsFilter(keys: seq<string>, protocol: string)
    ensures KeysWith(keys, protocol) == Filter((k: string) => Protocol(k) == protocol, keys)
  {
    if keys != [] {
      KeysWithIsFilter(keys[..|keys| - 1], protocol);
    }
  }

  // ---- The sort is stable

  lemma {:induction false} InsertAfterEquals(sorted: seq<string>, key: string, port: nat)
    requires Ascending(sorted)
    ensures var at := (k: string) => PortOf(k) == port;
            Filter(at, Insert(sorted, key)) == Filter(at, sorted) + if PortOf(key) == port then [key] else []
  {
    var at := (k: string) => PortOf(k) == port;
    if sorted == [] || PortOf(sorted[|sorted| - 1]) <= PortOf(key) {
      FilterSnoc(at, sorted, key);
    } else {
      var front, last := sorted[..|sorted| - 1], sorted[|sorted| - 1];
      assert sorted == front + [last];
      InsertAfterEquals(front, key, port);
      FilterSnoc(at, Insert(front, key), last);
      FilterSnoc(at, front, last);
    }
  }

  /** Keys of one port number keep their order. */
  lemma {:induction false} SortIsStable(keys: seq<string>, port: nat)
    ensures var at := (k: string) => PortOf(k) == port;
            Filter(at, SortByPort(keys)) == Filter(at, keys)
  {
    if keys != [] {
      hide PortOf, Insert, Ascending;
      var front, last := keys[..|keys| - 1], keys[|keys| - 1];
      SortIsStable(front, port);
      SortByPortSorts(front);
      InsertAfterEquals(SortByPort(front), last, port);
    }
  }

  // ---- Visits

  /** One turn may come before another: its protocol is met first; or its address is met first among
      the bindings of the protocol; or its container port is not larger. */
  ghost predicate MayPrecede(a: Slot, b: Slot, keys: seq<string>, lists: map<string, seq<Published>>)
    requires forall k :: k in keys ==> k in lists
  {
    if a.protocol != b.protocol then MetFirst(a.protocol, b.protocol, ProtocolList(keys))
    else if a.ip != b.ip then MetFirst(a.ip, b.ip, IpsOfProtocol(keys, lists, a.protocol))
    else PortOf(a.key) <= PortOf(b.key)
  }

  /** The addresses of the bindings of a protocol, in their order. */
  function IpsOfProtocol(keys: seq<string>, lists: map<string, seq<Published>>, protocol: string): seq<string>
    requires forall k :: k in keys ==> k in lists
  {
    KeysWithIn(keys, protocol);
    IpList(KeysWith(keys, protocol), lists)
  }

  lemma GroupInOrder(protocol: string, ks: seq<string>, lists: map<string, seq<Published>>, ip: string, i: nat, j: nat)
    requires forall k :: k in ks ==> k in lists
    requires i < j < |GroupSlots(protocol, ks, lists, ip)|
    ensures var group := GroupSlots(protocol, ks, lists, ip);
            group[i].protocol == group[j].protocol == protocol && group[i].ip == group[j].ip == ip
            && PortOf(group[i].key) <= PortOf(group[j].key)
  {
    hide PortOf, SortByPort, KeysFor;
    SortByPortSorts(KeysFor(ks, lists, ip));
  }

  lemma GroupNames(protocol: string, ks: seq<string>, lists: map<string, seq<Published>>, ip: string, i: nat)
    requires (forall k :: k in ks ==> k in lists) && i < |GroupSlots(protocol, ks, lists, ip)|
    ensures GroupSlots(protocol, ks, lists, ip)[i].protocol == protocol && GroupSlots(protocol, ks, lists, ip)[i].ip == ip
  {
  }

  lemma ProtocolInOrder(keys: seq<string>, lists: map<string, seq<Published>>, protocol: string, i: nat, j: nat)
    requires (forall k :: k in keys ==> k in lists) && i < j < |ProtocolSlots(keys, lists, protocol)|
    ensures var slots := ProtocolSlots(keys, lists, protocol);
            slots[i].protocol == slots[j].protocol == protocol && MayPrecede(slots[i], slots[j], keys, lists)
  {
    hide GroupSlots, MetFirst, Ips, PortOf, Flatten;
    KeysWithIn(keys, protocol);
    var ks := KeysWith(keys, protocol);
    var ips := Ips(ks, lists);
    IpsInOrder(ks, lists);
    var p, k, q, l := FlattenOrder(IpGroups(protocol, ks, lists, ips), i, j);
    GroupNames(protocol, ks, lists, ips[p], k);
    GroupNames(protocol, ks, lists, ips[q], l);
    if p == q {
      GroupInOrder(protocol, ks, lists, ips[p], k, l);
    } else {
      assert MetFirst(ips[p], ips[q], IpList(ks, lists));
      DifferentNames(ips[p], ips[q], IpList(ks, lists));
    }
  }

  lemma DifferentNames(x: string, y: string, list: seq<string>)
    requires MetFirst(x, y, list)
    ensures x != y
  {
    var k :| 0 <= k < |list| && list[k] == x && y !in list[..k + 1];
    assert list[..k + 1][k] == x;
  }

  lemma ProtocolName(keys: seq<string>, lists: map<string, seq<Published>>, protocol: string, i: nat)
    requires (forall k :: k in keys ==> k in lists) && i < |ProtocolSlots(keys, lists, protocol)|
    ensures ProtocolSlots(keys, lists, protocol)[i].protocol == protocol
  {
    hide GroupSlots, Ips, Flatten;
    KeysWithIn(keys, protocol);
    var ks := KeysWith(keys, protocol);
    var p, k := FlattenAt(IpGroups(protocol, ks, lists, Ips(ks, lists)), i);
    GroupNames(protocol, ks, lists, Ips(ks, lists)[p], k);
  }

  /** All turns are taken protocol by protocol, and within a protocol address by address, each in order
      of first appearance, and within an address by ascending container port. */
  lemma SlotsInOrder(keys: seq<string>, lists: map<string, seq<Published>>, i: nat, j: nat)
    requires WellFormed(keys, lists) && i < j < |Slots(keys, lists)|
    ensures MayPrecede(Slots(keys, lists)[i], Slots(keys, lists)[j], keys, lists)
  {
    hide ProtocolSlots, MetFirst, Protocols, PortOf, Flatten, IpsOfProtocol, ProtocolList;
    var ps := Protocols(keys);
    ProtocolsInOrder(keys);
    var p, k, q, l := FlattenOrder(ProtocolGroups(keys, lists, ps), i, j);
    ProtocolName(keys, lists, ps[p], k);
    ProtocolName(keys, lists, ps[q], l);
    if p == q {
      ProtocolInOrder(keys, lists, ps[p], k, l);
    } else {
      assert MetFirst(ps[p], ps[q], ProtocolList(keys));
      DifferentNames(ps[p], ps[q], ProtocolList(keys));
    }
  }

  lemma {:induction false} VisitIsOfSlot(slots: seq<Slot>, lists: map<string, seq<Published>>, i: nat)
    requires i < |slots|
    ensures var v := VisitsOf(slots, lists)[i];
            v.protocol == slots[i].protocol && v.ip == slots[i].ip && v.key == slots[i].key && v.port == PortOf(slots[i].key)
  {
    if i < |slots| - 1 {
      VisitIsOfSlot(slots[..|slots| - 1], lists, i);
    }
  }

  /** So are the visits, which the rows are made of in this order. */
  lemma VisitsInOrder(keys: seq<string>, lists: map<string, seq<Published>>, i: nat, j: nat)
    requires WellFormed(keys, lists) && i < j < |Slots(keys, lists)|
    ensures var a, b := VisitsOf(Slots(keys, lists), lists)[i], VisitsOf(Slots(keys, lists), lists)[j];
            if a.protocol != b.protocol then MetFirst(a.protocol, b.protocol, ProtocolList(keys))
            else if a.ip != b.ip then MetFirst(a.ip, b.ip, IpsOfProtocol(keys, lists, a.protocol))
            else a.port <= b.port
  {
    hide VisitsOf, Slots, MetFirst, PortOf, IpsOfProtocol, ProtocolList;
    SlotsInOrder(keys, lists, i, j);
    VisitIsOfSlot(Slots(keys, lists), lists, i);
    VisitIsOfSlot(Slots(keys, lists), lists, j);
  }
}
