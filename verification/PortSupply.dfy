/** Each key is visited exactly as often as it has bindings, so the lists are drained to the end
    and never read when empty. */
module PortSupply {
  import opened Seqs
  import opened PortGroups

  function IpsOf(own: seq<Published>): seq<string> {
    seq(|own|, i requires 0 <= i < |own| => own[i].hostIp)
  }

  /** The addresses of own, regrouped by the order of ips. */
  function Regroup(ips: seq<string>, own: seq<Published>): seq<string> {
    if ips == [] then []
    else Regroup(ips[..|ips| - 1], own) + Repeat(ips[|ips| - 1], CountIp(own, ips[|ips| - 1]))
  }

  lemma {:induction false} CountIpIsMultiplicity(own: seq<Published>, ip: string)
    ensures multiset(IpsOf(own))[ip] == CountIp(own, ip)
  {
    if own != [] {
      CountIpIsMultiplicity(own[..|own| - 1], ip);
      assert IpsOf(own) == IpsOf(own[..|own| - 1]) + [own[|own| - 1].hostIp];
    }
  }

  lemma {:induction false} RegroupCount(ips: seq<string>, own: seq<Published>, ip: string)
    requires Distinct(ips)
    ensures multiset(Regroup(ips, own))[ip] == if ip in ips then CountIp(own, ip) else 0
  {
    if ips != [] {
      var front, last := ips[..|ips| - 1], ips[|ips| - 1];
      RegroupCount(front, own, ip);
      RepeatCount(last, CountIp(own, last), ip);
      assert ips == front + [last];
    }
  }

  lemma {:induction false} AbsentIp(own: seq<Published>, ip: string)
    requires forall b :: b in own ==> b.hostIp != ip
    ensures CountIp(own, ip) == 0
  {
    if own != [] {
      assert own[|own| - 1] in own;
      AbsentIp(own[..|own| - 1], ip);
    }
  }

  /** Regrouping permutes the addresses when every one of them has a group. */
  lemma RegroupPermutes(ips: seq<string>, own: seq<Published>)
    requires Distinct(ips) && forall b :: b in own ==> b.hostIp in ips
    ensures multiset(Regroup(ips, own)) == multiset(IpsOf(own))
    ensures |Regroup(ips, own)| == |own|
  {
    forall ip
      ensures multiset(Regroup(ips, own))[ip] == multiset(IpsOf(own))[ip]
    {
      RegroupCount(ips, own, ip);
      CountIpIsMultiplicity(own, ip);
      if ip !in ips {
        AbsentIp(own, ip);
      }
    }
    assert multiset(Regroup(ips, own)) == multiset(IpsOf(own));
    assert |multiset(Regroup(ips, own))| == |multiset(IpsOf(own))|;
  }

  lemma {:induction false} IpsInAdds(ips: seq<string>, own: seq<Published>)
    requires Distinct(ips)
    ensures Distinct(IpsIn(ips, own))
    ensures forall ip :: ip in ips ==> ip in IpsIn(ips, own)
    ensures forall b :: b in own ==> b.hostIp in IpsIn(ips, own)
  {
    if own != [] {
      IpsInAdds(ips, own[..|own| - 1]);
      assert own == own[..|own| - 1] + [own[|own| - 1]];
    }
  }

  lemma {:induction false} IpsCover(keys: seq<string>, lists: map<string, seq<Published>>)
    requires forall k :: k in keys ==> k in lists
    ensures Distinct(Ips(keys, lists))
    ensures forall k, b :: k in keys && b in lists[k] ==> b.hostIp in Ips(keys, lists)
  {
    if keys != [] {
      var front, last := keys[..|keys| - 1], keys[|keys| - 1];
      IpsCover(front, lists);
      IpsInAdds(Ips(front, lists), lists[last]);
      assert keys == front + [last];
    }
  }

  lemma {:induction false} ProtocolsCover(keys: seq<string>)
    ensures Distinct(Protocols(keys))
    ensures forall k :: k in keys ==> Protocol(k) in Protocols(keys)
  {
    if keys != [] {
      ProtocolsCover(keys[..|keys| - 1]);
      assert keys == keys[..|keys| - 1] + [keys[|keys| - 1]];
    }
  }

  lemma {:induction false} KeysForCount(ks: seq<string>, lists: map<string, seq<Published>>, ip: string, key: string)
    requires Distinct(ks) && forall k :: k in ks ==> k in lists
    ensures multiset(KeysFor(ks, lists, ip))[key] == if key in ks then CountIp(lists[key], ip) else 0
  {
    if ks != [] {
      var front, last := ks[..|ks| - 1], ks[|ks| - 1];
      KeysForCount(front, lists, ip, key);
      RepeatCount(last, CountIp(lists[last], ip), key);
      assert ks == front + [last];
    }
  }

  lemma {:induction false} MineOfGroup(protocol: string, ip: string, sorted: seq<string>, key: string)
    ensures Mine(SlotsOfGroup(protocol, ip, sorted), key) == Repeat(ip, multiset(sorted)[key])
  {
    if sorted != [] {
      var front, last := sorted[..|sorted| - 1], sorted[|sorted| - 1];
      MineOfGroup(protocol, ip, front, key);
      assert sorted == front + [last];
      assert SlotsOfGroup(protocol, ip, sorted) == SlotsOfGroup(protocol, ip, front) + [Slot(protocol, ip, last)];
      MineAppend(SlotsOfGroup(protocol, ip, front), [Slot(protocol, ip, last)], key);
      assert [Slot(protocol, ip, last)][..0] == [];
    }
  }

  lemma MineOfGroupSlots(protocol: string, ks: seq<string>, lists: map<string, seq<Published>>, ip: string, key: string)
    requires Distinct(ks) && forall k :: k in ks ==> k in lists
    ensures Mine(GroupSlots(protocol, ks, lists, ip), key) == if key in ks then Repeat(ip, CountIp(lists[key], ip)) else []
  {
    var group := KeysFor(ks, lists, ip);
    SortByPortPermutes(group);
    MineOfGroup(protocol, ip, SortByPort(group), key);
    KeysForCount(ks, lists, ip, key);
  }

  lemma MineOfLastIp(protocol: string, ks: seq<string>, lists: map<string, seq<Published>>, ips: seq<string>, key: string)
    requires (forall k :: k in ks ==> k in lists) && ips != []
    ensures Mine(Flatten(IpGroups(protocol, ks, lists, ips)), key) ==
            Mine(Flatten(IpGroups(protocol, ks, lists, ips[..|ips| - 1])), key)
            + Mine(GroupSlots(protocol, ks, lists, ips[|ips| - 1]), key)
  {
    hide Mine, GroupSlots, Flatten;
    var parts, group := IpGroups(protocol, ks, lists, ips[..|ips| - 1]), GroupSlots(protocol, ks, lists, ips[|ips| - 1]);
    assert IpGroups(protocol, ks, lists, ips) == parts + [group];
    FlattenSnoc(parts, group);
    MineAppend(Flatten(parts), group, key);
  }

  lemma {:induction false} MineOfIps(protocol: string, ks: seq<string>, lists: map<string, seq<Published>>, ips: seq<string>, key: string)
    requires Distinct(ks) && forall k :: k in ks ==> k in lists
    ensures Mine(Flatten(IpGroups(protocol, ks, lists, ips)), key) ==
            if key in ks then Regroup(ips, lists[key]) else []
  {
    if ips != [] {
      hide GroupSlots, IpGroups, Mine, Flatten, CountIp, Repeat;
      MineOfIps(protocol, ks, lists, ips[..|ips| - 1], key);
      MineOfLastIp(protocol, ks, lists, ips, key);
      MineOfGroupSlots(protocol, ks, lists, ips[|ips| - 1], key);
    }
  }

  /** The groups a key is visited in, from the key's own bindings. */
  function GroupOrder(keys: seq<string>, lists: map<string, seq<Published>>, key: string): seq<string>
    requires WellFormed(keys, lists) && key in keys
  {
    KeysWithIn(keys, Protocol(key));
    Regroup(Ips(KeysWith(keys, Protocol(key)), lists), lists[key])
  }

  lemma MineOfProtocol(keys: seq<string>, lists: map<string, seq<Published>>, protocol: string, key: string)
    requires WellFormed(keys, lists) && key in keys
    ensures Mine(ProtocolSlots(keys, lists, protocol), key) ==
            if Protocol(key) == protocol then GroupOrder(keys, lists, key) else []
  {
    KeysWithIn(keys, protocol);
    var ks := KeysWith(keys, protocol);
    MineOfIps(protocol, ks, lists, Ips(ks, lists), key);
  }

  lemma {:induction false} MineOfProtocols(keys: seq<string>, lists: map<string, seq<Published>>, ps: seq<string>, key: string)
    requires WellFormed(keys, lists) && Distinct(ps) && key in keys
    ensures Mine(Flatten(ProtocolGroups(keys, lists, ps)), key) ==
            if Protocol(key) in ps then GroupOrder(keys, lists, key) else []
  {
    if ps != [] {
      hide ProtocolSlots, ProtocolGroups, Mine, Flatten, GroupOrder;
      var front, last := ps[..|ps| - 1], ps[|ps| - 1];
      assert ps == front + [last];
      MineOfProtocols(keys, lists, front, key);
      MineOfProtocol(keys, lists, last, key);
      MineOfLastProtocol(keys, lists, ps, key);
    }
  }

  lemma MineOfLastProtocol(keys: seq<string>, lists: map<string, seq<Published>>, ps: seq<string>, key: string)
    requires WellFormed(keys, lists) && ps != []
    ensures Mine(Flatten(ProtocolGroups(keys, lists, ps)), key) ==
            Mine(Flatten(ProtocolGroups(keys, lists, ps[..|ps| - 1])), key)
            + Mine(ProtocolSlots(keys, lists, ps[|ps| - 1]), key)
  {
    hide Mine, ProtocolSlots, Flatten;
    var parts, group := ProtocolGroups(keys, lists, ps[..|ps| - 1]), ProtocolSlots(keys, lists, ps[|ps| - 1]);
    assert ProtocolGroups(keys, lists, ps) == parts + [group];
    FlattenSnoc(parts, group);
    MineAppend(Flatten(parts), group, key);
  }

  /** A key is visited once per binding, in the groups of its own addresses. */
  lemma VisitsMatchBindings(keys: seq<string>, lists: map<string, seq<Published>>, key: string)
    requires WellFormed(keys, lists) && key in keys
    ensures Mine(Slots(keys, lists), key) == GroupOrder(keys, lists, key)
    ensures |Mine(Slots(keys, lists), key)| == |lists[key]|
    ensures multiset(Mine(Slots(keys, lists), key)) == multiset(IpsOf(lists[key]))
  {
    ProtocolsCover(keys);
    MineOfProtocols(keys, lists, Protocols(keys), key);
    KeysWithIn(keys, Protocol(key));
    IpsCover(KeysWith(keys, Protocol(key)), lists);
    RegroupPermutes(Ips(KeysWith(keys, Protocol(key)), lists), lists[key]);
  }

  ghost predicate SlotsFit(keys: seq<string>, slots: seq<Slot>) {
    forall s :: s in slots ==> s.key in keys && s.protocol == Protocol(s.key)
  }

  lemma GroupSlotsFit(protocol: string, ks: seq<string>, lists: map<string, seq<Published>>, ip: string)
    requires Distinct(ks) && forall k :: k in ks ==> k in lists && Protocol(k) == protocol
    ensures SlotsFit(ks, GroupSlots(protocol, ks, lists, ip))
    ensures forall s :: s in GroupSlots(protocol, ks, lists, ip) ==> s.protocol == protocol && s.ip == ip
  {
    var group := KeysFor(ks, lists, ip);
    SortByPortPermutes(group);
    forall s | s in GroupSlots(protocol, ks, lists, ip)
      ensures s.key in ks
    {
      assert s.key in multiset(SortByPort(group));
      KeysForCount(ks, lists, ip, s.key);
    }
  }

  lemma IpGroupsFit(protocol: string, ks: seq<string>, lists: map<string, seq<Published>>, ips: seq<string>)
    requires Distinct(ks) && forall k :: k in ks ==> k in lists && Protocol(k) == protocol
    ensures forall s :: s in Flatten(IpGroups(protocol, ks, lists, ips)) ==>
              s.key in ks && s.protocol == protocol && s.ip in ips
  {
    var parts := IpGroups(protocol, ks, lists, ips);
    forall s: Slot | s in Flatten(parts)
      ensures s.key in ks && s.protocol == protocol && s.ip in ips
    {
      InFlatten(parts, s);
      var i :| 0 <= i < |parts| && s in parts[i];
      GroupSlotsFit(protocol, ks, lists, ips[i]);
    }
  }

  lemma ProtocolGroupsFit(keys: seq<string>, lists: map<string, seq<Published>>, ps: seq<string>)
    requires WellFormed(keys, lists)
    ensures SlotsFit(keys, Flatten(ProtocolGroups(keys, lists, ps)))
    ensures forall s :: s in Flatten(ProtocolGroups(keys, lists, ps)) ==> s.protocol in ps
  {
    var parts := ProtocolGroups(keys, lists, ps);
    forall s: Slot | s in Flatten(parts)
      ensures s.key in keys && s.protocol == Protocol(s.key) && s.protocol in ps
    {
      InFlatten(parts, s);
      var i :| 0 <= i < |parts| && s in parts[i];
      KeysWithIn(keys, ps[i]);
      var ks := KeysWith(keys, ps[i]);
      IpGroupsFit(ps[i], ks, lists, Ips(ks, lists));
    }
  }
}
