/** sortAndCombinePorts as it runs: the lists of the given object are emptied while rows are
    appended and widened (app/docker/helpers/containerHelper.js:192-260). */
module PortCombiner {
  import opened Seqs
  import opened PortSpecs
  import opened PortGroups
  import opened PortSupply

  /** What is left of lists after the turns done. */
  ghost predicate Drained(current: map<string, seq<Published>>, lists: map<string, seq<Published>>, done: seq<Slot>) {
    && current.Keys == lists.Keys
    && forall k :: k in lists ==>
         |Mine(done, k)| <= |lists[k]| && current[k] == lists[k][|Mine(done, k)|..]
  }

  /** No list runs dry during the given turns. */
  ghost predicate Supplied(lists: map<string, seq<Published>>, slots: seq<Slot>) {
    forall s :: s in slots ==> s.key in lists && |Mine(slots, s.key)| <= |lists[s.key]|
  }

  lemma Turn(current: map<string, seq<Published>>, lists: map<string, seq<Published>>, slots: seq<Slot>, turns: seq<Slot>, n: nat)
    returns (next: seq<Slot>)
    requires n < |slots| && turns == slots[..n]
    requires Supplied(lists, slots) && Drained(current, lists, turns)
    ensures next == slots[..n + 1]
    ensures var slot := slots[n];
            && slot.key in current && current[slot.key] != []
            && VisitAfter(turns, slot, lists) ==
               Visit(slot.protocol, slot.ip, slot.key, PortOf(slot.key), current[slot.key][0].hostPort)
            && Drained(current[slot.key := current[slot.key][1..]], lists, next)
            && VisitsOf(next, lists) == VisitsOf(turns, lists) + [VisitAfter(turns, slot, lists)]
  {
    var slot := slots[n];
    next := turns + [slot];
    assert slots == (turns + [slot]) + slots[n + 1..];
    MineAppend(turns + [slot], slots[n + 1..], slot.key);
    assert (turns + [slot])[..n] == turns;
    assert slot in slots;
    DrainOne(current, lists, turns, slot);
  }

  lemma DrainOne(current: map<string, seq<Published>>, lists: map<string, seq<Published>>, done: seq<Slot>, slot: Slot)
    requires Drained(current, lists, done)
    requires slot.key in lists && |Mine(done, slot.key)| < |lists[slot.key]|
    ensures current[slot.key] != []
    ensures current[slot.key][0].hostPort == VisitAfter(done, slot, lists).host
    ensures Drained(current[slot.key := current[slot.key][1..]], lists, done + [slot])
    ensures VisitsOf(done + [slot], lists) == VisitsOf(done, lists) + [VisitAfter(done, slot, lists)]
  {
    assert (done + [slot])[..|done|] == done;
  }

  lemma {:induction false} SameGroups(ks: seq<string>, a: map<string, seq<Published>>, b: map<string, seq<Published>>)
    requires forall k :: k in ks ==> k in a && k in b && a[k] == b[k]
    ensures Ips(ks, a) == Ips(ks, b)
    ensures forall ip :: KeysFor(ks, a, ip) == KeysFor(ks, b, ip)
  {
    if ks != [] {
      SameGroups(ks[..|ks| - 1], a, b);
    }
  }

  lemma {:induction false} NotVisited(done: seq<Slot>, key: string)
    requires forall s :: s in done ==> s.key != key
    ensures Mine(done, key) == []
  {
    if done != [] {
      assert done[|done| - 1] in done;
      NotVisited(done[..|done| - 1], key);
    }
  }

  /** The lists of a protocol whose turn has not come are still complete. */
  lemma Untouched(current: map<string, seq<Published>>, lists: map<string, seq<Published>>, done: seq<Slot>,
      protocol: string, ks: seq<string>)
    requires Drained(current, lists, done)
    requires forall s :: s in done ==> s.protocol == Protocol(s.key) && s.protocol != protocol
    requires forall k :: k in ks ==> k in lists && Protocol(k) == protocol
    ensures forall k :: k in ks ==> current[k] == lists[k]
  {
    forall k | k in ks
      ensures current[k] == lists[k]
    {
      NotVisited(done, k);
    }
  }

  lemma SuppliedPrefix(lists: map<string, seq<Published>>, slots: seq<Slot>, prefix: seq<Slot>, rest: seq<Slot>)
    requires Supplied(lists, slots) && slots == prefix + rest
    ensures Supplied(lists, prefix)
  {
    forall s | s in prefix
      ensures s.key in lists && |Mine(prefix, s.key)| <= |lists[s.key]|
    {
      assert s in slots;
      MineAppend(prefix, rest, s.key);
    }
  }

  /** Over the whole run no drained list is ever read. */
  lemma NeverReadsDrained(keys: seq<string>, lists: map<string, seq<Published>>)
    requires WellFormed(keys, lists)
    ensures Supplied(lists, Slots(keys, lists))
  {
    var slots := Slots(keys, lists);
    ProtocolGroupsFit(keys, lists, Protocols(keys));
    forall s | s in slots
      ensures s.key in lists && |Mine(slots, s.key)| <= |lists[s.key]|
    {
      VisitsMatchBindings(keys, lists, s.key);
    }
  }

  /** The next address of a protocol: enough is left, and the group is a new one. */
  lemma NextGroup(protocol: string, ks: seq<string>, lists: map<string, seq<Published>>, ips: seq<string>, j: nat,
      done: seq<Slot>, parts: seq<seq<Slot>>)
    returns (next: seq<Slot>)
    requires forall k :: k in ks ==> k in lists && Protocol(k) == protocol
    requires Distinct(ks) && Distinct(ips) && j < |ips|
    requires parts == IpGroups(protocol, ks, lists, ips) && Supplied(lists, done + Flatten(parts))
    requires forall s :: s in done ==> s.protocol != protocol
    ensures next == done + Flatten(parts[..j + 1])
    ensures next == done + Flatten(parts[..j]) + GroupSlots(protocol, ks, lists, ips[j])
    ensures Supplied(lists, next)
    ensures forall s :: s in done + Flatten(parts[..j]) ==> s.protocol != protocol || s.ip != ips[j]
  {
    FlattenStepAfter(done, parts, j);
    next := done + Flatten(parts[..j + 1]);
    SuppliedPrefix(lists, done + Flatten(parts), next, Flatten(parts[j + 1..]));
    EarlierGroups(protocol, ks, lists, ips, j, parts);
  }

  lemma EarlierGroups(protocol: string, ks: seq<string>, lists: map<string, seq<Published>>, ips: seq<string>, j: nat,
      parts: seq<seq<Slot>>)
    requires forall k :: k in ks ==> k in lists && Protocol(k) == protocol
    requires Distinct(ks) && Distinct(ips) && j < |ips| && parts == IpGroups(protocol, ks, lists, ips)
    ensures forall s :: s in Flatten(parts[..j]) ==> s.ip != ips[j]
  {
    assert parts[..j] == IpGroups(protocol, ks, lists, ips[..j]);
    IpGroupsFit(protocol, ks, lists, ips[..j]);
  }

  /** No turn of this protocol was taken, and enough is left for all of them. */
  ghost predicate ComesNext(keys: seq<string>, lists: map<string, seq<Published>>, done: seq<Slot>, protocol: string)
    requires WellFormed(keys, lists)
  {
    && Supplied(lists, done + ProtocolSlots(keys, lists, protocol))
    && SlotsFit(keys, done)
    && forall s :: s in done ==> s.protocol != protocol
  }

  /** The next protocol: enough is left, and its lists are untouched. */
  lemma NextProtocol(keys: seq<string>, lists: map<string, seq<Published>>, ps: seq<string>, i: nat)
    returns (next: seq<Slot>)
    requires WellFormed(keys, lists) && ps == Protocols(keys) && i < |ps|
    ensures var parts := ProtocolGroups(keys, lists, ps);
            var turns := Flatten(parts[..i]);
            && next == Flatten(parts[..i + 1])
            && next == turns + ProtocolSlots(keys, lists, ps[i])
            && Supplied(lists, next)
            && SlotsFit(keys, turns) && forall s :: s in turns ==> s.protocol != ps[i]
  {
    var parts := ProtocolGroups(keys, lists, ps);
    FlattenStep(parts, i);
    next := Flatten(parts[..i + 1]);
    NeverReadsDrained(keys, lists);
    SuppliedPrefix(lists, Slots(keys, lists), next, Flatten(parts[i + 1..]));
    assert parts[..i] == ProtocolGroups(keys, lists, ps[..i]);
    ProtocolGroupsFit(keys, lists, ps[..i]);
    ProtocolsCover(keys);
  }

  lemma NothingDrained(lists: map<string, seq<Published>>)
    ensures Drained(lists, lists, []) && Combine(VisitsOf([], lists)) == []
  {
  }

  lemma AllDrained(keys: seq<string>, current: map<string, seq<Published>>, lists: map<string, seq<Published>>)
    requires WellFormed(keys, lists) && Drained(current, lists, Slots(keys, lists))
    ensures current == map k | k in lists :: []
  {
    hide Slots, Mine;
    forall k | k in lists
      ensures current[k] == []
    {
      VisitsMatchBindings(keys, lists, k);
    }
  }

  class PortMap {
    const keys: seq<string>
    var lists: map<string, seq<Published>>

    ghost predicate Valid()
      reads this
    {
      WellFormed(keys, lists)
    }

    constructor (keys: seq<string>, lists: map<string, seq<Published>>)
      requires WellFormed(keys, lists)
      ensures Valid() && this.keys == keys && this.lists == lists
    {
      this.keys, this.lists := keys, lists;
    }

    /** Files each key under the address of each of its bindings. */
    method GroupByHostIp(ks: seq<string>) returns (ips: seq<string>, byIp: map<string, seq<string>>)
      requires forall k :: k in ks ==> k in lists
      ensures ips == Ips(ks, lists)
      ensures forall ip :: ip in byIp <==> ip in ips
      ensures forall ip :: ip in byIp ==> byIp[ip] == KeysFor(ks, lists, ip)
    {
      ips, byIp := [], map[];
      for i := 0 to |ks|
        invariant ips == Ips(ks[..i], lists)
        invariant forall ip :: ip in byIp <==> ip in ips
        invariant forall ip :: Filed(byIp, ip) == KeysFor(ks[..i], lists, ip)
      {
        assert ks[..i + 1][..i] == ks[..i];
        ips, byIp := FileKey(ks[i], lists[ks[i]], ips, byIp);
      }
      assert ks[..|ks|] == ks;
    }

    static method FileKey(key: string, own: seq<Published>, ips0: seq<string>, byIp0: map<string, seq<string>>)
      returns (ips: seq<string>, byIp: map<string, seq<string>>)
      requires forall ip :: ip in byIp0 <==> ip in ips0
      ensures ips == IpsIn(ips0, own)
      ensures forall ip :: ip in byIp <==> ip in ips
      ensures forall ip :: Filed(byIp, ip) ==
                           Filed(byIp0, ip) + Repeat(key, CountIp(own, ip))
    {
      ips, byIp := ips0, byIp0;
      assert own[..0] == [];
      for j := 0 to |own|
        invariant ips == IpsIn(ips0, own[..j])
        invariant forall ip :: ip in byIp <==> ip in ips
        invariant forall ip :: Filed(byIp, ip) ==
                               Filed(byIp0, ip) + Repeat(key, CountIp(own[..j], ip))
      {
        var ip := own[j].hostIp;
        ghost var before := byIp;
        if ip !in byIp {
          byIp := byIp[ip := []];
          ips := ips + [ip];
        }
        byIp := byIp[ip := byIp[ip] + [key]];
        forall other
          ensures Filed(byIp, other) == Filed(byIp0, other) + Repeat(key, CountIp(own[..j + 1], other))
        {
          FileOne(key, own, j, other, Filed(byIp0, other));
        }
        assert own[..j + 1][..j] == own[..j];
      }
      assert own[..|own|] == own;
    }

    static function Filed(byIp: map<string, seq<string>>, ip: string): seq<string> {
      if ip in byIp then byIp[ip] else []
    }

    static lemma FileOne(key: string, own: seq<Published>, j: nat, ip: string, before: seq<string>)
      requires j < |own|
      ensures before + Repeat(key, CountIp(own[..j + 1], ip)) ==
              before + Repeat(key, CountIp(own[..j], ip)) + if own[j].hostIp == ip then [key] else []
    {
      assert own[..j + 1][..j] == own[..j];
    }

    /** Widens the last row if v continues it, and otherwise appends a row for v. */
    static method Emit(rows: seq<Spec>, previousHostPort: int, previousContainerPort: int, v: Visit, ghost vs: seq<Visit>)
      returns (bindings: seq<Spec>, hostPort: int, containerPort: int)
      requires rows == Combine(vs) && PreviousPorts(vs, v.protocol, v.ip, previousHostPort, previousContainerPort)
      ensures bindings == Combine(vs + [v])
      ensures PreviousPorts(vs + [v], v.protocol, v.ip, hostPort, containerPort)
    {
      CombineSnoc(vs, v);
      var port := ParsePort(v.host);
      if port > 0 {
        hostPort, containerPort := port, v.port;
        if |rows| > 0 && previousHostPort == port - 1 && previousContainerPort == v.port - 1 {
          assert Continues(vs, v);
          var last := rows[|rows| - 1];
          last := last.(hostPort := CreatePortRange(last.hostPort, port));
          last := last.(containerPort := Written(CreatePortRange(last.containerPort.Display(), v.port)));
          bindings := rows[..|rows| - 1] + [last];
          return;
        }
      } else {
        hostPort, containerPort := -1, -1;
      }
      assert !Continues(vs, v);
      var bindingHostPort := v.host;
      if v.ip != "" {
        bindingHostPort := v.ip + ":" + bindingHostPort;
      }
      bindings := rows + [Spec(bindingHostPort, Number(v.port), v.protocol)];
    }

    /** The loop over the sorted keys of one protocol and address. */
    method CombineGroup(protocol: string, ip: string, sorted: seq<string>, rows: seq<Spec>,
        ghost all: map<string, seq<Published>>, ghost done: seq<Slot>, ghost slots: seq<Slot>)
      returns (bindings: seq<Spec>)
      requires slots == done + SlotsOfGroup(protocol, ip, sorted) && Supplied(all, slots)
      requires Drained(lists, all, done) && rows == Combine(VisitsOf(done, all))
      requires forall s :: s in done ==> s.protocol != protocol || s.ip != ip
      modifies this`lists
      ensures Drained(lists, all, slots)
      ensures bindings == Combine(VisitsOf(slots, all))
    {
      hide *;
      bindings := rows;
      var previousHostPort: int, previousContainerPort: int := -1, -1;
      ghost var turns, vs := done, VisitsOf(done, all);
      FreshGroup(done, all, protocol, ip);
      GroupLength(protocol, ip, sorted);
      for i := 0 to |sorted|
        invariant turns == slots[..|done| + i]
        invariant vs == VisitsOf(turns, all)
        invariant Drained(lists, all, turns)
        invariant bindings == Combine(vs)
        invariant PreviousPorts(vs, protocol, ip, previousHostPort, previousContainerPort)
      {
        var portKey := sorted[i];
        SlotAt(done, protocol, ip, sorted, i);
        turns := Turn(lists, all, slots, turns, |done| + i);
        var portBinding := lists[portKey][0];
        lists := lists[portKey := lists[portKey][1..]];
        var visit := Visit(protocol, ip, portKey, PortOf(portKey), portBinding.hostPort);
        bindings, previousHostPort, previousContainerPort := Emit(bindings, previousHostPort, previousContainerPort, visit, vs);
        vs := vs + [visit];
      }
      assert turns == slots;
    }

    /** The loop over the addresses of one protocol. */
    method CombineProtocol(protocol: string, rows: seq<Spec>,
        ghost all: map<string, seq<Published>>, ghost done: seq<Slot>)
      returns (bindings: seq<Spec>)
      requires WellFormed(keys, all) && Drained(lists, all, done) && ComesNext(keys, all, done, protocol)
      requires rows == Combine(VisitsOf(done, all))
      modifies this`lists
      ensures Drained(lists, all, done + ProtocolSlots(keys, all, protocol))
      ensures bindings == Combine(VisitsOf(done + ProtocolSlots(keys, all, protocol), all))
    {
      ghost var slots := done + ProtocolSlots(keys, all, protocol);
      hide Combine, VisitsOf, Mine, SortByPort, KeysFor, Ips, Protocol;
      KeysWithIn(keys, protocol);
      var ks := KeysWith(keys, protocol);
      Untouched(lists, all, done, protocol, ks);
      SameGroups(ks, lists, all);
      var ips, byIp := GroupByHostIp(ks);
      IpsCover(ks, all);
      bindings := rows;
      ghost var parts := IpGroups(protocol, ks, all, ips);
      ghost var turns := done;
      for j := 0 to |ips|
        invariant turns == done + Flatten(parts[..j])
        invariant Drained(lists, all, turns)
        invariant bindings == Combine(VisitsOf(turns, all))
      {
        var sorted := SortByPort(byIp[ips[j]]);
        ghost var next := NextGroup(protocol, ks, all, ips, j, done, parts);
        bindings := CombineGroup(protocol, ips[j], sorted, bindings, all, turns, next);
        turns := next;
      }
      assert parts[..|parts|] == parts;
    }

    method SortAndCombinePorts() returns (bindings: seq<Spec>)
      requires Valid()
      modifies this`lists
      ensures bindings == Combine(VisitsOf(Slots(keys, old(lists)), old(lists)))
      ensures lists == map k | k in old(lists) :: []
    {
      hide Combine, VisitsOf, Drained, Supplied, SlotsFit, ProtocolSlots, Protocol, Mine;
      bindings := [];
      ghost var all := lists;
      ghost var turns: seq<Slot> := [];
      NothingDrained(all);
      var protocols := Protocols(keys);
      ProtocolsCover(keys);
      ghost var parts := ProtocolGroups(keys, all, protocols);
      for i := 0 to |protocols|
        invariant turns == Flatten(parts[..i])
        invariant Drained(lists, all, turns)
        invariant bindings == Combine(VisitsOf(turns, all))
      {
        ghost var next := NextProtocol(keys, all, protocols, i);
        bindings := CombineProtocol(protocols[i], bindings, all, turns);
        turns := next;
      }
      assert parts[..|parts|] == parts;
      AllDrained(keys, lists, all);
    }

    /** The two variables remember the last visit of this group, if it was a single host port. */
    static ghost predicate PreviousPorts(vs: seq<Visit>, protocol: string, ip: string, host: int, container: int) {
      if vs != [] && vs[|vs| - 1].protocol == protocol && vs[|vs| - 1].ip == ip && ParsePort(vs[|vs| - 1].host) > 0
      then host == ParsePort(vs[|vs| - 1].host) && container == vs[|vs| - 1].port
      else host == -1 && container == -1
    }

    static lemma FreshGroup(done: seq<Slot>, all: map<string, seq<Published>>, protocol: string, ip: string)
      requires forall s :: s in done ==> s.protocol != protocol || s.ip != ip
      ensures PreviousPorts(VisitsOf(done, all), protocol, ip, -1, -1)
    {
      if done != [] {
        assert done[|done| - 1] in done;
      }
    }

    static lemma GroupLength(protocol: string, ip: string, sorted: seq<string>)
      ensures |SlotsOfGroup(protocol, ip, sorted)| == |sorted|
    {
    }

    static lemma SlotAt(done: seq<Slot>, protocol: string, ip: string, sorted: seq<string>, i: nat)
      requires i < |sorted|
      ensures var slots := done + SlotsOfGroup(protocol, ip, sorted);
              |slots| == |done| + |sorted| && slots[|done| + i] == Slot(protocol, ip, sorted[i])
    {
    }
  }
}
