/** sortAndCombinePorts neither loses nor invents a port, and merges as far as it can. */
module PortConservation {
  import opened Seqs
  import opened Text
  import opened PortSpecs
  import opened PortGroups
  import opened PortSupply
  import opened PortRuns
  import opened PortRoundTrip

  /** The host side of a binding: one port, or any other text taken as it is. */
  datatype HostUse = Port(n: nat) | Other(text: string)

  function Use(host: string): HostUse {
    if ParsePort(host) > 0 then Port(ParsePort(host)) else Other(host)
  }

  datatype Triple = Triple(protocol: string, port: nat, host: HostUse)

  // ---- What the given map publishes

  /** A binding under its key, with some host address. */
  datatype KeyUse = KeyUse(key: string, ip: string, host: string)

  function KeyUses(key: string, ips: seq<string>, own: seq<Published>): (uses: seq<KeyUse>)
    requires |ips| == |own|
    ensures |uses| == |own|
  {
    seq(|own|, i requires 0 <= i < |own| => KeyUse(key, ips[i], own[i].hostPort))
  }

  /** Host addresses for all bindings of the given keys. */
  ghost predicate Addresses(ips: map<string, seq<string>>, keys: seq<string>, lists: map<string, seq<Published>>) {
    forall k :: k in keys ==> k in lists && k in ips && |ips[k]| == |lists[k]|
  }

  function AllKeyUses(keys: seq<string>, lists: map<string, seq<Published>>, ips: map<string, seq<string>>): seq<KeyUse>
    requires Addresses(ips, keys, lists)
  {
    if keys == [] then []
    else
      var last := keys[|keys| - 1];
      AllKeyUses(keys[..|keys| - 1], lists, ips) + KeyUses(last, ips[last], lists[last])
  }

  /** The addresses the bindings are given with. */
  function GivenIps(keys: seq<string>, lists: map<string, seq<Published>>): (ips: map<string, seq<string>>)
    requires forall k :: k in keys ==> k in lists
    ensures Addresses(ips, keys, lists)
  {
    map k | k in keys :: IpsOf(lists[k])
  }

  /** The addresses they are read under: those of the groups in which their key is visited. */
  function VisitIps(keys: seq<string>, lists: map<string, seq<Published>>): (ips: map<string, seq<string>>)
    requires WellFormed(keys, lists)
    ensures Addresses(ips, keys, lists)
  {
    assert forall k | k in keys :: |GroupOrder(keys, lists, k)| == |lists[k]| by {
      forall k | k in keys
        ensures |GroupOrder(keys, lists, k)| == |lists[k]|
      {
        VisitsMatchBindings(keys, lists, k);
      }
    }
    map k | k in keys :: GroupOrder(keys, lists, k)
  }

  function TripleOf(u: KeyUse): Triple {
    Triple(Protocol(u.key), PortOf(u.key), Use(u.host))
  }

  function PublishedTriples(keys: seq<string>, lists: map<string, seq<Published>>): multiset<Triple>
    requires forall k :: k in keys ==> k in lists
  {
    multiset(Map(TripleOf, AllKeyUses(keys, lists, GivenIps(keys, lists))))
  }

  datatype Addressed = Addressed(ip: string, triple: Triple)

  function AddressedOf(u: KeyUse): Addressed {
    Addressed(u.ip, TripleOf(u))
  }

  function PublishedAddressed(keys: seq<string>, lists: map<string, seq<Published>>, ips: map<string, seq<string>>): multiset<Addressed>
    requires Addresses(ips, keys, lists)
  {
    multiset(Map(AddressedOf, AllKeyUses(keys, lists, ips)))
  }

  // ---- What a row says, read from its text alone

  function Address(row: Spec): string {
    var colon := IndexOf(row.hostPort, ":");
    IndexFromIsFirst(row.hostPort, ":", 0);
    if colon < 0 then "" else row.hostPort[..colon]
  }

  function HostPart(row: Spec): string {
    var colon := IndexOf(row.hostPort, ":");
    IndexFromIsFirst(row.hostPort, ":", 0);
    if colon < 0 then row.hostPort else row.hostPort[colon + 1..]
  }

  function RowTriples(row: Spec): seq<Triple> {
    match row.containerPort
    case Number(n) => [Triple(row.protocol, n, Use(HostPart(row)))]
    case Written(text) =>
      var container, host := ParsePortRange(text), ParsePortRange(HostPart(row));
      Successive(row.protocol, container.first, host.first,
                 if container.last < container.first then 0 else container.last - container.first + 1)
  }

  function Successive(protocol: string, port: nat, host: nat, count: nat): seq<Triple> {
    seq(count, i requires 0 <= i => Triple(protocol, port + i, Port(host + i)))
  }

  function AllRowTriples(rows: seq<Spec>): seq<Triple> {
    if rows == [] then [] else AllRowTriples(rows[..|rows| - 1]) + RowTriples(rows[|rows| - 1])
  }

  function VisitTriple(v: Visit): Triple {
    Triple(v.protocol, v.port, Use(v.host))
  }

  ghost predicate Clean(v: Visit) {
    ValidPort(v.port) && ':' !in v.ip && ':' !in v.host
  }

  lemma ColonFree(ip: string, text: string)
    requires ':' !in ip && ':' !in text
    ensures forall p, c :: var row := Spec(WithIp(ip, text), c, p); Address(row) == ip && HostPart(row) == text
  {
    if ip == "" {
      IndexOfCharNone(text, ':');
    } else {
      IndexOfChar(ip, ':', text);
      assert ip + [':'] + text == WithIp(ip, text);
    }
  }

  lemma ShortRowSays(v: Visit)
    requires Clean(v)
    ensures RowTriples(Row([v])) == [VisitTriple(v)] && Address(Row([v])) == v.ip
  {
    ColonFree(v.ip, v.host);
  }

  lemma LongRowSays(run: seq<Visit>)
    requires IsRun(run) && |run| > 1 && forall i | 0 <= i < |run| :: Clean(run[i])
    ensures Address(Row(run)) == run[0].ip
    ensures RowTriples(Row(run)) == Successive(run[0].protocol, run[0].port, ParsePort(run[0].host), |run|)
  {
    hide Joinable, IsRun, Row;
    var n := |run| - 1;
    RowContainer(run);
    var a, b := RowHost(run);
    RunSteps(run, n);
    PrefixFacts(run[0].ip);
    PlainPorts(a, b);
    ColonFree(run[0].ip, RangeText(a, b));
    ParseRangeText(a, b);
    ParsePortBounds(run[0].host);
    ParsePortBounds(run[n].host);
    ParsePortOfDecimal(a);
    ParseRangeText(run[0].port, run[n].port);
    ParsePortOfDecimal(run[0].port);
    ParsePortOfDecimal(run[n].port);
    assert Row(run) == Spec(WithIp(run[0].ip, RangeText(a, b)), Written(RangeText(run[0].port, run[n].port)), run[0].protocol);
  }

  lemma LongRunSays(run: seq<Visit>)
    requires IsRun(run) && |run| > 1
    ensures Map(VisitTriple, run) == Successive(run[0].protocol, run[0].port, ParsePort(run[0].host), |run|)
  {
    hide IsRun, Joinable;
    forall i | 0 <= i < |run|
      ensures VisitTriple(run[i]) == Triple(run[0].protocol, run[0].port + i, Port(ParsePort(run[0].host) + i))
    {
      RunSteps(run, i);
    }
  }

  /** A merged row says exactly what its visits said, in order, for their address. */
  lemma RowSaysRun(run: seq<Visit>)
    requires run != [] && IsRun(run) && forall i | 0 <= i < |run| :: Clean(run[i])
    ensures RowTriples(Row(run)) == Map(VisitTriple, run)
    ensures Address(Row(run)) == run[0].ip
  {
    hide *;
    if |run| == 1 {
      assert run == [run[0]];
      ShortRowSays(run[0]);
      MapOne(run[0]);
    } else {
      LongRowSays(run);
      LongRunSays(run);
    }
  }

  lemma MapOne(v: Visit)
    ensures Map(VisitTriple, [v]) == [VisitTriple(v)]
  {
  }

  lemma AllRowTriplesSnoc(segs: seq<seq<Visit>>, run: seq<Visit>)
    requires run != [] && forall i | 0 <= i < |segs| :: segs[i] != []
    ensures AllRowTriples(Rows(segs + [run])) == AllRowTriples(Rows(segs)) + RowTriples(Row(run))
  {
    hide Row, RowTriples;
    var rows := Rows(segs + [run]);
    assert rows[..|rows| - 1] == Rows(segs);
  }

  lemma {:induction false} RowsSaySegments(segs: seq<seq<Visit>>)
    requires Separated(segs) && (forall i | 0 <= i < |segs| :: segs[i] != [])
    requires forall v :: v in Flatten(segs) ==> Clean(v)
    ensures AllRowTriples(Rows(segs)) == Map(VisitTriple, Flatten(segs))
  {
    if segs == [] {
      assert Rows(segs) == [];
    } else {
      hide *;
      var front, last := segs[..|segs| - 1], segs[|segs| - 1];
      assert segs == front + [last];
      SeparatedParts(segs);
      FlattenSnoc(front, last);
      forall i | 0 <= i < |last|
        ensures Clean(last[i])
      {
        assert last[i] in Flatten(front) + last;
      }
      RowsSaySegments(front);
      RowSaysRun(last);
      AllRowTriplesSnoc(front, last);
      MapAppend(VisitTriple, Flatten(front), last);
    }
  }

  // ---- What the rows say, with the address

  function RowAddressed(row: Spec): seq<Addressed> {
    seq(|RowTriples(row)|, i requires 0 <= i < |RowTriples(row)| => Addressed(Address(row), RowTriples(row)[i]))
  }

  function AllRowAddressed(rows: seq<Spec>): seq<Addressed> {
    if rows == [] then [] else AllRowAddressed(rows[..|rows| - 1]) + RowAddressed(rows[|rows| - 1])
  }

  function VisitAddressed(v: Visit): Addressed {
    Addressed(v.ip, VisitTriple(v))
  }

  lemma RowAddressedRun(run: seq<Visit>)
    requires run != [] && IsRun(run) && forall i | 0 <= i < |run| :: Clean(run[i])
    ensures RowAddressed(Row(run)) == Map(VisitAddressed, run)
  {
    hide Row, RowTriples, Address, VisitTriple, Clean, IsRun;
    RowSaysRun(run);
    forall i | 0 <= i < |run|
      ensures RowAddressed(Row(run))[i] == VisitAddressed(run[i])
    {
      RunSteps(run, i);
      assert RowTriples(Row(run))[i] == Map(VisitTriple, run)[i];
    }
  }

  lemma AllRowAddressedSnoc(segs: seq<seq<Visit>>, run: seq<Visit>)
    requires run != [] && forall i | 0 <= i < |segs| :: segs[i] != []
    ensures AllRowAddressed(Rows(segs + [run])) == AllRowAddressed(Rows(segs)) + RowAddressed(Row(run))
  {
    hide Row, RowAddressed;
    var rows := Rows(segs + [run]);
    assert rows[..|rows| - 1] == Rows(segs);
  }

  lemma {:induction false} RowsAddressSegments(segs: seq<seq<Visit>>)
    requires Separated(segs) && (forall i | 0 <= i < |segs| :: segs[i] != [])
    requires forall v :: v in Flatten(segs) ==> Clean(v)
    ensures AllRowAddressed(Rows(segs)) == Map(VisitAddressed, Flatten(segs))
  {
    if segs == [] {
      assert Rows(segs) == [];
    } else {
      hide *;
      var front, last := segs[..|segs| - 1], segs[|segs| - 1];
      assert segs == front + [last];
      SeparatedParts(segs);
      FlattenSnoc(front, last);
      forall i | 0 <= i < |last|
        ensures Clean(last[i])
      {
        assert last[i] in Flatten(front) + last;
      }
      RowsAddressSegments(front);
      RowAddressedRun(last);
      AllRowAddressedSnoc(front, last);
      MapAppend(VisitAddressed, Flatten(front), last);
    }
  }

  // ---- The visits publish what the map does

  function VisitUses(vs: seq<Visit>): seq<KeyUse> {
    if vs == [] then []
    else VisitUses(vs[..|vs| - 1]) + [UseOf(vs[|vs| - 1])]
  }

  function UseOf(v: Visit): KeyUse {
    KeyUse(v.key, v.ip, v.host)
  }

  lemma VisitUsesSnoc(vs: seq<Visit>, v: Visit)
    ensures VisitUses(vs + [v]) == VisitUses(vs) + [UseOf(v)]
  {
    assert (vs + [v])[..|vs|] == vs;
  }

  lemma {:induction false} VisitUseCount(vs: seq<Visit>, u: KeyUse)
    ensures multiset(VisitUses(vs))[u] == multiset(VisitUses(Own(vs, u.key)))[u]
  {
    if vs != [] {
      hide VisitUses, Own;
      var front, last := vs[..|vs| - 1], vs[|vs| - 1];
      assert vs == front + [last];
      VisitUseCount(front, u);
      VisitUsesSnoc(front, last);
      OwnSnoc(front, last, u.key);
      if last.key == u.key {
        VisitUsesSnoc(Own(front, u.key), last);
      }
    }
  }

  lemma {:induction false} VisitUsesAre(own: seq<Visit>, key: string, ips: seq<string>, bindings: seq<Published>)
    requires |own| == |bindings| == |ips|
    requires forall j | 0 <= j < |own| :: own[j].key == key && own[j].ip == ips[j] && own[j].host == bindings[j].hostPort
    ensures VisitUses(own) == KeyUses(key, ips, bindings)
  {
    if own != [] {
      var n := |own| - 1;
      VisitUsesAre(own[..n], key, ips[..n], bindings[..n]);
      assert KeyUses(key, ips, bindings) == KeyUses(key, ips[..n], bindings[..n]) + [UseOf(own[n])];
    }
  }

  lemma KeyUsesOther(key: string, ips: seq<string>, own: seq<Published>, u: KeyUse)
    requires u.key != key && |ips| == |own|
    ensures multiset(KeyUses(key, ips, own))[u] == 0
  {
    assert forall i | 0 <= i < |own| :: KeyUses(key, ips, own)[i] != u;
  }

  lemma {:induction false} AllKeyUseCount(keys: seq<string>, lists: map<string, seq<Published>>, ips: map<string, seq<string>>, u: KeyUse)
    requires Distinct(keys) && Addresses(ips, keys, lists)
    ensures multiset(AllKeyUses(keys, lists, ips))[u] ==
            if u.key in keys then multiset(KeyUses(u.key, ips[u.key], lists[u.key]))[u] else 0
  {
    if keys != [] {
      hide KeyUses;
      var front, last := keys[..|keys| - 1], keys[|keys| - 1];
      AllKeyUseCount(front, lists, ips, u);
      assert keys == front + [last];
      if u.key != last {
        KeyUsesOther(last, ips[last], lists[last], u);
      }
    }
  }

  lemma VisitsPublish(keys: seq<string>, lists: map<string, seq<Published>>)
    requires WellFormed(keys, lists)
    ensures multiset(VisitUses(VisitsOf(Slots(keys, lists), lists))) == multiset(AllKeyUses(keys, lists, VisitIps(keys, lists)))
  {
    hide VisitsOf, Slots, VisitUses, AllKeyUses, Own, Mine, GroupOrder, KeyUses;
    var slots, ips := Slots(keys, lists), VisitIps(keys, lists);
    var vs := VisitsOf(slots, lists);
    forall u
      ensures multiset(VisitUses(vs))[u] == multiset(AllKeyUses(keys, lists, ips))[u]
    {
      VisitUseCount(vs, u);
      AllKeyUseCount(keys, lists, ips, u);
      var key := u.key;
      if key in keys {
        VisitsMatchBindings(keys, lists, key);
        OwnVisits(slots, lists, key);
        OwnIsVisit(vs, key);
        VisitUsesAre(Own(vs, key), key, ips[key], lists[key]);
      } else {
        NoOwn(keys, lists, key);
        NothingOwned();
      }
    }
  }

  lemma NothingOwned()
    ensures VisitUses([]) == []
  {
  }

  lemma {:induction false} TriplesOfVisits(vs: seq<Visit>)
    requires forall v :: v in vs ==> v.port == PortOf(v.key) && v.protocol == Protocol(v.key)
    ensures Map(VisitTriple, vs) == Map(TripleOf, VisitUses(vs))
    ensures Map(VisitAddressed, vs) == Map(AddressedOf, VisitUses(vs))
  {
    if vs != [] {
      hide PortOf, Protocol, Use, VisitUses, Map;
      var front, last := vs[..|vs| - 1], vs[|vs| - 1];
      assert vs == front + [last];
      TriplesOfVisits(front);
      assert last in vs;
      VisitUsesSnoc(front, last);
      MapSnoc(VisitTriple, front, last);
      MapSnoc(VisitAddressed, front, last);
      MapSnoc(TripleOf, VisitUses(front), UseOf(last));
      MapSnoc(AddressedOf, VisitUses(front), UseOf(last));
    }
  }

  /** What is published apart from the addresses does not depend on them. */
  lemma {:induction false} TriplesIgnoreIps(keys: seq<string>, lists: map<string, seq<Published>>,
      a: map<string, seq<string>>, b: map<string, seq<string>>)
    requires Addresses(a, keys, lists) && Addresses(b, keys, lists)
    ensures Map(TripleOf, AllKeyUses(keys, lists, a)) == Map(TripleOf, AllKeyUses(keys, lists, b))
  {
    if keys != [] {
      hide TripleOf, Map, KeyUses;
      var front, last := keys[..|keys| - 1], keys[|keys| - 1];
      TriplesIgnoreIps(front, lists, a, b);
      MapAppend(TripleOf, AllKeyUses(front, lists, a), KeyUses(last, a[last], lists[last]));
      MapAppend(TripleOf, AllKeyUses(front, lists, b), KeyUses(last, b[last], lists[last]));
      TriplesOfKey(last, a[last], b[last], lists[last]);
    }
  }

  lemma TriplesOfKey(key: string, a: seq<string>, b: seq<string>, own: seq<Published>)
    requires |a| == |b| == |own|
    ensures Map(TripleOf, KeyUses(key, a, own)) == Map(TripleOf, KeyUses(key, b, own))
  {
    hide PortOf, Protocol, Use;
    forall i | 0 <= i < |own|
      ensures Map(TripleOf, KeyUses(key, a, own))[i] == Map(TripleOf, KeyUses(key, b, own))[i]
    {
      MapAt(TripleOf, KeyUses(key, a, own), i);
      MapAt(TripleOf, KeyUses(key, b, own), i);
      assert TripleOf(KeyUse(key, a[i], own[i].hostPort)) == TripleOf(KeyUse(key, b[i], own[i].hostPort));
    }
  }

  lemma VisitsFit(keys: seq<string>, lists: map<string, seq<Published>>)
    requires WellFormed(keys, lists)
    ensures forall v :: v in VisitsOf(Slots(keys, lists), lists) ==>
              && v.key in keys && v.port == PortOf(v.key) && v.protocol == Protocol(v.key)
              && (exists j :: 0 <= j < |lists[v.key]| && v.host == lists[v.key][j].hostPort)
              && (exists j :: 0 <= j < |lists[v.key]| && v.ip == lists[v.key][j].hostIp)
  {
    hide VisitsOf, Slots, GroupOrder, PortOf, Protocol, Mine;
    var vs := VisitsOf(Slots(keys, lists), lists);
    forall v | v in vs
      ensures v.key in keys && v.port == PortOf(v.key) && v.protocol == Protocol(v.key)
      ensures exists j :: 0 <= j < |lists[v.key]| && v.host == lists[v.key][j].hostPort
      ensures exists j :: 0 <= j < |lists[v.key]| && v.ip == lists[v.key][j].hostIp
    {
      var i :| 0 <= i < |vs| && vs[i] == v;
      var j := VisitOrigin(keys, lists, i);
      VisitsMatchBindings(keys, lists, v.key);
      var ips, order := IpsOf(lists[v.key]), GroupOrder(keys, lists, v.key);
      assert v.ip in multiset(order);
      assert v.ip in multiset(ips);
      var n :| 0 <= n < |ips| && ips[n] == v.ip;
      assert lists[v.key][n].hostIp == v.ip;
    }
  }

  /** Valid container ports, and no colon in a host address or a host port. */
  ghost predicate CleanMap(keys: seq<string>, lists: map<string, seq<Published>>)
    requires forall k :: k in keys ==> k in lists
  {
    forall k :: k in keys ==>
      ValidPort(PortOf(k)) && forall j | 0 <= j < |lists[k]| :: ':' !in lists[k][j].hostIp && ':' !in lists[k][j].hostPort
  }

  lemma CleanVisits(keys: seq<string>, lists: map<string, seq<Published>>)
    requires WellFormed(keys, lists) && CleanMap(keys, lists)
    ensures forall v :: v in VisitsOf(Slots(keys, lists), lists) ==> Clean(v)
  {
    hide VisitsOf, Slots, PortOf, Protocol;
    VisitsFit(keys, lists);
  }

  /** Read as text, the combined rows publish the same protocols, container ports and host ports as
      the given map, each as often, however many bindings and addresses a key has. */
  lemma CombineConserves(keys: seq<string>, lists: map<string, seq<Published>>)
    requires WellFormed(keys, lists) && CleanMap(keys, lists)
    ensures multiset(AllRowTriples(Combine(VisitsOf(Slots(keys, lists), lists)))) == PublishedTriples(keys, lists)
  {
    hide VisitsOf, Slots, Segments, Rows, AllRowTriples, VisitTriple, TripleOf, VisitUses, AllKeyUses, VisitIps, GivenIps, Clean, CleanMap;
    var vs := VisitsOf(Slots(keys, lists), lists);
    CleanVisits(keys, lists);
    SegmentsAreMaximalRuns(vs);
    RowsSaySegments(Segments(vs));
    VisitsFit(keys, lists);
    TriplesOfVisits(vs);
    VisitsPublish(keys, lists);
    MapPermutes(TripleOf, VisitUses(vs), AllKeyUses(keys, lists, VisitIps(keys, lists)));
    TriplesIgnoreIps(keys, lists, VisitIps(keys, lists), GivenIps(keys, lists));
  }

  /** With their addresses, the rows publish the bindings under the addresses of the groups in which
      they are read; that is what the map publishes exactly if regrouping the addresses of each key
      leaves the same bindings over all. */
  lemma CombineKeepsAddressesIff(keys: seq<string>, lists: map<string, seq<Published>>)
    requires WellFormed(keys, lists) && CleanMap(keys, lists)
    ensures var rows := AllRowAddressed(Combine(VisitsOf(Slots(keys, lists), lists)));
            var given, read := PublishedAddressed(keys, lists, GivenIps(keys, lists)), PublishedAddressed(keys, lists, VisitIps(keys, lists));
            multiset(rows) == read && (multiset(rows) == given <==> read == given)
  {
    hide VisitsOf, Slots, Segments, Rows, AllRowAddressed, VisitAddressed, AddressedOf, VisitUses, AllKeyUses, VisitIps, GivenIps, Clean, CleanMap;
    var vs := VisitsOf(Slots(keys, lists), lists);
    CleanVisits(keys, lists);
    SegmentsAreMaximalRuns(vs);
    RowsAddressSegments(Segments(vs));
    VisitsFit(keys, lists);
    TriplesOfVisits(vs);
    VisitsPublish(keys, lists);
    MapPermutes(AddressedOf, VisitUses(vs), AllKeyUses(keys, lists, VisitIps(keys, lists)));
  }

  /** In particular if each key's bindings follow the order of the address groups. */
  lemma GroupOrderKeepsAddresses(keys: seq<string>, lists: map<string, seq<Published>>)
    requires WellFormed(keys, lists) && CleanMap(keys, lists) && InGroupOrder(keys, lists)
    ensures multiset(AllRowAddressed(Combine(VisitsOf(Slots(keys, lists), lists)))) ==
            PublishedAddressed(keys, lists, GivenIps(keys, lists))
  {
    hide VisitsOf, Slots, Combine, AllRowAddressed, PublishedAddressed, GroupOrder, CleanMap;
    CombineKeepsAddressesIff(keys, lists);
    assert VisitIps(keys, lists) == GivenIps(keys, lists);
  }

  /** Two keys with bindings on the same two addresses, in opposite orders. */
  function Crossed(k0: string, k1: string): map<string, seq<Published>> {
    map[k0 := [Published("A", Decimal(1000)), Published("B", Decimal(2000))],
        k1 := [Published("B", Decimal(2001)), Published("A", Decimal(1001))]]
  }

  /** The groups follow the first key; host port 2001 of address B is read under address A. */
  lemma AddressesMixedUp()
    ensures var k0, k1 := Key(80, "tcp"), Key(81, "tcp");
            var lists := Crossed(k0, k1);
            && WellFormed([k0, k1], lists) && CleanMap([k0, k1], lists)
            && multiset(AllRowAddressed(Combine(VisitsOf(Slots([k0, k1], lists), lists)))) !=
               PublishedAddressed([k0, k1], lists, GivenIps([k0, k1], lists))
  {
    hide Key, PortOf, Protocol, PortKey, Crossed, WellFormed, CleanMap, Slots, VisitsOf, Combine, AllRowAddressed, PublishedAddressed,
      VisitIps, GivenIps;
    var k0, k1 := Key(80, "tcp"), Key(81, "tcp");
    SomeKey(80, "tcp");
    SomeKey(81, "tcp");
    CrossedIsClean(k0, k1);
    CombineKeepsAddressesIff([k0, k1], Crossed(k0, k1));
    CrossedMoves(k0, k1);
  }

  lemma CrossedIsClean(k0: string, k1: string)
    requires PortKey(k0) && PortKey(k1) && ValidPort(PortOf(k0)) && ValidPort(PortOf(k1)) && k0 != k1
    ensures WellFormed([k0, k1], Crossed(k0, k1)) && CleanMap([k0, k1], Crossed(k0, k1))
  {
    hide PortKey, PortOf, Decimal;
    PlainPorts(1000, 2000);
    PlainPorts(2000, 1000);
    PlainPorts(2001, 1001);
    PlainPorts(1001, 2001);
    assert ':' !in "A" && ':' !in "B";
  }

  lemma CrossedMoves(k0: string, k1: string)
    requires k0 != k1 && Protocol(k0) == Protocol(k1) == "tcp" && PortOf(k1) == 81
    requires WellFormed([k0, k1], Crossed(k0, k1))
    ensures var keys, lists := [k0, k1], Crossed(k0, k1);
            PublishedAddressed(keys, lists, VisitIps(keys, lists)) != PublishedAddressed(keys, lists, GivenIps(keys, lists))
  {
    hide PortOf, Protocol, PortKey, PublishedAddressed, GroupOrder, Decimal, ParsePort;
    var keys, lists := [k0, k1], Crossed(k0, k1);
    MixedGroups(k0, k1, lists);
    PublishedTwo(k0, k1, lists, GivenIps(keys, lists));
    PublishedTwo(k0, k1, lists, VisitIps(keys, lists));
    ParsePortOfDecimal(1000);
    ParsePortOfDecimal(1001);
    ParsePortOfDecimal(2001);
    var moved := Addressed("A", Triple("tcp", 81, Port(2001)));
    assert AddressedOf(KeyUse(k1, "A", Decimal(2001))) == moved;
    assert VisitIps(keys, lists)[k1][0] == "A";
    assert moved in PublishedAddressed(keys, lists, VisitIps(keys, lists));
    NotGiven(k0, k1);
  }

  lemma NotGiven(k0: string, k1: string)
    requires k0 != k1 && ParsePort(Decimal(1000)) == 1000 && ParsePort(Decimal(1001)) == 1001
    ensures var keys, lists := [k0, k1], Crossed(k0, k1);
            Addressed("A", Triple("tcp", 81, Port(2001))) !in PublishedAddressed(keys, lists, GivenIps(keys, lists))
  {
    hide PortOf, Protocol, PublishedAddressed, Decimal, ParsePort;
    var keys, lists := [k0, k1], Crossed(k0, k1);
    var ips := GivenIps(keys, lists);
    PublishedTwo(k0, k1, lists, ips);
    assert ips[k0] == ["A", "B"] && ips[k1] == ["B", "A"];
  }

  lemma MixedGroups(k0: string, k1: string, lists: map<string, seq<Published>>)
    requires k0 != k1 && Protocol(k0) == Protocol(k1) && WellFormed([k0, k1], lists)
    requires |lists[k0]| == |lists[k1]| == 2
    requires lists[k0][0].hostIp == lists[k1][1].hostIp == "A" && lists[k0][1].hostIp == lists[k1][0].hostIp == "B"
    ensures GroupOrder([k0, k1], lists, k0) == ["A", "B"] && GroupOrder([k0, k1], lists, k1) == ["A", "B"]
  {
    hide Protocol, PortKey;
    hide Regroup, IpsIn, CountIp;
    var keys, p := [k0, k1], Protocol(k0);
    assert keys[..1] == [k0] && [k0][..0] == [];
    assert KeysWith([k0], p) == [k0] && KeysWith(keys, p) == keys;
    IpsOfPair(lists[k0], []);
    IpsOfPair(lists[k1], ["A", "B"]);
    assert Ips([k0], lists) == ["A", "B"] && Ips(keys, lists) == ["A", "B"];
    RegroupPair(lists[k0]);
    RegroupPair(lists[k1]);
  }

  lemma IpsOfPair(own: seq<Published>, ips: seq<string>)
    requires |own| == 2 && own[0].hostIp != own[1].hostIp
    requires ips == [] || (|ips| == 2 && own[0].hostIp in ips && own[1].hostIp in ips)
    ensures IpsIn(ips, own) == if ips == [] then [own[0].hostIp, own[1].hostIp] else ips
  {
    assert own[..1] == [own[0]] && own[..1][..0] == [];
    assert IpsIn(ips, own[..1]) == Add(ips, own[0].hostIp);
  }

  lemma RegroupPair(own: seq<Published>)
    requires |own| == 2 && {own[0].hostIp, own[1].hostIp} == {"A", "B"}
    ensures Regroup(["A", "B"], own) == ["A", "B"]
  {
    assert own[..1] == [own[0]] && own[..1][..0] == [];
    assert own[0].hostIp in {"A", "B"} && own[1].hostIp in {"A", "B"};
    assert CountIp(own[..1], "A") == if own[0].hostIp == "A" then 1 else 0;
    assert CountIp(own[..1], "B") == if own[0].hostIp == "B" then 1 else 0;
    assert "A" in {own[0].hostIp, own[1].hostIp} && "B" in {own[0].hostIp, own[1].hostIp};
    assert CountIp(own, "A") == 1 && CountIp(own, "B") == 1;
    assert ["A", "B"][..1] == ["A"] && ["A"][..0] == [];
    assert Repeat("A", 1) == ["A"] && Repeat("B", 1) == ["B"];
    assert Regroup(["A"], own) == ["A"];
  }

  lemma PublishedTwo(k0: string, k1: string, lists: map<string, seq<Published>>, ips: map<string, seq<string>>)
    requires Addresses(ips, [k0, k1], lists) && |lists[k0]| == |lists[k1]| == 2
    ensures PublishedAddressed([k0, k1], lists, ips) ==
            multiset{AddressedOf(KeyUse(k0, ips[k0][0], lists[k0][0].hostPort)), AddressedOf(KeyUse(k0, ips[k0][1], lists[k0][1].hostPort)),
                     AddressedOf(KeyUse(k1, ips[k1][0], lists[k1][0].hostPort)), AddressedOf(KeyUse(k1, ips[k1][1], lists[k1][1].hostPort))}
  {
    hide AddressedOf;
    var keys := [k0, k1];
    assert keys[..1] == [k0] && [k0][..0] == [];
    var u, v := KeyUses(k0, ips[k0], lists[k0]), KeyUses(k1, ips[k1], lists[k1]);
    assert AllKeyUses([k0], lists, ips) == [] + u;
    assert AllKeyUses(keys, lists, ips) == u + v;
    assert u + v == [u[0], u[1], v[0], v[1]];
    assert Map(AddressedOf, u + v) == [AddressedOf(u[0]), AddressedOf(u[1]), AddressedOf(v[0]), AddressedOf(v[1])];
  }

  /** Row b starts where row a ends, on both sides, for the same protocol and address. */
  ghost predicate CouldMerge(a: Spec, b: Spec) {
    && a.protocol == b.protocol && Address(a) == Address(b)
    && RowTriples(a) != [] && RowTriples(b) != []
    && var last, first := RowTriples(a)[|RowTriples(a)| - 1], RowTriples(b)[0];
       && last.host.Port? && first.host.Port?
       && first.port == last.port + 1 && first.host.n == last.host.n + 1
  }

  /** No two neighbouring rows could still be merged. */
  lemma CombineIsMaximal(keys: seq<string>, lists: map<string, seq<Published>>)
    requires WellFormed(keys, lists) && CleanMap(keys, lists)
    ensures var rows := Combine(VisitsOf(Slots(keys, lists), lists));
            forall i | 0 < i < |rows| :: !CouldMerge(rows[i - 1], rows[i])
  {
    hide VisitsOf, Slots, Segments, Row, CouldMerge, CleanMap, Clean;
    var vs := VisitsOf(Slots(keys, lists), lists);
    var segs := Segments(vs);
    CleanVisits(keys, lists);
    SegmentsAreMaximalRuns(vs);
    forall i | 0 < i < |segs|
      ensures !CouldMerge(Row(segs[i - 1]), Row(segs[i]))
    {
      RunIsClean(segs, i - 1);
      RunIsClean(segs, i);
      MergeableRowsJoin(segs[i - 1], segs[i]);
    }
  }

  /** If the rows of two runs could be merged then the second run continues the first. */
  lemma MergeableRowsJoin(a: seq<Visit>, b: seq<Visit>)
    requires a != [] && IsRun(a) && forall j | 0 <= j < |a| :: Clean(a[j])
    requires b != [] && IsRun(b) && forall j | 0 <= j < |b| :: Clean(b[j])
    ensures CouldMerge(Row(a), Row(b)) ==> Joinable(a[|a| - 1], b[0])
  {
    hide Row, RowTriples, Address, IsRun, Clean;
    RowSaysRun(a);
    RowSaysRun(b);
    RowKeepsProtocol(a);
    RowKeepsProtocol(b);
    RunSteps(a, |a| - 1);
    RunSteps(b, |b| - 1);
    assert Map(VisitTriple, a)[|a| - 1] == VisitTriple(a[|a| - 1]);
    assert Map(VisitTriple, b)[0] == VisitTriple(b[0]);
  }

  lemma RunIsClean(segs: seq<seq<Visit>>, i: nat)
    requires i < |segs| && forall v :: v in Flatten(segs) ==> Clean(v)
    ensures forall j | 0 <= j < |segs[i]| :: Clean(segs[i][j])
  {
    hide Clean, Flatten;
    forall j | 0 <= j < |segs[i]|
      ensures Clean(segs[i][j])
    {
      InFlatten(segs, segs[i][j]);
    }
  }
}
