/** preparePortBindings after sortAndCombinePorts: exactly when the pair is the identity. */
module PortRoundTrip {
  import opened Wrappers
  import opened Seqs
  import opened Text
  import opened PortSpecs
  import opened PortGroups
  import opened PortSupply
  import opened PortRuns
  import opened PortReadBack

  function Rounds(keys: seq<string>, lists: map<string, seq<Published>>): Result<map<string, seq<Binding>>, string>
    requires forall k :: k in keys ==> k in lists
  {
    Prepare(Combine(VisitsOf(Slots(keys, lists), lists)))
  }

  function Restored(own: seq<Published>): seq<Binding> {
    seq(|own|, i requires 0 <= i < |own| => Binding(Norm(own[i].hostIp), own[i].hostPort))
  }

  /** The given map, with an empty HostIp undefined. */
  function Original(lists: map<string, seq<Published>>): map<string, seq<Binding>> {
    map k | k in lists :: Restored(lists[k])
  }

  predicate CanonicalKey(key: string) {
    IsKey(key, PortOf(key), Protocol(key))
  }

  ghost predicate CanonicalBinding(b: Published) {
    CanonicalHost(b.hostPort) && GoodHost(b.hostIp, b.hostPort)
  }

  /** What a caller can check: keys written the usual way, no empty list, host ports Docker would
      print, host addresses without ':' and '[' ... */
  ghost predicate Canonical(keys: seq<string>, lists: map<string, seq<Published>>)
    requires forall k :: k in keys ==> k in lists
  {
    forall k :: k in keys ==>
      CanonicalKey(k) && lists[k] != [] && forall i :: 0 <= i < |lists[k]| ==> CanonicalBinding(lists[k][i])
  }

  /** ... and each key's bindings in the order in which the addresses are met in its protocol. */
  ghost predicate InGroupOrder(keys: seq<string>, lists: map<string, seq<Published>>)
    requires WellFormed(keys, lists)
  {
    forall k :: k in keys ==> GroupOrder(keys, lists, k) == IpsOf(lists[k])
  }

  // ---- The visits of one key

  function Own(vs: seq<Visit>, key: string): seq<Visit> {
    if vs == [] then []
    else
      var last := vs[|vs| - 1];
      Own(vs[..|vs| - 1], key) + if last.key == key then [last] else []
  }

  lemma OwnSnoc(vs: seq<Visit>, v: Visit, key: string)
    ensures Own(vs + [v], key) == if v.key == key then Own(vs, key) + [v] else Own(vs, key)
  {
    assert (vs + [v])[..|vs|] == vs;
  }

  lemma {:induction false} OwnVisits(slots: seq<Slot>, lists: map<string, seq<Published>>, key: string)
    requires key in lists && |Mine(slots, key)| <= |lists[key]|
    ensures var own := Own(VisitsOf(slots, lists), key);
            && |own| == |Mine(slots, key)|
            && forall j | 0 <= j < |own| :: own[j].ip == Mine(slots, key)[j] && own[j].host == lists[key][j].hostPort
  {
    if slots != [] {
      hide PortOf, Own;
      var front, last := slots[..|slots| - 1], slots[|slots| - 1];
      OwnVisits(front, lists, key);
      OwnSnoc(VisitsOf(front, lists), VisitAfter(front, last, lists), key);
    }
  }

  lemma {:induction false} VisitIsOwn(vs: seq<Visit>, i: nat)
    requires i < |vs|
    ensures vs[i] in Own(vs, vs[i].key)
  {
    if i < |vs| - 1 {
      VisitIsOwn(vs[..|vs| - 1], i);
    }
  }

  lemma {:induction false} OwnIsVisit(vs: seq<Visit>, key: string)
    ensures forall v :: v in Own(vs, key) ==> v in vs && v.key == key
  {
    if vs != [] {
      OwnIsVisit(vs[..|vs| - 1], key);
    }
  }

  lemma {:induction false} VisitFields(slots: seq<Slot>, lists: map<string, seq<Published>>, i: nat)
    requires i < |slots|
    ensures var v := VisitsOf(slots, lists)[i];
            v.key == slots[i].key && v.port == PortOf(slots[i].key) && v.protocol == slots[i].protocol
  {
    if i < |slots| - 1 {
      VisitFields(slots[..|slots| - 1], lists, i);
    }
  }

  /** Visit by visit: a key of the map, and the next of its own bindings. */
  lemma VisitOrigin(keys: seq<string>, lists: map<string, seq<Published>>, i: nat) returns (j: nat)
    requires WellFormed(keys, lists) && i < |Slots(keys, lists)|
    ensures var v := VisitsOf(Slots(keys, lists), lists)[i];
            && v.key in keys && v.port == PortOf(v.key) && v.protocol == Protocol(v.key)
            && j < |lists[v.key]| == |GroupOrder(keys, lists, v.key)|
            && v.host == lists[v.key][j].hostPort && v.ip == GroupOrder(keys, lists, v.key)[j]
  {
    hide VisitsOf, Slots, Own, Mine, GroupOrder;
    var slots := Slots(keys, lists);
    var vs := VisitsOf(slots, lists);
    SlotFields(keys, lists, i);
    VisitFields(slots, lists, i);
    var key := vs[i].key;
    VisitsMatchBindings(keys, lists, key);
    OwnVisits(slots, lists, key);
    VisitIsOwn(vs, i);
    j :| 0 <= j < |Own(vs, key)| && Own(vs, key)[j] == vs[i];
  }

  lemma SlotFields(keys: seq<string>, lists: map<string, seq<Published>>, i: nat)
    requires WellFormed(keys, lists) && i < |Slots(keys, lists)|
    ensures var s := Slots(keys, lists)[i];
            s.key in keys && s.protocol == Protocol(s.key)
  {
    ProtocolGroupsFit(keys, lists, Protocols(keys));
    assert Slots(keys, lists)[i] in Slots(keys, lists);
  }

  // ---- Sufficiency

  lemma RowsSnoc(segs: seq<seq<Visit>>, run: seq<Visit>)
    requires run != [] && forall i | 0 <= i < |segs| :: segs[i] != []
    ensures ExpandAll(Rows(segs + [run])) == Join(ExpandAll(Rows(segs)), ExpandSpec(Row(run)))
  {
    hide Row, ExpandSpec, ExpandAll;
    assert Rows(segs + [run]) == Rows(segs) + [Row(run)];
    ExpandAllSnoc(Rows(segs + [run]));
  }

  lemma PairsAppend(a: seq<Visit>, b: seq<Visit>)
    ensures PairsOf(a + b) == PairsOf(a) + PairsOf(b)
  {
  }

  lemma SeparatedParts(segs: seq<seq<Visit>>)
    requires Separated(segs) && segs != []
    ensures Separated(segs[..|segs| - 1]) && IsRun(segs[|segs| - 1])
    ensures forall i | 0 <= i < |segs| :: segs[i] != []
  {
  }

  lemma {:induction false} RowsReadBack(segs: seq<seq<Visit>>)
    requires Separated(segs) && forall i | 0 <= i < |segs| :: segs[i] != []
    requires forall v :: v in Flatten(segs) ==> Keyed(v) && GoodHost(v.ip, v.host)
    ensures ExpandAll(Rows(segs)) == Ok(PairsOf(Flatten(segs)))
  {
    if segs == [] {
      assert Rows(segs) == [];
    } else {
      hide *;
      var front, last := segs[..|segs| - 1], segs[|segs| - 1];
      assert segs == front + [last];
      SeparatedParts(segs);
      FlattenSnoc(front, last);
      RowsReadBack(front);
      forall i | 0 <= i < |last|
        ensures Keyed(last[i]) && GoodHost(last[i].ip, last[i].host)
      {
        assert last[i] in Flatten(front) + last;
      }
      ReadBackRun(last);
      RowsSnoc(front, last);
      PairsAppend(Flatten(front), last);
      JoinOk(PairsOf(Flatten(front)), PairsOf(last));
    }
  }

  lemma JoinOk(a: seq<Pair>, b: seq<Pair>)
    ensures Join<Pair, string>(Ok(a), Ok(b)) == Ok(a + b)
  {
  }

  lemma {:induction false} SelectPairs(vs: seq<Visit>, key: string)
    ensures |Select(PairsOf(vs), key)| == |Own(vs, key)|
    ensures forall j | 0 <= j < |Own(vs, key)| :: Select(PairsOf(vs), key)[j] == PairOf(Own(vs, key)[j]).binding
  {
    if vs != [] {
      SelectPairs(vs[..|vs| - 1], key);
      assert PairsOf(vs)[..|vs| - 1] == PairsOf(vs[..|vs| - 1]);
    }
  }

  lemma GoodVisits(keys: seq<string>, lists: map<string, seq<Published>>)
    requires WellFormed(keys, lists) && Canonical(keys, lists) && InGroupOrder(keys, lists)
    ensures forall v :: v in VisitsOf(Slots(keys, lists), lists) ==> Keyed(v) && GoodHost(v.ip, v.host)
  {
    hide VisitsOf, Slots, GroupOrder, CanonicalHost, GoodHost, IsKey;
    var vs := VisitsOf(Slots(keys, lists), lists);
    forall v | v in vs
      ensures Keyed(v) && GoodHost(v.ip, v.host)
    {
      var i :| 0 <= i < |vs| && vs[i] == v;
      var j := VisitOrigin(keys, lists, i);
      assert v.ip == IpsOf(lists[v.key])[j];
      assert CanonicalBinding(lists[v.key][j]);
      assert CanonicalKey(v.key);
    }
  }

  lemma CanonicalRounds(keys: seq<string>, lists: map<string, seq<Published>>)
    requires WellFormed(keys, lists) && Canonical(keys, lists) && InGroupOrder(keys, lists)
    ensures Rounds(keys, lists) == Ok(Original(lists))
  {
    hide VisitsOf, Slots, GroupOrder, Collect, Select, Mine, Segments, ExpandAll, Own, GoodHost, Keyed, Rows, CanonicalBinding, CanonicalKey;
    var slots := Slots(keys, lists);
    var vs := VisitsOf(slots, lists);
    GoodVisits(keys, lists);
    SegmentsAreMaximalRuns(vs);
    RowsReadBack(Segments(vs));
    var pairs := PairsOf(vs);
    assert Rounds(keys, lists) == Ok(Collect(pairs));
    forall k
      ensures k in Collect(pairs) <==> k in lists
      ensures k in lists ==> Collect(pairs)[k] == Restored(lists[k])
    {
      CollectSelects(pairs, k);
      SelectPairs(vs, k);
      if k in lists {
        VisitsMatchBindings(keys, lists, k);
        OwnVisits(slots, lists, k);
        assert Select(pairs, k) == Restored(lists[k]);
        assert lists[k] != [];
      } else {
        NoOwn(keys, lists, k);
      }
    }
    assert Collect(pairs) == Original(lists);
  }

  lemma NoOwn(keys: seq<string>, lists: map<string, seq<Published>>, key: string)
    requires WellFormed(keys, lists) && key !in lists
    ensures Own(VisitsOf(Slots(keys, lists), lists), key) == []
  {
    hide VisitsOf, Slots, Own;
    var vs := VisitsOf(Slots(keys, lists), lists);
    OwnIsVisit(vs, key);
    if Own(vs, key) != [] {
      var v := Own(vs, key)[0];
      assert v in Own(vs, key);
      var i :| 0 <= i < |vs| && vs[i] == v;
      var j := VisitOrigin(keys, lists, i);
    }
  }

  // ---- Necessity

  ghost predicate ReadsAll(pairs: seq<Pair>, vs: seq<Visit>) {
    |pairs| == |vs| && forall i | 0 <= i < |vs| :: Reads(pairs[i], vs[i])
  }

  lemma ReadBackAll(run: seq<Visit>)
    requires IsRun(run) && forall i | 0 <= i < |run| :: Keyed(run[i])
    ensures ExpandSpec(Row(run)).Ok? ==> ReadsAll(ExpandSpec(Row(run)).value, run)
  {
    hide Row, ExpandSpec, Reads, Keyed;
    ReadBackAny(run, 0);
    forall i | 0 <= i < |run| && ExpandSpec(Row(run)).Ok?
      ensures Reads(ExpandSpec(Row(run)).value[i], run[i])
    {
      ReadBackAny(run, i);
    }
  }

  lemma ReadsAppend(p: seq<Pair>, vs: seq<Visit>, q: seq<Pair>, ws: seq<Visit>)
    requires ReadsAll(p, vs) && ReadsAll(q, ws)
    ensures ReadsAll(p + q, vs + ws)
  {
  }

  lemma {:induction false} RowsReadAny(segs: seq<seq<Visit>>)
    requires Separated(segs) && forall i | 0 <= i < |segs| :: segs[i] != []
    requires forall v :: v in Flatten(segs) ==> Keyed(v)
    requires ExpandAll(Rows(segs)).Ok?
    ensures ReadsAll(ExpandAll(Rows(segs)).value, Flatten(segs))
  {
    if segs == [] {
      assert Rows(segs) == [];
    } else {
      hide *;
      var front, last := segs[..|segs| - 1], segs[|segs| - 1];
      assert segs == front + [last];
      SeparatedParts(segs);
      FlattenSnoc(front, last);
      forall i | 0 <= i < |last|
        ensures Keyed(last[i])
      {
        assert last[i] in Flatten(front) + last;
      }
      RowsSnoc(front, last);
      JoinParts(ExpandAll(Rows(front)), ExpandSpec(Row(last)));
      RowsReadAny(front);
      ReadBackAll(last);
      ReadsAppend(ExpandAll(Rows(front)).value, Flatten(front), ExpandSpec(Row(last)).value, last);
    }
  }

  lemma JoinParts(a: Result<seq<Pair>, string>, b: Result<seq<Pair>, string>)
    ensures Join(a, b).Ok? ==> a.Ok? && b.Ok? && Join(a, b).value == a.value + b.value
  {
  }

  lemma {:induction false} SelectReads(pairs: seq<Pair>, vs: seq<Visit>, key: string)
    requires ReadsAll(pairs, vs)
    ensures |Select(pairs, key)| == |Own(vs, key)|
    ensures forall j | 0 <= j < |Own(vs, key)| :: Reads(Pair(key, Select(pairs, key)[j]), Own(vs, key)[j])
  {
    if vs != [] {
      var n := |vs| - 1;
      SelectReads(pairs[..n], vs[..n], key);
      assert Reads(pairs[n], vs[n]);
      assert Reads(pairs[n], vs[n]) ==> pairs[n].key == vs[n].key;
    }
  }

  function TotalLength(ss: seq<string>): nat {
    if ss == [] then 0 else TotalLength(ss[..|ss| - 1]) + |ss[|ss| - 1]|
  }

  lemma {:induction false} TotalLengthSplit(a: seq<string>, x: string, b: seq<string>)
    ensures TotalLength(a + [x] + b) == TotalLength(a + b) + |x|
  {
    if b == [] {
      assert a + [x] + b == a + [x];
      assert (a + [x])[..|a|] == a;
      assert a + b == a;
    } else {
      var front, last := b[..|b| - 1], b[|b| - 1];
      TotalLengthSplit(a, x, front);
      assert (a + [x] + b)[..|a| + |b|] == a + [x] + front;
      assert (a + b)[..|a| + |b| - 1] == a + front;
    }
  }

  lemma {:induction false} TotalLengthPermutes(a: seq<string>, b: seq<string>)
    requires multiset(a) == multiset(b)
    ensures TotalLength(a) == TotalLength(b)
  {
    if a == [] {
      assert |multiset(b)| == 0;
    } else {
      var last := a[|a| - 1];
      var i := OccursIn(a, b);
      DropBoth(a, b, i);
      assert b == b[..i] + [last] + b[i + 1..];
      TotalLengthPermutes(a[..|a| - 1], b[..i] + b[i + 1..]);
      TotalLengthSplit(b[..i], last, b[i + 1..]);
    }
  }

  /** Pointwise shorter strings of the same total length have the same lengths. */
  lemma {:induction false} SameLengths(a: seq<string>, b: seq<string>)
    requires |a| == |b| && forall i | 0 <= i < |a| :: |a[i]| <= |b[i]|
    ensures TotalLength(a) <= TotalLength(b)
    ensures TotalLength(a) == TotalLength(b) ==> forall i | 0 <= i < |a| :: |a[i]| == |b[i]|
  {
    if a != [] {
      SameLengths(a[..|a| - 1], b[..|b| - 1]);
    }
  }

  lemma SomeKey(port: nat, protocol: string)
    requires ValidPort(port) && '/' !in protocol
    ensures PortKey(Key(port, protocol)) && PortOf(Key(port, protocol)) == port && Protocol(Key(port, protocol)) == protocol
  {
    hide Decimal, Value, DigitCount;
    var text := Decimal(port);
    PlainPorts(port, port);
    ValueOfDecimal(port);
    assert Key(port, protocol) == text + ['/'] + protocol;
    assert '/' !in text;
    SplitOnChar(text, '/', protocol);
    SplitOnNone(protocol, '/');
    DigitCountOf(text, "");
    assert text + "" == text && text[..|text|] == text;
    assert Key(port, protocol)[0] == text[0];
  }

  lemma AcceptedKey(p: Pair, row: Spec)
    requires MadeBy(p, row) && '/' !in row.protocol
    ensures CanonicalKey(p.key)
  {
    hide PortOf, Protocol, Key, CanonicalHost;
    var port: nat :| IsKey(p.key, port, row.protocol);
    SomeKey(port, row.protocol);
  }

  lemma ProtocolHasNoSlash(key: string)
    ensures '/' !in Protocol(key)
  {
    if |SplitOn(key, "/")| > 1 {
      SplitPiecesFree(key, '/', 1);
    }
  }

  /** Every merged row carries the protocol of a key. */
  lemma RowProtocol(keys: seq<string>, lists: map<string, seq<Published>>, row: Spec)
    requires WellFormed(keys, lists)
    ensures row in Combine(VisitsOf(Slots(keys, lists), lists)) ==> '/' !in row.protocol
  {
    hide VisitsOf, Slots, Segments, Row;
    if row !in Combine(VisitsOf(Slots(keys, lists), lists)) {
      return;
    }
    var vs := VisitsOf(Slots(keys, lists), lists);
    var segs := Segments(vs);
    SegmentsAreMaximalRuns(vs);
    var n :| 0 <= n < |segs| && Row(segs[n]) == row;
    RowKeepsProtocol(segs[n]);
    var v := segs[n][|segs[n]| - 1];
    InFlatten(segs, v);
    var i :| 0 <= i < |vs| && vs[i] == v;
    var j := VisitOrigin(keys, lists, i);
    ProtocolHasNoSlash(v.key);
  }

  lemma {:induction false} RowKeepsProtocol(run: seq<Visit>)
    requires run != [] && IsRun(run)
    ensures Row(run).protocol == run[|run| - 1].protocol
  {
    if |run| > 1 {
      hide CreatePortRange;
      RowKeepsProtocol(run[..|run| - 1]);
      RunSteps(run, |run| - 1);
      RunSteps(run, |run| - 2);
    }
  }

  /** If the round trip gives the map back, its keys and host ports are canonical. */
  lemma RestoredIsCanonical(keys: seq<string>, lists: map<string, seq<Published>>, key: string)
    requires WellFormed(keys, lists) && key in keys
    ensures Rounds(keys, lists) == Ok(Original(lists)) ==>
              && CanonicalKey(key) && lists[key] != []
              && forall j | 0 <= j < |lists[key]| :: CanonicalHost(lists[key][j].hostPort)
  {
    hide VisitsOf, Slots, Combine, Collect, Select, ExpandAll, CanonicalKey, MadeBy;
    if Rounds(keys, lists) != Ok(Original(lists)) {
      return;
    }
    var rows := Combine(VisitsOf(Slots(keys, lists), lists));
    var pairs := ExpandAll(rows).value;
    CollectSelects(pairs, key);
    assert Select(pairs, key) == Restored(lists[key]);
    forall j | 0 <= j < |lists[key]|
      ensures CanonicalKey(key) && CanonicalHost(lists[key][j].hostPort)
    {
      SelectIn(pairs, key, j);
      var p := Pair(key, Select(pairs, key)[j]);
      var row := ExpandAllMakes(rows, p);
      RowProtocol(keys, lists, row);
      AcceptedKey(p, row);
      MadeCanonical(p, row);
    }
    assert lists[key] != [];
    assert CanonicalHost(lists[key][0].hostPort);
  }

  lemma MadeCanonical(p: Pair, row: Spec)
    requires MadeBy(p, row)
    ensures CanonicalHost(p.binding.hostPort)
  {
  }

  lemma {:induction false} SelectIn(pairs: seq<Pair>, key: string, j: nat)
    requires j < |Select(pairs, key)|
    ensures Pair(key, Select(pairs, key)[j]) in pairs
  {
    var front := pairs[..|pairs| - 1];
    if j < |Select(front, key)| {
      SelectIn(front, key, j);
    }
  }

  lemma KeyedVisits(keys: seq<string>, lists: map<string, seq<Published>>)
    requires WellFormed(keys, lists)
    ensures Rounds(keys, lists) == Ok(Original(lists)) ==> forall v :: v in VisitsOf(Slots(keys, lists), lists) ==> Keyed(v)
  {
    hide VisitsOf, Slots, GroupOrder, CanonicalHost, IsKey, Rounds;
    var vs := VisitsOf(Slots(keys, lists), lists);
    forall v | v in vs && Rounds(keys, lists) == Ok(Original(lists))
      ensures Keyed(v)
    {
      var i :| 0 <= i < |vs| && vs[i] == v;
      var j := VisitOrigin(keys, lists, i);
      RestoredIsCanonical(keys, lists, v.key);
    }
  }

  function IpsOfVisits(vs: seq<Visit>): seq<string> {
    seq(|vs|, i requires 0 <= i < |vs| => vs[i].ip)
  }

  /** If moreover every address came back as long as it went in, the visits read the bindings of the
      key in their own order and every address is plain. */
  lemma RestoredAddresses(keys: seq<string>, lists: map<string, seq<Published>>, key: string)
    requires WellFormed(keys, lists) && key in keys
    ensures Rounds(keys, lists) == Ok(Original(lists)) ==>
              && GroupOrder(keys, lists, key) == IpsOf(lists[key])
              && forall j | 0 <= j < |lists[key]| :: GoodHost(lists[key][j].hostIp, lists[key][j].hostPort)
  {
    hide VisitsOf, Slots, Collect, Select, ExpandAll, Rows, Segments, Own, Mine, GroupOrder, Keyed, GoodHost, TotalLength;
    if Rounds(keys, lists) != Ok(Original(lists)) {
      return;
    }
    var slots := Slots(keys, lists);
    var vs := VisitsOf(slots, lists);
    var segs := Segments(vs);
    KeyedVisits(keys, lists);
    SegmentsAreMaximalRuns(vs);
    RowsReadAny(segs);
    var pairs := ExpandAll(Rows(segs)).value;
    CollectSelects(pairs, key);
    SelectReads(pairs, vs, key);
    VisitsMatchBindings(keys, lists, key);
    OwnVisits(slots, lists, key);
    var back, own, visits := Select(pairs, key), lists[key], Own(vs, key);
    assert back == Restored(own);
    assert IpsOfVisits(visits) == GroupOrder(keys, lists, key);
    TotalLengthPermutes(IpsOfVisits(visits), IpsOf(own));
    forall j | 0 <= j < |own|
      ensures |IpsOf(own)[j]| <= |IpsOfVisits(visits)[j]|
    {
      assert Reads(Pair(key, back[j]), visits[j]);
    }
    SameLengths(IpsOf(own), IpsOfVisits(visits));
    forall j | 0 <= j < |own|
      ensures visits[j].ip == own[j].hostIp && GoodHost(own[j].hostIp, own[j].hostPort)
    {
      assert Reads(Pair(key, back[j]), visits[j]);
      assert |IpsOf(own)[j]| == |IpsOfVisits(visits)[j]|;
      assert back[j].hostIp == Norm(own[j].hostIp);
    }
    assert IpsOfVisits(visits) == IpsOf(own);
  }

  /** preparePortBindings undoes sortAndCombinePorts on exactly the maps whose keys, host ports and
      addresses are canonical and whose bindings follow the order of the address groups. */
  lemma RoundTripIff(keys: seq<string>, lists: map<string, seq<Published>>)
    requires WellFormed(keys, lists)
    ensures Rounds(keys, lists) == Ok(Original(lists)) <==> Canonical(keys, lists) && InGroupOrder(keys, lists)
  {
    hide Rounds, GroupOrder, CanonicalKey, CanonicalHost, GoodHost, Original;
    if Canonical(keys, lists) && InGroupOrder(keys, lists) {
      CanonicalRounds(keys, lists);
    }
    if Rounds(keys, lists) == Ok(Original(lists)) {
      forall k | k in keys
        ensures CanonicalKey(k) && lists[k] != []
        ensures GroupOrder(keys, lists, k) == IpsOf(lists[k])
        ensures forall i | 0 <= i < |lists[k]| :: CanonicalBinding(lists[k][i])
      {
        RestoredIsCanonical(keys, lists, k);
        RestoredAddresses(keys, lists, k);
      }
    }
  }

  /** With one binding per key the order of the addresses cannot matter. */
  lemma OneBindingEach(keys: seq<string>, lists: map<string, seq<Published>>)
    requires WellFormed(keys, lists) && forall k :: k in keys ==> |lists[k]| == 1
    ensures Rounds(keys, lists) == Ok(Original(lists)) <==> Canonical(keys, lists)
  {
    hide Rounds, Canonical, Original, GroupOrder, Slots, Mine;
    forall k | k in keys
      ensures GroupOrder(keys, lists, k) == IpsOf(lists[k])
    {
      VisitsMatchBindings(keys, lists, k);
      SameSingleton(GroupOrder(keys, lists, k), IpsOf(lists[k]));
    }
    RoundTripIff(keys, lists);
  }

  lemma SameSingleton(a: seq<string>, b: seq<string>)
    requires |a| == |b| == 1 && multiset(a) == multiset(b)
    ensures a == b
  {
    assert a[0] in multiset(b);
    assert a == [a[0]] && b == [b[0]];
  }

  /** A host address without ':' that the round trip still loses: "[a" on port 80. */
  lemma BracketIsLost()
    ensures var keys, lists := [Key(80, "tcp")], map[Key(80, "tcp") := [Published("[a", Decimal(80))]];
            WellFormed(keys, lists) && Rounds(keys, lists) != Ok(Original(lists))
  {
    hide Rounds, Original, Decimal, Key, PortKey, CanonicalHost, CanonicalKey;
    var key, bad := Key(80, "tcp"), Published("[a", Decimal(80));
    var keys, lists := [key], map[key := [bad]];
    SomeKey(80, "tcp");
    OneBindingEach(keys, lists);
    assert key in keys;
    assert !CanonicalBinding(lists[key][0]) by {
      assert "[a"[0] == '[';
    }
  }
}
