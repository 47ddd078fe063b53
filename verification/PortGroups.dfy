/** Published ports grouped by protocol and host address and merged into ranges
    (app/docker/helpers/containerHelper.js, second half). */
module PortGroups {
  import opened Seqs
  import opened Text
  import opened PortSpecs

  /** A published port as Docker reports it. */
  datatype Published = Published(hostIp: string, hostPort: string)

  // ---- Port keys such as "80/tcp"

  function PortText(key: string): string {
    SplitOn(key, "/")[0]
  }

  /** parseInt: the number the leading digits denote. */
  function PortOf(key: string): nat {
    DigitCountSplits(PortText(key));
    Value(PortText(key)[..DigitCount(PortText(key))])
  }

  function Protocol(key: string): string {
    var parts := SplitOn(key, "/");
    if |parts| > 1 then parts[1] else "undefined"
  }

  /** Docker writes a port number first, so parseInt finds a number. */
  predicate PortKey(key: string) {
    key != "" && IsDigit(key[0])
  }

  /** The shape of a JavaScript object of lists: its keys in order, and a list under each. */
  predicate WellFormed(keys: seq<string>, lists: map<string, seq<Published>>) {
    && Distinct(keys)
    && (forall k | k in keys :: k in lists) && (forall k | k in lists :: k in keys)
    && (forall k | k in keys :: PortKey(k))
  }

  // ---- Grouping

  function Protocols(keys: seq<string>): seq<string> {
    if keys == [] then [] else Add(Protocols(keys[..|keys| - 1]), Protocol(keys[|keys| - 1]))
  }

  function Add(names: seq<string>, name: string): seq<string> {
    if name in names then names else names + [name]
  }

  function KeysWith(keys: seq<string>, protocol: string): seq<string> {
    if keys == [] then []
    else
      var last := keys[|keys| - 1];
      KeysWith(keys[..|keys| - 1], protocol) + if Protocol(last) == protocol then [last] else []
  }

  function IpsIn(ips: seq<string>, own: seq<Published>): seq<string> {
    if own == [] then ips else Add(IpsIn(ips, own[..|own| - 1]), own[|own| - 1].hostIp)
  }

  /** The host addresses of the given keys, in order of first appearance. */
  function Ips(keys: seq<string>, lists: map<string, seq<Published>>): seq<string>
    requires forall k :: k in keys ==> k in lists
  {
    if keys == [] then [] else IpsIn(Ips(keys[..|keys| - 1], lists), lists[keys[|keys| - 1]])
  }

  function CountIp(own: seq<Published>, ip: string): nat {
    if own == [] then 0
    else CountIp(own[..|own| - 1], ip) + if own[|own| - 1].hostIp == ip then 1 else 0
  }

  /** Each key once per binding on ip. */
  function KeysFor(keys: seq<string>, lists: map<string, seq<Published>>, ip: string): seq<string>
    requires forall k :: k in keys ==> k in lists
  {
    if keys == [] then []
    else
      var last := keys[|keys| - 1];
      KeysFor(keys[..|keys| - 1], lists, ip) + Repeat(last, CountIp(lists[last], ip))
  }

  // ---- The stable sort by port number (lodash orderBy)

  function Insert(sorted: seq<string>, key: string): seq<string> {
    if sorted == [] || PortOf(sorted[|sorted| - 1]) <= PortOf(key) then sorted + [key]
    else Insert(sorted[..|sorted| - 1], key) + [sorted[|sorted| - 1]]
  }

  function SortByPort(keys: seq<string>): seq<string> {
    if keys == [] then [] else Insert(SortByPort(keys[..|keys| - 1]), keys[|keys| - 1])
  }

  predicate Ascending(keys: seq<string>) {
    forall i, j | 0 <= i < j < |keys| :: PortOf(keys[i]) <= PortOf(keys[j])
  }

  lemma {:induction false} InsertPermutes(sorted: seq<string>, key: string)
    ensures multiset(Insert(sorted, key)) == multiset(sorted) + multiset{key}
  {
    if sorted == [] || PortOf(sorted[|sorted| - 1]) <= PortOf(key) {
    } else {
      var front, last := sorted[..|sorted| - 1], sorted[|sorted| - 1];
      InsertPermutes(front, key);
      assert sorted == front + [last];
    }
  }

  predicate Below(keys: seq<string>, bound: nat) {
    forall i | 0 <= i < |keys| :: PortOf(keys[i]) <= bound
  }

  lemma {:induction false} InsertSorts(sorted: seq<string>, key: string, bound: nat)
    requires Ascending(sorted)
    ensures Ascending(Insert(sorted, key))
    ensures Below(sorted, bound) && PortOf(key) <= bound ==> Below(Insert(sorted, key), bound)
  {
    if sorted == [] || PortOf(sorted[|sorted| - 1]) <= PortOf(key) {
    } else {
      var front, last := sorted[..|sorted| - 1], sorted[|sorted| - 1];
      InsertSorts(front, key, PortOf(last));
      InsertSorts(front, key, bound);
      assert Below(front, PortOf(last));
    }
  }

  lemma {:induction false} SortByPortPermutes(keys: seq<string>)
    ensures multiset(SortByPort(keys)) == multiset(keys)
  {
    if keys != [] {
      var front, last := keys[..|keys| - 1], keys[|keys| - 1];
      SortByPortPermutes(front);
      InsertPermutes(SortByPort(front), last);
      assert keys == front + [last];
    }
  }

  lemma {:induction false} SortByPortSorts(keys: seq<string>)
    ensures Ascending(SortByPort(keys))
  {
    if keys != [] {
      SortByPortSorts(keys[..|keys| - 1]);
      InsertSorts(SortByPort(keys[..|keys| - 1]), keys[|keys| - 1], 0);
    }
  }

  // ---- The order in which the drained lists are read

  /** One turn of the innermost loop. */
  datatype Slot = Slot(protocol: string, ip: string, key: string)

  function SlotsOfGroup(protocol: string, ip: string, sorted: seq<string>): seq<Slot> {
    seq(|sorted|, i requires 0 <= i < |sorted| => Slot(protocol, ip, sorted[i]))
  }

  function GroupSlots(protocol: string, ks: seq<string>, lists: map<string, seq<Published>>, ip: string): seq<Slot>
    requires forall k :: k in ks ==> k in lists
  {
    SlotsOfGroup(protocol, ip, SortByPort(KeysFor(ks, lists, ip)))
  }

  /** One group of slots per address. */
  function IpGroups(protocol: string, ks: seq<string>, lists: map<string, seq<Published>>, ips: seq<string>): (parts: seq<seq<Slot>>)
    requires forall k :: k in ks ==> k in lists
    ensures |parts| == |ips|
  {
    seq(|ips|, i requires 0 <= i < |ips| => GroupSlots(protocol, ks, lists, ips[i]))
  }

  lemma {:induction false} KeysWithIn(keys: seq<string>, protocol: string)
    ensures forall k :: k in KeysWith(keys, protocol) <==> k in keys && Protocol(k) == protocol
    ensures Distinct(keys) ==> Distinct(KeysWith(keys, protocol))
  {
    if keys != [] {
      var front, last := keys[..|keys| - 1], keys[|keys| - 1];
      KeysWithIn(front, protocol);
      assert keys == front + [last];
    }
  }

  function ProtocolSlots(keys: seq<string>, lists: map<string, seq<Published>>, protocol: string): seq<Slot>
    requires forall k :: k in keys ==> k in lists
  {
    KeysWithIn(keys, protocol);
    var ks := KeysWith(keys, protocol);
    Flatten(IpGroups(protocol, ks, lists, Ips(ks, lists)))
  }

  /** One part per protocol. */
  function ProtocolGroups(keys: seq<string>, lists: map<string, seq<Published>>, ps: seq<string>): (parts: seq<seq<Slot>>)
    requires forall k :: k in keys ==> k in lists
    ensures |parts| == |ps|
  {
    seq(|ps|, i requires 0 <= i < |ps| => ProtocolSlots(keys, lists, ps[i]))
  }

  function Slots(keys: seq<string>, lists: map<string, seq<Published>>): seq<Slot>
    requires forall k :: k in keys ==> k in lists
  {
    Flatten(ProtocolGroups(keys, lists, Protocols(keys)))
  }

  /** The addresses of the groups in which key is visited, in visiting order. */
  function Mine(slots: seq<Slot>, key: string): seq<string> {
    if slots == [] then []
    else
      var last := slots[|slots| - 1];
      Mine(slots[..|slots| - 1], key) + if last.key == key then [last.ip] else []
  }

  lemma {:induction false} MineAppend(a: seq<Slot>, b: seq<Slot>, key: string)
    ensures Mine(a + b, key) == Mine(a, key) + Mine(b, key)
  {
    if b == [] {
      assert a + b == a;
    } else {
      assert (a + b)[..|a + b| - 1] == a + b[..|b| - 1];
      MineAppend(a, b[..|b| - 1], key);
    }
  }

  // ---- Visits: what each turn of the loop reads

  datatype Visit = Visit(protocol: string, ip: string, key: string, port: nat, host: string)

  /** The turn after the turns done: reading and shifting the list of slot.key yields the binding
      at the position given by how often the key was visited before. */
  function VisitAfter(done: seq<Slot>, slot: Slot, lists: map<string, seq<Published>>): Visit {
    var n := |Mine(done, slot.key)|;
    Visit(slot.protocol, slot.ip, slot.key, PortOf(slot.key),
          if slot.key in lists && n < |lists[slot.key]| then lists[slot.key][n].hostPort else "")
  }

  function VisitsOf(slots: seq<Slot>, lists: map<string, seq<Published>>): (vs: seq<Visit>)
    ensures |vs| == |slots|
  {
    if slots == [] then []
    else
      var front, last := slots[..|slots| - 1], slots[|slots| - 1];
      VisitsOf(front, lists) + [VisitAfter(front, last, lists)]
  }

  // ---- Merging

  /** b continues a run that ends in a. */
  predicate Joinable(a: Visit, b: Visit) {
    && a.protocol == b.protocol && a.ip == b.ip
    && ParsePort(a.host) > 0 && ParsePort(b.host) == ParsePort(a.host) + 1
    && b.port == a.port + 1
  }

  /** Greedy segmentation of the visits into runs. */
  function Segments(vs: seq<Visit>): (segs: seq<seq<Visit>>)
    ensures forall i | 0 <= i < |segs| :: segs[i] != []
    ensures vs != [] ==> segs != [] && segs[|segs| - 1][|segs[|segs| - 1]| - 1] == vs[|vs| - 1]
  {
    if vs == [] then []
    else
      var before, last := Segments(vs[..|vs| - 1]), vs[|vs| - 1];
      if |vs| > 1 && Joinable(vs[|vs| - 2], last) then
        before[..|before| - 1] + [before[|before| - 1] + [last]]
      else before + [[last]]
  }

  function WithIp(ip: string, text: string): string {
    if ip != "" then ip + ":" + text else text
  }

  function NewRow(v: Visit): Spec {
    Spec(WithIp(v.ip, v.host), Number(v.port), v.protocol)
  }

  function Widen(row: Spec, v: Visit): Spec {
    row.(hostPort := CreatePortRange(row.hostPort, ParsePort(v.host)),
         containerPort := Written(CreatePortRange(row.containerPort.Display(), v.port)))
  }

  /** The row a run ends up as: the first visit's row, widened once per further visit. */
  function Row(run: seq<Visit>): Spec
    requires run != []
  {
    var last := run[|run| - 1];
    if |run| == 1 then NewRow(last)
    else
      Widen(Row(run[..|run| - 1]), last)
  }

  function Rows(segs: seq<seq<Visit>>): (rows: seq<Spec>)
    requires forall i | 0 <= i < |segs| :: segs[i] != []
    ensures |rows| == |segs|
  {
    seq(|segs|, i requires 0 <= i < |segs| => Row(segs[i]))
  }

  function Combine(vs: seq<Visit>): seq<Spec> {
    Rows(Segments(vs))
  }

  predicate Continues(vs: seq<Visit>, v: Visit) {
    vs != [] && Joinable(vs[|vs| - 1], v)
  }

  lemma SegmentsSnoc(vs: seq<Visit>, v: Visit)
    ensures var segs := Segments(vs);
            Segments(vs + [v]) ==
            if Continues(vs, v) then segs[..|segs| - 1] + [segs[|segs| - 1] + [v]] else segs + [[v]]
  {
    assert (vs + [v])[..|vs|] == vs;
  }

  lemma RowSnoc(run: seq<Visit>, v: Visit)
    requires run != []
    ensures Row(run + [v]) == Widen(Row(run), v)
  {
    assert (run + [v])[..|run|] == run;
  }

  lemma RowOne(v: Visit)
    ensures Row([v]) == NewRow(v)
  {
  }

  lemma CombineSnoc(vs: seq<Visit>, v: Visit)
    ensures var rows := Combine(vs);
            Combine(vs + [v]) ==
            if Continues(vs, v) then rows[..|rows| - 1] + [Widen(rows[|rows| - 1], v)] else rows + [NewRow(v)]
  {
    hide Segments, Row, Widen, NewRow, Joinable;
    SegmentsSnoc(vs, v);
    RowOne(v);
    var segs := Segments(vs);
    if Continues(vs, v) {
      RowSnoc(segs[|segs| - 1], v);
    }
  }
}
