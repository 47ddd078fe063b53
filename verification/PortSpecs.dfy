/** Port specifications typed by the user and their expansion into Docker port bindings
    (app/docker/helpers/containerHelper.js, first half). */
module PortSpecs {
  import opened Wrappers
  import opened Text

  const MAX_PORT := 65535

  /** The regular expression portPattern, alternative by alternative. */
  predicate PortPattern(s: string) {
    && AllDigits(s)
    && (|| (|s| == 1 && s[0] != '0')
        || 2 <= |s| <= 4
        || (|s| == 5 && '1' <= s[0] <= '5')
        || (|s| == 5 && s[0] == '6' && s[1] <= '4')
        || (|s| == 5 && s[0] == '6' && s[1] == '5' && s[2] <= '4')
        || (|s| == 5 && s[0] == '6' && s[1] == '5' && s[2] == '5' && s[3] <= '2')
        || (|s| == 5 && s[0] == '6' && s[1] == '5' && s[2] == '5' && s[3] == '3' && s[4] <= '5'))
  }

  function ParsePort(s: string): nat {
    if PortPattern(s) then Value(s) else 0
  }

  /** What the seven alternatives amount to: every numeral of two to four digits, and otherwise
      the numerals without a leading zero that denote 1..9 or 10000..65535. */
  lemma PortPatternMeaning(s: string)
    ensures PortPattern(s) <==>
            AllDigits(s) && (2 <= |s| <= 4 || ((|s| == 1 || |s| == 5) && s[0] != '0' && Value(s) <= MAX_PORT))
    ensures PortPattern(s) ==> Value(s) <= MAX_PORT
  {
    if AllDigits(s) && 1 <= |s| <= 5 {
      ValueUnfolds(s);
    }
  }

  lemma ValueUnfolds(s: string)
    requires AllDigits(s) && 1 <= |s| <= 5
    ensures |s| == 1 ==> Value(s) == DigitValue(s[0])
    ensures |s| <= 4 ==> Value(s) <= 9999
    ensures |s| == 5 ==> Value(s) == 10000 * DigitValue(s[0]) + 1000 * DigitValue(s[1]) + 100 * DigitValue(s[2])
                                     + 10 * DigitValue(s[3]) + DigitValue(s[4])
  {
    hide Value;
    assert s[..|s|] == s;
    ValuePrefix(s, 1);
    if |s| > 1 { ValuePrefix(s, 2); }
    if |s| > 2 { ValuePrefix(s, 3); }
    if |s| > 3 { ValuePrefix(s, 4); }
    if |s| > 4 { ValuePrefix(s, 5); }
  }

  lemma ValuePrefix(s: string, n: nat)
    requires AllDigits(s) && 0 < n <= |s|
    ensures Value(s[..n]) == 10 * Value(s[..n - 1]) + DigitValue(s[n - 1])
    ensures n == 1 ==> Value(s[..n - 1]) == 0
  {
    assert s[..n][..n - 1] == s[..n - 1];
  }

  lemma ParsePortBounds(s: string)
    ensures ParsePort(s) <= MAX_PORT
    ensures ParsePort(s) > 0 ==> AllDigits(s) && s != ""
  {
    PortPatternMeaning(s);
  }

  /** parsePort inverts toString on valid ports, and maps every other number to 0. */
  lemma ParsePortOfDecimal(n: nat)
    ensures ParsePort(Decimal(n)) == if n <= MAX_PORT then n else 0
  {
    ValueOfDecimal(n);
    PortPatternMeaning(Decimal(n));
    if n < 10 {
    } else {
      DecimalLength(n);
    }
  }

  lemma {:induction false} DecimalLength(n: nat)
    ensures n < 10 <==> |Decimal(n)| == 1
    ensures n < 100 <==> |Decimal(n)| <= 2
    ensures n < 1000 <==> |Decimal(n)| <= 3
    ensures n < 10000 <==> |Decimal(n)| <= 4
    ensures n < 100000 <==> |Decimal(n)| <= 5
  {
    if n >= 10 {
      DecimalLength(n / 10);
    }
  }

  datatype PortRange = PortRange(first: nat, last: nat)

  function ParsePortRange(text: string): PortRange {
    var parts := SplitOn(text, "-");
    if |parts| == 1 then PortRange(ParsePort(parts[0]), ParsePort(parts[0]))
    else PortRange(ParsePort(parts[0]), ParsePort(parts[1]))
  }

  predicate IsValidPortRange(r: PortRange) {
    r.first > 0 && r.last >= r.first
  }

  function RangeText(first: nat, last: nat): string {
    Decimal(first) + "-" + Decimal(last)
  }

  /** Extends the range written in text, which may carry a host address, so that it includes port. */
  function CreatePortRange(text: string, port: nat): string {
    var colon := IndexOf(text, ":");
    IndexFromIsFirst(text, ":", 0);
    var hostIp := if colon >= 0 then text[..colon] else "";
    var r := ParsePortRange(if colon >= 0 then text[colon + 1..] else text);
    var first := if r.first < port then r.first else port;
    var last := if r.last > port then r.last else port;
    if hostIp != "" then hostIp + ":" + RangeText(first, last) else RangeText(first, last)
  }

  /** A containerPort field holds a number until it is merged into a range. */
  datatype ContainerPort = Number(n: nat) | Written(text: string)
  {
    function Display(): string {
      match this
      case Number(n) => Decimal(n)
      case Written(text) => text
    }

    predicate Truthy() {
      match this
      case Number(n) => n != 0
      case Written(text) => text != ""
    }
  }

  /** One row of the port form. */
  datatype Spec = Spec(hostPort: string, containerPort: ContainerPort, protocol: string)

  /** A binding handed to Docker; None is JavaScript's undefined. */
  datatype Binding = Binding(hostIp: Option<string>, hostPort: string)

  datatype Pair = Pair(key: string, binding: Binding)

  function Key(port: nat, protocol: string): string {
    Decimal(port) + "/" + protocol
  }

  /** replace(c, ''): drops the first occurrence of c. */
  function RemoveFirst(s: string, c: char): string {
    var i := IndexOf(s, [c]);
    IndexFromIsFirst(s, [c], 0);
    if i < 0 then s else s[..i] + s[i + 1..]
  }

  datatype HostParts = HostParts(ip: Option<string>, port: string)

  /** Separates the host address from the host port; None when a bracket is never closed by "]:". */
  function SplitHost(hostPort: string): Option<HostParts> {
    if '[' in hostPort then
      var parts := SplitOn(hostPort, "]:");
      if |parts| < 2 then None else Some(HostParts(Some(RemoveFirst(parts[0], '[')), parts[1]))
    else if ':' in hostPort then
      var parts := SplitOn(hostPort, ":");
      IndexOfCharNone(hostPort, ':');
      Some(HostParts(Some(parts[0]), parts[1]))
    else
      Some(HostParts(None, hostPort))
  }

  /** The host port text of the i-th container port of a specification. */
  function HostText(container: PortRange, host: PortRange, i: nat): string {
    if host.first == 0 then ""
    else if container.first == container.last && host.first != host.last then RangeText(host.first, host.last)
    else Decimal(host.first + i)
  }

  function Bind(container: PortRange, host: PortRange, ip: Option<string>, protocol: string): seq<Pair>
    requires container.first <= container.last
  {
    seq(container.last - container.first + 1,
        i requires 0 <= i => Pair(Key(container.first + i, protocol), Binding(ip, HostText(container, host, i))))
  }

  /** The bindings one specification stands for, or the text the thrown error quotes. */
  function ExpandSpec(s: Spec): Result<seq<Pair>, string> {
    if !s.containerPort.Truthy() then Ok([])
    else
      var container := ParsePortRange(s.containerPort.Display());
      if !IsValidPortRange(container) then Err(s.containerPort.Display())
      else if s.hostPort == "" then Ok(Bind(container, PortRange(0, 0), None, s.protocol))
      else
        match SplitHost(s.hostPort)
        case None => Err(s.containerPort.Display())
        case Some(parts) =>
          var host := ParsePortRange(parts.port);
          if !IsValidPortRange(host) then Err(parts.port)
          else if container.last != container.first && container.last - container.first != host.last - host.first
          then Err(parts.port)
          else Ok(Bind(container, host, parts.ip, s.protocol))
  }

  function Expansions(specs: seq<Spec>): seq<Result<seq<Pair>, string>> {
    seq(|specs|, i requires 0 <= i < |specs| => ExpandSpec(specs[i]))
  }

  /** All bindings in specification order; the first bad specification wins. */
  function ExpandAll(specs: seq<Spec>): Result<seq<Pair>, string> {
    Concat(Expansions(specs))
  }

  function Push(m: map<string, seq<Binding>>, p: Pair): map<string, seq<Binding>> {
    m[p.key := if p.key in m then m[p.key] + [p.binding] else [p.binding]]
  }

  function Collect(pairs: seq<Pair>): map<string, seq<Binding>> {
    if pairs == [] then map[] else Push(Collect(pairs[..|pairs| - 1]), pairs[|pairs| - 1])
  }

  /** The bindings recorded for key, in order. */
  function Select(pairs: seq<Pair>, key: string): seq<Binding> {
    if pairs == [] then []
    else
      var last := pairs[|pairs| - 1];
      Select(pairs[..|pairs| - 1], key) + if last.key == key then [last.binding] else []
  }

  function Prepare(specs: seq<Spec>): Result<map<string, seq<Binding>>, string> {
    match ExpandAll(specs)
    case Err(e) => Err(e)
    case Ok(pairs) => Ok(Collect(pairs))
  }

  method HostTextAt(container: PortRange, host: PortRange, i: nat) returns (hostPort: string)
    requires host.first == 0 ==> host.last == 0
    requires container.first + i <= container.last
    ensures hostPort == HostText(container, host, i)
  {
    hostPort := "";
    if host.first > 0 {
      hostPort := Decimal(host.first + i);
    }
    if container.first == container.last && host.first != host.last {
      hostPort := hostPort + "-" + Decimal(host.last);
    }
  }

  /** The inner loop of preparePortBindings. */
  method AddBindings(bindings: map<string, seq<Binding>>, container: PortRange, host: PortRange,
      hostIp: Option<string>, protocol: string, ghost done: seq<Pair>)
    returns (r: map<string, seq<Binding>>)
    requires container.first <= container.last
    requires host.first == 0 ==> host.last == 0
    requires bindings == Collect(done)
    ensures r == Collect(done + Bind(container, host, hostIp, protocol))
  {
    hide Collect, Push, Key, HostText;
    r := bindings;
    ghost var pairs := Bind(container, host, hostIp, protocol);
    ghost var acc := done;
    for i := 0 to container.last - container.first + 1
      invariant acc == done + pairs[..i]
      invariant r == Collect(acc)
    {
      var hostPort := HostTextAt(container, host, i);
      var bindKey := Key(container.first + i, protocol);
      assert pairs[i] == Pair(bindKey, Binding(hostIp, hostPort));
      CollectSnoc(acc, pairs[i]);
      acc := acc + [pairs[i]];
      r := PushBinding(r, bindKey, Binding(hostIp, hostPort));
    }
    assert pairs[..|pairs|] == pairs;
  }

  method PushBinding(m: map<string, seq<Binding>>, key: string, binding: Binding)
    returns (r: map<string, seq<Binding>>)
    ensures r == Push(m, Pair(key, binding))
  {
    if key in m {
      r := m[key := m[key] + [binding]];
    } else {
      r := m[key := [binding]];
    }
  }

  lemma CollectSnoc(pairs: seq<Pair>, p: Pair)
    ensures Collect(pairs + [p]) == Push(Collect(pairs), p)
  {
    assert (pairs + [p])[..|pairs|] == pairs;
  }

  method PreparePortBindings(specs: seq<Spec>) returns (r: Result<map<string, seq<Binding>>, string>)
    ensures r == Prepare(specs)
  {
    var bindings: map<string, seq<Binding>> := map[];
    ghost var done: seq<Pair> := [];
    for n := 0 to |specs|
      invariant ExpandAll(specs[..n]) == Ok(done)
      invariant bindings == Collect(done)
    {
      var spec := specs[n];
      ExpandAllStep(specs, n);
      if !spec.containerPort.Truthy() {
        continue;
      }
      var container := ParsePortRange(spec.containerPort.Display());
      if !IsValidPortRange(container) {
        return Err(spec.containerPort.Display());
      }
      var hostIp: Option<string> := None;
      var host := PortRange(0, 0);
      var hostPort := spec.hostPort;
      if hostPort != "" {
        var parts := SplitHost(hostPort);
        if parts.None? {
          return Err(spec.containerPort.Display());
        }
        hostIp, hostPort := parts.value.ip, parts.value.port;
        host := ParsePortRange(hostPort);
        if !IsValidPortRange(host) {
          return Err(hostPort);
        }
        if container.last != container.first && container.last - container.first != host.last - host.first {
          return Err(hostPort);
        }
      }
      bindings := AddBindings(bindings, container, host, hostIp, spec.protocol, done);
      done := done + Bind(container, host, hostIp, spec.protocol);
    }
    assert specs[..|specs|] == specs;
    return Ok(bindings);
  }

  /** One more specification: its bindings are appended, or its error decides the whole call. */
  lemma ExpandAllStep(specs: seq<Spec>, n: nat)
    requires n < |specs| && ExpandAll(specs[..n]).Ok?
    ensures var done := ExpandAll(specs[..n]).value;
            match ExpandSpec(specs[n])
            case Ok(pairs) => ExpandAll(specs[..n + 1]) == Ok(done + pairs) && (pairs == [] ==> done + pairs == done)
            case Err(e) => ExpandAll(specs) == Err(e)
  {
    ExpansionsAppend(specs[..n], [specs[n]]);
    assert specs[..n + 1] == specs[..n] + [specs[n]];
    ConcatSnoc(Expansions(specs[..n]), ExpandSpec(specs[n]));
    ExpandAllAppend(specs[..n + 1], specs[n + 1..]);
    assert specs == specs[..n + 1] + specs[n + 1..];
  }

  lemma ExpansionsAppend(a: seq<Spec>, b: seq<Spec>)
    ensures Expansions(a + b) == Expansions(a) + Expansions(b)
    ensures |b| == 1 ==> Expansions(b) == [ExpandSpec(b[0])]
  {
  }

  lemma ExpandAllAppend(a: seq<Spec>, b: seq<Spec>)
    ensures ExpandAll(a + b) == Join(ExpandAll(a), ExpandAll(b))
  {
    ExpansionsAppend(a, b);
    ConcatAppend(Expansions(a), Expansions(b));
  }

  lemma ExpandAllSnoc(specs: seq<Spec>)
    requires specs != []
    ensures ExpandAll(specs) == Join(ExpandAll(specs[..|specs| - 1]), ExpandSpec(specs[|specs| - 1]))
  {
    var front, last := specs[..|specs| - 1], specs[|specs| - 1];
    assert specs == front + [last];
    ExpansionsAppend(front, [last]);
    ConcatSnoc(Expansions(front), ExpandSpec(last));
  }

  /** The prepared map holds, under each key, exactly that key's bindings in specification order. */
  lemma {:induction false} CollectSelects(pairs: seq<Pair>, key: string)
    ensures key in Collect(pairs) <==> Select(pairs, key) != []
    ensures key in Collect(pairs) ==> Collect(pairs)[key] == Select(pairs, key)
  {
    if pairs != [] {
      CollectSelects(pairs[..|pairs| - 1], key);
    }
  }

  lemma {:induction false} SelectAppend(a: seq<Pair>, b: seq<Pair>, key: string)
    ensures Select(a + b, key) == Select(a, key) + Select(b, key)
  {
    if b == [] {
      assert a + b == a;
    } else {
      assert (a + b)[..|a + b| - 1] == a + b[..|b| - 1];
      SelectAppend(a, b[..|b| - 1], key);
    }
  }

  predicate ValidPort(n: int) {
    1 <= n <= MAX_PORT
  }

  predicate IsKey(key: string, port: nat, protocol: string) {
    key == Key(port, protocol) && ValidPort(port)
  }

  /** Host port texts Docker reports: nothing, a port, or an ascending range of ports. */
  ghost predicate CanonicalHost(text: string) {
    || text == ""
    || (exists n: nat | ValidPort(n) :: text == Decimal(n))
    || (exists first: nat, last: nat | first < last && ValidPort(first) && ValidPort(last) :: text == RangeText(first, last))
  }

  /** What an accepted specification binds: valid ranges, of which the host's may be missing. */
  lemma AcceptedAs(s: Spec) returns (container: PortRange, host: PortRange, ip: Option<string>)
    requires ExpandSpec(s).Ok? && s.containerPort.Truthy()
    ensures container == ParsePortRange(s.containerPort.Display())
    ensures IsValidPortRange(container) && container.last <= MAX_PORT && host.last <= MAX_PORT
    ensures host == PortRange(0, 0) || IsValidPortRange(host)
    ensures container.first == container.last || host == PortRange(0, 0) || container.last - container.first == host.last - host.first
    ensures ExpandSpec(s).value == Bind(container, host, ip, s.protocol)
  {
    hide ParsePortRange, SplitHost, Bind, RemoveFirst;
    container, host, ip := ParsePortRange(s.containerPort.Display()), PortRange(0, 0), None;
    ParsePortRangeBounds(s.containerPort.Display());
    if s.hostPort != "" {
      var parts := SplitHost(s.hostPort).value;
      host, ip := ParsePortRange(parts.port), parts.ip;
      ParsePortRangeBounds(parts.port);
    }
  }

  lemma HostTextIsCanonical(container: PortRange, host: PortRange, i: nat)
    requires host == PortRange(0, 0) || (IsValidPortRange(host) && host.last <= MAX_PORT)
    requires container.first == container.last || host == PortRange(0, 0) || container.last - container.first == host.last - host.first
    requires container.first + i <= container.last
    ensures CanonicalHost(HostText(container, host, i))
  {
    hide Decimal, RangeText;
    if host.first > 0 {
      if container.first != container.last || host.first == host.last {
        assert ValidPort(host.first + i);
      } else {
        assert ValidPort(host.first) && ValidPort(host.last);
      }
    }
  }

  /** Whatever is accepted expands to one binding per container port, in ascending order, and
      every container and host port number written lies in 1..65535. */
  lemma AcceptedShape(s: Spec)
    requires ExpandSpec(s).Ok? && s.containerPort.Truthy()
    ensures var pairs := ExpandSpec(s).value;
            var container := ParsePortRange(s.containerPort.Display());
            && |pairs| == container.last - container.first + 1
            && forall i | 0 <= i < |pairs| ::
                 && IsKey(pairs[i].key, container.first + i, s.protocol)
                 && CanonicalHost(pairs[i].binding.hostPort)
  {
    hide ExpandSpec, CanonicalHost, HostText, ParsePortRange, Key, SplitHost;
    var container, host, ip := AcceptedAs(s);
    var pairs := ExpandSpec(s).value;
    forall i | 0 <= i < |pairs|
      ensures IsKey(pairs[i].key, container.first + i, s.protocol) && CanonicalHost(pairs[i].binding.hostPort)
    {
      HostTextIsCanonical(container, host, i);
    }
  }

  lemma ParsePortRangeBounds(text: string)
    ensures ParsePortRange(text).first <= MAX_PORT && ParsePortRange(text).last <= MAX_PORT
  {
    var parts := SplitOn(text, "-");
    ParsePortBounds(parts[0]);
    if |parts| > 1 {
      ParsePortBounds(parts[1]);
    }
  }

  function Widths(specs: seq<Spec>): nat {
    if specs == [] then 0
    else
      var last := specs[|specs| - 1];
      var r := ParsePortRange(last.containerPort.Display());
      Widths(specs[..|specs| - 1])
      + (if last.containerPort.Truthy() && r.first <= r.last then r.last - r.first + 1 else 0)
  }

  /** The binding stands for a valid container port of s and writes only valid host ports. */
  ghost predicate MadeBy(p: Pair, s: Spec) {
    (exists port: nat :: IsKey(p.key, port, s.protocol)) && CanonicalHost(p.binding.hostPort)
  }

  lemma ExpandMakes(s: Spec, p: Pair)
    requires ExpandSpec(s).Ok? && p in ExpandSpec(s).value
    ensures MadeBy(p, s)
  {
    hide ExpandSpec, CanonicalHost;
    var pairs := ExpandSpec(s).value;
    var i :| 0 <= i < |pairs| && pairs[i] == p;
    TruthyExpands(s);
    AcceptedShape(s);
    var port: nat := ParsePortRange(s.containerPort.Display()).first + i;
    assert IsKey(p.key, port, s.protocol);
  }

  lemma TruthyExpands(s: Spec)
    ensures !s.containerPort.Truthy() ==> ExpandSpec(s) == Ok([])
  {
  }

  lemma {:induction false} ExpandAllMakes(specs: seq<Spec>, p: Pair) returns (s: Spec)
    requires ExpandAll(specs).Ok? && p in ExpandAll(specs).value
    ensures s in specs && MadeBy(p, s)
  {
    hide ExpandSpec, MadeBy;
    assert specs != [];
    var front, last := specs[..|specs| - 1], specs[|specs| - 1];
    assert specs == front + [last];
    ExpandAllSnoc(specs);
    if p in ExpandAll(front).value {
      s := ExpandAllMakes(front, p);
    } else {
      s := last;
      ExpandMakes(s, p);
    }
  }

  lemma {:induction false} ExpandAllCounts(specs: seq<Spec>)
    ensures ExpandAll(specs).Ok? <==> forall s :: s in specs ==> ExpandSpec(s).Ok?
    ensures ExpandAll(specs).Ok? ==> |ExpandAll(specs).value| == Widths(specs)
  {
    hide ExpandSpec, ParsePortRange;
    if specs != [] {
      var front, last := specs[..|specs| - 1], specs[|specs| - 1];
      assert specs == front + [last];
      ExpandAllCounts(front);
      ExpandAllSnoc(specs);
      if ExpandSpec(last).Ok? {
        SpecWidth(last);
      }
    }
  }

  lemma SpecWidth(s: Spec)
    requires ExpandSpec(s).Ok?
    ensures var r := ParsePortRange(s.containerPort.Display());
            |ExpandSpec(s).value| ==
            if s.containerPort.Truthy() && r.first <= r.last then r.last - r.first + 1 else 0
  {
  }

  /** preparePortBindings against the naive expansion: it succeeds iff every specification does; it
      produces as many bindings as the container ranges are wide, each for a valid container port of
      one of the specifications and with host ports in range; and it files them under their keys in
      specification order, with no empty list. */
  lemma PrepareRefinesExpansion(specs: seq<Spec>)
    ensures Prepare(specs).Ok? <==> forall s :: s in specs ==> ExpandSpec(s).Ok?
    ensures Prepare(specs).Ok? ==>
              var pairs := ExpandAll(specs).value;
              && |pairs| == Widths(specs)
              && (forall p :: p in pairs ==> exists s :: s in specs && MadeBy(p, s))
              && (forall k :: k in Prepare(specs).value <==> Select(pairs, k) != [])
              && (forall k :: k in Prepare(specs).value ==> Prepare(specs).value[k] == Select(pairs, k))
  {
    hide ExpandSpec, MadeBy, Collect, Select;
    ExpandAllCounts(specs);
    if ExpandAll(specs).Ok? {
      var pairs := ExpandAll(specs).value;
      forall p | p in pairs
        ensures exists s :: s in specs && MadeBy(p, s)
      {
        var s := ExpandAllMakes(specs, p);
      }
      forall k
        ensures k in Collect(pairs) <==> Select(pairs, k) != []
        ensures k in Collect(pairs) ==> Collect(pairs)[k] == Select(pairs, k)
      {
        CollectSelects(pairs, k);
      }
    }
  }
}
