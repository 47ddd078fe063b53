/** Expanding a merged row again: exactly the visits it came from when they are canonical, and
    otherwise an error or a shorter host address. */
module PortReadBack {
  import opened Wrappers
  import opened Text
  import opened PortSpecs
  import opened PortGroups
  import opened PortRuns

  /** An empty HostIp reads back as undefined. */
  function Norm(ip: string): Option<string> {
    if ip == "" then None else Some(ip)
  }

  function IpLength(ip: Option<string>): nat {
    if ip.None? then 0 else |ip.value|
  }

  predicate PlainIp(ip: string) {
    ':' !in ip && '[' !in ip
  }

  /** The host side survives: a plain address, which is empty if there is no host port. */
  predicate GoodHost(ip: string, host: string) {
    PlainIp(ip) && (host == "" ==> ip == "")
  }

  /** A canonical key and a canonical host port; nothing is said of the address. */
  ghost predicate Keyed(v: Visit) {
    IsKey(v.key, v.port, v.protocol) && CanonicalHost(v.host)
  }

  function PairOf(v: Visit): Pair {
    Pair(v.key, Binding(Norm(v.ip), v.host))
  }

  function PairsOf(vs: seq<Visit>): (ps: seq<Pair>)
    ensures |ps| == |vs|
  {
    seq(|vs|, i requires 0 <= i < |vs| => PairOf(vs[i]))
  }

  lemma CanonicalIsPlain(text: string)
    requires CanonicalHost(text)
    ensures Plain(text)
    ensures ParsePort(text) > 0 ==> text == Decimal(ParsePort(text))
  {
    if text == "" {
      assert !PortPattern(text);
    } else if exists n: nat | ValidPort(n) :: text == Decimal(n) {
      var n: nat :| ValidPort(n) && text == Decimal(n);
      PlainPorts(n, n);
      ParsePortOfDecimal(n);
    } else {
      var a: nat, b: nat :| a < b && ValidPort(a) && ValidPort(b) && text == RangeText(a, b);
      PlainPorts(a, b);
      assert text[|Decimal(a)|] == '-';
      ParsePortBounds(text);
    }
  }

  /** A plain host address is separated again from plain text behind it. */
  lemma SplitPlain(ip: string, text: string)
    requires PlainIp(ip) && Plain(text)
    ensures SplitHost(WithIp(ip, text)) == Some(HostParts(Norm(ip), text))
  {
    if ip != "" {
      assert WithIp(ip, text) == ip + [':'] + text;
      SplitOnChar(ip, ':', text);
      SplitOnNone(text, ':');
      assert ':' in WithIp(ip, text);
    }
  }

  /** Any other address comes back shorter, if at all. */
  lemma SplitShortens(ip: string, text: string)
    requires !PlainIp(ip) && Plain(text)
    ensures var r := SplitHost(WithIp(ip, text));
            r.Some? ==> IpLength(r.value.ip) < |ip|
  {
    var t := WithIp(ip, text);
    assert t == ip + ":" + text;
    assert t[|ip|] == ':';
    if '[' in t {
      var i := IndexOf(t, "]:");
      IndexFromIsFirst(t, "]:", 0);
      if i >= 0 {
        assert t[i..i + 2] == "]:";
        assert t[i] == t[i..i + 2][0] == ']';
        assert i < |ip|;
        RemoveFirstShorter(t[..i], '[');
      }
    } else {
      assert ':' in ip by {
        assert forall j | 0 <= j < |ip| :: t[j] == ip[j];
      }
      IndexOfCharNone(ip, ':');
      BeforeFirst(ip, ':');
      var k := IndexOf(ip, ":");
      assert t == ip[..k] + [':'] + (ip[k + 1..] + ":" + text);
      SplitOnChar(ip[..k], ':', ip[k + 1..] + ":" + text);
    }
  }

  lemma RemoveFirstShorter(s: string, c: char)
    ensures |RemoveFirst(s, c)| <= |s|
  {
    IndexFromIsFirst(s, [c], 0);
  }

  /** The container range of a merged row. */
  lemma RowRange(run: seq<Visit>)
    requires IsRun(run) && PortsValid(run)
    ensures Row(run).containerPort.Truthy()
    ensures ParsePortRange(Row(run).containerPort.Display()) == PortRange(run[0].port, run[|run| - 1].port)
    ensures IsValidPortRange(PortRange(run[0].port, run[|run| - 1].port))
    ensures run[|run| - 1].port == run[0].port + |run| - 1
  {
    RowContainer(run);
    RunSteps(run, |run| - 1);
    var a, b := run[0].port, run[|run| - 1].port;
    ParseRangeText(a, b);
    ParsePortOfDecimal(a);
    ParsePortOfDecimal(b);
    ValueOfDecimal(a);
  }

  /** The host range written in a canonical, non-empty host port. */
  lemma CanonicalRange(host: string)
    requires CanonicalHost(host) && host != ""
    ensures var r := ParsePortRange(host);
            && IsValidPortRange(r)
            && host == if r.first == r.last then Decimal(r.first) else RangeText(r.first, r.last)
  {
    if exists n: nat | ValidPort(n) :: host == Decimal(n) {
      var n: nat :| ValidPort(n) && host == Decimal(n);
      ParseRangeText(n, n);
      ParsePortOfDecimal(n);
    } else {
      var a: nat, b: nat :| a < b && ValidPort(a) && ValidPort(b) && host == RangeText(a, b);
      ParseRangeText(a, b);
      ParsePortOfDecimal(a);
      ParsePortOfDecimal(b);
    }
  }

  lemma PairsOfOne(v: Visit)
    ensures PairsOf([v]) == [PairOf(v)]
  {
  }

  /** A single port with its canonical host port binds exactly that. */
  lemma BindSingle(v: Visit)
    requires CanonicalHost(v.host) && v.key == Key(v.port, v.protocol)
    ensures var host := if v.host == "" then PortRange(0, 0) else ParsePortRange(v.host);
            Bind(PortRange(v.port, v.port), host, Norm(v.ip), v.protocol) == [PairOf(v)]
  {
    hide ParsePortRange, CanonicalHost, Key, RangeText;
    if v.host != "" {
      CanonicalRange(v.host);
    }
  }

  lemma ReadBackSingle(v: Visit)
    requires Keyed(v) && GoodHost(v.ip, v.host)
    ensures ExpandSpec(Row([v])) == Ok([PairOf(v)])
  {
    hide Row, ParsePortRange, CanonicalHost, Key, SplitHost, Bind;
    RowRange([v]);
    RowContainer([v]);
    var a, b := RowHost([v]);
    CanonicalIsPlain(v.host);
    SplitPlain(v.ip, v.host);
    BindSingle(v);
    if v.host != "" {
      CanonicalRange(v.host);
    }
  }

  lemma ExpandTo(s: Spec, container: PortRange, host: PortRange, parts: HostParts)
    requires s.containerPort.Truthy() && ParsePortRange(s.containerPort.Display()) == container
    requires IsValidPortRange(container)
    requires s.hostPort != "" && SplitHost(s.hostPort) == Some(parts)
    requires ParsePortRange(parts.port) == host && IsValidPortRange(host)
    requires container.last - container.first == host.last - host.first
    ensures ExpandSpec(s) == Ok(Bind(container, host, parts.ip, s.protocol))
  {
  }

  /** The host port of the i-th visit of a canonical run. */
  lemma RunHost(run: seq<Visit>, i: nat)
    requires IsRun(run) && |run| > 1 && i < |run|
    requires forall j | 0 <= j < |run| :: CanonicalHost(run[j].host)
    ensures run[i].host == Decimal(ParsePort(run[0].host) + i)
    ensures ValidPort(ParsePort(run[0].host)) && ValidPort(ParsePort(run[0].host) + i)
  {
    RunSteps(run, i);
    CanonicalIsPlain(run[i].host);
    ParsePortBounds(run[i].host);
  }

  /** A row with two ranges of the same width binds them port by port. */
  lemma ExpandRanges(ip: string, c: nat, h: nat, n: nat, protocol: string)
    requires PlainIp(ip) && n > 0 && ValidPort(c) && ValidPort(c + n) && ValidPort(h) && ValidPort(h + n)
    ensures ExpandSpec(Spec(WithIp(ip, RangeText(h, h + n)), Written(RangeText(c, c + n)), protocol)) ==
            Ok(Bind(PortRange(c, c + n), PortRange(h, h + n), Norm(ip), protocol))
  {
    ParseRangeText(c, c + n);
    ParseRangeText(h, h + n);
    ParsePortOfDecimal(c);
    ParsePortOfDecimal(c + n);
    ParsePortOfDecimal(h);
    ParsePortOfDecimal(h + n);
    PlainPorts(h, h + n);
    SplitPlain(ip, RangeText(h, h + n));
    ExpandTo(Spec(WithIp(ip, RangeText(h, h + n)), Written(RangeText(c, c + n)), protocol),
             PortRange(c, c + n), PortRange(h, h + n), HostParts(Norm(ip), RangeText(h, h + n)));
  }

  lemma BoundPair(run: seq<Visit>, i: nat)
    requires IsRun(run) && |run| > 1 && i < |run|
    requires forall j | 0 <= j < |run| :: Keyed(run[j])
    ensures var n, host := |run| - 1, ParsePort(run[0].host);
            Pair(Key(run[0].port + i, run[0].protocol),
                 Binding(Norm(run[0].ip), HostText(PortRange(run[0].port, run[0].port + n), PortRange(host, host + n), i)))
            == PairOf(run[i])
  {
    RunSteps(run, i);
    RunHost(run, 0);
    RunHost(run, i);
  }

  lemma BoundPairs(run: seq<Visit>)
    requires IsRun(run) && |run| > 1
    requires forall i | 0 <= i < |run| :: Keyed(run[i])
    ensures var n, host := |run| - 1, ParsePort(run[0].host);
            Bind(PortRange(run[0].port, run[0].port + n), PortRange(host, host + n), Norm(run[0].ip), run[0].protocol)
            == PairsOf(run)
  {
    hide Keyed, IsRun, Key, HostText, PairOf;
    var n, host := |run| - 1, ParsePort(run[0].host);
    forall i | 0 <= i < |run|
      ensures Pair(Key(run[0].port + i, run[0].protocol),
                   Binding(Norm(run[0].ip), HostText(PortRange(run[0].port, run[0].port + n), PortRange(host, host + n), i)))
              == PairsOf(run)[i]
    {
      BoundPair(run, i);
    }
  }

  lemma LongRow(run: seq<Visit>)
    requires IsRun(run) && |run| > 1
    requires forall i | 0 <= i < |run| :: Keyed(run[i]) && GoodHost(run[i].ip, run[i].host)
    ensures var n, c, h := |run| - 1, run[0].port, ParsePort(run[0].host);
            && Row(run) == Spec(WithIp(run[0].ip, RangeText(h, h + n)), Written(RangeText(c, c + n)), run[0].protocol)
            && ValidPort(c) && ValidPort(c + n) && ValidPort(h) && ValidPort(h + n)
    ensures PlainIp(run[0].ip)
  {
    hide *;
    CanonicalRun(run);
    RowContainer(run);
    PrefixFacts(run[0].ip);
    var a, b := RowHost(run);
    RunHost(run, 0);
    RunHost(run, |run| - 1);
    RunSteps(run, |run| - 1);
  }

  lemma CanonicalRun(run: seq<Visit>)
    requires run != [] && forall i | 0 <= i < |run| :: Keyed(run[i]) && GoodHost(run[i].ip, run[i].host)
    ensures forall i | 0 <= i < |run| :: CanonicalHost(run[i].host)
    ensures PortsValid(run) && ValidPort(run[0].port) && ValidPort(run[|run| - 1].port)
    ensures PlainIp(run[0].ip) && ':' !in run[0].ip
  {
  }

  lemma ReadBackLongRun(run: seq<Visit>)
    requires IsRun(run) && |run| > 1
    requires forall i | 0 <= i < |run| :: Keyed(run[i]) && GoodHost(run[i].ip, run[i].host)
    ensures ExpandSpec(Row(run)) == Ok(PairsOf(run))
  {
    hide *;
    LongRow(run);
    BoundPairs(run);
    ExpandRanges(run[0].ip, run[0].port, ParsePort(run[0].host), |run| - 1, run[0].protocol);
  }

  /** A run of canonical visits reads back as these visits. */
  lemma ReadBackRun(run: seq<Visit>)
    requires run != [] && IsRun(run)
    requires forall i | 0 <= i < |run| :: Keyed(run[i]) && GoodHost(run[i].ip, run[i].host)
    ensures ExpandSpec(Row(run)) == Ok(PairsOf(run))
  {
    hide *;
    if |run| == 1 {
      assert run == [run[0]];
      ReadBackSingle(run[0]);
      PairsOfOne(run[0]);
    } else {
      ReadBackLongRun(run);
    }
  }

  /** p was read back from v: the key is right, and the address is not longer than that of v; if it
      is as long then v was canonical and the address is that of v. */
  ghost predicate Reads(p: Pair, v: Visit) {
    && p.key == v.key
    && IpLength(p.binding.hostIp) <= |v.ip|
    && (IpLength(p.binding.hostIp) == |v.ip| ==> GoodHost(v.ip, v.host) && p.binding.hostIp == Norm(v.ip))
  }

  lemma ExpandedShape(s: Spec)
    requires s.containerPort.Truthy() && ExpandSpec(s).Ok?
    ensures var pairs := ExpandSpec(s).value;
            var container := ParsePortRange(s.containerPort.Display());
            && |pairs| == container.last - container.first + 1
            && (s.hostPort == "" || SplitHost(s.hostPort).Some?)
            && forall i | 0 <= i < |pairs| ::
                 && pairs[i].key == Key(container.first + i, s.protocol)
                 && pairs[i].binding.hostIp == if s.hostPort == "" then None else SplitHost(s.hostPort).value.ip
  {
  }

  /** Whatever a run of keyed visits reads back as, it has their keys in order and one address. */
  lemma ExpandedKeys(run: seq<Visit>, i: nat)
    requires IsRun(run) && (forall i | 0 <= i < |run| :: Keyed(run[i])) && i < |run|
    ensures ExpandSpec(Row(run)).Ok? ==>
              var pairs := ExpandSpec(Row(run)).value;
              && |pairs| == |run|
              && (Row(run).hostPort == "" || SplitHost(Row(run).hostPort).Some?)
              && pairs[i].key == run[i].key
              && pairs[i].binding.hostIp ==
                 if Row(run).hostPort == "" then None else SplitHost(Row(run).hostPort).value.ip
  {
    hide ExpandSpec, SplitHost, Row, CanonicalHost, ParsePortRange;
    RowRange(run);
    RowContainer(run);
    if ExpandSpec(Row(run)).Ok? {
      ExpandedShape(Row(run));
      RunSteps(run, i);
    }
  }

  /** An address without a port is rejected. */
  lemma NoEmptyHost(run: seq<Visit>)
    requires IsRun(run) && PortsValid(run)
    requires Row(run).hostPort != ""
    requires SplitHost(Row(run).hostPort).Some? && SplitHost(Row(run).hostPort).value.port == ""
    ensures ExpandSpec(Row(run)).Err?
  {
    hide Row;
    RowRange(run);
    SplitOnNone("", '-');
  }

  lemma ReadBackAny(run: seq<Visit>, i: nat)
    requires IsRun(run) && (forall i | 0 <= i < |run| :: Keyed(run[i])) && i < |run|
    ensures ExpandSpec(Row(run)).Ok? ==>
              |ExpandSpec(Row(run)).value| == |run| && Reads(ExpandSpec(Row(run)).value[i], run[i])
  {
    if ExpandSpec(Row(run)).Err? {
      return;
    }
    ExpandedKeys(run, i);
    RunSteps(run, i);
    var ip := run[0].ip;
    var a, b := RowHost(run);
    PrefixFacts(ip);
    var text := if |run| == 1 then run[0].host else RangeText(a, b);
    if |run| == 1 {
      CanonicalIsPlain(text);
    } else {
      PlainPorts(a, b);
      CanonicalIsPlain(run[i].host);
      assert run[i].host != "" by {
        assert ParsePort(run[i].host) > 0;
        ParsePortBounds(run[i].host);
      }
    }
    if PlainIp(ip) {
      SplitPlain(ip, text);
      if text == "" && ip != "" {
        NoEmptyHost(run);
        assert false;
      }
    } else if |run| == 1 || ':' !in ip {
      SplitShortens(ip, text);
    } else if PlainIp(Prefix(ip)) {
      SplitPlain(Prefix(ip), text);
    } else {
      SplitShortens(Prefix(ip), text);
    }
  }
}
