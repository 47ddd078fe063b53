/** What a merged row says, and what preparePortBindings reads back from it. */
module PortRuns {
  import opened Seqs
  import opened Text
  import opened PortSpecs
  import opened PortGroups

  ghost predicate IsRun(run: seq<Visit>) {
    run != [] && forall i | 0 < i < |run| :: Joinable(run[i - 1], run[i])
  }

  lemma {:induction false} RunSteps(run: seq<Visit>, i: nat)
    requires IsRun(run) && i < |run|
    ensures run[i].protocol == run[0].protocol && run[i].ip == run[0].ip
    ensures run[i].port == run[0].port + i
    ensures |run| > 1 ==> ParsePort(run[i].host) == ParsePort(run[0].host) + i && ParsePort(run[0].host) > 0
  {
    if i > 0 {
      RunSteps(run, i - 1);
      assert Joinable(run[i - 1], run[i]);
    } else if |run| > 1 {
      assert Joinable(run[0], run[1]);
    }
  }

  /** No run could have been continued by its right neighbour. */
  ghost predicate Separated(segs: seq<seq<Visit>>) {
    && (forall i | 0 <= i < |segs| :: IsRun(segs[i]))
    && (forall i | 0 < i < |segs| :: !Joinable(segs[i - 1][|segs[i - 1]| - 1], segs[i][0]))
  }

  lemma SeparatedSnoc(segs: seq<seq<Visit>>, v: Visit)
    requires Separated(segs)
    requires segs != [] ==> !Joinable(segs[|segs| - 1][|segs[|segs| - 1]| - 1], v)
    ensures Separated(segs + [[v]])
  {
    assert IsRun([v]);
  }

  lemma SeparatedExtend(segs: seq<seq<Visit>>, v: Visit)
    requires Separated(segs) && segs != []
    requires Joinable(segs[|segs| - 1][|segs[|segs| - 1]| - 1], v)
    ensures Separated(segs[..|segs| - 1] + [segs[|segs| - 1] + [v]])
  {
    var n := |segs| - 1;
    var run := segs[n];
    var wide := run + [v];
    assert IsRun(wide);
    var r := segs[..n] + [wide];
    forall i | 0 < i < |r|
      ensures !Joinable(r[i - 1][|r[i - 1]| - 1], r[i][0])
    {
      assert r[i - 1] == segs[i - 1];
      assert r[i][0] == segs[i][0];
    }
  }

  /** The segments are runs, in order they make up the visits, and no two neighbours of them could
      still be joined. */
  lemma {:induction false} SegmentsAreMaximalRuns(vs: seq<Visit>)
    ensures Flatten(Segments(vs)) == vs
    ensures Separated(Segments(vs))
  {
    if vs != [] {
      var front, last := vs[..|vs| - 1], vs[|vs| - 1];
      assert vs == front + [last];
      SegmentsAreMaximalRuns(front);
      SegmentsSnoc(front, last);
      var segs := Segments(front);
      if Continues(front, last) {
        SeparatedExtend(segs, last);
        FlattenExtend(segs, last);
      } else {
        SeparatedSnoc(segs, last);
        FlattenSnoc(segs, [last]);
      }
    }
  }

  lemma FlattenExtend(segs: seq<seq<Visit>>, v: Visit)
    requires segs != []
    ensures Flatten(segs[..|segs| - 1] + [segs[|segs| - 1] + [v]]) == Flatten(segs) + [v]
  {
    var init, run := segs[..|segs| - 1], segs[|segs| - 1];
    FlattenSnoc(init, run + [v]);
    Associative(Flatten(init), run, [v]);
  }

  // ---- Plain text: digits and dashes only

  predicate Plain(s: string) {
    forall i | 0 <= i < |s| :: IsDigit(s[i]) || s[i] == '-'
  }

  lemma PlainPorts(a: nat, b: nat)
    ensures Plain(Decimal(a)) && Plain(RangeText(a, b)) && '-' !in Decimal(a)
  {
    ValueOfDecimal(a);
    ValueOfDecimal(b);
  }

  lemma ParseRangeText(a: nat, b: nat)
    ensures ParsePortRange(RangeText(a, b)) == PortRange(ParsePort(Decimal(a)), ParsePort(Decimal(b)))
    ensures ParsePortRange(Decimal(a)) == PortRange(ParsePort(Decimal(a)), ParsePort(Decimal(a)))
  {
    PlainPorts(a, b);
    PlainPorts(b, a);
    SplitOnNone(Decimal(a), '-');
    SplitOnNone(Decimal(b), '-');
    SplitOnChar(Decimal(a), '-', Decimal(b));
    assert RangeText(a, b) == Decimal(a) + ['-'] + Decimal(b);
  }

  /** createPortRange on an ascending range of valid ports moves its upper end. */
  lemma ExtendRange(ip: string, a: nat, b: nat, port: nat)
    requires ':' !in ip && ValidPort(a) && ValidPort(b) && a <= b <= port
    ensures CreatePortRange(WithIp(ip, RangeText(a, b)), port) == WithIp(ip, RangeText(a, port))
  {
    PlainPorts(a, b);
    ParseRangeText(a, b);
    ParsePortOfDecimal(a);
    ParsePortOfDecimal(b);
    ColonSplit(ip, RangeText(a, b));
  }

  /** The first widening of a row that holds the single host port h. */
  lemma StartRange(ip: string, host: string, port: nat)
    requires ':' !in ip && 0 < ParsePort(host) <= port
    ensures CreatePortRange(WithIp(ip, host), port) == WithIp(ip, RangeText(ParsePort(host), port))
  {
    ParsePortBounds(host);
    ColonSplit(ip, host);
    SplitOnNone(host, '-');
  }

  /** On any range of valid ports, and with any port, createPortRange gives the least range that holds
      both. */
  lemma RangeWidened(ip: string, a: nat, b: nat, port: nat)
    requires ':' !in ip && ValidPort(a) && ValidPort(b)
    ensures CreatePortRange(WithIp(ip, RangeText(a, b)), port) ==
            WithIp(ip, RangeText(if port < a then port else a, if port > b then port else b))
  {
    hide ParsePortRange, RangeText;
    PlainPorts(a, b);
    ParseRangeText(a, b);
    ParsePortOfDecimal(a);
    ParsePortOfDecimal(b);
    ColonSplit(ip, RangeText(a, b));
  }

  lemma ColonSplit(ip: string, text: string)
    requires ':' !in ip && Plain(text)
    ensures var t := WithIp(ip, text);
            var colon := IndexOf(t, ":");
            if ip == "" then colon < 0 && t == text else colon == |ip| && t[..colon] == ip && t[colon + 1..] == text
  {
    if ip == "" {
      IndexOfCharNone(text, ':');
    } else {
      IndexOfChar(ip, ':', text);
      assert ip + [':'] + text == WithIp(ip, text);
    }
  }

  /** The part of a host address that createPortRange keeps. */
  function Prefix(ip: string): string {
    var colon := IndexOf(ip, ":");
    IndexFromIsFirst(ip, ":", 0);
    if colon < 0 then ip else ip[..colon]
  }

  lemma PrefixFacts(ip: string)
    ensures ':' !in Prefix(ip) && |Prefix(ip)| <= |ip|
    ensures Prefix(ip) == ip <==> ':' !in ip
    ensures ':' in ip ==> |Prefix(ip)| < |ip|
  {
    IndexOfCharNone(ip, ':');
    if ':' in ip {
      BeforeFirst(ip, ':');
    }
  }

  /** With a colon in the address, the address is cut and the range is parsed from the wrong text,
      but what comes out is still a range behind the cut address. */
  lemma CutRange(text: string, ip: string, rest: string, port: nat)
    requires ':' in ip && text == ip + rest
    ensures exists a: nat, b: nat :: CreatePortRange(text, port) == WithIp(Prefix(ip), RangeText(a, b))
  {
    IndexOfCharNone(ip, ':');
    BeforeFirst(ip, ':');
    var k := IndexOf(ip, ":");
    var tail := ip[k + 1..] + rest;
    assert text == ip[..k] + [':'] + tail;
    IndexOfChar(ip[..k], ':', tail);
    assert text[..k] == Prefix(ip);
    var r := ParsePortRange(text[k + 1..]);
    var a := if r.first < port then r.first else port;
    var b := if r.last > port then r.last else port;
    assert CreatePortRange(text, port) == WithIp(Prefix(ip), RangeText(a, b));
  }

  lemma AnyRange(ip: string, a: nat, b: nat, port: nat)
    requires ':' !in ip
    ensures exists x: nat, y: nat :: CreatePortRange(WithIp(ip, RangeText(a, b)), port) == WithIp(ip, RangeText(x, y))
  {
    PlainPorts(a, b);
    ColonSplit(ip, RangeText(a, b));
    var r := ParsePortRange(RangeText(a, b));
    var x := if r.first < port then r.first else port;
    var y := if r.last > port then r.last else port;
    assert CreatePortRange(WithIp(ip, RangeText(a, b)), port) == WithIp(ip, RangeText(x, y));
  }

  ghost predicate PortsValid(run: seq<Visit>) {
    forall i | 0 <= i < |run| :: ValidPort(run[i].port)
  }

  /** The container port and the protocol of a merged row. */
  lemma {:induction false} RowContainer(run: seq<Visit>)
    requires IsRun(run) && PortsValid(run)
    ensures Row(run).protocol == run[0].protocol
    ensures Row(run).containerPort ==
            if |run| == 1 then Number(run[0].port) else Written(RangeText(run[0].port, run[|run| - 1].port))
  {
    if |run| > 1 {
      var front, last := run[..|run| - 1], run[|run| - 1];
      RowContainer(front);
      RunSteps(run, |run| - 1);
      RunSteps(run, |run| - 2);
      var c := front[0].port;
      if |front| == 1 {
        ParsePortOfDecimal(c);
        StartRange("", Decimal(c), last.port);
      } else {
        ExtendRange("", c, front[|front| - 1].port, last.port);
      }
    }
  }

  /** The host side of a merged row. */
  lemma {:induction false} RowHost(run: seq<Visit>) returns (a: nat, b: nat)
    requires IsRun(run)
    ensures |run| == 1 ==> Row(run).hostPort == WithIp(run[0].ip, run[0].host)
    ensures |run| > 1 ==> Row(run).hostPort == WithIp(Prefix(run[0].ip), RangeText(a, b))
    ensures |run| > 1 && ':' !in run[0].ip ==> a == ParsePort(run[0].host) && b == ParsePort(run[|run| - 1].host)
  {
    a, b := 0, 0;
    if |run| > 1 {
      var front, last := run[..|run| - 1], run[|run| - 1];
      var ip := run[0].ip;
      RunSteps(run, |run| - 1);
      RunSteps(run, |run| - 2);
      PrefixFacts(ip);
      a, b := RowHost(front);
      var port := ParsePort(last.host);
      if ':' !in ip {
        if |front| == 1 {
          StartRange(ip, front[0].host, port);
        } else {
          ParsePortBounds(run[0].host);
          ParsePortBounds(front[|front| - 1].host);
          ExtendRange(ip, a, b, port);
        }
        a, b := ParsePort(run[0].host), port;
      } else if |front| == 1 {
        CutRange(WithIp(ip, front[0].host), ip, ":" + front[0].host, port);
        a, b :| CreatePortRange(WithIp(ip, front[0].host), port) == WithIp(Prefix(ip), RangeText(a, b));
      } else {
        var text := WithIp(Prefix(ip), RangeText(a, b));
        AnyRange(Prefix(ip), a, b, port);
        a, b :| CreatePortRange(text, port) == WithIp(Prefix(ip), RangeText(a, b));
      }
    }
  }
}
