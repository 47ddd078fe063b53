/** What a row of numbers stands for, read from its text alone: every way of writing the host, and every
    way of being rejected. */
module PortRows {
  import opened Wrappers
  import opened Text
  import opened PortSpecs
  import opened PortRuns

  /** The host address in front of the host port: none, as it is, or in brackets. */
  datatype Host = Anywhere | At(ip: string) | Bracketed(ip: string)
  {
    function Before(text: string): string {
      match this
      case Anywhere => text
      case At(ip) => ip + ":" + text
      case Bracketed(ip) => "[" + ip + "]:" + text
    }

    function Ip(): Option<string> {
      match this
      case Anywhere => None
      case At(ip) => Some(ip)
      case Bracketed(ip) => Some(ip)
    }

    /** In brackets an address may contain colons, otherwise not. */
    predicate Readable() {
      match this
      case Anywhere => true
      case At(ip) => ':' !in ip && '[' !in ip
      case Bracketed(ip) => ']' !in ip
    }
  }

  datatype Ports = One(n: nat) | Two(a: nat, b: nat)
  {
    function Text(): string {
      match this
      case One(n) => Decimal(n)
      case Two(a, b) => Decimal(a) + "-" + Decimal(b)
    }

    function First(): nat {
      match this
      case One(n) => n
      case Two(a, _) => a
    }

    function Last(): nat {
      match this
      case One(n) => n
      case Two(_, b) => b
    }

    predicate Ascending() {
      1 <= First() <= Last() <= 65535
    }
  }

  // ---- Separating the address

  lemma NoBracketEnd(s: string, j: int)
    requires ']' !in s
    ensures !OccursAt(s, "]:", j)
  {
    TwoChars(s, ']', ':', j);
  }

  lemma BracketEnd(ip: string, rest: string)
    requires ']' !in ip
    ensures IndexOf("[" + ip + "]:" + rest, "]:") == |ip| + 1
  {
    var s, n := "[" + ip + "]:" + rest, |ip| + 1;
    TwoChars(s, ']', ':', n);
    forall j | 0 <= j < n
      ensures !OccursAt(s, "]:", j)
    {
      TwoChars(s, ']', ':', j);
      assert s[j] == if j == 0 then '[' else ip[j - 1];
    }
    IndexOfIs(s, "]:", n);
  }

  lemma DropBracket(ip: string)
    ensures RemoveFirst("[" + ip, '[') == ip
  {
    CharOccurs("[" + ip, '[', 0);
    IndexOfIs("[" + ip, "[", 0);
  }

  /** Brackets: the text between them is the address, and the text up to the next bracket is the port. */
  lemma SplitBracketed(ip: string, rest: string)
    requires ']' !in ip
    ensures var h := SplitHost("[" + ip + "]:" + rest);
            h.Some? && h.value.ip == Some(ip) && h.value.port == SplitOn(rest, "]:")[0]
  {
    var s := "[" + ip + "]:" + rest;
    BracketEnd(ip, rest);
    DropBracket(ip);
    assert s[..|ip| + 1] == "[" + ip && s[|ip| + 3..] == rest;
    assert s[0] == '[';
  }

  lemma PlainHasNoEnd(text: string)
    requires Plain(text)
    ensures SplitOn(text, "]:") == [text]
  {
    IndexFromIsFirst(text, "]:", 0);
    NoBracketEnd(text, IndexOf(text, "]:"));
  }

  lemma SplitReadable(h: Host, text: string)
    requires h.Readable() && Plain(text)
    ensures SplitHost(h.Before(text)) == Some(HostParts(h.Ip(), text))
  {
    match h
    case Anywhere =>
    case At(ip) =>
      var s := ip + [':'] + text;
      assert s == ip + ":" + text;
      SplitOnChar(ip, ':', text);
      SplitOnNone(text, ':');
      assert s[|ip|] == ':' && '[' !in s;
    case Bracketed(ip) =>
      SplitBracketed(ip, text);
      PlainHasNoEnd(text);
  }

  // ---- Numbers

  lemma PortsText(p: Ports)
    ensures Plain(p.Text()) && p.Text() != ""
    ensures p.Text()[0] != '['
    ensures ParsePortRange(p.Text()) ==
            PortRange(if p.First() <= 65535 then p.First() else 0, if p.Last() <= 65535 then p.Last() else 0)
  {
    PlainPorts(p.First(), p.Last());
    ParseRangeText(p.First(), p.Last());
    ParsePortOfDecimal(p.First());
    ParsePortOfDecimal(p.Last());
    ValueOfDecimal(p.First());
  }

  /** The bindings of a row of numbers. */
  function BindingsOf(h: Host, container: Ports, host: Ports, protocol: string): seq<Pair>
    requires container.First() <= container.Last()
  {
    seq(container.Last() - container.First() + 1, i requires 0 <= i =>
      Pair(Decimal(container.First() + i) + "/" + protocol,
           Binding(h.Ip(),
                   if container.First() == container.Last() && host.First() != host.Last()
                   then Decimal(host.First()) + "-" + Decimal(host.Last())
                   else Decimal(host.First() + i))))
  }

  lemma BindIs(h: Host, container: Ports, host: Ports, protocol: string)
    requires container.Ascending() && host.Ascending()
    ensures Bind(PortRange(container.First(), container.Last()), PortRange(host.First(), host.Last()), h.Ip(), protocol)
            == BindingsOf(h, container, host, protocol)
  {
    hide Decimal, Key, HostText;
    var c, r := PortRange(container.First(), container.Last()), PortRange(host.First(), host.Last());
    forall i | 0 <= i <= c.last - c.first
      ensures Bind(c, r, h.Ip(), protocol)[i] == BindingsOf(h, container, host, protocol)[i]
    {
      KeyText(c.first + i, protocol);
      HostTextIs(container, host, i);
    }
  }

  lemma KeyText(port: nat, protocol: string)
    ensures Key(port, protocol) == Decimal(port) + "/" + protocol
  {
    hide Decimal;
  }

  lemma HostTextIs(container: Ports, host: Ports, i: nat)
    requires host.Ascending()
    ensures HostText(PortRange(container.First(), container.Last()), PortRange(host.First(), host.Last()), i) ==
            if container.First() == container.Last() && host.First() != host.Last()
            then Decimal(host.First()) + "-" + Decimal(host.Last())
            else Decimal(host.First() + i)
  {
    hide Decimal;
  }

  /** A row of numbers is accepted iff both ranges ascend within 1..65535 and are of one width, or there
      is a single container port; the error quotes the side at fault. Accepted, it binds port by port,
      or all host ports to the one container port, at the address written. */
  lemma NumericRow(h: Host, container: Ports, host: Ports, row: Spec)
    requires h.Readable() && row.hostPort == h.Before(host.Text())
    requires row.containerPort.Truthy() && row.containerPort.Display() == container.Text()
    ensures ExpandSpec(row) ==
            if !container.Ascending() then Err(container.Text())
            else if !host.Ascending() then Err(host.Text())
            else if container.First() != container.Last() && container.Last() - container.First() != host.Last() - host.First()
            then Err(host.Text())
            else Ok(BindingsOf(h, container, host, row.protocol))
  {
    hide ParsePortRange, SplitHost, Bind, BindingsOf, Decimal;
    PortsText(container);
    PortsText(host);
    SplitReadable(h, host.Text());
    assert row.hostPort != "";
    if container.Ascending() && host.Ascending() {
      BindIs(h, container, host, row.protocol);
    }
  }

  /** Whatever the container ports are, an address in front of a host port changes nothing but the
      address of the bindings: the row is accepted iff it is without, and with the same error if not. */
  lemma HostInFront(h: Host, text: string, container: ContainerPort, protocol: string)
    requires h.Readable() && Plain(text) && text != ""
    ensures var r, plain := ExpandSpec(Spec(h.Before(text), container, protocol)), ExpandSpec(Spec(text, container, protocol));
            && (plain.Err? ==> r == plain)
            && (plain.Ok? ==>
                  && r.Ok? && |r.value| == |plain.value|
                  && forall i | 0 <= i < |r.value| ::
                       && r.value[i].key == plain.value[i].key
                       && r.value[i].binding == Binding(h.Ip(), plain.value[i].binding.hostPort))
  {
    hide ParsePortRange, SplitHost, HostText, Key;
    SplitReadable(h, text);
    SplitReadable(Anywhere, text);
    assert h.Before(text) != "";
  }

  function BindingsWithoutHost(container: Ports, protocol: string): seq<Pair>
    requires container.First() <= container.Last()
  {
    seq(container.Last() - container.First() + 1, i requires 0 <= i =>
      Pair(Decimal(container.First() + i) + "/" + protocol, Binding(None, "")))
  }

  /** Without a host port, the container ports are bound to any host port at any address. */
  lemma RowWithoutHost(container: Ports, row: Spec)
    requires row.hostPort == ""
    requires row.containerPort.Truthy() && row.containerPort.Display() == container.Text()
    ensures ExpandSpec(row) ==
            if !container.Ascending() then Err(container.Text()) else Ok(BindingsWithoutHost(container, row.protocol))
  {
    hide ParsePortRange, Decimal, HostText, Key;
    PortsText(container);
    if container.Ascending() {
      var c := PortRange(container.First(), container.Last());
      forall i | 0 <= i <= c.last - c.first
        ensures Bind(c, PortRange(0, 0), None, row.protocol)[i] == BindingsWithoutHost(container, row.protocol)[i]
      {
        NoHostText(c, i);
        KeyText(container.First() + i, row.protocol);
      }
      assert Bind(c, PortRange(0, 0), None, row.protocol) == BindingsWithoutHost(container, row.protocol);
    }
  }

  lemma NoHostText(container: PortRange, i: nat)
    ensures HostText(container, PortRange(0, 0), i) == ""
  {
  }

  /** An empty row binds nothing. */
  lemma EmptyRow(row: Spec)
    requires row.containerPort == Number(0) || row.containerPort == Written("")
    ensures ExpandSpec(row) == Ok([])
  {
  }

  /** A bracket that is not closed in front of a colon makes the row invalid; the error quotes the
      container port. */
  lemma UnclosedBracket(row: Spec)
    requires '[' in row.hostPort && forall j :: !OccursAt(row.hostPort, "]:", j)
    requires row.containerPort.Truthy()
    ensures ExpandSpec(row) == Err(row.containerPort.Display())
  {
    hide ParsePortRange;
    IndexFromIsFirst(row.hostPort, "]:", 0);
    assert SplitOn(row.hostPort, "]:") == [row.hostPort];
  }

  /** Only the first two parts count: what follows a second colon, or a second closing bracket, is ignored. */
  lemma RestIsIgnored(ip: string, text: string, rest: string, container: ContainerPort, protocol: string)
    requires ':' !in ip && ':' !in text && '[' !in ip + text + rest
    ensures ExpandSpec(Spec(ip + ":" + text + ":" + rest, container, protocol)) == ExpandSpec(Spec(ip + ":" + text, container, protocol))
  {
    hide ParsePortRange, Bind, SplitHost;
    SplitFirstTwo(ip, text, rest);
  }

  lemma SplitFirstTwo(ip: string, text: string, rest: string)
    requires ':' !in ip && ':' !in text && '[' !in ip + text + rest
    ensures SplitHost(ip + ":" + text + ":" + rest) == SplitHost(ip + ":" + text) == Some(HostParts(Some(ip), text))
    ensures ip + ":" + text + ":" + rest != "" && ip + ":" + text != ""
  {
    hide SplitOn;
    var a, b := ip + ":" + text + ":" + rest, ip + ":" + text;
    assert a == ip + [':'] + (text + ":" + rest) && b == ip + [':'] + text;
    assert text + ":" + rest == text + [':'] + rest;
    SplitOnChar(ip, ':', text + ":" + rest);
    SplitOnChar(text, ':', rest);
    SplitOnChar(ip, ':', text);
    SplitOnNone(text, ':');
    assert a[|ip|] == ':' && b[|ip|] == ':';
    assert '[' !in a && '[' !in b by {
      assert forall c :: c in a ==> c in ip + text + rest || c == ':';
      assert forall c :: c in b ==> c in ip + text + rest || c == ':';
    }
  }

  lemma BracketRestIsIgnored(ip: string, text: string, rest: string, container: ContainerPort, protocol: string)
    requires ']' !in ip && ']' !in text
    ensures ExpandSpec(Spec("[" + ip + "]:" + text + "]:" + rest, container, protocol)) ==
            ExpandSpec(Spec("[" + ip + "]:" + text, container, protocol))
  {
    hide ParsePortRange, Bind, SplitHost;
    SplitBracketed(ip, text + "]:" + rest);
    SplitBracketed(ip, text);
    FirstPart(text, rest);
    assert "[" + ip + "]:" + text + "]:" + rest == "[" + ip + "]:" + (text + "]:" + rest);
  }

  lemma FirstPart(text: string, rest: string)
    requires ']' !in text
    ensures SplitOn(text + "]:" + rest, "]:")[0] == text == SplitOn(text, "]:")[0]
  {
    var s := text + "]:" + rest;
    TwoChars(s, ']', ':', |text|);
    forall j | 0 <= j < |text|
      ensures !OccursAt(s, "]:", j)
    {
      TwoChars(s, ']', ':', j);
      assert s[j] == text[j];
    }
    IndexOfIs(s, "]:", |text|);
    IndexFromIsFirst(text, "]:", 0);
    NoBracketEnd(text, IndexOf(text, "]:"));
  }

  // ---- The first error

  /** The error of the whole call is that of the first row that is not accepted. */
  lemma {:induction false} FirstErrorWins(rows: seq<Spec>, n: nat)
    requires n < |rows| && ExpandSpec(rows[n]).Err?
    requires forall i | 0 <= i < n :: ExpandSpec(rows[i]).Ok?
    ensures Prepare(rows) == Err(ExpandSpec(rows[n]).error)
  {
    hide ExpandSpec;
    ExpandAllCounts(rows[..n]);
    assert forall s :: s in rows[..n] ==> ExpandSpec(s).Ok?;
    ExpandAllStep(rows, n);
  }
}
