/** What the formatted lines say about the token stream. */
module LogLines {
  import opened Wrappers
  import opened Seqs
  import opened Text
  import opened LogFormat

  // ---- Lines: a streaming split

  /** Removing escape codes never adds a line break. */
  ghost predicate AddsNoBreak(k: Config) {
    forall s :: '\n' !in s ==> '\n' !in k.strip(s)
  }

  function JoinLines(pieces: seq<string>): string {
    if pieces == [] then ""
    else if |pieces| == 1 then pieces[0]
    else JoinLines(pieces[..|pieces| - 1]) + "\n" + pieces[|pieces| - 1]
  }

  /** The text of the stream, each line of each text token stripped. */
  function StrippedText(tokens: seq<Token>, k: Config): string {
    if tokens == [] then ""
    else
      var t := tokens[|tokens| - 1];
      StrippedText(tokens[..|tokens| - 1], k) +
      if t.TextToken? then JoinLines(Map(k.strip, SplitOn(t.text, "\n"))) else ""
  }

  function EventText(events: seq<Event>): string {
    if events == [] then ""
    else
      EventText(events[..|events| - 1]) +
      match events[|events| - 1]
      case Break => "\n"
      case Chunk(span) => span.text
  }

  ghost predicate Unbroken(events: seq<Event>) {
    forall i | 0 <= i < |events| :: events[i].Chunk? ==> '\n' !in events[i].span.text
  }

  lemma {:induction false} EventTextAppend(a: seq<Event>, b: seq<Event>)
    ensures EventText(a + b) == EventText(a) + EventText(b)
  {
    if b == [] {
      assert a + b == a;
    } else {
      var n := |b| - 1;
      assert (a + b)[..|a + b| - 1] == a + b[..n];
      EventTextAppend(a, b[..n]);
      var last := match b[n] case Break => "\n" case Chunk(span) => span.text;
      Associative(EventText(a), EventText(b[..n]), last);
    }
  }

  function Texts(lines: seq<seq<Span>>): (r: seq<string>)
    ensures |r| == |lines|
  {
    seq(|lines|, i requires 0 <= i < |lines| => TextOf(lines[i]))
  }

  lemma SplitBreak(lines: seq<seq<Span>>, text: string)
    requires Texts(lines) == SplitOn(text, "\n")
    ensures Texts(lines + [[]]) == SplitOn(text + "\n", "\n")
  {
    hide SplitOn;
    SplitOnAround(text, '\n', "");
    SplitOnNone("", '\n');
    assert text + ['\n'] + "" == text + "\n";
    assert Texts(lines + [[]]) == Texts(lines) + [""];
  }

  lemma SplitChunk(lines: seq<seq<Span>>, text: string, span: Span)
    requires lines != [] && Texts(lines) == SplitOn(text, "\n") && '\n' !in span.text
    ensures var n := |lines| - 1;
            Texts(lines[..n] + [lines[n] + [span]]) == SplitOn(text + span.text, "\n")
  {
    hide SplitOn;
    SplitOnExtended(text, '\n', span.text);
    var n := |lines| - 1;
    assert (lines[n] + [span])[..|lines[n]|] == lines[n];
    assert Texts(lines[..n] + [lines[n] + [span]]) == Texts(lines)[..n] + [TextOf(lines[n]) + span.text];
  }

  /** The lines between the breaks are the pieces of the text between the line breaks. */
  lemma {:induction false} LinesSplitText(events: seq<Event>)
    requires Unbroken(events)
    ensures Texts(LinesOf(events)) == SplitOn(EventText(events), "\n")
  {
    hide SplitOn, Texts;
    if events == [] {
      SplitOnNone("", '\n');
      NoText();
    } else {
      var front := events[..|events| - 1];
      LinesSplitText(front);
      match events[|events| - 1]
      case Break => SplitBreak(LinesOf(front), EventText(front));
      case Chunk(span) => SplitChunk(LinesOf(front), EventText(front), span);
    }
  }

  lemma NoText()
    ensures Texts([[]]) == [""]
  {
  }

  lemma {:induction false} PieceEventsText(pieces: seq<string>, fg: Option<string>, bg: Option<string>, k: Config)
    requires AddsNoBreak(k) && forall i | 0 <= i < |pieces| :: '\n' !in pieces[i]
    ensures EventText(PieceEvents(pieces, fg, bg, k)) == JoinLines(Map(k.strip, pieces))
    ensures Unbroken(PieceEvents(pieces, fg, bg, k))
  {
    if pieces != [] {
      var n := |pieces| - 1;
      var last := Chunk(Span(fg, bg, k.strip(pieces[n])));
      assert '\n' !in pieces[n];
      PieceEventsText(pieces[..n], fg, bg, k);
      assert Map(k.strip, pieces)[..n] == Map(k.strip, pieces[..n]);
      assert EventText([last]) == last.span.text by {
        assert [last][..0] == [];
      }
      if n > 0 {
        EventTextAppend(PieceEvents(pieces[..n], fg, bg, k), [Break, last]);
        assert [Break, last] == [Break] + [last];
        EventTextAppend([Break], [last]);
        assert [Break][..0] == [];
      }
    }
  }

  lemma {:induction false} StreamText(tokens: seq<Token>, k: Config)
    requires AddsNoBreak(k)
    ensures EventText(EventsOf(tokens, k)) == StrippedText(tokens, k)
    ensures Unbroken(EventsOf(tokens, k))
  {
    if tokens != [] {
      var front, t := tokens[..|tokens| - 1], tokens[|tokens| - 1];
      StreamText(front, k);
      if t.TextToken? {
        var pieces := SplitOn(t.text, "\n");
        forall i | 0 <= i < |pieces|
          ensures '\n' !in pieces[i]
        {
          SplitPiecesFree(t.text, '\n', i);
        }
        PieceEventsText(pieces, ForegroundAfter(front, k), BackgroundAfter(front, k), k);
        EventTextAppend(EventsOf(front, k), TokenEvents(front, t, k));
      } else {
        assert EventsOf(front, k) + [] == EventsOf(front, k);
      }
    }
  }

  function LineTexts(logs: seq<Line>): (r: seq<string>)
    ensures |r| == |logs|
  {
    seq(|logs|, i requires 0 <= i < |logs| => logs[i].line)
  }

  /** The emitted lines are the stripped text split on line breaks; only an empty last line is dropped. */
  lemma EmittedLines(tokens: seq<Token>, k: Config)
    requires AddsNoBreak(k)
    ensures var parts := SplitOn(StrippedText(tokens, k), "\n"); var n := |parts| - 1;
            LineTexts(Kept(LinesOf(EventsOf(tokens, k)))) == if parts[n] == "" then parts[..n] else parts
  {
    StreamText(tokens, k);
    var lines := LinesOf(EventsOf(tokens, k));
    LinesSplitText(EventsOf(tokens, k));
    var n := |lines| - 1;
    assert LineTexts(Formatted(lines)) == Texts(lines);
    assert LineTexts(Formatted(lines[..n])) == Texts(lines)[..n];
  }

  lemma {:induction false} JoinLinesFirst(first: string, rest: seq<string>)
    requires rest != []
    ensures JoinLines([first] + rest) == first + "\n" + JoinLines(rest)
  {
    var n := |rest| - 1;
    assert ([first] + rest)[..|rest|] == [first] + rest[..n];
    if n > 0 {
      JoinLinesFirst(first, rest[..n]);
      assert JoinLines([first] + rest) == first + "\n" + (JoinLines(rest[..n]) + "\n" + rest[n]);
    } else {
      assert [first] + rest[..n] == [first];
    }
  }

  lemma {:induction false} JoinOfSplit(s: string)
    ensures JoinLines(SplitOn(s, "\n")) == s
    decreases |s|
  {
    hide SplitOn, IndexFrom, JoinLines;
    var i := IndexOf(s, "\n");
    IndexOfCharNone(s, '\n');
    if i < 0 {
      SplitOnNone(s, '\n');
      JoinOne(s);
    } else {
      BeforeFirst(s, '\n');
      var first, rest := s[..i], s[i + 1..];
      assert s == first + ['\n'] + rest;
      SplitOnChar(first, '\n', rest);
      JoinOfSplit(rest);
      JoinLinesFirst(first, SplitOn(rest, "\n"));
    }
  }

  lemma JoinOne(s: string)
    ensures JoinLines([s]) == s
  {
  }

  /** Stripping looks at each line on its own. */
  ghost predicate StripsByLine(k: Config) {
    forall a, b :: k.strip(a + "\n" + b) == k.strip(a) + "\n" + k.strip(b)
  }

  lemma {:induction false} StripOfJoined(pieces: seq<string>, k: Config)
    requires pieces != [] && StripsByLine(k)
    ensures JoinLines(Map(k.strip, pieces)) == k.strip(JoinLines(pieces))
  {
    var n := |pieces| - 1;
    if n > 0 {
      StripOfJoined(pieces[..n], k);
      assert Map(k.strip, pieces)[..n] == Map(k.strip, pieces[..n]);
    }
  }

  function StrippedTokens(tokens: seq<Token>, k: Config): string {
    if tokens == [] then ""
    else
      var t := tokens[|tokens| - 1];
      StrippedTokens(tokens[..|tokens| - 1], k) + if t.TextToken? then k.strip(t.text) else ""
  }

  /** Stripping line by line gives the whole texts stripped, when stripping looks at each line on its own. */
  lemma {:induction false} StrippedTextIsStrippedTokens(tokens: seq<Token>, k: Config)
    requires StripsByLine(k)
    ensures StrippedText(tokens, k) == StrippedTokens(tokens, k)
  {
    if tokens != [] {
      var t := tokens[|tokens| - 1];
      StrippedTextIsStrippedTokens(tokens[..|tokens| - 1], k);
      if t.TextToken? {
        StripOfJoined(SplitOn(t.text, "\n"), k);
        JoinOfSplit(t.text);
      }
    }
  }

  // ---- Spans: colours

  /** The spans of one text token. */
  function PaintedPieces(pieces: seq<string>, fg: Option<string>, bg: Option<string>, k: Config): (r: seq<Span>)
    ensures |r| == |pieces|
  {
    seq(|pieces|, i requires 0 <= i < |pieces| => Span(fg, bg, k.strip(pieces[i])))
  }

  /** Every line of every text token, with the colours set by the tokens before it. */
  function Painted(tokens: seq<Token>, k: Config): seq<Span> {
    if tokens == [] then []
    else
      var front, t := tokens[..|tokens| - 1], tokens[|tokens| - 1];
      Painted(front, k) +
      if t.TextToken? then
        PaintedPieces(SplitOn(t.text, "\n"), ForegroundAfter(front, k), BackgroundAfter(front, k), k)
      else []
  }

  function Chunks(events: seq<Event>): seq<Span> {
    if events == [] then []
    else
      Chunks(events[..|events| - 1]) +
      match events[|events| - 1]
      case Break => []
      case Chunk(span) => [span]
  }

  lemma {:induction false} ChunksAppend(a: seq<Event>, b: seq<Event>)
    ensures Chunks(a + b) == Chunks(a) + Chunks(b)
  {
    if b == [] {
      assert a + b == a;
    } else {
      var n := |b| - 1;
      assert (a + b)[..|a + b| - 1] == a + b[..n];
      ChunksAppend(a, b[..n]);
    }
  }

  lemma {:induction false} LinesHoldChunks(events: seq<Event>)
    ensures Flatten(LinesOf(events)) == Chunks(events)
  {
    if events == [] {
      assert LinesOf(events) == [] + [[]];
      FlattenSnoc<Span>([], []);
    } else {
      var front := events[..|events| - 1];
      LinesHoldChunks(front);
      var lines := LinesOf(front);
      var n := |lines| - 1;
      match events[|events| - 1]
      case Break =>
        FlattenSnoc(lines, []);
      case Chunk(span) =>
        assert lines == lines[..n] + [lines[n]];
        FlattenSnoc(lines[..n], lines[n]);
        FlattenSnoc(lines[..n], lines[n] + [span]);
    }
  }

  lemma {:induction false} PieceChunks(pieces: seq<string>, fg: Option<string>, bg: Option<string>, k: Config)
    ensures Chunks(PieceEvents(pieces, fg, bg, k)) == PaintedPieces(pieces, fg, bg, k)
  {
    if pieces != [] {
      var n := |pieces| - 1;
      var span := Span(fg, bg, k.strip(pieces[n]));
      PieceChunks(pieces[..n], fg, bg, k);
      assert PaintedPieces(pieces, fg, bg, k) == PaintedPieces(pieces[..n], fg, bg, k) + [span];
      assert Chunks([Chunk(span)]) == [span] by {
        assert [Chunk(span)][..0] == [];
      }
      if n > 0 {
        ChunksAppend(PieceEvents(pieces[..n], fg, bg, k), [Break, Chunk(span)]);
        assert [Break, Chunk(span)] == [Break] + [Chunk(span)];
        ChunksAppend([Break], [Chunk(span)]);
        assert [Break][..0] == [];
      } else {
        assert pieces[..n] == [];
      }
    }
  }

  /** The spans of all lines, in order, are the lines of the text tokens in the colours of their place. */
  lemma {:induction false} SpansArePainted(tokens: seq<Token>, k: Config)
    ensures Flatten(LinesOf(EventsOf(tokens, k))) == Painted(tokens, k)
  {
    LinesHoldChunks(EventsOf(tokens, k));
    if tokens != [] {
      var front, t := tokens[..|tokens| - 1], tokens[|tokens| - 1];
      SpansArePainted(front, k);
      LinesHoldChunks(EventsOf(front, k));
      ChunksAppend(EventsOf(front, k), TokenEvents(front, t, k));
      if t.TextToken? {
        PieceChunks(SplitOn(t.text, "\n"), ForegroundAfter(front, k), BackgroundAfter(front, k), k);
      }
    }
  }

  function SpansIn(logs: seq<Line>): seq<Span> {
    if logs == [] then [] else SpansIn(logs[..|logs| - 1]) + logs[|logs| - 1].spans
  }

  lemma {:induction false} SpansInFormatted(lines: seq<seq<Span>>)
    ensures SpansIn(Formatted(lines)) == Flatten(lines)
  {
    if lines != [] {
      var n := |lines| - 1;
      SpansInFormatted(lines[..n]);
      assert Formatted(lines)[..n] == Formatted(lines[..n]);
    }
  }

  /** Every line is the text of its spans, and the spans emitted are all those painted, but for the
      text-less spans of an empty last line. */
  lemma EmittedSpans(tokens: seq<Token>, k: Config) returns (dropped: seq<Span>)
    ensures var logs := Kept(LinesOf(EventsOf(tokens, k)));
            && (forall i | 0 <= i < |logs| :: logs[i].line == TextOf(logs[i].spans))
            && SpansIn(logs) + dropped == Painted(tokens, k)
            && TextOf(dropped) == ""
  {
    SpansArePainted(tokens, k);
    var lines := LinesOf(EventsOf(tokens, k));
    var n := |lines| - 1;
    SpansInFormatted(lines);
    SpansInFormatted(lines[..n]);
    dropped := if TextOf(lines[n]) == "" then lines[n] else [];
  }

  /** The foreground is what the last token that sets it says; there is none before such a token. */
  lemma {:induction false} ForegroundIsLastSet(tokens: seq<Token>, k: Config, i: int)
    requires -1 <= i < |tokens|
    requires i >= 0 ==> SetsForeground(tokens[i], k).Some?
    requires forall j | i < j < |tokens| :: SetsForeground(tokens[j], k) == None
    ensures ForegroundAfter(tokens, k) == if i < 0 then None else SetsForeground(tokens[i], k).value
  {
    var n := |tokens| - 1;
    if i < n {
      assert SetsForeground(tokens[n], k) == None;
      ForegroundIsLastSet(tokens[..n], k, i);
    }
  }

  lemma {:induction false} BackgroundIsLastSet(tokens: seq<Token>, k: Config, i: int)
    requires -1 <= i < |tokens|
    requires i >= 0 ==> SetsBackground(tokens[i], k).Some?
    requires forall j | i < j < |tokens| :: SetsBackground(tokens[j], k) == None
    ensures BackgroundAfter(tokens, k) == if i < 0 then None else SetsBackground(tokens[i], k).value
  {
    var n := |tokens| - 1;
    if i < n {
      assert SetsBackground(tokens[n], k) == None;
      BackgroundIsLastSet(tokens[..n], k, i);
    }
  }

  // ---- Colours, token by token

  lemma CssIs(c: Rgb)
    ensures Css(c) == "rgb(" + Decimal(c.r) + ", " + Decimal(c.g) + ", " + Decimal(c.b) + ")"
  {
  }

  /** What each token does to the foreground. */
  lemma ForegroundStep(tokens: seq<Token>, t: Token, k: Config)
    requires |k.colors| >= 16
    ensures ForegroundAfter(tokens + [t], k) ==
            match t
            case Foreground(n) => if n < 16 then Some(Css(k.colors[n])) else ForegroundAfter(tokens, k)
            case MoreColor(TrueColor(rgb)) => Some(Css(rgb))
            case MoreColor(Indexed(n)) => Some(if n < |k.colors| then Css(k.colors[n]) else "")
            case MoreColor(Unsupported) => Some("")
            case FgDefault => None
            case Reset => None
            case Background(_) => ForegroundAfter(tokens, k)
            case BgMoreColor(_) => ForegroundAfter(tokens, k)
            case BgDefault => ForegroundAfter(tokens, k)
            case TextToken(_) => ForegroundAfter(tokens, k)
            case Other => ForegroundAfter(tokens, k)
  {
    hide Css;
    assert (tokens + [t])[..|tokens|] == tokens;
  }

  /** What each token does to the background. */
  lemma BackgroundStep(tokens: seq<Token>, t: Token, k: Config)
    requires |k.colors| >= 16
    ensures BackgroundAfter(tokens + [t], k) ==
            match t
            case Background(n) => if n < 16 then Some(Css(k.colors[n])) else BackgroundAfter(tokens, k)
            case BgMoreColor(TrueColor(rgb)) => Some(Css(rgb))
            case BgMoreColor(Indexed(n)) => Some(if n < |k.colors| then Css(k.colors[n]) else "")
            case BgMoreColor(Unsupported) => Some("")
            case BgDefault => None
            case Reset => None
            case Foreground(_) => BackgroundAfter(tokens, k)
            case MoreColor(_) => BackgroundAfter(tokens, k)
            case FgDefault => BackgroundAfter(tokens, k)
            case TextToken(_) => BackgroundAfter(tokens, k)
            case Other => BackgroundAfter(tokens, k)
  {
    hide Css;
    assert (tokens + [t])[..|tokens|] == tokens;
  }

  /** A stream starts without colours. */
  lemma NoColourYet(k: Config)
    ensures ForegroundAfter([], k) == None && BackgroundAfter([], k) == None
  {
  }
}
