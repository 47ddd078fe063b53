/** Splitting a stream of log tokens into coloured lines (app/docker/helpers/logHelper.js). */
module LogFormat {
  import opened Wrappers
  import opened Text

  datatype Rgb = Rgb(r: nat, g: nat, b: nat)

  /** The arguments of an extended colour: three channels, an index into the colour table, or a mode
      that is not supported. */
  datatype Extended = TrueColor(rgb: Rgb) | Indexed(n: nat) | Unsupported

  /** The tokens of the ANSI tokenizer; basic colours are numbered as in the colour table. */
  datatype Token =
    | Foreground(n: nat) | MoreColor(extended: Extended) | FgDefault
    | Background(n: nat) | BgMoreColor(extended: Extended) | BgDefault
    | Reset | TextToken(text: string) | Other

  datatype Span = Span(foregroundColor: Option<string>, backgroundColor: Option<string>, text: string)

  datatype Line = Line(line: string, spans: seq<Span>)

  /** The external colour table, and the removal of the escape codes the tokenizer leaves. */
  datatype Config = Config(colors: seq<Rgb>, strip: string -> string)

  function Css(c: Rgb): string {
    "rgb(" + Decimal(c.r) + ", " + Decimal(c.g) + ", " + Decimal(c.b) + ")"
  }

  function ExtendedColor(e: Extended, k: Config): string {
    match e
    case TrueColor(rgb) => Css(rgb)
    case Indexed(n) => if n < |k.colors| then Css(k.colors[n]) else ""
    case Unsupported => ""
  }

  // ---- Specification: colours

  /** The foreground set by a token, if it sets one. */
  function SetsForeground(t: Token, k: Config): Option<Option<string>> {
    match t
    case Foreground(n) => if n < 16 && n < |k.colors| then Some(Some(Css(k.colors[n]))) else None
    case MoreColor(e) => Some(Some(ExtendedColor(e, k)))
    case FgDefault => Some(None)
    case Reset => Some(None)
    case _ => None
  }

  function SetsBackground(t: Token, k: Config): Option<Option<string>> {
    match t
    case Background(n) => if n < 16 && n < |k.colors| then Some(Some(Css(k.colors[n]))) else None
    case BgMoreColor(e) => Some(Some(ExtendedColor(e, k)))
    case BgDefault => Some(None)
    case Reset => Some(None)
    case _ => None
  }

  /** The colour left by the last token that set one. */
  function ForegroundAfter(tokens: seq<Token>, k: Config): Option<string> {
    if tokens == [] then None
    else
      match SetsForeground(tokens[|tokens| - 1], k)
      case Some(c) => c
      case None => ForegroundAfter(tokens[..|tokens| - 1], k)
  }

  function BackgroundAfter(tokens: seq<Token>, k: Config): Option<string> {
    if tokens == [] then None
    else
      match SetsBackground(tokens[|tokens| - 1], k)
      case Some(c) => c
      case None => BackgroundAfter(tokens[..|tokens| - 1], k)
  }

  // ---- Specification: lines

  datatype Event = Chunk(span: Span) | Break

  /** The pieces of one text token, with a break between each two. */
  function PieceEvents(pieces: seq<string>, fg: Option<string>, bg: Option<string>, k: Config): seq<Event> {
    if pieces == [] then []
    else
      var last := Chunk(Span(fg, bg, k.strip(pieces[|pieces| - 1])));
      if |pieces| == 1 then [last]
      else PieceEvents(pieces[..|pieces| - 1], fg, bg, k) + [Break, last]
  }

  function TokenEvents(before: seq<Token>, t: Token, k: Config): seq<Event> {
    if t.TextToken? then PieceEvents(SplitOn(t.text, "\n"), ForegroundAfter(before, k), BackgroundAfter(before, k), k) else []
  }

  function EventsOf(tokens: seq<Token>, k: Config): seq<Event> {
    if tokens == [] then []
    else
      var front := tokens[..|tokens| - 1];
      EventsOf(front, k) + TokenEvents(front, tokens[|tokens| - 1], k)
  }

  /** The spans between the breaks. */
  function LinesOf(events: seq<Event>): (lines: seq<seq<Span>>)
    ensures lines != []
  {
    if events == [] then [[]]
    else
      var lines := LinesOf(events[..|events| - 1]);
      match events[|events| - 1]
      case Break => lines + [[]]
      case Chunk(span) => lines[..|lines| - 1] + [lines[|lines| - 1] + [span]]
  }

  function TextOf(spans: seq<Span>): string {
    if spans == [] then "" else TextOf(spans[..|spans| - 1]) + spans[|spans| - 1].text
  }

  function Formatted(lines: seq<seq<Span>>): (r: seq<Line>)
    ensures |r| == |lines|
  {
    seq(|lines|, i requires 0 <= i < |lines| => Line(TextOf(lines[i]), lines[i]))
  }

  /** All lines but an empty last one. */
  function Kept(lines: seq<seq<Span>>): seq<Line>
    requires lines != []
  {
    if TextOf(lines[|lines| - 1]) == "" then Formatted(lines[..|lines| - 1]) else Formatted(lines)
  }

  // ---- The loop

  /** The open line: the spans since the last break. */
  ghost predicate Open(events: seq<Event>, done: seq<Line>, line: string, spans: seq<Span>) {
    var lines := LinesOf(events);
    && done == Formatted(lines[..|lines| - 1])
    && spans == lines[|lines| - 1]
    && line == TextOf(spans)
  }

  lemma OpenBreak(events: seq<Event>, done: seq<Line>, line: string, spans: seq<Span>)
    requires Open(events, done, line, spans)
    ensures Open(events + [Break], done + [Line(line, spans)], "", [])
  {
    assert (events + [Break])[..|events|] == events;
    var lines := LinesOf(events);
    assert (lines + [[]])[..|lines|] == lines;
    assert lines == lines[..|lines| - 1] + [spans];
    assert Formatted(lines) == done + [Line(line, spans)];
  }

  lemma OpenChunk(events: seq<Event>, done: seq<Line>, line: string, spans: seq<Span>, s: Span)
    requires Open(events, done, line, spans)
    ensures Open(events + [Chunk(s)], done, line + s.text, spans + [s])
  {
    assert (events + [Chunk(s)])[..|events|] == events;
    assert (spans + [s])[..|spans|] == spans;
    var lines := LinesOf(events);
    var lines' := lines[..|lines| - 1] + [spans + [s]];
    assert LinesOf(events + [Chunk(s)]) == lines';
    assert lines'[..|lines'| - 1] == lines[..|lines| - 1];
  }

  /** One text token. */
  method AppendText(text: string, fg: Option<string>, bg: Option<string>, k: Config,
      done0: seq<Line>, line0: string, spans0: seq<Span>, ghost events: seq<Event>)
    returns (done: seq<Line>, line: string, spans: seq<Span>)
    requires Open(events, done0, line0, spans0)
    ensures Open(events + PieceEvents(SplitOn(text, "\n"), fg, bg, k), done, line, spans)
  {
    hide Open, SplitOn;
    done, line, spans := done0, line0, spans0;
    var tokenLines := SplitOn(text, "\n");
    ghost var seen := events;
    for i := 0 to |tokenLines|
      invariant seen == events + PieceEvents(tokenLines[..i], fg, bg, k)
      invariant Open(seen, done, line, spans)
    {
      if i != 0 {
        OpenBreak(seen, done, line, spans);
        seen := seen + [Break];
        done := done + [Line(line, spans)];
        line := "";
        spans := [];
      }
      var piece := k.strip(tokenLines[i]);
      OpenChunk(seen, done, line, spans, Span(fg, bg, piece));
      seen := seen + [Chunk(Span(fg, bg, piece))];
      line := line + piece;
      spans := spans + [Span(fg, bg, piece)];
      assert tokenLines[..i + 1][..i] == tokenLines[..i];
    }
    assert tokenLines[..|tokenLines|] == tokenLines;
  }

  method FormatLogs(tokens: seq<Token>, k: Config) returns (formattedLogs: seq<Line>)
    ensures formattedLogs == Kept(LinesOf(EventsOf(tokens, k)))
  {
    hide Open, PieceEvents;
    formattedLogs := [];
    var foregroundColor: Option<string> := None;
    var backgroundColor: Option<string> := None;
    var line: string := "";
    var spans: seq<Span> := [];
    NothingOpen();
    for n := 0 to |tokens|
      invariant foregroundColor == ForegroundAfter(tokens[..n], k)
      invariant backgroundColor == BackgroundAfter(tokens[..n], k)
      invariant Open(EventsOf(tokens[..n], k), formattedLogs, line, spans)
    {
      var token := tokens[n];
      assert tokens[..n + 1][..n] == tokens[..n];
      assert !token.TextToken? ==> EventsOf(tokens[..n + 1], k) == EventsOf(tokens[..n], k);
      match token
      case Foreground(c) =>
        if c < 16 && c < |k.colors| {
          foregroundColor := Some(Css(k.colors[c]));
        }
      case MoreColor(e) =>
        foregroundColor := Some(ExtendedColor(e, k));
      case FgDefault =>
        foregroundColor := None;
      case Background(c) =>
        if c < 16 && c < |k.colors| {
          backgroundColor := Some(Css(k.colors[c]));
        }
      case BgMoreColor(e) =>
        backgroundColor := Some(ExtendedColor(e, k));
      case BgDefault =>
        backgroundColor := None;
      case Reset =>
        foregroundColor := None;
        backgroundColor := None;
      case TextToken(text) =>
        formattedLogs, line, spans := AppendText(text, foregroundColor, backgroundColor, k, formattedLogs, line, spans, EventsOf(tokens[..n], k));
      case Other =>
    }
    assert tokens[..|tokens|] == tokens;
    KeepOpen(EventsOf(tokens, k), formattedLogs, line, spans);
    if line != "" {
      formattedLogs := formattedLogs + [Line(line, spans)];
    }
  }

  lemma NothingOpen()
    ensures Open([], [], "", [])
  {
  }

  lemma KeepOpen(events: seq<Event>, done: seq<Line>, line: string, spans: seq<Span>)
    requires Open(events, done, line, spans)
    ensures Kept(LinesOf(events)) == if line != "" then done + [Line(line, spans)] else done
  {
    var lines := LinesOf(events);
    assert lines == lines[..|lines| - 1] + [spans];
  }
}
