/**
 * The code-block rewriter of the content compiler (`highlight` in build.rs):
 * a two-state machine over the markdown event stream that diverts the text
 * of each code block into a buffer and replaces the whole block by one
 * highlighted HTML event.
 */
module Highlight {
  import opened Wrappers
  import opened Strings

  datatype CodeBlockKind = Fenced(lang: string) | Indented

  /**
   * The markdown events the rewriter distinguishes; every other event of the
   * parser (paragraphs, headings, tables, lists, emphasis, links, footnotes,
   * task-list markers, breaks, ...) is an opaque `Other`.
   */
  datatype Event =
    | StartCodeBlock(kind: CodeBlockKind)
    | EndCodeBlock
    | Text(text: string)
    | Html(html: string)
    | Other(name: string)

  /** A syntax definition of the default syntax set, by index. */
  type SyntaxRef = nat

  /** The parse and highlight state syntect carries from one line to the next. */
  type LineState = seq<nat>

  /**
   * The syntect side, fixed once for the build (default syntax set, theme
   * base16-ocean.dark): the plain-text syntax, lookup of a syntax by fence
   * token, the opening `<pre ...>` of a snippet, the state a highlighter
   * starts from for a syntax, and one step of highlighting one line into
   * styled HTML (background only where it differs from the theme's).
   */
  datatype Highlighter = Highlighter(
    plainText: SyntaxRef,
    findSyntaxByToken: string -> Option<SyntaxRef>,
    snippetHeader: string,
    startLines: SyntaxRef -> LineState,
    styleLine: (LineState, string) -> (LineState, string))

  /** The rewriter's variables `syntax`, `in_code_block` and `to_highlight`. */
  datatype State = State(syntax: SyntaxRef, inCodeBlock: bool, toHighlight: string)

  function Initial(hl: Highlighter): State {
    State(hl.plainText, false, [])
  }

  /**
   * The syntax chosen when a code block opens: a fenced block looks its
   * token up and falls back to plain text, an indented block keeps the
   * syntax of the previous block.
   */
  function ResolveSyntax(hl: Highlighter, kind: CodeBlockKind, current: SyntaxRef): (s: SyntaxRef)
    ensures kind.Indented? ==> s == current
    ensures kind.Fenced? && hl.findSyntaxByToken(kind.lang).Some? ==> s == hl.findSyntaxByToken(kind.lang).value
    ensures kind.Fenced? && hl.findSyntaxByToken(kind.lang).None? ==> s == hl.plainText
  {
    match kind
    case Fenced(lang) => (match hl.findSyntaxByToken(lang) case Some(found) => found case None => hl.plainText)
    case Indented => current
  }

  /** The styled pieces of a run of lines, one per line, and the highlighter state after them. */
  function StyleLines(hl: Highlighter, start: LineState, lines: seq<string>): (r: (LineState, seq<string>))
    ensures |r.1| == |lines|
  {
    if lines == [] then (start, [])
    else
      var (state, pieces) := StyleLines(hl, start, lines[..|lines| - 1]);
      var (next, piece) := hl.styleLine(state, lines[|lines| - 1]);
      (next, pieces + [piece])
  }

  /** The markup one code block collapses into. */
  function BlockHtml(hl: Highlighter, syntax: SyntaxRef, buffer: string): string {
    hl.snippetHeader + "<code>"
    + Concat(StyleLines(hl, hl.startLines(syntax), LinesWithEndings(buffer)).1)
    + "</code></pre>\n"
  }

  /**
   * The fragment is the snippet header and `<code>`, then exactly one styled
   * piece per line of the buffer, where the lines keep their line feeds and
   * together are the buffer, then `</code></pre>` and a line feed.
   */
  lemma BlockHtmlShape(hl: Highlighter, syntax: SyntaxRef, buffer: string)
    ensures var lines := LinesWithEndings(buffer);
      var pieces := StyleLines(hl, hl.startLines(syntax), lines).1;
      && Concat(lines) == buffer
      && |pieces| == |lines|
      && (forall k :: 0 <= k < |lines| - 1 ==> EndsWith(lines[k], "\n"))
      && BlockHtml(hl, syntax, buffer) == hl.snippetHeader + "<code>" + Concat(pieces) + "</code></pre>\n"
      && StartsWith(BlockHtml(hl, syntax, buffer), hl.snippetHeader + "<code>")
      && EndsWith(BlockHtml(hl, syntax, buffer), "</code></pre>\n")
  {
    var lines := LinesWithEndings(buffer);
    LinesEndWithFeed(buffer);
    var pieces := StyleLines(hl, hl.startLines(syntax), lines).1;
    Framed(hl.snippetHeader + "<code>", Concat(pieces), "</code></pre>\n");
  }

  lemma LinesEndWithFeed(buffer: string)
    ensures var lines := LinesWithEndings(buffer);
      forall k :: 0 <= k < |lines| - 1 ==> EndsWith(lines[k], "\n")
  {
    var lines := LinesWithEndings(buffer);
    forall k | 0 <= k < |lines| - 1 ensures EndsWith(lines[k], "\n") {
      assert lines[k][|lines[k]| - 1..] == [lines[k][|lines[k]| - 1]];
    }
  }

  /** A text opens with its head and closes with its tail. */
  lemma Framed(head: string, mid: string, tail: string)
    ensures StartsWith(head + mid + tail, head) && EndsWith(head + mid + tail, tail)
  {
    var h := head + mid + tail;
    AppendAssoc(head, mid, tail);
    assert h[..|head|] == head;
    assert h[|h| - |tail|..] == tail;
  }

  lemma StyleLinesStep(hl: Highlighter, start: LineState, lines: seq<string>, i: nat)
    requires i < |lines|
    ensures var (state, pieces) := StyleLines(hl, start, lines[..i]);
      var (next, piece) := hl.styleLine(state, lines[i]);
      StyleLines(hl, start, lines[..i + 1]) == (next, pieces + [piece])
  {
    assert lines[..i + 1][..i] == lines[..i];
  }

  lemma PieceAppended(head: string, pieces: seq<string>, piece: string)
    ensures head + Concat(pieces) + piece == head + Concat(pieces + [piece])
  {
    assert (pieces + [piece])[..|pieces|] == pieces;
    AppendAssoc(head, Concat(pieces), piece);
  }

  /** The per-line loop of `highlight`: one highlighter, one piece appended per line. */
  method RenderCodeBlock(hl: Highlighter, syntax: SyntaxRef, toHighlight: string) returns (html: string)
    ensures html == BlockHtml(hl, syntax, toHighlight)
  {
    var lines := LinesWithEndings(toHighlight);
    var state := hl.startLines(syntax);
    html := hl.snippetHeader + "<code>";
    ghost var pieces: seq<string> := [];
    var i := 0;
    while i < |lines|
      invariant 0 <= i <= |lines|
      invariant StyleLines(hl, hl.startLines(syntax), lines[..i]) == (state, pieces)
      invariant html == hl.snippetHeader + "<code>" + Concat(pieces)
    {
      StyleLinesStep(hl, hl.startLines(syntax), lines, i);
      var (next, piece) := hl.styleLine(state, lines[i]);
      PieceAppended(hl.snippetHeader + "<code>", pieces, piece);
      html := html + piece;
      pieces := pieces + [piece];
      state := next;
      i := i + 1;
    }
    assert lines[..i] == lines;
    html := html + "</code></pre>\n";
  }

  /** One event of `for_each`: the new state and what is pushed to the output. */
  function Step(hl: Highlighter, st: State, e: Event): (r: (State, seq<Event>))
    ensures |r.1| <= 1 && forall k :: 0 <= k < |r.1| ==> !IsCodeBlockMarker(r.1[k])
    ensures !IsCodeBlockMarker(e) && !(e.Text? && st.inCodeBlock) ==> r == (st, [e])
    ensures e.Text? && st.inCodeBlock ==> r.1 == [] && r.0.inCodeBlock && r.0.syntax == st.syntax
  {
    match e
    case StartCodeBlock(kind) =>
      (State(ResolveSyntax(hl, kind, st.syntax), true, st.toHighlight), [])
    case EndCodeBlock =>
      if st.inCodeBlock then (State(st.syntax, false, []), [Html(BlockHtml(hl, st.syntax, st.toHighlight))])
      else (st, [])
    case Text(t) =>
      if st.inCodeBlock then (st.(toHighlight := st.toHighlight + t), []) else (st, [e])
    case _ => (st, [e])
  }

  /** The whole stream, from a given state: the final state and the output events. */
  function Run(hl: Highlighter, st: State, events: seq<Event>): (r: (State, seq<Event>))
    ensures |r.1| <= |events|
    decreases |events|
  {
    if events == [] then (st, [])
    else
      var first := Step(hl, st, events[0]);
      var rest := Run(hl, first.0, events[1..]);
      (rest.0, first.1 + rest.1)
  }

  /** The event stream `highlight` returns for a parsed document. */
  function Highlighted(hl: Highlighter, events: seq<Event>): (r: seq<Event>)
    ensures |r| <= |events| && forall k :: 0 <= k < |r| ==> !IsCodeBlockMarker(r[k])
  {
    NoMarkersForwarded(hl, Initial(hl), events);
    Run(hl, Initial(hl), events).1
  }

  lemma RunCons(hl: Highlighter, st: State, a: seq<Event>, b: seq<Event>)
    requires a != []
    ensures var first := Step(hl, st, a[0]);
      var rest := Run(hl, first.0, a[1..] + b);
      Run(hl, st, a + b) == (rest.0, first.1 + rest.1)
  {
    assert (a + b)[0] == a[0];
    assert (a + b)[1..] == a[1..] + b;
  }

  /** Proof step: associativity of event concatenation, kept apart from the costly `Run` unfoldings. */
  lemma EventsAssoc(x: seq<Event>, y: seq<Event>, z: seq<Event>)
    ensures x + (y + z) == (x + y) + z
  {
  }

  /** Running over a concatenation is running over each part in turn. */
  lemma {:induction false} RunAppend(hl: Highlighter, st: State, a: seq<Event>, b: seq<Event>)
    ensures Run(hl, st, a + b)
      == (Run(hl, Run(hl, st, a).0, b).0, Run(hl, st, a).1 + Run(hl, Run(hl, st, a).0, b).1)
    decreases |a|
  {
    if a == [] {
      assert a + b == b;
      assert [] + Run(hl, st, b).1 == Run(hl, st, b).1;
    } else {
      var first := Step(hl, st, a[0]);
      RunCons(hl, st, a, b);
      RunAppend(hl, first.0, a[1..], b);
      var mid := Run(hl, first.0, a[1..]);
      var last := Run(hl, mid.0, b);
      EventsAssoc(first.1, mid.1, last.1);
    }
  }

  /** `highlight` as written: a loop over the events with three mutable variables. */
  method Highlight(hl: Highlighter, parsed: seq<Event>) returns (events: seq<Event>)
    ensures events == Highlighted(hl, parsed)
  {
    var syntax := hl.plainText;
    var toHighlight: string := [];
    var inCodeBlock := false;
    events := [];
    var i := 0;
    while i < |parsed|
      invariant 0 <= i <= |parsed|
      invariant Run(hl, Initial(hl), parsed[..i]) == (State(syntax, inCodeBlock, toHighlight), events)
    {
      var e := parsed[i];
      ghost var before := State(syntax, inCodeBlock, toHighlight);
      ghost var eventsBefore := events;
      ghost var step := Step(hl, before, e);
      RunAppend(hl, Initial(hl), parsed[..i], [e]);
      assert parsed[..i + 1] == parsed[..i] + [e];
      assert step.1 + [] == step.1;
      assert Run(hl, before, [e]) == step;
      assert eventsBefore + [] == eventsBefore;
      match e {
        case StartCodeBlock(kind) =>
          syntax := ResolveSyntax(hl, kind, syntax);
          inCodeBlock := true;
        case EndCodeBlock =>
          if inCodeBlock {
            var html := RenderCodeBlock(hl, syntax, toHighlight);
            events := events + [Html(html)];
            toHighlight := [];
            inCodeBlock := false;
          }
        case Text(t) =>
          if inCodeBlock {
            toHighlight := toHighlight + t;
          } else {
            events := events + [e];
          }
        case _ =>
          events := events + [e];
      }
      assert (State(syntax, inCodeBlock, toHighlight), events) == (step.0, eventsBefore + step.1);
      i := i + 1;
    }
    assert parsed[..i] == parsed;
  }

  predicate IsCodeBlockMarker(e: Event) {
    e.StartCodeBlock? || e.EndCodeBlock?
  }

  /** Neither the start nor the end of a code block is ever forwarded, from any state. */
  lemma {:induction false} NoMarkersForwarded(hl: Highlighter, st: State, events: seq<Event>)
    ensures forall k :: 0 <= k < |Run(hl, st, events).1| ==> !IsCodeBlockMarker(Run(hl, st, events).1[k])
    decreases |events|
  {
    if events != [] {
      NoMarkersForwarded(hl, Step(hl, st, events[0]).0, events[1..]);
    }
  }

  function TextEvents(texts: seq<string>): (r: seq<Event>)
    ensures |r| == |texts| && forall k :: 0 <= k < |r| ==> r[k] == Text(texts[k])
  {
    if texts == [] then [] else [Text(texts[0])] + TextEvents(texts[1..])
  }

  lemma ConcatFirst(texts: seq<string>)
    requires texts != []
    ensures Concat(texts) == texts[0] + Concat(texts[1..])
  {
    ConcatAppend([texts[0]], texts[1..]);
    assert [texts[0]] + texts[1..] == texts;
    ConcatOne(texts[0]);
  }

  /** Inside a code block text is never forwarded: it is appended to `to_highlight`, in order. */
  lemma {:induction false} TextsAccumulate(hl: Highlighter, syntax: SyntaxRef, buffer: string, texts: seq<string>)
    ensures Run(hl, State(syntax, true, buffer), TextEvents(texts)) == (State(syntax, true, buffer + Concat(texts)), [])
    decreases |texts|
  {
    if texts == [] {
      assert buffer + Concat(texts) == buffer;
      assert TextEvents(texts) == [];
    } else {
      var st := State(syntax, true, buffer);
      assert Step(hl, st, Text(texts[0])) == (State(syntax, true, buffer + texts[0]), []);
      TextsAccumulate(hl, syntax, buffer + texts[0], texts[1..]);
      ConcatFirst(texts);
      AppendAssoc(buffer, texts[0], Concat(texts[1..]));
      assert TextEvents(texts)[1..] == TextEvents(texts[1..]);
      var none: seq<Event> := [];
      assert none + none == none;
    }
  }

  /**
   * A whole code block, from an idle state, collapses into exactly one HTML
   * event holding its highlighted text, and leaves the machine idle with an
   * empty buffer and the block's syntax.
   */
  lemma CodeBlockCollapses(hl: Highlighter, syntax: SyntaxRef, kind: CodeBlockKind, texts: seq<string>)
    ensures var s := ResolveSyntax(hl, kind, syntax);
      Run(hl, State(syntax, false, []), [StartCodeBlock(kind)] + TextEvents(texts) + [EndCodeBlock])
        == (State(s, false, []), [Html(BlockHtml(hl, s, Concat(texts)))])
  {
    var s := ResolveSyntax(hl, kind, syntax);
    var st := State(syntax, false, []);
    RunAppend(hl, st, [StartCodeBlock(kind)] + TextEvents(texts), [EndCodeBlock]);
    RunAppend(hl, st, [StartCodeBlock(kind)], TextEvents(texts));
    TextsAccumulate(hl, s, [], texts);
    assert [] + Concat(texts) == Concat(texts);
    var open := State(s, true, []);
    assert Run(hl, st, [StartCodeBlock(kind)]) == (open, []);
    var full := State(s, true, Concat(texts));
    assert Run(hl, open, TextEvents(texts)) == (full, []);
    assert Run(hl, st, [StartCodeBlock(kind)] + TextEvents(texts)) == (full, []);
    var out := [Html(BlockHtml(hl, s, Concat(texts)))];
    assert [EndCodeBlock][1..] == [];
    assert out + [] == out && [] + out == out;
    assert Run(hl, full, [EndCodeBlock]) == (State(s, false, []), out);
  }

  /**
   * A markdown document as the parser delivers it, grouped into blocks: a
   * single event outside any code block, or a code block with the texts the
   * parser emits inside it.
   */
  datatype Block = Plain(event: Event) | CodeBlock(kind: CodeBlockKind, texts: seq<string>)

  /** Plain blocks are not code-block markers (the parser pairs every start with its end). */
  predicate WellFormed(blocks: seq<Block>) {
    forall k :: 0 <= k < |blocks| && blocks[k].Plain? ==> !IsCodeBlockMarker(blocks[k].event)
  }

  function BlockEvents(b: Block): seq<Event> {
    match b
    case Plain(e) => [e]
    case CodeBlock(kind, texts) => [StartCodeBlock(kind)] + TextEvents(texts) + [EndCodeBlock]
  }

  /** The event stream of a sequence of blocks. */
  function Flatten(blocks: seq<Block>): seq<Event>
    decreases |blocks|
  {
    if blocks == [] then [] else BlockEvents(blocks[0]) + Flatten(blocks[1..])
  }

  /** The syntax in force after the blocks, starting from `syntax`. */
  function SyntaxAfter(hl: Highlighter, syntax: SyntaxRef, blocks: seq<Block>): SyntaxRef
    decreases |blocks|
  {
    if blocks == [] then syntax
    else if blocks[0].CodeBlock? then SyntaxAfter(hl, ResolveSyntax(hl, blocks[0].kind, syntax), blocks[1..])
    else SyntaxAfter(hl, syntax, blocks[1..])
  }

  /**
   * The reference rewriting, block by block: every plain event is kept in
   * place, every code block becomes one HTML event highlighted with the
   * syntax resolved for it.
   */
  function Collapse(hl: Highlighter, syntax: SyntaxRef, blocks: seq<Block>): (r: seq<Event>)
    ensures |r| == |blocks|
    ensures forall k :: 0 <= k < |r| ==> (blocks[k].Plain? ==> r[k] == blocks[k].event) && (blocks[k].CodeBlock? ==> r[k].Html?)
    decreases |blocks|
  {
    if blocks == [] then []
    else match blocks[0]
      case Plain(e) => [e] + Collapse(hl, syntax, blocks[1..])
      case CodeBlock(kind, texts) =>
        var s := ResolveSyntax(hl, kind, syntax);
        [Html(BlockHtml(hl, s, Concat(texts)))] + Collapse(hl, s, blocks[1..])
  }

  /** The state machine computes the reference rewriting on every well-formed stream. */
  lemma {:induction false} RunMatchesCollapse(hl: Highlighter, syntax: SyntaxRef, blocks: seq<Block>)
    requires WellFormed(blocks)
    ensures Run(hl, State(syntax, false, []), Flatten(blocks))
      == (State(SyntaxAfter(hl, syntax, blocks), false, []), Collapse(hl, syntax, blocks))
    decreases |blocks|
  {
    if blocks != [] {
      var st := State(syntax, false, []);
      var rest := blocks[1..];
      assert WellFormed(rest) by {
        forall k | 0 <= k < |rest| && rest[k].Plain? ensures !IsCodeBlockMarker(rest[k].event) {
          assert rest[k] == blocks[k + 1];
        }
      }
      RunAppend(hl, st, BlockEvents(blocks[0]), Flatten(rest));
      match blocks[0]
      case Plain(e) =>
        assert !IsCodeBlockMarker(e) by { assert blocks[0].Plain?; }
        RunMatchesCollapse(hl, syntax, rest);
      case CodeBlock(kind, texts) =>
        CodeBlockCollapses(hl, syntax, kind, texts);
        RunMatchesCollapse(hl, ResolveSyntax(hl, kind, syntax), rest);
    }
  }

  /** Hence what `highlight` returns for a well-formed document. */
  lemma HighlightedWellFormed(hl: Highlighter, blocks: seq<Block>)
    requires WellFormed(blocks)
    ensures Highlighted(hl, Flatten(blocks)) == Collapse(hl, hl.plainText, blocks)
  {
    RunMatchesCollapse(hl, hl.plainText, blocks);
  }

  /** Every block decomposition of a stream determines what `highlight` returns for it. */
  lemma HighlightedBlocks(hl: Highlighter, events: seq<Event>)
    ensures forall blocks | WellFormed(blocks) && Flatten(blocks) == events ::
      Highlighted(hl, events) == Collapse(hl, hl.plainText, blocks)
  {
    forall blocks | WellFormed(blocks) && Flatten(blocks) == events
      ensures Highlighted(hl, events) == Collapse(hl, hl.plainText, blocks)
    {
      HighlightedWellFormed(hl, blocks);
    }
  }
}
