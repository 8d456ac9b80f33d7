/**
 * `write_out_list` in build.rs: the sorted posts become the text of a Rust
 * source file declaring `static POSTS: &[(&str, &str, &str, &str)]`, one
 * tuple per post, which the application then compiles in.
 *
 * The partner of the emitter is `ReadTable`, a reader for exactly the
 * literals the emitter writes: plain string literals without escapes and a
 * `r###"…"###` raw string. It stands for what the Rust compiler makes of
 * the generated file, for posts the emitter can embed without quoting.
 */
module Table {
  import opened Wrappers
  import opened Strings
  import opened Decimal
  import opened Calendar
  import opened Posts

  /** One row of `POSTS`: id, formatted date, title and HTML, all `&str`. */
  datatype Row = Row(id: string, date: string, title: string, content: string)

  /** A value read from the front of a text, and the text after it. */
  datatype Scan<T> = Scan(value: T, rest: string)

  const Header := "static POSTS: &[(&str, &str, &str, &str)] = &[\n"
  const Footer := "\n];"
  const EntryOpen := "    (\""
  const FieldSep := "\", \""
  const RawOpen := "\", r###\""
  const RawClose := "\"###"
  const EntryClose := "\"###),"

  /** One tuple line: `    ("<id>", "<DD-Mon-YYYY>", "<title>", r###"<html>"###),`. */
  function Entry(p: Post): string {
    RowText(RowOf(p))
  }

  function RowText(r: Row): string {
    EntryOpen + r.id + FieldSep + r.date + FieldSep + r.title + RawOpen + r.content + EntryClose
  }

  /** `posts.iter().map(..).collect()`: one entry per post, in order. */
  function Entries(posts: seq<Post>): (entries: seq<string>)
    ensures |entries| == |posts|
  {
    if posts == [] then [] else [Entry(posts[0])] + Entries(posts[1..])
  }

  /** The whole generated file: the entries joined by newlines inside the declaration. */
  function WriteOutList(posts: seq<Post>): (text: string)
    ensures StartsWith(text, Header) && EndsWith(text, Footer)
    ensures posts == [] ==> text == Header + Footer
  {
    var body := Join(Entries(posts), "\n");
    assert (Header + body + Footer)[..|Header|] == Header;
    assert (Header + body + Footer)[|Header + body|..] == Footer;
    Header + body + Footer
  }

  /** The row the compiled table holds for a post. */
  function RowOf(p: Post): Row {
    Row(ToDecimal(p.id), FormatDmy(p.date), p.title, p.html)
  }

  function TableRows(posts: seq<Post>): (rows: seq<Row>)
    ensures |rows| == |posts|
  {
    if posts == [] then [] else [RowOf(posts[0])] + TableRows(posts[1..])
  }

  /** The two kinds of literal a field is written into. */
  datatype Literal = Plain | RawHash

  /** A value the literal carries unchanged. */
  predicate Fits(v: string, kind: Literal) {
    match kind
    case Plain => '"' !in v && '\\' !in v && '\r' !in v
    case RawHash => '\r' !in v && !Contains(v, RawClose)
  }

  /** A row whose fields the literals carry unchanged. */
  predicate Readable(r: Row) {
    Fits(r.id, Plain) && Fits(r.date, Plain) && Fits(r.title, Plain) && Fits(r.content, RawHash)
  }

  /**
   * A post whose fields survive the literals unchanged: the title goes
   * into a plain string literal, so it holds no quote, backslash or bare
   * carriage return; the HTML goes into a raw string, so it never closes
   * it early with `"###` and holds no bare carriage return.
   */
  predicate Embeddable(p: Post) {
    Fits(p.title, Plain) && Fits(p.html, RawHash)
  }

  /** An entry line followed by `rest`, with the concatenation grouped from the right as the reader consumes it. */
  lemma RowTextThen(r: Row, rest: string)
    ensures RowText(r) + rest
      == EntryOpen + (r.id + (FieldSep + (r.date + (FieldSep + (r.title + (RawOpen + (r.content + (EntryClose + rest))))))))
  {
    // regroup one piece at a time, from the end of the line
    var t7 := EntryClose + rest;
    AppendAssoc(EntryOpen + r.id + FieldSep + r.date + FieldSep + r.title + RawOpen + r.content, EntryClose, rest);
    var t6 := r.content + t7;
    AppendAssoc(EntryOpen + r.id + FieldSep + r.date + FieldSep + r.title + RawOpen, r.content, t7);
    var t5 := RawOpen + t6;
    AppendAssoc(EntryOpen + r.id + FieldSep + r.date + FieldSep + r.title, RawOpen, t6);
    var t4 := r.title + t5;
    AppendAssoc(EntryOpen + r.id + FieldSep + r.date + FieldSep, r.title, t5);
    var t3 := FieldSep + t4;
    AppendAssoc(EntryOpen + r.id + FieldSep + r.date, FieldSep, t4);
    var t2 := r.date + t3;
    AppendAssoc(EntryOpen + r.id + FieldSep, r.date, t3);
    var t1 := FieldSep + t2;
    AppendAssoc(EntryOpen + r.id, FieldSep, t2);
    AppendAssoc(EntryOpen, r.id, t1);
  }

  /** The body of a plain string literal up to its closing quote. */
  function ReadQuoted(s: string): (r: Option<Scan<string>>)
    ensures r.Some? ==> s == r.value.value + r.value.rest && StartsWith(r.value.rest, "\"")
    ensures r.Some? ==> Fits(r.value.value, Plain)
  {
    var i := FindChar(s, '"');
    if i < |s| && '\\' !in s[..i] && '\r' !in s[..i] then
      assert s == s[..i] + s[i..];
      Some(Scan(s[..i], s[i..]))
    else None
  }

  /** The body of a `r###"…"###` raw string up to its first `"###`. */
  function ReadRaw(s: string): (r: Option<Scan<string>>)
    ensures r.Some? ==> s == r.value.value + r.value.rest && StartsWith(r.value.rest, RawClose)
    ensures r.Some? ==> Fits(r.value.value, RawHash)
  {
    var i :- FindFrom(s, RawClose, 0);
    if '\r' in s[..i] then None
    else
      assert s == s[..i] + s[i..];
      assert !Contains(s[..i], RawClose) by {
        forall j: nat | j <= i ensures !OccursAt(s[..i], RawClose, j) {
          OccursInPrefix(s, RawClose, i, j);
        }
      }
      Some(Scan(s[..i], s[i..]))
  }

  /** One field's value, in a literal of `kind`, and the text `after` that must follow it. */
  function ReadField(s: string, kind: Literal, after: string): (r: Option<Scan<string>>)
    ensures r.Some? ==> s == r.value.value + (after + r.value.rest) && Fits(r.value.value, kind)
  {
    var v :- if kind == Plain then ReadQuoted(s) else ReadRaw(s);
    var rest :- StripPrefix(v.rest, after);
    Some(Scan(v.value, rest))
  }

  /** One entry line: id, date and title in plain literals, then the HTML in a raw one. */
  function ReadEntry(s: string): (r: Option<Scan<Row>>)
    ensures r.Some? ==> s == RowText(r.value.value) + r.value.rest && Readable(r.value.value)
  {
    match StripPrefix(s, EntryOpen)
    case None => None
    case Some(a) =>
      match ReadField(a, Plain, FieldSep)
      case None => None
      case Some(id) =>
        match ReadField(id.rest, Plain, FieldSep)
        case None => None
        case Some(date) =>
          match ReadField(date.rest, Plain, RawOpen)
          case None => None
          case Some(title) =>
            match ReadField(title.rest, RawHash, EntryClose)
            case None => None
            case Some(content) =>
              var row := Row(id.value, date.value, title.value, content.value);
              RowTextThen(row, content.rest);
              Some(Scan(row, content.rest))
  }

  /** The list body as the reader sees it: the entries, a newline before each further one, then `\n];`. */
  function Body(rows: seq<Row>): string
    requires rows != []
  {
    if |rows| == 1 then RowText(rows[0]) + Footer
    else RowText(rows[0]) + ("\n" + Body(rows[1..]))
  }

  /** Entries separated by newlines, up to the closing `\n];` that must end the text. */
  function ReadEntries(s: string): (r: Option<seq<Row>>)
    ensures r.Some? ==> r.value != [] && s == Body(r.value)
    ensures r.Some? ==> forall i :: 0 <= i < |r.value| ==> Readable(r.value[i])
    decreases |s|
  {
    match ReadEntry(s)
    case None => None
    case Some(e) =>
      if e.rest == Footer then
        LastEntry(s, e);
        Some([e.value])
      else
        match StripPrefix(e.rest, "\n")
        case None => None
        case Some(t) =>
          match ReadEntries(t)
          case None => None
          case Some(more) =>
            EntriesCons(s, e, t, more);
            Some([e.value] + more)
  }

  /** A last entry followed by the closing `\n];` is the body of that one row. */
  lemma LastEntry(s: string, e: Scan<Row>)
    requires s == RowText(e.value) + e.rest && Readable(e.value)
    requires e.rest == Footer
    ensures Body([e.value]) == s
    ensures forall i :: 0 <= i < |[e.value]| ==> Readable([e.value][i])
  {
  }

  /** An entry, a newline and further entries make up the body of all of them. */
  lemma EntriesCons(s: string, e: Scan<Row>, t: string, more: seq<Row>)
    requires s == RowText(e.value) + e.rest && Readable(e.value)
    requires e.rest == "\n" + t
    requires more != [] && t == Body(more)
    requires forall i :: 0 <= i < |more| ==> Readable(more[i])
    ensures Body([e.value] + more) == s
    ensures forall i :: 0 <= i < |[e.value] + more| ==> Readable(([e.value] + more)[i])
  {
    var rows := [e.value] + more;
    assert rows[1..] == more;
    assert forall j :: 0 <= j < |more| ==> rows[j + 1] == more[j];
  }

  /** The text of a `POSTS` declaration holding `rows`. */
  function TableText(rows: seq<Row>): string {
    Header + (if rows == [] then Footer else Body(rows))
  }

  /**
   * The rows of a generated `POSTS` declaration, or `None` for any other
   * text. Whatever it accepts is exactly the declaration of the rows it
   * returns.
   */
  function ReadTable(s: string): (r: Option<seq<Row>>)
    ensures r.Some? ==> s == TableText(r.value)
    ensures r.Some? ==> forall i :: 0 <= i < |r.value| ==> Readable(r.value[i])
  {
    var body :- StripPrefix(s, Header);
    if body == Footer then Some([]) else ReadEntries(body)
  }

  lemma ReadQuotedOf(v: string, rest: string)
    requires Fits(v, Plain)
    requires rest != [] && rest[0] == '"'
    ensures ReadQuoted(v + rest) == Some(Scan(v, rest))
  {
    assert v + rest == v + ['"'] + rest[1..];
    FindCharOf(v, '"', rest[1..]);
    assert (v + rest)[..|v|] == v;
    assert (v + rest)[|v|..] == rest;
  }

  lemma ReadRawOf(v: string, rest: string)
    requires Fits(v, RawHash)
    requires StartsWith(rest, RawClose)
    ensures ReadRaw(v + rest) == Some(Scan(v, rest))
  {
    var s := v + rest;
    assert OccursAt(s, RawClose, |v|) by {
      assert s[|v|..|v| + 4] == rest[..4];
    }
    forall j: nat | j < |v| ensures !OccursAt(s, RawClose, j) {
      if j + 4 <= |v| {
        assert s[j..j + 4] == v[j..j + 4];
        assert !OccursAt(v, RawClose, j);
      } else {
        // the quote that opens the closing `"###` falls where `#` would have to be
        assert s[|v|] == '"';
        assert s[j..j + 4][|v| - j] == s[|v|];
      }
    }
    assert s[..|v|] == v && s[|v|..] == rest;
  }

  /** The text after a field opens with what closes its literal. */
  predicate Closes(kind: Literal, after: string) {
    match kind
    case Plain => after != [] && after[0] == '"'
    case RawHash => StartsWith(after, RawClose)
  }

  lemma ReadFieldOf(v: string, kind: Literal, after: string, tail: string)
    requires Fits(v, kind) && Closes(kind, after)
    ensures ReadField(v + (after + tail), kind, after) == Some(Scan(v, tail))
  {
    var rest := after + tail;
    if kind == Plain {
      ReadQuotedOf(v, rest);
    } else {
      assert rest[..4] == after[..4];
      ReadRawOf(v, rest);
    }
    StripPrefixOf(after, tail);
  }

  /** The entry line of a readable row reads back as that row. */
  lemma ReadRowOf(r: Row, tail: string)
    requires Readable(r)
    ensures ReadEntry(RowText(r) + tail) == Some(Scan(r, tail))
  {
    RowTextThen(r, tail);
    var c := r.content + (EntryClose + tail);
    var t := r.title + (RawOpen + c);
    var d := r.date + (FieldSep + t);
    var a := r.id + (FieldSep + d);
    StripPrefixOf(EntryOpen, a);
    assert EntryClose[..4] == RawClose;
    ReadFieldOf(r.id, Plain, FieldSep, d);
    ReadFieldOf(r.date, Plain, FieldSep, t);
    ReadFieldOf(r.title, Plain, RawOpen, c);
    ReadFieldOf(r.content, RawHash, EntryClose, tail);
  }

  lemma ReadLastRow(s: string, r: Row)
    requires s == RowText(r) + Footer
    requires Readable(r)
    ensures ReadEntries(s) == Some([r])
  {
    ReadRowOf(r, Footer);
  }

  lemma ReadRowThen(s: string, r: Row, more: string, rows: seq<Row>)
    requires s == RowText(r) + ("\n" + more)
    requires Readable(r)
    requires |more| > 2 && ReadEntries(more) == Some(rows)
    ensures ReadEntries(s) == Some([r] + rows)
  {
    ReadRowOf(r, "\n" + more);
    assert "\n" + more != Footer;
    StripPrefixOf("\n", more);
  }

  lemma BodyLength(rows: seq<Row>)
    requires rows != []
    ensures |Body(rows)| > 3
  {
  }

  lemma BodyOne(rows: seq<Row>)
    requires |rows| == 1
    ensures Body(rows) == RowText(rows[0]) + Footer && rows == [rows[0]]
  {
  }

  lemma BodyCons(rows: seq<Row>)
    requires |rows| > 1
    ensures Body(rows) == RowText(rows[0]) + ("\n" + Body(rows[1..]))
  {
  }

  /** Proof step: splitting off the first row, kept apart so the sequence equality is checked once. */
  lemma HeadTail(rows: seq<Row>)
    requires rows != []
    ensures rows == [rows[0]] + rows[1..]
  {
  }

  lemma ReadableTail(rows: seq<Row>)
    requires rows != []
    requires forall i :: 0 <= i < |rows| ==> Readable(rows[i])
    ensures forall i :: 0 <= i < |rows[1..]| ==> Readable(rows[1..][i])
  {
    assert forall i :: 0 <= i < |rows[1..]| ==> rows[1..][i] == rows[i + 1];
  }

  lemma {:induction false} ReadEntriesOf(rows: seq<Row>)
    requires rows != []
    requires forall i :: 0 <= i < |rows| ==> Readable(rows[i])
    ensures ReadEntries(Body(rows)) == Some(rows)
    decreases |rows|
  {
    if |rows| == 1 {
      BodyOne(rows);
      ReadLastRow(Body(rows), rows[0]);
    } else {
      var rest := rows[1..];
      ReadableTail(rows);
      ReadEntriesOf(rest);
      BodyCons(rows);
      BodyLength(rest);
      HeadTail(rows);
      ReadRowThen(Body(rows), rows[0], Body(rest), rest);
    }
  }

  /** Every declaration of readable rows reads back as those rows. */
  lemma ReadTableText(rows: seq<Row>)
    requires forall i :: 0 <= i < |rows| ==> Readable(rows[i])
    ensures ReadTable(TableText(rows)) == Some(rows)
  {
    var body := if rows == [] then Footer else Body(rows);
    StripPrefixOf(Header, body);
    if rows != [] {
      BodyLength(rows);
      ReadEntriesOf(rows);
    }
  }

  /** Dates and ids need no quoting. */
  lemma PlainFields(p: Post)
    ensures '"' !in ToDecimal(p.id) && '\\' !in ToDecimal(p.id) && '\r' !in ToDecimal(p.id)
    ensures '"' !in FormatDmy(p.date) && '\\' !in FormatDmy(p.date) && '\r' !in FormatDmy(p.date)
  {
    FormatDmyChars(p.date);
    var d := FormatDmy(p.date);
    assert forall k :: 0 <= k < |d| ==> d[k] != '"' && d[k] != '\\' && d[k] != '\r';
    var n := ToDecimal(p.id);
    assert forall k :: 0 <= k < |n| ==> IsDigit(n[k]);
  }

  lemma {:induction false} WriteOutListText(posts: seq<Post>)
    ensures WriteOutList(posts) == TableText(TableRows(posts))
  {
    if posts != [] {
      JoinBody(posts);
      AppendAssoc(Header, Join(Entries(posts), "\n"), Footer);
    }
  }

  lemma {:induction false} JoinBody(posts: seq<Post>)
    requires posts != []
    ensures Join(Entries(posts), "\n") + Footer == Body(TableRows(posts))
    decreases |posts|
  {
    if |posts| == 1 {
      BodyOne(TableRows(posts));
      assert Entries(posts) == [Entry(posts[0])];
    } else {
      var e, j := Entry(posts[0]), Join(Entries(posts[1..]), "\n");
      JoinBody(posts[1..]);
      JoinStep(posts);
      RowsStep(posts);
      AppendAssoc(e + "\n", j, Footer);
      AppendAssoc(e, "\n", j + Footer);
    }
  }

  lemma JoinStep(posts: seq<Post>)
    requires |posts| > 1
    ensures Join(Entries(posts), "\n") == Entry(posts[0]) + "\n" + Join(Entries(posts[1..]), "\n")
  {
    assert Entries(posts)[1..] == Entries(posts[1..]);
  }

  lemma RowsStep(posts: seq<Post>)
    requires |posts| > 1
    ensures Body(TableRows(posts)) == Entry(posts[0]) + ("\n" + Body(TableRows(posts[1..])))
  {
    BodyCons(TableRows(posts));
    assert TableRows(posts)[1..] == TableRows(posts[1..]);
  }

  lemma {:induction false} RowsReadable(posts: seq<Post>)
    requires forall i :: 0 <= i < |posts| ==> Embeddable(posts[i])
    ensures forall i :: 0 <= i < |posts| ==> Readable(TableRows(posts)[i])
  {
    if posts != [] {
      PlainFields(posts[0]);
      forall i | 0 <= i < |posts[1..]| ensures Embeddable(posts[1..][i]) {
        assert posts[1..][i] == posts[i + 1];
      }
      RowsReadable(posts[1..]);
    }
  }

  /**
   * Reading back the generated file yields one row per post, in the order
   * of the list, with the id in decimal and the date as `DD-Mon-YYYY`.
   */
  lemma ReadWrittenTable(posts: seq<Post>)
    requires forall i :: 0 <= i < |posts| ==> Embeddable(posts[i])
    ensures ReadTable(WriteOutList(posts)) == Some(TableRows(posts))
  {
    WriteOutListText(posts);
    RowsReadable(posts);
    ReadTableText(TableRows(posts));
  }

  /** A title with a double quote ends its literal early: the file no longer reads back as written. */
  lemma QuoteInTitleBreaksTable(p: Post)
    requires '"' in p.title
    ensures ReadTable(WriteOutList([p])) != Some(TableRows([p]))
  {
    assert !Readable(TableRows([p])[0]);
  }
}
