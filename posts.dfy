/**
 * The content compiler's collection builder (`posts_list_from_md_files` in
 * build.rs): decode each file name, take the title from the first line,
 * render the body, keep the files that pass every step and sort them by id.
 */
module Posts {
  import opened Wrappers
  import opened Strings
  import opened Decimal
  import opened Calendar
  import opened Highlight
  import opened StableSort

  /** One compiled document: `(u32, NaiveDate, String, String)`. */
  datatype Post = Post(id: nat, date: NaiveDate, title: string, html: string)

  /** A directory entry: its file name and the text of the file. */
  datatype RawDocument = RawDocument(fileName: string, body: string)

  /** What a file name decodes to: `<id>-<YYYYMMDD>-<slug>`. */
  datatype FileKey = FileKey(id: nat, date: NaiveDate, slug: string)

  /**
   * pulldown-cmark, fixed for the build: the parser with tables, footnotes,
   * strikethrough and task lists enabled, and `html::push_html`.
   */
  datatype Markdown = Markdown(parse: string -> seq<Event>, pushHtml: seq<Event> -> string)

  const Extension := ".md"
  const TitleMarker := "# "

  function PostId(p: Post): int {
    p.id
  }

  /**
   * The file-name step: every trailing `.md` is trimmed, the rest is split
   * at its first two dashes, the first piece must be a `u32` and the second
   * a `%Y%m%d` date; the third piece is the slug.
   */
  function DecodeFileName(name: string): (r: Option<FileKey>)
    ensures r.Some? ==> r.value.id <= U32_MAX
    ensures r.Some? ==> CountChar(TrimEndMatches(name, Extension), '-') >= 2
  {
    var stem := TrimEndMatches(name, Extension);
    var parts := SplitN(stem, 3, '-');
    if |parts| != 3 then None
    else
      SplitNFull(stem, 3, '-');
      var id :- ParseU32(parts[0]);
      var date :- ParseYmd(parts[1]);
      Some(FileKey(id, date, parts[2]))
  }

  /**
   * A name decodes to a key exactly when its stem splits into three pieces
   * whose first is the key's `u32` id, whose second is the key's date and
   * whose third is the key's slug.
   */
  lemma DecodeFileNameParts(name: string, k: FileKey)
    ensures DecodeFileName(name) == Some(k) <==>
      var p := SplitN(TrimEndMatches(name, Extension), 3, '-');
      && |p| == 3
      && ParseU32(p[0]) == Some(k.id)
      && ParseYmd(p[1]) == Some(k.date)
      && p[2] == k.slug
  {
  }

  /** A first piece that is not all digits (after an optional `+`) makes the name skipped. */
  lemma NonNumericIdSkipped(name: string)
    requires var p := SplitN(TrimEndMatches(name, Extension), 3, '-');
      |p| == 3 && !AllDigits(Unsigned(p[0]))
    ensures DecodeFileName(name) == None
  {
  }

  /** A name whose stem has fewer than two dashes is skipped. */
  lemma TooFewDashes(name: string)
    requires CountChar(TrimEndMatches(name, Extension), '-') < 2
    ensures DecodeFileName(name) == None
  {
  }

  /** The canonical file name of a key, followed by `n` copies of `.md`. */
  function FileName(k: FileKey, n: nat): string
    requires k.date.year <= 9999
  {
    ToDecimal(k.id) + "-" + Compact(k.date) + "-" + k.slug + Repeat(Extension, n)
  }

  /**
   * Decoding inverts naming: the slug may hold any further dashes, and the
   * extension is neither required nor checked, so a slug such as `x.txt`
   * survives; only a slug that itself ends in `.md` loses that suffix.
   */
  lemma DecodeFileNameOf(k: FileKey, n: nat)
    requires k.id <= U32_MAX && k.date.year <= 9999
    requires !EndsWith(k.slug, Extension)
    ensures DecodeFileName(FileName(k, n)) == Some(k)
  {
    var idText, dateText := ToDecimal(k.id), Compact(k.date);
    var stem := idText + "-" + dateText + "-" + k.slug;
    StemNotMd(idText, dateText, k.slug);
    assert FileName(k, n) == stem + Repeat(Extension, n);
    TrimEndMatchesRepeat(stem, Extension, n);
    assert '-' !in idText by { assert AllDigits(idText); }
    assert '-' !in dateText by { assert AllDigits(dateText); }
    SplitN3Of(idText, dateText, k.slug, '-');
    ParseToDecimal(k.id);
    ParseCompact(k.date);
  }

  lemma StemNotMd(idText: string, dateText: string, slug: string)
    requires |dateText| == 8 && AllDigits(dateText)
    requires !EndsWith(slug, Extension)
    ensures !EndsWith(idText + "-" + dateText + "-" + slug, Extension)
  {
    var prefix := idText + "-" + dateText + "-";
    var stem := prefix + slug;
    if |slug| >= 3 {
      assert stem[|stem| - 3..] == slug[|slug| - 3..];
    } else {
      var i := |stem| - 3;
      assert |prefix| - 3 <= i < |prefix|;
      assert stem[i] == prefix[i];
      assert prefix[|prefix| - 1] == '-';
      assert prefix[|prefix| - 3] == dateText[6] && prefix[|prefix| - 2] == dateText[7];
      assert stem[i] != '.' by { assert IsDigit(prefix[i]) || prefix[i] == '-'; }
      assert stem[|stem| - 3..][0] == stem[i];
    }
  }

  /**
   * The title step: the first line of the body must start with `# `, and
   * the title is the rest of that line, verbatim.
   */
  function ExtractTitle(body: string): (r: Option<string>)
    ensures r.Some? <==> StartsWith(body, TitleMarker)
    ensures r.Some? ==> IsFirstLine(body, TitleMarker + r.value)
  {
    var line :- FirstLine(body);
    assert StartsWith(body, TitleMarker) ==> StartsWith(line, TitleMarker) by {
      if StartsWith(body, TitleMarker) {
        var i := FindChar(body, '\n');
        assert i >= 2;
      }
    }
    assert StartsWith(line, TitleMarker) ==> body[..2] == line[..2];
    StripPrefix(line, TitleMarker)
  }

  /** Whenever `# <title>` is the first line of the body, the title is exactly `<title>`. */
  lemma TitleOfFirstLine(body: string, title: string)
    requires IsFirstLine(body, TitleMarker + title)
    ensures ExtractTitle(body) == Some(title)
  {
    var line := TitleMarker + title;
    assert body[..2] == line[..2] by {
      if body != line {
        assert body[..2] == body[..|line| + 1][..2];
      }
    }
    var r := ExtractTitle(body);
    FirstLineUnique(body, TitleMarker + r.value, line);
    assert (TitleMarker + r.value)[2..] == r.value;
    assert line[2..] == title;
  }

  /** A heading line ended by a line feed gives its text as the title, whatever follows it. */
  lemma TitleOfHeading(title: string, rest: string)
    requires '\n' !in title && !EndsWith(title, "\r")
    ensures ExtractTitle(TitleMarker + title + "\n" + rest) == Some(title)
  {
    var body := TitleMarker + title + "\n" + rest;
    var line := TitleMarker + title;
    assert body[..|line| + 1] == line + "\n";
    assert !EndsWith(line, "\r") by {
      if title != [] {
        assert line[|line| - 1..] == title[|title| - 1..];
      } else {
        assert line == TitleMarker;
      }
    }
    TitleOfFirstLine(body, title);
  }

  /** With Windows line endings the carriage return is not part of the title. */
  lemma TitleOfCrlfHeading(title: string, rest: string)
    requires '\n' !in title
    ensures ExtractTitle(TitleMarker + title + "\r\n" + rest) == Some(title)
  {
    var body := TitleMarker + title + "\r\n" + rest;
    var line := TitleMarker + title;
    assert body[..|line| + 2] == line + "\r\n";
    TitleOfFirstLine(body, title);
  }

  /** A body that is a single heading line, without a line feed, gives that heading's text. */
  lemma TitleOfLoneHeading(title: string)
    requires '\n' !in title
    ensures ExtractTitle(TitleMarker + title) == Some(title)
  {
    TitleOfFirstLine(TitleMarker + title, title);
  }

  /**
   * `markdown_to_html`: parse, rewrite code blocks, serialise. Whenever the
   * parsed events are a well-formed sequence of blocks, the writer receives
   * those blocks with every code block collapsed into its highlighted HTML.
   */
  function MarkdownToHtml(md: Markdown, hl: Highlighter, markdown: string): (html: string)
    ensures forall blocks | WellFormed(blocks) && Flatten(blocks) == md.parse(markdown) ::
      html == md.pushHtml(Collapse(hl, hl.plainText, blocks))
  {
    HighlightedBlocks(hl, md.parse(markdown));
    md.pushHtml(Highlighted(hl, md.parse(markdown)))
  }

  /** The `filter_map` closure: one document, or nothing when a step fails. */
  function CompilePost(md: Markdown, hl: Highlighter, doc: RawDocument): (r: Option<Post>)
    ensures r.Some? <==> DecodeFileName(doc.fileName).Some? && StartsWith(doc.body, TitleMarker)
    ensures r.Some? ==>
      && r.value.id == DecodeFileName(doc.fileName).value.id
      && r.value.date == DecodeFileName(doc.fileName).value.date
      && IsFirstLine(doc.body, TitleMarker + r.value.title)
      && r.value.html == MarkdownToHtml(md, hl, doc.body)
  {
    var key :- DecodeFileName(doc.fileName);
    var title :- ExtractTitle(doc.body);
    Some(Post(key.id, key.date, title, MarkdownToHtml(md, hl, doc.body)))
  }

  /**
   * A document named after a key whose body opens with a `# ` heading line
   * compiles to the key's id and date, the heading's title and the body's HTML.
   */
  lemma CompilePostOf(md: Markdown, hl: Highlighter, k: FileKey, n: nat, title: string, rest: string)
    requires k.id <= U32_MAX && k.date.year <= 9999 && !EndsWith(k.slug, Extension)
    requires '\n' !in title && !EndsWith(title, "\r")
    ensures var body := TitleMarker + title + "\n" + rest;
      CompilePost(md, hl, RawDocument(FileName(k, n), body))
        == Some(Post(k.id, k.date, title, MarkdownToHtml(md, hl, body)))
  {
    DecodeFileNameOf(k, n);
    TitleOfHeading(title, rest);
  }

  /** `12-20240105-hello.md` opening with `# My Title` is post 12 of 5 January 2024, titled `My Title`. */
  lemma HelloExample(md: Markdown, hl: Highlighter, rest: string)
    ensures var body := "# " + "My Title" + "\n" + rest;
      CompilePost(md, hl, RawDocument("12" + "-" + "20240105" + "-" + "hello" + ".md", body))
        == Some(Post(12, Date(2024, 1, 5), "My Title", MarkdownToHtml(md, hl, body)))
  {
    var k := FileKey(12, Date(2024, 1, 5), "hello");
    HelloName();
    HelloPlain();
    CompilePostOf(md, hl, k, 1, "My Title", rest);
  }

  /** Proof step of `HelloExample`: the slug has no `.md` suffix, the title no line break. */
  lemma HelloPlain()
    ensures !EndsWith("hello", Extension)
    ensures '\n' !in "My Title" && !EndsWith("My Title", "\r")
  {
    assert "hello"[2] != Extension[0];
    assert "My Title"[7] != '\r';
  }

  /** Proof step of `HelloExample`: the example's file name is the canonical name of its key. */
  lemma HelloName()
    ensures ValidDate(Date(2024, 1, 5))
    ensures FileName(FileKey(12, Date(2024, 1, 5), "hello"), 1) == "12" + "-" + "20240105" + "-" + "hello" + ".md"
  {
    assert ValidDate(Date(2024, 1, 5));
    HelloId();
    HelloDate();
    assert Repeat(Extension, 1) == Extension;
  }

  /** Proof steps of `HelloName`: the digits of the id, the date and the year. */
  lemma HelloId()
    ensures ToDecimal(12) == "12"
  {
    assert ToDecimal(1) == "1";
  }

  lemma HelloDate()
    requires ValidDate(Date(2024, 1, 5))
    ensures Compact(Date(2024, 1, 5)) == "20240105"
  {
    HelloYear();
    HelloMonthDay();
  }

  lemma HelloMonthDay()
    ensures PadDigits(1, 2) == "01" && PadDigits(5, 2) == "05"
  {
    assert PadDigits(0, 1) == "0";
  }

  lemma HelloYear()
    ensures PadDigits(2024, 4) == "2024"
  {
    assert PadDigits(2, 1) == "2";
    assert PadDigits(20, 2) == "20";
    assert PadDigits(202, 3) == "202";
  }

  /** The documents that compile, in directory order. */
  function Collect(md: Markdown, hl: Highlighter, dir: seq<RawDocument>): (posts: seq<Post>)
    ensures |posts| <= |dir|
    decreases |dir|
  {
    if dir == [] then []
    else
      var rest := Collect(md, hl, dir[1..]);
      match CompilePost(md, hl, dir[0])
      case Some(p) => [p] + rest
      case None => rest
  }

  /** A single document contributes its post, or nothing when it does not compile. */
  lemma CollectOne(md: Markdown, hl: Highlighter, d: RawDocument)
    ensures Collect(md, hl, [d]) == (if CompilePost(md, hl, d).Some? then [CompilePost(md, hl, d).value] else [])
  {
    assert [d][1..] == [];
  }

  /** Collecting is compositional: the posts of two directory runs, one after the other. */
  lemma {:induction false} CollectAppend(md: Markdown, hl: Highlighter, a: seq<RawDocument>, b: seq<RawDocument>)
    ensures Collect(md, hl, a + b) == Collect(md, hl, a) + Collect(md, hl, b)
    decreases |a|
  {
    if a == [] {
      assert a + b == b;
    } else {
      CollectAppend(md, hl, a[1..], b);
      CollectAppendStep(md, hl, a, b);
    }
  }

  /** Proof step of `CollectAppend`: one document moved from the first run to the front. */
  lemma CollectAppendStep(md: Markdown, hl: Highlighter, a: seq<RawDocument>, b: seq<RawDocument>)
    requires a != []
    requires Collect(md, hl, a[1..] + b) == Collect(md, hl, a[1..]) + Collect(md, hl, b)
    ensures Collect(md, hl, a + b) == Collect(md, hl, a) + Collect(md, hl, b)
  {
    var ab := a + b;
    TailOfAppend(a, b);
    CollectFront(md, hl, ab);
    CollectFront(md, hl, a);
    var h, r, c := Collect(md, hl, [a[0]]), Collect(md, hl, a[1..]), Collect(md, hl, b);
    PostsAssoc(h, r, c);
  }

  /** Proof step: associativity of post concatenation, kept apart from the `Collect` unfoldings. */
  lemma PostsAssoc(h: seq<Post>, r: seq<Post>, c: seq<Post>)
    ensures (h + r) + c == h + (r + c)
  {
  }

  /** Proof step: the first document and the tail of a concatenation. */
  lemma TailOfAppend(a: seq<RawDocument>, b: seq<RawDocument>)
    requires a != []
    ensures (a + b)[0] == a[0] && (a + b)[1..] == a[1..] + b
  {
  }

  /** Proof step: `Collect` of a directory is the first document's contribution followed by the rest. */
  lemma CollectFront(md: Markdown, hl: Highlighter, dir: seq<RawDocument>)
    requires dir != []
    ensures Collect(md, hl, dir) == Collect(md, hl, [dir[0]]) + Collect(md, hl, dir[1..])
  {
    CollectOne(md, hl, dir[0]);
  }

  /** A post is collected exactly when some document of the directory compiles to it. */
  lemma {:induction false} CollectMembers(md: Markdown, hl: Highlighter, dir: seq<RawDocument>, p: Post)
    ensures p in Collect(md, hl, dir) <==> exists i :: 0 <= i < |dir| && CompilePost(md, hl, dir[i]) == Some(p)
    decreases |dir|
  {
    if dir != [] {
      CollectMembers(md, hl, dir[1..], p);
      CollectCons(md, hl, dir, p);
      CompiledInCons(md, hl, dir, p);
    }
  }

  lemma CollectCons(md: Markdown, hl: Highlighter, dir: seq<RawDocument>, p: Post)
    requires dir != []
    ensures p in Collect(md, hl, dir) <==> CompilePost(md, hl, dir[0]) == Some(p) || p in Collect(md, hl, dir[1..])
  {
  }

  lemma CompiledInCons(md: Markdown, hl: Highlighter, dir: seq<RawDocument>, p: Post)
    requires dir != []
    ensures (exists i :: 0 <= i < |dir| && CompilePost(md, hl, dir[i]) == Some(p))
        <==> CompilePost(md, hl, dir[0]) == Some(p) || exists i :: 0 <= i < |dir[1..]| && CompilePost(md, hl, dir[1..][i]) == Some(p)
  {
    forall i | 0 < i < |dir| ensures dir[i] == dir[1..][i - 1] {
    }
  }

  /**
   * `posts_list_from_md_files`: collect, then sort the vector by id in
   * place. The result is ordered by id, keeps every collected post
   * (duplicate ids included) and keeps posts with equal ids in directory
   * order.
   */
  method PostsListFromMdFiles(md: Markdown, hl: Highlighter, dir: seq<RawDocument>) returns (posts: seq<Post>)
    ensures posts == SortByKey(Collect(md, hl, dir), PostId)
    ensures SortedBy(posts, PostId)
    ensures multiset(posts) == multiset(Collect(md, hl, dir))
    ensures forall k :: WithKey(posts, PostId, k) == WithKey(Collect(md, hl, dir), PostId, k)
  {
    var collected := Collect(md, hl, dir);
    var a := new Post[|collected|](i requires 0 <= i < |collected| => collected[i]);
    assert a[..] == collected;
    SortInPlace(a, PostId);
    posts := a[..];
    SortByKeySorted(collected, PostId);
    SortByKeyPermutes(collected, PostId);
    forall k ensures WithKey(posts, PostId, k) == WithKey(collected, PostId, k) {
      SortByKeyStable(collected, PostId, k);
    }
  }
}
