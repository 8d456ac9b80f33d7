# Verified model of the blog's content compiler and request guards

This project models the core of a personal blog written in Rust, in Dafny.

The heart of the model is the build-time content compiler in `build.rs`. It turns a directory of `<id>-<YYYYMMDD>-<slug>.md` documents into a Rust source file that declares a static table `POSTS`. Each row of that table is `(id, "DD-Mon-YYYY", title, html)`, and the rows are sorted by id. The compiler has four parts, and each is modelled in the form the code has:

- **File-name decoding and title extraction** are pure functions.
- **`highlight`**, the code-block rewriter, is modelled as a two-state machine. It is a method with a loop, proved equal to a functional specification. Properties of the stream are then proved about that specification.
- **`posts_list_from_md_files`** is a `filter_map` pipeline followed by an in-place stable `sort_by_key`. The sort is a method on an `array`, proved equal to a stable insertion sort. A separate lemma shows that every stable sort produces that same result.
- **`write_out_list`** generates text. Its partner is a reader for exactly the literals it writes. The round trip "read back what was written" is proved. The converse is also proved: whatever the reader accepts is the declaration of the rows it returns.

Around the compiler sit a few small decision functions:

- the table lookups and the left-click test in `src/app/helpers.rs`;
- the client-address key extractor of the rate limiter;
- the CSRF double-submit check;
- the status-badge classification.

Foreign libraries appear as values holding functions: the markdown parser and HTML writer (pulldown-cmark), the syntax highlighter (syntect) and the IP-address parser. Files, the network and clocks are absent. The directory is a sequence of (file name, contents) pairs, the generated file is a string, and the outcome of the status probe is a parameter.

Where the code departs from the `<id>-<YYYYMMDD>-<slug>.md` naming of post files, the model follows the code:

- **Date part of the file name.** The naming suggests a fixed 8-digit date, but chrono's `%Y%m%d` reads the year greedily (up to four digits) and then one or two digits each for month and day. It therefore also accepts 7-digit dates: `2025091` is 1 September 2025 (`Calendar.ParseYmd`, `Calendar.ParseYmdShape`).
- **Extension.** The extension is not checked. Every trailing `.md` is trimmed (`trim_end_matches`), so `1-20250101-x.txt` is accepted with slug `x.txt` (`Posts.DecodeFileNameOf`).
- **Id.** The id is a Rust `u32`. A leading `+` and leading zeros are accepted (`Decimal.ParseU32`), but the table writes the id back without them. A lookup by the path `01` therefore never finds post `1` (`Helpers.LeadingZeroPathMisses`).
- **Collections.** This build.rs compiles only `contents/posts`, into the one table `POSTS`. The poems page (src/app/pages/poempage.rs) reads a `POEMS` table from `poems_data.rs`, which this build.rs never writes; it belongs to a revision with a second collection and is not part of this model.
- **Duplicate ids.** Two documents with the same id are both kept, in directory order (`StableSort.SortByKeyStable`). `get_post` returns the first of them (`Helpers.LookupFindsFirstInDirectoryOrder`).

The generated file is only faithful for posts whose fields fit their literals (`Table.Embeddable`). Titles are written into plain `"…"` literals without escaping. A title containing `"` ends its literal early (`Table.QuoteInTitleBreaksTable`), and a backslash starts an escape. The HTML goes into `r###"…"###`, which the text `"###` would close early. The round trip `Table.ReadWrittenTable` is stated for posts without these characters.

## Model

| member | source | states |
|---|---|---|
| Strings.TrimEndMatches | build.rs:62 | `trim_end_matches(".md")`: the name is the result followed by some number of copies of the pattern, and the result no longer ends with it |
| Strings.TrimEndMatchesRepeat | build.rs:62 | a stem not ending in `.md`, followed by any number of `.md`, trims back to the stem |
| Strings.SplitN | build.rs:62-65 | `splitn(3, '-')`: at most 3 pieces, joined by `-` they give the input back, and only the last piece may contain `-` |
| Strings.SplitNFull | build.rs:63-65 | the split has exactly 3 pieces if and only if the stem has at least two dashes |
| Strings.SplitN3Of | build.rs:62-65 | `a-b-c`, where `a` and `b` hold no dash, splits into exactly `[a, b, c]`, so further dashes stay in the slug |
| Strings.FirstLine | build.rs:70-71 | `lines().next()`: `None` exactly for empty text; otherwise the first line, without line feed: the whole text when it has no line feed, or the text up to its first line feed, less a carriage return just before it |
| Strings.FirstLineUnique | build.rs:70-71 | the text determines its first line: two candidate first lines of the same text are equal |
| Strings.StripPrefix | build.rs:72 | `strip_prefix`: succeeds exactly when the text starts with the prefix, and prefix plus result is the text |
| Strings.LinesWithEndings | build.rs:125 | the lines concatenate to the buffer, are non-empty, every line but the last ends with its line feed, and no line holds a line feed before its last character |
| Strings.SplitFirst | src/server/middleware/forwarded_for_key_extractor.rs:25 | `split(',').next()`: a prefix of the text holding no comma, ending where the first comma is |
| Strings.SplitFirstOf | src/server/middleware/forwarded_for_key_extractor.rs:25 | the first element of `a,b` is `a` when `a` holds no comma |
| Strings.Trim | src/server/middleware/forwarded_for_key_extractor.rs:16 | `trim`, applied to both header values (also line 26): the result is no longer than the input, neither starts nor ends with white space, and is empty exactly when the input is all white space |
| Strings.TrimShape | src/server/middleware/forwarded_for_key_extractor.rs:16 | `trim`: the result is the input between two cut points, everything cut off is Unicode white space, and the result neither starts nor ends with white space |
| Decimal.ParseU32 | build.rs:66 | `parse::<u32>`: the text is accepted exactly when, after an optional `+`, it is a non-empty run of ASCII digits whose value is at most 4294967295; the result is that value |
| Decimal.ParseU32Of | build.rs:66 | every `u32` value is accepted from its decimal form behind any number of leading zeros, with or without a leading `+` |
| Decimal.ToDecimal | build.rs:33-35 | the id written with `{}`: non-empty digits, of the id's value, without a leading zero |
| Decimal.ParseToDecimal | build.rs:66 | every `u32` id written in decimal parses back to itself |
| Decimal.ToDecimalInjective | src/app/helpers.rs:28 | two ids are written the same exactly when they are equal |
| Decimal.LeadingZeroNotCanonical | src/app/helpers.rs:28 | `01` parses as the id 1, but 1 is written `1`, so the path `01` is not the id's text |
| Calendar.DaysInMonth | build.rs:67 | month lengths of the proleptic Gregorian calendar: February has 29 days exactly in leap years |
| Calendar.ParseYmd | build.rs:67 | `parse_from_str(_, "%Y%m%d")`: an accepted date exists in the calendar and its year has at most four digits |
| Calendar.ParseYmdShape | build.rs:67 | an accepted date text is 7 or 8 digits, read as 4 year digits, 2 month digits and the remaining day digits |
| Calendar.ParseYmdDigits | build.rs:67 | conversely, 7 or 8 digits read that way that name an existing date are accepted |
| Calendar.ParseCompact | build.rs:67 | the 8-digit `YYYYMMDD` text of any date with a 4-digit year parses back to that date |
| Calendar.ParseRejectsMonth13 | build.rs:67 | `20241332` is rejected, so a file dated that way is skipped |
| Calendar.FormatDmy | build.rs:36 | `%d-%b-%Y` gives `DD-Mon-YYYY`: 11 characters for years up to 9999, with dashes at positions 2 and 6 |
| Calendar.FormatExample | build.rs:36 | 15 September 2025 is shown as `15-Sep-2025` |
| Calendar.FormatDmyInjective | build.rs:36 | different dates are shown differently |
| Calendar.FormatDmyChars | build.rs:36 | a formatted date holds only digits, letters, `-` and `+`, so it needs no quoting |
| Highlight.ResolveSyntax | build.rs:108-116 | a fenced block uses the syntax found for its token, else plain text; an indented block keeps the previous block's syntax |
| Highlight.StyleLines | build.rs:125-133 | one styled piece per line of the block |
| Highlight.RenderCodeBlock | build.rs:121-134 | the loop builds exactly the fragment `BlockHtml` specifies |
| Highlight.BlockHtmlShape | build.rs:122-134 | the fragment is the snippet header and `<code>`, one piece per line of the buffer (the lines keep their line feeds and together are the buffer), then `</code></pre>` and a line feed |
| Highlight.Step | build.rs:107-151 | one event of the `for_each` closure: at most one event is pushed and it is never a code-block marker; outside a code block every event other than a marker is pushed unchanged with the state unchanged; text inside a block pushes nothing and stays in the block with its syntax |
| Highlight.Run | build.rs:107-151 | the closure over a whole stream pushes no more events than it reads |
| Highlight.Highlighted | build.rs:98-154 | `highlight` started from plain text outside a block: no more events than the parser's, and no code-block marker among them |
| Highlight.Highlight | build.rs:98-154 | the `for_each` loop produces exactly the event stream of the state-machine specification |
| Highlight.RunAppend | build.rs:107-151 | running over a concatenation is running over each part in turn, threading the state |
| Highlight.NoMarkersForwarded | build.rs:108-140 | neither the start nor the end of a code block is ever forwarded, from any state |
| Highlight.TextsAccumulate | build.rs:141-147 | inside a code block, text events produce no output and are appended to `to_highlight` in order |
| Highlight.CodeBlockCollapses | build.rs:108-140 | start, texts, end collapses into exactly one HTML event of the highlighted text, leaving the machine idle with an empty buffer |
| Highlight.Collapse | build.rs:148-150 | one output event per block: other events unchanged and in order, each code block an HTML event |
| Highlight.RunMatchesCollapse | build.rs:107-151 | on any well-formed document, the machine outputs exactly the collapsed blocks and ends idle |
| Highlight.HighlightedWellFormed | build.rs:98-154 | `highlight` of a well-formed document is its blocks collapsed, starting from plain text |
| Highlight.HighlightedBlocks | build.rs:98-154 | for every well-formed block decomposition of a stream, `highlight` returns those blocks collapsed |
| StableSort.SortByKeySorted | build.rs:80 | the sorted list is ordered by key |
| StableSort.SortByKeyPermutes | build.rs:80 | the sorted list is a permutation of the input: duplicates are kept |
| StableSort.SortByKeyStable | build.rs:80 | for every key, the elements with that key keep their input order |
| StableSort.SortedUnique | build.rs:80 | two lists ordered by key that agree, key by key, on their subsequences are equal |
| StableSort.StableSortIsSortByKey | build.rs:80 | any stable sort by key gives the insertion sort's result, so the model of `sort_by_key` is exact |
| StableSort.InsertLast | build.rs:80 | one insertion step in place: the prefix becomes the specified insertion and the rest of the array is untouched |
| StableSort.SortInPlace | build.rs:80 | the in-place sort leaves the array holding the stable sort of its old contents |
| Posts.DecodeFileName | build.rs:61-67 | a decoded name has a `u32` id and came from a stem with at least two dashes |
| Posts.DecodeFileNameParts | build.rs:62-67 | a name decodes to a key exactly when the stem, with trailing `.md` trimmed, splits at its first two dashes into the key's id as a `u32`, the key's date and the key's slug |
| Posts.NonNumericIdSkipped | build.rs:66 | a name whose first piece is not all digits after an optional `+` is skipped |
| Posts.TooFewDashes | build.rs:62-65 | a name whose trimmed stem has fewer than two dashes is skipped |
| Posts.DecodeFileNameOf | build.rs:62-67 | `<id>-<YYYYMMDD>-<slug>` followed by any number of `.md`, including none, decodes to that id, date and slug; the extension is not checked |
| Posts.ExtractTitle | build.rs:69-73 | a title exists exactly when the body starts with `# `; `# ` followed by the title is then the body's first line |
| Posts.TitleOfFirstLine | build.rs:69-73 | whenever `# <title>` is the body's first line, the title extracted is exactly `<title>` |
| Posts.TitleOfHeading | build.rs:69-73 | a body starting `# <title>` and a line feed gives exactly `<title>`, whatever follows |
| Posts.TitleOfCrlfHeading | build.rs:69-73 | a body starting `# <title>` and a carriage return and line feed gives exactly `<title>`, without the carriage return |
| Posts.TitleOfLoneHeading | build.rs:69-73 | a body that is only `# <title>`, with no line feed, gives exactly `<title>` |
| Posts.MarkdownToHtml | build.rs:85-96 | `markdown_to_html`: whenever the parsed events are a well-formed sequence of blocks, the HTML writer receives exactly those blocks with each code block collapsed into its highlighted fragment |
| Posts.CompilePost | build.rs:59-76 | a document is kept exactly when its name decodes and its body starts with `# `; the kept post carries the decoded id and date, a title that `# ` turns into the body's first line, and `markdown_to_html` of the whole body |
| Posts.CompilePostOf | build.rs:59-76 | a document named after a key, whose body opens with a `# <title>` line, compiles to the key's id and date, that title and the body's HTML |
| Posts.HelloExample | build.rs:59-76 | `12-20240105-hello.md` opening with `# My Title` compiles to post 12 of 5 January 2024 titled `My Title` |
| Posts.Collect | build.rs:57-77 | the collected posts are no more than the documents |
| Posts.CollectOne | build.rs:59-76 | one document contributes its compiled post, or nothing when a step of the closure fails |
| Posts.CollectAppend | build.rs:57-77 | `filter_map` then `collect` is compositional: collecting two directory runs one after the other gives the posts of the first run followed by those of the second |
| Posts.CollectMembers | build.rs:57-77 | a post is collected exactly when some document of the directory compiles to it |
| Posts.PostsListFromMdFiles | build.rs:55-83 | the result is the collected posts, stably sorted by id: ordered, a permutation, equal ids in directory order |
| Table.ReadQuoted | build.rs:33-37 | a plain literal's body is read up to its closing quote and holds no quote or backslash |
| Table.ReadRaw | build.rs:33-37 | a raw literal's body is read up to the first `"###` and never contains it |
| Table.ReadField | build.rs:33-37 | a field read, followed by the text that closes it, is exactly the text consumed, and its value fits its literal |
| Table.ReadEntry | build.rs:33-37 | an entry read is exactly the entry line of a readable row |
| Table.ReadEntries | build.rs:40-47 | the entries read are exactly the newline-joined entry lines of readable rows, ending with `\n];` |
| Table.ReadTable | build.rs:43-47 | whatever is read is exactly the `POSTS` declaration of the rows returned |
| Table.ReadFieldOf | build.rs:33-37 | a value that fits its literal, followed by the text that closes it, reads back unchanged |
| Table.ReadRowOf | build.rs:33-37 | the entry line of a readable row reads back as that row, whatever follows it |
| Table.ReadEntriesOf | build.rs:40-47 | a list of readable rows reads back as itself |
| Table.ReadTableText | build.rs:43-47 | every declaration of readable rows reads back as those rows |
| Table.WriteOutList | build.rs:29-51 | the generated file opens with the `POSTS` declaration and ends with `];`, and is just those two for no posts |
| Table.WriteOutListText | build.rs:29-51 | the generated file is the declaration of the posts' rows: the id in decimal, the date as `DD-Mon-YYYY`, the title and the HTML, in list order |
| Table.ReadWrittenTable | build.rs:29-51 | for embeddable posts the generated file reads back as one row per post, in order |
| Table.QuoteInTitleBreaksTable | build.rs:33-37 | a title containing `"` does not survive the generated file |
| Helpers.GetPostMetadataList | src/app/helpers.rs:13-22 | as many items as rows, in table order, each copying id, date and title and dropping the content |
| Helpers.GetPost | src/app/helpers.rs:24-42 | `Some` exactly when some row's id equals the path; then the first such row, as its metadata and its content |
| Helpers.IsLeftClick | src/app/helpers.rs:57-63 | true exactly when the main button is pressed with no modifier key |
| Helpers.GetPostById | src/app/helpers.rs:24-42 | a lookup by the decimal id `n` finds the first post with id `n` in the list, or nothing |
| Helpers.LookupFindsFirstInDirectoryOrder | src/app/helpers.rs:24-42 | after sorting and writing out, the lookup by `n` finds the post with id `n` that came first in directory order |
| Helpers.LeadingZeroPathMisses | src/app/helpers.rs:27-29 | a path with a leading zero, such as `01`, finds nothing |
| Http.Get | src/server/middleware/forwarded_for_key_extractor.rs:14 | `HeaderMap::get`: the value of the first field with the name, `None` exactly when there is none |
| Http.ToStr | src/server/middleware/forwarded_for_key_extractor.rs:15 | `to_str` succeeds exactly when every byte is visible ASCII or a tab, and keeps every byte |
| KeyExtractor.Extract | src/server/middleware/forwarded_for_key_extractor.rs:12-38 | the key is the first candidate, in order of trust, that parses as an address, and `UnableToExtractKey` when none does |
| KeyExtractor.FlyClientIpWins | src/server/middleware/forwarded_for_key_extractor.rs:14-20 | a parsable `Fly-Client-IP` decides the key, whatever `X-Forwarded-For` holds |
| KeyExtractor.FallsBackToForwarded | src/server/middleware/forwarded_for_key_extractor.rs:22-33 | without a usable `Fly-Client-IP`, the key comes from `X-Forwarded-For` alone |
| KeyExtractor.LaterElementsIgnored | src/server/middleware/forwarded_for_key_extractor.rs:25-27 | only the first element of `X-Forwarded-For` counts; an unparsable first element is an error even if later ones parse |
| KeyExtractor.NoHeadersNoKey | src/server/middleware/forwarded_for_key_extractor.rs:35-37 | a request with neither header gets `UnableToExtractKey` |
| Csrf.Check | src/server/middleware/csrf.rs:22-42 | a request passes exactly when its method is not POST, PUT or DELETE, or when the cookie token and header token are both present and equal; a rejection is 403 with `CSRF token missing or invalid` |
| Csrf.SafeMethodsIgnoreTokens | src/server/middleware/csrf.rs:24-25 | other methods pass, whatever cookies and headers they carry |
| Csrf.GuardedRejections | src/server/middleware/csrf.rs:30-37 | for a guarded method, a missing cookie, a missing header or different tokens are each rejected |
| Status.Unknown | src/server/repositories/status.rs:5-12 | the unknown badge: schema 1, label `status`, `unknown` in light grey |
| Status.CheckStatus | src/server/repositories/status.rs:14-55 | every badge has schema 1 and label `status`; its message and colour are those of the status class per section 15 of RFC 9110: 2xx up, 5xx degraded, 4xx down, a failed request maintenance, anything else unknown |
| Status.BadgeDeterminesHealth | src/server/repositories/status.rs:29-53 | different classifications never share a message |
| Status.OtherClassesUnknown | src/server/repositories/status.rs:51-53 | 1xx, 3xx and statuses from 600 up show the unknown badge |

## Left out

- File-system access is not modelled: `fs::read_dir`, `fs::read_to_string`, `fs::write`, `env::var` and the cargo directive in `main`. The directory is a given sequence of names and contents, and the output is a string. Unreadable entries, non-UTF-8 names and unreadable files, which the pipeline skips, have no counterpart.
- The order of `read_dir` is platform-dependent. It is the order of the given sequence.
- The markdown parser and `html::push_html` are abstract functions in `Posts.Markdown`; the parser's options (tables, footnotes, strikethrough, task lists) are not modelled.
- syntect is abstract in `Highlight.Highlighter`: syntax lookup, the theme, the snippet header and per-line highlighting. `highlight_line(..).unwrap()` is assumed not to fail.
- Of chrono, only the parser's handling of digit runs is modelled. Whitespace and signs inside the date text are not, and years are limited to four digits.
- `Http.Get` does not model header-name case folding; names are given in lower case, as the `http` crate stores them.
- Cookie parsing (`CookieJar::from_headers`) is not modelled; the jar is a given map from cookie name to value.
- The network call in `check_status` and its logging are not modelled; the outcome is a parameter.
- The `tracing::info!` and `tracing::warn!` calls in `extract` (forwarded_for_key_extractor.rs:18, 28, 36) are not modelled; they only log and do not change the key returned.
- `generate_csrf_token` is not modelled because it is random bytes and base64.
- The Leptos view code around `is_left_click` (navigation, `prevent_default`) is not modelled.
- The rest of the server is not modelled: routing, the other middleware, persistence and the periodic status task.
- Table.ReadWrittenTable: holds only for posts whose title has no `"`, `\` or carriage return and whose HTML has no `"###` or carriage return. The generated file quotes nothing, so other posts do not read back as written.
