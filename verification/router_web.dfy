/** The HTML side of the repository (rapid_md/router_web.py): `render_file`, which shows
    one stored file (markdown through the page template, anything else as raw bytes with
    a media type from the extension), and `home`, the table of every stored file. */
module RouterWeb {
  import opened Records
  import opened Text
  import Base64
  import Routers

  // ---------------------------------------------------------------------------
  // Media types of raw files

  /** `filename.split(".")[-1].lower()`: the text after the last '.', or the whole name
      when it has no dot, lower-cased. */
  function MimeExtension(filename: string): string
  {
    Lower(filename[LastIndexOf(filename, '.') + 1..])
  }

  /** The media types `render_file` knows, by extension. */
  const MimeTypes: map<string, string> := map[
    "png" := "image/png",
    "jpg" := "image/jpeg",
    "jpeg" := "image/jpeg",
    "gif" := "image/gif",
    "svg" := "image/svg+xml",
    "pdf" := "application/pdf",
    "txt" := "text/plain",
    "md" := "text/markdown",
    "html" := "text/html",
    "stl" := "text/stl"
  ]

  const OctetStream := "application/octet-stream"

  /** The media type of a raw file: the table entry for its extension, or the generic
      binary type. */
  function MimeType(filename: string): string
  {
    var ext := MimeExtension(filename);
    if ext in MimeTypes then MimeTypes[ext] else OctetStream
  }

  /** The extension looked up is the lower-cased text after the last dot. */
  lemma MimeExtensionOf(stem: string, e: string)
    requires '.' !in e
    ensures MimeExtension(stem + "." + e) == Lower(e)
  {
    var p := stem + "." + e;
    LastIndexAt(p, '.', |stem|);
    assert p[|stem| + 1..] == e;
  }

  /** A name without a dot is looked up whole. */
  lemma MimeExtensionUndotted(name: string)
    requires '.' !in name
    ensures MimeExtension(name) == Lower(name)
  {
    LastIndexAbsent(name, '.');
    assert name[0..] == name;
  }

  /** The media type of `stem.e`: the table entry for the lower-cased `e`, whatever the
      stem and whatever the case of `e`, or the generic binary type. */
  lemma MimeTypeOf(stem: string, e: string)
    requires '.' !in e
    ensures MimeType(stem + "." + e) == if Lower(e) in MimeTypes then MimeTypes[Lower(e)] else OctetStream
  {
    MimeExtensionOf(stem, e);
  }

  // ---------------------------------------------------------------------------
  // Tag HTML

  /** `str(value)` for the tag values the pages print; `None` for the ones they skip. */
  function TagText(v: TagValue): Option<string>
  {
    match v
    case TStr(s) => Some(s)
    case TInt(i) => Some(IntToString(i))
    case TFloat(repr) => Some(repr)
    case TBool(b) => Some(if b then "True" else "False")
    case TOther => None
  }

  const TagOpen := "<span class=\"tag\">"

  /** The span of one printed tag. */
  function TagSpan(key: string, text: string): string
  {
    TagOpen + "<span class=\"tag-key\">" + key + "</span>: <span class=\"tag-value\">" + text + "</span></span>"
  }

  /** What one entry of the tag map adds to the page. */
  function TagPiece(entry: (string, TagValue)): string
  {
    match TagText(entry.1)
    case None => ""
    case Some(text) => TagSpan(entry.0, text)
  }

  /** The spans of a tag map, one per printable entry, in map order. */
  function TagSpans(tags: Tags): string
  {
    if tags == [] then "" else TagSpans(tags[..|tags| - 1]) + TagPiece(tags[|tags| - 1])
  }

  /** The loop over `file.tags.items()`: the span of each printable entry is appended to
      `html`, one entry at a time. */
  method AppendTagSpans(html: string, tags: Tags) returns (out: string)
    ensures out == html + TagSpans(tags)
  {
    out := html;
    var i := 0;
    while i < |tags|
      invariant 0 <= i <= |tags|
      invariant out == html + TagSpans(tags[..i])
    {
      assert tags[..i + 1][..i] == tags[..i];
      ConcatAssoc(html, TagSpans(tags[..i]), TagPiece(tags[i]));
      out := out + TagPiece(tags[i]);
      i := i + 1;
    }
    assert tags[..i] == tags;
  }

  /** The spans of two tag lists one after the other are the spans of each. */
  lemma {:induction false} TagSpansConcat(a: Tags, b: Tags)
    ensures TagSpans(a + b) == TagSpans(a) + TagSpans(b)
    decreases |b|
  {
    if b != [] {
      var c, x := b[..|b| - 1], b[|b| - 1];
      assert (a + b)[..|a + b| - 1] == a + c;
      assert (a + b)[|a + b| - 1] == x;
      assert TagSpans(a + b) == TagSpans(a + c) + TagPiece(x);
      assert TagSpans(b) == TagSpans(c) + TagPiece(x);
      TagSpansConcat(a, c);
      ConcatAssoc(TagSpans(a), TagSpans(c), TagPiece(x));
    } else {
      assert a + b == a;
    }
  }

  /** Entries whose value is not a string, number or boolean leave no trace. */
  lemma TagSpansSkipOther(a: Tags, key: string, b: Tags)
    ensures TagSpans(a + [(key, TOther)] + b) == TagSpans(a + b)
  {
    var x := [(key, TOther)];
    TagSpansConcat(a + x, b);
    TagSpansConcat(a, x);
    assert x[..0] == [];
    assert TagSpans(x) == "";
    assert TagSpans(a + x) == TagSpans(a);
    TagSpansConcat(a, b);
  }

  /** Each printable entry yields exactly its span. */
  lemma TagSpansSingle(key: string, v: TagValue)
    ensures TagSpans([(key, v)]) == if v.TOther? then "" else TagSpan(key, TagText(v).value)
  {
    assert [(key, v)][..0] == [];
  }

  /** The spans are empty, or hold at least one whole span (87 characters of markup
      around a key and a value). */
  lemma {:induction false} TagSpansShape(tags: Tags)
    ensures TagSpans(tags) == [] || |TagSpans(tags)| >= |TagSpan("", "")|
    decreases |tags|
  {
    if tags != [] {
      var init := tags[..|tags| - 1];
      TagSpansShape(init);
      var last := tags[|tags| - 1];
      assert |TagSpan("", "")| == 87;
      if TagText(last.1).Some? {
        assert |TagSpan(last.0, TagText(last.1).value)| >= 87;
      }
    }
  }

  /** Python truthiness of `file.tags`: present and not empty. */
  predicate TagsTruthy(tags: Option<Tags>)
  {
    tags.Some? && |tags.value| > 0
  }

  const NoTagsComment := "<!-- No tags -->"

  /** The `__tags__` text of a markdown page. */
  function PageTagsHtml(tags: Option<Tags>): string
  {
    if TagsTruthy(tags) then "<h3>Tags:</h3>" + TagSpans(tags.value) else NoTagsComment
  }

  /** The page says "no tags" exactly when the record has no tags (none, or an empty map);
      otherwise it has the heading and then the spans. */
  lemma PageTagsEmpty(tags: Option<Tags>)
    ensures PageTagsHtml(tags) == NoTagsComment <==> !TagsTruthy(tags)
    ensures TagsTruthy(tags) ==> PageTagsHtml(tags) == "<h3>Tags:</h3>" + TagSpans(tags.value)
  {
    if TagsTruthy(tags) {
      TagSpansShape(tags.value);
      assert |NoTagsComment| == 16 && |"<h3>Tags:</h3>"| == 14 && |TagSpan("", "")| == 87;
    }
  }

  const NoTagsSpan := "<span style=\"color: #6a737d;\">No tags</span>"

  const TagsDivOpen := "<div class=\"tags\">"

  /** The tags cell of a home-page row. */
  function RowTagsHtml(tags: Option<Tags>): string
  {
    TagsDivOpen + (if TagsTruthy(tags) then TagSpans(tags.value) else NoTagsSpan) + "</div>"
  }

  /** The cell says "No tags" exactly when the record's tags are none or empty. */
  lemma RowTagsEmpty(tags: Option<Tags>)
    ensures RowTagsHtml(tags) == TagsDivOpen + NoTagsSpan + "</div>" <==> !TagsTruthy(tags)
  {
    if TagsTruthy(tags) {
      TagSpansShape(tags.value);
      assert |NoTagsSpan| == 44 && |TagSpan("", "")| == 87;
    }
  }

  // ---------------------------------------------------------------------------
  // render_file

  const BackLink := "<a href=\"/\" class=\"back-link\">Back to file list</a>"

  /** The template with every placeholder but `__content__` filled, in the order the
      handler replaces them. */
  function MarkdownPrefill(template: string, filename: string, tagsHtml: string): string
  {
    var t1 := ReplaceAll(template, "__page_title__", "Viewing " + filename);
    var t2 := ReplaceAll(t1, "__title__", filename);
    var t3 := ReplaceAll(t2, "__navigation__", BackLink);
    ReplaceAll(t3, "__tags__", tagsHtml)
  }

  /** The page of a markdown file: `__content__` is replaced last. */
  function MarkdownPage(template: string, filename: string, tagsHtml: string, contentHtml: string): string
  {
    ReplaceAll(MarkdownPrefill(template, filename, tagsHtml), "__content__", contentHtml)
  }

  /** The rendered markdown enters the page once per `__content__` left after the other
      placeholders are filled, and is never scanned again: up to the first `__content__`
      the page is the filled template, then comes the markdown as it is. */
  lemma MarkdownContentVerbatim(template: string, filename: string, tagsHtml: string,
                                contentHtml: string, before: string, after: string)
    requires MarkdownPrefill(template, filename, tagsHtml) == before + "__content__" + after
    requires forall i :: 0 <= i < |before| ==> !OccursAt(before + "__content__" + after, "__content__", i)
    ensures MarkdownPage(template, filename, tagsHtml, contentHtml)
      == before + contentHtml + ReplaceAll(after, "__content__", contentHtml)
  {
    ReplaceFirst(before, after, "__content__", contentHtml);
  }

  /** A template holding none of the five placeholders comes out unchanged. */
  lemma MarkdownPlain(template: string, filename: string, tagsHtml: string, contentHtml: string)
    requires forall i :: !OccursAt(template, "__page_title__", i)
    requires forall i :: !OccursAt(template, "__title__", i)
    requires forall i :: !OccursAt(template, "__navigation__", i)
    requires forall i :: !OccursAt(template, "__tags__", i)
    requires forall i :: !OccursAt(template, "__content__", i)
    ensures MarkdownPage(template, filename, tagsHtml, contentHtml) == template
  {
    ReplaceAbsent(template, "__page_title__", "Viewing " + filename);
    ReplaceAbsent(template, "__title__", filename);
    ReplaceAbsent(template, "__navigation__", BackLink);
    ReplaceAbsent(template, "__tags__", tagsHtml);
    ReplaceAbsent(template, "__content__", contentHtml);
  }

  /** How one stored record is shown: its content is base64-decoded (a failure is an
      unhandled error, so 500); a markdown record is decoded as UTF-8 (500 on failure),
      converted by `markdown` and put into the template; any other record is answered
      with its bytes and the media type of the requested name. */
  function RenderRecord(f: FileRecord, filename: string, template: string,
                        markdown: string -> string, utf8: seq<byte> -> Option<string>): Response<Payload>
  {
    match Base64.Decode(f.content)
    case None => Error(ServerError("Incorrect padding"))
    case Some(bytes) =>
      if f.filetype == Markdown then
        match utf8(bytes)
        case None => Error(ServerError("invalid utf-8"))
        case Some(text) =>
          Ok(Payload(Html(MarkdownPage(template, filename, PageTagsHtml(f.tags), markdown(text))), "text/html"))
      else
        Ok(Payload(Raw(bytes), MimeType(filename)))
  }

  /** `render_file`: the first stored record with the requested filename, or 404. */
  function RenderResult(files: seq<FileRecord>, filename: string, template: string,
                        markdown: string -> string, utf8: seq<byte> -> Option<string>): Response<Payload>
  {
    match FindByName(files, filename)
    case None => Error(NotFound)
    case Some(k) => RenderRecord(files[k], filename, template, markdown, utf8)
  }

  /** The intended handler: lookup, decode, then the template steps with the tag loop, or
      the raw answer. It reads the store and changes nothing. The code as written raises at
      the read of `file.tags`; `RenderRecordAsWritten` models that. */
  method RenderFile(store: Routers.FileStore, filename: string, template: string,
                    markdown: string -> string, utf8: seq<byte> -> Option<string>)
    returns (resp: Response<Payload>)
    ensures resp == RenderResult(store.records, filename, template, markdown, utf8)
  {
    var found := FindByName(store.records, filename);
    if found.None? {
      return Error(NotFound);
    }
    var file := store.records[found.value];
    var decoded := Base64.Decode(file.content);
    if decoded.None? {
      return Error(ServerError("Incorrect padding"));
    }
    var fileBytes := decoded.value;
    if file.filetype == Markdown {
      var text := utf8(fileBytes);
      if text.None? {
        return Error(ServerError("invalid utf-8"));
      }
      var htmlContent := markdown(text.value);
      var page := ReplaceAll(template, "__page_title__", "Viewing " + filename);
      page := ReplaceAll(page, "__title__", filename);
      page := ReplaceAll(page, "__navigation__", BackLink);
      var tagsHtml := "";
      if TagsTruthy(file.tags) {
        tagsHtml := AppendTagSpans("<h3>Tags:</h3>", file.tags.value);
      } else {
        tagsHtml := NoTagsComment;
      }
      page := ReplaceAll(page, "__tags__", tagsHtml);
      page := ReplaceAll(page, "__content__", htmlContent);
      return Ok(Payload(Html(page), "text/html"));
    }
    resp := Ok(Payload(Raw(fileBytes), MimeType(filename)));
  }

  /** The error the code meets when it reads `file.tags`: the stored record type has no
      such attribute, so the read raises and the framework answers 500. */
  const MissingTags := ServerError("'UploadedFile' object has no attribute 'tags'")

  /** `render_file` as the repository's code runs it on its own records: a markdown record
      that decodes reaches the read of `file.tags`, which raises. Other records are served
      as in `RenderRecord`. */
  function RenderRecordAsWritten(f: FileRecord, filename: string, template: string,
                                 markdown: string -> string, utf8: seq<byte> -> Option<string>): Response<Payload>
  {
    match Base64.Decode(f.content)
    case None => Error(ServerError("Incorrect padding"))
    case Some(bytes) =>
      if f.filetype == Markdown then
        match utf8(bytes)
        case None => Error(ServerError("invalid utf-8"))
        case Some(_) => Error(MissingTags)
      else
        Ok(Payload(Raw(bytes), MimeType(filename)))
  }

  /** As written, every readable markdown record answers 500, where the intended handler
      (`RenderRecord`) answers with its page. */
  lemma MarkdownAsWrittenFails(f: FileRecord, bytes: seq<byte>, text: string, filename: string,
                               template: string, markdown: string -> string, utf8: seq<byte> -> Option<string>)
    requires f.filetype == Markdown && f.content == Base64.Encode(bytes) && utf8(bytes) == Some(text)
    ensures RenderRecordAsWritten(f, filename, template, markdown, utf8).Error?
    ensures RenderRecordAsWritten(f, filename, template, markdown, utf8).error.Status() == 500
    ensures RenderRecord(f, filename, template, markdown, utf8).Ok?
  {
    Base64.RoundTrip(bytes);
  }

  /** Apart from readable markdown records, the code as written and the intended handler
      answer alike. */
  lemma RenderAsWrittenAgrees(f: FileRecord, filename: string, template: string,
                              markdown: string -> string, utf8: seq<byte> -> Option<string>)
    ensures RenderRecordAsWritten(f, filename, template, markdown, utf8).Ok? ==>
      RenderRecordAsWritten(f, filename, template, markdown, utf8) == RenderRecord(f, filename, template, markdown, utf8)
    ensures RenderRecord(f, filename, template, markdown, utf8).Error? ==>
      RenderRecordAsWritten(f, filename, template, markdown, utf8) == RenderRecord(f, filename, template, markdown, utf8)
  {
  }

  /** 404 exactly when no stored record has the requested filename. */
  lemma RenderNotFound(files: seq<FileRecord>, filename: string, template: string,
                       markdown: string -> string, utf8: seq<byte> -> Option<string>)
    ensures RenderResult(files, filename, template, markdown, utf8) == Error(NotFound)
      <==> forall j :: 0 <= j < |files| ==> files[j].filename != filename
  {
  }

  /** The record shown is the first one with the requested filename. */
  lemma RenderFirstMatch(files: seq<FileRecord>, k: nat, filename: string, template: string,
                         markdown: string -> string, utf8: seq<byte> -> Option<string>)
    requires k < |files| && files[k].filename == filename
    requires forall j :: 0 <= j < k ==> files[j].filename != filename
    ensures RenderResult(files, filename, template, markdown, utf8)
      == RenderRecord(files[k], filename, template, markdown, utf8)
  {
  }

  /** A non-markdown record stored as the base64 envelope of some bytes is answered with
      exactly those bytes, under the media type of its name. */
  lemma RenderRawBytes(f: FileRecord, bytes: seq<byte>, filename: string, template: string,
                       markdown: string -> string, utf8: seq<byte> -> Option<string>)
    requires f.filetype != Markdown && f.content == Base64.Encode(bytes)
    ensures RenderRecord(f, filename, template, markdown, utf8) == Ok(Payload(Raw(bytes), MimeType(filename)))
  {
    Base64.RoundTrip(bytes);
  }

  /** The stored class of a raw file never changes the answer: images and documents
      with the same content are served alike. */
  lemma RenderIgnoresRawClass(f: FileRecord, filename: string, template: string,
                              markdown: string -> string, utf8: seq<byte> -> Option<string>)
    requires f.filetype != Markdown
    ensures RenderRecord(f, filename, template, markdown, utf8)
      == RenderRecord(f.(filetype := Image), filename, template, markdown, utf8)
    ensures RenderRecord(f, filename, template, markdown, utf8)
      == RenderRecord(f.(filetype := Document), filename, template, markdown, utf8)
  {
  }

  /** A record that the archive branch of the upload stored for a readable member is served
      back as exactly that member's bytes when its class is not markdown. */
  lemma StoredMemberRendersItsBytes(rec: FileRecord, m: Routers.ZipMember, now: int, filename: string,
                                    template: string, markdown: string -> string,
                                    utf8: seq<byte> -> Option<string>)
    requires m.data.Readable?
    requires Routers.StoredAs(rec, Routers.MemberFile(m.name, m.data.bytes), now)
    requires rec.filetype != Markdown
    ensures RenderRecord(rec, filename, template, markdown, utf8) == Ok(Payload(Raw(m.data.bytes), MimeType(filename)))
  {
    RenderRawBytes(rec, m.data.bytes, filename, template, markdown, utf8);
  }

  /** A markdown record whose content decodes is a page built from the template, with its
      tags section in place of `__tags__`. */
  lemma RenderMarkdownPage(f: FileRecord, bytes: seq<byte>, text: string, filename: string,
                           template: string, markdown: string -> string, utf8: seq<byte> -> Option<string>)
    requires f.filetype == Markdown && f.content == Base64.Encode(bytes) && utf8(bytes) == Some(text)
    ensures RenderRecord(f, filename, template, markdown, utf8)
      == Ok(Payload(Html(MarkdownPage(template, filename, PageTagsHtml(f.tags), markdown(text))), "text/html"))
  {
    Base64.RoundTrip(bytes);
  }

  // ---------------------------------------------------------------------------
  // home

  const HomeEmpty := "<div class=\"empty-message\">No files uploaded yet.</div>"

  const TableHead := "\n        <table>\n            <thead>\n                <tr>\n                    <th>Filename</th>\n                    <th>Type</th>\n                    <th>Created At</th>\n                    <th>Tags</th>\n                </tr>\n            </thead>\n            <tbody>\n        "

  const TableFoot := "\n            </tbody>\n        </table>\n        "

  /** One table row: a link to the file's render page, its class, its creation time as
      formatted, and its tags cell. */
  function RowHtml(filename: string, filetype: string, created: string, tagsHtml: string): string
  {
    "\n            <tr>\n                <td>"
    + "<a href=\"/render/" + filename + "\" class=\"filetype-" + filetype + "\">" + filename + "</a>"
    + RowCells(filetype, created, tagsHtml)
  }

  /** The rest of a row after the link. */
  function RowCells(filetype: string, created: string, tagsHtml: string): string
  {
    "</td>\n                <td>" + filetype + "</td>\n                <td>" + created
    + "</td>\n                <td>" + tagsHtml + "</td>\n            </tr>\n            "
  }

  /** The row of a record; `fmt` stands for `strftime("%Y-%m-%d %H:%M")`. */
  function Row(f: FileRecord, fmt: int -> string): string
  {
    RowHtml(f.filename, f.filetype.Value(), fmt(f.createdAt), RowTagsHtml(f.tags))
  }

  /** The rows of a list of records, in list order. */
  function Rows(files: seq<FileRecord>, fmt: int -> string): string
  {
    if files == [] then "" else Rows(files[..|files| - 1], fmt) + Row(files[|files| - 1], fmt)
  }

  /** The `__content__` text of the home page for records already in display order. */
  function HomeContent(files: seq<FileRecord>, fmt: int -> string): string
  {
    if files == [] then HomeEmpty else TableHead + Rows(files, fmt) + TableFoot
  }

  /** The home template with its fixed placeholders filled, `__content__` still open. */
  function HomePrefill(template: string): string
  {
    var t1 := ReplaceAll(template, "__page_title__", "Home");
    var t2 := ReplaceAll(t1, "__title__", "Files Repository");
    var t3 := ReplaceAll(t2, "__navigation__", "<!-- No navigation on home page -->");
    ReplaceAll(t3, "__tags__", "<!-- No tags on home page -->")
  }

  /** `home`: the records newest first, then the page. */
  function HomePage(files: seq<FileRecord>, template: string, fmt: int -> string): string
  {
    ReplaceAll(HomePrefill(template), "__content__", HomeContent(SortByCreatedDesc(files), fmt))
  }

  /** The tags cell of one row, built as `home` builds it: the spans appended by the tag
      loop, or the "No tags" note. */
  method RowTags(tags: Option<Tags>) returns (html: string)
    ensures html == RowTagsHtml(tags)
  {
    html := TagsDivOpen;
    if TagsTruthy(tags) {
      html := AppendTagSpans(html, tags.value);
    } else {
      html := html + NoTagsSpan;
    }
    html := html + "</div>";
  }

  /** The table loop of `home`: the head, then one row per record in the given order, each
      with its tags cell built by the tag loop. */
  method BuildTable(files: seq<FileRecord>, fmt: int -> string) returns (table: string)
    ensures table == TableHead + Rows(files, fmt)
  {
    table := TableHead;
    var i := 0;
    while i < |files|
      invariant 0 <= i <= |files|
      invariant table == TableHead + Rows(files[..i], fmt)
    {
      var file := files[i];
      var createdAt := fmt(file.createdAt);
      var tagsHtml := RowTags(file.tags);
      assert files[..i + 1][..i] == files[..i];
      ConcatAssoc(TableHead, Rows(files[..i], fmt), Row(file, fmt));
      table := table + RowHtml(file.filename, file.filetype.Value(), createdAt, tagsHtml);
      i := i + 1;
    }
    assert files[..i] == files;
  }

  /** The intended handler: the fixed placeholders, then the empty message or the table,
      then `__content__`. It reads the store and changes nothing. The code as written raises
      at the read of `file.tags` once a record is stored; `HomeAsWritten` models that. */
  method Home(store: Routers.FileStore, template: string, fmt: int -> string) returns (page: string)
    ensures page == HomePage(store.records, template, fmt)
  {
    var files := SortByCreatedDesc(store.records);
    page := ReplaceAll(template, "__page_title__", "Home");
    page := ReplaceAll(page, "__title__", "Files Repository");
    page := ReplaceAll(page, "__navigation__", "<!-- No navigation on home page -->");
    page := ReplaceAll(page, "__tags__", "<!-- No tags on home page -->");
    var content: string;
    if files == [] {
      content := HomeEmpty;
    } else {
      var table := BuildTable(files, fmt);
      content := table + TableFoot;
    }
    page := ReplaceAll(page, "__content__", content);
  }

  /** `home` as the repository's code runs it: the table loop reads `file.tags` of the
      first record, which raises, so only an empty store gets a page. */
  function HomeAsWritten(files: seq<FileRecord>, template: string, fmt: int -> string): Response<string>
  {
    if files == [] then Ok(HomePage(files, template, fmt)) else Error(MissingTags)
  }

  /** As written, the home page is served exactly when nothing is stored; then it is the
      intended page with the empty message. */
  lemma HomeAsWrittenFails(files: seq<FileRecord>, template: string, fmt: int -> string)
    ensures HomeAsWritten(files, template, fmt).Ok? <==> files == []
    ensures HomeAsWritten(files, template, fmt).Error? ==> HomeAsWritten(files, template, fmt).error.Status() == 500
    ensures files == [] ==>
      HomeAsWritten(files, template, fmt) == Ok(ReplaceAll(HomePrefill(template), "__content__", HomeEmpty))
  {
  }

  /** The page shows the empty message exactly when there is nothing stored. */
  lemma HomeEmptyExactly(files: seq<FileRecord>, fmt: int -> string)
    ensures HomeContent(files, fmt) == HomeEmpty <==> files == []
  {
    if files != [] {
      assert |HomeEmpty| == 55 && |TableHead| == 275;
    }
  }

  /** Rows of two lists one after the other are the rows of each: one row per record, in
      order. */
  lemma {:induction false} RowsConcat(a: seq<FileRecord>, b: seq<FileRecord>, fmt: int -> string)
    ensures Rows(a + b, fmt) == Rows(a, fmt) + Rows(b, fmt)
    decreases |b|
  {
    if b != [] {
      var c, x := b[..|b| - 1], b[|b| - 1];
      assert (a + b)[..|a + b| - 1] == a + c;
      assert (a + b)[|a + b| - 1] == x;
      assert Rows(a + b, fmt) == Rows(a + c, fmt) + Row(x, fmt);
      assert Rows(b, fmt) == Rows(c, fmt) + Row(x, fmt);
      RowsConcat(a, c, fmt);
      ConcatAssoc(Rows(a, fmt), Rows(c, fmt), Row(x, fmt));
    } else {
      assert a + b == a;
    }
  }

  /** A one-record list has exactly that record's row. */
  lemma RowsSingle(f: FileRecord, fmt: int -> string)
    ensures Rows([f], fmt) == Row(f, fmt)
  {
    assert [f][..0] == [];
  }

  /** Every row holds a link to `/render/` followed by the record's filename, marked with
      the record's class and showing the filename. */
  lemma RowLinksToRender(f: FileRecord, fmt: int -> string)
    ensures exists pre, post ::
              Row(f, fmt) == pre + "<a href=\"/render/" + f.filename
                             + "\" class=\"filetype-" + f.filetype.Value() + "\">" + f.filename + "</a>" + post
  {
    var pre := "\n            <tr>\n                <td>";
    var post := RowCells(f.filetype.Value(), fmt(f.createdAt), RowTagsHtml(f.tags));
    assert Row(f, fmt) == pre + "<a href=\"/render/" + f.filename
      + "\" class=\"filetype-" + f.filetype.Value() + "\">" + f.filename + "</a>" + post;
  }

  /** On the home page the rendered content (the table or the empty message) enters once
      per `__content__` of the template and is not scanned again. */
  lemma HomeContentVerbatim(template: string, files: seq<FileRecord>, fmt: int -> string,
                            before: string, after: string)
    requires HomePrefill(template) == before + "__content__" + after
    requires forall i :: 0 <= i < |before| ==> !OccursAt(before + "__content__" + after, "__content__", i)
    ensures HomePage(files, template, fmt)
      == before + HomeContent(SortByCreatedDesc(files), fmt)
         + ReplaceAll(after, "__content__", HomeContent(SortByCreatedDesc(files), fmt))
  {
    ReplaceFirst(before, after, "__content__", HomeContent(SortByCreatedDesc(files), fmt));
  }

  // ---------------------------------------------------------------------------
  // Display order

  /** Newest first. */
  predicate SortedByCreatedDesc(files: seq<FileRecord>)
  {
    forall i, j :: 0 <= i < j < |files| ==> files[i].createdAt >= files[j].createdAt
  }

  /** `f` placed before the first record of `sorted` that is not newer than it. */
  function InsertByCreated(f: FileRecord, sorted: seq<FileRecord>): seq<FileRecord>
  {
    if sorted == [] || sorted[0].createdAt <= f.createdAt then [f] + sorted
    else [sorted[0]] + InsertByCreated(f, sorted[1..])
  }

  /** `order_by(created_at.desc())`: the records newest first; records with equal times
      keep their store order. */
  function SortByCreatedDesc(files: seq<FileRecord>): seq<FileRecord>
  {
    if files == [] then [] else InsertByCreated(files[0], SortByCreatedDesc(files[1..]))
  }

  /** No record of `files` is newer than `t`. */
  predicate NotNewerThan(files: seq<FileRecord>, t: int)
  {
    forall k :: 0 <= k < |files| ==> files[k].createdAt <= t
  }

  lemma NewestFirstCons(f: FileRecord, files: seq<FileRecord>)
    requires SortedByCreatedDesc(files) && NotNewerThan(files, f.createdAt)
    ensures SortedByCreatedDesc([f] + files)
  {
    var s := [f] + files;
    forall i, j | 0 <= i < j < |s| ensures s[i].createdAt >= s[j].createdAt {
      assert s[j] == files[j - 1];
      if i > 0 {
        assert s[i] == files[i - 1];
      }
    }
  }

  /** Rearranging records does not make any of them newer. */
  lemma NotNewerPermuted(files: seq<FileRecord>, other: seq<FileRecord>, t: int)
    requires multiset(files) == multiset(other) && NotNewerThan(other, t)
    ensures NotNewerThan(files, t)
  {
    forall k | 0 <= k < |files| ensures files[k].createdAt <= t {
      assert files[k] in multiset(other);
      var j :| 0 <= j < |other| && other[j] == files[k];
    }
  }

  /** Inserting one record into a newest-first list keeps it newest first and adds exactly
      that record. */
  lemma {:induction false} InsertKeepsOrder(f: FileRecord, sorted: seq<FileRecord>)
    requires SortedByCreatedDesc(sorted)
    ensures SortedByCreatedDesc(InsertByCreated(f, sorted))
    ensures multiset(InsertByCreated(f, sorted)) == multiset(sorted) + multiset{f}
    decreases |sorted|
  {
    if sorted == [] || sorted[0].createdAt <= f.createdAt {
      assert NotNewerThan(sorted, f.createdAt) by {
        forall k | 0 <= k < |sorted| ensures sorted[k].createdAt <= f.createdAt {
          assert sorted[k].createdAt <= sorted[0].createdAt;
        }
      }
      NewestFirstCons(f, sorted);
    } else {
      var head, tail := sorted[0], sorted[1..];
      assert sorted == [head] + tail;
      var rest := InsertByCreated(f, tail);
      InsertKeepsOrder(f, tail);
      assert NotNewerThan(tail + [f], head.createdAt) by {
        forall k | 0 <= k < |tail + [f]| ensures (tail + [f])[k].createdAt <= head.createdAt {
          if k < |tail| {
            assert (tail + [f])[k] == sorted[k + 1];
          }
        }
      }
      assert multiset(tail + [f]) == multiset(tail) + multiset{f};
      NotNewerPermuted(rest, tail + [f], head.createdAt);
      NewestFirstCons(head, rest);
      assert InsertByCreated(f, sorted) == [head] + rest;
    }
  }

  /** The display order is newest first and holds exactly the stored records. */
  lemma {:induction false} SortByCreatedDescSpec(files: seq<FileRecord>)
    ensures SortedByCreatedDesc(SortByCreatedDesc(files))
    ensures multiset(SortByCreatedDesc(files)) == multiset(files)
    ensures |SortByCreatedDesc(files)| == |files|
  {
    if files != [] {
      var rest := SortByCreatedDesc(files[1..]);
      SortByCreatedDescSpec(files[1..]);
      InsertKeepsOrder(files[0], rest);
      assert SortByCreatedDesc(files) == InsertByCreated(files[0], rest);
      assert files == [files[0]] + files[1..];
      assert multiset(files) == multiset(files[1..]) + multiset{files[0]};
    }
  }

  /** The home table has one row per stored record, newest first. */
  lemma HomeRows(files: seq<FileRecord>, fmt: int -> string)
    requires files != []
    ensures var shown := SortByCreatedDesc(files);
      && HomeContent(shown, fmt) == TableHead + Rows(shown, fmt) + TableFoot
      && SortedByCreatedDesc(shown) && multiset(shown) == multiset(files)
  {
    SortByCreatedDescSpec(files);
  }
}
