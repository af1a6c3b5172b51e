/** The earlier `render_file` of rapid_md/render.py: the same lookup and decoding as the
    current one, but only `__content__` is filled in, and its media-type table has no
    entry for "stl". */
module LegacyRender {
  import opened Records
  import opened Text
  import Base64
  import RouterWeb

  /** The nine media types the earlier handler knows, by extension. */
  const LegacyMimeTypes: map<string, string> := map[
    "png" := "image/png",
    "jpg" := "image/jpeg",
    "jpeg" := "image/jpeg",
    "gif" := "image/gif",
    "svg" := "image/svg+xml",
    "pdf" := "application/pdf",
    "txt" := "text/plain",
    "md" := "text/markdown",
    "html" := "text/html"
  ]

  /** The media type of a raw file: extension taken as in the current handler, looked up
      in the nine-entry table. */
  function LegacyMimeType(filename: string): string
  {
    var ext := RouterWeb.MimeExtension(filename);
    if ext in LegacyMimeTypes then LegacyMimeTypes[ext] else RouterWeb.OctetStream
  }

  /** How the earlier handler shows one record: decode (500 on failure); markdown is decoded
      as UTF-8 (500 on failure), converted, and put in place of `__content__`; anything else
      is answered with its bytes. */
  function LegacyRenderRecord(f: FileRecord, filename: string, template: string,
                              markdown: string -> string, utf8: seq<byte> -> Option<string>): Response<Payload>
  {
    match Base64.Decode(f.content)
    case None => Error(ServerError("Incorrect padding"))
    case Some(bytes) =>
      if f.filetype == Markdown then
        match utf8(bytes)
        case None => Error(ServerError("invalid utf-8"))
        case Some(text) => Ok(Payload(Html(ReplaceAll(template, "__content__", markdown(text))), "text/html"))
      else
        Ok(Payload(Raw(bytes), LegacyMimeType(filename)))
  }

  /** The earlier `render_file`: the first stored record with the requested filename, or 404. */
  function LegacyRenderResult(files: seq<FileRecord>, filename: string, template: string,
                              markdown: string -> string, utf8: seq<byte> -> Option<string>): Response<Payload>
  {
    match FindByName(files, filename)
    case None => Error(NotFound)
    case Some(k) => LegacyRenderRecord(files[k], filename, template, markdown, utf8)
  }

  /** 404 exactly when no stored record has the requested filename. */
  lemma LegacyNotFound(files: seq<FileRecord>, filename: string, template: string,
                       markdown: string -> string, utf8: seq<byte> -> Option<string>)
    ensures LegacyRenderResult(files, filename, template, markdown, utf8) == Error(NotFound)
      <==> forall j :: 0 <= j < |files| ==> files[j].filename != filename
  {
  }

  /** A non-markdown record stored as the base64 envelope of some bytes is answered with
      exactly those bytes. */
  lemma LegacyRawBytes(f: FileRecord, bytes: seq<byte>, filename: string, template: string,
                       markdown: string -> string, utf8: seq<byte> -> Option<string>)
    requires f.filetype != Markdown && f.content == Base64.Encode(bytes)
    ensures LegacyRenderRecord(f, filename, template, markdown, utf8)
      == Ok(Payload(Raw(bytes), LegacyMimeType(filename)))
  {
    Base64.RoundTrip(bytes);
  }

  /** The stored class only chooses between the page and the raw answer: images and
      documents with the same content are served alike. */
  lemma LegacyIgnoresRawClass(f: FileRecord, filename: string, template: string,
                              markdown: string -> string, utf8: seq<byte> -> Option<string>)
    requires f.filetype != Markdown
    ensures LegacyRenderRecord(f, filename, template, markdown, utf8)
      == LegacyRenderRecord(f.(filetype := Image), filename, template, markdown, utf8)
    ensures LegacyRenderRecord(f, filename, template, markdown, utf8)
      == LegacyRenderRecord(f.(filetype := Document), filename, template, markdown, utf8)
  {
  }

  /** Every other placeholder survives: text of the template in which no `__content__`
      starts (say, up to and including a `__title__`) reaches the page unchanged. */
  lemma LegacyKeepsOtherPlaceholders(f: FileRecord, bytes: seq<byte>, text: string, filename: string,
                                     kept: string, rest: string,
                                     markdown: string -> string, utf8: seq<byte> -> Option<string>)
    requires f.filetype == Markdown && f.content == Base64.Encode(bytes) && utf8(bytes) == Some(text)
    requires forall i :: 0 <= i < |kept| ==> !OccursAt(kept + rest, "__content__", i)
    ensures LegacyRenderRecord(f, filename, kept + rest, markdown, utf8)
      == Ok(Payload(Html(kept + ReplaceAll(rest, "__content__", markdown(text))), "text/html"))
  {
    Base64.RoundTrip(bytes);
    ReplaceSkip(kept, rest, "__content__", markdown(text));
  }

  /** The two tables differ only in "stl". */
  lemma MimeTablesDiffer()
    ensures RouterWeb.MimeTypes == LegacyMimeTypes["stl" := "text/stl"]
    ensures "stl" !in LegacyMimeTypes
  {
  }

  /** The two handlers give every raw file the same media type, except the "stl" files,
      which the earlier one serves as generic binary and the current one as "text/stl". */
  lemma LegacyMimeAgrees(filename: string)
    ensures RouterWeb.MimeExtension(filename) != "stl" ==>
      LegacyMimeType(filename) == RouterWeb.MimeType(filename)
    ensures RouterWeb.MimeExtension(filename) == "stl" ==>
      LegacyMimeType(filename) == RouterWeb.OctetStream && RouterWeb.MimeType(filename) == "text/stl"
  {
    MimeTablesDiffer();
  }

  /** For a template that uses only `__content__`, the earlier and the current handler
      produce the same page. */
  lemma LegacyMatchesCurrentPage(template: string, filename: string, tagsHtml: string, contentHtml: string)
    requires forall i :: !OccursAt(template, "__page_title__", i)
    requires forall i :: !OccursAt(template, "__title__", i)
    requires forall i :: !OccursAt(template, "__navigation__", i)
    requires forall i :: !OccursAt(template, "__tags__", i)
    ensures RouterWeb.MarkdownPage(template, filename, tagsHtml, contentHtml)
      == ReplaceAll(template, "__content__", contentHtml)
  {
    ReplaceAbsent(template, "__page_title__", "Viewing " + filename);
    ReplaceAbsent(template, "__title__", filename);
    ReplaceAbsent(template, "__navigation__", RouterWeb.BackLink);
    ReplaceAbsent(template, "__tags__", tagsHtml);
  }
}
