# rapid_md in Dafny

rapid_md is a small file repository served over HTTP. Clients holding the API key upload
files as base64 text. A file is stored as one record; a `.zip` archive is expanded and each
file inside it is stored as its own record. Clients can also list and delete records. A home page is
meant to table every record, newest first. A `/render/<filename>` page is meant to show a
markdown record as HTML in a page template, and it serves any other record as raw bytes,
with a media type taken from the file's extension. As written, both pages read a `tags`
attribute that stored records do not have. So the home page of a non-empty store answers
500, and so does every readable markdown record (see "## Findings"). The model states both
the code as written and the intended pages.

This project models that logic and proves properties of it:

- `text.dfy` (module `Text`) holds the Python string operations the code relies on:
  - `str.replace`, with its left-to-right, non-overlapping, no-rescan semantics;
  - `os.path.basename`, `str.rfind` for one character, `str.lower` and `str(int)`.
- `base64.dfy` (module `Base64`) implements standard base64 (section 4 of RFC 4648) and
  proves that decoding inverts encoding.
- `records.dfy` (module `Records`) holds:
  - the stored record, the file classes and tag values;
  - the error answers with their status codes;
  - the lookup of the first record with a given filename.
- `routers.dfy` (module `Routers`) models rapid_md/routers.py:
  - the classifier `GuessFiletype` (with `os.path.splitext` semantics) and the API-key check;
  - the store as a class `FileStore`, whose `records` sequence and id counter its methods
    update in place;
  - `UploadFile` with its member loop, `ListFiles` and `DeleteFile`.
- `router_web.dfy` (module `RouterWeb`) models rapid_md/router_web.py:
  - `RenderFile` and `Home` are methods with the handler's loops. Each is proved equal to a
    specification function (`RenderResult`, `HomePage`), and the lemmas state the
    properties of those functions.
  - Placeholders are filled by successive replaces, in the code's order, with `__content__`
    last.
- `render.dfy` (module `LegacyRender`) models the earlier handler in rapid_md/render.py and
  relates it to the current one.

Collaborators outside the core are parameters:

- the configured API key (`configured`; the empty string means unset);
- the archive reader `parseZip`;
- the markdown converter `markdown`;
- UTF-8 decoding `utf8`;
- the `strftime` formatting `fmt`;
- the clock `now`;
- the page `template`.

Ids come from a counter standing for `uuid4`. Every id handed out is above every id in use,
so ids are unique (`FileStore.Valid`).

Where the repository's intended design and its code differ, the model follows the code:

- The home page is one flat table. There is no grouping by tag or by upload session, although
  tests/test_web.py:140-152 expects such groups.
- Records have no `tags` or `upload_session` column (rapid_md/models.py:15-22), and uploads
  never set them. The pages still read `file.tags`, and that read raises. `RenderRecordAsWritten`
  and `HomeAsWritten` model this. The intended pages (`RenderRecord`, `HomePage`) give records
  an optional tag map, which the upload always leaves empty (`None`).
- Archive ingestion is not all-or-nothing. Every member is committed as it is saved, so a
  member that fails to read answers 400 and the members saved before it stay stored.
- An unset key is a server error (500), not a 401. The key is read before the header is
  compared, and reading it raises outside the `try`.
- The markdown page title is "Viewing " followed by the filename. The zip answer lists
  id, filename and class for each stored file.

## Model

| member | source | states |
|---|---|---|
| Text.Basename | rapid_md/routers.py:101 | `os.path.basename`, the text after the last '/'; specified by `BasenameIsLastComponent` |
| Text.ReplaceAll | rapid_md/router_web.py:26-31 | `str.replace`; specified by `ReplaceAbsent`, `ReplaceSkip` and `ReplaceFirst` |
| Text.Lower | rapid_md/routers.py:68 | `str.lower`; specified by `Routers.LowerIdempotent`, `Routers.LowerKeepsLastIndex` and `Routers.LowerSuffix`, and used by `Routers.SplitExtLower` and `Routers.ClassifyIgnoresCase` |
| Text.EndsWith | rapid_md/routers.py:104 | `str.endswith`: the last characters are the suffix; it states the suffix in `BasenameIsLastComponent` and decides `Routers.IsZipName` and `Routers.IsDirectory` |
| Text.IntToString | rapid_md/router_web.py:59 | `str(i)` of an integer tag value; specified by `IntToStringSign` and `NatToStringDigits` |
| Text.NatToStringDigits | rapid_md/router_web.py:59 | `str(n)` is a non-empty run of decimal digits, with no leading zero unless it is 0, that denotes `n` |
| Text.IntToStringSign | rapid_md/router_web.py:120 | `str(i)` starts with '-' exactly for a negative `i`, and its digits denote the magnitude |
| Text.LastIndexOf | rapid_md/router_web.py:131 | `str.rfind` of one character: the result is -1 or a position holding the character, and no later position holds it |
| Text.BasenameIsLastComponent | rapid_md/routers.py:101 | `os.path.basename` gives the final path component: it holds no '/', it ends the path, it is the whole path when there is no '/', and otherwise a '/' stands right before it |
| Text.ReplaceAbsent | rapid_md/router_web.py:105-128 | a `replace` whose pattern never occurs leaves the text unchanged |
| Text.ReplaceSkip | rapid_md/render.py:30 | text in which no occurrence of the pattern starts is copied verbatim, and the replace continues on the rest |
| Text.ReplaceFirst | rapid_md/router_web.py:128 | the replacement text goes in verbatim at the first occurrence and is never scanned again; scanning resumes after the occurrence |
| Base64.ValueOf | rapid_md/router_web.py:95 | reading a base64 character inverts the alphabet |
| Base64.Encode | rapid_md/routers.py:115 | `b64encode` output comes in 4-character groups; it is empty exactly for no bytes and one group exactly for 1 to 3 bytes |
| Base64.Decode | rapid_md/router_web.py:95 | only whole groups of four characters decode, and each group gives three bytes, except that the last may give one or two |
| Base64.RoundTrip | rapid_md/routers.py:115 | decoding the encoding of any byte sequence gives back that sequence |
| Records.FindByName | rapid_md/router_web.py:92 | the query's `.first()`: the index of a record with the name, with no such record before it; none exactly when no record has the name |
| Routers.SplitExt | rapid_md/routers.py:68 | `os.path.splitext(p)[1]`; specified by `ExtensionOf`, `ClassifyWithoutDot`, `ClassifyDotfile` and `SplitExtLower` |
| Routers.GuessFiletype | rapid_md/routers.py:67-74 | `guess_filetype`; specified by `ClassifyByExtension`, `ClassifyWithoutDot`, `ClassifyDotfile` and `ClassifyIgnoresCase` |
| Routers.ExtensionOf | rapid_md/routers.py:68 | `os.path.splitext` of `stem.e` (stem not only dots, no '/' or '.' in `e`) is `.e` |
| Routers.ClassifyByExtension | rapid_md/routers.py:67-74 | `GuessFiletype` of `stem.e` is markdown exactly when lower-cased `e` is md or markdown, and image exactly when it is jpg, jpeg, png, gif, bmp or svg; otherwise document |
| Routers.ClassifyWithoutDot | rapid_md/routers.py:68-74 | a name without any dot is a document |
| Routers.ClassifyDotfile | rapid_md/routers.py:68-74 | a name made of one or more leading dots and an undotted rest, such as `.md` or `..md`, has no extension and is a document |
| Routers.SplitExtLower | rapid_md/routers.py:68 | taking the extension commutes with lower-casing |
| Routers.ClassifyIgnoresCase | rapid_md/routers.py:68 | classification does not depend on the case of the name |
| Routers.CheckApiKey | rapid_md/routers.py:97-99 | the request passes exactly when a key is configured and the header equals it; otherwise 401, or 500 when no key is configured |
| Routers.IsZipName | rapid_md/routers.py:104 | the archive test, a ".zip" ending in any case; it decides the branch in the contract of `FileStore.UploadFile` |
| Routers.IsDirectory | rapid_md/routers.py:110 | `ZipInfo.is_dir()`, a name ending in '/'; directories are skipped in the contracts of `FileMembers`, `ExtractedCount` and `FileStore.SaveMember` |
| Routers.OpenArchive | rapid_md/routers.py:106-107 | decoding the payload, then opening it as an archive; its failure is the 400 in the contract of `FileStore.UploadArchive` |
| Routers.MemberFile | rapid_md/routers.py:111-115 | the file stored for a member: base name, that name's class, the base64 of its bytes; specified by `ExtractedFromFileMembers` and `RouterWeb.StoredMemberRendersItsBytes` |
| Routers.Extracted | rapid_md/routers.py:108-121 | the files the member loop stores; specified by `ExtractedCount`, `ExtractedFromFileMembers`, `ExtractedStopsAtReadError` and `ExtractedAdvance` |
| Routers.ReadError | rapid_md/routers.py:113-114 | the read error that stops the member loop; specified by `ExtractedCount` and `ExtractedAdvance` |
| Routers.FileMembers | rapid_md/routers.py:108-110 | the file members are exactly the members that are not directories, and never more than all members |
| Routers.FileMembersConcat | rapid_md/routers.py:108-110 | the file members keep archive order: those of an earlier part of the archive come before those of a later part |
| Routers.ExtractedCount | rapid_md/routers.py:108-121 | at most one stored file per non-directory member, and exactly one each when no member fails to read |
| Routers.ExtractedFromFileMembers | rapid_md/routers.py:111-116 | the k-th stored file is the k-th non-directory member converted (with `MemberFile`: its base name, that name's class, and the base64 of its bytes) |
| Routers.ExtractedStopsAtReadError | rapid_md/routers.py:108-121 | when a read fails, fewer files are stored than there are file members, and the file member right after the stored ones is the one whose read failed, with that error |
| Routers.SummaryOf | rapid_md/routers.py:29-34 | `list_files`' per-record entry: id, filename, time and class; specified by the contract of `FileStore.ListFiles` |
| Routers.SavedOf | rapid_md/routers.py:117-121 | the upload answer's per-file entry: id, filename and class; specified by the contracts of `FileStore.UploadSingle` and `FileStore.SaveMembers` |
| Routers.UploadResult.Message | rapid_md/routers.py:122-126 | the answer's `message` text; specified by the contract of `FileStore.UploadFile` |
| Routers.FileStore.constructor | rapid_md/models.py:15-22 | the table starts empty and valid |
| Routers.FileStore.Save | rapid_md/routers.py:77-87 | `save_uploaded_file` appends exactly one record with the given fields, the time `now`, no tags and an id no other record has; ids stay unique |
| Routers.FileStore.ListFiles | rapid_md/routers.py:19-36 | a key failure is answered with its error; otherwise one summary per stored record, in store order; nothing changes |
| Routers.FileStore.DeleteFile | rapid_md/routers.py:38-52 | a key failure or an absent id (404) leaves the store unchanged; otherwise exactly that record is removed, the others stay in order, and no record has the id afterwards |
| Routers.FileStore.UploadFile | rapid_md/routers.py:90-132 | a key failure changes nothing. A non-zip name appends one record (base name, the request's base64 text unchanged, the name's class) and echoes it. A `.zip` name in any case appends the converted members in archive order up to the first unreadable one, answering the saved list or 400. A bad archive answers 400 and changes nothing. A successful answer carries the message of its branch |
| Routers.FileStore.UploadSingle | rapid_md/routers.py:123-130 | a non-archive upload appends exactly one record (the name, the request's base64 text unchanged, the name's class) and answers with that record's id, name and class |
| Routers.FileStore.UploadArchive | rapid_md/routers.py:104-122 | an archive that cannot be decoded or opened answers 400 and changes nothing; otherwise the converted members up to the first unreadable one are appended in order, answered with the saved list, or 400 with the read error |
| Routers.ExtractedAdvance | rapid_md/routers.py:108-121 | handling one member either ends the loop with everything extracted and the archive's read error, or leaves to extract exactly what the members after it give |
| Routers.FileStore.SaveMember | rapid_md/routers.py:109-121 | one pass of the member loop: a directory adds nothing; an unreadable member stops with its error; a readable one appends its converted file and summary |
| Routers.FileStore.SaveMembers | rapid_md/routers.py:108-121 | the member loop appends exactly the converted files of the members before the first unreadable one, in order, and reports that member's error. Its result list (`SavedAll`) has one entry per appended record, in order, with that record's id, filename and class. Where it stops is stated by `ExtractedStopsAtReadError` |
| Routers.FindId | rapid_md/routers.py:47 | the position of a record with the id, or no record has it |
| RouterWeb.MimeExtension | rapid_md/router_web.py:131 | `filename.split(".")[-1].lower()`; specified by `MimeExtensionOf` and `MimeExtensionUndotted` |
| RouterWeb.MimeType | rapid_md/router_web.py:131-144 | the table lookup with its default; specified by `MimeTypeOf` |
| RouterWeb.MimeExtensionOf | rapid_md/router_web.py:131 | the extension looked up for `stem.e` is lower-cased `e`, whatever the stem |
| RouterWeb.MimeExtensionUndotted | rapid_md/router_web.py:131 | a name without a dot is looked up whole, lower-cased |
| RouterWeb.MimeTypeOf | rapid_md/router_web.py:131-144 | the media type of `stem.e` is the ten-entry table's entry for lower-cased `e`, or `application/octet-stream` |
| RouterWeb.TagText | rapid_md/router_web.py:58-59 | the `isinstance` filter and `str(value)`; specified by `TagSpansSkipOther` and `TagSpansSingle` |
| RouterWeb.TagSpans | rapid_md/router_web.py:57-59 | the text both tag loops build; specified by `TagSpansConcat`, `TagSpansSingle`, `TagSpansSkipOther` and `TagSpansShape`, and computed by `AppendTagSpans` |
| RouterWeb.AppendTagSpans | rapid_md/router_web.py:117-120 | the tag loop appends exactly the spans of the tag map to what was there |
| RouterWeb.TagSpansConcat | rapid_md/router_web.py:118-120 | the spans of two tag lists in a row are the spans of each, in order |
| RouterWeb.TagSpansSkipOther | rapid_md/router_web.py:119 | an entry whose value is not a str, int, float or bool leaves no trace |
| RouterWeb.TagSpansSingle | rapid_md/router_web.py:119-120 | a printable entry yields exactly its key/value span, anything else nothing |
| RouterWeb.TagSpansShape | rapid_md/router_web.py:120 | the spans are empty or at least one whole span long |
| RouterWeb.PageTagsHtml | rapid_md/router_web.py:115-122 | the markdown page's tags section; specified by `PageTagsEmpty` and `TagSpansSingle` |
| RouterWeb.RowTagsHtml | rapid_md/router_web.py:55-62 | the home row's tags cell; specified by `RowTagsEmpty` and built by `RowTags` |
| RouterWeb.MarkdownPage | rapid_md/router_web.py:105-128 | the template steps of `render_file`; specified by `MarkdownContentVerbatim` and `MarkdownPlain` |
| RouterWeb.RenderRecord | rapid_md/router_web.py:95-145 | the intended answer for one record; specified by `RenderRawBytes`, `RenderIgnoresRawClass`, `RenderMarkdownPage` and `StoredMemberRendersItsBytes` |
| RouterWeb.RenderResult | rapid_md/router_web.py:90-145 | the intended `render_file`; specified by `RenderNotFound` and `RenderFirstMatch`, and computed by `RenderFile` |
| RouterWeb.RenderRecordAsWritten | rapid_md/router_web.py:95-122 | `render_file` as written on stored records: the read of `file.tags` raises for every readable markdown record |
| RouterWeb.MarkdownAsWrittenFails | rapid_md/router_web.py:116 | as written, a markdown record whose content decodes to text answers 500, where the intended handler answers with its page |
| RouterWeb.RenderAsWrittenAgrees | rapid_md/router_web.py:95-145 | every other answer of the code as written, success or error, is the intended handler's |
| RouterWeb.PageTagsEmpty | rapid_md/router_web.py:115-122 | the markdown page's tags section is the "No tags" comment exactly when the tags are none or empty; otherwise the heading followed by the spans |
| RouterWeb.RowTagsEmpty | rapid_md/router_web.py:55-62 | a home-page tags cell shows "No tags" exactly when the record's tags are none or empty |
| RouterWeb.MarkdownContentVerbatim | rapid_md/router_web.py:128 | the markdown HTML replaces the first remaining `__content__` verbatim and is never scanned for placeholders |
| RouterWeb.MarkdownPlain | rapid_md/router_web.py:105-128 | a template holding none of the five placeholders comes out unchanged |
| RouterWeb.RenderFile | rapid_md/router_web.py:90-145 | the handler (lookup, decode, replace steps with the tag loop, or the raw answer) gives exactly `RenderResult` and changes nothing |
| RouterWeb.RenderNotFound | rapid_md/router_web.py:92-94 | 404 exactly when no stored record has the requested filename |
| RouterWeb.RenderFirstMatch | rapid_md/router_web.py:92 | the record rendered is the first one with the requested filename |
| RouterWeb.RenderRawBytes | rapid_md/router_web.py:145 | a non-markdown record holding the base64 of some bytes is answered with exactly those bytes and the media type of the requested name |
| RouterWeb.RenderIgnoresRawClass | rapid_md/router_web.py:131-145 | the stored class of a raw file does not affect the answer: image and document records are served alike |
| RouterWeb.StoredMemberRendersItsBytes | rapid_md/router_web.py:145 | a non-markdown record stored from an archive member is served back as exactly that member's bytes |
| RouterWeb.RenderMarkdownPage | rapid_md/router_web.py:96-130 | a markdown record whose content decodes is answered with the filled template as `text/html` |
| RouterWeb.RowTags | rapid_md/router_web.py:55-62 | the tags-cell loop builds exactly the cell `RowTagsHtml` describes |
| RouterWeb.BuildTable | rapid_md/router_web.py:37-75 | the table loop yields the head followed by one row per record, in the given order |
| RouterWeb.Home | rapid_md/router_web.py:13-87 | the handler gives exactly `HomePage`: fixed placeholders, then the empty message or the table of the records newest first; nothing changes |
| RouterWeb.Row | rapid_md/router_web.py:50-75 | one table row; specified by `RowsSingle` and `RowLinksToRender` |
| RouterWeb.Rows | rapid_md/router_web.py:50-75 | the rows of the records in order; specified by `RowsConcat` and `RowsSingle` |
| RouterWeb.HomeContent | rapid_md/router_web.py:33-82 | the `__content__` text; specified by `HomeEmptyExactly` and `HomeRows` |
| RouterWeb.HomePage | rapid_md/router_web.py:18-85 | the intended `home` page; specified by `HomeContentVerbatim` and `HomeRows`, and computed by `Home` |
| RouterWeb.SortByCreatedDesc | rapid_md/router_web.py:18 | `order_by(created_at.desc())`; specified by `SortByCreatedDescSpec` |
| RouterWeb.HomeAsWritten | rapid_md/router_web.py:50-56 | `home` as written on stored records: the first row's read of `file.tags` raises |
| RouterWeb.HomeAsWrittenFails | rapid_md/router_web.py:33-56 | as written, the home page is served exactly when nothing is stored, and it is then the page with the empty message; otherwise 500 |
| RouterWeb.HomeEmptyExactly | rapid_md/router_web.py:33-34 | the content is the "No files uploaded yet." message exactly when there are no records |
| RouterWeb.RowsConcat | rapid_md/router_web.py:50-75 | the rows of two record lists in a row are the rows of each: one row per record, in order |
| RouterWeb.RowsSingle | rapid_md/router_web.py:68-75 | a single record gives exactly its row |
| RouterWeb.RowLinksToRender | rapid_md/router_web.py:70 | every row links to `/render/` plus the filename, marked with the record's class |
| RouterWeb.HomeContentVerbatim | rapid_md/router_web.py:85 | the table or empty message replaces the first remaining `__content__` verbatim |
| RouterWeb.InsertKeepsOrder | rapid_md/router_web.py:18 | inserting one record into a newest-first list keeps it newest first and adds exactly that record |
| RouterWeb.SortByCreatedDescSpec | rapid_md/router_web.py:18 | the display order is newest first and holds exactly the stored records |
| RouterWeb.HomeRows | rapid_md/router_web.py:36-82 | for a non-empty store the content is the head, one row per stored record newest first, and the foot |
| LegacyRender.LegacyMimeType | rapid_md/render.py:33-45 | the earlier table lookup; specified by `LegacyMimeAgrees` and `MimeTablesDiffer` |
| LegacyRender.LegacyRenderRecord | rapid_md/render.py:19-46 | the earlier answer for one record; specified by `LegacyRawBytes`, `LegacyIgnoresRawClass` and `LegacyKeepsOtherPlaceholders` |
| LegacyRender.LegacyRenderResult | rapid_md/render.py:14-46 | the earlier `render_file`; specified by `LegacyNotFound` |
| LegacyRender.LegacyNotFound | rapid_md/render.py:16-18 | 404 exactly when no stored record has the requested filename |
| LegacyRender.LegacyRawBytes | rapid_md/render.py:46 | a non-markdown record holding the base64 of some bytes is answered with exactly those bytes |
| LegacyRender.LegacyIgnoresRawClass | rapid_md/render.py:33-46 | the stored class only selects page or raw answer; image and document records are served alike |
| LegacyRender.LegacyKeepsOtherPlaceholders | rapid_md/render.py:29-30 | only `__content__` is replaced: template text before the first `__content__`, including any other placeholder, reaches the page unchanged |
| LegacyRender.MimeTablesDiffer | rapid_md/render.py:34-44 | the current media-type table is the earlier one plus `stl` |
| LegacyRender.LegacyMimeAgrees | rapid_md/render.py:33-45 | both handlers give every raw file the same media type, except `stl` files: generic binary here, `text/stl` in the current one |
| LegacyRender.LegacyMatchesCurrentPage | rapid_md/render.py:30 | for a template using only `__content__`, the earlier and the current handler build the same page |

## Findings

| source | as written | input that shows it | evidently intended | confidence | as-written member | corrected member |
|---|---|---|---|---|---|---|
| rapid_md/router_web.py:116 | `render_file` reads `file.tags`, but the stored record type has no `tags` column (rapid_md/models.py:15-22), so the read raises and the answer is 500 | any markdown record whose content decodes as UTF-8, e.g. "# hi" uploaded as `a.md` | the page with the "No tags" comment, as the earlier handler rapid_md/render.py:20-32 serves it without tags | high, not executed | RouterWeb.MarkdownAsWrittenFails | RouterWeb.RenderMarkdownPage |
| rapid_md/router_web.py:56 | `home` reads `file.tags` for the first row and raises in the same way, so every non-empty store answers 500 | a store holding one record | the table with a "No tags" cell per record | high, not executed | RouterWeb.HomeAsWrittenFails | RouterWeb.HomeRows |

## Left out

- HTTP and framework plumbing (FastAPI routing, `Header`, `Response`, pydantic request bodies, rapid_md/schema.py, main.py) is left out: answers are the `Response` datatype with `ApiError` codes.
- Persistence (SQLAlchemy sessions, commit and refresh, rapid_md/db.py, the alembic migration) is an in-memory sequence of records in which every save is committed at once. Database failures are not modelled.
- Reading `RAPID_MD_API_KEY` from the environment is left out: the key is the parameter `configured`, where "" stands for unset or empty.
- Reading template.html from disk is left out: the template is a parameter.
- The zip format is left out: the `parseZip` parameter returns the members in archive order, each readable with its bytes or unreadable with the error text. A member is a directory when its name ends in '/', as `ZipInfo.is_dir()` decides.
- The markdown library, UTF-8 decoding and `strftime` are the parameters `markdown`, `utf8` and `fmt`.
- Routers.FileStore.ListFiles: `created_at.isoformat()` is not modelled; summaries carry the integer timestamp.
- Routers.FileStore.UploadFile: all records of one request share one timestamp `now`, while the code reads the clock at each save (rapid_md/routers.py:81). This is visible on the home page. The members of one archive tie on `createdAt`, and the model keeps store order on ties, so it lists them first to last. With the code's later time per save they are listed last to first.
- Routers.OpenArchive: a payload that does not decode answers 400 with the fixed detail "Incorrect padding". The code sends the library's own message (`str(e)`, rapid_md/routers.py:132), which differs by failure, for example for a payload whose length is 1 more than a multiple of 4.
- Routers.FileStore.DeleteFile: ids are numbers. Parsing the `file_id` path text as a UUID, and the database error for text that is not one, are not modelled.
- Routers.CheckApiKey: the `RuntimeError` of an unset key (rapid_md/routers.py:63) is not caught, so the framework answers 500 with its generic "Internal Server Error" body. The model's reason text is only a label.
- RouterWeb.RenderFile: the base64 and UTF-8 decoding errors (rapid_md/router_web.py:95, 98) are not caught, so the framework answers 500 with its generic "Internal Server Error" body. The model's reason texts are only labels.
- RouterWeb.RenderFile: this method computes the intended handler, which reads the record's optional tag map. The code as written raises at `file.tags` (rapid_md/router_web.py:116) for every readable markdown record. `RenderRecordAsWritten` models that behaviour.
- RouterWeb.Home: this method computes the intended page. The code as written raises at `file.tags` (rapid_md/router_web.py:56) as soon as one record is stored. `HomeAsWritten` models that behaviour.
- Records.FindByName: the filename query (rapid_md/router_web.py:92) has no `order_by`, so which of several records with the same name `.first()` returns is up to the database. The model takes the first in store order.
- Handlers are modelled as running one at a time. The synchronous handlers (list, delete, render, home) run on a thread pool, so, for example, a delete can land between two member commits of an archive upload. Interleavings are not modelled.
- Base64.Decode: only padded base64 over the alphabet, in whole groups of four, is accepted. Leftover pad bits are ignored, as Python does. Python's `b64decode` also discards characters outside the alphabet and tolerates some irregular padding.
- Routers.FileStore.ListFiles: the query (rapid_md/routers.py:27) has no `order_by`, so the database decides the order of the listing. The model answers in store order.
- `Text.Lower` lower-cases ASCII letters only; Python's `str.lower` is Unicode-aware.
- Float tag values carry their printed text, and Python's float formatting is not modelled.
- RouterWeb.SortByCreatedDescSpec: the database leaves the order of records with equal `created_at` unspecified. The model keeps store order for them, and no lemma states it.
- The second `list_files` and `delete_file` definitions (rapid_md/routers.py:136-156) are not modelled: they register paths already taken by the authenticated handlers above them, so they are never reached.
- Grouping by tag or upload session is not modelled: the code builds only a flat table.
- The class computed for the archive's own name (rapid_md/routers.py:102) is never used on the zip branch, so it is not modelled.
