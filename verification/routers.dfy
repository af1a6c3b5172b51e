/** The file API of rapid_md/routers.py: file-type classification, the API-key check,
    upload (single file or zip archive), listing and deletion over an in-memory store. */
module Routers {
  import opened Records
  import opened Text
  import Base64

  // ---------------------------------------------------------------------------
  // Classification

  /** `os.path.splitext(p)[1]`: the text from the last '.', provided that dot comes after
      the last '/' and something other than dots stands before it in the last component
      (so leading dots do not start an extension); otherwise "". */
  function SplitExt(p: string): string
  {
    var sep := LastIndexOf(p, '/');
    var dot := LastIndexOf(p, '.');
    if dot > sep && NonDotBetween(p, sep, dot) then p[dot..] else ""
  }

  /** Some character strictly between positions `lo` and `hi` is not a dot. */
  predicate NonDotBetween(p: string, lo: int, hi: int)
  {
    exists k :: lo < k < hi && 0 <= k < |p| && p[k] != '.'
  }

  /** `guess_filetype`: the lower-cased extension decides the class. */
  function GuessFiletype(filename: string): FileType
  {
    var ext := Lower(SplitExt(filename));
    if ext in {".md", ".markdown"} then Markdown
    else if ext in {".jpg", ".jpeg", ".png", ".gif", ".bmp", ".svg"} then Image
    else Document
  }

  /** The extension of `stem.e`, for a stem with no '/' and not only dots and an `e`
      without '.' or '/'. */
  lemma ExtensionOf(stem: string, e: string)
    requires '/' !in stem && exists k :: 0 <= k < |stem| && stem[k] != '.'
    requires '.' !in e && '/' !in e
    ensures SplitExt(stem + "." + e) == "." + e
  {
    var p := stem + "." + e;
    LastIndexAt(p, '.', |stem|);
    LastIndexAbsent(p, '/');
    var k :| 0 <= k < |stem| && stem[k] != '.';
    assert p[k] == stem[k];
    assert NonDotBetween(p, -1, |stem|);
    assert p[|stem|..] == "." + e;
  }

  /** A name made of a stem (no '/', not only dots) and an extension (no '.', no '/')
      is classified by that extension alone, ignoring case. */
  lemma ClassifyByExtension(stem: string, e: string)
    requires '/' !in stem && exists k :: 0 <= k < |stem| && stem[k] != '.'
    requires '.' !in e && '/' !in e
    ensures var t := GuessFiletype(stem + "." + e);
      && (t == Markdown <==> Lower(e) in {"md", "markdown"})
      && (t == Image <==> Lower(e) in {"jpg", "jpeg", "png", "gif", "bmp", "svg"})
  {
    ExtensionOf(stem, e);
    assert Lower("." + e) == "." + Lower(e);
    DottedClass(Lower(e));
  }

  /** Membership of a dotted extension in the classifier's sets, without the dot. */
  lemma DottedClass(le: string)
    ensures ("." + le in {".md", ".markdown"}) <==> le in {"md", "markdown"}
    ensures ("." + le in {".jpg", ".jpeg", ".png", ".gif", ".bmp", ".svg"})
       <==> le in {"jpg", "jpeg", "png", "gif", "bmp", "svg"}
  {
    Undot(le, "md", ".md");
    Undot(le, "markdown", ".markdown");
    Undot(le, "jpg", ".jpg");
    Undot(le, "jpeg", ".jpeg");
    Undot(le, "png", ".png");
    Undot(le, "gif", ".gif");
    Undot(le, "bmp", ".bmp");
    Undot(le, "svg", ".svg");
  }

  lemma Undot(le: string, y: string, lit: string)
    requires lit == "." + y
    ensures ("." + le == lit) <==> le == y
  {
    if "." + le == lit {
      assert le == ("." + le)[1..];
      assert y == lit[1..];
    }
  }

  /** A name with no dot at all is a document. */
  lemma ClassifyWithoutDot(name: string)
    requires '.' !in name
    ensures GuessFiletype(name) == Document
  {
    LastIndexAbsent(name, '.');
    assert SplitExt(name) == "";
    assert Lower("") == "";
  }

  /** A dotfile such as ".md" or "..md" has no extension, so it is a document: leading
      dots never start one. */
  lemma ClassifyDotfile(dots: string, e: string)
    requires |dots| > 0 && forall k :: 0 <= k < |dots| ==> dots[k] == '.'
    requires '.' !in e && '/' !in e
    ensures GuessFiletype(dots + e) == Document
  {
    var p := dots + e;
    var last := |dots| - 1;
    LastIndexAt(p, '.', last);
    assert '/' !in p by {
      forall j | 0 <= j < |p| ensures p[j] != '/' {
        if j < |dots| { assert p[j] == dots[j]; } else { assert p[j] == e[j - |dots|]; }
      }
    }
    LastIndexAbsent(p, '/');
    assert !NonDotBetween(p, -1, last) by {
      forall k | -1 < k < last && 0 <= k < |p| ensures p[k] == '.' {
        assert p[k] == dots[k];
      }
    }
    assert SplitExt(p) == "";
    assert Lower("") == "";
  }

  /** Lower-casing keeps every '.' and '/' where it was, so it keeps the last of them. */
  lemma LowerKeepsLastIndex(s: string, c: char)
    requires c == '.' || c == '/'
    ensures LastIndexOf(Lower(s), c) == LastIndexOf(s, c)
  {
    var l := Lower(s);
    var r := LastIndexOf(s, c);
    assert forall j :: 0 <= j < |s| ==> (l[j] == c <==> s[j] == c);
    if r >= 0 {
      LastIndexAt(l, c, r);
    } else {
      assert c !in l by {
        forall j | 0 <= j < |l| ensures l[j] != c { assert s[j] != c; }
      }
      LastIndexAbsent(l, c);
    }
  }

  lemma LowerSuffix(s: string, i: nat)
    requires i <= |s|
    ensures Lower(s)[i..] == Lower(s[i..])
  {
  }

  lemma LowerIdempotent(s: string)
    ensures Lower(Lower(s)) == Lower(s)
  {
  }

  /** Lower-casing commutes with taking the extension. */
  lemma SplitExtLower(s: string)
    ensures SplitExt(Lower(s)) == Lower(SplitExt(s))
  {
    var l := Lower(s);
    LowerKeepsLastIndex(s, '.');
    LowerKeepsLastIndex(s, '/');
    var sep, dot := LastIndexOf(s, '/'), LastIndexOf(s, '.');
    if NonDotBetween(s, sep, dot) {
      var k :| sep < k < dot && 0 <= k < |s| && s[k] != '.';
      assert l[k] != '.';
      assert NonDotBetween(l, sep, dot);
    }
    if NonDotBetween(l, sep, dot) {
      var k :| sep < k < dot && 0 <= k < |l| && l[k] != '.';
      assert s[k] != '.';
    }
    if dot > sep && NonDotBetween(s, sep, dot) {
      LowerSuffix(s, dot);
    } else {
      assert Lower("") == "";
    }
  }

  /** Classification does not depend on the case of the name. */
  lemma ClassifyIgnoresCase(name: string)
    ensures GuessFiletype(Lower(name)) == GuessFiletype(name)
  {
    SplitExtLower(name);
    LowerIdempotent(SplitExt(name));
  }

  /** The archive branch is taken for names ending in ".zip" in any case. */
  predicate IsZipName(filename: string)
  {
    EndsWith(Lower(filename), ".zip")
  }

  // ---------------------------------------------------------------------------
  // API key

  /** `get_api_key_from_env()` followed by the header comparison. An unset or empty
      configured key raises before the header is looked at (a server error); otherwise a
      missing or different header is refused with 401. */
  function CheckApiKey(header: Option<string>, configured: string): (r: Option<ApiError>)
    ensures r.None? <==> configured != "" && header == Some(configured)
    ensures r.Some? && configured != "" ==> r.value == Unauthorized
    ensures r.Some? && configured == "" ==> r.value.Status() == 500
  {
    if configured == "" then Some(ServerError("Environment variable RAPID_MD_API_KEY not set"))
    else if header != Some(configured) then Some(Unauthorized)
    else None
  }

  // ---------------------------------------------------------------------------
  // Archives

  /** What reading one archive member gives: its bytes, or the error that reading raised
      (bad checksum, unsupported compression, encryption). */
  datatype MemberData = Readable(bytes: seq<byte>) | Unreadable(reason: string)

  /** One entry of the archive's member list, in archive order. */
  datatype ZipMember = ZipMember(name: string, data: MemberData)

  /** `ZipInfo.is_dir()`: directory entries are the names ending in '/'. */
  predicate IsDirectory(m: ZipMember)
  {
    EndsWith(m.name, "/")
  }

  /** A file about to be stored: its name, its base64 envelope and its class. */
  datatype NewFile = NewFile(filename: string, content: string, filetype: FileType)

  /** The base64 payload decoded and handed to the archive reader; failures of either
      step are the request's error text. */
  function OpenArchive(contentB64: string, parseZip: seq<byte> -> Result<seq<ZipMember>, string>)
    : Result<seq<ZipMember>, string>
  {
    match Base64.Decode(contentB64)
    case None => Failure("Incorrect padding")
    case Some(bytes) => parseZip(bytes)
  }

  /** The members that are files, in archive order. */
  function FileMembers(ms: seq<ZipMember>): (r: seq<ZipMember>)
    ensures |r| <= |ms|
    ensures forall m :: m in r <==> m in ms && !IsDirectory(m)
  {
    if ms == [] then []
    else if IsDirectory(ms[0]) then FileMembers(ms[1..])
    else [ms[0]] + FileMembers(ms[1..])
  }

  /** Filtering splits over concatenation, so the file members keep their archive order:
      those of an earlier part of the archive come before those of a later part. */
  lemma {:induction false} FileMembersConcat(a: seq<ZipMember>, b: seq<ZipMember>)
    ensures FileMembers(a + b) == FileMembers(a) + FileMembers(b)
    decreases |a|
  {
    if a != [] {
      assert (a + b)[0] == a[0] && (a + b)[1..] == a[1..] + b;
      FileMembersConcat(a[1..], b);
      if !IsDirectory(a[0]) {
        ConcatAssocMembers([a[0]], FileMembers(a[1..]), FileMembers(b));
      }
    } else {
      assert a + b == b;
    }
  }

  lemma ConcatAssocMembers(x: seq<ZipMember>, y: seq<ZipMember>, z: seq<ZipMember>)
    ensures (x + y) + z == x + (y + z)
  {
  }

  /** The record stored for a readable file member: the base name of the member,
      its class, and its bytes re-encoded as base64. */
  function MemberFile(name: string, bytes: seq<byte>): NewFile
  {
    var base := Basename(name);
    NewFile(base, Base64.Encode(bytes), GuessFiletype(base))
  }

  /** The type of the per-member conversion: a member's name and bytes to the file stored. */
  type Converter = (string, seq<byte>) -> NewFile

  /** The files the member loop stores, in order: one per file member, up to the first
      member whose read fails, each made by `toFile` (`upload_file` uses `MemberFile`). */
  function Extracted(ms: seq<ZipMember>, toFile: Converter): seq<NewFile>
  {
    if ms == [] then []
    else if IsDirectory(ms[0]) then Extracted(ms[1..], toFile)
    else match ms[0].data
      case Unreadable(_) => []
      case Readable(bytes) => [toFile(ms[0].name, bytes)] + Extracted(ms[1..], toFile)
  }

  /** The error of the first file member whose read fails, if any. */
  function ReadError(ms: seq<ZipMember>): Option<string>
  {
    if ms == [] then None
    else if IsDirectory(ms[0]) then ReadError(ms[1..])
    else match ms[0].data
      case Unreadable(reason) => Some(reason)
      case Readable(_) => ReadError(ms[1..])
  }

  /** `f` is what the loop stores for file member `m`: its bytes converted by `toFile`. */
  predicate FromMember(f: NewFile, m: ZipMember, toFile: Converter)
  {
    m.data.Readable? && f == toFile(m.name, m.data.bytes)
  }

  /** The member lists one step in: what the first member contributes. */
  lemma ExtractedCons(ms: seq<ZipMember>, toFile: Converter)
    requires ms != []
    ensures IsDirectory(ms[0]) ==>
      && Extracted(ms, toFile) == Extracted(ms[1..], toFile) && FileMembers(ms) == FileMembers(ms[1..])
      && ReadError(ms) == ReadError(ms[1..])
    ensures !IsDirectory(ms[0]) && ms[0].data.Unreadable? ==>
      Extracted(ms, toFile) == [] && ReadError(ms).Some? && |FileMembers(ms)| > 0
    ensures !IsDirectory(ms[0]) && ms[0].data.Readable? ==>
      && Extracted(ms, toFile) == [toFile(ms[0].name, ms[0].data.bytes)] + Extracted(ms[1..], toFile)
      && FileMembers(ms) == [ms[0]] + FileMembers(ms[1..])
      && ReadError(ms) == ReadError(ms[1..])
  {
  }

  /** At most one stored file per file member, and exactly one when no read fails:
      directories contribute nothing. */
  lemma {:induction false} ExtractedCount(ms: seq<ZipMember>, toFile: Converter)
    ensures |Extracted(ms, toFile)| <= |FileMembers(ms)|
    ensures ReadError(ms).None? ==> |Extracted(ms, toFile)| == |FileMembers(ms)|
  {
    if ms != [] {
      ExtractedCount(ms[1..], toFile);
      ExtractedCons(ms, toFile);
    }
  }

  /** Where the member loop stops: when some read fails, fewer files are stored than there
      are file members, and the file member right after the stored ones is the one whose read
      failed, with that error. */
  lemma {:induction false} ExtractedStopsAtReadError(ms: seq<ZipMember>, toFile: Converter)
    ensures ReadError(ms).Some? ==>
      && |Extracted(ms, toFile)| < |FileMembers(ms)|
      && FileMembers(ms)[|Extracted(ms, toFile)|].data == Unreadable(ReadError(ms).value)
  {
    if ms != [] {
      ExtractedStopsAtReadError(ms[1..], toFile);
      ExtractedCons(ms, toFile);
      if !IsDirectory(ms[0]) && ms[0].data.Unreadable? {
        assert FileMembers(ms) == [ms[0]] + FileMembers(ms[1..]);
      }
    }
  }

  /** Each file in `fs` comes from the file member at the same position of `ms`. */
  predicate AllFromMembers(fs: seq<NewFile>, ms: seq<ZipMember>, toFile: Converter)
  {
    |fs| <= |ms| && forall k :: 0 <= k < |fs| ==> FromMember(fs[k], ms[k], toFile)
  }

  lemma AllFromMembersCons(f: NewFile, m: ZipMember, fs: seq<NewFile>, ms: seq<ZipMember>, toFile: Converter)
    requires FromMember(f, m, toFile) && AllFromMembers(fs, ms, toFile)
    ensures AllFromMembers([f] + fs, [m] + ms, toFile)
  {
    forall k | 1 <= k < |fs| + 1 ensures FromMember(([f] + fs)[k], ([m] + ms)[k], toFile) {
      assert ([f] + fs)[k] == fs[k - 1];
    }
  }

  /** The k-th stored file is the conversion of the k-th file member (with `MemberFile`:
      its base name, its class and the base64 envelope of its bytes). */
  lemma {:induction false} ExtractedFromFileMembers(ms: seq<ZipMember>, toFile: Converter)
    ensures AllFromMembers(Extracted(ms, toFile), FileMembers(ms), toFile)
  {
    if ms != [] {
      ExtractedFromFileMembers(ms[1..], toFile);
      ExtractedCons(ms, toFile);
      if !IsDirectory(ms[0]) && ms[0].data.Readable? {
        var f := toFile(ms[0].name, ms[0].data.bytes);
        AllFromMembersCons(f, ms[0], Extracted(ms[1..], toFile), FileMembers(ms[1..]), toFile);
      }
    }
  }

  /** What handling one member does to the files stored so far and to the loop: a
      directory is skipped, an unreadable member stops with its error, a readable one adds
      its converted file. */
  predicate MemberStep(m: ZipMember, toFile: Converter, done: seq<NewFile>, done': seq<NewFile>,
                       stop: Option<string>)
  {
    if IsDirectory(m) then stop == None && done' == done
    else match m.data
      case Unreadable(reason) => stop == Some(reason) && done' == done
      case Readable(bytes) => stop == None && done' == done + [toFile(m.name, bytes)]
  }

  /** One member handled: either the loop stops with everything extracted and the archive's
      error, or what remains to extract is that of the members after it. */
  lemma ExtractedAdvance(m: ZipMember, rest: seq<ZipMember>, toFile: Converter, done: seq<NewFile>,
                         done': seq<NewFile>, stop: Option<string>)
    requires MemberStep(m, toFile, done, done', stop)
    ensures stop.Some? ==> done + Extracted([m] + rest, toFile) == done' && ReadError([m] + rest) == stop
    ensures stop.None? ==>
      && done + Extracted([m] + rest, toFile) == done' + Extracted(rest, toFile)
      && ReadError([m] + rest) == ReadError(rest)
  {
    var ms := [m] + rest;
    assert ms[0] == m && ms[1..] == rest;
    if !IsDirectory(m) && m.data.Unreadable? {
      assert done + [] == done;
    } else if !IsDirectory(m) {
      var f := toFile(m.name, m.data.bytes);
      assert done + ([f] + Extracted(rest, toFile)) == (done + [f]) + Extracted(rest, toFile);
    }
  }

  /** Appending one more stored record extends `Appended` by its file. */
  lemma AppendedSnoc(before: seq<FileRecord>, mid: seq<FileRecord>, files: seq<NewFile>,
                     rec: FileRecord, f: NewFile, now: int)
    requires Appended(before, mid, files, now) && StoredAs(rec, f, now)
    ensures Appended(before, mid + [rec], files + [f], now)
    ensures (mid + [rec])[|before|..] == mid[|before|..] + [rec]
  {
    var after := mid + [rec];
    assert after[..|before|] == mid[..|before|];
    forall k | 0 <= k < |files| + 1 ensures StoredAs(after[|before| + k], (files + [f])[k], now) {
      if k < |files| {
        assert after[|before| + k] == mid[|before| + k];
      }
    }
  }

  // ---------------------------------------------------------------------------
  // Responses

  /** One entry of `list_files`: id, filename, creation time and class. */
  datatype Summary = Summary(id: nat, filename: string, createdAt: int, filetype: FileType)

  /** One saved file as reported by `upload_file`. */
  datatype SavedFile = SavedFile(id: nat, filename: string, filetype: FileType)

  /** The successful answers of `upload_file`. */
  datatype UploadResult = SingleSaved(file: SavedFile) | ZipSaved(files: seq<SavedFile>)
  {
    /** The answer's `message` text. */
    function Message(): string
    {
      if SingleSaved? then "File saved to database"
      else "Zip file extracted and files saved to database"
    }
  }

  function SummaryOf(r: FileRecord): Summary
  {
    Summary(r.id, r.filename, r.createdAt, r.filetype)
  }

  function SavedOf(r: FileRecord): SavedFile
  {
    SavedFile(r.id, r.filename, r.filetype)
  }

  /** The zip answer's list: one summary per stored record, in store order. */
  function SavedAll(rs: seq<FileRecord>): seq<SavedFile>
  {
    seq(|rs|, k requires 0 <= k < |rs| => SavedOf(rs[k]))
  }

  lemma SavedAllSnoc(rs: seq<FileRecord>, r: FileRecord)
    ensures SavedAll(rs + [r]) == SavedAll(rs) + [SavedOf(r)]
  {
  }

  /** `rec` is `f` as `save_uploaded_file` stores it at time `now` (no tags). */
  predicate StoredAs(rec: FileRecord, f: NewFile, now: int)
  {
    rec.filename == f.filename && rec.content == f.content && rec.filetype == f.filetype
    && rec.createdAt == now && rec.tags == None
  }

  /** `after` is `before` with `files` appended in order. */
  predicate Appended(before: seq<FileRecord>, after: seq<FileRecord>, files: seq<NewFile>, now: int)
  {
    && |after| == |before| + |files|
    && after[..|before|] == before
    && forall k :: 0 <= k < |files| ==> StoredAs(after[|before| + k], files[k], now)
  }

  // ---------------------------------------------------------------------------
  // The store

  /** The `uploaded_files` table as an ordered list of records. Fresh ids come from a
      counter standing for `uuid4`: every id handed out is above every id in use. */
  class FileStore {
    var records: seq<FileRecord>
    var nextId: nat

    /** Ids are unique, and all below the next one to hand out. */
    ghost predicate Valid()
      reads this
    {
      && (forall i :: 0 <= i < |records| ==> records[i].id < nextId)
      && (forall i, j :: 0 <= i < j < |records| ==> records[i].id != records[j].id)
    }

    constructor ()
      ensures Valid() && records == []
    {
      records := [];
      nextId := 0;
    }

    /** `save_uploaded_file`: append one committed record with a fresh id. */
    method Save(f: NewFile, now: int) returns (rec: FileRecord)
      requires Valid()
      modifies this
      ensures Valid()
      ensures records == old(records) + [rec] && StoredAs(rec, f, now)
      ensures forall i :: 0 <= i < |old(records)| ==> old(records)[i].id != rec.id
      ensures nextId > old(nextId)
    {
      rec := FileRecord(nextId, f.filename, f.content, now, f.filetype, None);
      records := records + [rec];
      nextId := nextId + 1;
    }

    /** The key-checked `list_files`: one summary per stored record, in store order. */
    method ListFiles(header: Option<string>, configured: string) returns (resp: Response<seq<Summary>>)
      ensures CheckApiKey(header, configured).Some? ==> resp == Error(CheckApiKey(header, configured).value)
      ensures CheckApiKey(header, configured).None? ==>
        && resp.Ok? && |resp.value| == |records|
        && forall i :: 0 <= i < |records| ==> resp.value[i] == SummaryOf(records[i])
    {
      var denied := CheckApiKey(header, configured);
      if denied.Some? {
        return Error(denied.value);
      }
      resp := Ok(seq(|records|, i requires 0 <= i < |records| reads this => SummaryOf(records[i])));
    }

    /** The key-checked `delete_file`: remove the record with this id, or answer 404
        and change nothing. */
    method DeleteFile(header: Option<string>, configured: string, fileId: nat) returns (resp: Response<nat>)
      requires Valid()
      modifies this
      ensures Valid()
      ensures CheckApiKey(header, configured).Some? ==>
        resp == Error(CheckApiKey(header, configured).value) && records == old(records)
      ensures CheckApiKey(header, configured).None? && old(FindId(records, fileId)).None? ==>
        resp == Error(NotFound) && records == old(records)
      ensures CheckApiKey(header, configured).None? && old(FindId(records, fileId)).Some? ==>
        var k := old(FindId(records, fileId)).value;
        && resp == Ok(fileId)
        && records == old(records)[..k] + old(records)[k + 1..]
        && forall i :: 0 <= i < |records| ==> records[i].id != fileId
    {
      var denied := CheckApiKey(header, configured);
      if denied.Some? {
        return Error(denied.value);
      }
      var found := FindId(records, fileId);
      if found.None? {
        return Error(NotFound);
      }
      var k := found.value;
      records := records[..k] + records[k + 1..];
      resp := Ok(fileId);
    }

    /** `upload_file`. After the key check, the base name of `filepath` decides the branch:
        a name ending in ".zip" (any case) is decoded and opened as an archive, and every
        file member is stored, committed one at a time, until a member fails to read;
        any other name is stored once with the request's base64 text unchanged. Every
        failure inside the request answers 400 and keeps what was already committed. */
    method UploadFile(header: Option<string>, configured: string, filepath: string, contentB64: string,
                      now: int, parseZip: seq<byte> -> Result<seq<ZipMember>, string>)
      returns (resp: Response<UploadResult>)
      requires Valid()
      modifies this
      ensures Valid()
      ensures resp.Ok? ==>
        resp.value.Message() == (if IsZipName(Basename(filepath)) then "Zip file extracted and files saved to database"
                                 else "File saved to database")
      ensures CheckApiKey(header, configured).Some? ==>
        resp == Error(CheckApiKey(header, configured).value) && records == old(records)
      ensures CheckApiKey(header, configured).None? && !IsZipName(Basename(filepath)) ==>
        var name := Basename(filepath);
        && Appended(old(records), records, [NewFile(name, contentB64, GuessFiletype(name))], now)
        && resp == Ok(SingleSaved(SavedOf(records[|old(records)|])))
      ensures CheckApiKey(header, configured).None? && IsZipName(Basename(filepath)) ==>
        match OpenArchive(contentB64, parseZip)
        case Failure(reason) => resp == Error(BadRequest(reason)) && records == old(records)
        case Success(ms) =>
          && Appended(old(records), records, Extracted(ms, MemberFile), now)
          && resp == (match ReadError(ms)
                      case None => Ok(ZipSaved(SavedAll(records[|old(records)|..])))
                      case Some(reason) => Error(BadRequest(reason)))
    {
      var denied := CheckApiKey(header, configured);
      if denied.Some? {
        return Error(denied.value);
      }
      var filename := Basename(filepath);
      if !IsZipName(filename) {
        resp := UploadSingle(filename, contentB64, now);
      } else {
        resp := UploadArchive(contentB64, now, parseZip);
      }
    }

    /** The single-file branch of `upload_file`: one record with the request's base64 text
        as it is, and its id, name and class echoed. */
    method UploadSingle(filename: string, contentB64: string, now: int) returns (resp: Response<UploadResult>)
      requires Valid()
      modifies this
      ensures Valid()
      ensures Appended(old(records), records, [NewFile(filename, contentB64, GuessFiletype(filename))], now)
      ensures resp == Ok(SingleSaved(SavedOf(records[|old(records)|])))
    {
      var rec := Save(NewFile(filename, contentB64, GuessFiletype(filename)), now);
      assert records[|old(records)|] == rec;
      resp := Ok(SingleSaved(SavedOf(rec)));
    }

    /** The archive branch of `upload_file`: decode and open the archive (a failure answers
        400 and stores nothing), then run the member loop with `MemberFile`; a member that
        cannot be read answers 400, and what was stored before it stays stored. */
    method UploadArchive(contentB64: string, now: int, parseZip: seq<byte> -> Result<seq<ZipMember>, string>)
      returns (resp: Response<UploadResult>)
      requires Valid()
      modifies this
      ensures Valid()
      ensures match OpenArchive(contentB64, parseZip)
        case Failure(reason) => resp == Error(BadRequest(reason)) && records == old(records)
        case Success(ms) =>
          && Appended(old(records), records, Extracted(ms, MemberFile), now)
          && resp == (match ReadError(ms)
                      case None => Ok(ZipSaved(SavedAll(records[|old(records)|..])))
                      case Some(reason) => Error(BadRequest(reason)))
    {
      var archive := OpenArchive(contentB64, parseZip);
      if archive.Failure? {
        return Error(BadRequest(archive.error));
      }
      var results, failure := SaveMembers(archive.value, now, MemberFile);
      if failure.Some? {
        return Error(BadRequest(failure.value));
      }
      resp := Ok(ZipSaved(results));
    }

    /** One pass of the member loop for member `m`: a directory is skipped, a member that
        cannot be read stops the loop with its error, and a readable one is stored (as
        `MemberFile`) and its summary joins the results. */
    method SaveMember(m: ZipMember, now: int, toFile: Converter, ghost base: seq<FileRecord>,
                      ghost done: seq<NewFile>, results: seq<SavedFile>)
      returns (results': seq<SavedFile>, stop: Option<string>, ghost done': seq<NewFile>)
      requires Valid() && Appended(base, records, done, now)
      requires results == SavedAll(records[|base|..])
      modifies this
      ensures Valid() && Appended(base, records, done', now)
      ensures results' == SavedAll(records[|base|..])
      ensures MemberStep(m, toFile, done, done', stop)
    {
      results', stop, done' := results, None, done;
      if !IsDirectory(m) {
        match m.data {
          case Unreadable(reason) =>
            stop := Some(reason);
          case Readable(bytes) =>
            var f := toFile(m.name, bytes);
            ghost var mid := records;
            var rec := Save(f, now);
            AppendedSnoc(base, mid, done, rec, f, now);
            SavedAllSnoc(mid[|base|..], rec);
            results' := results + [SavedOf(rec)];
            done' := done + [f];
        }
      }
    }

    /** The member loop of `upload_file`: directories are skipped; every other member is
        read, re-encoded, stored and committed at once; the first member that cannot be read
        stops the loop, and what was stored before it stays stored. */
    method SaveMembers(ms: seq<ZipMember>, now: int, toFile: Converter) returns (results: seq<SavedFile>, failure: Option<string>)
      requires Valid()
      modifies this
      ensures Valid()
      ensures Appended(old(records), records, Extracted(ms, toFile), now)
      ensures failure == ReadError(ms)
      ensures results == SavedAll(records[|old(records)|..])
    {
      results := [];
      ghost var done: seq<NewFile> := [];
      var i := 0;
      assert records[|old(records)|..] == [];
      while i < |ms|
        invariant 0 <= i <= |ms|
        invariant Valid()
        invariant Extracted(ms, toFile) == done + Extracted(ms[i..], toFile)
        invariant ReadError(ms) == ReadError(ms[i..])
        invariant Appended(old(records), records, done, now)
        invariant results == SavedAll(records[|old(records)|..])
      {
        var stop;
        ghost var done0 := done;
        results, stop, done := SaveMember(ms[i], now, toFile, old(records), done, results);
        assert ms[i..] == [ms[i]] + ms[i + 1..];
        ExtractedAdvance(ms[i], ms[i + 1..], toFile, done0, done, stop);
        if stop.Some? {
          return results, stop;
        }
        i := i + 1;
      }
      assert ms[i..] == [];
      assert done + [] == done;
      failure := None;
    }
  }

  /** The first position of a record with this id (ids are unique, so the only one). */
  function FindId(rs: seq<FileRecord>, id: nat): (r: Option<nat>)
    ensures r.Some? ==> r.value < |rs| && rs[r.value].id == id
    ensures r.None? ==> forall i :: 0 <= i < |rs| ==> rs[i].id != id
  {
    if rs == [] then None
    else if rs[0].id == id then Some(0)
    else match FindId(rs[1..], id)
      case None => None
      case Some(k) => Some(k + 1)
  }
}
