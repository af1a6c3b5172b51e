/** The stored entities of the repository (rapid_md/models.py), the shapes of the HTTP
    answers, and the lookup by filename that both render endpoints share. */
module Records {

  datatype Option<+T> = None | Some(value: T)

  datatype Result<+T, +E> = Success(value: T) | Failure(error: E)

  /** A byte of file content. */
  type byte = x: int | 0 <= x < 256

  /** `FileTypeEnum`: the closed classification of a stored file. */
  datatype FileType = Markdown | Image | Document
  {
    /** The enum's `.value`. */
    function Value(): string
    {
      match this
      case Markdown => "markdown"
      case Image => "image"
      case Document => "document"
    }
  }

  /** A tag value as it comes out of the JSON tag map: the scalars the pages print
      (`str`, `int`, `float`, `bool`) and everything else (lists, maps, null).
      A float carries the text Python prints for it. */
  datatype TagValue = TStr(s: string) | TInt(i: int) | TFloat(repr: string) | TBool(b: bool) | TOther

  /** A tag map, its entries in the map's iteration order. */
  type Tags = seq<(string, TagValue)>

  /** One row of the `uploaded_files` table. `tags` is read by the pages but the table has
      no such column and ingestion never sets it, so it is `None` on every stored record. */
  datatype FileRecord = FileRecord(
    id: nat,
    filename: string,
    content: string,
    createdAt: int,
    filetype: FileType,
    tags: Option<Tags>)

  /** The errors the endpoints answer with. */
  datatype ApiError =
    | ServerError(reason: string)
    | Unauthorized
    | NotFound
    | BadRequest(reason: string)
  {
    function Status(): nat
    {
      match this
      case ServerError(_) => 500
      case Unauthorized => 401
      case NotFound => 404
      case BadRequest(_) => 400
    }

    function Detail(): string
    {
      match this
      case ServerError(reason) => reason
      case Unauthorized => "Invalid or missing API key"
      case NotFound => "File not found"
      case BadRequest(reason) => reason
    }
  }

  datatype Response<+T> = Ok(value: T) | Error(error: ApiError)

  /** The body of a rendered file: a page of HTML text, or the stored bytes as they are. */
  datatype Body = Html(text: string) | Raw(bytes: seq<byte>)

  /** A successful render: the body and its media type. */
  datatype Payload = Payload(body: Body, mediaType: string)

  /** `query(UploadedFile).filter(UploadedFile.filename == name).first()`:
      the index of the first stored record with that filename. */
  function FindByName(files: seq<FileRecord>, name: string): (r: Option<nat>)
    ensures r.Some? ==> r.value < |files| && files[r.value].filename == name
    ensures r.Some? ==> forall j :: 0 <= j < r.value ==> files[j].filename != name
    ensures r.None? <==> forall j :: 0 <= j < |files| ==> files[j].filename != name
  {
    if files == [] then None
    else if files[0].filename == name then Some(0)
    else match FindByName(files[1..], name)
      case None => None
      case Some(k) => Some(k + 1)
  }
}
