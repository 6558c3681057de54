/** `FileVersionSerializer`: the checks an upload must pass before anything
    is stored, the fields an update may not change, and the shareable link. */
module Serializers {
  import opened Wrappers
  import opened Hashing
  import opened Models

  /** An uploaded file as the request carries it: the client's own file name
      and the chunks the upload handler yields. */
  datatype UploadedFile = UploadedFile(name: string, chunks: seq<seq<byte>>)
  {
    function Data(): seq<byte>
    {
      Concat(chunks)
    }

    function Size(): nat
    {
      |Data()|
    }

    /** Django's `File.__bool__`: an uploaded file is truthy when it has a name. */
    predicate IsTruthy()
    {
      name != ""
    }
  }

  datatype HttpMethod = GET | POST | PUT | PATCH | DELETE

  /** The parts of a request the serializer looks at: the HTTP verb, the
      `file_name` form field, the `file` upload, and the read-only fields a
      client may send anyway. */
  datatype Request = Request(
    verb: HttpMethod,
    fileName: Option<string>,
    file: Option<UploadedFile>,
    versionNumber: Option<int>,
    contentHash: Option<string>)

  datatype Field = FileNameField | FileField

  datatype Problem = Required | TooLong | HasSeparator | TooLarge | EmptyFile | NoFileName

  /** A `ValidationError`, keyed on the field it names. */
  datatype FieldError = FieldError(field: Field, problem: Problem)

  function Message(e: FieldError): string
  {
    match e.problem
    case Required => "File name is required."
    case TooLong => "File name must be at most 255 characters."
    case HasSeparator => "File name cannot contain '/' or '\\'."
    case TooLarge => "File size must not exceed 10MB."
    case EmptyFile => "The submitted file is empty."
    case NoFileName => "No filename could be determined."
  }

  /** The message of the zero-byte upload error mentions that the file is empty. */
  lemma EmptyFileMessageSaysEmpty()
    ensures var m := Message(FieldError(FileField, EmptyFile));
      exists i :: 0 <= i <= |m| && "empty" <= m[i..]
  {
    var m := Message(FieldError(FileField, EmptyFile));
    assert |m| == 28 && "empty" <= m[22..];
  }

  const MaxNameLength := 255

  const MaxUploadSize := 10 * 1024 * 1024

  predicate HasPathSeparator(name: string)
  {
    '/' in name || '\\' in name
  }

  predicate IsPost(request: Option<Request>)
  {
    request.Some? && request.value.verb == POST
  }

  /** A `file_name` the upload path accepts. */
  predicate AcceptableName(fileName: Option<string>)
  {
    fileName.Some? && fileName.value != "" && |fileName.value| <= MaxNameLength
    && !HasPathSeparator(fileName.value)
  }

  /** An upload whose size check fires: present, truthy, over 10 MiB. */
  predicate Oversized(file: Option<UploadedFile>)
  {
    file.Some? && file.value.IsTruthy() && file.value.Size() > MaxUploadSize
  }

  /** The checks of the serializer's generated `file` field, a FileField that
      does not allow empty files: the upload needs a name and at least one byte. */
  function CheckFileField(f: UploadedFile): (r: Option<FieldError>)
    ensures r.Some? ==> r.value.field == FileField
    ensures r.None? <==> f.name != "" && f.Size() > 0
    ensures f.name != "" && f.Size() == 0 ==> r == Some(FieldError(FileField, EmptyFile))
  {
    if f.name == "" then Some(FieldError(FileField, NoFileName))
    else if f.Size() == 0 then Some(FieldError(FileField, EmptyFile))
    else None
  }

  /** `validate(data)`: on POST, the name must be present, at most 255
      characters and free of path separators, and a truthy upload at most
      10 MiB, checked in that order; anything else passes `data` through. */
  function Validate<T>(data: T, request: Option<Request>): (r: Result<T, FieldError>)
    ensures r.Success? ==> r.value == data
    ensures !IsPost(request) ==> r.Success?
    ensures r.Success? <==> !IsPost(request) || (AcceptableName(request.value.fileName) && !Oversized(request.value.file))
    ensures r.Failure? && r.error.field == FileNameField <==> IsPost(request) && !AcceptableName(request.value.fileName)
    ensures r.Failure? && r.error.field == FileField <==>
      IsPost(request) && AcceptableName(request.value.fileName) && Oversized(request.value.file)
    ensures r == Failure(FieldError(FileNameField, Required)) <==>
      IsPost(request) && (request.value.fileName.None? || request.value.fileName.value == "")
    ensures r == Failure(FieldError(FileNameField, TooLong)) <==>
      IsPost(request) && request.value.fileName.Some? && request.value.fileName.value != ""
      && |request.value.fileName.value| > MaxNameLength
    ensures r == Failure(FieldError(FileNameField, HasSeparator)) <==>
      IsPost(request) && request.value.fileName.Some? && request.value.fileName.value != ""
      && |request.value.fileName.value| <= MaxNameLength && HasPathSeparator(request.value.fileName.value)
    ensures r.Failure? && r.error.field == FileField ==> r.error.problem == TooLarge
  {
    if request.Some? && request.value.verb == POST then
      var fileName := request.value.fileName;
      if fileName.None? || fileName.value == "" then Failure(FieldError(FileNameField, Required))
      else if |fileName.value| > MaxNameLength then Failure(FieldError(FileNameField, TooLong))
      else if HasPathSeparator(fileName.value) then Failure(FieldError(FileNameField, HasSeparator))
      else if Oversized(request.value.file) then Failure(FieldError(FileField, TooLarge))
      else Success(data)
    else Success(data)
  }

  /** `is_valid()`: the field checks first, then `validate`.  The validated
      data is the optional upload (every other declared field is read-only). */
  function RunValidation(request: Request): (r: Result<Option<UploadedFile>, FieldError>)
    ensures r.Success? ==> r.value == request.file
    ensures r.Success? ==> request.file.Some? ==> request.file.value.IsTruthy() && request.file.value.Size() > 0
    ensures request.verb == POST ==>
      (r.Success? <==> AcceptableName(request.fileName)
                       && (request.file.Some? ==> request.file.value.name != ""
                                                  && 0 < request.file.value.Size() <= MaxUploadSize))
    ensures request.verb != POST ==>
      (r.Success? <==> request.file.Some? ==> CheckFileField(request.file.value).None?)
    ensures request.file.Some? && CheckFileField(request.file.value).Some? ==>
      r == Failure(CheckFileField(request.file.value).value)
    ensures r.Failure? && (request.file.None? || CheckFileField(request.file.value).None?) ==>
      Validate(request.file, Some(request)) == Failure(r.error)
  {
    if request.file.Some? && CheckFileField(request.file.value).Some? then
      Failure(CheckFileField(request.file.value).value)
    else
      Validate(request.file, Some(request))
  }

  /** An update saves only the writable `file` field: the sent `file_name`,
      `version_number` and `content_hash` are ignored, and the owning file
      and owner cannot change. */
  function ApplyUpdate(v: FileVersion, request: Request, storedAs: ContentRef): (r: FileVersion)
    ensures r.id == v.id && r.fileId == v.fileId && r.owner == v.owner
    ensures r.versionNumber == v.versionNumber && r.contentHash == v.contentHash
    ensures request.file.None? ==> r == v
    ensures request.file.Some? ==> r.content == Some(storedAs)
  {
    if request.file.Some? then v.(content := Some(storedAs)) else v
  }

  /** `get_shareable_link`: a link exactly when the version has stored
      content (a FieldFile is truthy when its name is non-empty).  The
      absolute URL is built by the framework; the model returns the stored
      name it is built from. */
  function ShareableLink(v: FileVersion): (r: Option<ContentRef>)
    ensures r.Some? <==> v.content.Some? && v.content.value != ""
    ensures r.Some? ==> r.value == v.content.value
  {
    match v.content
    case Some(ref) => if ref != "" then Some(ref) else None
    case None => None
  }
}
