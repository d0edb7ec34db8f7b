/** The decoded multipart form and the middleware's configuration. */
module Form {

  import opened Wrappers

  /** A file part as the multipart reader yields it; tempfile is where the
      reader stored its bytes, None when they were kept in memory. */
  datatype FormFile = FormFile(filename: string, contentType: string, size: int, tempfile: Option<string>)

  /** The value of one form entry: a plain field, one file, or the array of
      files the reader yields for an input with the `multiple` attribute. */
  datatype FormValue = Text(text: string) | File(file: FormFile) | Files(files: seq<FormFile>)

  /** One `[field, value]` pair of `form.entries()`. */
  datatype Entry = Entry(field: string, value: FormValue)

  /** The temporary file of an entry: only a single file part has one
      (`.tempfile` is undefined on a string and on an array). */
  function TempFile(e: Entry): Option<string>
  {
    if e.value.File? then e.value.file.tempfile else None
  }

  /** The temporary files of the entries, in entry order. */
  function TempFiles(es: seq<Entry>): (ts: seq<string>)
    ensures |ts| <= |es|
    ensures forall t :: t in ts <==> exists k :: 0 <= k < |es| && TempFile(es[k]) == Some(t)
  {
    if es == [] then []
    else
      var rest := TempFiles(es[1..]);
      assert forall k :: 1 <= k < |es| ==> es[k] == es[1..][k - 1];
      (if TempFile(es[0]).Some? then [TempFile(es[0]).value] else []) + rest
  }

  /** `Number.MAX_SAFE_INTEGER`, the default of both size limits. */
  const MaxSafeInteger: int := 9007199254740991

  /** The arguments of `uploadMiddleware`. */
  datatype UploadOptions = UploadOptions(
    path: string,
    extensions: seq<string>,
    maxSizeBytes: int,
    maxFileSizeBytes: int,
    useCurrentDir: bool)

  /** The options when only the storage path is given. */
  function DefaultUploadOptions(path: string): UploadOptions
  {
    UploadOptions(path, [], MaxSafeInteger, MaxSafeInteger, true)
  }
}
