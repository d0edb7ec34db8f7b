/** `uploadMiddleware`: the size gate, the content-type check, the fail-fast
    validation pass with cleanup, and the placement pass that builds the
    manifest. The HTTP context becomes an Outcome; `context.throw` ends the
    handling of the request, so nothing runs after a rejection. */
module UploadMiddleware {

  import opened Wrappers
  import opened JsText
  import opened Uri
  import opened ContentType
  import opened Messages
  import opened Form
  import opened FileStore
  import opened Validation
  import opened Storage

  /** The two request headers the middleware reads; None when absent. */
  datatype Request = Request(contentLength: Option<string>, contentType: Option<string>)

  /** A filesystem call that threw; it ends the request as a server error. */
  datatype IoError = RemoveFailed(path: string) | EnsureDirFailed(dir: string) | MoveFailed(src: string, dst: string)

  /** Accepted: the manifest set as `context.uploadedFiles` before `next()`.
      Rejected: a 422 response with the message. Failed: an exception from
      the filesystem. */
  datatype Outcome = Accepted(uploadedFiles: Manifest) | Rejected(message: string) | Failed(error: IoError)

  /** The text a template literal or `parseInt` sees for a header: "null"
      when it is absent. */
  function HeaderText(h: Option<string>): string
  {
    if h.Some? then h.value else "null"
  }

  /** `parseInt(content-length) > maxSizeBytes`; NaN compares false. */
  predicate DeclaredTooLarge(req: Request, opts: UploadOptions)
  {
    var n := ParseInt(HeaderText(req.contentLength));
    n.Some? && n.value > opts.maxSizeBytes
  }

  /** A request without a content-length header, or with one that holds no
      digits, is never rejected by the size gate. */
  lemma SizeGateNeedsNumber(req: Request, opts: UploadOptions)
    requires req.contentLength.None? || ParseInt(req.contentLength.value).None?
    ensures !DeclaredTooLarge(req, opts)
  {
    if req.contentLength.None? {
      var s := "null";
      assert TrimStart(s) == s;
      assert DigitPrefixLength(s, 10) == 0;
    }
  }

  /** The size gate reads back a declared length the client wrote in decimal:
      it rejects exactly the lengths above the limit. */
  lemma SizeGateOnDecimal(n: int, contentType: Option<string>, opts: UploadOptions)
    ensures DeclaredTooLarge(Request(Some(IntToString(n)), contentType), opts) <==> n > opts.maxSizeBytes
  {
    ParseIntOfIntToString(n);
  }

  /** The nested cleanup loop: remove the temporary file of every entry that
      has one, in entry order; the first removal that fails ends it. */
  method RemoveTempFiles(fs: FileSystem, es: seq<Entry>) returns (failed: Option<string>)
    modifies fs
    ensures fs.dirs == old(fs.dirs)
    ensures failed.None? <==> RemoveAll(old(fs.files), TempFiles(es)).Some?
    ensures failed.None? ==> fs.files == RemoveAll(old(fs.files), TempFiles(es)).value
    ensures failed.None? ==> forall t :: t in TempFiles(es) ==> t !in fs.files
    ensures fs.files == RemoveUntilFailure(old(fs.files), TempFiles(es))
  {
    RemoveAllSucceeds(fs.files, TempFiles(es));
    var j := 0;
    while j < |es|
      invariant 0 <= j <= |es|
      invariant fs.dirs == old(fs.dirs)
      invariant RemoveAll(old(fs.files), TempFiles(es)) == RemoveAll(fs.files, TempFiles(es[j..]))
      invariant RemoveUntilFailure(old(fs.files), TempFiles(es)) == RemoveUntilFailure(fs.files, TempFiles(es[j..]))
    {
      assert es[j..][0] == es[j] && es[j..][1..] == es[j + 1..];
      var t := TempFile(es[j]);
      var rest := TempFiles(es[j + 1..]);
      if t.Some? {
        assert TempFiles(es[j..]) == [t.value] + rest;
        assert ([t.value] + rest)[1..] == rest;
        var ok := fs.Remove(t.value);
        if !ok {
          return Some(t.value);
        }
      } else {
        assert TempFiles(es[j..]) == rest;
      }
      j := j + 1;
    }
    assert es[|es|..] == [];
    return None;
  }

  /** What the validation pass does on a violation: remove every temporary
      file, then throw the violation's message. */
  method RejectAfterCleanup(fs: FileSystem, es: seq<Entry>, message: string) returns (out: Option<Outcome>)
    modifies fs
    ensures fs.dirs == old(fs.dirs)
    ensures var left := RemoveAll(old(fs.files), TempFiles(es));
      (left.Some? ==> out == Some(Rejected(message)) && fs.files == left.value &&
                      forall t :: t in TempFiles(es) ==> t !in fs.files) &&
      (left.None? ==> out.Some? && out.value.Failed?)
    ensures fs.files == RemoveUntilFailure(old(fs.files), TempFiles(es))
  {
    var failed := RemoveTempFiles(fs, es);
    if failed.Some? {
      return Some(Failed(RemoveFailed(failed.value)));
    }
    return Some(Rejected(message));
  }

  /** The validation pass: entries are checked in order; at the first
      violation every temporary file is removed and the request is rejected
      with that violation's message. None means every entry passed. */
  method ValidateEntries(fs: FileSystem, es: seq<Entry>, opts: UploadOptions) returns (out: Option<Outcome>)
    modifies fs
    ensures out.None? <==> FirstViolation(es, opts).None?
    ensures out.None? ==> fs.State() == old(fs.State())
    ensures fs.dirs == old(fs.dirs)
    ensures FirstViolation(es, opts).Some? ==>
      var left := RemoveAll(old(fs.files), TempFiles(es));
      (left.Some? ==> out == Some(Rejected(FirstViolation(es, opts).value)) && fs.files == left.value &&
                      forall t :: t in TempFiles(es) ==> t !in fs.files) &&
      (left.None? ==> out.Some? && out.value.Failed?)
    ensures FirstViolation(es, opts).Some? ==> fs.files == RemoveUntilFailure(old(fs.files), TempFiles(es))
  {
    var v := FindViolation(es, opts);
    if v.Some? {
      out := RejectAfterCleanup(fs, es, v.value);
    } else {
      out := None;
    }
  }

  /** The scan of the validation pass: the entries are checked in order and
      the first violation's message is the one thrown. */
  method FindViolation(es: seq<Entry>, opts: UploadOptions) returns (v: Option<string>)
    ensures v == FirstViolation(es, opts)
  {
    var i := 0;
    while i < |es|
      invariant 0 <= i <= |es|
      invariant PassBefore(es, opts, i)
    {
      v := Violation(es[i], opts);
      if v.Some? {
        FirstViolationAt(es, opts, i);
        return;
      }
      i := i + 1;
    }
    FirstViolationNone(es, opts);
    return None;
  }

  /** Create the directory of one placement, then move the temporary file
      into it; the remaining placements, `rest`, then start from the new
      state. */
  method PlaceFile(fs: FileSystem, p: Placement, ghost rest: seq<Placement>) returns (failed: Option<IoError>)
    modifies fs
    ensures ApplyPlacements(old(fs.State()), [p] + rest) ==
            if failed.None? then ApplyPlacements(fs.State(), rest) else None
    ensures ApplyUntilFailure(old(fs.State()), [p] + rest) ==
            if failed.None? then ApplyUntilFailure(fs.State(), rest) else fs.State()
  {
    assert ([p] + rest)[0] == p && ([p] + rest)[1..] == rest;
    ghost var before := fs.State();
    var ok := fs.EnsureDir(p.dir);
    if !ok {
      return Some(EnsureDirFailed(p.dir));
    }
    ok := fs.Move(p.src, p.dst);
    if !ok {
      return Some(MoveFailed(p.src, p.dst));
    }
    assert fs.State() == FsState(before.files - {p.src} + {p.dst}, before.dirs + {p.dir});
    return None;
  }

  /** The body of the placement loop for one entry with a temporary file:
      build its upload path and directory from the stamp, place the file,
      and make its manifest entry. */
  method PlaceEntry(fs: FileSystem, e: Entry, opts: UploadOptions, cwd: string, t: Stamp, ghost rest: seq<Placement>)
    returns (failed: Option<IoError>, entry: ManifestEntry)
    requires IsPlaced(e)
    modifies fs
    ensures ApplyPlacements(old(fs.State()), [PlacementOf(e, opts, cwd, t)] + rest) ==
            if failed.None? then ApplyPlacements(fs.State(), rest) else None
    ensures ApplyUntilFailure(old(fs.State()), [PlacementOf(e, opts, cwd, t)] + rest) ==
            if failed.None? then ApplyUntilFailure(fs.State(), rest) else fs.State()
    ensures entry == ManifestEntryOf(e, opts, cwd, t)
  {
    var file := e.value.file;
    var uploadPath := UploadPath(opts.path, t);
    var fullPath := uploadPath;
    if opts.useCurrentDir {
      fullPath := cwd + "/" + fullPath;
    }
    failed := PlaceFile(fs, Placement(fullPath, file.tempfile.value, fullPath + "/" + file.filename), rest);
    entry := ManifestEntry(file.filename, file.contentType, file.size,
                           EncodeUri(uploadPath + "/" + file.filename), fullPath + "/" + file.filename);
  }

  /** One round of the placement pass: entry k, when it has a temporary
      file, is placed and written into the manifest res of the entries
      before it. */
  method PlaceNext(fs: FileSystem, es: seq<Entry>, k: nat, res: Manifest, opts: UploadOptions, cwd: string, stamp: nat -> Stamp)
    returns (failed: Option<IoError>, next: Manifest)
    requires k < |es| && res == ManifestUpTo(es, k, opts, cwd, stamp)
    modifies fs
    ensures ApplyPlacements(old(fs.State()), PlacementsFrom(es, k, opts, cwd, stamp)) ==
            if failed.None? then ApplyPlacements(fs.State(), PlacementsFrom(es, k + 1, opts, cwd, stamp)) else None
    ensures ApplyUntilFailure(old(fs.State()), PlacementsFrom(es, k, opts, cwd, stamp)) ==
            if failed.None? then ApplyUntilFailure(fs.State(), PlacementsFrom(es, k + 1, opts, cwd, stamp)) else fs.State()
    ensures failed.None? ==> next == ManifestUpTo(es, k + 1, opts, cwd, stamp)
  {
    PlacementsStep(es, k, opts, cwd, stamp);
    ManifestStep(es, k + 1, opts, cwd, stamp);
    failed, next := None, res;
    if TempFile(es[k]).Some? {
      var entry;
      failed, entry := PlaceEntry(fs, es[k], opts, cwd, stamp(k), PlacementsFrom(es, k + 1, opts, cwd, stamp));
      next := res[es[k].field := entry];
    }
  }

  /** The placement pass: for each entry with a temporary file, create its
      stamped directory, move the file into it, and record it in the
      manifest under its field name. */
  method PlaceEntries(fs: FileSystem, es: seq<Entry>, opts: UploadOptions, cwd: string, stamp: nat -> Stamp)
    returns (out: Outcome)
    modifies fs
    ensures var after := ApplyPlacements(old(fs.State()), PlacementsFrom(es, 0, opts, cwd, stamp));
      (after.Some? ==> out == Accepted(ManifestUpTo(es, |es|, opts, cwd, stamp)) && fs.State() == after.value) &&
      (after.None? ==> out.Failed?)
    ensures fs.State() == ApplyUntilFailure(old(fs.State()), PlacementsFrom(es, 0, opts, cwd, stamp))
  {
    ghost var target := ApplyPlacements(fs.State(), PlacementsFrom(es, 0, opts, cwd, stamp));
    ghost var reached := ApplyUntilFailure(fs.State(), PlacementsFrom(es, 0, opts, cwd, stamp));
    var res: Manifest := map[];
    var k := 0;
    while k < |es|
      invariant 0 <= k <= |es|
      invariant res == ManifestUpTo(es, k, opts, cwd, stamp)
      invariant target == ApplyPlacements(fs.State(), PlacementsFrom(es, k, opts, cwd, stamp))
      invariant reached == ApplyUntilFailure(fs.State(), PlacementsFrom(es, k, opts, cwd, stamp))
    {
      var failed, next := PlaceNext(fs, es, k, res, opts, cwd, stamp);
      if failed.Some? {
        return Failed(failed.value);
      }
      res, k := next, k + 1;
    }
    return Accepted(res);
  }

  /** The whole middleware. The decoder of the multipart body is a
      parameter, as are the working directory and the date and identifier
      of each entry's directory. */
  method Upload(fs: FileSystem, opts: UploadOptions, req: Request, decode: string -> seq<Entry>,
                cwd: string, stamp: nat -> Stamp) returns (out: Outcome)
    modifies fs
    // the size gate comes first and touches nothing
    ensures DeclaredTooLarge(req, opts) ==>
      out == Rejected(TotalSizeExceeded(HeaderText(req.contentLength), opts.maxSizeBytes)) &&
      fs.State() == old(fs.State())
    // then the content type; nothing is decoded when it does not match
    ensures !DeclaredTooLarge(req, opts) && ParseBoundary(req.contentType).None? ==>
      out == Rejected(InvalidUpload()) && fs.State() == old(fs.State())
    // a violation removes every temporary file, then rejects with the first violation's message
    ensures !DeclaredTooLarge(req, opts) && ParseBoundary(req.contentType).Some? ==>
      var es := decode(ParseBoundary(req.contentType).value);
      FirstViolation(es, opts).Some? ==>
        var left := RemoveAll(old(fs.files), TempFiles(es));
        fs.dirs == old(fs.dirs) &&
        (left.Some? ==> out == Rejected(FirstViolation(es, opts).value) && fs.files == left.value &&
                        forall t :: t in TempFiles(es) ==> t !in fs.files) &&
        (left.None? ==> out.Failed?) &&
        fs.files == RemoveUntilFailure(old(fs.files), TempFiles(es))
    // otherwise every file is placed and the manifest is attached
    ensures !DeclaredTooLarge(req, opts) && ParseBoundary(req.contentType).Some? ==>
      var es := decode(ParseBoundary(req.contentType).value);
      FirstViolation(es, opts).None? ==>
        var after := ApplyPlacements(old(fs.State()), PlacementsFrom(es, 0, opts, cwd, stamp));
        (after.Some? ==> out == Accepted(ManifestUpTo(es, |es|, opts, cwd, stamp)) && fs.State() == after.value) &&
        (after.None? ==> out.Failed?) &&
        fs.State() == ApplyUntilFailure(old(fs.State()), PlacementsFrom(es, 0, opts, cwd, stamp))
  {
    var lengthText := HeaderText(req.contentLength);
    var declared := ParseInt(lengthText);
    if declared.Some? && declared.value > opts.maxSizeBytes {
      return Rejected(TotalSizeExceeded(lengthText, opts.maxSizeBytes));
    }
    var boundary := ParseBoundary(req.contentType);
    if boundary.None? {
      return Rejected(InvalidUpload());
    }
    var es := decode(boundary.value);
    var rejected := ValidateEntries(fs, es, opts);
    if rejected.Some? {
      return rejected.value;
    }
    out := PlaceEntries(fs, es, opts, cwd, stamp);
  }
}
