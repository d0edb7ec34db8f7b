/** The fail-fast validation pass of `uploadMiddleware`: the first file part
    whose extension is not allowed, or that is too large, decides the
    rejection. */
module Validation {

  import opened Wrappers
  import opened JsText
  import opened Messages
  import opened Form

  /** The message the validation pass throws for entry e, or None when e
      passes. Only single file parts are checked, and only when the
      allow-list is non-empty; the extension is checked before the size. */
  function Violation(e: Entry, opts: UploadOptions): (r: Option<string>)
    ensures r.Some? <==>
      e.value.File? && opts.extensions != [] &&
      (Extension(e.value.file.filename) !in opts.extensions || e.value.file.size > opts.maxFileSizeBytes)
    ensures r.Some? && Extension(e.value.file.filename) !in opts.extensions ==>
      r.value == ExtensionNotAllowed(Extension(e.value.file.filename), e.value.file.filename, opts.extensions)
    ensures r.Some? && Extension(e.value.file.filename) in opts.extensions ==>
      r.value == FileSizeExceeded(e.value.file.filename, e.value.file.size, opts.maxFileSizeBytes)
  {
    match e.value
    case File(f) =>
      if opts.extensions != [] then
        var ext := Extension(f.filename);
        if ext !in opts.extensions then Some(ExtensionNotAllowed(ext, f.filename, opts.extensions))
        else if f.size > opts.maxFileSizeBytes then Some(FileSizeExceeded(f.filename, f.size, opts.maxFileSizeBytes))
        else None
      else None
    case _ => None
  }

  /** The message of the first violating entry, in entry order. */
  function FirstViolation(es: seq<Entry>, opts: UploadOptions): Option<string>
  {
    if es == [] then None
    else if Violation(es[0], opts).Some? then Violation(es[0], opts)
    else FirstViolation(es[1..], opts)
  }

  /** The validation pass lets the request through exactly when no entry
      violates the policy. */
  lemma {:induction false} FirstViolationNone(es: seq<Entry>, opts: UploadOptions)
    ensures FirstViolation(es, opts) == None <==> forall k :: 0 <= k < |es| ==> Violation(es[k], opts) == None
  {
    if es != [] {
      FirstViolationNone(es[1..], opts);
      assert forall k :: 1 <= k < |es| ==> es[k] == es[1..][k - 1];
    }
  }

  /** Every entry before position k passes the validation pass. */
  predicate PassBefore(es: seq<Entry>, opts: UploadOptions, k: int)
    requires k <= |es|
  {
    forall j :: 0 <= j < k ==> Violation(es[j], opts) == None
  }

  /** The entry that decides the rejection is the first violating one: when
      entries before k pass and entry k violates, k's message is thrown. */
  lemma {:induction false} FirstViolationAt(es: seq<Entry>, opts: UploadOptions, k: nat)
    requires k < |es|
    requires PassBefore(es, opts, k)
    requires Violation(es[k], opts).Some?
    ensures FirstViolation(es, opts) == Violation(es[k], opts)
  {
    if k > 0 {
      assert es[1..][k - 1] == es[k];
      assert PassBefore(es[1..], opts, k - 1) by {
        forall j | 0 <= j < k - 1
          ensures Violation(es[1..][j], opts) == None
        {
          assert es[1..][j] == es[j + 1];
        }
      }
      FirstViolationAt(es[1..], opts, k - 1);
    }
  }

  /** Conversely, a rejection always names a violating entry all of whose
      predecessors pass. */
  lemma {:induction false} FirstViolationWitness(es: seq<Entry>, opts: UploadOptions) returns (k: nat)
    requires FirstViolation(es, opts).Some?
    ensures k < |es| && PassBefore(es, opts, k) && Violation(es[k], opts) == FirstViolation(es, opts)
  {
    assert es != [];
    if Violation(es[0], opts).None? {
      assert FirstViolation(es, opts) == FirstViolation(es[1..], opts);
      var k' := FirstViolationWitness(es[1..], opts);
      k := k' + 1;
      assert es[k] == es[1..][k'];
      forall j | 0 <= j < k
        ensures Violation(es[j], opts) == None
      {
        if j > 0 {
          assert es[j] == es[1..][j - 1];
        }
      }
    } else {
      k := 0;
    }
  }

  /** With an empty allow-list the validation pass rejects nothing, whatever
      the sizes. */
  lemma EmptyAllowListPassesAll(es: seq<Entry>, opts: UploadOptions)
    requires opts.extensions == []
    ensures FirstViolation(es, opts) == None
  {
    FirstViolationNone(es, opts);
  }
}
