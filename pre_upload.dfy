/** `preUploadValidateMiddleware`: checks a JSON list of file descriptors
    before any upload happens and reports every problem at once. */
module PreUpload {

  import opened Wrappers
  import opened JsText
  import opened Messages
  import opened Form
  import opened Validation

  /** One item of the JSON body: the file's name and size in bytes. */
  datatype Descriptor = Descriptor(name: string, size: int)

  /** The factory's three parameters; the allow-list defaults to empty. */
  datatype PreOptions = PreOptions(extensions: seq<string>, maxSizeBytes: int, maxFileSizeBytes: int)

  function DefaultPreOptions(): PreOptions
  {
    PreOptions([], MaxSafeInteger, MaxSafeInteger)
  }

  /** Pass: `next()` is called. Reject: a 422 response with the message. */
  datatype Verdict = Pass | Reject(message: string)

  /** The sum of the sizes, accumulated in iteration order. */
  function Total(items: seq<Descriptor>): int
  {
    if items == [] then 0 else Total(items[..|items| - 1]) + items[|items| - 1].size
  }

  predicate TooLarge(d: Descriptor, opts: PreOptions)
  {
    d.size > opts.maxFileSizeBytes
  }

  /** Unlike the upload middleware, an empty allow-list refuses every
      extension. */
  predicate ExtensionRefused(d: Descriptor, opts: PreOptions)
  {
    Extension(d.name) !in opts.extensions
  }

  /** What one item adds to the report: the size message, then the
      extension message, each followed by a space. */
  function ItemReport(d: Descriptor, opts: PreOptions): string
  {
    (if TooLarge(d, opts) then FileSizeExceeded(d.name, d.size, opts.maxFileSizeBytes) + " " else "") +
    (if ExtensionRefused(d, opts) then ExtensionNotAllowed(Extension(d.name), d.name, opts.extensions) + " " else "")
  }

  /** The item messages, in iteration order. */
  function ItemsReport(items: seq<Descriptor>, opts: PreOptions): string
  {
    if items == [] then "" else ItemsReport(items[..|items| - 1], opts) + ItemReport(items[|items| - 1], opts)
  }

  /** The message about the summed size, added after all item messages. */
  function AggregateReport(total: int, opts: PreOptions): string
  {
    if total > opts.maxSizeBytes then TotalSizeExceeded(IntToString(total), opts.maxSizeBytes) + " " else ""
  }

  function Report(items: seq<Descriptor>, opts: PreOptions): string
  {
    ItemsReport(items, opts) + AggregateReport(Total(items), opts)
  }

  /** The request is rejected exactly when the accumulated report is
      non-empty, and the report is the response's message. */
  function VerdictOf(items: seq<Descriptor>, opts: PreOptions): Verdict
  {
    var report := Report(items, opts);
    if report == "" then Pass else Reject(report)
  }

  /** The body of the middleware's loop for one item: the size message,
      then the extension message, appended to the report so far. */
  method AppendItemMessages(report: string, d: Descriptor, opts: PreOptions) returns (r: string)
    ensures r == report + ItemReport(d, opts)
  {
    r := report;
    if d.size > opts.maxFileSizeBytes {
      r := r + (FileSizeExceeded(d.name, d.size, opts.maxFileSizeBytes) + " ");
    }
    ghost var sizePart := if TooLarge(d, opts) then FileSizeExceeded(d.name, d.size, opts.maxFileSizeBytes) + " " else "";
    assert r == report + sizePart;
    var ext := Extension(d.name);
    if ext !in opts.extensions {
      r := r + (ExtensionNotAllowed(ext, d.name, opts.extensions) + " ");
    }
    ghost var extPart := if ExtensionRefused(d, opts) then ExtensionNotAllowed(ext, d.name, opts.extensions) + " " else "";
    Associate(report, sizePart, extPart);
  }

  /** The check after the loop: the message about the summed size,
      appended to the report so far. */
  method AppendAggregate(report: string, totalBytes: int, opts: PreOptions) returns (r: string)
    ensures r == report + AggregateReport(totalBytes, opts)
  {
    r := report;
    if totalBytes > opts.maxSizeBytes {
      r := r + (TotalSizeExceeded(IntToString(totalBytes), opts.maxSizeBytes) + " ");
    }
  }

  /** The middleware's loop: one pass over the items that sums the sizes
      and appends each item's messages. */
  method ScanItems(items: seq<Descriptor>, opts: PreOptions) returns (totalBytes: int, report: string)
    ensures totalBytes == Total(items)
    ensures report == ItemsReport(items, opts)
  {
    totalBytes := 0;
    report := "";
    var i := 0;
    while i < |items|
      invariant 0 <= i <= |items|
      invariant totalBytes == Total(items[..i])
      invariant report == ItemsReport(items[..i], opts)
    {
      ScanStep(items, i, opts);
      totalBytes := totalBytes + items[i].size;
      report := AppendItemMessages(report, items[i], opts);
      i := i + 1;
    }
    assert items[..|items|] == items;
  }

  /** The whole middleware: the loop, the aggregate check, and a rejection
      exactly when some message was written. */
  method PreUploadValidate(items: seq<Descriptor>, opts: PreOptions) returns (v: Verdict)
    ensures v == VerdictOf(items, opts)
  {
    var totalBytes, report := ScanItems(items, opts);
    report := AppendAggregate(report, totalBytes, opts);
    if report != "" {
      return Reject(report);
    }
    return Pass;
  }

  /** One more item adds its size to the sum and its messages to the
      report. */
  lemma ScanStep(items: seq<Descriptor>, i: nat, opts: PreOptions)
    requires i < |items|
    ensures Total(items[..i + 1]) == Total(items[..i]) + items[i].size
    ensures ItemsReport(items[..i + 1], opts) == ItemsReport(items[..i], opts) + ItemReport(items[i], opts)
  {
    assert items[..i + 1] == items[..i] + [items[i]];
    ItemsReportSnoc(items[..i], items[i], opts);
    TotalSnoc(items[..i], items[i]);
  }

  lemma TotalSnoc(xs: seq<Descriptor>, x: Descriptor)
    ensures Total(xs + [x]) == Total(xs) + x.size
  {
    assert (xs + [x])[..|xs|] == xs;
  }

  /** An item contributes nothing exactly when it is within the per-file
      limit and its extension is allowed. */
  lemma ItemReportEmpty(d: Descriptor, opts: PreOptions)
    ensures ItemReport(d, opts) == "" <==> !TooLarge(d, opts) && !ExtensionRefused(d, opts)
  {
    var a := if TooLarge(d, opts) then FileSizeExceeded(d.name, d.size, opts.maxFileSizeBytes) + " " else "";
    var b := if ExtensionRefused(d, opts) then ExtensionNotAllowed(Extension(d.name), d.name, opts.extensions) + " " else "";
    assert |a + b| == |a| + |b|;
  }

  /** Extending the list by one item appends that item's messages. */
  lemma ItemsReportSnoc(xs: seq<Descriptor>, x: Descriptor, opts: PreOptions)
    ensures ItemsReport(xs + [x], opts) == ItemsReport(xs, opts) + ItemReport(x, opts)
  {
    assert (xs + [x])[..|xs|] == xs;
  }

  lemma EmptyConcat(x: string, y: string)
    ensures x + y == "" <==> x == "" && y == ""
  {
    assert |x + y| == |x| + |y|;
  }

  lemma Associate(x: string, y: string, z: string)
    ensures (x + y) + z == x + (y + z)
  {
  }

  /** The report of a concatenation is the concatenation of the reports. */
  lemma {:induction false} ItemsReportAppend(a: seq<Descriptor>, b: seq<Descriptor>, opts: PreOptions)
    ensures ItemsReport(a + b, opts) == ItemsReport(a, opts) + ItemsReport(b, opts)
  {
    if b == [] {
      assert a + b == a;
    } else {
      var init, last := b[..|b| - 1], b[|b| - 1];
      assert a + b == (a + init) + [last];
      assert b == init + [last];
      ItemsReportSnoc(a + init, last, opts);
      ItemsReportSnoc(init, last, opts);
      ItemsReportAppend(a, init, opts);
      Associate(ItemsReport(a, opts), ItemsReport(init, opts), ItemReport(last, opts));
    }
  }

  /** Item k's messages sit between those of the items before it and those
      of the items after it, and the aggregate message comes last. */
  lemma ReportDecomposition(items: seq<Descriptor>, opts: PreOptions, k: nat)
    requires k < |items|
    ensures Report(items, opts) ==
      ItemsReport(items[..k], opts) + ItemReport(items[k], opts) + ItemsReport(items[k + 1..], opts) +
      AggregateReport(Total(items), opts)
  {
    ItemsReportSplit(items, opts, k);
  }

  lemma ItemsReportSplit(items: seq<Descriptor>, opts: PreOptions, k: nat)
    requires k < |items|
    ensures ItemsReport(items, opts) ==
      ItemsReport(items[..k], opts) + ItemReport(items[k], opts) + ItemsReport(items[k + 1..], opts)
  {
    assert items == items[..k] + [items[k]] + items[k + 1..];
    ItemsReportAppend(items[..k] + [items[k]], items[k + 1..], opts);
    ItemsReportAppend(items[..k], [items[k]], opts);
    ItemsReportSingle(items[k], opts);
  }

  lemma ItemsReportSingle(d: Descriptor, opts: PreOptions)
    ensures ItemsReport([d], opts) == ItemReport(d, opts)
  {
    assert [d][..0] == [];
  }

  /** The item messages are empty exactly when every item passes. */
  lemma {:induction false} ItemsReportEmpty(items: seq<Descriptor>, opts: PreOptions)
    ensures ItemsReport(items, opts) == "" <==> forall k :: 0 <= k < |items| ==> ItemReport(items[k], opts) == ""
  {
    if items != [] {
      var init, last := items[..|items| - 1], items[|items| - 1];
      assert items == init + [last];
      ItemsReportSnoc(init, last, opts);
      ItemsReportEmpty(init, opts);
      EmptyConcat(ItemsReport(init, opts), ItemReport(last, opts));
      assert forall k :: 0 <= k < |init| ==> init[k] == items[k];
    }
  }


  /** The validator rejects exactly when some item is too large or has a
      refused extension, or the sizes sum to more than the limit; a
      rejection's message is the whole report. */
  lemma RejectsIff(items: seq<Descriptor>, opts: PreOptions)
    ensures VerdictOf(items, opts).Reject? <==>
      (exists k :: 0 <= k < |items| && (TooLarge(items[k], opts) || ExtensionRefused(items[k], opts))) ||
      Total(items) > opts.maxSizeBytes
    ensures VerdictOf(items, opts).Reject? ==> VerdictOf(items, opts).message == Report(items, opts)
  {
    ItemsReportEmpty(items, opts);
    forall k | 0 <= k < |items|
      ensures ItemReport(items[k], opts) == "" <==> !TooLarge(items[k], opts) && !ExtensionRefused(items[k], opts)
    {
      ItemReportEmpty(items[k], opts);
    }
    var a := ItemsReport(items, opts);
    var b := AggregateReport(Total(items), opts);
    assert |a + b| == |a| + |b|;
  }

  /** With the default empty allow-list every non-empty list is rejected. */
  lemma EmptyAllowListRejects(items: seq<Descriptor>, opts: PreOptions)
    requires opts.extensions == [] && items != []
    ensures VerdictOf(items, opts).Reject?
  {
    RejectsIff(items, opts);
    assert ExtensionRefused(items[0], opts);
  }

  /** The summed size is the sum of the two halves' sums. */
  lemma {:induction false} TotalAppend(a: seq<Descriptor>, b: seq<Descriptor>)
    ensures Total(a + b) == Total(a) + Total(b)
  {
    if b == [] {
      assert a + b == a;
    } else {
      var c := a + b;
      assert c[..|c| - 1] == a + b[..|b| - 1];
      assert c[|c| - 1] == b[|b| - 1];
      TotalAppend(a, b[..|b| - 1]);
    }
  }

  /** When every item is within the per-file limit, the aggregate check can
      only fire if the list is longer than maxSizeBytes / maxFileSizeBytes. */
  lemma {:induction false} TotalBound(items: seq<Descriptor>, opts: PreOptions)
    requires forall k :: 0 <= k < |items| ==> !TooLarge(items[k], opts)
    ensures Total(items) <= |items| * opts.maxFileSizeBytes
  {
    if items != [] {
      var init := items[..|items| - 1];
      assert forall k :: 0 <= k < |init| ==> init[k] == items[k];
      TotalBound(init, opts);
    }
  }

  /** The two validators agree on a single file while the allow-list is
      non-empty; with an empty allow-list the upload middleware lets every
      file through and this one refuses every extension. */
  lemma AgreesWithUploadValidation(d: Descriptor, opts: PreOptions, field: string, contentType: string,
                                    tempfile: Option<string>, path: string, useCurrentDir: bool)
    ensures var e := Entry(field, File(FormFile(d.name, contentType, d.size, tempfile)));
      var uopts := UploadOptions(path, opts.extensions, opts.maxSizeBytes, opts.maxFileSizeBytes, useCurrentDir);
      (opts.extensions != [] ==> (ItemReport(d, opts) != "" <==> Violation(e, uopts).Some?)) &&
      (opts.extensions == [] ==> ItemReport(d, opts) != "" && Violation(e, uopts).None?)
  {
    ItemReportEmpty(d, opts);
  }
}
