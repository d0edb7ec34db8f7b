# Oak upload middleware, modelled in Dafny

This project models `mod.ts`, the two middlewares of an Oak upload library.

`uploadMiddleware` runs four steps in order:

1. It rejects a request whose declared `content-length` is over the total limit.
2. It accepts only a `multipart/form-data; boundary=…` content type.
3. It runs a fail-fast validation pass over the decoded form. The first file part with a refused extension or an over-large size makes it delete every temporary file and reject with a 422.
4. Otherwise it creates a time-bucketed, uuid-keyed directory for each file part and moves the temporary file there. It also builds the `uploadedFiles` manifest: field name to `{filename, type, size, url, uri}`, where the model's `contentType` stands for the form file's `type`.

`preUploadValidateMiddleware` checks a JSON list of name/size descriptors. It writes one message per problem, in order, then adds the aggregate-size message last. It rejects when the report is non-empty.

Modules:

- `JsText`: the ECMAScript operations the code depends on:
  - `parseInt` (white space, sign, `0x`, longest digit prefix, NaN as `None`);
  - number-to-text in template literals;
  - `split(".").pop()`;
  - the text of an array.
- `Uri`: `encodeURI`, including the UTF-8 percent escapes.
- `ContentType`: the boundary regular expression.
- `Messages`: the 422 texts.
- `Form`: the decoded form entries and the options.
- `Validation`: the per-part check and the first violation.
- `FileStore`: a `FileSystem` class with `Remove`, `EnsureDir` and `Move`, plus a pure simulation of removing a list of paths and of a run of placements.
- `Storage`: upload paths, placements and the manifest.
- `UploadMiddleware`: the imperative `Upload` method and its two passes.
- `PreUpload`: the pre-upload validator.

A request ends in one of three ways:

- `Accepted(manifest)`: `next()` is reached with `uploadedFiles` set.
- `Rejected(message)`: always a 422. `context.throw` raises, so nothing after it runs.
- `Failed(error)`: a filesystem call threw, so the request fails with a server error rather than a validation error.

Where the code differs from the library's own description, the model follows the code:

- **Cleanup is not best-effort.** Cleanup awaits `Deno.remove` on each temporary file. A failing removal throws out of the middleware: the outcome is `Failed`, and the validation message is lost.
- **The boundary token takes the rest of the header.** The regular expression's `(.*)$` captures everything up to the end of the header. A quoted boundary keeps its quotes, and a trailing `; charset=…` becomes part of the token. Only a line terminator in the token, a missing or misspelled prefix, or anything other than exactly one white-space character after the `;` leads to `Invalid upload data`.
- **The date segments come straight from the `Date` getters.** The path uses `getMonth()`, which counts from 0. It uses `getDay()`, which is the day of the week, not the day of the month. The model keeps both getters' values as given. Uniqueness of directories rests on the uuid alone (`DirectoryDeterminesUuid`).
- **An empty allow-list behaves differently in the two middlewares.** The pre-upload validator refuses every extension, so it rejects every non-empty list. The upload middleware treats an empty list as no restriction and then skips the size check too (`EmptyAllowListRejects`, `AgreesWithUploadValidation`).
- **Arrays of files are not handled.** An entry whose value is an array of files (an input with `multiple`) has no `filename` or `tempfile`. It is never validated, never cleaned up and never moved (`Form.FormValue.Files`).

## Model

| member | source | states |
|---|---|---|
| JsText.IntToString | mod.ts:16 | the text `${n}` prints for an integer; IntToStringShape and ParseIntOfIntToString state what it is |
| JsText.NatToStringDigits | mod.ts:16 | the decimal text of a natural number is a non-empty run of digits that starts with '0' only for 0 itself |
| JsText.IntToStringShape | mod.ts:16 | the text of a number in a template literal is non-empty and made of decimal digits, with a leading '-' exactly when the number is negative |
| JsText.NatToStringValue | mod.ts:63 | the decimal text of a natural number reads back as that number |
| JsText.TrimStart | mod.ts:12 | `parseInt` skips exactly the leading ECMAScript white space: the result is a suffix, every skipped character is white space, and the first remaining one is not |
| JsText.DigitPrefixLength | mod.ts:12 | `parseInt` reads the longest prefix of digits of the radix: all characters before it are digits and the next one is not |
| JsText.ParseInt | mod.ts:12 | `parseInt` without a radix: skip leading white space, an optional sign, `0x` for radix 16, the longest digit prefix, `None` for NaN; its meaning is stated by ParseIntOfIntToString and SizeGateNeedsNumber |
| JsText.ParseUnsignedOfDigits | mod.ts:12 | `parseInt` reads a non-empty run of decimal digits whole, in radix 10 |
| JsText.ParseIntNegated | mod.ts:12 | a minus sign before a number's text negates what `parseInt` reads |
| JsText.ParseIntOfIntToString | mod.ts:11-16 | `parseInt` of the text a template literal prints for an integer gives that integer back |
| JsText.Extension | mod.ts:39 | `split(".").pop()`: the text after the last '.', characterised by ExtensionIsLastSegment and ExtensionUnique |
| JsText.ExtensionIsLastSegment | mod.ts:39 | `split(".").pop()` gives a dot-free suffix of the name that is the whole name or follows its last '.' |
| JsText.ExtensionUnique | mod.ts:39 | those three properties determine the extension: any string that has them is the extension |
| JsText.Join | mod.ts:48-50 | the text of the allow-list in a template literal: the entries joined by ',' |
| Messages.InvalidUpload | mod.ts:97-100 | the 422 text for a request that is not multipart form data with a boundary |
| Messages.TotalSizeExceeded | mod.ts:14-17 | the 422 text for an over-large total, with the size as given and the limit in decimal |
| Messages.ExtensionNotAllowed | mod.ts:46-51 | the 422 text for a refused extension, naming the extension, the file and the allow-list |
| Messages.FileSizeExceeded | mod.ts:59-64 | the 422 text for an over-large file, naming the file, its size and the limit |
| Uri.Utf8 | mod.ts:89-91 | the UTF-8 encoding of a code point has 1 to 4 bytes, and exactly 1 for ASCII |
| Uri.PercentEncode | mod.ts:89-91 | each byte becomes three characters: '%' and two hexadecimal digits |
| Uri.EncodeUri | mod.ts:89-91 | `encodeURI` never shortens its input and yields only '%' and characters it leaves unescaped |
| Uri.EncodeUriAppend | mod.ts:89-91 | `encodeURI` distributes over concatenation |
| Uri.EncodeUriOfSafe | mod.ts:89-91 | text made only of unescaped characters is its own encoding |
| Uri.EncodeUriOfChar | mod.ts:89-91 | a code point is kept exactly when it is unescaped, and otherwise becomes a '%' escape of its UTF-8 bytes |
| ContentType.ParseBoundary | mod.ts:20-28 | a header that matches is the exact prefix, one white-space character, "boundary=" and a one-line token, and that token is what is captured |
| ContentType.ParseBoundaryAccepts | mod.ts:20-28 | every header of that shape matches, and its token is everything after "boundary=" |
| Form.TempFiles | mod.ts:41-45 | the temporary files are exactly those of the single file parts that have one, one per entry at most |
| Validation.Violation | mod.ts:37-66 | a part is refused exactly when it is a single file part, the allow-list is non-empty, and its extension is refused or its size is over the limit; the extension message takes precedence over the size message |
| Validation.FirstViolation | mod.ts:36-69 | the message of the first refused entry in entry order; FirstViolationNone, FirstViolationAt and FirstViolationWitness state what it is |
| Validation.FirstViolationNone | mod.ts:36-69 | the validation pass lets the request through exactly when no entry is refused |
| Validation.FirstViolationAt | mod.ts:36-69 | when the entries before k pass and entry k is refused, entry k's message is the one thrown |
| Validation.FirstViolationWitness | mod.ts:36-69 | a rejection always names a refused entry whose predecessors all pass |
| Validation.EmptyAllowListPassesAll | mod.ts:38 | with an empty allow-list nothing is refused, whatever the sizes |
| FileStore.FileSystem.Remove | mod.ts:43 | removing a path succeeds exactly when the file exists, and then removes just it |
| FileStore.FileSystem.EnsureDir | mod.ts:82 | creating a directory succeeds unless a file has that path; an existing directory is fine |
| FileStore.FileSystem.Move | mod.ts:83-86 | a move succeeds exactly when the source exists and the destination is free, and then replaces the source by the destination |
| FileStore.RemoveAllSucceeds | mod.ts:41-45 | removing a list of temporary files succeeds exactly when the paths are distinct and all exist, and then removes exactly those paths |
| FileStore.SeparatedPlacementsSucceed | mod.ts:70-94 | placements with distinct, existing sources and fresh, non-clashing destinations all succeed: the sources are replaced by the destinations and the directories are added |
| FileStore.RemoveUntilFailure | mod.ts:41-45 | the files left when the cleanup removals run in order and the first one that throws ends the run |
| FileStore.RemoveUntilFailureAgrees | mod.ts:41-45 | when no removal throws, that run leaves what removing all the paths leaves |
| FileStore.RemoveUntilFailureStops | mod.ts:41-45 | when removal j is the first to throw, the paths before it are gone and every other file, the later temporary files included, is left as it was |
| FileStore.ApplyUntilFailure | mod.ts:70-86 | the state when the placements run in order and the first `ensureDir` or `move` that throws ends the run |
| FileStore.ApplyUntilFailureAgrees | mod.ts:70-86 | when no placement throws, that run ends in the state of all the placements |
| FileStore.ApplyUntilFailureStops | mod.ts:82-86 | when placement j is the first to throw, the run ends in the state after the first j placements, plus j's directory when `ensureDir` succeeded; no later placement happens |
| FileStore.SuccessKeepsOtherFiles | mod.ts:83-86 | placements that all succeed keep every file that is not one of their sources |
| FileStore.FailedPlacementKeepsLaterSources | mod.ts:70-86 | after a failing placement, the temporary file of that entry and of every later one is still on disk unless an earlier placement moved it |
| Storage.UploadPath | mod.ts:74-77 | the storage path, the six date getters' values in decimal and the uuid, joined by '/' |
| Storage.FullPath | mod.ts:78-81 | the upload path under the working directory when `useCurrentDir` is set, otherwise the upload path itself |
| Storage.FullPathSplit | mod.ts:76-81 | the directory is the optional working directory, the storage path, then the time and uuid segments |
| Storage.DirectoryDeterminesUuid | mod.ts:74-81 | two directories are equal only when their uuids are, whatever the clock said |
| Storage.DestinationDeterminesUuid | mod.ts:74-86 | two destinations are equal only when their uuids and file names are |
| Storage.DestinationIsNoDirectory | mod.ts:76-86 | a file's destination is never the directory of any file of the pass |
| Storage.ManifestEntryOf | mod.ts:87-92 | the manifest value of one placed file; ManifestEntryMeaning states what it holds |
| Storage.ManifestUpTo | mod.ts:70-93 | the manifest after the first n entries, each placed entry written under its field name; ManifestKeys, ManifestLastWriteWins and ManifestValuesFromEntries state what it holds |
| Storage.ManifestKeys | mod.ts:70-93 | the manifest's keys are exactly the field names of the entries with a temporary file |
| Storage.ManifestLastWriteWins | mod.ts:87 | when field names repeat, the manifest holds the last such entry |
| Storage.ManifestUnchangedAfter | mod.ts:87 | what an entry wrote under its field name stays there while no later placed entry has that name |
| Storage.ManifestValuesFromEntries | mod.ts:87-92 | every manifest value was made from a placed entry stored under that field name |
| Storage.ManifestEntryMeaning | mod.ts:87-92 | a manifest entry keeps the part's name, type and size; `uri` is where the file was moved; `url` is the upload path plus the encoded file name when the path and uuid need no escaping |
| Storage.UploadPathUriSafe | mod.ts:76-77 | an upload path built from an unescaped storage path and uuid needs no escaping |
| Storage.PlacementsMembers | mod.ts:70-86 | the placement pass makes one placement per entry with a temporary file, with that entry's directory and destination |
| Storage.PlacementsSources | mod.ts:70-86 | the placements move the temporary files in entry order |
| Storage.PlacementsDestinationsDistinct | mod.ts:74-86 | with distinct uuids, no two placements share a destination |
| Storage.PlacementsSeparated | mod.ts:70-86 | on a filesystem where the temporary files exist and the targets are free, the placements meet the conditions under which all of them succeed |
| Storage.ManifestUrisAreDestinations | mod.ts:85-92 | every manifest `uri` is the destination of one of the placements |
| Storage.TempFilesAreNoDestinations | mod.ts:83-86 | on a filesystem ready for placement, no temporary file is the destination of a placement |
| Storage.AcceptedUploadPlacesEveryFile | mod.ts:70-95 | then the placement pass succeeds, no temporary file is left, and every manifest `uri` names a file that exists |
| UploadMiddleware.DeclaredTooLarge | mod.ts:11-13 | the size gate's test, `parseInt` of the header text compared with the limit, false for NaN; SizeGateNeedsNumber and SizeGateOnDecimal state when it holds |
| UploadMiddleware.SizeGateNeedsNumber | mod.ts:11-13 | a missing or non-numeric `content-length` never trips the size gate |
| UploadMiddleware.SizeGateOnDecimal | mod.ts:11-17 | a decimal `content-length` is rejected exactly when it is over the limit |
| UploadMiddleware.RemoveTempFiles | mod.ts:41-45 | the cleanup loop succeeds exactly when removing all temporary files succeeds, and leaves exactly that state; when a removal throws, the files are those of the run that stopped there (the earlier temporary files removed, the later ones kept); directories are untouched |
| UploadMiddleware.RejectAfterCleanup | mod.ts:41-51 | a rejection first removes every temporary file: it rejects with the message exactly when all removals succeed, and fails otherwise, leaving the files of the cleanup run that stopped at the failing removal |
| UploadMiddleware.ValidateEntries | mod.ts:36-69 | the validation pass changes nothing when every entry passes; otherwise it removes every temporary file and rejects with the first violation's message, or fails when a removal fails, leaving the files of the cleanup run that stopped there |
| UploadMiddleware.FindViolation | mod.ts:36-40 | the scan of the validation pass finds the first violation's message, or none when every entry passes |
| UploadMiddleware.PlaceFile | mod.ts:82-86 | creating the directory and then moving the file does what the placement simulation says, or fails exactly when the simulation does; after a failure the state is that of the run stopped there (no change when `ensureDir` throws, the directory created when `move` throws) |
| UploadMiddleware.PlaceEntry | mod.ts:73-92 | placing one entry performs its placement and returns its manifest entry; after a failure the state is that of the run stopped at it |
| UploadMiddleware.PlaceNext | mod.ts:71-93 | one round of the placement loop performs entry k's placement, if it has one, and extends the manifest of the earlier entries by it; after a failure the state is that of the run stopped at entry k |
| UploadMiddleware.PlaceEntries | mod.ts:70-95 | the placement pass returns the manifest of all placed entries and the filesystem after all the placements, or fails exactly when one of them cannot be done; in every case the filesystem is that of the run stopped at the first failing placement (earlier moves done, later temporary files left in place) |
| UploadMiddleware.Upload | mod.ts:10-103 | the size gate, then the content-type check, then the validation pass, then placement, with the outcome and the filesystem state of each path, the failing ones included |
| PreUpload.Total | mod.ts:113-116 | the sum of the sizes in iteration order; TotalAppend and TotalBound state its properties |
| PreUpload.ItemReport | mod.ts:117-126 | what one item adds to the report; ItemReportEmpty states when it is empty |
| PreUpload.AggregateReport | mod.ts:128-132 | the message about the sum, present exactly when the sum is over the limit |
| PreUpload.VerdictOf | mod.ts:133-136 | reject with the report when it is non-empty, otherwise pass; RejectsIff states when it rejects |
| PreUpload.PreUploadValidate | mod.ts:110-136 | the loop's verdict is the report of all item messages followed by the aggregate message; it rejects exactly when that report is non-empty |
| PreUpload.ScanItems | mod.ts:113-127 | the loop sums the sizes and builds the item messages in iteration order |
| PreUpload.AppendItemMessages | mod.ts:116-126 | one item appends its size message, then its extension message, to the report |
| PreUpload.AppendAggregate | mod.ts:128-132 | the aggregate message is appended exactly when the sum is over the limit |
| PreUpload.ItemReportEmpty | mod.ts:116-126 | an item adds nothing exactly when it is within the per-file limit and its extension is allowed |
| PreUpload.ItemsReportAppend | mod.ts:115-127 | the report of a concatenated list is the concatenation of the reports |
| PreUpload.ItemsReportSplit | mod.ts:115-127 | item k's messages sit between those of the earlier and the later items |
| PreUpload.ReportDecomposition | mod.ts:115-132 | item k's messages sit between those of the earlier and the later items, and the aggregate message comes last |
| PreUpload.ItemsReportEmpty | mod.ts:115-127 | the item messages are empty exactly when every item passes |
| PreUpload.RejectsIff | mod.ts:115-135 | the validator rejects exactly when some item is too large or has a refused extension, or the sum is over the limit, and the message is the whole report |
| PreUpload.EmptyAllowListRejects | mod.ts:105-106 | with the default empty allow-list every non-empty list is rejected |
| PreUpload.TotalAppend | mod.ts:116 | the summed size of a concatenation is the sum of the two sums |
| PreUpload.TotalBound | mod.ts:116-117 | when every item is within the per-file limit, the sum is at most the item count times that limit |
| PreUpload.AgreesWithUploadValidation | mod.ts:37-53 | for one file the two validators agree while the allow-list is non-empty; with an empty one the upload middleware passes the file and the pre-upload validator refuses it |

## Left out

- The Oak `context`, `next()` and status codes. The outcome is a datatype, and `Rejected` always means 422.
- `MultipartReader.readForm` and the body stream. Decoding is a parameter `decode` from the boundary to the entries. The temporary files that `readForm` writes are not created by the model: they are taken to be in the `FileSystem` already when `Upload` starts.
- The JSON decoding of the pre-upload body. Its items are given as a list of descriptors in `for … in` order. Non-numeric sizes, and the string concatenation JavaScript would then perform, are not modelled.
- `v4.generate()`, `new Date()` and `Deno.cwd()`. They are parameters: a stamp per entry position and a working-directory string.
- Real filesystem behaviour beyond a set of files and a set of directories:
  - `ensureDir` creating missing ancestors;
  - `move` requiring the parent directory to exist;
  - permissions;
  - partial writes.
- Floating-point numbers. Sizes and limits are unbounded integers. Precision loss above 2^53, `parseInt` of texts with more digits than a double holds, and the exponent notation of numbers of 10^21 or more are not modelled.
- `IoError` carries only the failing path, not the exception thrown.
- Concurrency between requests.
- Storage.ManifestKeys: the manifest is a map, but the program's `res` is a plain object. A field named `__proto__` sets the object's prototype instead of adding a key, so it is missing from the object's own keys, while the model and ManifestKeys count it as an ordinary key.
- Storage.PlacementReady: paths are compared as strings, with no path resolution. `..`, `.`, `//` and a '/' inside a file name are not interpreted. A file name such as `../../x` writes outside the storage path, and a file name that climbs into another entry's directory can make two different destination strings name the same file. Storage.PlacementsDestinationsDistinct and Storage.AcceptedUploadPlacesEveryFile hold only for the strings, not for the files they resolve to.
- Uri.EncodeUri: no decoding inverse is given. Only the character-level properties and the distribution over concatenation are proved.
- UploadMiddleware.Upload: it does not state that `decode` is only called once the two gates have passed. It does state that the outcome and the state depend on nothing decoded in those cases.
