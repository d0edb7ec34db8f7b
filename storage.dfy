/** Where the placement pass puts each accepted file, and the manifest it
    attaches to the request. */
module Storage {

  import opened JsText
  import opened Uri
  import opened Form
  import opened FileStore

  /** What `v4.generate()` and `new Date()` gave for one file: `fullYear`,
      `month`, `day`, `hours`, `minutes` and `seconds` are the values of the
      Date getters of the same names, so `month` counts from 0 and `day` is
      the day of the week. */
  datatype Stamp = Stamp(fullYear: int, month: int, day: int, hours: int, minutes: int, seconds: int, uuid: string)

  predicate NoSlash(s: string) {
    forall i :: 0 <= i < |s| ==> s[i] != '/'
  }

  /** The segments joined by "/". */
  function JoinPath(segs: seq<string>): string
    requires segs != []
  {
    if |segs| == 1 then segs[0] else segs[0] + "/" + JoinPath(segs[1..])
  }

  /** The time-bucket and uuid segments of an upload path. */
  function StampSegments(t: Stamp): seq<string>
  {
    [IntToString(t.fullYear), IntToString(t.month), IntToString(t.day),
     IntToString(t.hours), IntToString(t.minutes), IntToString(t.seconds), t.uuid]
  }

  /** `${path}/${year}/${month}/${day}/${hours}/${minutes}/${seconds}/${uuid}` */
  function UploadPath(path: string, t: Stamp): string
  {
    JoinPath([path] + StampSegments(t))
  }

  /** The directory the file is moved to: the upload path, under the current
      directory when `useCurrentDir` is set. */
  function FullPath(opts: UploadOptions, cwd: string, uploadPath: string): string
  {
    if opts.useCurrentDir then cwd + "/" + uploadPath else uploadPath
  }

  /** A manifest entry: the file part's own attributes without `tempfile`,
      plus `url` and `uri`. */
  datatype ManifestEntry = ManifestEntry(filename: string, contentType: string, size: int, url: string, uri: string)

  type Manifest = map<string, ManifestEntry>

  /** The entries that the placement pass moves: single file parts that have
      a temporary file. */
  predicate IsPlaced(e: Entry) {
    TempFile(e).Some?
  }

  function PlacementOf(e: Entry, opts: UploadOptions, cwd: string, t: Stamp): Placement
    requires IsPlaced(e)
  {
    var f := e.value.file;
    var full := FullPath(opts, cwd, UploadPath(opts.path, t));
    Placement(full, f.tempfile.value, full + "/" + f.filename)
  }

  function ManifestEntryOf(e: Entry, opts: UploadOptions, cwd: string, t: Stamp): ManifestEntry
    requires IsPlaced(e)
  {
    var f := e.value.file;
    var uploadPath := UploadPath(opts.path, t);
    var full := FullPath(opts, cwd, uploadPath);
    ManifestEntry(f.filename, f.contentType, f.size, EncodeUri(uploadPath + "/" + f.filename), full + "/" + f.filename)
  }

  /** The placements of entries i.. in entry order; entry k uses stamp(k). */
  function PlacementsFrom(es: seq<Entry>, i: nat, opts: UploadOptions, cwd: string, stamp: nat -> Stamp): seq<Placement>
    requires i <= |es|
    decreases |es| - i
  {
    if i == |es| then []
    else (if IsPlaced(es[i]) then [PlacementOf(es[i], opts, cwd, stamp(i))] else []) + PlacementsFrom(es, i + 1, opts, cwd, stamp)
  }

  /** The placements from entry k on: entry k's own, if it has a temporary
      file, then those of the later entries. */
  lemma PlacementsStep(es: seq<Entry>, k: nat, opts: UploadOptions, cwd: string, stamp: nat -> Stamp)
    requires k < |es|
    ensures PlacementsFrom(es, k, opts, cwd, stamp) ==
      if IsPlaced(es[k]) then [PlacementOf(es[k], opts, cwd, stamp(k))] + PlacementsFrom(es, k + 1, opts, cwd, stamp)
      else PlacementsFrom(es, k + 1, opts, cwd, stamp)
  {
    assert [] + PlacementsFrom(es, k + 1, opts, cwd, stamp) == PlacementsFrom(es, k + 1, opts, cwd, stamp);
  }

  /** The manifest after the first n entries: each placed entry is stored
      under its field name, a later one overwriting an earlier one. */
  function ManifestUpTo(es: seq<Entry>, n: nat, opts: UploadOptions, cwd: string, stamp: nat -> Stamp): Manifest
    requires n <= |es|
  {
    if n == 0 then map[]
    else
      var m := ManifestUpTo(es, n - 1, opts, cwd, stamp);
      if IsPlaced(es[n - 1]) then m[es[n - 1].field := ManifestEntryOf(es[n - 1], opts, cwd, stamp(n - 1))] else m
  }

  /** One step of the manifest: entry n - 1 is written over the manifest of
      the entries before it when it was placed. */
  lemma ManifestStep(es: seq<Entry>, n: nat, opts: UploadOptions, cwd: string, stamp: nat -> Stamp)
    requires 0 < n <= |es|
    ensures ManifestUpTo(es, n, opts, cwd, stamp) ==
      if IsPlaced(es[n - 1]) then ManifestUpTo(es, n - 1, opts, cwd, stamp)[es[n - 1].field := ManifestEntryOf(es[n - 1], opts, cwd, stamp(n - 1))]
      else ManifestUpTo(es, n - 1, opts, cwd, stamp)
  {
  }

  predicate AllNoSlash(segs: seq<string>) {
    forall i :: 0 <= i < |segs| ==> NoSlash(segs[i])
  }

  /** Cutting at the first '/' recovers the first segment: a slash-free
      segment followed by nothing or by a '/' is determined by the text. */
  lemma FirstSegmentCancel(a: string, r1: string, b: string, r2: string)
    requires NoSlash(a) && NoSlash(b)
    requires r1 == [] || r1[0] == '/'
    requires r2 == [] || r2[0] == '/'
    ensures a + r1 == b + r2 ==> a == b && r1 == r2
  {
    if a + r1 == b + r2 {
      var s := a + r1;
      assert forall i :: 0 <= i < |a| ==> s[i] == a[i] && s[i] != '/';
      assert forall i :: 0 <= i < |b| ==> s[i] == b[i] && s[i] != '/';
      assert r1 != [] ==> s[|a|] == '/';
      assert r2 != [] ==> s[|b|] == '/';
      assert |a| == |b|;
      assert a == s[..|a|] == b;
      assert r1 == s[|a|..] == r2;
    }
  }

  /** Joined slash-free segments, followed by nothing or by a '/', determine
      the segments. */
  lemma {:induction false} JoinPathCancel(xs: seq<string>, r1: string, ys: seq<string>, r2: string)
    requires |xs| == |ys| > 0 && AllNoSlash(xs) && AllNoSlash(ys)
    requires r1 == [] || r1[0] == '/'
    requires r2 == [] || r2[0] == '/'
    ensures JoinPath(xs) + r1 == JoinPath(ys) + r2 ==> xs == ys && r1 == r2
  {
    if |xs| == 1 {
      FirstSegmentCancel(xs[0], r1, ys[0], r2);
      assert xs == [xs[0]] && ys == [ys[0]];
    } else {
      var t1, t2 := JoinPath(xs[1..]) + r1, JoinPath(ys[1..]) + r2;
      assert JoinPath(xs) + r1 == xs[0] + ("/" + t1);
      assert JoinPath(ys) + r2 == ys[0] + ("/" + t2);
      FirstSegmentCancel(xs[0], "/" + t1, ys[0], "/" + t2);
      assert ("/" + t1)[1..] == t1 && ("/" + t2)[1..] == t2;
      assert AllNoSlash(xs[1..]) && AllNoSlash(ys[1..]);
      JoinPathCancel(xs[1..], r1, ys[1..], r2);
      assert xs == [xs[0]] + xs[1..] && ys == [ys[0]] + ys[1..];
    }
  }

  lemma PrefixCancel(p: string, a: string, b: string)
    ensures p + a == p + b ==> a == b
  {
    assert (p + a)[|p|..] == a && (p + b)[|p|..] == b;
  }

  lemma StampSegmentsNoSlash(t: Stamp)
    requires NoSlash(t.uuid)
    ensures AllNoSlash(StampSegments(t)) && |StampSegments(t)| == 7
  {
    forall n: int
      ensures NoSlash(IntToString(n))
    {
      IntToStringShape(n);
      var s := IntToString(n);
      assert forall i :: 0 <= i < |s| ==> IsDecimalDigit(s[i]) || s[i] == '-';
    }
  }

  /** The text before the time-bucket segments of the directory a file is
      moved to. */
  function Base(opts: UploadOptions, cwd: string): string
  {
    (if opts.useCurrentDir then cwd + "/" else "") + opts.path + "/"
  }

  lemma FullPathSplit(opts: UploadOptions, cwd: string, t: Stamp)
    ensures FullPath(opts, cwd, UploadPath(opts.path, t)) == Base(opts, cwd) + JoinPath(StampSegments(t))
  {
    var segs := StampSegments(t);
    assert ([opts.path] + segs)[1..] == segs;
  }

  /** Two directories of the placement pass coincide only when their uuids
      do: distinct uuids give distinct directories, whatever the clock said. */
  lemma DirectoryDeterminesUuid(opts: UploadOptions, cwd: string, t1: Stamp, t2: Stamp)
    requires NoSlash(t1.uuid) && NoSlash(t2.uuid)
    ensures FullPath(opts, cwd, UploadPath(opts.path, t1)) == FullPath(opts, cwd, UploadPath(opts.path, t2)) ==>
            t1.uuid == t2.uuid
  {
    FullPathSplit(opts, cwd, t1);
    FullPathSplit(opts, cwd, t2);
    StampSegmentsNoSlash(t1);
    StampSegmentsNoSlash(t2);
    var b := Base(opts, cwd);
    PrefixCancel(b, JoinPath(StampSegments(t1)), JoinPath(StampSegments(t2)));
    JoinPathCancel(StampSegments(t1), [], StampSegments(t2), []);
    assert JoinPath(StampSegments(t1)) + [] == JoinPath(StampSegments(t1));
    assert JoinPath(StampSegments(t2)) + [] == JoinPath(StampSegments(t2));
  }

  /** Two destination files coincide only when their uuids and file names
      do. */
  lemma DestinationDeterminesUuid(opts: UploadOptions, cwd: string, t1: Stamp, f1: string, t2: Stamp, f2: string)
    requires NoSlash(t1.uuid) && NoSlash(t2.uuid)
    ensures FullPath(opts, cwd, UploadPath(opts.path, t1)) + "/" + f1 == FullPath(opts, cwd, UploadPath(opts.path, t2)) + "/" + f2 ==>
            t1.uuid == t2.uuid && f1 == f2
  {
    FullPathSplit(opts, cwd, t1);
    FullPathSplit(opts, cwd, t2);
    StampSegmentsNoSlash(t1);
    StampSegmentsNoSlash(t2);
    var b, j1, j2 := Base(opts, cwd), JoinPath(StampSegments(t1)), JoinPath(StampSegments(t2));
    assert b + j1 + "/" + f1 == b + (j1 + ("/" + f1));
    assert b + j2 + "/" + f2 == b + (j2 + ("/" + f2));
    PrefixCancel(b, j1 + ("/" + f1), j2 + ("/" + f2));
    JoinPathCancel(StampSegments(t1), "/" + f1, StampSegments(t2), "/" + f2);
    assert ("/" + f1)[1..] == f1 && ("/" + f2)[1..] == f2;
  }

  /** A destination file is never one of the directories of the pass. */
  lemma DestinationIsNoDirectory(opts: UploadOptions, cwd: string, t1: Stamp, f1: string, t2: Stamp)
    requires NoSlash(t1.uuid) && NoSlash(t2.uuid)
    ensures FullPath(opts, cwd, UploadPath(opts.path, t1)) + "/" + f1 != FullPath(opts, cwd, UploadPath(opts.path, t2))
  {
    FullPathSplit(opts, cwd, t1);
    FullPathSplit(opts, cwd, t2);
    StampSegmentsNoSlash(t1);
    StampSegmentsNoSlash(t2);
    var b, j1, j2 := Base(opts, cwd), JoinPath(StampSegments(t1)), JoinPath(StampSegments(t2));
    assert b + j1 + "/" + f1 == b + (j1 + ("/" + f1));
    assert b + j2 == b + (j2 + []);
    PrefixCancel(b, j1 + ("/" + f1), j2 + []);
    JoinPathCancel(StampSegments(t1), "/" + f1, StampSegments(t2), []);
  }

  /** The manifest's keys are exactly the field names of the entries with a
      temporary file. */
  lemma {:induction false} ManifestKeys(es: seq<Entry>, n: nat, opts: UploadOptions, cwd: string, stamp: nat -> Stamp)
    requires n <= |es|
    ensures ManifestUpTo(es, n, opts, cwd, stamp).Keys == set k | 0 <= k < n && IsPlaced(es[k]) :: es[k].field
  {
    if n > 0 {
      ManifestKeys(es, n - 1, opts, cwd, stamp);
      var before := set k | 0 <= k < n - 1 && IsPlaced(es[k]) :: es[k].field;
      var after := set k | 0 <= k < n && IsPlaced(es[k]) :: es[k].field;
      if IsPlaced(es[n - 1]) {
        assert after == before + {es[n - 1].field};
      } else {
        assert after == before;
      }
    }
  }

  /** When several entries share a field name the last one wins: an entry
      with no later placed entry of the same name is what the manifest holds
      under that name. */
  lemma {:induction false} ManifestLastWriteWins(es: seq<Entry>, n: nat, k: nat, opts: UploadOptions, cwd: string, stamp: nat -> Stamp)
    requires k < n <= |es| && IsPlaced(es[k])
    requires forall j :: k < j < n && IsPlaced(es[j]) ==> es[j].field != es[k].field
    ensures es[k].field in ManifestUpTo(es, n, opts, cwd, stamp)
    ensures ManifestUpTo(es, n, opts, cwd, stamp)[es[k].field] == ManifestEntryOf(es[k], opts, cwd, stamp(k))
  {
    ManifestWrite(es, k + 1, opts, cwd, stamp);
    ManifestUnchangedAfter(es, n, k, opts, cwd, stamp);
  }

  /** What entry k wrote under its field name stays there while no later
      placed entry has that name. */
  lemma {:induction false} ManifestUnchangedAfter(es: seq<Entry>, n: nat, k: nat, opts: UploadOptions, cwd: string, stamp: nat -> Stamp)
    requires k < n <= |es| && es[k].field in ManifestUpTo(es, k + 1, opts, cwd, stamp)
    requires forall j :: k < j < n && IsPlaced(es[j]) ==> es[j].field != es[k].field
    ensures es[k].field in ManifestUpTo(es, n, opts, cwd, stamp)
    ensures ManifestUpTo(es, n, opts, cwd, stamp)[es[k].field] == ManifestUpTo(es, k + 1, opts, cwd, stamp)[es[k].field]
  {
    if k < n - 1 {
      ManifestUnchangedAfter(es, n - 1, k, opts, cwd, stamp);
      ManifestKeepsOther(es, n, es[k].field, opts, cwd, stamp);
    }
  }

  /** A placed entry is what the manifest holds under its field name right
      after it is written. */
  lemma ManifestWrite(es: seq<Entry>, n: nat, opts: UploadOptions, cwd: string, stamp: nat -> Stamp)
    requires 0 < n <= |es| && IsPlaced(es[n - 1])
    ensures es[n - 1].field in ManifestUpTo(es, n, opts, cwd, stamp)
    ensures ManifestUpTo(es, n, opts, cwd, stamp)[es[n - 1].field] == ManifestEntryOf(es[n - 1], opts, cwd, stamp(n - 1))
  {
  }

  /** Entry n - 1 leaves every other field name of the manifest as it was. */
  lemma ManifestKeepsOther(es: seq<Entry>, n: nat, f: string, opts: UploadOptions, cwd: string, stamp: nat -> Stamp)
    requires 0 < n <= |es| && f in ManifestUpTo(es, n - 1, opts, cwd, stamp)
    requires IsPlaced(es[n - 1]) ==> es[n - 1].field != f
    ensures f in ManifestUpTo(es, n, opts, cwd, stamp)
    ensures ManifestUpTo(es, n, opts, cwd, stamp)[f] == ManifestUpTo(es, n - 1, opts, cwd, stamp)[f]
  {
  }

  /** Every value in the manifest was made from a placed entry stored under
      that field name. */
  lemma {:induction false} ManifestValuesFromEntries(es: seq<Entry>, n: nat, opts: UploadOptions, cwd: string, stamp: nat -> Stamp, f: string)
    requires n <= |es|
    requires f in ManifestUpTo(es, n, opts, cwd, stamp)
    ensures exists k :: 0 <= k < n && IsPlaced(es[k]) && es[k].field == f &&
                        ManifestUpTo(es, n, opts, cwd, stamp)[f] == ManifestEntryOf(es[k], opts, cwd, stamp(k))
  {
    var m := ManifestUpTo(es, n, opts, cwd, stamp);
    if IsPlaced(es[n - 1]) && es[n - 1].field == f {
      assert m[f] == ManifestEntryOf(es[n - 1], opts, cwd, stamp(n - 1));
    } else {
      ManifestValuesFromEntries(es, n - 1, opts, cwd, stamp, f);
      var k :| 0 <= k < n - 1 && IsPlaced(es[k]) && es[k].field == f &&
               ManifestUpTo(es, n - 1, opts, cwd, stamp)[f] == ManifestEntryOf(es[k], opts, cwd, stamp(k));
      assert m[f] == ManifestEntryOf(es[k], opts, cwd, stamp(k));
    }
  }

  /** A manifest entry keeps the part's name, type and size; its `uri` is
      where the file was moved, and its `url` is the upload path and the
      encoded file name when the storage path and uuid need no encoding. */
  lemma ManifestEntryMeaning(e: Entry, opts: UploadOptions, cwd: string, t: Stamp)
    requires IsPlaced(e)
    ensures var m := ManifestEntryOf(e, opts, cwd, t);
      m.filename == e.value.file.filename && m.contentType == e.value.file.contentType &&
      m.size == e.value.file.size &&
      m.uri == PlacementOf(e, opts, cwd, t).dst &&
      m.uri == FullPath(opts, cwd, UploadPath(opts.path, t)) + "/" + m.filename
    ensures (forall i :: 0 <= i < |opts.path| ==> IsUriSafe(opts.path[i])) &&
            (forall i :: 0 <= i < |t.uuid| ==> IsUriSafe(t.uuid[i])) ==>
            ManifestEntryOf(e, opts, cwd, t).url == UploadPath(opts.path, t) + "/" + EncodeUri(e.value.file.filename)
  {
    var up := UploadPath(opts.path, t);
    if (forall i :: 0 <= i < |opts.path| ==> IsUriSafe(opts.path[i])) &&
       (forall i :: 0 <= i < |t.uuid| ==> IsUriSafe(t.uuid[i])) {
      UploadPathUriSafe(opts.path, t);
      EncodeUriAppend(up + "/", e.value.file.filename);
      EncodeUriOfSafe(up + "/");
    }
  }

  lemma {:induction false} JoinPathUriSafe(segs: seq<string>)
    requires segs != []
    requires forall k, i :: 0 <= k < |segs| && 0 <= i < |segs[k]| ==> IsUriSafe(segs[k][i])
    ensures forall i :: 0 <= i < |JoinPath(segs)| ==> IsUriSafe(JoinPath(segs)[i])
  {
    if |segs| > 1 {
      JoinPathUriSafe(segs[1..]);
      assert forall k :: 0 <= k < |segs| - 1 ==> segs[1..][k] == segs[k + 1];
      var j := JoinPath(segs[1..]);
      assert JoinPath(segs) == segs[0] + "/" + j;
      assert forall i :: 0 <= i < |segs[0]| ==> IsUriSafe(segs[0][i]);
    }
  }

  lemma UploadPathUriSafe(path: string, t: Stamp)
    requires forall i :: 0 <= i < |path| ==> IsUriSafe(path[i])
    requires forall i :: 0 <= i < |t.uuid| ==> IsUriSafe(t.uuid[i])
    ensures forall i :: 0 <= i < |UploadPath(path, t) + "/"| ==> IsUriSafe((UploadPath(path, t) + "/")[i])
  {
    var segs := [path] + StampSegments(t);
    IntToStringShape(t.fullYear);
    IntToStringShape(t.month);
    IntToStringShape(t.day);
    IntToStringShape(t.hours);
    IntToStringShape(t.minutes);
    IntToStringShape(t.seconds);
    forall k, i | 0 <= k < |segs| && 0 <= i < |segs[k]|
      ensures IsUriSafe(segs[k][i])
    {
      if 1 <= k < 7 {
        var s := segs[k];
        assert forall j :: 0 <= j < |s| ==> IsDecimalDigit(s[j]) || s[j] == '-';
      }
    }
    JoinPathUriSafe(segs);
  }

  lemma {:induction false} PlacementsMembers(es: seq<Entry>, i: nat, opts: UploadOptions, cwd: string, stamp: nat -> Stamp)
    requires i <= |es|
    ensures forall p :: p in PlacementsFrom(es, i, opts, cwd, stamp) <==>
      exists k :: i <= k < |es| && IsPlaced(es[k]) && p == PlacementOf(es[k], opts, cwd, stamp(k))
    decreases |es| - i
  {
    if i < |es| {
      PlacementsMembers(es, i + 1, opts, cwd, stamp);
    }
  }

  /** The sources of the placements are the temporary files, in entry order. */
  lemma {:induction false} PlacementsSources(es: seq<Entry>, i: nat, opts: UploadOptions, cwd: string, stamp: nat -> Stamp)
    requires i <= |es|
    ensures |PlacementsFrom(es, i, opts, cwd, stamp)| == |TempFiles(es[i..])|
    ensures forall n :: 0 <= n < |TempFiles(es[i..])| ==>
      PlacementsFrom(es, i, opts, cwd, stamp)[n].src == TempFiles(es[i..])[n]
    decreases |es| - i
  {
    if i < |es| {
      PlacementsSources(es, i + 1, opts, cwd, stamp);
      assert es[i..][1..] == es[i + 1..];
    }
  }

  /** Each placed entry has a slash-free uuid that no other placed entry
      shares. */
  predicate UniqueUuids(es: seq<Entry>, stamp: nat -> Stamp) {
    (forall k :: 0 <= k < |es| && IsPlaced(es[k]) ==> NoSlash(stamp(k).uuid)) &&
    (forall j, k :: 0 <= j < k < |es| && IsPlaced(es[j]) && IsPlaced(es[k]) ==> stamp(j).uuid != stamp(k).uuid)
  }

  /** Destinations of different uuids differ, and no destination is a
      directory of the placement pass. */
  lemma PlacementsApart(e1: Entry, t1: Stamp, e2: Entry, t2: Stamp, opts: UploadOptions, cwd: string)
    requires IsPlaced(e1) && IsPlaced(e2) && NoSlash(t1.uuid) && NoSlash(t2.uuid)
    ensures PlacementOf(e1, opts, cwd, t1).dst == PlacementOf(e2, opts, cwd, t2).dst ==> t1.uuid == t2.uuid
    ensures PlacementOf(e1, opts, cwd, t1).dst != PlacementOf(e2, opts, cwd, t2).dir
  {
    DestinationDeterminesUuid(opts, cwd, t1, e1.value.file.filename, t2, e2.value.file.filename);
    DestinationIsNoDirectory(opts, cwd, t1, e1.value.file.filename, t2);
  }

  lemma HeadDestinationNew(es: seq<Entry>, i: nat, opts: UploadOptions, cwd: string, stamp: nat -> Stamp)
    requires i < |es| && UniqueUuids(es, stamp) && IsPlaced(es[i])
    ensures forall q :: q in PlacementsFrom(es, i + 1, opts, cwd, stamp) ==>
      PlacementOf(es[i], opts, cwd, stamp(i)).dst != q.dst
  {
    PlacementsMembers(es, i + 1, opts, cwd, stamp);
    forall q | q in PlacementsFrom(es, i + 1, opts, cwd, stamp)
      ensures PlacementOf(es[i], opts, cwd, stamp(i)).dst != q.dst
    {
      var k :| i + 1 <= k < |es| && IsPlaced(es[k]) && q == PlacementOf(es[k], opts, cwd, stamp(k));
      PlacementsApart(es[i], stamp(i), es[k], stamp(k), opts, cwd);
    }
  }

  lemma ConsDistinctDestinations(p: Placement, rest: seq<Placement>)
    requires DistinctDestinations(rest)
    requires forall q :: q in rest ==> p.dst != q.dst
    ensures DistinctDestinations([p] + rest)
  {
    var ps := [p] + rest;
    forall a, b | 0 <= a < b < |ps|
      ensures ps[a].dst != ps[b].dst
    {
      assert ps[b] == rest[b - 1] && rest[b - 1] in rest;
      if a > 0 {
        assert ps[a] == rest[a - 1];
      }
    }
  }

  lemma {:induction false} PlacementsDestinationsDistinct(es: seq<Entry>, i: nat, opts: UploadOptions, cwd: string, stamp: nat -> Stamp)
    requires i <= |es| && UniqueUuids(es, stamp)
    ensures DistinctDestinations(PlacementsFrom(es, i, opts, cwd, stamp))
    decreases |es| - i
  {
    if i < |es| {
      var rest := PlacementsFrom(es, i + 1, opts, cwd, stamp);
      PlacementsDestinationsDistinct(es, i + 1, opts, cwd, stamp);
      if IsPlaced(es[i]) {
        HeadDestinationNew(es, i, opts, cwd, stamp);
        ConsDistinctDestinations(PlacementOf(es[i], opts, cwd, stamp(i)), rest);
      } else {
        assert PlacementsFrom(es, i, opts, cwd, stamp) == rest;
      }
    }
  }

  /** What the environment must guarantee for the placement pass to run
      without failure: the temporary files are distinct and exist, uuids are
      unique, and the new directories and destination files are neither
      existing files, existing directories nor temporary files. */
  predicate PlacementReady(st: FsState, es: seq<Entry>, opts: UploadOptions, cwd: string, stamp: nat -> Stamp) {
    Distinct(TempFiles(es)) &&
    (forall t :: t in TempFiles(es) ==> t in st.files) &&
    UniqueUuids(es, stamp) &&
    forall k :: 0 <= k < |es| && IsPlaced(es[k]) ==>
      var p := PlacementOf(es[k], opts, cwd, stamp(k));
      p.dir !in st.files && p.dst !in st.files && p.dst !in st.dirs && p.dst !in TempFiles(es)
  }

  lemma PlacementsSourcesDistinct(st: FsState, es: seq<Entry>, opts: UploadOptions, cwd: string, stamp: nat -> Stamp)
    requires PlacementReady(st, es, opts, cwd, stamp)
    ensures var ps := PlacementsFrom(es, 0, opts, cwd, stamp);
      (forall i, j :: 0 <= i < j < |ps| ==> ps[i].src != ps[j].src) &&
      Sources(ps) == set t | t in TempFiles(es)
  {
    var ps, ts := PlacementsFrom(es, 0, opts, cwd, stamp), TempFiles(es);
    assert es[0..] == es;
    PlacementsSources(es, 0, opts, cwd, stamp);
    forall t | t in ts
      ensures t in Sources(ps)
    {
      var n :| 0 <= n < |ts| && ts[n] == t;
      assert ps[n] in ps;
    }
  }

  lemma PlacementsFresh(st: FsState, es: seq<Entry>, opts: UploadOptions, cwd: string, stamp: nat -> Stamp)
    requires PlacementReady(st, es, opts, cwd, stamp)
    ensures forall p :: p in PlacementsFrom(es, 0, opts, cwd, stamp) ==>
      p.src in TempFiles(es) && p.src in st.files && p.dst !in st.files && p.dst !in st.dirs &&
      p.dir !in st.files && p.dst !in TempFiles(es)
  {
    var ps, ts := PlacementsFrom(es, 0, opts, cwd, stamp), TempFiles(es);
    assert es[0..] == es;
    PlacementsMembers(es, 0, opts, cwd, stamp);
    PlacementsSources(es, 0, opts, cwd, stamp);
    forall p | p in ps
      ensures p.src in ts
    {
      var n :| 0 <= n < |ps| && ps[n] == p;
      assert p.src == ts[n];
    }
  }

  lemma PlacementsCross(st: FsState, es: seq<Entry>, opts: UploadOptions, cwd: string, stamp: nat -> Stamp)
    requires PlacementReady(st, es, opts, cwd, stamp)
    ensures forall p, q :: p in PlacementsFrom(es, 0, opts, cwd, stamp) && q in PlacementsFrom(es, 0, opts, cwd, stamp) ==>
      p.dst != q.src && p.dst != q.dir
  {
    var ps := PlacementsFrom(es, 0, opts, cwd, stamp);
    PlacementsFresh(st, es, opts, cwd, stamp);
    PlacementsMembers(es, 0, opts, cwd, stamp);
    forall p, q | p in ps && q in ps
      ensures p.dst != q.dir
    {
      var j :| 0 <= j < |es| && IsPlaced(es[j]) && p == PlacementOf(es[j], opts, cwd, stamp(j));
      var k :| 0 <= k < |es| && IsPlaced(es[k]) && q == PlacementOf(es[k], opts, cwd, stamp(k));
      PlacementsApart(es[j], stamp(j), es[k], stamp(k), opts, cwd);
    }
  }

  lemma PlacementsSeparated(st: FsState, es: seq<Entry>, opts: UploadOptions, cwd: string, stamp: nat -> Stamp)
    requires PlacementReady(st, es, opts, cwd, stamp)
    ensures Separated(st, PlacementsFrom(es, 0, opts, cwd, stamp))
    ensures Sources(PlacementsFrom(es, 0, opts, cwd, stamp)) == set t | t in TempFiles(es)
  {
    PlacementsSourcesDistinct(st, es, opts, cwd, stamp);
    PlacementsDestinationsDistinct(es, 0, opts, cwd, stamp);
    PlacementsFresh(st, es, opts, cwd, stamp);
    PlacementsCross(st, es, opts, cwd, stamp);
  }

  /** Every manifest `uri` is the destination of a placement. */
  lemma ManifestUrisAreDestinations(es: seq<Entry>, opts: UploadOptions, cwd: string, stamp: nat -> Stamp)
    ensures forall f :: f in ManifestUpTo(es, |es|, opts, cwd, stamp) ==>
      ManifestUpTo(es, |es|, opts, cwd, stamp)[f].uri in Destinations(PlacementsFrom(es, 0, opts, cwd, stamp))
  {
    var ps := PlacementsFrom(es, 0, opts, cwd, stamp);
    forall f | f in ManifestUpTo(es, |es|, opts, cwd, stamp)
      ensures ManifestUpTo(es, |es|, opts, cwd, stamp)[f].uri in Destinations(ps)
    {
      ManifestValuesFromEntries(es, |es|, opts, cwd, stamp, f);
      var k :| 0 <= k < |es| && IsPlaced(es[k]) && es[k].field == f &&
               ManifestUpTo(es, |es|, opts, cwd, stamp)[f] == ManifestEntryOf(es[k], opts, cwd, stamp(k));
      PlacementsMembers(es, 0, opts, cwd, stamp);
      var p := PlacementOf(es[k], opts, cwd, stamp(k));
      assert p in ps;
    }
  }

  /** No temporary file is the destination of a placement. */
  lemma TempFilesAreNoDestinations(st: FsState, es: seq<Entry>, opts: UploadOptions, cwd: string, stamp: nat -> Stamp)
    requires PlacementReady(st, es, opts, cwd, stamp)
    ensures forall t :: t in TempFiles(es) ==> t !in Destinations(PlacementsFrom(es, 0, opts, cwd, stamp))
  {
    var ps := PlacementsFrom(es, 0, opts, cwd, stamp);
    PlacementsMembers(es, 0, opts, cwd, stamp);
    forall t, p | t in TempFiles(es) && p in ps
      ensures p.dst != t
    {
      var k :| 0 <= k < |es| && IsPlaced(es[k]) && p == PlacementOf(es[k], opts, cwd, stamp(k));
    }
  }

  /** When the environment is ready, the placement pass succeeds: every
      temporary file is gone, and the `uri` of every manifest entry names an
      existing file. */
  lemma AcceptedUploadPlacesEveryFile(st: FsState, es: seq<Entry>, opts: UploadOptions, cwd: string, stamp: nat -> Stamp)
    requires PlacementReady(st, es, opts, cwd, stamp)
    ensures var after := ApplyPlacements(st, PlacementsFrom(es, 0, opts, cwd, stamp));
      after.Some? &&
      (forall t :: t in TempFiles(es) ==> t !in after.value.files) &&
      (forall f :: f in ManifestUpTo(es, |es|, opts, cwd, stamp) ==>
         ManifestUpTo(es, |es|, opts, cwd, stamp)[f].uri in after.value.files)
  {
    var ps := PlacementsFrom(es, 0, opts, cwd, stamp);
    PlacementsSeparated(st, es, opts, cwd, stamp);
    SeparatedPlacementsSucceed(st, ps);
    ManifestUrisAreDestinations(es, opts, cwd, stamp);
    TempFilesAreNoDestinations(st, es, opts, cwd, stamp);
  }
}
