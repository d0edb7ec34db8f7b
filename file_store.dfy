/** The filesystem as the middleware sees it: a set of file paths and a set
    of directory paths, changed by `Deno.remove`, `ensureDir` and `move`.
    Each operation either succeeds or fails leaving the state as it was; a
    failure becomes an exception that ends the request. */
module FileStore {

  import opened Wrappers

  datatype FsState = FsState(files: set<string>, dirs: set<string>)

  class FileSystem {
    var files: set<string>
    var dirs: set<string>

    constructor (files0: set<string>, dirs0: set<string>)
      ensures files == files0 && dirs == dirs0
    {
      files, dirs := files0, dirs0;
    }

    function State(): FsState
      reads this
    {
      FsState(files, dirs)
    }

    /** `Deno.remove(path)`: fails with NotFound when there is no such file. */
    method Remove(path: string) returns (ok: bool)
      modifies this
      ensures ok == (path in old(files))
      ensures files == old(files) - {path} && dirs == old(dirs)
    {
      ok := path in files;
      if ok {
        files := files - {path};
      }
    }

    /** `ensureDir(dir)`: creates the directory unless it exists; fails when a
        file is in the way. */
    method EnsureDir(dir: string) returns (ok: bool)
      modifies this
      ensures ok == (dir !in old(files))
      ensures files == old(files)
      ensures dirs == if ok then old(dirs) + {dir} else old(dirs)
    {
      ok := dir !in files;
      if ok {
        dirs := dirs + {dir};
      }
    }

    /** `move(src, dst)` without overwrite: fails when the source is missing
        or the destination already exists. */
    method Move(src: string, dst: string) returns (ok: bool)
      modifies this
      ensures ok == (src in old(files) && dst !in old(files) && dst !in old(dirs))
      ensures dirs == old(dirs)
      ensures files == if ok then old(files) - {src} + {dst} else old(files)
    {
      ok := src in files && dst !in files && dst !in dirs;
      if ok {
        files := files - {src} + {dst};
      }
    }
  }

  /** The files left after removing each path in turn, or None when one of
      the removals fails. */
  function RemoveAll(files: set<string>, paths: seq<string>): Option<set<string>>
  {
    if paths == [] then Some(files)
    else if paths[0] in files then RemoveAll(files - {paths[0]}, paths[1..])
    else None
  }

  predicate Distinct(xs: seq<string>) {
    forall i, j :: 0 <= i < j < |xs| ==> xs[i] != xs[j]
  }

  /** Removing a list of paths succeeds exactly when the paths are distinct
      and all exist, and then it removes exactly those paths. */
  lemma {:induction false} RemoveAllSucceeds(files: set<string>, paths: seq<string>)
    ensures RemoveAll(files, paths).Some? <==> Distinct(paths) && (forall p :: p in paths ==> p in files)
    ensures RemoveAll(files, paths).Some? ==> RemoveAll(files, paths).value == files - set p | p in paths
  {
    if paths != [] {
      var p, rest := paths[0], paths[1..];
      RemoveAllSucceeds(files - {p}, rest);
      assert forall q :: q in paths <==> q == p || q in rest;
      assert forall i :: 0 <= i < |rest| ==> rest[i] == paths[i + 1];
      if Distinct(paths) {
        assert p !in rest;
        assert Distinct(rest);
      }
      if p in rest && p in files {
        var j :| 0 <= j < |rest| && rest[j] == p;
        assert paths[0] == paths[j + 1];
      }
      if Distinct(rest) && p !in rest {
        forall i, j | 0 <= i < j < |paths| ensures paths[i] != paths[j] {
          if i > 0 {
            assert paths[i] == rest[i - 1];
          }
        }
      }
    }
  }

  /** The files left when the removals run in turn and the first one that
      fails ends the run. */
  function RemoveUntilFailure(files: set<string>, paths: seq<string>): set<string>
  {
    if paths == [] then files
    else if paths[0] in files then RemoveUntilFailure(files - {paths[0]}, paths[1..])
    else files
  }

  /** When no removal fails, the run removes what RemoveAll says. */
  lemma {:induction false} RemoveUntilFailureAgrees(files: set<string>, paths: seq<string>)
    requires RemoveAll(files, paths).Some?
    ensures RemoveUntilFailure(files, paths) == RemoveAll(files, paths).value
  {
    if paths != [] {
      RemoveUntilFailureAgrees(files - {paths[0]}, paths[1..]);
    }
  }

  /** When removal j is the first to fail, the paths before it are gone and
      every other file is left as it was: path j and the later paths are not
      touched. */
  lemma {:induction false} RemoveUntilFailureStops(files: set<string>, paths: seq<string>, j: nat)
    requires j < |paths|
    requires RemoveAll(files, paths[..j]).Some?
    requires paths[j] !in RemoveAll(files, paths[..j]).value
    ensures RemoveUntilFailure(files, paths) == RemoveAll(files, paths[..j]).value
    ensures RemoveUntilFailure(files, paths) == files - set p | p in paths[..j]
  {
    RemoveAllSucceeds(files, paths[..j]);
    if j > 0 {
      assert paths[..j][0] == paths[0] && paths[..j][1..] == paths[1..][..j - 1];
      assert paths[1..][j - 1] == paths[j];
      RemoveUntilFailureStops(files - {paths[0]}, paths[1..], j - 1);
    }
  }

  /** One placement step: create the destination directory, then move the
      temporary file into it. */
  datatype Placement = Placement(dir: string, src: string, dst: string)

  /** The state after carrying out the placements in turn, or None when a
      directory cannot be created or a move fails. */
  function ApplyPlacements(st: FsState, ps: seq<Placement>): Option<FsState>
    decreases ps
  {
    if ps == [] then Some(st)
    else
      var p := ps[0];
      if p.dir in st.files then None
      else
        var dirs := st.dirs + {p.dir};
        if p.src in st.files && p.dst !in st.files && p.dst !in dirs
        then ApplyPlacements(FsState(st.files - {p.src} + {p.dst}, dirs), ps[1..])
        else None
  }

  /** The state when the placements run in turn and the first failure ends
      the run: a failing move leaves its directory created, and no later
      placement is attempted. */
  function ApplyUntilFailure(st: FsState, ps: seq<Placement>): FsState
    decreases ps
  {
    if ps == [] then st
    else
      var p := ps[0];
      if p.dir in st.files then st
      else
        var dirs := st.dirs + {p.dir};
        if p.src in st.files && p.dst !in st.files && p.dst !in dirs
        then ApplyUntilFailure(FsState(st.files - {p.src} + {p.dst}, dirs), ps[1..])
        else FsState(st.files, dirs)
  }

  function Sources(ps: seq<Placement>): set<string> {
    set p | p in ps :: p.src
  }

  function Destinations(ps: seq<Placement>): set<string> {
    set p | p in ps :: p.dst
  }

  function Directories(ps: seq<Placement>): set<string> {
    set p | p in ps :: p.dir
  }

  /** The placements cannot get in each other's way: sources are distinct
      existing files; destinations are distinct, new, and neither a source
      nor a directory; directories are not files. */
  predicate DistinctDestinations(ps: seq<Placement>) {
    forall i, j :: 0 <= i < j < |ps| ==> ps[i].dst != ps[j].dst
  }

  predicate Separated(st: FsState, ps: seq<Placement>) {
    (forall i, j :: 0 <= i < j < |ps| ==> ps[i].src != ps[j].src) && DistinctDestinations(ps) &&
    (forall p :: p in ps ==> p.src in st.files && p.dst !in st.files && p.dst !in st.dirs && p.dir !in st.files) &&
    (forall p, q :: p in ps && q in ps ==> p.dst != q.src && p.dst != q.dir)
  }

  /** The state after the first of a list of placements. */
  function AfterFirst(st: FsState, p: Placement): FsState {
    FsState(st.files - {p.src} + {p.dst}, st.dirs + {p.dir})
  }

  lemma SeparatedTail(st: FsState, ps: seq<Placement>)
    requires ps != [] && Separated(st, ps)
    ensures Separated(AfterFirst(st, ps[0]), ps[1..])
  {
    var p, rest, st' := ps[0], ps[1..], AfterFirst(st, ps[0]);
    assert forall i :: 0 <= i < |rest| ==> rest[i] == ps[i + 1];
    assert DistinctDestinations(rest);
    forall q | q in rest
      ensures q.src in st'.files && q.dst !in st'.files && q.dst !in st'.dirs && q.dir !in st'.files
    {
      var j :| 0 <= j < |rest| && rest[j] == q;
      assert ps[j + 1] == q && ps[0] == p;
    }
  }

  lemma PlacementSets(ps: seq<Placement>)
    requires ps != []
    ensures Sources(ps) == {ps[0].src} + Sources(ps[1..])
    ensures Destinations(ps) == {ps[0].dst} + Destinations(ps[1..])
    ensures Directories(ps) == {ps[0].dir} + Directories(ps[1..])
  {
    assert forall q :: q in ps <==> q == ps[0] || q in ps[1..];
  }

  lemma SetStep(f: set<string>, s: string, d: string, srcs: set<string>, dsts: set<string>)
    requires d !in srcs
    ensures (f - {s} + {d}) - srcs + dsts == f - ({s} + srcs) + ({d} + dsts)
  {
  }

  /** Separated placements all succeed: each temporary file is gone, each
      destination exists, and each directory has been created. */
  lemma {:induction false} SeparatedPlacementsSucceed(st: FsState, ps: seq<Placement>)
    requires Separated(st, ps)
    ensures ApplyPlacements(st, ps) ==
      Some(FsState(st.files - Sources(ps) + Destinations(ps), st.dirs + Directories(ps)))
    decreases ps
  {
    if ps == [] {
      assert Sources(ps) == Destinations(ps) == Directories(ps) == {};
      assert st.files - {} + {} == st.files && st.dirs + {} == st.dirs;
    } else {
      var p, rest, st' := ps[0], ps[1..], AfterFirst(st, ps[0]);
      assert p in ps;
      assert ApplyPlacements(st, ps) == ApplyPlacements(st', rest);
      SeparatedTail(st, ps);
      SeparatedPlacementsSucceed(st', rest);
      PlacementSets(ps);
      assert p.dst !in Sources(rest);
      SetStep(st.files, p.src, p.dst, Sources(rest), Destinations(rest));
      assert st'.dirs + Directories(rest) == st.dirs + Directories(ps);
    }
  }

  /** When no placement fails, the run ends in the state ApplyPlacements
      gives. */
  lemma {:induction false} ApplyUntilFailureAgrees(st: FsState, ps: seq<Placement>)
    requires ApplyPlacements(st, ps).Some?
    ensures ApplyUntilFailure(st, ps) == ApplyPlacements(st, ps).value
    decreases ps
  {
    if ps != [] {
      ApplyUntilFailureAgrees(AfterFirst(st, ps[0]), ps[1..]);
    }
  }

  /** When placement j is the first to fail, the run ends in the state after
      the first j placements, plus the directory of placement j if it could
      be created: its move and every later placement are not carried out. */
  lemma {:induction false} ApplyUntilFailureStops(st: FsState, ps: seq<Placement>, j: nat)
    requires j < |ps|
    requires ApplyPlacements(st, ps[..j]).Some?
    requires ApplyPlacements(ApplyPlacements(st, ps[..j]).value, [ps[j]]).None?
    ensures var mid := ApplyPlacements(st, ps[..j]).value;
      ApplyUntilFailure(st, ps) == FsState(mid.files, if ps[j].dir in mid.files then mid.dirs else mid.dirs + {ps[j].dir})
    decreases j
  {
    if j > 0 {
      assert ps[..j][0] == ps[0] && ps[..j][1..] == ps[1..][..j - 1];
      assert ps[1..][j - 1] == ps[j];
      ApplyUntilFailureStops(AfterFirst(st, ps[0]), ps[1..], j - 1);
    } else {
      assert ps[..j] == [] && [ps[j]][1..] == [];
    }
  }

  /** A run of placements that succeeds keeps every file that is not one of
      their sources. */
  lemma {:induction false} SuccessKeepsOtherFiles(st: FsState, ps: seq<Placement>)
    requires ApplyPlacements(st, ps).Some?
    ensures forall f :: f in st.files && f !in Sources(ps) ==> f in ApplyPlacements(st, ps).value.files
    decreases ps
  {
    if ps != [] {
      PlacementSets(ps);
      SuccessKeepsOtherFiles(AfterFirst(st, ps[0]), ps[1..]);
    }
  }

  /** A failing placement strands temporary files: the source of the
      failing placement and of every later one is still there, unless an
      earlier placement moved it. */
  lemma FailedPlacementKeepsLaterSources(st: FsState, ps: seq<Placement>, j: nat)
    requires j < |ps|
    requires ApplyPlacements(st, ps[..j]).Some?
    requires ApplyPlacements(ApplyPlacements(st, ps[..j]).value, [ps[j]]).None?
    ensures forall i :: j <= i < |ps| && ps[i].src in st.files && ps[i].src !in Sources(ps[..j]) ==>
      ps[i].src in ApplyUntilFailure(st, ps).files
  {
    ApplyUntilFailureStops(st, ps, j);
    SuccessKeepsOtherFiles(st, ps[..j]);
  }
}
