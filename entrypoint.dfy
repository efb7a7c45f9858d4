/** Discovery of the server entrypoint binary in an installed release (helpers.go). */
module Entrypoint {
  import opened Wrappers
  import opened Strings
  import opened Paths
  import opened FileSystems
  import opened Walks

  datatype LocateError = NoEntrypoint | AbsFailed

  /** A path that may be the entrypoint: it ends with the binary suffix, lies under "Binaries", and is neither part of the engine nor the web helper. */
  predicate IsCandidate(path: string, suffix: string) {
    HasSuffix(path, suffix) && Contains(path, "Binaries") && !Contains(path, "Engine") && !Contains(path, "EpicWebHelper")
  }

  /** The callback returns an error for this visit, which ends the walk: a walk error, or a candidate that cannot be opened or checked. */
  predicate EndsSearch(v: Visit, suffix: string, probe: Prober) {
    v.walkErr || (!v.isDir && IsCandidate(v.path, suffix) && !probe(v.path).Checked?)
  }

  /** The callback records this visit as the entrypoint. */
  predicate Records(v: Visit, suffix: string, probe: Prober) {
    !v.walkErr && !v.isDir && IsCandidate(v.path, suffix) && probe(v.path) == Checked(true)
  }

  function EndFlags(vs: seq<Visit>, suffix: string, probe: Prober): (bs: seq<bool>)
    ensures |bs| == |vs|
  {
    if vs == [] then [] else [EndsSearch(vs[0], suffix, probe)] + EndFlags(vs[1..], suffix, probe)
  }

  lemma {:induction false} EndFlagsAt(vs: seq<Visit>, suffix: string, probe: Prober, i: nat)
    requires i < |vs|
    ensures EndFlags(vs, suffix, probe)[i] == EndsSearch(vs[i], suffix, probe)
    decreases i
  {
    if i > 0 {
      EndFlagsAt(vs[1..], suffix, probe, i - 1);
    }
  }

  function RecordFlags(vs: seq<Visit>, suffix: string, probe: Prober): (bs: seq<bool>)
    ensures |bs| == |vs|
  {
    if vs == [] then [] else [Records(vs[0], suffix, probe)] + RecordFlags(vs[1..], suffix, probe)
  }

  lemma {:induction false} RecordFlagsAt(vs: seq<Visit>, suffix: string, probe: Prober, i: nat)
    requires i < |vs|
    ensures RecordFlags(vs, suffix, probe)[i] == Records(vs[i], suffix, probe)
    decreases i
  {
    if i > 0 {
      RecordFlagsAt(vs[1..], suffix, probe, i - 1);
    }
  }

  /** The number of visits the walk gets through before the callback stops it. */
  function SearchEnd(vs: seq<Visit>, suffix: string, probe: Prober): nat {
    FirstTrue(EndFlags(vs, suffix, probe))
  }

  /** The visit whose path findEntrypoint ends up with: the last recorded one before the walk stops. */
  function Chosen(vs: seq<Visit>, suffix: string, probe: Prober): (r: Option<nat>)
    ensures r.Some? ==> r.value < SearchEnd(vs, suffix, probe) && Records(vs[r.value], suffix, probe)
    ensures r.Some? ==> forall j :: r.value < j < SearchEnd(vs, suffix, probe) ==> !Records(vs[j], suffix, probe)
    ensures r.None? ==> forall j :: 0 <= j < SearchEnd(vs, suffix, probe) ==> !Records(vs[j], suffix, probe)
  {
    var n := SearchEnd(vs, suffix, probe);
    var recs := RecordFlags(vs, suffix, probe);
    assert forall j :: 0 <= j < n ==> recs[..n][j] == recs[j] == Records(vs[j], suffix, probe) by {
      forall j | 0 <= j < n ensures recs[j] == Records(vs[j], suffix, probe) {
        RecordFlagsAt(vs, suffix, probe, j);
      }
    }
    LastTrue(recs[..n])
  }

  /**
   * A match is kept whatever comes after it: once an executable candidate has been recorded, a
   * later walk error or unreadable candidate still leaves a recorded path, at or after that match.
   */
  lemma MatchSurvivesLaterErrors(vs: seq<Visit>, suffix: string, probe: Prober, i: nat)
    requires i < |vs| && Records(vs[i], suffix, probe)
    requires forall j :: 0 <= j < i ==> !EndsSearch(vs[j], suffix, probe)
    ensures Chosen(vs, suffix, probe).Some? && Chosen(vs, suffix, probe).value >= i
  {
    var ends := EndFlags(vs, suffix, probe);
    forall j | 0 <= j <= i ensures !ends[j] {
      EndFlagsAt(vs, suffix, probe, j);
    }
    assert i < SearchEnd(vs, suffix, probe);
  }

  lemma ContainsNotEmpty(s: string, sub: string)
    requires Contains(s, sub) && sub != ""
    ensures s != ""
  {
  }

  /** The walk callback of findEntrypoint for one visit: whether it returns an error, and whether it records the path. */
  method Callback(v: Visit, suffix: string, probe: Prober) returns (stop: bool, record: bool)
    ensures stop == EndsSearch(v, suffix, probe) && record == Records(v, suffix, probe)
  {
    if v.walkErr {
      return true, false;
    }
    if !v.isDir && IsCandidate(v.path, suffix) {
      var p := probe(v.path);
      if !p.Checked? {
        return true, false;
      }
      return false, p.executable;
    }
    return false, false;
  }

  /** The walk over the visits: the last recorded path before the callback stops the walk. */
  method ScanVisits(visits: seq<Visit>, suffix: string, probe: Prober) returns (entrypoint: string)
    ensures Chosen(visits, suffix, probe).None? ==> entrypoint == ""
    ensures Chosen(visits, suffix, probe).Some? ==> entrypoint == visits[Chosen(visits, suffix, probe).value].path
  {
    ghost var ends := EndFlags(visits, suffix, probe);
    ghost var recs := RecordFlags(visits, suffix, probe);
    entrypoint := "";
    ghost var chosen: Option<nat> := None;
    var i := 0;
    while i < |visits|
      invariant 0 <= i <= |visits|
      invariant forall j :: 0 <= j < i ==> !ends[j]
      invariant chosen == LastTrue(recs[..i])
      invariant chosen.Some? ==> chosen.value < i && entrypoint == visits[chosen.value].path
      invariant chosen.None? ==> entrypoint == ""
    {
      var stop, record := Callback(visits[i], suffix, probe);
      EndFlagsAt(visits, suffix, probe, i);
      RecordFlagsAt(visits, suffix, probe, i);
      LastTrueStep(recs, i);
      if stop {
        break;
      }
      if record {
        entrypoint := visits[i].path;
        chosen := Some(i);
      }
      i := i + 1;
    }
    FirstTrueAt(ends, i);
    assert recs[..i] == recs[..SearchEnd(visits, suffix, probe)];
  }

  /** A recorded visit has a path, since the path contains "Binaries". */
  lemma ChosenHasPath(vs: seq<Visit>, suffix: string, probe: Prober)
    ensures Chosen(vs, suffix, probe).Some? ==> vs[Chosen(vs, suffix, probe).value].path != ""
  {
    if Chosen(vs, suffix, probe).Some? {
      ContainsNotEmpty(vs[Chosen(vs, suffix, probe).value].path, "Binaries");
    }
  }

  /** What findEntrypoint returns: the absolute form of the chosen visit's path. */
  function Located(fs: FileSystem, visits: seq<Visit>, suffix: string, probe: Prober): Result<string, LocateError>
    requires Canonical(fs.cwd)
  {
    match Chosen(visits, suffix, probe)
    case None => Failure(NoEntrypoint)
    case Some(j) => match fs.AbsPath(visits[j].path) case None => Failure(AbsFailed) case Some(a) => Success(a)
  }

  /** findEntrypoint over the walk of the release directory. */
  method FindEntrypoint(fs: FileSystem, visits: seq<Visit>, suffix: string, probe: Prober)
    returns (r: Result<string, LocateError>)
    requires fs.Valid()
    ensures r == Located(fs, visits, suffix, probe)
    ensures r.Success? ==> Canonical(r.value)
  {
    var entrypoint := ScanVisits(visits, suffix, probe);
    ChosenHasPath(visits, suffix, probe);
    if entrypoint == "" {
      return Failure(NoEntrypoint);
    }
    var abs := fs.AbsPath(entrypoint);
    if abs.None? {
      return Failure(AbsFailed);
    }
    return Success(abs.value);
  }

  /** getProjectName: the base name without one trailing binary suffix. */
  function ProjectName(entrypoint: string, suffix: string): string {
    var base := Base(entrypoint);
    if HasSuffix(base, suffix) then base[..|base| - |suffix|] else base
  }

  /** The project name of an entrypoint "<dir>/<name><suffix>" is name; without the suffix, the whole base name. */
  lemma ProjectNameOfBinary(dir: seq<string>, name: string, suffix: string)
    requires AllNames(dir) && IsName(name + suffix)
    ensures ProjectName(Render(true, dir + [name + suffix]), suffix) == name
  {
    BaseRender(dir + [name + suffix]);
    assert (name + suffix)[..|name|] == name;
  }

  lemma ProjectNameWithoutSuffix(dir: seq<string>, base: string, suffix: string)
    requires AllNames(dir) && IsName(base) && !HasSuffix(base, suffix)
    ensures ProjectName(Render(true, dir + [base]), suffix) == base
  {
    BaseRender(dir + [base]);
  }

  /** With the empty suffix (development builds) the project name is the whole base name. */
  lemma ProjectNameEmptySuffix(entrypoint: string)
    ensures ProjectName(entrypoint, "") == Base(entrypoint)
  {
    var base := Base(entrypoint);
    assert base[..|base|] == base;
  }
}
