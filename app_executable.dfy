/** Locating the executable of an installed application (FindAppExecutable and its three lookups). */
module AppExecutables {
  import opened Wrappers
  import opened Paths
  import opened FileSystems
  import opened Uuids
  import opened Walks

  /** The directory under the working directory that holds installed applications. */
  const AppDir := "apps"
  /** The name tried when neither the id nor the name gives an executable. */
  const GenericName := "Metaverse"

  datatype LookupError = LookupAbsFailed | LookupStatFailed(cause: FsError) | LookupIsDirectory

  datatype FindError =
    | WorkDirFailed
    | AppsDirMissing(cause: FsError)
    | AppsDirUnreadable(cause: FsError)
    | WalkFailed
    | NotFound
    | AbsFailed

  /** The path a lookup tries: the file name joined to the directory, with ".exe" on Windows. */
  function CandidatePath(dir: Path, file: string, windows: bool): Path {
    Join(dir, file) + (if windows then ".exe" else "")
  }

  /** A stored file that os.Stat reports without an I/O fault. */
  ghost predicate IsStatFile(fs: FileSystem, a: Path)
    reads fs
    requires fs.Valid()
  {
    a != "" && fs.Locate(a) in fs.nodes && fs.nodes[fs.Locate(a)].File? && (StatOp, fs.Locate(a)) !in fs.faults
  }

  /**
   * The lookup shared by getAppExecutableById, getAppExecutableByName and
   * getAppExecutableByGenericName: the absolute form of the candidate path, accepted only when
   * it exists and is not a directory.
   */
  function ExecutableAt(fs: FileSystem, dir: Path, file: string, windows: bool): (r: Result<Path, LookupError>)
    reads fs
    requires fs.Valid()
    ensures r.Success? ==> fs.AbsPath(CandidatePath(dir, file, windows)) == Some(r.value) && Canonical(r.value)
    ensures r.Success? <==>
      fs.AbsPath(CandidatePath(dir, file, windows)).Some? && IsStatFile(fs, fs.AbsPath(CandidatePath(dir, file, windows)).value)
    ensures r == Failure(LookupAbsFailed) <==> fs.AbsPath(CandidatePath(dir, file, windows)).None?
  {
    var path := CandidatePath(dir, file, windows);
    match fs.AbsPath(path)
    case None => Failure(LookupAbsFailed)
    case Some(exe) =>
      match fs.Stat(exe)
      case Failure(e) => Failure(LookupStatFailed(e))
      case Success(node) => if node.Directory? then Failure(LookupIsDirectory) else Success(exe)
  }

  function ExecutableById(fs: FileSystem, dir: Path, id: Uuid, windows: bool): (r: Result<Path, LookupError>)
    reads fs
    requires fs.Valid()
    ensures r == ExecutableAt(fs, dir, ToString(id), windows)
  {
    ExecutableAt(fs, dir, ToString(id), windows)
  }

  function ExecutableByName(fs: FileSystem, dir: Path, name: string, windows: bool): (r: Result<Path, LookupError>)
    reads fs
    requires fs.Valid()
    ensures r == ExecutableAt(fs, dir, name, windows)
  {
    ExecutableAt(fs, dir, name, windows)
  }

  function ExecutableByGenericName(fs: FileSystem, dir: Path, windows: bool): (r: Result<Path, LookupError>)
    reads fs
    requires fs.Valid()
    ensures r == ExecutableAt(fs, dir, GenericName, windows)
  {
    ExecutableAt(fs, dir, GenericName, windows)
  }

  /** The first of the three lookups that succeeds: by id when the id is not nil, by name when the name is not empty, then the generic name. */
  function LookupChain(fs: FileSystem, dir: Path, id: Uuid, name: string, windows: bool): (r: Option<Path>)
    reads fs
    requires fs.Valid()
    ensures r.Some? ==>
      (!IsNil(id) && ExecutableById(fs, dir, id, windows) == Success(r.value)) ||
      (name != "" && ExecutableByName(fs, dir, name, windows) == Success(r.value)) ||
      ExecutableByGenericName(fs, dir, windows) == Success(r.value)
    ensures r.None? <==>
      (IsNil(id) || ExecutableById(fs, dir, id, windows).Failure?) &&
      (name == "" || ExecutableByName(fs, dir, name, windows).Failure?) &&
      ExecutableByGenericName(fs, dir, windows).Failure?
    ensures !IsNil(id) && ExecutableById(fs, dir, id, windows).Success? ==> r == Some(ExecutableById(fs, dir, id, windows).value)
    ensures ((IsNil(id) || ExecutableById(fs, dir, id, windows).Failure?) &&
             name != "" && ExecutableByName(fs, dir, name, windows).Success?) ==>
      r == Some(ExecutableByName(fs, dir, name, windows).value)
    ensures ((IsNil(id) || ExecutableById(fs, dir, id, windows).Failure?) &&
             (name == "" || ExecutableByName(fs, dir, name, windows).Failure?) &&
             ExecutableByGenericName(fs, dir, windows).Success?) ==>
      r == Some(ExecutableByGenericName(fs, dir, windows).value)
  {
    if !IsNil(id) && ExecutableById(fs, dir, id, windows).Success? then Some(ExecutableById(fs, dir, id, windows).value)
    else if name != "" && ExecutableByName(fs, dir, name, windows).Success? then Some(ExecutableByName(fs, dir, name, windows).value)
    else if ExecutableByGenericName(fs, dir, windows).Success? then Some(ExecutableByGenericName(fs, dir, windows).value)
    else None
  }

  // ---------------------------------------------------------------------------------------
  // The walk fallback
  // ---------------------------------------------------------------------------------------

  /** A visit of a regular file whose information could be read. */
  predicate IsRegularVisit(v: Visit) {
    !v.walkErr && !v.isDir && !v.infoFails && v.regular
  }

  /**
   * The callback returns an error (or io.EOF) for this visit, which ends the walk: a walk error,
   * unreadable file information, or a regular file that cannot be opened or checked or that is executable.
   */
  predicate EndsWalk(v: Visit, probe: Prober) {
    v.walkErr || (!v.isDir && (v.infoFails || (v.regular && probe(v.path) != Checked(false))))
  }

  /** The walk ends because an executable was found (the callback returned io.EOF). */
  predicate FoundExecutable(v: Visit, probe: Prober) {
    IsRegularVisit(v) && probe(v.path) == Checked(true)
  }

  /**
   * The walk ends because the check of a regular file failed with io.EOF: the callback returns
   * that error, the walk passes it on, and FindAppExecutable takes io.EOF for a normal end.
   */
  predicate StopsWithEOF(v: Visit, probe: Prober) {
    IsRegularVisit(v) && probe(v.path) == CheckEOF
  }

  function EndFlags(vs: seq<Visit>, probe: Prober): (bs: seq<bool>)
    ensures |bs| == |vs|
  {
    if vs == [] then [] else [EndsWalk(vs[0], probe)] + EndFlags(vs[1..], probe)
  }

  lemma {:induction false} EndFlagsAt(vs: seq<Visit>, probe: Prober, i: nat)
    requires i < |vs|
    ensures EndFlags(vs, probe)[i] == EndsWalk(vs[i], probe)
    decreases i
  {
    if i > 0 {
      EndFlagsAt(vs[1..], probe, i - 1);
    }
  }

  lemma EndFlagsAll(vs: seq<Visit>, probe: Prober)
    ensures forall i :: 0 <= i < |vs| ==> EndFlags(vs, probe)[i] == EndsWalk(vs[i], probe)
  {
    forall i | 0 <= i < |vs| {
      EndFlagsAt(vs, probe, i);
    }
  }

  function RegularFlags(vs: seq<Visit>): (bs: seq<bool>)
    ensures |bs| == |vs|
  {
    if vs == [] then [] else [IsRegularVisit(vs[0])] + RegularFlags(vs[1..])
  }

  lemma {:induction false} RegularFlagsAt(vs: seq<Visit>, i: nat)
    requires i < |vs|
    ensures RegularFlags(vs)[i] == IsRegularVisit(vs[i])
    decreases i
  {
    if i > 0 {
      RegularFlagsAt(vs[1..], i - 1);
    }
  }

  lemma RegularFlagsAll(vs: seq<Visit>)
    ensures forall i :: 0 <= i < |vs| ==> RegularFlags(vs)[i] == IsRegularVisit(vs[i])
  {
    forall i | 0 <= i < |vs| {
      RegularFlagsAt(vs, i);
    }
  }

  /** How the search ends once appPath is known: an empty path is not found, any other is made absolute. */
  function Settle(fs: FileSystem, appPath: string): (r: Result<Path, FindError>)
    reads fs
    requires fs.Valid()
    ensures r.Success? ==> appPath != "" && fs.AbsPath(appPath) == Some(r.value) && Canonical(r.value)
    ensures r == Failure(NotFound) <==> appPath == ""
  {
    if appPath == "" then Failure(NotFound)
    else match fs.AbsPath(appPath) case None => Failure(AbsFailed) case Some(a) => Success(a)
  }

  /** appPath after the first n visits: the last regular file among them, or "" when there is none. */
  function RecordedPath(vs: seq<Visit>, n: nat): string
    requires n <= |vs|
  {
    match LastTrue(RegularFlags(vs)[..n]) case None => "" case Some(j) => vs[j].path
  }

  /**
   * The outcome of the walk fallback: when the walk ends at an executable regular file, that file;
   * when it ends at a check failing with io.EOF, or visits everything, the last regular file visited
   * before that; when it ends at any other error, the error.
   */
  function WalkOutcome(fs: FileSystem, vs: seq<Visit>, probe: Prober): (r: Result<Path, FindError>)
    reads fs
    requires fs.Valid()
    ensures var n := FirstTrue(EndFlags(vs, probe));
      n < |vs| && !FoundExecutable(vs[n], probe) && !StopsWithEOF(vs[n], probe) ==> r == Failure(WalkFailed)
  {
    var n := FirstTrue(EndFlags(vs, probe));
    if n < |vs| && FoundExecutable(vs[n], probe) then Settle(fs, vs[n].path)
    else if n < |vs| && !StopsWithEOF(vs[n], probe) then Failure(WalkFailed)
    else Settle(fs, RecordedPath(vs, n))
  }

  /** The first regular file judged executable wins, whatever follows it in the walk. */
  lemma FirstExecutableWins(fs: FileSystem, vs: seq<Visit>, probe: Prober, i: nat)
    requires fs.Valid() && i < |vs| && FoundExecutable(vs[i], probe)
    requires forall j :: 0 <= j < i ==> !EndsWalk(vs[j], probe)
    ensures WalkOutcome(fs, vs, probe) == Settle(fs, vs[i].path)
  {
    EndFlagsAll(vs, probe);
    FirstTrueAt(EndFlags(vs, probe), i);
  }

  /** When no visit ends the walk, the last regular file visited is the result, it being not executable. */
  lemma LastRegularFallback(fs: FileSystem, vs: seq<Visit>, probe: Prober, i: nat)
    requires fs.Valid() && i < |vs| && IsRegularVisit(vs[i])
    requires forall j :: 0 <= j < |vs| ==> !EndsWalk(vs[j], probe)
    requires forall j :: i < j < |vs| ==> !IsRegularVisit(vs[j])
    ensures WalkOutcome(fs, vs, probe) == Settle(fs, vs[i].path)
    ensures probe(vs[i].path) == Checked(false)
  {
    EndFlagsAll(vs, probe);
    FirstTrueAt(EndFlags(vs, probe), |vs|);
    LastRegularBefore(vs, |vs|, i);
  }

  /**
   * A check failing with io.EOF ends the walk without an error: the result is the last regular
   * file visited before it, which was not executable, and not the file whose check failed.
   */
  lemma EOFKeepsEarlierFile(fs: FileSystem, vs: seq<Visit>, probe: Prober, n: nat, i: nat)
    requires fs.Valid() && i < n < |vs| && IsRegularVisit(vs[i]) && StopsWithEOF(vs[n], probe)
    requires forall j :: 0 <= j < n ==> !EndsWalk(vs[j], probe)
    requires forall j :: i < j < n ==> !IsRegularVisit(vs[j])
    ensures WalkOutcome(fs, vs, probe) == Settle(fs, vs[i].path)
    ensures probe(vs[i].path) == Checked(false)
  {
    EndFlagsAll(vs, probe);
    FirstTrueAt(EndFlags(vs, probe), n);
    LastRegularBefore(vs, n, i);
  }

  /** A check failing with io.EOF before any regular file was recorded leaves nothing found. */
  lemma EOFFirstNotFound(fs: FileSystem, vs: seq<Visit>, probe: Prober, n: nat)
    requires fs.Valid() && n < |vs| && StopsWithEOF(vs[n], probe)
    requires forall j :: 0 <= j < n ==> !EndsWalk(vs[j], probe) && !IsRegularVisit(vs[j])
    ensures WalkOutcome(fs, vs, probe) == Failure(NotFound)
  {
    EndFlagsAll(vs, probe);
    FirstTrueAt(EndFlags(vs, probe), n);
    NoRegularBefore(vs, n);
  }

  lemma LastRegularBefore(vs: seq<Visit>, n: nat, i: nat)
    requires i < n <= |vs| && IsRegularVisit(vs[i])
    requires forall j :: i < j < n ==> !IsRegularVisit(vs[j])
    ensures RecordedPath(vs, n) == vs[i].path
  {
    RegularFlagsAll(vs);
    var bs := RegularFlags(vs)[..n];
    assert bs[i];
    var r := LastTrue(bs);
    assert r.Some? && r.value >= i;
  }

  lemma NoRegularBefore(vs: seq<Visit>, n: nat)
    requires n <= |vs|
    requires forall j :: 0 <= j < n ==> !IsRegularVisit(vs[j])
    ensures RecordedPath(vs, n) == ""
  {
    RegularFlagsAll(vs);
    var bs := RegularFlags(vs)[..n];
    assert forall j :: 0 <= j < n ==> !bs[j];
  }

  /** A walk that visits no regular file finds nothing. */
  lemma NoRegularFileNotFound(fs: FileSystem, vs: seq<Visit>, probe: Prober)
    requires fs.Valid()
    requires forall j :: 0 <= j < |vs| ==> !EndsWalk(vs[j], probe) && !IsRegularVisit(vs[j])
    ensures WalkOutcome(fs, vs, probe) == Failure(NotFound)
  {
    EndFlagsAll(vs, probe);
    FirstTrueAt(EndFlags(vs, probe), |vs|);
    NoRegularBefore(vs, |vs|);
  }

  /** The applications directory of an app: the working directory, "apps", and the app id. */
  function AppsDirOf(wd: Path, id: Uuid): Path {
    JoinAll([wd, AppDir, ToString(id)])
  }

  lemma AppsDirElems(wd: Path, id: Uuid)
    requires Canonical(wd)
    ensures AppsDirOf(wd, id) == Render(true, CleanStack(wd) + [AppDir, ToString(id)])
  {
    CanonicalStack(wd);
    ToStringIsName(id);
    assert [wd, AppDir, ToString(id)] == [Render(true, CleanStack(wd))] + [AppDir, ToString(id)];
    JoinAllNames(CleanStack(wd), [AppDir, ToString(id)]);
  }

  /** The WalkDir fold of FindAppExecutable and the checks that follow it. */
  method SearchWalk(fs: FileSystem, visits: seq<Visit>, probe: Prober) returns (r: Result<Path, FindError>)
    requires fs.Valid()
    ensures r == WalkOutcome(fs, visits, probe)
  {
    ghost var ends := EndFlags(visits, probe);
    ghost var regs := RegularFlags(visits);
    var appPath := "";
    var found := false;
    var failed := false;
    var i := 0;
    while i < |visits|
      invariant 0 <= i <= |visits|
      invariant forall j :: 0 <= j < i ==> !ends[j]
      invariant appPath == RecordedPath(visits, i)
    {
      var v := visits[i];
      EndFlagsAt(visits, probe, i);
      RegularFlagsAt(visits, i);
      if v.walkErr {
        failed := true;
        break;
      }
      if !v.isDir {
        if v.infoFails {
          failed := true;
          break;
        }
        if v.regular {
          var p := probe(v.path);
          if p.CheckEOF? {
            break;
          }
          if !p.Checked? {
            failed := true;
            break;
          }
          appPath := v.path;
          if p.executable {
            found := true;
            break;
          }
        }
      }
      LastTrueStep(regs, i);
      i := i + 1;
    }
    FirstTrueAt(ends, i);
    if failed {
      return Failure(WalkFailed);
    }
    if found {
      assert FoundExecutable(visits[i], probe);
    }
    r := Settle(fs, appPath);
  }

  /** FindAppExecutable, with the walk of the applications directory given as its visits. */
  method FindAppExecutable(fs: FileSystem, id: Uuid, name: string, windows: bool, visits: seq<Visit>, probe: Prober)
    returns (r: Result<Path, FindError>)
    requires fs.Valid()
    ensures fs.Getwd().None? ==> r == Failure(WorkDirFailed)
    ensures fs.Getwd().Some? && fs.Stat(AppsDirOf(fs.cwd, id)).Failure? ==>
      r == if fs.Stat(AppsDirOf(fs.cwd, id)).error.NotExist? then Failure(AppsDirMissing(fs.Stat(AppsDirOf(fs.cwd, id)).error))
           else Failure(AppsDirUnreadable(fs.Stat(AppsDirOf(fs.cwd, id)).error))
    ensures fs.Getwd().Some? && fs.Stat(AppsDirOf(fs.cwd, id)).Success? && LookupChain(fs, AppsDirOf(fs.cwd, id), id, name, windows).Some? ==>
      r == Success(LookupChain(fs, AppsDirOf(fs.cwd, id), id, name, windows).value)
    ensures fs.Getwd().Some? && fs.Stat(AppsDirOf(fs.cwd, id)).Success? && LookupChain(fs, AppsDirOf(fs.cwd, id), id, name, windows).None? ==>
      r == WalkOutcome(fs, visits, probe)
  {
    var wd := fs.Getwd();
    if wd.None? {
      return Failure(WorkDirFailed);
    }
    var apps := JoinAll([wd.value, AppDir, ToString(id)]);
    var st := fs.Stat(apps);
    if st.Failure? {
      if st.error.NotExist? {
        return Failure(AppsDirMissing(st.error));
      }
      return Failure(AppsDirUnreadable(st.error));
    }
    if !IsNil(id) {
      var byId := ExecutableById(fs, apps, id, windows);
      if byId.Success? {
        return Success(byId.value);
      }
    }
    if name != "" {
      var byName := ExecutableByName(fs, apps, name, windows);
      if byName.Success? {
        return Success(byName.value);
      }
    }
    var generic := ExecutableByGenericName(fs, apps, windows);
    if generic.Success? {
      return Success(generic.value);
    }

    r := SearchWalk(fs, visits, probe);
  }
}
