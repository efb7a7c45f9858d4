/**
 * The decisions the two installers of download.go make before they touch the file system: which
 * file entities they install, the sizes they add up, the progress they accumulate, and where the
 * release is downloaded to and installed.
 */
module InstallPlans {
  import opened Wrappers
  import opened Numeric
  import opened Paths
  import opened Strings
  import opened FileSystems
  import opened Uuids
  import opened Releases
  import opened Archives
  import opened VersionFile

  const TempDir := ".tmp"
  const DownloadDir := "downloads"
  const AppDir := "apps"
  const ArchiveType := "release-archive"
  const ReleaseType := "release"

  // ---------------------------------------------------------------------------------------
  // File selection

  /** The index of the first entity of the given type. */
  function FirstOfType(files: seq<FileEntity>, ty: string): (r: Option<nat>)
    ensures r.Some? ==> r.value < |files| && files[r.value].fileType == ty
    ensures r.Some? ==> forall j :: 0 <= j < r.value ==> files[j].fileType != ty
    ensures r.None? ==> forall j :: 0 <= j < |files| ==> files[j].fileType != ty
    decreases |files|
  {
    if files == [] then None
    else if files[0].fileType == ty then Some(0)
    else match FirstOfType(files[1..], ty)
      case None => None
      case Some(i) => Some(i + 1)
  }

  /** The entities of the given type, in their order. */
  function OfType(files: seq<FileEntity>, ty: string): (r: seq<FileEntity>)
    ensures |r| <= |files|
    ensures forall k :: 0 <= k < |r| ==> r[k] in files && r[k].fileType == ty
    decreases |files|
  {
    if files == [] then []
    else (if files[0].fileType == ty then [files[0]] else []) + OfType(files[1..], ty)
  }

  /** Selection distributes over concatenation, so the entities kept stay in their order. */
  lemma {:induction false} OfTypeAppend(a: seq<FileEntity>, b: seq<FileEntity>, ty: string)
    ensures OfType(a + b, ty) == OfType(a, ty) + OfType(b, ty)
    decreases |a|
  {
    if a == [] {
      assert a + b == b;
    } else {
      OfTypeAppend(a[1..], b, ty);
      OfTypeCons(a, b, ty);
      var h := if a[0].fileType == ty then [a[0]] else [];
      AppendAssoc(h, OfType(a + b, ty), OfType(a[1..] + b, ty), OfType(a, ty), OfType(a[1..], ty), OfType(b, ty));
    }
  }

  /** One step of OfTypeAppend: the head of a non-empty prefix. */
  lemma OfTypeCons(a: seq<FileEntity>, b: seq<FileEntity>, ty: string)
    requires a != []
    ensures OfType(a + b, ty) == (if a[0].fileType == ty then [a[0]] else []) + OfType(a[1..] + b, ty)
  {
    assert (a + b)[0] == a[0] && (a + b)[1..] == a[1..] + b;
  }

  /** Every entity of the type is kept. */
  lemma {:induction false} OfTypeComplete(files: seq<FileEntity>, ty: string, i: nat)
    requires i < |files| && files[i].fileType == ty
    ensures files[i] in OfType(files, ty)
    decreases i
  {
    if i > 0 {
      OfTypeComplete(files[1..], ty, i - 1);
    }
  }

  /** Nothing is kept exactly when no entity has the type. */
  lemma OfTypeEmpty(files: seq<FileEntity>, ty: string)
    ensures OfType(files, ty) == [] <==> FirstOfType(files, ty).None?
  {
    if FirstOfType(files, ty).Some? {
      OfTypeComplete(files, ty, FirstOfType(files, ty).value);
    }
  }

  // ---------------------------------------------------------------------------------------
  // Sizes and progress

  predicate AllSized(files: seq<FileEntity>) {
    forall k :: 0 <= k < |files| ==> files[k].size.Some?
  }

  function SizeSum(files: seq<FileEntity>): int
    requires AllSized(files)
    decreases |files|
  {
    if files == [] then 0 else SizeSum(files[..|files| - 1]) + files[|files| - 1].size.value
  }

  /**
   * totalSize: each size converted to uint64 and added with wrap-around; a missing size is a nil
   * dereference, so there is no total.
   */
  function TotalSize(files: seq<FileEntity>): (r: Option<nat>)
    ensures r.Some? <==> AllSized(files)
    ensures r.Some? ==> r.value < TWO_64
    decreases |files|
  {
    if files == [] then Some(0)
    else
      var init := TotalSize(files[..|files| - 1]);
      var last := files[|files| - 1];
      assert AllSized(files) <==> AllSized(files[..|files| - 1]) && last.size.Some? by {
        assert forall k :: 0 <= k < |files| - 1 ==> files[..|files| - 1][k] == files[k];
      }
      if init.None? || last.size.None? then None else Some(U64(init.value + U64(last.size.value)))
  }

  /** The total is the plain sum of the sizes modulo 2^64. */
  lemma {:induction false} TotalSizeIsSum(files: seq<FileEntity>)
    requires AllSized(files)
    ensures TotalSize(files) == Some(U64(SizeSum(files)))
    decreases |files|
  {
    if files != [] {
      var init := files[..|files| - 1];
      assert AllSized(init) by {
        assert forall k :: 0 <= k < |init| ==> init[k] == files[k];
      }
      TotalSizeIsSum(init);
      var s := files[|files| - 1].size.value;
      U64Add(SizeSum(init), U64(s));
      U64Add(s, SizeSum(init));
    }
  }

  /** The sum of the Current values a tracker reported. */
  function SumCurrents(reports: seq<(nat, nat)>): nat
    decreases |reports|
  {
    if reports == [] then 0 else SumCurrents(reports[..|reports| - 1]) + reports[|reports| - 1].0
  }

  /** totalProgress before wrap-around: the raw values reported for every file, added up. */
  function Progress(perFile: seq<seq<(nat, nat)>>): nat
    decreases |perFile|
  {
    if perFile == [] then 0 else Progress(perFile[..|perFile| - 1]) + SumCurrents(perFile[|perFile| - 1])
  }

  // ---------------------------------------------------------------------------------------
  // Paths

  /** "<release id>-<version>". */
  function ReleaseDir(release: Release): string {
    ToString(release.id) + "-" + release.version
  }

  /** The names below the working directory: .tmp/downloads/<app id>/<release id>-<version>. */
  function TempNames(appId: Uuid, release: Release): seq<string> {
    [TempDir, DownloadDir, ToString(appId), ReleaseDir(release)]
  }

  /** The names below the working directory: apps/<app id>/<release id>-<version>. */
  function InstallNames(appId: Uuid, release: Release): seq<string> {
    [AppDir, ToString(appId), ReleaseDir(release)]
  }

  function TempDownloadPath(wd: Path, appId: Uuid, release: Release): Path {
    JoinAll([wd] + TempNames(appId, release))
  }

  function InstallPath(wd: Path, appId: Uuid, release: Release): Path {
    JoinAll([wd] + InstallNames(appId, release))
  }

  function TempKey(wd: Path, appId: Uuid, release: Release): Key
    requires wd != ""
  {
    CleanStack(wd) + TempNames(appId, release)
  }

  function InstallKey(wd: Path, appId: Uuid, release: Release): Key
    requires wd != ""
  {
    CleanStack(wd) + InstallNames(appId, release)
  }

  /** A version without a separator gives a release directory that is a single name. */
  lemma ReleaseDirIsName(release: Release)
    requires NoSlash(release.version)
    ensures IsName(ReleaseDir(release))
  {
    var u := ToString(release.id);
    ToStringIsName(release.id);
    var d := ReleaseDir(release);
    assert |d| >= 2;
    assert '/' !in u + "-" + release.version;
  }

  /** Both paths are the working directory's elements followed by the fixed names. */
  lemma LayoutPaths(wd: Path, appId: Uuid, release: Release)
    requires Canonical(wd) && NoSlash(release.version)
    ensures TempDownloadPath(wd, appId, release) == Render(true, TempKey(wd, appId, release))
    ensures InstallPath(wd, appId, release) == Render(true, InstallKey(wd, appId, release))
    ensures AllNames(TempKey(wd, appId, release)) && AllNames(InstallKey(wd, appId, release))
  {
    NamesAreNames(appId, release);
    JoinUnder(wd, TempNames(appId, release));
    JoinUnder(wd, InstallNames(appId, release));
  }

  lemma FixedNames()
    ensures IsName(TempDir) && IsName(DownloadDir) && IsName(AppDir)
  {
    assert '/' !in TempDir && '/' !in DownloadDir && '/' !in AppDir;
  }

  lemma NamesAreNames(appId: Uuid, release: Release)
    requires NoSlash(release.version)
    ensures AllNames(TempNames(appId, release)) && AllNames(InstallNames(appId, release))
  {
    FixedNames();
    ToStringIsName(appId);
    ReleaseDirIsName(release);
  }

  /** filepath.Join of a canonical path and names, as a stack. */
  lemma JoinUnder(wd: Path, names: seq<string>)
    requires Canonical(wd) && AllNames(names) && names != []
    ensures JoinAll([wd] + names) == Render(true, CleanStack(wd) + names)
    ensures AllNames(CleanStack(wd) + names)
  {
    CanonicalStack(wd);
    JoinAllNames(CleanStack(wd), names);
  }

  /** The last element of a path rendered from names is never ".". */
  lemma NamesNotEndWithDot(st: seq<string>)
    requires AllNames(st) && st != []
    ensures !EndsWithDot(Render(true, st))
  {
    var p := Render(true, st);
    RenderLast(st);
    var last := st[|st| - 1];
    var i := |p| - |last| - 1;
    if |last| == 1 {
      assert p[|p| - 1] == last[0];
      assert last == [last[0]];
    } else {
      assert p[|p| - 2] == last[|last| - 2];
      assert last[|last| - 2] in last;
    }
  }

  /**
   * The layout the installers rely on: both paths are non-empty and absolute, the download path
   * does not end in ".", the marker sits directly in the installation directory, and neither
   * directory lies inside the other.
   */
  ghost predicate Separate(fs: FileSystem, temp: Path, install: Path)
  {
    Canonical(fs.cwd) && temp != "" && !EndsWithDot(temp) && IsAbs(install) &&
    fs.Locate(install) == CleanStack(install) &&
    fs.Locate(MarkerPath(install)) == CleanStack(install) + [MarkerName] &&
    !(fs.Locate(temp) <= CleanStack(install)) && !(CleanStack(install) <= fs.Locate(temp))
  }

  lemma PrefixOfSnoc(t: Key, i: Key, x: string)
    ensures t <= i + [x] ==> t <= i || t == i + [x]
  {
    if t <= i + [x] && |t| <= |i| {
      assert t == i[..|t|];
    }
  }

  /** The marker is not under the download path. */
  lemma MarkerOutsideTemp(fs: FileSystem, temp: Path, install: Path)
    requires Separate(fs, temp, install)
    ensures !Within(fs.Locate(MarkerPath(install)), fs.Locate(temp))
  {
    var t, i := fs.Locate(temp), CleanStack(install);
    PrefixOfSnoc(t, i, MarkerName);
  }

  /** A path rendered from names locates them, and cleaning it keeps them. */
  lemma RenderedKey(fs: FileSystem, st: seq<string>)
    requires Canonical(fs.cwd) && AllNames(st)
    ensures fs.Locate(Render(true, st)) == st && CleanStack(Render(true, st)) == st
  {
    LocateRender(fs, st);
    RenderRooted(true, st);
    ResolveRender(st);
  }

  /** The marker of a directory rendered from names. */
  lemma MarkerKey(fs: FileSystem, st: seq<string>)
    requires Canonical(fs.cwd) && AllNames(st)
    ensures fs.Locate(MarkerPath(Render(true, st))) == st + [MarkerName]
  {
    JoinNames(st, [MarkerName]);
    assert JoinSep([MarkerName]) == MarkerName;
    assert AllNames(st + [MarkerName]);
    LocateRender(fs, st + [MarkerName]);
  }

  /** The layout holds for the paths both installers build from the working directory. */
  lemma LayoutSeparate(fs: FileSystem, appId: Uuid, release: Release)
    requires Canonical(fs.cwd) && NoSlash(release.version)
    ensures Separate(fs, TempDownloadPath(fs.cwd, appId, release), InstallPath(fs.cwd, appId, release))
  {
    var wd := fs.cwd;
    LayoutPaths(wd, appId, release);
    var tk, ik := TempKey(wd, appId, release), InstallKey(wd, appId, release);
    RenderedKey(fs, tk);
    RenderedKey(fs, ik);
    MarkerKey(fs, ik);
    NamesNotEndWithDot(tk);
    RenderRooted(true, ik);
    var n := |CleanStack(wd)|;
    assert tk[n] == TempDir && ik[n] == AppDir;
  }
}
