/**
 * The two installers of download.go. installAppReleaseArchive downloads the release's archive
 * to a temporary path and extracts it into the installation directory; installAppRelease
 * downloads every release file to the temporary path and then moves each file into the
 * installation directory by its original path. Both then write the version marker into the
 * installation directory and remove the temporary path.
 *
 * A nil size is dereferenced by the source, which panics: here that is the error SizeMissing,
 * raised before anything is downloaded, as the panic would be.
 */
module Installers {
  import opened Wrappers
  import opened Numeric
  import opened Paths
  import opened Strings
  import opened FileSystems
  import opened Network
  import opened HttpDownload
  import opened Uuids
  import opened SemVer
  import opened Releases
  import opened Archives
  import opened VersionFile
  import opened InstallPlans

  datatype InstallError =
    | NoArchiveFile
    | NoReleaseFiles
    | WorkDirFailed
    | SizeMissing
    | DownloadFailed(download: DownloadError)
    | ExtractFailed(extract: ExtractError)
    | VersionParseFailed(version: string)
    | VersionWriteFailed(write: VersionError)
    | TempRemoveFailed(remove: FsError)

  // ---------------------------------------------------------------------------------------
  // The loops over the file entities

  /** The loop that looks for the archive entity, stopping at the first one. */
  method FindArchive(files: seq<FileEntity>) returns (archive: Option<FileEntity>)
    ensures archive.Some? <==> FirstOfType(files, ArchiveType).Some?
    ensures archive.Some? ==> archive.value == files[FirstOfType(files, ArchiveType).value]
  {
    archive := None;
    var i := 0;
    while i < |files|
      invariant 0 <= i <= |files|
      invariant forall j :: 0 <= j < i ==> files[j].fileType != ArchiveType
    {
      if files[i].fileType == ArchiveType {
        archive := Some(files[i]);
        break;
      }
      i := i + 1;
    }
  }

  /** The loop that collects the release entities. */
  method CollectReleaseFiles(entities: seq<FileEntity>) returns (files: seq<FileEntity>)
    ensures files == OfType(entities, ReleaseType)
  {
    files := [];
    for i := 0 to |entities|
      invariant files == OfType(entities[..i], ReleaseType)
    {
      OfTypeAppend(entities[..i], [entities[i]], ReleaseType);
      assert entities[..i + 1] == entities[..i] + [entities[i]];
      assert [entities[i]][1..] == [];
      if entities[i].fileType == ReleaseType {
        files := files + [entities[i]];
      }
    }
    assert entities[..|entities|] == entities;
  }

  /** The loop that adds up totalSize; the first missing size ends it, as the nil dereference does. */
  method SumSizes(files: seq<FileEntity>) returns (total: Option<nat>)
    ensures total == TotalSize(files)
  {
    var sum: nat := 0;
    for i := 0 to |files|
      invariant TotalSize(files[..i]) == Some(sum)
    {
      if files[i].size.None? {
        return None;
      }
      assert files[..i + 1][..i] == files[..i];
      sum := U64(sum + U64(files[i].size.value));
    }
    assert files[..|files|] == files;
    total := Some(sum);
  }

  /** The progress callback of installAppRelease, called once per report: totalProgress += progress. */
  method Accumulate(total: nat, reports: seq<(nat, nat)>) returns (r: nat)
    ensures r == U64(total + SumCurrents(reports))
  {
    r := U64(total);
    for i := 0 to |reports|
      invariant r == U64(total + SumCurrents(reports[..i]))
    {
      assert reports[..i + 1][..i] == reports[..i];
      U64Add(total + SumCurrents(reports[..i]), reports[i].0);
      r := U64(r + reports[i].0);
    }
    assert reports[..|reports|] == reports;
  }

  // ---------------------------------------------------------------------------------------
  // The common tail: version marker, then removal of the download path

  /** os.RemoveAll on the tree m. */
  function RemoveAllAt(fs: FileSystem, m: Tree, p: string): (r: Outcome)
    requires Canonical(fs.cwd) && IsTree(m)
    ensures IsTree(r.tree)
  {
    if p == "" then Outcome(m, None)
    else if EndsWithDot(p) then Outcome(m, Some(Invalid(Elems(p))))
    else RemoveAllTree(m, fs.Locate(p), fs.faults)
  }

  /**
   * What parsing the version, writing the marker and removing the download path leave, starting
   * from the tree m0: a version that does not parse changes nothing; a failed marker write
   * changes at most the marker; otherwise the marker holds the encoded version and the download
   * path is then removed, and err is what the removal reports.
   */
  ghost predicate Finished(m0: Tree, fs: FileSystem, temp: Path, install: Path, version: string, parse: Parser,
                           err: Option<InstallError>)
    reads fs
    requires Canonical(fs.cwd)
  {
    match parse(version)
    case None => err == Some(VersionParseFailed(version)) && fs.nodes == m0
    case Some(v) =>
      var mk := fs.Locate(MarkerPath(install));
      var written := m0[mk := File(Encode(v))];
      (err.Some? && err.value.VersionWriteFailed? && fs.nodes - {mk} == m0 - {mk}) ||
      ((err.None? || err.value.TempRemoveFailed?) && IsTree(written) &&
       RemoveAllAt(fs, written, temp) == Outcome(fs.nodes, if err.None? then None else Some(err.value.remove)))
  }

  /** semver.NewVersion, version.WriteVersion and os.RemoveAll, in that order. */
  method Finish(fs: FileSystem, temp: Path, install: Path, version: string, parse: Parser)
    returns (err: Option<InstallError>)
    requires fs.Valid()
    modifies fs
    ensures fs.Valid()
    ensures Finished(old(fs.nodes), fs, temp, install, version, parse, err)
  {
    var v := parse(version);
    if v.None? {
      return Some(VersionParseFailed(version));
    }
    var e := WriteVersion(fs, install, v.value);
    if e.Some? {
      return Some(VersionWriteFailed(e.value));
    }
    var r := fs.RemoveAll(temp);
    if r.Some? {
      return Some(TempRemoveFailed(r.value));
    }
    err := None;
  }

  /**
   * After a clean finish in a separate layout, the marker holds the parsed version, nothing is
   * left at or under the download path, and every other node is as it was.
   */
  lemma FinishedInstalls(m0: Tree, fs: FileSystem, temp: Path, install: Path, version: string, parse: Parser)
    requires Separate(fs, temp, install) && Finished(m0, fs, temp, install, version, parse, None)
    ensures parse(version).Some?
    ensures var mk, tk := fs.Locate(MarkerPath(install)), fs.Locate(temp);
      mk in fs.nodes && fs.nodes[mk] == File(Encode(parse(version).value)) &&
      (forall c :: c in fs.nodes ==> !Within(c, tk)) &&
      (forall c :: c in m0 && c != mk && !Within(c, tk) ==> c in fs.nodes && fs.nodes[c] == m0[c])
  {
    MarkerOutsideTemp(fs, temp, install);
  }

  /** A finish that fails in a separate layout leaves the node at the download path as it was. */
  lemma FinishKeepsDownload(m0: Tree, fs: FileSystem, temp: Path, install: Path, version: string, parse: Parser,
                            err: Option<InstallError>)
    requires Separate(fs, temp, install) && Finished(m0, fs, temp, install, version, parse, err) && err.Some?
    requires fs.Locate(temp) in m0
    ensures fs.Locate(temp) in fs.nodes && fs.nodes[fs.Locate(temp)] == m0[fs.Locate(temp)]
  {
    var tk, mk := fs.Locate(temp), fs.Locate(MarkerPath(install));
    MarkerOutsideTemp(fs, temp, install);
    assert tk != mk;
    if parse(version).Some? && err.value.VersionWriteFailed? {
      assert tk in m0 - {mk};
      assert (fs.nodes - {mk})[tk] == (m0 - {mk})[tk];
    }
  }

  // ---------------------------------------------------------------------------------------
  // installAppReleaseArchive

  /** Extracting into the installation directory of a separate layout leaves the download path's node alone. */
  lemma ExtractionKeepsDownload(fs: FileSystem, m: Tree, temp: Path, install: Path, unzip: Unzip)
    requires Separate(fs, temp, install) && IsTree(m) && fs.Locate(temp) in m
    ensures var x := ArchiveResult(fs, m, temp, install, unzip);
      fs.Locate(temp) in x.tree && x.tree[fs.Locate(temp)] == m[fs.Locate(temp)]
  {
    var tk, s := fs.Locate(temp), CleanStack(install);
    ArchiveConfined(fs, m, temp, install, unzip);
    BelowIsPrefix(tk, s);
  }

  lemma BelowIsPrefix(k: Key, d: Key)
    ensures Below(k, d) ==> d <= k
  {
    if Below(k, d) {
      assert d == k[..|d|];
    }
  }

  /**
   * The download, the extraction and the common tail for the archive entity's url and size. The
   * tracker starts with the entity's size as its total, but the download replaces that total by
   * the response's content length before the first report.
   */
  method ArchivePipeline(fs: FileSystem, net: Network, temp: Path, install: Path, url: string, size: nat,
                         version: string, parse: Parser, unzip: Unzip)
    returns (err: Option<InstallError>, ghost log: seq<(nat, nat)>, ghost downloaded: Tree, ghost extracted: Tree)
    requires fs.Valid() && size < TWO_64
    modifies fs, net
    ensures fs.Valid()
    ensures net.requested == old(net.requested) + (if old(PreCheck(fs, temp)).Success? then [url] else [])
    ensures old(PreCheck(fs, temp)).Failure? ==>
      err == Some(DownloadFailed(old(PreCheck(fs, temp)).error)) && fs.nodes == old(fs.nodes)
    ensures err.Some? && err.value.DownloadFailed? ==> OnlyTargetAndParents(fs, old(fs.nodes), fs.nodes, temp)
    ensures !(err.Some? && err.value.DownloadFailed?) ==>
      net.serve(url).Response? && net.serve(url).status == StatusOk && !net.serve(url).bodyFails &&
      log == Reports(0, U64(net.serve(url).contentLength), net.serve(url).chunks) &&
      temp != "" && IsTree(downloaded) && Keeps(old(PreCheck(fs, temp)).value, downloaded) &&
      fs.Locate(temp) in downloaded && downloaded[fs.Locate(temp)] == File(Concat(net.serve(url).chunks))
    ensures !(err.Some? && err.value.DownloadFailed?) ==>
      ArchiveResult(fs, downloaded, temp, install, unzip) ==
        Extraction(extracted, if err.Some? && err.value.ExtractFailed? then Some(err.value.extract) else None)
    ensures err.Some? && err.value.ExtractFailed? ==> fs.nodes == extracted
    ensures !(err.Some? && (err.value.DownloadFailed? || err.value.ExtractFailed?)) ==>
      Finished(extracted, fs, temp, install, version, parse, err)
  {
    var counter := new DownloadProgressTracker(size, true);
    var e := DownloadFile(fs, net, temp, url, counter);
    log := counter.reports;
    downloaded := fs.nodes;
    if e.Some? {
      return Some(DownloadFailed(e.value)), log, downloaded, downloaded;
    }
    var x := ExtractArchive(fs, temp, install, unzip);
    extracted := fs.nodes;
    if x.Some? {
      return Some(ExtractFailed(x.value)), log, downloaded, extracted;
    }
    err := Finish(fs, temp, install, version, parse);
  }

  /** The archive entity of the release, if there is one. */
  function ArchiveOf(release: Release): Option<FileEntity> {
    match FirstOfType(release.files, ArchiveType)
    case None => None
    case Some(i) => Some(release.files[i])
  }

  /** The marker holds the encoded version and nothing is left at or under the download path. */
  ghost predicate Installed(fs: FileSystem, temp: Path, install: Path, v: Version)
    reads fs
    requires Canonical(fs.cwd) && temp != ""
  {
    fs.Locate(MarkerPath(install)) in fs.nodes && fs.nodes[fs.Locate(MarkerPath(install))] == File(Encode(v)) &&
    forall c :: c in fs.nodes ==> !Within(c, fs.Locate(temp))
  }

  /** The download path holds a file with the given bytes. */
  ghost predicate HoldsDownload(fs: FileSystem, temp: Path, data: seq<byte>)
    reads fs
    requires Canonical(fs.cwd) && temp != ""
  {
    fs.Locate(temp) in fs.nodes && fs.nodes[fs.Locate(temp)] == File(data)
  }

  /** The download path of a release in the working directory of fs. */
  function TempOf(fs: FileSystem, appId: Uuid, release: Release): Path
    reads fs
  {
    TempDownloadPath(fs.cwd, appId, release)
  }

  /** The installation path of a release in the working directory of fs. */
  function InstallOf(fs: FileSystem, appId: Uuid, release: Release): Path
    reads fs
  {
    InstallPath(fs.cwd, appId, release)
  }

  /**
   * installAppReleaseArchive. Without an archive entity, without a working directory, or with
   * an archive entity of no size nothing is touched and nothing is requested. Otherwise the
   * archive's url is requested unless its pre-check fails. A failed download touches only the
   * download path and the directories above it. After a download, dl is the tree holding the
   * archive at the download path, which keeps what the pre-check left, and ex is the tree its
   * extraction into the installation path gives. For a version without a separator, success
   * means the archive's bytes unzip, the marker holds the parsed version, and the download path
   * is gone, and every failure after the download leaves the downloaded archive at the download
   * path.
   */
  method InstallAppReleaseArchive(fs: FileSystem, net: Network, appId: Uuid, release: Release, parse: Parser, unzip: Unzip)
    returns (err: Option<InstallError>, ghost dl: Tree, ghost ex: Tree)
    requires fs.Valid()
    modifies fs, net
    ensures fs.Valid()
    ensures ArchiveOf(release).None? ==>
      err == Some(NoArchiveFile) && fs.nodes == old(fs.nodes) && net.requested == old(net.requested)
    ensures ArchiveOf(release).Some? && fs.getwdFails ==>
      err == Some(WorkDirFailed) && fs.nodes == old(fs.nodes) && net.requested == old(net.requested)
    ensures ArchiveOf(release).Some? && !fs.getwdFails && ArchiveOf(release).value.size.None? ==>
      err == Some(SizeMissing) && fs.nodes == old(fs.nodes) && net.requested == old(net.requested)
    ensures ArchiveOf(release).Some? && !fs.getwdFails && ArchiveOf(release).value.size.Some? ==>
      net.requested == old(net.requested) +
        (if old(PreCheck(fs, TempOf(fs, appId, release))).Success? then [ArchiveOf(release).value.url] else [])
    ensures NoSlash(release.version) && err.None? ==>
      ArchiveOf(release).Some? && net.serve(ArchiveOf(release).value.url).Response? &&
      unzip(Concat(net.serve(ArchiveOf(release).value.url).chunks)).Some? &&
      parse(release.version).Some? &&
      Installed(fs, TempOf(fs, appId, release), InstallOf(fs, appId, release), parse(release.version).value)
    ensures NoSlash(release.version) && err.Some? && (err.value.ExtractFailed? || err.value.VersionParseFailed? ||
                                                       err.value.VersionWriteFailed? || err.value.TempRemoveFailed?) ==>
      ArchiveOf(release).Some? && net.serve(ArchiveOf(release).value.url).Response? &&
      HoldsDownload(fs, TempOf(fs, appId, release), Concat(net.serve(ArchiveOf(release).value.url).chunks))
    ensures ArchiveOf(release).Some? && !fs.getwdFails && ArchiveOf(release).value.size.Some? &&
            err.Some? && err.value.DownloadFailed? ==>
      OnlyTargetAndParents(fs, old(fs.nodes), fs.nodes, TempOf(fs, appId, release))
    ensures ArchiveOf(release).Some? && !fs.getwdFails && ArchiveOf(release).value.size.Some? &&
            !(err.Some? && err.value.DownloadFailed?) ==>
      var temp, install := TempOf(fs, appId, release), InstallOf(fs, appId, release);
      IsTree(dl) && fs.Locate(temp) in dl && net.serve(ArchiveOf(release).value.url).Response? &&
      dl[fs.Locate(temp)] == File(Concat(net.serve(ArchiveOf(release).value.url).chunks)) &&
      ArchiveResult(fs, dl, temp, install, unzip).tree == ex &&
      (err.Some? && err.value.ExtractFailed? ==>
         ArchiveResult(fs, dl, temp, install, unzip).err == Some(err.value.extract) && fs.nodes == ex) &&
      (err.None? ==>
         ArchiveResult(fs, dl, temp, install, unzip).err.None? &&
         Finished(ex, fs, temp, install, release.version, parse, err))
    ensures ArchiveOf(release).Some? && !fs.getwdFails && ArchiveOf(release).value.size.Some? &&
            !(err.Some? && err.value.DownloadFailed?) && old(PreCheck(fs, TempOf(fs, appId, release))).Success? ==>
      Keeps(old(PreCheck(fs, TempOf(fs, appId, release))).value, dl)
  {
    dl, ex := fs.nodes, fs.nodes;
    var archive := FindArchive(release.files);
    if archive.None? {
      return Some(NoArchiveFile), dl, ex;
    }
    var wd := fs.Getwd();
    if wd.None? {
      return Some(WorkDirFailed), dl, ex;
    }
    var temp := TempDownloadPath(wd.value, appId, release);
    var install := InstallPath(wd.value, appId, release);
    if archive.value.size.None? {
      return Some(SizeMissing), dl, ex;
    }
    ghost var separate := NoSlash(release.version);
    if separate {
      LayoutSeparate(fs, appId, release);
    }
    var url := archive.value.url;
    ghost var log;
    err, log, dl, ex :=
      ArchivePipeline(fs, net, temp, install, url, U64(archive.value.size.value), release.version, parse, unzip);
    ghost var downloaded, extracted := dl, ex;
    assert temp == TempOf(fs, appId, release) && install == InstallOf(fs, appId, release);
    assert archive == ArchiveOf(release);
    if separate && err.Some? && !err.value.DownloadFailed? {
      ExtractionKeepsDownload(fs, downloaded, temp, install, unzip);
      if !err.value.ExtractFailed? {
        FinishKeepsDownload(extracted, fs, temp, install, release.version, parse, err);
      }
    }
    if separate && err.None? {
      FinishedInstalls(extracted, fs, temp, install, release.version, parse);
    }
  }

  // ---------------------------------------------------------------------------------------
  // installAppRelease

  /** The URLs the downloads request: a download whose pre-check fails sends no request. */
  function Requested(files: seq<FileEntity>, results: seq<Option<DownloadError>>): (r: seq<string>)
    requires |results| == |files|
    ensures |r| <= |files|
    decreases |files|
  {
    if files == [] then []
    else
      var n := |files| - 1;
      Requested(files[..n], results[..n]) + (if PreCheckError(results[n]) then [] else [files[n].url])
  }

  /**
   * What the i-th download reported: a download that copied the whole body reports once per
   * chunk, against the response's content length; one that failed before the copy reports nothing.
   */
  ghost predicate Downloaded(net: Network, files: seq<FileEntity>, perFile: seq<seq<(nat, nat)>>,
                             results: seq<Option<DownloadError>>)
    reads net
  {
    |perFile| == |files| && |results| == |files| &&
    (forall i :: 0 <= i < |files| && (results[i].None? || results[i] == Some(BodyReadFailed)) ==>
       net.serve(files[i].url).Response? &&
       perFile[i] == Reports(0, U64(net.serve(files[i].url).contentLength), net.serve(files[i].url).chunks)) &&
    (forall i :: 0 <= i < |files| && results[i].Some? && !(results[i].value.WriteFailed? || results[i].value.BodyReadFailed?) ==>
       perFile[i] == [])
  }

  /** One turn of the download loop: a fresh tracker whose total is totalSize, then the download. */
  method DownloadOne(fs: FileSystem, net: Network, temp: Path, file: FileEntity, totalSize: nat)
    returns (err: Option<DownloadError>, reports: seq<(nat, nat)>)
    requires fs.Valid() && totalSize < TWO_64
    modifies fs, net
    ensures fs.Valid()
    ensures net.requested == old(net.requested) + (if PreCheckError(err) then [] else [file.url])
    ensures err.None? || err == Some(BodyReadFailed) ==>
      net.serve(file.url).Response? &&
      reports == Reports(0, U64(net.serve(file.url).contentLength), net.serve(file.url).chunks)
    ensures err.Some? && !(err.value.WriteFailed? || err.value.BodyReadFailed?) ==> reports == []
    ensures err.None? ==>
      temp != "" && net.serve(file.url).Response? && HoldsDownload(fs, temp, Concat(net.serve(file.url).chunks))
    ensures OnlyTargetAndParents(fs, old(fs.nodes), fs.nodes, temp)
  {
    var counter := new DownloadProgressTracker(totalSize, true);
    err := DownloadFile(fs, net, temp, file.url, counter);
    reports := counter.reports;
  }

  /** Downloaded grows by one download. */
  lemma DownloadedStep(net: Network, files: seq<FileEntity>, perFile: seq<seq<(nat, nat)>>,
                       results: seq<Option<DownloadError>>, i: nat, reports: seq<(nat, nat)>, err: Option<DownloadError>)
    requires i < |files| && Downloaded(net, files[..i], perFile, results)
    requires err.None? || err == Some(BodyReadFailed) ==>
      net.serve(files[i].url).Response? &&
      reports == Reports(0, U64(net.serve(files[i].url).contentLength), net.serve(files[i].url).chunks)
    requires err.Some? && !(err.value.WriteFailed? || err.value.BodyReadFailed?) ==> reports == []
    ensures Downloaded(net, files[..i + 1], perFile + [reports], results + [err])
  {
  }

  /** Requested grows by the url of a download that passed its pre-check. */
  lemma RequestedStep(files: seq<FileEntity>, results: seq<Option<DownloadError>>, i: nat, err: Option<DownloadError>)
    requires i < |files| && |results| == i
    ensures Requested(files[..i + 1], results + [err]) ==
      Requested(files[..i], results) + (if PreCheckError(err) then [] else [files[i].url])
  {
    assert files[..i + 1][..i] == files[..i];
    assert (results + [err])[..i] == results;
  }

  /** Progress grows by the sum of one download's reports, wrapped once at the end. */
  lemma ProgressStep(perFile: seq<seq<(nat, nat)>>, reports: seq<(nat, nat)>, p: nat)
    requires p == U64(Progress(perFile))
    ensures U64(p + SumCurrents(reports)) == U64(Progress(perFile + [reports]))
  {
    assert (perFile + [reports])[..|perFile|] == perFile;
    U64Add(Progress(perFile), SumCurrents(reports));
  }

  /**
   * The download loop: every file goes to the same download path with a tracker of its own,
   * whose callback adds each report to the total progress; a failed download is logged and the
   * loop goes on.
   */
  method DownloadAll(fs: FileSystem, net: Network, temp: Path, files: seq<FileEntity>, totalSize: nat)
    returns (progress: nat, ghost perFile: seq<seq<(nat, nat)>>, ghost results: seq<Option<DownloadError>>)
    requires fs.Valid() && totalSize < TWO_64
    modifies fs, net
    ensures fs.Valid()
    ensures Downloaded(net, files, perFile, results)
    ensures progress == U64(Progress(perFile))
    ensures net.requested == old(net.requested) + Requested(files, results)
    ensures files != [] && results[|files| - 1].None? ==>
      temp != "" && net.serve(files[|files| - 1].url).Response? &&
      HoldsDownload(fs, temp, Concat(net.serve(files[|files| - 1].url).chunks))
    ensures OnlyTargetAndParents(fs, old(fs.nodes), fs.nodes, temp)
  {
    progress := 0;
    perFile, results := [], [];
    ghost var log := net.requested;
    ghost var m0 := fs.nodes;
    for i := 0 to |files|
      invariant fs.Valid()
      invariant OnlyTargetAndParents(fs, m0, fs.nodes, temp)
      invariant Downloaded(net, files[..i], perFile, results)
      invariant progress == U64(Progress(perFile))
      invariant net.requested == log + Requested(files[..i], results)
      invariant i > 0 && results[i - 1].None? ==>
        temp != "" && net.serve(files[i - 1].url).Response? &&
        HoldsDownload(fs, temp, Concat(net.serve(files[i - 1].url).chunks))
    {
      ghost var requested := net.requested;
      ghost var before := fs.nodes;
      var e, reports := DownloadOne(fs, net, temp, files[i], totalSize);
      OnlyTargetAndParentsTrans(fs, m0, before, fs.nodes, temp);
      ghost var progress0 := progress;
      progress := Accumulate(progress, reports);
      ProgressStep(perFile, reports, progress0);
      RequestedStep(files, results, i, e);
      ghost var next := Requested(files[..i + 1], results + [e]);
      AppendAssoc(log, log + next, next, requested, Requested(files[..i], results),
                  if PreCheckError(e) then [] else [files[i].url]);
      DownloadedStep(net, files, perFile, results, i, reports, e);
      perFile, results := perFile + [reports], results + [e];
    }
    assert files[..|files|] == files;
  }

  /** os.Rename on the tree m. */
  function RenameAt(fs: FileSystem, m: Tree, src: string, dst: string): (r: Outcome)
    requires Canonical(fs.cwd) && IsTree(m)
    ensures IsTree(r.tree)
  {
    if src == "" || dst == "" then Outcome(m, Some(NotExist([])))
    else RenameTree(m, fs.Locate(src), fs.Locate(dst), fs.faults)
  }

  /**
   * The move loop on the tree m: each file with an original path is renamed from under the
   * download path to the same place under the installation path; a file without one is
   * skipped, and a failed rename is logged and the loop goes on.
   */
  function MoveAll(fs: FileSystem, m: Tree, temp: Path, install: Path, files: seq<FileEntity>): (r: Tree)
    requires Canonical(fs.cwd) && IsTree(m)
    ensures IsTree(r)
    decreases |files|
  {
    if files == [] then m
    else
      var before := MoveAll(fs, m, temp, install, files[..|files| - 1]);
      match files[|files| - 1].originalPath
      case None => before
      case Some(o) => RenameAt(fs, before, Join(temp, o), Join(install, o)).tree
  }

  /** The move loop of installAppRelease. */
  method MoveFiles(fs: FileSystem, temp: Path, install: Path, files: seq<FileEntity>)
    requires fs.Valid()
    modifies fs
    ensures fs.Valid()
    ensures fs.nodes == MoveAll(fs, old(fs.nodes), temp, install, files)
  {
    ghost var m := fs.nodes;
    for i := 0 to |files|
      invariant fs.Valid()
      invariant fs.nodes == MoveAll(fs, m, temp, install, files[..i])
    {
      assert files[..i + 1][..i] == files[..i];
      if files[i].originalPath.Some? {
        var o := files[i].originalPath.value;
        var e := fs.Rename(Join(temp, o), Join(install, o));
      }
    }
    assert files[..|files|] == files;
  }

  /**
   * When the download path holds a file, nothing can be moved from under it: every original
   * path that names something inside the download path is missing, each rename fails, and the
   * tree is left as it was.
   */
  lemma RenameUnderFileFails(fs: FileSystem, m: Tree, temp: Path, install: Path, o: string)
    requires Canonical(fs.cwd) && IsTree(m) && IsAbs(temp)
    requires fs.Locate(temp) in m && m[fs.Locate(temp)].File? && InsideDestination(temp, o)
    ensures RenameAt(fs, m, Join(temp, o), Join(install, o)).tree == m
  {
    LocateEntry(fs, temp, o);
    var s, t := fs.Locate(temp), fs.Locate(Join(temp, o));
    assert s <= t && s != t;
    if t in m {
      AncestorStored(m, t, s);
    }
  }

  lemma {:induction false} MovesUnderFileAreNoOps(fs: FileSystem, m: Tree, temp: Path, install: Path, files: seq<FileEntity>)
    requires Canonical(fs.cwd) && IsTree(m) && IsAbs(temp)
    requires fs.Locate(temp) in m && m[fs.Locate(temp)].File?
    requires forall k :: 0 <= k < |files| && files[k].originalPath.Some? ==>
      InsideDestination(temp, files[k].originalPath.value)
    ensures MoveAll(fs, m, temp, install, files) == m
    decreases |files|
  {
    if files != [] {
      var n := |files| - 1;
      var init := files[..n];
      assert forall k :: 0 <= k < |init| ==> init[k] == files[k];
      MovesUnderFileAreNoOps(fs, m, temp, install, init);
      LastMoveIsNoOp(fs, m, temp, install, files);
    }
  }

  /**
   * The exception: an original path that names the download path itself, such as "", renames the
   * downloaded file onto the installation path (when its parent directory exists).
   */
  lemma EmptyOriginalPathMovesDownload(fs: FileSystem, m: Tree, temp: Path, install: Path)
    requires Canonical(fs.cwd) && IsTree(m) && Canonical(temp) && Canonical(install)
    requires fs.Locate(temp) in m && m[fs.Locate(temp)].File? && (RenameOp, fs.Locate(temp)) !in fs.faults
    requires fs.Locate(install) != [] && fs.Locate(install) !in m && InDirectory(m, fs.Locate(install))
    ensures RenameAt(fs, m, Join(temp, ""), Join(install, "")).tree ==
      (m - {fs.Locate(temp)})[fs.Locate(install) := m[fs.Locate(temp)]]
    ensures RenameAt(fs, m, Join(temp, ""), Join(install, "")).tree != m
  {
    JoinEmpty(temp);
    JoinEmpty(install);
    NotBelowFile(m, fs.Locate(temp), fs.Locate(install));
  }

  /** One step of MovesUnderFileAreNoOps: the last move leaves the tree as the others did. */
  lemma LastMoveIsNoOp(fs: FileSystem, m: Tree, temp: Path, install: Path, files: seq<FileEntity>)
    requires Canonical(fs.cwd) && IsTree(m) && IsAbs(temp)
    requires fs.Locate(temp) in m && m[fs.Locate(temp)].File?
    requires files != [] && MoveAll(fs, m, temp, install, files[..|files| - 1]) == m
    requires files[|files| - 1].originalPath.Some? ==>
      InsideDestination(temp, files[|files| - 1].originalPath.value)
    ensures MoveAll(fs, m, temp, install, files) == m
  {
    match files[|files| - 1].originalPath
    case None =>
    case Some(o) =>
      RenameUnderFileFails(fs, m, temp, install, o);
  }

  /**
   * The moves, the version marker and the removal of the download path: Finished taken from the
   * tree the moves leave.
   */
  method MoveAndFinish(fs: FileSystem, temp: Path, install: Path, files: seq<FileEntity>, version: string, parse: Parser)
    returns (err: Option<InstallError>, ghost moved: Tree)
    requires fs.Valid()
    modifies fs
    ensures fs.Valid()
    ensures IsTree(moved) && moved == MoveAll(fs, old(fs.nodes), temp, install, files)
    ensures Finished(moved, fs, temp, install, version, parse, err)
  {
    MoveFiles(fs, temp, install, files);
    moved := fs.nodes;
    err := Finish(fs, temp, install, version, parse);
  }

  /**
   * installAppRelease. Without release entities, without a working directory, or with an entity
   * of no size nothing is touched and nothing is requested. Otherwise every entity is downloaded
   * (the total progress adds up every report of every download, wrapped to 64 bits); the
   * downloads touch only the download path and the directories above it, and leave the last
   * entity's bytes there when its download succeeded. The moves run on the tree the downloads
   * leave, and the common tail runs on the tree the moves leave.
   */
  method InstallAppRelease(fs: FileSystem, net: Network, appId: Uuid, release: Release, parse: Parser)
    returns (err: Option<InstallError>, progress: nat, ghost perFile: seq<seq<(nat, nat)>>,
             ghost results: seq<Option<DownloadError>>, ghost downloaded: Tree, ghost moved: Tree)
    requires fs.Valid()
    modifies fs, net
    ensures fs.Valid()
    ensures OfType(release.files, ReleaseType) == [] ==>
      err == Some(NoReleaseFiles) && fs.nodes == old(fs.nodes) && net.requested == old(net.requested)
    ensures OfType(release.files, ReleaseType) != [] && fs.getwdFails ==>
      err == Some(WorkDirFailed) && fs.nodes == old(fs.nodes) && net.requested == old(net.requested)
    ensures OfType(release.files, ReleaseType) != [] && !fs.getwdFails &&
            TotalSize(OfType(release.files, ReleaseType)).None? ==>
      err == Some(SizeMissing) && fs.nodes == old(fs.nodes) && net.requested == old(net.requested)
    ensures OfType(release.files, ReleaseType) != [] && !fs.getwdFails &&
            TotalSize(OfType(release.files, ReleaseType)).Some? ==>
      var files, temp, install := OfType(release.files, ReleaseType), TempOf(fs, appId, release), InstallOf(fs, appId, release);
      Downloaded(net, files, perFile, results) && progress == U64(Progress(perFile)) &&
      net.requested == old(net.requested) + Requested(files, results) &&
      IsTree(downloaded) && OnlyTargetAndParents(fs, old(fs.nodes), downloaded, temp) &&
      (results[|files| - 1].None? ==>
         temp != "" && net.serve(files[|files| - 1].url).Response? && fs.Locate(temp) in downloaded &&
         downloaded[fs.Locate(temp)] == File(Concat(net.serve(files[|files| - 1].url).chunks))) &&
      moved == MoveAll(fs, downloaded, temp, install, files) &&
      Finished(moved, fs, temp, install, release.version, parse, err)
  {
    progress, perFile, results, downloaded, moved := 0, [], [], fs.nodes, fs.nodes;
    var files := CollectReleaseFiles(release.files);
    if |files| == 0 {
      return Some(NoReleaseFiles), progress, perFile, results, downloaded, moved;
    }
    var wd := fs.Getwd();
    if wd.None? {
      return Some(WorkDirFailed), progress, perFile, results, downloaded, moved;
    }
    var temp := TempDownloadPath(wd.value, appId, release);
    var install := InstallPath(wd.value, appId, release);
    var totalSize := SumSizes(files);
    if totalSize.None? {
      return Some(SizeMissing), progress, perFile, results, downloaded, moved;
    }
    progress, perFile, results := DownloadAll(fs, net, temp, files, totalSize.value);
    downloaded := fs.nodes;
    err, moved := MoveAndFinish(fs, temp, install, files, release.version, parse);
  }

  /**
   * The total progress is not the number of bytes: a download of two one-byte chunks reports 1 and
   * then 2, which adds up to 3.
   */
  lemma ProgressOvercounts(total: nat, chunks: seq<seq<byte>>)
    requires |chunks| == 2 && |chunks[0]| == 1 && |chunks[1]| == 1
    ensures SumCurrents(Reports(0, total, chunks)) == 3 && |Concat(chunks)| == 2
  {
    TwoChunkReports(total, chunks);
    var first: seq<(nat, nat)> := [(1, total)];
    var r: seq<(nat, nat)> := first + [(2, total)];
    assert r[..1] == first && first[..0] == [];
    assert SumCurrents(first) == 1;
  }

  /** Two one-byte chunks report 1 and then 2. */
  lemma TwoChunkReports(total: nat, chunks: seq<seq<byte>>)
    requires |chunks| == 2 && |chunks[0]| == 1 && |chunks[1]| == 1
    ensures Reports(0, total, chunks) == [(1, total)] + [(2, total)] && |Concat(chunks)| == 2
  {
    var none: seq<seq<byte>> := [];
    var one := chunks[..1];
    assert one == none + [chunks[0]] && one[..0] == none;
    assert chunks == one + [chunks[1]] && chunks[..1] == one;
    ReportsSnoc(0, total, none, chunks[0]);
    ReportsSnoc(0, total, one, chunks[1]);
  }


}
