/**
 * The launcher's main sequence (main.go): report the instance free, poll for a pending session,
 * mark it starting, resolve and install its app's latest release, mark it running, launch the
 * app once, and close the session when the app exits. The service calls, the walks, the probe,
 * the process's start and its exit are inputs.
 */
module Launcher {
  import opened Wrappers
  import opened Strings
  import opened Paths
  import opened FileSystems
  import opened Network
  import opened Walks
  import opened Uuids
  import opened SemVer
  import opened Releases
  import opened Archives
  import opened InstallPlans
  import opened Installers
  import opened Entrypoint
  import opened BinarySuffix
  import opened Sessions

  // ---------------------------------------------------------------------------------------
  // runApp: the command

  /** The flags every launch passes before the launcher's own arguments. */
  const LaunchFlags: seq<string> := ["-PixelStreamingIP=127.0.0.1", "-PixelStreamingPort=8888", "-RenderOffScreen",
                                     "-ForceRes", "-ResX=1920", "-ResY=1080"]

  /** PROJECT_DIR: four directories up from the entrypoint, with a trailing separator. */
  function ProjectDir(entrypoint: string): string {
    Dir(Dir(Dir(Dir(entrypoint)))) + "/"
  }

  /** The entrypoint made relative to the project directory, when it is deep and does not start with the project name. */
  function Normalised(entrypoint: string, projectName: string, projectDir: string): string {
    if CountChar(entrypoint, '/') > 3 && !HasPrefix(entrypoint, projectName) then ReplaceFirst(entrypoint, projectDir, "")
    else entrypoint
  }

  /** The process arguments: the fixed flags, then the launcher's own arguments after its name. */
  function Arguments(osArgs: seq<string>): (r: seq<string>)
    requires osArgs != []
    ensures |r| == |LaunchFlags| + |osArgs| - 1
    ensures r[..|LaunchFlags|] == LaunchFlags && r[|LaunchFlags|..] == osArgs[1..]
  {
    LaunchFlags + osArgs[1..]
  }

  /** exec.Cmd: the program, its arguments and its working directory. */
  datatype Command = Command(path: string, args: seq<string>, dir: string)

  function CommandFor(entrypoint: string, suffix: string, osArgs: seq<string>): Command
    requires osArgs != []
  {
    var dir := ProjectDir(entrypoint);
    Command(Normalised(entrypoint, ProjectName(entrypoint, suffix), dir), Arguments(osArgs), dir)
  }

  /**
   * The command runApp builds: the entrypoint, normalised against the project directory when it
   * is deep and outside the project name, the launch flags and the launcher's arguments, run in
   * the project directory.
   */
  method BuildCommand(entrypoint: string, suffix: string, osArgs: seq<string>) returns (c: Command)
    requires osArgs != []
    ensures c == CommandFor(entrypoint, suffix, osArgs)
    ensures c.dir == ProjectDir(entrypoint) && c.args == Arguments(osArgs)
  {
    var projectName := ProjectName(entrypoint, suffix);
    var projectDir := Dir(Dir(Dir(Dir(entrypoint)))) + "/";
    var path := entrypoint;
    if CountChar(path, '/') > 3 {
      if !HasPrefix(path, projectName) {
        path := ReplaceFirst(path, projectDir, "");
      }
    }
    var args := LaunchFlags + osArgs[1..];
    c := Command(path, args, projectDir);
  }

  /** filepath.Join(apps, <app id>, <release id>-<version>): the directory runApp searches. */
  function ReleaseRoot(appId: Uuid, r: Release): string {
    JoinAll([InstallPlans.AppDir, ToString(appId), ReleaseDir(r)])
  }

  /** Four Dir steps drop the last four names of a rooted path of names. */
  lemma ProjectDirOfDeep(st: seq<string>, t: seq<string>)
    requires AllNames(st) && AllNames(t) && |t| == 4
    ensures ProjectDir(Render(true, st + t)) == Render(true, st) + "/"
  {
    var x0 := st + t;
    var x1, x2, x3 := st + t[..3], st + t[..2], st + t[..1];
    assert x0[..|x0| - 1] == x1 && x1[..|x1| - 1] == x2 && x2[..|x2| - 1] == x3 && x3[..|x3| - 1] == st;
    assert AllNames(x0) && AllNames(x1) && AllNames(x2) && AllNames(x3);
    DirRender(x0);
    DirRender(x1);
    DirRender(x2);
    DirRender(x3);
  }

  /** A path of names joined by separators holds one separator fewer than it has names. */
  lemma {:induction false} JoinSepSlashes(es: seq<string>)
    requires AllNames(es) && es != []
    ensures CountChar(JoinSep(es), '/') == |es| - 1
    decreases |es|
  {
    CountCharAbsent(es[0], '/');
    if |es| > 1 {
      JoinSepSlashes(es[1..]);
      CountCharAppend(es[0], "/", '/');
      CountCharAppend(es[0] + "/", JoinSep(es[1..]), '/');
      SlashCount();
    }
  }

  lemma SlashCount()
    ensures CountChar("/", '/') == 1
  {
    assert "/"[..0] == "";
  }

  /** The separators of a rooted path of names: one per name. */
  lemma RenderSlashes(st: seq<string>)
    requires AllNames(st) && st != []
    ensures CountChar(Render(true, st), '/') == |st|
  {
    JoinSepSlashes(st);
    CountCharAppend("/", JoinSep(st), '/');
    SlashCount();
  }

  /**
   * For an entrypoint at least five names deep whose project name is not empty, normalisation
   * makes it the path of its last four names, relative to the project directory, so the command
   * run in the project directory names the same file.
   */
  lemma NormalisationRebases(st: seq<string>, t: seq<string>, suffix: string)
    requires AllNames(st) && AllNames(t) && st != [] && |t| == 4
    requires ProjectName(Render(true, st + t), suffix) != ""
    ensures var ep := Render(true, st + t);
      Normalised(ep, ProjectName(ep, suffix), ProjectDir(ep)) == JoinSep(t) &&
      ProjectDir(ep) + Normalised(ep, ProjectName(ep, suffix), ProjectDir(ep)) == ep
  {
    var ep := Render(true, st + t);
    ProjectDirOfDeep(st, t);
    RenderAppend(st, t);
    assert AllNames(st + t);
    RenderSlashes(st + t);
    NotUnderProjectName(st + t, suffix);
    StripPrefix(ep, ProjectName(ep, suffix), Render(true, st) + "/", JoinSep(t));
  }

  /** An entrypoint deep enough and outside the project name loses a leading project directory. */
  lemma StripPrefix(ep: string, name: string, pd: string, rest: string)
    requires ep == pd + rest && CountChar(ep, '/') > 3 && !HasPrefix(ep, name)
    ensures Normalised(ep, name, pd) == rest
  {
    assert HasPrefix(ep, pd) by {
      assert ep[..|pd|] == pd;
    }
    assert ep[|pd|..] == rest;
  }

  /** A rooted entrypoint never starts with a non-empty project name, which holds no separator. */
  lemma NotUnderProjectName(st: seq<string>, suffix: string)
    requires AllNames(st) && st != [] && ProjectName(Render(true, st), suffix) != ""
    ensures !HasPrefix(Render(true, st), ProjectName(Render(true, st), suffix))
  {
    var ep := Render(true, st);
    var name := ProjectName(ep, suffix);
    BaseRender(st);
    var last := st[|st| - 1];
    assert IsName(last);
    assert name[0] == last[0];
    RenderRooted(true, st);
    assert name[0] != '/' by {
      assert last[0] in last;
    }
  }

  /** Exactly four separators: the project directory "//" never occurs, so the entrypoint is kept. */
  lemma ShallowEntrypointKept(t: seq<string>, suffix: string)
    requires AllNames(t) && |t| == 4
    ensures var ep := Render(true, t);
      ProjectDir(ep) == "//" && Normalised(ep, ProjectName(ep, suffix), ProjectDir(ep)) == ep
  {
    var ep := Render(true, t);
    ProjectDirOfFour(t);
    NoDoubleSlash(t);
    KeptWithoutProjectDir(ep, ProjectName(ep, suffix), ProjectDir(ep));
  }

  lemma ProjectDirOfFour(t: seq<string>)
    requires AllNames(t) && |t| == 4
    ensures ProjectDir(Render(true, t)) == "//"
  {
    assert [] + t == t;
    ProjectDirOfDeep([], t);
    assert Render(true, []) == "/";
  }

  /** An entrypoint in which the project directory does not occur is kept as it is. */
  lemma KeptWithoutProjectDir(ep: string, name: string, pd: string)
    requires !Contains(ep, pd)
    ensures Normalised(ep, name, pd) == ep
  {
  }

  /** A rooted path of names has no empty element, so no two separators are adjacent. */
  lemma NoDoubleSlash(st: seq<string>)
    requires AllNames(st) && st != []
    ensures !Contains(Render(true, st), "//")
  {
    var p := Render(true, st);
    forall j: nat
      ensures !OccursAt(p, "//", j)
    {
      if j + 2 <= |p| {
        SlashFollowedByName(st, j);
        assert p[j..j + 2] == [p[j], p[j + 1]];
      }
    }
  }

  /** Every separator of a rooted path of names is followed by a character of a name. */
  lemma {:induction false} SlashFollowedByName(st: seq<string>, j: nat)
    requires AllNames(st) && st != [] && j + 1 < |Render(true, st)|
    ensures Render(true, st)[j] == '/' ==> Render(true, st)[j + 1] != '/'
    decreases |st|
  {
    var p := Render(true, st);
    if |st| == 1 {
      RenderOne(st[0]);
      assert p[j + 1] in st[0];
    } else {
      var init, last := st[..|st| - 1], st[|st| - 1];
      assert AllNames(init);
      assert st == init + [last];
      RenderAppend(init, [last]);
      var q := Render(true, init);
      assert p == q + "/" + last;
      if j + 1 < |q| {
        assert p[j] == q[j] && p[j + 1] == q[j + 1];
        SlashFollowedByName(init, j);
      } else if j + 1 == |q| {
        RenderLast(init);
        var li := init[|init| - 1];
        assert p[j] == li[|li| - 1];
        assert li[|li| - 1] in li;
      } else {
        assert p[j + 1] == last[j - |q|];
        assert last[j - |q|] in last;
      }
    }
  }

  // ---------------------------------------------------------------------------------------
  // runApp: the end of the process

  /**
   * cmd.Wait's outcome: a normal exit, an exit error with an exit status, an exit error without
   * one, or any other error.
   */
  datatype WaitOutcome = ExitedNormally | ExitStatus(code: int) | ExitWithoutStatus | WaitFailed

  /** Why the launcher stopped with log.Fatalf or a nil dereference. */
  datatype Fatal =
    | StartingRefused
    | AppIdMissing
    | ReleaseFailed(error: ApiError)
    | NoFiles
    | InstallFailed(cause: InstallError)
    | RunningRefused
    | EntrypointFailed(reason: LocateError)
    | StartFailed
    | ClosedRefused
    | AppExitCode(code: int)
    | AppExitError

  /**
   * What runApp does after Wait, once "closed" has been sent: a refused close is fatal, an exit
   * status is fatal with its code, another error is fatal, and a normal exit or an exit error
   * without a status returns.
   */
  function AfterWait(w: WaitOutcome, closed: bool): (r: Option<Fatal>)
    ensures r.None? <==> closed && (w.ExitedNormally? || w.ExitWithoutStatus?)
    ensures !closed ==> r == Some(ClosedRefused)
    ensures closed && w.ExitStatus? ==> r == Some(AppExitCode(w.code))
    ensures closed && w.WaitFailed? ==> r == Some(AppExitError)
  {
    if !closed then Some(ClosedRefused)
    else match w
      case ExitedNormally => None
      case ExitStatus(c) => Some(AppExitCode(c))
      case ExitWithoutStatus => None
      case WaitFailed => Some(AppExitError)
  }

  /** The session statuses in the order main sends them. */
  function SessionTrace(s: SessionData): seq<StatusCall> {
    [SessionStatus(s.id, s.appId, "starting"), SessionStatus(s.id, s.appId, "running"), SessionStatus(s.id, s.appId, "closed")]
  }

  /** Each prefix of the trace extends the one before by one status. */
  lemma TraceSteps(s: SessionData)
    ensures SessionTrace(s)[..1] == [SessionTrace(s)[0]]
    ensures SessionTrace(s)[..2] == SessionTrace(s)[..1] + [SessionTrace(s)[1]]
    ensures SessionTrace(s)[..3] == SessionTrace(s)[..2] + [SessionTrace(s)[2]]
    ensures SessionTrace(s)[1..] == [SessionTrace(s)[1], SessionTrace(s)[2]]
    ensures SessionTrace(s)[..3] == [SessionTrace(s)[0]] + SessionTrace(s)[1..]
  {
  }

  /** How many of the statuses starting, running and closed had been sent when the launcher stopped for this reason. */
  function Reached(f: Option<Fatal>): (n: nat)
    ensures 1 <= n <= 3
    ensures n == 3 <==> f.None? || f.value.ClosedRefused? || f.value.AppExitCode? || f.value.AppExitError?
    ensures n == 2 <==> f.Some? && (f.value.RunningRefused? || f.value.EntrypointFailed? || f.value.StartFailed?)
  {
    match f
    case None => 3
    case Some(why) =>
      if why.RunningRefused? || why.EntrypointFailed? || why.StartFailed? then 2
      else if why.ClosedRefused? || why.AppExitCode? || why.AppExitError? then 3
      else 1
  }

  /**
   * How the started app ends runApp: a failed start is fatal, and otherwise the wait decides,
   * once "closed" has been sent.
   */
  function StartOutcome(host: Host, closed: bool): (r: Option<Fatal>)
    ensures Reached(r) >= 2
    ensures Reached(r) == 3 <==> !host.startFails
  {
    if host.startFails then Some(StartFailed) else AfterWait(host.wait, closed)
  }

  /** How runApp ends: a missing entrypoint is fatal, and otherwise the started app decides. */
  function RunAppOutcome(located: Result<string, LocateError>, host: Host, closed: bool): (r: Option<Fatal>)
    ensures Reached(r) >= 2
    ensures Reached(r) == 3 <==> located.Success? && !host.startFails
  {
    if located.Failure? then Some(EntrypointFailed(located.error)) else StartOutcome(host, closed)
  }

  /** The status runApp sends: "closed", once the app has started. */
  function ClosedSent(located: Result<string, LocateError>, host: Host, s: SessionData): seq<StatusCall> {
    if located.Success? && !host.startFails then [SessionTrace(s)[2]] else []
  }

  // ---------------------------------------------------------------------------------------
  // Polling

  /** What GetPendingSession returns: an error, or the session, nil when there is none. */
  datatype Pending = PollFailed | Polled(data: Option<SessionData>)

  /** The value the session global takes: nil on an error. */
  function Received(p: Pending): Option<SessionData> {
    if p.PollFailed? then None else p.data
  }

  /** Polling stops at a session with an id. */
  predicate Ready(p: Pending) {
    Received(p).Some? && Received(p).value.id.Some?
  }

  /** The poll that ends the polling loop, or |polls| when none does. */
  function FirstReady(polls: seq<Pending>): (n: nat)
    ensures n <= |polls|
    ensures n < |polls| ==> Ready(polls[n])
    ensures forall j :: 0 <= j < n ==> !Ready(polls[j])
  {
    if polls == [] then 0 else if Ready(polls[0]) then 0 else 1 + FirstReady(polls[1..])
  }

  lemma {:induction false} FirstReadyIs(polls: seq<Pending>, i: nat)
    requires i <= |polls| && (forall j :: 0 <= j < i ==> !Ready(polls[j]))
    requires i < |polls| ==> Ready(polls[i])
    ensures FirstReady(polls) == i
    decreases i
  {
    if i > 0 {
      assert !Ready(polls[0]);
      FirstReadyIs(polls[1..], i - 1);
    }
  }

  // ---------------------------------------------------------------------------------------
  // The installers

  /** The archive installer for an archive release, the multi-file installer otherwise. */
  method Install(fs: FileSystem, net: Network, appId: Uuid, release: Release, parse: Parser, unzip: Unzip)
    returns (err: Option<InstallError>)
    requires fs.Valid()
    modifies fs, net
    ensures fs.Valid()
    ensures err.None? && release.archive ==> ArchiveOf(release).Some? && !fs.getwdFails
    ensures err.None? && !release.archive ==> OfType(release.files, ReleaseType) != [] && !fs.getwdFails
    ensures err.None? && release.archive && NoSlash(release.version) ==>
      parse(release.version).Some? &&
      Installed(fs, TempOf(fs, appId, release), InstallOf(fs, appId, release), parse(release.version).value)
  {
    if release.archive {
      ghost var downloaded, extracted;
      err, downloaded, extracted := InstallAppReleaseArchive(fs, net, appId, release, parse, unzip);
    } else {
      var progress;
      ghost var perFile, results, downloaded, moved;
      err, progress, perFile, results, downloaded, moved := InstallAppRelease(fs, net, appId, release, parse);
    }
  }

  // ---------------------------------------------------------------------------------------
  // main

  /** init: an empty -env flag stands for the test environment. */
  function EnvironmentOf(flag: string): (env: string)
    ensures env != ""
    ensures flag != "" ==> env == flag
  {
    if flag == "" then "test" else flag
  }

  /**
   * The launcher's settings: the environment name (the -env flag after EnvironmentOf's default),
   * the OS, the API root, the platform, and os.Args.
   */
  datatype Config = Config(env: string, goos: string, api2Root: string, platform: string, osArgs: seq<string>)

  /**
   * What the outside world does: how API payloads decode, how versions parse, how archives unzip,
   * what walking a directory visits, what probing a file finds, and how the app process starts
   * and ends.
   */
  datatype Host = Host(decode: Decoder, parse: Parser, unzip: Unzip, walk: string -> seq<Visit>, probe: Prober,
                       startFails: bool, wait: WaitOutcome)

  /** How main ends: still polling, stopped by a fatal error, or serving until the context is cancelled. */
  datatype Outcome = StillPolling | Terminated(why: Fatal) | Serving

  /** The release lookup for the session's app succeeded, with the release recorded in latestRelease. */
  ghost predicate LatestResolvedFor(session: Option<SessionData>, latest: Option<Release>, config: Config, host: Host,
                                    serve: string -> Reply) {
    session.Some? && session.value.appId.Some? && latest.Some? &&
    var url := ReleaseUrl(config.api2Root, session.value.appId.value, config.platform);
    ReleaseOutcome(url, serve(url), host.decode, host.parse) == Success(latest.value)
  }

  /** A release the chosen installer accepts: it has files, and the file the installer needs. */
  predicate Installable(latest: Option<Release>) {
    latest.Some? && latest.value.files != [] &&
    (latest.value.archive ==> ArchiveOf(latest.value).Some?) &&
    (!latest.value.archive ==> OfType(latest.value.files, ReleaseType) != [])
  }

  class Launcher {
    const instanceId: string
    var session: Option<SessionData>
    var isAppLaunch: bool
    var latestRelease: Option<Release>

    /** init: an empty session and nothing launched. */
    constructor (instance: string)
      ensures instanceId == instance && session == Some(SessionData(None, None, "")) && !isAppLaunch
      ensures latestRelease.None?
    {
      instanceId, session, isAppLaunch, latestRelease := instance, Some(SessionData(None, None, "")), false, None;
    }

    /** The polling loop: every reply replaces the session global, and the first session with an id ends it. */
    method Poll(polls: seq<Pending>) returns (found: bool)
      modifies this
      ensures found <==> FirstReady(polls) < |polls|
      ensures found ==> session == Received(polls[FirstReady(polls)])
      ensures !found && polls != [] ==> session == Received(polls[|polls| - 1])
      ensures !found && polls == [] ==> session == old(session)
      ensures isAppLaunch == old(isAppLaunch) && latestRelease == old(latestRelease)
    {
      var i := 0;
      while i < |polls|
        invariant 0 <= i <= |polls|
        invariant forall j :: 0 <= j < i ==> !Ready(polls[j])
        invariant i > 0 ==> session == Received(polls[i - 1])
        invariant i == 0 ==> session == old(session)
        invariant isAppLaunch == old(isAppLaunch) && latestRelease == old(latestRelease)
      {
        session := Received(polls[i]);
        if session.Some? && session.value.id.Some? {
          FirstReadyIs(polls, i);
          return true;
        }
        i := i + 1;
      }
      FirstReadyIs(polls, |polls|);
      return false;
    }

    /**
     * runApp: find the entrypoint in the release directory, build the command, start it and
     * wait for it; every outcome of the wait sends "closed" before anything else.
     */
    method RunApp(svc: StatusService, fs: FileSystem, appId: Uuid, r: Release, config: Config, host: Host)
      returns (failure: Option<Fatal>, located: Result<string, LocateError>, cmd: Command)
      requires fs.Valid() && config.osArgs != [] && session.Some?
      modifies svc
      ensures located == Located(fs, host.walk(ReleaseRoot(appId, r)), GetBinarySuffix(config.env, config.goos), host.probe)
      ensures located.Success? ==> cmd == CommandFor(located.value, GetBinarySuffix(config.env, config.goos), config.osArgs)
      ensures failure == RunAppOutcome(located, host, !svc.refuses(SessionTrace(session.value)[2]))
      ensures svc.sent == old(svc.sent) + ClosedSent(located, host, session.value)
    {
      located, cmd := Prepare(fs, appId, r, config, host);
      if located.Failure? {
        return Some(EntrypointFailed(located.error)), located, cmd;
      }
      failure := StartAndWait(svc, host);
    }

    /** The first half of runApp: the entrypoint is found and the command built from it. */
    method Prepare(fs: FileSystem, appId: Uuid, r: Release, config: Config, host: Host)
      returns (located: Result<string, LocateError>, c: Command)
      requires fs.Valid() && config.osArgs != []
      ensures located == Located(fs, host.walk(ReleaseRoot(appId, r)), GetBinarySuffix(config.env, config.goos), host.probe)
      ensures located.Success? ==> c == CommandFor(located.value, GetBinarySuffix(config.env, config.goos), config.osArgs)
    {
      var suffix := GetBinarySuffix(config.env, config.goos);
      located := FindEntrypoint(fs, host.walk(ReleaseRoot(appId, r)), suffix, host.probe);
      if located.Success? {
        c := BuildCommand(located.value, suffix, config.osArgs);
      } else {
        c := Command("", [], "");
      }
    }

    /** The rest of runApp: the command is started and waited for, and "closed" is sent. */
    method StartAndWait(svc: StatusService, host: Host) returns (failure: Option<Fatal>)
      requires session.Some?
      modifies svc
      ensures failure == StartOutcome(host, !svc.refuses(SessionTrace(session.value)[2]))
      ensures svc.sent == old(svc.sent) + (if host.startFails then [] else [SessionTrace(session.value)[2]])
    {
      if host.startFails {
        return Some(StartFailed);
      }
      var s := session.value;
      var ok := svc.SetSessionStatus(s.id, s.appId, "closed");
      failure := AfterWait(host.wait, ok);
    }

    /**
     * The first half of the launch branch of main: "starting" is sent, and the latest release of
     * the session's app is looked up. A refused status update, a missing app id, a failed lookup
     * and a release without files each stop the launcher.
     */
    method Resolve(svc: StatusService, net: Network, config: Config, host: Host)
      returns (failure: Option<Fatal>)
      requires session.Some?
      modifies this, svc, net
      ensures session == old(session) && isAppLaunch == old(isAppLaunch)
      ensures svc.sent == old(svc.sent) + [SessionTrace(session.value)[0]]
      ensures failure == Some(StartingRefused) <==> svc.refuses(SessionTrace(session.value)[0])
      ensures failure.Some? ==> failure.value.StartingRefused? || failure.value.AppIdMissing? ||
                                failure.value.ReleaseFailed? || failure.value.NoFiles?
      ensures failure == Some(AppIdMissing) ==> session.value.appId.None?
      ensures failure.None? || failure == Some(NoFiles) ==> LatestResolvedFor(session, latestRelease, config, host, net.serve)
      ensures failure == Some(NoFiles) ==> latestRelease.value.files == []
      ensures failure.None? ==> latestRelease.value.files != []
    {
      var s := session.value;
      var ok := svc.SetSessionStatus(s.id, s.appId, "starting");
      if !ok {
        return Some(StartingRefused);
      }
      if s.appId.None? {
        return Some(AppIdMissing);
      }
      var found := GetLatestReleaseV2(net, config.api2Root, s.appId.value, config.platform, host.decode, host.parse);
      latestRelease := if found.Success? then Some(found.value) else None;
      if found.Failure? {
        return Some(ReleaseFailed(found.error));
      }
      if found.value.files == [] {
        return Some(NoFiles);
      }
      failure := None;
    }

    /** The resolved release installed by the installer its archive flag chooses. */
    method InstallLatest(fs: FileSystem, net: Network, host: Host) returns (failure: Option<Fatal>)
      requires fs.Valid() && session.Some? && session.value.appId.Some? && latestRelease.Some?
      modifies fs, net
      ensures fs.Valid()
      ensures failure.Some? ==> failure.value.InstallFailed?
      ensures failure.None? ==> Installable(latestRelease) && !fs.getwdFails
    {
      var err := Install(fs, net, session.value.appId.value, latestRelease.value, host.parse, host.unzip);
      if err.Some? {
        return Some(InstallFailed(err.value));
      }
      return None;
    }

    /**
     * The end of the launch branch of main: "running" is sent and, once it is accepted, the
     * launch is recorded and runApp runs.
     */
    method Start(svc: StatusService, fs: FileSystem, config: Config, host: Host) returns (failure: Option<Fatal>)
      requires fs.Valid() && config.osArgs != [] && session.Some? && session.value.appId.Some? && latestRelease.Some?
      requires !isAppLaunch
      modifies this, svc
      ensures session == old(session) && latestRelease == old(latestRelease)
      ensures Reached(failure) >= 2
      ensures Reached(failure) == 2 ==> svc.sent == old(svc.sent) + [SessionTrace(session.value)[1]]
      ensures Reached(failure) == 3 ==> svc.sent == old(svc.sent) + SessionTrace(session.value)[1..]
      ensures isAppLaunch <==> failure != Some(RunningRefused)
    {
      var s := session.value;
      var ok := svc.SetSessionStatus(s.id, s.appId, "running");
      if !ok {
        return Some(RunningRefused);
      }
      isAppLaunch := true;
      ghost var trace := SessionTrace(s);
      ghost var running := svc.sent;
      var located, cmd;
      failure, located, cmd := RunApp(svc, fs, s.appId.value, latestRelease.value, config, host);
      TraceSteps(s);
      AppendAssoc(old(svc.sent), old(svc.sent) + trace[1..], trace[1..], running, [trace[1]], [trace[2]]);
    }

    /**
     * One pass of the launch branch of main: the release is resolved, installed, and started.
     * Each failure stops the launcher before anything further is sent.
     */
    method Launch(svc: StatusService, fs: FileSystem, net: Network, config: Config, host: Host)
      returns (failure: Option<Fatal>)
      requires fs.Valid() && config.osArgs != [] && session.Some? && !isAppLaunch
      modifies this, svc, fs, net
      ensures fs.Valid() && session == old(session)
      ensures svc.sent == old(svc.sent) + SessionTrace(session.value)[..Reached(failure)]
      ensures isAppLaunch <==> Reached(failure) >= 2 && failure != Some(RunningRefused)
      ensures failure == Some(StartingRefused) <==> svc.refuses(SessionTrace(session.value)[0])
      ensures failure == Some(AppIdMissing) ==> session.value.appId.None?
      ensures failure == Some(NoFiles) ==> latestRelease.Some? && latestRelease.value.files == []
      ensures Reached(failure) >= 2 || (failure.Some? && (failure.value.NoFiles? || failure.value.InstallFailed?)) ==>
        LatestResolvedFor(session, latestRelease, config, host, net.serve)
      ensures Reached(failure) >= 2 ==> Installable(latestRelease)
    {
      TraceSteps(session.value);
      failure := Resolve(svc, net, config, host);
      if failure.Some? {
        return failure;
      }
      failure := InstallLatest(fs, net, host);
      if failure.Some? {
        return failure;
      }
      ghost var trace := SessionTrace(session.value);
      ghost var starting := svc.sent;
      failure := Start(svc, fs, config, host);
      if Reached(failure) == 2 {
        AppendAssoc(old(svc.sent), old(svc.sent) + trace[..2], trace[..2], starting, [trace[0]], [trace[1]]);
      } else {
        AppendAssoc(old(svc.sent), old(svc.sent) + trace[..3], trace[..3], starting, [trace[0]], trace[1..]);
      }
    }

    /**
     * main: "free" is reported (its error ignored), the pending session is polled for, and the
     * launch loop launches the app at most once and then leaves the process serving. The ghost
     * launches counts the passes of the loop that reached runApp.
     */
    method Run(svc: StatusService, fs: FileSystem, net: Network, polls: seq<Pending>, config: Config, host: Host)
      returns (outcome: Outcome, ghost launches: nat)
      requires fs.Valid() && config.osArgs != [] && !isAppLaunch
      modifies this, svc, fs, net
      ensures fs.Valid()
      ensures outcome.StillPolling? <==> FirstReady(polls) == |polls|
      ensures !outcome.StillPolling? ==> session == Received(polls[FirstReady(polls)])
      ensures outcome.StillPolling? ==> svc.sent == old(svc.sent) + [InstanceStatus(instanceId, "free")]
      ensures !outcome.StillPolling? ==>
        var f := if outcome.Terminated? then Some(outcome.why) else None;
        svc.sent == old(svc.sent) + [InstanceStatus(instanceId, "free")] + SessionTrace(session.value)[..Reached(f)]
      ensures isAppLaunch <==> launches == 1
      ensures launches <= 1
      ensures outcome.Serving? ==> isAppLaunch
      ensures isAppLaunch ==> LatestResolvedFor(session, latestRelease, config, host, net.serve) && Installable(latestRelease)
    {
      var _ := svc.SetInstanceStatus(instanceId, "free");
      ghost var sent := svc.sent;
      var found := Poll(polls);
      launches := 0;
      if !found {
        return StillPolling, launches;
      }
      while true
        invariant fs.Valid() && session == Received(polls[FirstReady(polls)])
        invariant launches == (if isAppLaunch then 1 else 0)
        invariant !isAppLaunch ==> svc.sent == sent
        invariant isAppLaunch ==> svc.sent == sent + SessionTrace(session.value)[..Reached(None)]
        invariant isAppLaunch ==> LatestResolvedFor(session, latestRelease, config, host, net.serve) && Installable(latestRelease)
        decreases if isAppLaunch then 0 else 1
      {
        if !isAppLaunch && session.value.id.Some? {
          var failure := Launch(svc, fs, net, config, host);
          if isAppLaunch {
            launches := launches + 1;
          }
          if failure.Some? {
            return Terminated(failure.value), launches;
          }
        } else if session.value.id.Some? {
          break;
        }
      }
      return Serving, launches;
    }
  }
}
