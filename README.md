# Pixel streaming launcher — a Dafny model

The launcher runs on a pixel streaming instance. It reports the instance as free and polls the
session service until a session is assigned. It then:

1. marks the session "starting";
2. fetches the release of the session's application;
3. installs the release, either by downloading one archive and extracting it, or by downloading
   the release files one by one and moving them into place;
4. writes a 12-byte version marker;
5. marks the session "running";
6. finds the server binary in the release, builds its command line and runs it;
7. marks the session "closed" when the process ends.

Two HTTP handlers run beside this: a health check and a close-session call.

This project models those decision procedures with the surroundings made explicit:

- The file system is a class holding a map from canonical absolute paths to nodes. It has a working
  directory and a fixed set of I/O faults.
- The network is a class that logs each URL requested and answers from a fixed function.
- Directory walks are the sequence of visits they make.
- The executable probe, version parsing, JSON decoding and zip decoding are functions passed in.
- The session service records every status call, and whether it refuses a call is fixed in advance.
- A child process is described by whether it starts and how its wait ends.

Methods that change state are proved against functions of the old state. The properties the
launcher relies on are proved as lemmas about those functions.

Modules, in dependency order:

Support models of Go's standard library, as the launcher uses it:

| module | models |
|---|---|
| `Wrappers` | Option and Result |
| `Numeric` | uint32 and uint64 wrap-around, decimal rendering |
| `Strings` | `strings` and `strconv.Atoi` |
| `Paths` | `filepath.Clean`, `Join`, `Dir`, `Base`, `Abs`, by the rules of "Lexical File Names in Plan 9" |
| `FileSystems` | `os.Stat`, `ReadFile`, `Remove`, `RemoveAll`, `MkdirAll`, `Create`, `WriteFile`, `Rename`, `Getwd` |
| `Network` | HTTP GET and bodies delivered in chunks |
| `Walks` | `filepath.WalkDir` visits and the executable probe |
| `Uuids` | UUID text form |
| `SemVer` | precedence by section 11 of Semantic Versioning 2.0.0 |

The launcher itself:

| module | file |
|---|---|
| `VersionFile` | version/version.go |
| `Releases` | api/app.go |
| `InstallPlans` | the file selection, totals and paths of download.go |
| `HttpDownload` | http/download.go |
| `Archives` | `ExtractArchive` in utils/utils.go |
| `AppExecutables` | `FindAppExecutable` in utils/utils.go |
| `BinarySuffix` | models.go |
| `Entrypoint` | helpers.go |
| `Installers` | download.go |
| `Sessions` | the status calls and the context |
| `Server` | server.go |
| `Launcher` | main.go |

## Model

| member | source | states |
|---|---|---|
| VersionFile.Encode | version/version.go:60-63 | the record is exactly 12 bytes: little-endian uint32 major, minor and patch at offsets 0, 4 and 8, each component taken modulo 2^32 |
| VersionFile.LE32RoundTrip | version/version.go:27-29 | reading back four bytes written little-endian gives the value written |
| VersionFile.Uint32RoundTrip | version/version.go:61-63 | every four bytes are the little-endian form of the value they decode to |
| VersionFile.PutUint32 | version/version.go:61-63 | writing into the buffer changes exactly the four bytes at the offset, which then hold the value little-endian |
| VersionFile.EncodeRecord | version/version.go:60-63 | the freshly allocated buffer filled by three puts is the encoded record |
| VersionFile.ReadVersion | version/version.go:12-37 | when stat fails, the read succeeds exactly when the marker does not exist; a read of an existing marker succeeds only when its first 12 bytes, zero-padded when the file is shorter, decode to a text that parses to the result; a failed file read and a text that does not parse are each the error returned |
| VersionFile.ResetMarker | version/version.go:43-58 | only the marker's node may change; a stat error other than not-exist fails and changes nothing |
| VersionFile.WriteVersion | version/version.go:39-71 | on success the marker holds exactly the 12-byte encoding, replacing any old content, and nothing else changes; on failure at most the marker changes |
| VersionFile.ReadMissing | version/version.go:16-17 | a marker that does not exist reads as version 0.0.0 without error |
| VersionFile.DecodeIgnoresTail | version/version.go:27-29 | bytes after the first twelve do not affect what is read |
| VersionFile.DecodeEncode | version/version.go:27-31 | decoding the record gives the text of the three components, each modulo 2^32 |
| VersionFile.ReadAfterWrite | version/version.go:27-31 | reading a written marker gives the numeric triple modulo 2^32, without pre-release or build labels |
| VersionFile.ReadAfterWriteExact | version/version.go:27-31 | a version with components below 2^32 and no labels reads back exactly |
| VersionFile.WrapExample | version/version.go:61 | major 2^32 is stored as major 0 |
| VersionFile.EncodeForgetsLabels | version/version.go:60-63 | pre-release and build labels are not stored |
| VersionFile.EmptyMarkerReadsZero | version/version.go:22-31 | an empty marker reads as 0.0.0, since the slices read the zeroed capacity of the buffer os.ReadFile returns |
| VersionFile.FiveByteMarker | version/version.go:22-31 | the five bytes 1, 0, 0, 0, 2 read as 1.2.0: the missing bytes of a short marker read as zeros |
| SemVer.CmpAntisym | api/app.go:91 | precedence is antisymmetric; equal precedence means equal apart from build metadata |
| SemVer.CmpTrans | api/app.go:91 | precedence is transitive |
| SemVer.NotGreaterTrans | api/app.go:91 | "not greater than" is transitive, so the tracked minimum stays minimal |
| SemVer.BelowNotGreater | api/app.go:91-94 | a version below the tracked one is below everything the tracked one is not above |
| SemVer.GreaterAsym | api/app.go:91 | GreaterThan is asymmetric |
| SemVer.NotGreaterRefl | api/app.go:91 | no version is greater than itself, so a tie never replaces the candidate |
| SemVer.PreReleaseBelowRelease | api/app.go:91 | a pre-release ranks below its release |
| SemVer.BuildIgnored | api/app.go:91 | build metadata does not affect precedence |
| SemVer.PrecedenceExamples | api/app.go:91 | the precedence chain of section 11 of Semantic Versioning 2.0.0, from 1.0.0-alpha up to 1.0.0 |
| Releases.SelectIndex | api/app.go:74-101 | a chosen index is in range and every version parses; the not-found error arises exactly for the empty list |
| Releases.SelectIndexIsFirstMin | api/app.go:74-96 | the chosen release has the lowest version, and it precedes every other of equal precedence |
| Releases.FirstMinUnique | api/app.go:91-94 | at most one index is the first minimum |
| Releases.SelectIndexSucceeds | api/app.go:74-103 | a non-empty list whose versions all parse yields a release |
| Releases.SelectIndexParseError | api/app.go:76-90 | the first version that does not parse aborts the selection with its error |
| Releases.SelectsLowestVersion | api/app.go:91-94 | of 2.0.0 and then 1.0.0 the selection returns 1.0.0 |
| Releases.SelectRelease | api/app.go:74-103 | the loop returns a copy of the first minimum entry, or the error of the selection |
| Releases.ReleaseOutcome | api/app.go:37-103 | no connection, a status of 400 or more (with the status and the body), an unreadable body and a failed decode are each errors; a success is one of the decoded releases |
| Releases.GetLatestReleaseV2 | api/app.go:30-104 | a nil id fails before any request; otherwise exactly one request is made to /apps/public/<id>?platform=<platform>, and its reply decides the outcome |
| InstallPlans.FirstOfType | download.go:22-32 | the index found is the first entity of the type, and none is found only when no entity has it |
| InstallPlans.OfType | download.go:91-97 | the kept entities all have the type and come from the list |
| InstallPlans.OfTypeAppend | download.go:91-97 | selection distributes over concatenation, so order is kept |
| InstallPlans.OfTypeComplete | download.go:91-97 | every entity of the type is kept |
| InstallPlans.OfTypeEmpty | download.go:91-101 | no release files are kept exactly when the list has no entity of that type |
| InstallPlans.TotalSize | download.go:111-117 | the total exists exactly when every size is present, and is below 2^64 |
| InstallPlans.TotalSizeIsSum | download.go:111-117 | the total is the sum of the sizes modulo 2^64 |
| InstallPlans.LayoutPaths | download.go:42-44 | the download path is wd/.tmp/downloads/<app id>/<release id>-<version> and the installation path is wd/apps/<app id>/<release id>-<version>, both canonical |
| InstallPlans.FixedNames | config/config.shared.go:11-13 | the directory names ".tmp", "downloads" and "apps" are ordinary path elements |
| InstallPlans.ReleaseDirIsName | download.go:42-44 | a version without a separator gives a single path element <release id>-<version> |
| InstallPlans.LayoutSeparate | download.go:108-109 | the download path and the installation path are disjoint trees |
| InstallPlans.MarkerOutsideTemp | download.go:72-82 | the version marker lies outside the download path, so removing that path keeps it |
| HttpDownload.DownloadProgressTracker.constructor | http/download.go:23-28 | a new tracker has Current 0, the given Total and no reports |
| HttpDownload.DownloadProgressTracker.Write | http/download.go:31-38 | Write returns len(p) and no error; Current grows by len(p) modulo 2^64, Total is unchanged, and the callback, when present, sees the new Current and Total |
| HttpDownload.Reports | http/download.go:31-38 | a download makes one callback call for each chunk that holds bytes; a read that returns no bytes writes nothing to the counter |
| HttpDownload.ReportsAt | http/download.go:33-35 | the calls follow the non-empty chunks in order: the call for chunk i comes after one call per earlier non-empty chunk and reports the bytes of the first i + 1 chunks, modulo 2^64, and the unchanged total |
| HttpDownload.EmptyChunksReportNothing | http/download.go:85-87 | a body whose reads return no bytes makes no callback call |
| HttpDownload.PreCheck | http/download.go:42-50 | an existing node at the path is removed and nothing else is; a stat error other than not-exist, or a failed removal, ends the download |
| HttpDownload.PreCheckRemovesFile | http/download.go:42-47 | an existing file is removed before anything is requested |
| HttpDownload.OnlyTargetAndParentsTrans | http/download.go:41-96 | two steps that each change only the target and add directories on the way to it make one such step |
| HttpDownload.OnlyTargetAndAncestors | http/download.go:67-68 | for a canonical absolute target, the nodes a download adds are the target and directories strictly above it |
| HttpDownload.ClearTarget | http/download.go:42-50 | the file system afterwards is what the stat-and-remove step computes, and it is unchanged on error; only the target is touched |
| HttpDownload.CreateTarget | http/download.go:67-76 | on success the path holds an empty file and every other node is kept; in every outcome the only new nodes are the target and the directories MkdirAll adds on the way to its directory |
| HttpDownload.DownloadFile | http/download.go:41-96 | a failed stat-and-remove step requests nothing; a connection error or a status other than 200 ends the download before any directory or file is made; on success the file holds the body and, with a counter, Total is the content length and the reports follow the chunks; in every outcome every node other than the target is kept and the only new nodes are the target and the directories made on the way to it |
| HttpDownload.CopyBody | http/download.go:85-93 | io.Copy writes each chunk through the counter into the file, skipping reads that return no bytes; a failed write stops it, and a failing body ends it with an error after its chunks |
| Archives.EntryResult | utils/utils.go:38-84 | an entry that does not open, or whose path fails the guard, changes nothing and is an error |
| Archives.InsideDestinationResolves | utils/utils.go:50-54 | the guard accepts an entry exactly when its parts, resolved on the destination's elements, strictly extend them |
| Archives.SameNodeRejected | utils/utils.go:50-54 | an entry that resolves back to the destination is refused |
| Archives.DestinationItselfRejected | utils/utils.go:50-54 | the entries "", "." and "./" are refused |
| Archives.RootDestinationRejectsAll | utils/utils.go:50-54 | under the root or the current directory every entry is refused |
| Archives.ParentRejected | utils/utils.go:50-54 | ".." is refused under an absolute destination |
| Archives.PlainNamesAccepted | utils/utils.go:50-54 | a path of ordinary names is accepted under any destination other than the root |
| Archives.RelativeParentPasses | utils/utils.go:50-54 | under the relative destination "..", the entry ".." passes and names "../.." |
| Archives.EntryConfined | utils/utils.go:56-81 | one entry changes only nodes below the destination; on success a directory entry is a directory and a file entry holds its content |
| Archives.EntriesConfined | utils/utils.go:86-91 | the entries change only nodes below the destination |
| Archives.ArchiveConfined | utils/utils.go:19-94 | extraction removes nothing and writes only below the destination or on the way to it |
| Archives.ExtractStops | utils/utils.go:86-91 | after the first failing entry no later entry runs, and what was written stays |
| Archives.ExtractFile | utils/utils.go:38-84 | one entry's effect on the file system and its error are those of the entry function |
| Archives.ExtractArchive | utils/utils.go:19-94 | the archive is opened, the destination is created, then the entries run in order; the effect is that of the extraction function |
| AppExecutables.ExecutableAt | utils/utils.go:97-163 | a lookup succeeds exactly when the absolute form of the candidate path (".exe" added on Windows) is a stored file that stat reports |
| AppExecutables.ExecutableById | utils/utils.go:97-117 | the lookup by id tries the id's text form |
| AppExecutables.ExecutableByName | utils/utils.go:120-140 | the lookup by name tries the name |
| AppExecutables.ExecutableByGenericName | utils/utils.go:143-163 | the generic lookup tries "Metaverse" |
| AppExecutables.LookupChain | utils/utils.go:186-204 | the lookups go in order, id (when not nil), then name (when not empty), then "Metaverse": a successful id lookup wins; a successful name lookup wins when the id lookup is skipped or fails; "Metaverse" wins only when both are skipped or fail; every result comes from one of the lookups, and the chain fails only when every lookup tried fails |
| AppExecutables.WalkOutcome | utils/utils.go:206-254 | a walk stopped by an error other than finding an executable, or than a check failing with io.EOF, fails the search |
| AppExecutables.FirstExecutableWins | utils/utils.go:242-245 | the first regular file judged executable is the result, whatever follows it |
| AppExecutables.LastRegularFallback | utils/utils.go:247-249 | when nothing stops the walk, the last regular file visited is the result, and it is not executable |
| AppExecutables.NoRegularFileNotFound | utils/utils.go:256-258 | a walk without a regular file finds nothing |
| AppExecutables.EOFKeepsEarlierFile | utils/utils.go:236-254 | a check failing with io.EOF ends the walk without an error, and the result is the last regular file before it, which was not executable |
| AppExecutables.EOFFirstNotFound | utils/utils.go:236-258 | a check failing with io.EOF before any regular file was visited leaves nothing found |
| AppExecutables.Settle | utils/utils.go:256-265 | an empty path is not found; any other is made absolute |
| AppExecutables.SearchWalk | utils/utils.go:206-265 | the walk loop returns the walk outcome |
| AppExecutables.FindAppExecutable | utils/utils.go:166-266 | without a working directory, or with a missing or unreadable applications directory, the search fails before any lookup; otherwise the lookup chain decides, and the walk decides when the chain fails |
| BinarySuffix.SuffixTable | models.go:16-43 | the suffix is the configuration of the lower-cased environment, with ".exe" on Windows |
| BinarySuffix.WindowsTable | models.go:19-30 | the Windows suffix is the configuration followed by ".exe" |
| BinarySuffix.WindowsAppendsExe | models.go:19-42 | every Windows result is the other systems' result with ".exe" appended |
| BinarySuffix.SuffixesKnown | models.go:9-14 | every configuration chosen is a known suffix, and every known suffix maps to true |
| BinarySuffix.UpperCaseProduction | models.go:17 | matching ignores case: "PRODUCTION" selects Shipping |
| BinarySuffix.UnknownEnvironment | models.go:30-41 | an unknown environment falls back to the development suffix: ".exe" on Windows, "" elsewhere |
| Entrypoint.Callback | helpers.go:17-54 | the walk stops at a walk error or at a candidate file that cannot be opened or checked; it records a candidate file that is executable; directories are skipped |
| Entrypoint.Chosen | helpers.go:23-50 | the chosen visit is recorded before the walk stops, and no later recorded visit precedes the stop |
| Entrypoint.ScanVisits | helpers.go:17-54 | the walk loop ends with the path of the last recorded visit before the stop, or "" |
| Entrypoint.MatchSurvivesLaterErrors | helpers.go:48-58 | a match is kept when a later visit stops the walk with an error |
| Entrypoint.ChosenHasPath | helpers.go:27 | a recorded path is not empty, since it contains "Binaries" |
| Entrypoint.FindEntrypoint | helpers.go:16-61 | no recorded path is the error "no entrypoint found"; otherwise the result is its absolute, canonical form |
| Entrypoint.ProjectNameOfBinary | helpers.go:64-71 | the project name of <dir>/<name><suffix> is name |
| Entrypoint.ProjectNameWithoutSuffix | helpers.go:64-71 | a base name without the suffix is the project name unchanged |
| Entrypoint.ProjectNameEmptySuffix | helpers.go:64-71 | with the empty suffix the project name is the base name |
| Installers.FindArchive | download.go:22-32 | the loop stops at the first release-archive entity, and finds none only when there is none |
| Installers.CollectReleaseFiles | download.go:91-97 | the loop keeps exactly the release entities, in order |
| Installers.SumSizes | download.go:111-117 | the loop computes the total; a missing size is an error |
| Installers.Accumulate | download.go:122-125 | the callback adds each raw cumulative value it reports, modulo 2^64 |
| Installers.Finish | download.go:65-82 | version parse, marker write and removal of the download path run in that order, each failure skipping the rest |
| Installers.FinishedInstalls | download.go:65-85 | after a full success the marker holds the encoded version, nothing is left under the download path, and every other node is kept |
| Installers.FinishKeepsDownload | download.go:65-82 | a failure in those steps leaves the download in place |
| Installers.ExtractionKeepsDownload | download.go:58-61 | extracting into the installation directory keeps the downloaded archive |
| Installers.ArchivePipeline | download.go:47-83 | download, extract, parse, write and remove run in that order, and each failure skips every later step; a download stopped by the stat-and-remove step before the request changes nothing; any other failed download touches only the download path and the directories made above it |
| Installers.InstallAppReleaseArchive | download.go:18-86 | a missing archive entity, working directory or size fails before any request; a failed download touches only the download path and the directories above it; after a download the download path holds the archive's bytes, every node the stat-and-remove step left is kept, and the tree after extraction is the archive's entries extracted into the installation path; success means the archive decoded, the version parsed and was written into that tree, and the download path is gone; a failure after the download leaves it in place |
| Installers.DownloadOne | download.go:121-131 | one download through a fresh counter whose total is the total size; its reports follow the body's chunks; it touches only the download path and the directories above it |
| Installers.DownloadAll | download.go:121-131 | every file is downloaded in turn to the same path whatever earlier downloads did; the progress is the sum of all reports; together they touch only the download path and the directories above it |
| Installers.MoveFiles | download.go:133-142 | the move loop's effect is that of the move function: files without an original path are skipped, each rename moves a file or a whole directory, and a failed rename leaves the tree as it was and the loop goes on |
| FileSystems.RenameMovesSubtree | download.go:138 | a rename whose source is a directory moves every node below it to the same place below the target, leaves nothing at or below the source, and keeps every other node |
| Installers.RenameUnderFileFails | download.go:138-141 | a rename from below a path that holds a file changes nothing |
| Installers.MovesUnderFileAreNoOps | download.go:133-142 | when the download path holds a file, every move whose original path names something strictly inside the download path is a no-op |
| Installers.EmptyOriginalPathMovesDownload | download.go:138 | an empty original path joins to the download path itself, so the downloaded file is renamed onto the installation path when that path's parent directory exists |
| Installers.MoveAndFinish | download.go:133-157 | the moves, then parse, write and remove |
| Installers.InstallAppRelease | download.go:88-160 | no release files, no working directory or a missing size fails before any request; otherwise every file is requested in order, and the downloads touch only the download path and the directories above it, which holds the last file's bytes when the last download succeeded; the moves run on that tree, then the final steps |
| Installers.ProgressOvercounts | download.go:122-125 | two one-byte chunks report a total progress of 3, not 2 |
| Installers.TwoChunkReports | http/download.go:31-38 | two one-byte chunks make the calls (1, total) and then (2, total) |
| Server.QueryGet | server.go:39 | a missing key reads as "", otherwise the first value |
| Server.ClosesExactly | server.go:39-55 | the session is closed exactly when it is running and the count is a well-formed number of at least 20, or a positive count too large for an int |
| Server.MissingCountKeepsSession | server.go:39-46 | a missing count never closes the session |
| Server.NonNumericCountKeepsSession | server.go:39-46 | neither does a short count with a non-digit |
| Server.RunningClosesFromTwenty | server.go:48-55 | a running session is closed from the twentieth check on |
| Server.OnlyRunningCloses | server.go:48 | a session in any other state is never closed |
| Server.ResponseWriter.WriteHeader | server.go:36-57 | the first status code written is the one sent |
| Server.ResponseWriter.Write | server.go:67 | a body without an earlier status code sends 200 |
| Server.StatusBody | server.go:56-68 | the echo is the object {"sessionStatus": status} |
| Server.HealthCheck | server.go:32-70 | a nil session panics; a failed fetch or a malformed count writes 500; a closed session gets no body and a refused close writes 500; otherwise the status is echoed with 200 |
| Server.CloseSession | server.go:72-83 | "closed" is sent and the context is cancelled whatever the service answers; a refusal writes 500 |
| Sessions.StatusService.SetInstanceStatus | main.go:95 | each instance status call is recorded in order, and its answer is the service's |
| Sessions.StatusService.SetSessionStatus | main.go:120-123 | each session status call is recorded in order, and its answer is the service's |
| Launcher.EnvironmentOf | main.go:52-54 | an empty -env flag is replaced by a non-empty default, and any other flag is kept (a statement of init on its own: the launcher's settings take the environment name as already defaulted) |
| Launcher.Arguments | main.go:197-199 | the six fixed flags, then the launcher's own arguments after its name |
| Launcher.BuildCommand | main.go:177-206 | the command runs the normalised entrypoint with those arguments in the project directory |
| Launcher.ProjectDirOfDeep | main.go:180 | four Dir steps plus "/" name the directory four levels above the entrypoint |
| Launcher.NormalisationRebases | main.go:180-188 | a deep absolute entrypoint becomes the path relative to the project directory, and joining them gives it back |
| Launcher.StripPrefix | main.go:182-188 | with more than three separators and no project-name prefix, the first occurrence of the project directory is removed |
| Launcher.NotUnderProjectName | main.go:184 | an absolute entrypoint never starts with its project name |
| Launcher.ShallowEntrypointKept | main.go:180-188 | an entrypoint four levels below the root has project directory "//" and is kept |
| Launcher.ProjectDirOfFour | main.go:180 | four levels below the root give the project directory "//" |
| Launcher.KeptWithoutProjectDir | main.go:186 | an entrypoint not containing the project directory is kept |
| Launcher.NoDoubleSlash | main.go:180-188 | a canonical entrypoint never contains "//" |
| Launcher.RenderSlashes | main.go:182 | a canonical path of n elements has n separators |
| Launcher.AfterWait | main.go:235-260 | every wait outcome sends "closed" first; a refused close is fatal; a normal exit returns; an exit code or another wait error is fatal |
| Launcher.Reached | main.go:117-163 | the number of session statuses sent before the outcome: "starting", then "running", then "closed" |
| Launcher.StartOutcome | main.go:231-260 | a process that does not start is fatal before "closed"; otherwise "closed" is reached |
| Launcher.RunAppOutcome | main.go:169-263 | "closed" is reached exactly when an entrypoint is found and the process starts |
| Launcher.FirstReady | main.go:101-113 | polling ends at the first poll returning a session with an id |
| Launcher.FirstReadyIs | main.go:101-113 | that poll is the first such poll |
| Launcher.Install | main.go:137-147 | the archive flag selects the installer; success means that installer's entity was there |
| Launcher.Launcher.constructor | main.go:46-61 | the session starts empty and nothing is launched |
| Launcher.Launcher.Poll | main.go:101-113 | the session global is the first ready poll's session, or the last poll's when none is ready |
| Launcher.Launcher.RunApp | main.go:169-263 | the entrypoint is located in apps/<app id>/<release id>-<version>; the command is built from it; "closed" is sent exactly when the process starts, and the outcome follows |
| Launcher.Launcher.Prepare | main.go:172-206 | the entrypoint search and the command, without side effects |
| Launcher.Launcher.StartAndWait | main.go:231-260 | start, then wait, then "closed" |
| Launcher.Launcher.Resolve | main.go:120-135 | "starting" is sent first and its refusal is fatal; a missing app id, a failed release fetch or a release without files is fatal before any install |
| Launcher.Launcher.InstallLatest | main.go:137-147 | an installer failure is fatal; success means the release is installable |
| Launcher.Launcher.Start | main.go:149-157 | "running" is sent after the install and its refusal is fatal; isAppLaunch is set and the app runs |
| Launcher.Launcher.Launch | main.go:117-160 | the session statuses sent are a prefix of starting, running, closed, ending where the first fatal error stops; the app runs only after a resolved, installable release |
| Launcher.Launcher.Run | main.go:63-167 | "free" is sent once before polling; with no ready poll nothing else is sent; otherwise the status prefix follows; the count of loop passes that reach runApp is at most 1, and it is 1 exactly when the launch was recorded |

## Left out

- http.go is not part of this model beyond its effect. Its calls appear as recorded status calls with fixed answers (`Sessions.StatusService`) and as poll and fetch outcomes (`Launcher.Pending`, `Server.Fetch`). Its envelope branch ("error", "ok", anything else) is folded into those outcomes. Its own `downloadFile` is not used by the installers.
- api/auth.go, the login call, database/clickhouse.go and `ClearUserData` are not part of this model: these are token acquisition, a metrics sink and OS-specific deletion, with no decisions the launcher depends on.
- Concurrency and timing are out: the web-server goroutine, `time.Sleep`, waiting on the context, and the goroutine that drains the child's standard output (including its fatal read error). The handlers are modelled as separate calls on the state they read.
- Process spawning, `cmd.Start` and `cmd.Wait` are inputs (`Launcher.Host`): whether the start fails and how the wait ends. A failure of `StdoutPipe` is not modelled.
- `cmd` is a value returned by `Launcher.Launcher.RunApp` rather than a global, since only `runApp` uses it. `cmd.Env = os.Environ()` is not modelled.
- Foreign libraries are functions passed in:
  - zip decoding (`Archives.Unzip`);
  - JSON decoding (`Releases.Decoder`);
  - version parsing (`SemVer.Parser`);
  - `executable.IsExecutable` together with `os.Open` (`Walks.Prober`). A check that fails with io.EOF is an outcome of its own (`Walks.CheckEOF`), because FindAppExecutable takes io.EOF for the normal end of its walk. Open, file-information and walk errors are `*PathError` values and never io.EOF;
  - the platform name.
- The session service's refusals are a fixed predicate on the call, not a protocol.
- Log output, file modes and the closing of files and bodies are not modelled.
- The file-system model has no symbolic links. The traversal guard in utils/utils.go is lexical, and `os.OpenFile` follows a link already present below the destination, so `Archives.ArchiveConfined` relies on links being absent.
- Paths use '/' only. Windows separators and volume names are not modelled, though the Windows ".exe" suffix rules are.
- Strings.ToLower: only the characters that can turn into an ASCII letter are lowered, since the result is only compared with lower-case ASCII words.
- HttpDownload.DownloadFile: a `Content-Length` of -1 (unknown) is stored as 2^64 - 1, the uint64 conversion of -1; the HTTP status line text is reduced to the status code.
- Installers.CollectReleaseFiles: each collected entry is a copy of its entity, as Go 1.22 and later give the per-iteration variable behind `&file` (download.go:95). Under the older loop semantics every collected pointer would name the one loop variable, which ends up holding the last entity of the list. Then totalSize would be n times that entity's size, and a nil size there would panic. Every download would fetch that entity's URL, and every move would use its original path. The model does not capture that aliasing.
- Releases.SelectRelease: the selected entry is a copy. Whether Go's `&release` aliases the loop variable depends on the Go version named in the module file, which is not part of this model.

## Where the code and its documentation differ

The model follows the code in each case below.

- **Release selection picks the lowest version.** `GetLatestReleaseV2` is documented as returning the latest release (api/app.go:29). But api/app.go:91-94 replaces the candidate only when the tracked version is greater than the new one, so the code returns the release with the lowest version, the first among equals (`Releases.SelectIndexIsFirstMin`, `Releases.SelectsLowestVersion`).
- **Total progress over-counts.** The comment at download.go:123 says the callback reports total progress across files. It adds up raw cumulative values, so two one-byte chunks add up to 3 (`Installers.ProgressOvercounts`). That total is also never reported anywhere.
- **The tracker's total is overwritten.** Each tracker is built with the release's total size, but `DownloadFile` overwrites `Total` with the response's content length (http/download.go:86).
- **Multi-file moves mostly do nothing.** Every file of a multi-file release is downloaded to the same path, so the path ends up holding a file. A move whose original path names something strictly inside the download path then renames from below that file, which always fails, and the failure is ignored (`Installers.MovesUnderFileAreNoOps`). The exception is an original path that resolves to the download path itself, such as "", "." or "x/..": that move renames the downloaded file onto the installation path, provided the installation path's parent directory exists (`Installers.EmptyOriginalPathMovesDownload`). An original path that climbs out of the download path ("../x") renames whatever it names: a file, or a directory with everything below it (`FileSystems.RenameMovesSubtree`). For example, ".." names the directory holding the download path, and the move would take it, the download included, to the directory holding the installation path, provided that place sits in an existing directory and is free or an empty directory. The installation directory is not created before the moves either.
- **The traversal guard has gaps.**
  - It accepts ".." when the destination is a relative ".." (`Archives.RelativeParentPasses`).
  - It refuses every entry when the destination is "/" (`Archives.RootDestinationRejectsAll`).
  - Under an absolute destination it does keep every write inside the destination (`Archives.ArchiveConfined`).
- **A nil size panics.** A release file without a size makes the installers dereference nil and panic. The model reports this as `SizeMissing`, before any download, where the panic would occur.
- **Handlers panic on a nil session.** The handlers dereference the session global and the fetched session without a nil check. The model reports this as a panic outcome (`Server.HealthCheck`, `Server.CloseSession`).
- **An oversized count still closes.** A `totalCheck` too large for an int makes `Atoi` fail. The handler writes 500 but goes on with the clamped value, so the session is closed (`Server.ClosesExactly`).
- **Shallow entrypoints.** An entrypoint only four levels below the root gets the project directory "//" (`Launcher.ShallowEntrypointKept`).
- **Odd exits return normally.** A process whose exit error carries no wait status sends "closed" and returns normally, as a clean exit does (`Launcher.AfterWait`).
- **Fatal messages can panic.** A nil release without an error would call `err.Error()` on nil and panic, and the same holds for an entrypoint that is empty without an error. Both are fatal in the model, as the panic is.
