/** File downloads with a progress counter (http/download.go). */
module HttpDownload {
  import opened Wrappers
  import opened Numeric
  import opened Paths
  import opened FileSystems
  import opened Network
  import opened Strings

  /** The success status DownloadFile accepts. */
  const StatusOk := 200

  datatype DownloadError =
    | StatFailed(cause: FsError)
    | RemoveFailed(cause: FsError)
    | RequestFailed
    | BadStatus(url: string, path: string, status: int)
    | MkdirFailed(cause: FsError)
    | CreateFailed(cause: FsError)
    | WriteFailed(cause: FsError)
    | BodyReadFailed

  /**
   * The io.Writer that counts downloaded bytes. Current and Total are uint64; the progress
   * callback is modelled by whether it is present and by the list of (current, total) pairs it
   * is called with.
   */
  class DownloadProgressTracker {
    var current: nat
    var total: nat
    const hasProgress: bool
    var reports: seq<(nat, nat)>

    ghost predicate Valid()
      reads this
    {
      current < TWO_64 && total < TWO_64
    }

    /** NewDownloadProgressTracker. */
    constructor (total0: nat, progress: bool)
      requires total0 < TWO_64
      ensures Valid()
      ensures current == 0 && total == total0 && hasProgress == progress && reports == []
    {
      current, total, hasProgress, reports := 0, total0, progress, [];
    }

    /** Write always accepts all of p: Current grows by len(p), wrapping at 2^64, and the callback sees the new Current. */
    method Write(p: seq<byte>) returns (n: nat, err: Option<DownloadError>)
      requires Valid()
      modifies this
      ensures Valid()
      ensures n == |p| && err.None?
      ensures current == U64(old(current) + |p|) && total == old(total)
      ensures reports == if hasProgress then old(reports) + [(current, total)] else old(reports)
    {
      n := |p|;
      current := U64(current + n);
      if hasProgress {
        reports := reports + [(current, total)];
      }
      err := None;
    }
  }

  /** The number of chunks that hold at least one byte. */
  function NonEmptyCount(chunks: seq<seq<byte>>): (n: nat)
    ensures n <= |chunks|
  {
    if chunks == [] then 0
    else NonEmptyCount(chunks[..|chunks| - 1]) + (if chunks[|chunks| - 1] == [] then 0 else 1)
  }

  /**
   * The callback calls a tracker makes while writing the chunks, starting from current c0. A read
   * that returns no bytes writes nothing to the tracker (io.TeeReader writes only when n > 0).
   */
  function Reports(c0: nat, total: nat, chunks: seq<seq<byte>>): (r: seq<(nat, nat)>)
    ensures |r| == NonEmptyCount(chunks)
  {
    if chunks == [] then []
    else
      Reports(c0, total, chunks[..|chunks| - 1]) +
      (if chunks[|chunks| - 1] == [] then [] else [(U64(c0 + |Concat(chunks)|), total)])
  }

  /**
   * Each non-empty chunk makes one call, in order: the call for chunk i comes after one call for
   * each earlier non-empty chunk, and it reports the bytes of the first i + 1 chunks, modulo 2^64,
   * with the unchanged total.
   */
  lemma {:induction false} ReportsAt(c0: nat, total: nat, chunks: seq<seq<byte>>, i: nat)
    requires i < |chunks| && chunks[i] != []
    ensures NonEmptyCount(chunks[..i]) < |Reports(c0, total, chunks)|
    ensures Reports(c0, total, chunks)[NonEmptyCount(chunks[..i])] == (U64(c0 + |Concat(chunks[..i + 1])|), total)
    decreases |chunks|
  {
    var init := chunks[..|chunks| - 1];
    var r := Reports(c0, total, init);
    if i == |chunks| - 1 {
      assert chunks[..i + 1] == chunks;
      assert chunks[..i] == init;
    } else {
      ReportsAt(c0, total, init, i);
      assert init[..i + 1] == chunks[..i + 1];
      assert init[..i] == chunks[..i];
      assert (Reports(c0, total, chunks))[NonEmptyCount(chunks[..i])] == r[NonEmptyCount(chunks[..i])];
    }
  }

  /** A chunk that holds bytes adds one call, reporting the bytes of all chunks so far. */
  lemma ReportsSnoc(c0: nat, total: nat, chunks: seq<seq<byte>>, chunk: seq<byte>)
    requires chunk != []
    ensures Reports(c0, total, chunks + [chunk]) ==
      Reports(c0, total, chunks) + [(U64(c0 + |Concat(chunks)| + |chunk|), total)]
  {
    var all := chunks + [chunk];
    assert all[..|all| - 1] == chunks;
    assert Concat(all) == Concat(chunks) + chunk;
  }

  /** Chunks without bytes make no calls at all. */
  lemma {:induction false} EmptyChunksReportNothing(c0: nat, total: nat, chunks: seq<seq<byte>>)
    requires forall i :: 0 <= i < |chunks| ==> chunks[i] == []
    ensures Reports(c0, total, chunks) == []
    decreases |chunks|
  {
    if chunks != [] {
      var init := chunks[..|chunks| - 1];
      assert forall i :: 0 <= i < |init| ==> init[i] == chunks[i];
      EmptyChunksReportNothing(c0, total, init);
    }
  }

  lemma ReportsStep(c0: nat, total: nat, chunks: seq<seq<byte>>, i: nat)
    requires i < |chunks|
    ensures Reports(c0, total, chunks[..i + 1]) ==
      Reports(c0, total, chunks[..i]) + (if chunks[i] == [] then [] else [(U64(c0 + |Concat(chunks[..i + 1])|), total)])
  {
    assert chunks[..i + 1][..i] == chunks[..i];
  }

  /**
   * The stat-and-remove step before the request: an existing node at the path is removed, a
   * missing one is fine, and any other stat error, or a failed removal, ends the download.
   */
  function PreCheck(fs: FileSystem, path: string): (r: Result<Tree, DownloadError>)
    reads fs
    requires fs.Valid()
    ensures r.Success? ==> IsTree(r.value)
    ensures r.Success? && path != "" ==> fs.Locate(path) !in r.value
    ensures r.Success? ==> forall c :: c in r.value <==> c in fs.nodes && (path == "" || c != fs.Locate(path))
    ensures r.Success? ==> forall c :: c in r.value ==> r.value[c] == fs.nodes[c]
    ensures fs.Stat(path).Failure? && !fs.Stat(path).error.NotExist? ==> r == Failure(StatFailed(fs.Stat(path).error))
  {
    match fs.Stat(path)
    case Success(_) =>
      var o := RemoveTree(fs.nodes, fs.Locate(path), fs.faults);
      if o.err.Some? then Failure(RemoveFailed(o.err.value)) else Success(o.tree)
    case Failure(e) => if e.NotExist? then Success(fs.nodes) else Failure(StatFailed(e))
  }

  /** The error ends the download in its stat-and-remove step. */
  predicate PreCheckError(err: Option<DownloadError>) {
    err.Some? && (err.value.StatFailed? || err.value.RemoveFailed?)
  }

  /** An existing file is removed before anything is requested. */
  lemma PreCheckRemovesFile(fs: FileSystem, path: string)
    requires fs.Valid() && path != "" && fs.Locate(path) in fs.nodes && fs.nodes[fs.Locate(path)].File?
    requires (StatOp, fs.Locate(path)) !in fs.faults && (RemoveOp, fs.Locate(path)) !in fs.faults
    ensures PreCheck(fs, path) == Success(fs.nodes - {fs.Locate(path)})
  {
  }

  /**
   * What a download may do to the tree m0 to reach m1: every node other than the target is kept,
   * and every new node is the target or one of the directories MkdirAll creates on the way to the
   * target's directory.
   */
  ghost predicate OnlyTargetAndParents(fs: FileSystem, m0: Tree, m1: Tree, path: string)
    requires Canonical(fs.cwd)
  {
    (forall c :: c in m0 && (path == "" || c != fs.Locate(path)) ==> c in m1 && m1[c] == m0[c]) &&
    (forall c :: c in m1 && c !in m0 ==>
      (path != "" && c == fs.Locate(path)) || (m1[c].Directory? && c <= fs.Locate(Dir(path))))
  }

  /** Two such steps make one. */
  lemma OnlyTargetAndParentsTrans(fs: FileSystem, m0: Tree, m1: Tree, m2: Tree, path: string)
    requires Canonical(fs.cwd)
    requires OnlyTargetAndParents(fs, m0, m1, path) && OnlyTargetAndParents(fs, m1, m2, path)
    ensures OnlyTargetAndParents(fs, m0, m2, path)
  {
    forall c | c in m2 && c !in m0
      ensures (path != "" && c == fs.Locate(path)) || (m2[c].Directory? && c <= fs.Locate(Dir(path)))
    {
      if c in m1 && (path == "" || c != fs.Locate(path)) {
        assert m2[c] == m1[c];
      }
    }
  }

  /**
   * For a canonical absolute target, the directories a download adds lie strictly above the
   * target: the new nodes are the target and some of its ancestors.
   */
  lemma OnlyTargetAndAncestors(fs: FileSystem, m0: Tree, m1: Tree, path: Path)
    requires Canonical(fs.cwd) && Canonical(path) && path != "/"
    requires OnlyTargetAndParents(fs, m0, m1, path)
    ensures forall c :: c in m1 && c !in m0 ==> c == fs.Locate(path) || (c < fs.Locate(path) && m1[c].Directory?)
  {
    ElemsDir(path);
    assert fs.Locate(path) == Elems(path);
    assert fs.Locate(Dir(path)) == Up(Elems(path));
    forall c | c in m1 && c !in m0 && c != fs.Locate(path)
      ensures c < fs.Locate(path) && m1[c].Directory?
    {
      PrefixOfUp(c, Elems(path));
    }
  }

  /** The stat-and-remove step of DownloadFile. */
  method ClearTarget(fs: FileSystem, path: string) returns (err: Option<DownloadError>)
    requires fs.Valid()
    modifies fs
    ensures fs.Valid()
    ensures err.Some? <==> old(PreCheck(fs, path)).Failure?
    ensures err.Some? ==> err == Some(old(PreCheck(fs, path)).error) && fs.nodes == old(fs.nodes)
    ensures err.None? ==> fs.nodes == old(PreCheck(fs, path)).value
    ensures OnlyTargetAndParents(fs, old(fs.nodes), fs.nodes, path)
  {
    var pre := PreCheck(fs, path);
    if pre.Failure? {
      return Some(pre.error);
    }
    if fs.Stat(path).Success? {
      var e := fs.Remove(path);
    }
    err := None;
  }

  /** The parent directories and the empty file a download writes into. */
  method CreateTarget(fs: FileSystem, path: string) returns (err: Option<DownloadError>)
    requires fs.Valid()
    modifies fs
    ensures fs.Valid()
    ensures err.Some? ==> err.value.MkdirFailed? || err.value.CreateFailed?
    ensures err.None? ==>
      path != "" && fs.Locate(path) in fs.nodes && fs.nodes[fs.Locate(path)] == File([]) &&
      Keeps(old(fs.nodes) - {fs.Locate(path)}, fs.nodes)
    ensures OnlyTargetAndParents(fs, old(fs.nodes), fs.nodes, path)
  {
    var e := fs.MkdirAll(Dir(path));
    assert OnlyTargetAndParents(fs, old(fs.nodes), fs.nodes, path);
    if e.Some? {
      return Some(MkdirFailed(e.value));
    }
    ghost var made := fs.nodes;
    e := fs.Create(path);
    assert OnlyTargetAndParents(fs, made, fs.nodes, path);
    OnlyTargetAndParentsTrans(fs, old(fs.nodes), made, fs.nodes, path);
    if e.Some? {
      return Some(CreateFailed(e.value));
    }
    assert Keeps(old(fs.nodes), made);
    err := None;
  }

  /** DownloadFile: pre-check, request, status check, parent directories, create, and the copy through the counter. */
  method DownloadFile(fs: FileSystem, net: Network, path: string, url: string, counter: DownloadProgressTracker?)
    returns (err: Option<DownloadError>)
    requires fs.Valid() && (counter != null ==> counter.Valid())
    modifies fs, net, counter
    ensures fs.Valid() && (counter != null ==> counter.Valid())
    ensures old(PreCheck(fs, path)).Failure? ==>
      err == Some(old(PreCheck(fs, path)).error) && fs.nodes == old(fs.nodes) && net.requested == old(net.requested)
    ensures old(PreCheck(fs, path)).Success? ==> net.requested == old(net.requested) + [url]
    ensures PreCheckError(err) <==> old(PreCheck(fs, path)).Failure?
    ensures old(PreCheck(fs, path)).Success? && net.serve(url).Unreachable? ==>
      err == Some(RequestFailed) && fs.nodes == old(PreCheck(fs, path)).value
    ensures old(PreCheck(fs, path)).Success? && net.serve(url).Response? && net.serve(url).status != StatusOk ==>
      err == Some(BadStatus(url, path, net.serve(url).status)) && fs.nodes == old(PreCheck(fs, path)).value
    ensures counter != null && err.Some? && !err.value.WriteFailed? && !err.value.BodyReadFailed? ==>
      counter.current == old(counter.current) && counter.total == old(counter.total) && counter.reports == old(counter.reports)
    ensures err.None? || err == Some(BodyReadFailed) ==>
      old(PreCheck(fs, path)).Success? && net.serve(url).Response? && net.serve(url).status == StatusOk &&
      path != "" && fs.Locate(path) in fs.nodes && fs.nodes[fs.Locate(path)] == File(Concat(net.serve(url).chunks)) &&
      Keeps(old(PreCheck(fs, path)).value, fs.nodes) &&
      (counter != null ==>
        Counted(counter, old(counter.current), U64(net.serve(url).contentLength), old(counter.reports), net.serve(url).chunks))
    ensures err.None? ==> !net.serve(url).bodyFails
    ensures err == Some(BodyReadFailed) ==> net.serve(url).bodyFails
    ensures OnlyTargetAndParents(fs, old(fs.nodes), fs.nodes, path)
  {
    ghost var pre := PreCheck(fs, path);
    ghost var m0 := fs.nodes;
    err := ClearTarget(fs, path);
    if err.Some? {
      return;
    }
    ghost var m1 := fs.nodes;
    var reply := net.Get(url);
    if reply.Unreachable? {
      return Some(RequestFailed);
    }
    if reply.status != StatusOk {
      return Some(BadStatus(url, path, reply.status));
    }
    err := CreateTarget(fs, path);
    OnlyTargetAndParentsTrans(fs, m0, m1, fs.nodes, path);
    if err.Some? {
      return;
    }
    ghost var m2 := fs.nodes;
    assert Keeps(pre.value, fs.nodes);
    if counter != null {
      counter.total := U64(reply.contentLength);
    }
    err := CopyBody(fs, path, reply.chunks, reply.bodyFails, counter);
    OnlyTargetAndParentsTrans(fs, m0, m2, fs.nodes, path);
  }

  /** What a tracker holds after counting the chunks done, starting from current c0, total t0 and reports r0. */
  ghost predicate Counted(counter: DownloadProgressTracker, c0: nat, t0: nat, r0: seq<(nat, nat)>, done: seq<seq<byte>>)
    reads counter
  {
    counter.Valid() && counter.total == t0 && counter.current == U64(c0 + |Concat(done)|) &&
    counter.reports == r0 + (if counter.hasProgress then Reports(c0, t0, done) else [])
  }

  /** The io.TeeReader half of one read: a chunk that holds bytes is written to the counter. */
  method Tee(counter: DownloadProgressTracker, ghost c0: nat, ghost t0: nat, ghost r0: seq<(nat, nat)>,
             ghost done: seq<seq<byte>>, chunk: seq<byte>)
    requires Counted(counter, c0, t0, r0, done)
    modifies counter
    ensures Counted(counter, c0, t0, r0, done + [chunk])
    ensures chunk == [] ==> counter.current == old(counter.current) && counter.reports == old(counter.reports)
  {
    ghost var all := done + [chunk];
    assert all[..|done|] == done;
    assert Concat(all) == Concat(done) + chunk;
    if chunk != [] {
      U64Add(c0 + |Concat(done)|, |chunk|);
      var _, _ := counter.Write(chunk);
    }
    assert Reports(c0, t0, all) == Reports(c0, t0, done) + (if chunk == [] then [] else [(U64(c0 + |Concat(all)|), t0)]);
  }

  /**
   * One read of io.Copy: the chunk goes through the counter, when there is one, and then, when it
   * holds bytes, into the file.
   */
  method CopyChunk(fs: FileSystem, path: string, chunk: seq<byte>, counter: DownloadProgressTracker?,
                   ghost c0: nat, ghost t0: nat, ghost r0: seq<(nat, nat)>, ghost done: seq<seq<byte>>)
    returns (err: Option<FsError>)
    requires fs.Valid() && path != "" && fs.Locate(path) in fs.nodes && fs.nodes[fs.Locate(path)] == File(Concat(done))
    requires counter != null ==> Counted(counter, c0, t0, r0, done)
    modifies fs, counter
    ensures fs.Valid()
    ensures counter != null ==> Counted(counter, c0, t0, r0, done + [chunk])
    ensures err.None? ==> fs.nodes == old(fs.nodes)[fs.Locate(path) := File(Concat(done + [chunk]))]
    ensures err.Some? ==> fs.nodes == old(fs.nodes)
    ensures chunk == [] ==> err.None? && fs.nodes == old(fs.nodes)
  {
    if counter != null {
      Tee(counter, c0, t0, r0, done, chunk);
    }
    assert (done + [chunk])[..|done|] == done;
    if chunk == [] {
      assert Concat(done + [chunk]) == Concat(done);
      assert fs.nodes[fs.Locate(path) := File(Concat(done + [chunk]))] == fs.nodes;
      return None;
    }
    err := fs.Append(path, chunk);
  }

  /**
   * io.Copy from the response body into the created file, through io.TeeReader into the counter
   * when there is one: each chunk goes to the counter first and then to the file; a failed file
   * write stops the copy, and a body that fails after its chunks ends it with an error.
   */
  method CopyBody(fs: FileSystem, path: string, chunks: seq<seq<byte>>, bodyFails: bool, counter: DownloadProgressTracker?)
    returns (err: Option<DownloadError>)
    requires fs.Valid() && path != "" && fs.Locate(path) in fs.nodes && fs.nodes[fs.Locate(path)] == File([])
    requires counter != null ==> counter.Valid()
    modifies fs, counter
    ensures fs.Valid() && (counter != null ==> counter.Valid())
    ensures err.None? || err.value.WriteFailed? || err == Some(BodyReadFailed)
    ensures err == Some(BodyReadFailed) <==> bodyFails && !(err.Some? && err.value.WriteFailed?)
    ensures !(err.Some? && err.value.WriteFailed?) ==> fs.nodes == old(fs.nodes)[fs.Locate(path) := File(Concat(chunks))]
    ensures counter != null ==> counter.total == old(counter.total)
    ensures counter != null && !(err.Some? && err.value.WriteFailed?) ==>
      Counted(counter, old(counter.current), old(counter.total), old(counter.reports), chunks)
    ensures OnlyTargetAndParents(fs, old(fs.nodes), fs.nodes, path)
  {
    ghost var c0 := 0;
    ghost var t0 := 0;
    ghost var r0: seq<(nat, nat)> := [];
    if counter != null {
      c0, t0, r0 := counter.current, counter.total, counter.reports;
      assert Counted(counter, c0, t0, r0, []);
    }
    var e := CopyChunks(fs, path, chunks, counter, c0, t0, r0);
    if e.Some? {
      return Some(WriteFailed(e.value));
    }
    if bodyFails {
      return Some(BodyReadFailed);
    }
    err := None;
  }

  /** The read-write loop of io.Copy over the chunks of the body. */
  method CopyChunks(fs: FileSystem, path: string, chunks: seq<seq<byte>>, counter: DownloadProgressTracker?,
                    ghost c0: nat, ghost t0: nat, ghost r0: seq<(nat, nat)>)
    returns (err: Option<FsError>)
    requires fs.Valid() && path != "" && fs.Locate(path) in fs.nodes && fs.nodes[fs.Locate(path)] == File([])
    requires counter != null ==> Counted(counter, c0, t0, r0, [])
    modifies fs, counter
    ensures fs.Valid()
    ensures counter != null ==> counter.Valid() && counter.total == t0
    ensures err.None? ==> fs.nodes == old(fs.nodes)[fs.Locate(path) := File(Concat(chunks))]
    ensures err.None? && counter != null ==> Counted(counter, c0, t0, r0, chunks)
    ensures OnlyTargetAndParents(fs, old(fs.nodes), fs.nodes, path)
  {
    ghost var start := fs.nodes;
    ghost var k := fs.Locate(path);
    ghost var done: seq<seq<byte>> := [];
    var i := 0;
    while i < |chunks|
      invariant 0 <= i <= |chunks| && done == chunks[..i]
      invariant fs.Valid() && fs.nodes == start[k := File(Concat(done))]
      invariant counter != null ==> Counted(counter, c0, t0, r0, done)
    {
      err := CopyChunk(fs, path, chunks[i], counter, c0, t0, r0, done);
      if err.Some? {
        return;
      }
      UpdateTwice(start, k, File(Concat(done)), File(Concat(done + [chunks[i]])));
      PrefixStep(chunks, i);
      done := done + [chunks[i]];
      i := i + 1;
    }
    PrefixAll(chunks);
    err := None;
  }
}
