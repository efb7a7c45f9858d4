/**
 * ExtractArchive (utils/utils.go:19-94): the destination directory is created, then the
 * archive's entries are written in archive order; the first failing entry ends the extraction
 * and what was already written stays. An entry's target is the destination joined with the
 * entry's name, and it is refused unless that path starts with the cleaned destination and a
 * separator.
 *
 * Zip decoding is a library: the archive file's bytes are turned into entries by a partial
 * function given as a parameter. Each entry says whether it opens, and which bytes its reader
 * delivers before it ends or fails.
 */
module Archives {
  import opened Wrappers
  import opened Strings
  import opened Paths
  import opened FileSystems
  import opened Numeric

  datatype Entry = Entry(name: string, isDir: bool, opens: bool, content: seq<byte>, readFails: bool)

  /** zip.OpenReader applied to the archive file's bytes. */
  type Unzip = seq<byte> -> Option<seq<Entry>>

  datatype ExtractError =
    | OpenArchiveFailed
    | DestinationFailed(cause: FsError)
    | EntryOpenFailed(name: string)
    | IllegalPath(path: string)
    | DirectoryFailed(cause: FsError)
    | FileOpenFailed(cause: FsError)
    | WriteFailed(writeCause: Option<FsError>)

  /** The tree after extraction and the error it reports. */
  datatype Extraction = Extraction(tree: Tree, err: Option<ExtractError>)

  /** The traversal guard: the joined target must start with the cleaned destination and a separator. */
  predicate InsideDestination(dest: string, name: string) {
    HasPrefix(Join(dest, name), Clean(dest) + "/")
  }

  /** k lies strictly below d. */
  predicate Below(k: Key, d: Key) {
    |k| > |d| && k[..|d|] == d
  }

  /** k is stored in m1 and is new or different from what m0 holds there. */
  predicate Touched(m0: Tree, m1: Tree, k: Key) {
    k in m1 && (k !in m0 || m1[k] != m0[k])
  }

  /** Going from m0 to m1 removes nothing and changes only nodes strictly below d. */
  ghost predicate Confined(m0: Tree, m1: Tree, d: Key) {
    (forall k :: k in m0 ==> k in m1) && (forall k :: Touched(m0, m1, k) ==> Below(k, d))
  }

  // ---------------------------------------------------------------------------------------
  // The file system calls of an extraction, on a given tree

  function MkdirAllAt(fs: FileSystem, m: Tree, p: string): (r: Outcome)
    requires Canonical(fs.cwd) && IsTree(m)
    ensures IsTree(r.tree)
  {
    if p == "" then Outcome(m, Some(NotExist([]))) else MkdirAllTree(m, fs.Locate(p), fs.faults)
  }

  function CreateAt(fs: FileSystem, m: Tree, p: string): (r: Outcome)
    requires Canonical(fs.cwd) && IsTree(m)
    ensures IsTree(r.tree)
  {
    if p == "" then Outcome(m, Some(NotExist([]))) else CreateTree(m, fs.Locate(p), fs.faults)
  }

  /** io.Copy into the opened file: nothing is written when the reader delivers nothing. */
  function CopyAt(fs: FileSystem, m: Tree, p: string, data: seq<byte>): (r: Outcome)
    requires Canonical(fs.cwd) && IsTree(m)
    ensures IsTree(r.tree)
  {
    if data == [] then Outcome(m, None)
    else if p == "" then Outcome(m, Some(NotExist([])))
    else AppendTree(m, fs.Locate(p), data, fs.faults)
  }

  /** extractAndWriteFile: what one entry does to the tree. */
  function EntryResult(fs: FileSystem, m: Tree, dest: string, e: Entry): (r: Extraction)
    requires Canonical(fs.cwd) && IsTree(m)
    ensures IsTree(r.tree)
    ensures !e.opens || !InsideDestination(dest, e.name) ==> r.tree == m && r.err.Some?
  {
    var path := Join(dest, e.name);
    if !e.opens then Extraction(m, Some(EntryOpenFailed(e.name)))
    else if !InsideDestination(dest, e.name) then Extraction(m, Some(IllegalPath(path)))
    else if e.isDir then
      var o := MkdirAllAt(fs, m, path);
      Extraction(o.tree, if o.err.Some? then Some(DirectoryFailed(o.err.value)) else None)
    else FileResult(fs, m, path, e)
  }

  /** A file entry at an accepted path: its directory, then the truncated file, then the copy. */
  function FileResult(fs: FileSystem, m: Tree, path: string, e: Entry): (r: Extraction)
    requires Canonical(fs.cwd) && IsTree(m)
    ensures IsTree(r.tree)
  {
    var o1 := MkdirAllAt(fs, m, Dir(path));
    if o1.err.Some? then Extraction(o1.tree, Some(DirectoryFailed(o1.err.value)))
    else
      var o2 := CreateAt(fs, o1.tree, path);
      if o2.err.Some? then Extraction(o2.tree, Some(FileOpenFailed(o2.err.value)))
      else
        var o3 := CopyAt(fs, o2.tree, path, e.content);
        if o3.err.Some? then Extraction(o3.tree, Some(WriteFailed(o3.err)))
        else if e.readFails then Extraction(o3.tree, Some(WriteFailed(None)))
        else Extraction(o3.tree, None)
  }

  /** The entries in archive order, stopping at the first failure. */
  function ExtractEntries(fs: FileSystem, m: Tree, dest: string, es: seq<Entry>): (r: Extraction)
    requires Canonical(fs.cwd) && IsTree(m)
    ensures IsTree(r.tree)
    decreases |es|
  {
    if es == [] then Extraction(m, None)
    else
      var before := ExtractEntries(fs, m, dest, es[..|es| - 1]);
      if before.err.Some? then before else EntryResult(fs, before.tree, dest, es[|es| - 1])
  }

  /** ExtractArchive on the tree m: open the archive, create the destination, then the entries. */
  function ArchiveResult(fs: FileSystem, m: Tree, archivePath: string, dest: string, unzip: Unzip): (r: Extraction)
    requires Canonical(fs.cwd) && IsTree(m)
    ensures IsTree(r.tree)
  {
    var data := if archivePath == "" then Failure(NotExist([])) else ReadTree(m, fs.Locate(archivePath), fs.faults);
    if data.Failure? then Extraction(m, Some(OpenArchiveFailed))
    else match unzip(data.value)
      case None => Extraction(m, Some(OpenArchiveFailed))
      case Some(es) =>
        var o := MkdirAllAt(fs, m, dest);
        if o.err.Some? then Extraction(o.tree, Some(DestinationFailed(o.err.value)))
        else ExtractEntries(fs, o.tree, dest, es)
  }

  // ---------------------------------------------------------------------------------------
  // The guard

  /**
   * For a non-empty destination the guard accepts an entry exactly when the entry's parts,
   * resolved on top of the destination's elements, strictly extend them.
   */
  lemma InsideDestinationResolves(dest: string, name: string)
    requires dest != ""
    ensures InsideDestination(dest, name) <==>
      CleanStack(dest) != [] && Below(Resolve(dest[0] == '/', CleanStack(dest), Split(name)), CleanStack(dest))
    ensures AllElems(Resolve(dest[0] == '/', CleanStack(dest), Split(name)))
  {
    var r := dest[0] == '/';
    var s := CleanStack(dest);
    var t := Resolve(r, s, Split(name));
    JoinResolve(dest, name);
    CleanStackElems(dest);
    ResolveElems(r, s, Split(name));
    RenderPrefix(r, s, t);
  }

  /** An entry whose parts resolve back to the destination's own elements is refused. */
  lemma SameNodeRejected(dest: string, name: string)
    requires dest != "" && Resolve(dest[0] == '/', CleanStack(dest), Split(name)) == CleanStack(dest)
    ensures !InsideDestination(dest, name)
  {
    InsideDestinationResolves(dest, name);
  }

  /** Entries naming the destination itself are refused. */
  lemma DestinationItselfRejected(dest: string, name: string)
    requires dest != "" && (name == "" || name == "." || name == "./")
    ensures !InsideDestination(dest, name)
  {
    var r := dest[0] == '/';
    var s := CleanStack(dest);
    var parts := if name == "./" then [".", ""] else [name];
    assert Split(name) == parts by {
      if name == "./" {
        assert name == "." + "/" + "";
        SplitAppend(".", "");
      }
    }
    assert Resolve(r, s, parts) == s by {
      if name == "./" {
        assert Resolve(r, s, parts) == Resolve(r, s, [""]);
      }
    }
    SameNodeRejected(dest, name);
  }

  /** Every entry is refused when the destination is the root or the current directory. */
  lemma RootDestinationRejectsAll(dest: string, name: string)
    requires dest != "" && CleanStack(dest) == []
    ensures !InsideDestination(dest, name)
  {
    InsideDestinationResolves(dest, name);
  }

  /** A parent reference out of an absolute destination is refused. */
  lemma ParentRejected(dest: string)
    requires IsAbs(dest)
    ensures !InsideDestination(dest, "..")
  {
    InsideDestinationResolves(dest, "..");
    var s := CleanStack(dest);
    assert Resolve(true, s, [".."]) == Step(true, s, "..");
  }

  /** A name made of ordinary elements is accepted under any destination other than the root. */
  lemma PlainNamesAccepted(dest: string, names: seq<string>)
    requires dest != "" && CleanStack(dest) != [] && AllNames(names) && names != []
    ensures InsideDestination(dest, JoinSep(names))
  {
    assert NoSlashes(names);
    SplitJoinSep(names);
    ResolveNames(dest[0] == '/', CleanStack(dest), names);
    InsideDestinationResolves(dest, JoinSep(names));
  }

  /** Under the relative destination "..", the entry ".." passes the guard and names "../..". */
  lemma RelativeParentPasses()
    ensures InsideDestination("..", "..") && Join("..", "..") == "../.."
  {
    assert Split("..") == [".."];
    assert CleanStack("..") == [".."];
    InsideDestinationResolves("..", "..");
    assert Resolve(false, [".."], [".."]) == ["..", ".."];
    JoinResolve("..", "..");
    assert JoinSep(["..", ".."]) == ".." + "/" + "..";
  }

  // ---------------------------------------------------------------------------------------
  // Nothing is written outside an absolute destination

  /** A canonical path locates the elements it is rendered from. */
  lemma LocateRender(fs: FileSystem, st: seq<string>)
    requires Canonical(fs.cwd) && AllNames(st)
    ensures fs.Locate(Render(true, st)) == st
  {
    RenderRooted(true, st);
    CleanRender(true, st);
    ResolveRender(st);
  }

  /** An absolute path locates the elements Clean keeps of it. */
  lemma LocateAbsolute(fs: FileSystem, p: string)
    requires Canonical(fs.cwd) && IsAbs(p)
    ensures fs.Locate(p) == CleanStack(p) && AllNames(CleanStack(p))
  {
    var s := CleanStack(p);
    CleanStackElems(p);
    CleanRender(true, s);
    LocateRender(fs, s);
  }

  /** The path an accepted entry names under an absolute destination, and its directory. */
  lemma EntryPath(dest: string, name: string)
    requires IsAbs(dest) && InsideDestination(dest, name)
    ensures var s := CleanStack(dest); var t := Resolve(true, s, Split(name));
      AllNames(s) && AllNames(t) && Below(t, s) && AllNames(Up(t)) &&
      Join(dest, name) == Render(true, t) && Dir(Join(dest, name)) == Render(true, Up(t))
  {
    var s := CleanStack(dest);
    var t := Resolve(true, s, Split(name));
    CleanStackElems(dest);
    InsideDestinationResolves(dest, name);
    ResolveElems(true, s, Split(name));
    JoinResolve(dest, name);
    DirRender(t);
    assert Up(t) == t[..|t| - 1];
  }

  /** The node an accepted entry names, below the node of an absolute destination. */
  lemma LocateEntry(fs: FileSystem, dest: string, name: string)
    requires Canonical(fs.cwd) && IsAbs(dest) && InsideDestination(dest, name)
    ensures var s := CleanStack(dest); var t := Resolve(true, s, Split(name));
      fs.Locate(dest) == s && Join(dest, name) != "" && fs.Locate(Join(dest, name)) == t && Below(t, s)
  {
    var t := Resolve(true, CleanStack(dest), Split(name));
    LocateAbsolute(fs, dest);
    EntryPath(dest, name);
    LocateRender(fs, t);
  }

  /** The directory an accepted file entry is written in. */
  lemma LocateEntryDir(fs: FileSystem, dest: string, name: string)
    requires Canonical(fs.cwd) && IsAbs(dest) && InsideDestination(dest, name)
    ensures var t := Resolve(true, CleanStack(dest), Split(name));
      t != [] && Dir(Join(dest, name)) != "" && fs.Locate(Dir(Join(dest, name))) == Up(t)
  {
    var t := Resolve(true, CleanStack(dest), Split(name));
    EntryPath(dest, name);
    LocateRender(fs, Up(t));
  }

  lemma ConfinedTrans(m0: Tree, m1: Tree, m2: Tree, d: Key)
    requires Confined(m0, m1, d) && Confined(m1, m2, d)
    ensures Confined(m0, m2, d)
  {
    forall k | Touched(m0, m2, k) ensures Below(k, d) {
      if !Touched(m1, m2, k) {
        assert Touched(m0, m1, k);
      }
    }
  }

  /** Directories created for a node at or below d are created below d. */
  lemma MkdirAllConfined(m: Tree, k: Key, d: Key, faults: Faults)
    requires IsTree(m) && Lookup(m, d) == Success(Directory) && |k| >= |d| && k[..|d|] == d
    ensures var r := MkdirAllTree(m, k, faults);
      Confined(m, r.tree, d) && Lookup(r.tree, d) == Success(Directory)
  {
    var r := MkdirAllTree(m, k, faults);
    forall c | Touched(m, r.tree, c) ensures Below(c, d) {
      assert c <= k && c != [];
      if |c| <= |d| {
        assert c <= d;
        AncestorStored(m, d, c);
      }
    }
  }

  lemma CreateConfined(m: Tree, t: Key, d: Key, faults: Faults)
    requires IsTree(m) && Lookup(m, d) == Success(Directory) && Below(t, d)
    ensures var r := CreateTree(m, t, faults);
      Confined(m, r.tree, d) && Lookup(r.tree, d) == Success(Directory) &&
      (r.err.None? ==> t in r.tree && r.tree[t] == File([]))
  {
  }

  lemma CopyConfined(fs: FileSystem, m: Tree, path: string, data: seq<byte>, d: Key, t: Key)
    requires Canonical(fs.cwd) && IsTree(m) && Lookup(m, d) == Success(Directory) && Below(t, d)
    requires path != "" && fs.Locate(path) == t && t in m && m[t] == File([])
    ensures var r := CopyAt(fs, m, path, data);
      Confined(m, r.tree, d) && Lookup(r.tree, d) == Success(Directory) &&
      (r.err.None? ==> Lookup(r.tree, t) == Success(File(data)))
  {
    assert [] + data == data;
  }

  /** A file written at t, strictly below d, changes only nodes strictly below d; on success t holds the bytes. */
  lemma FileConfined(fs: FileSystem, m: Tree, path: string, e: Entry, d: Key, t: Key)
    requires Canonical(fs.cwd) && IsTree(m) && Lookup(m, d) == Success(Directory) && Below(t, d)
    requires path != "" && Dir(path) != "" && fs.Locate(path) == t && fs.Locate(Dir(path)) == Up(t)
    ensures var r := FileResult(fs, m, path, e);
      Confined(m, r.tree, d) && Lookup(r.tree, d) == Success(Directory) &&
      (r.err.None? ==> Lookup(r.tree, t) == Success(File(e.content)))
  {
    var o1 := MkdirAllTree(m, Up(t), fs.faults);
    assert Up(t)[..|d|] == d;
    MkdirAllConfined(m, Up(t), d, fs.faults);
    if o1.err.None? {
      var o2 := CreateTree(o1.tree, t, fs.faults);
      CreateConfined(o1.tree, t, d, fs.faults);
      ConfinedTrans(m, o1.tree, o2.tree, d);
      if o2.err.None? {
        var o3 := CopyAt(fs, o2.tree, path, e.content);
        CopyConfined(fs, o2.tree, path, e.content, d, t);
        ConfinedTrans(m, o2.tree, o3.tree, d);
      }
    }
  }

  /** One entry under an absolute destination changes only nodes strictly below it. */
  lemma EntryConfined(fs: FileSystem, m: Tree, dest: string, e: Entry)
    requires Canonical(fs.cwd) && IsTree(m) && IsAbs(dest)
    requires Lookup(m, CleanStack(dest)) == Success(Directory)
    ensures var r := EntryResult(fs, m, dest, e);
      Confined(m, r.tree, CleanStack(dest)) && Lookup(r.tree, CleanStack(dest)) == Success(Directory)
    ensures var r := EntryResult(fs, m, dest, e); r.err.None? ==>
      e.opens && InsideDestination(dest, e.name) &&
      Lookup(r.tree, Resolve(true, CleanStack(dest), Split(e.name))) == Success(if e.isDir then Directory else File(e.content))
  {
    if e.opens && InsideDestination(dest, e.name) {
      var s := CleanStack(dest);
      var path := Join(dest, e.name);
      LocateEntry(fs, dest, e.name);
      var t := fs.Locate(path);
      if e.isDir {
        MkdirAllConfined(m, t, s, fs.faults);
      } else {
        LocateEntryDir(fs, dest, e.name);
        FileConfined(fs, m, path, e, s, t);
      }
    }
  }

  /** The entries under an absolute destination change only nodes strictly below it. */
  lemma {:induction false} EntriesConfined(fs: FileSystem, m: Tree, dest: string, es: seq<Entry>)
    requires Canonical(fs.cwd) && IsTree(m) && IsAbs(dest)
    requires Lookup(m, CleanStack(dest)) == Success(Directory)
    ensures var r := ExtractEntries(fs, m, dest, es);
      Confined(m, r.tree, CleanStack(dest)) && Lookup(r.tree, CleanStack(dest)) == Success(Directory)
    decreases |es|
  {
    if es != [] {
      var before := ExtractEntries(fs, m, dest, es[..|es| - 1]);
      EntriesConfined(fs, m, dest, es[..|es| - 1]);
      if before.err.None? {
        EntryConfined(fs, before.tree, dest, es[|es| - 1]);
        ConfinedTrans(m, before.tree, EntryResult(fs, before.tree, dest, es[|es| - 1]).tree, CleanStack(dest));
      }
    }
  }

  /**
   * Extracting into an absolute destination removes nothing, and every node it writes is
   * strictly below the destination or is a directory on the way to it.
   */
  lemma ArchiveConfined(fs: FileSystem, m: Tree, archivePath: string, dest: string, unzip: Unzip)
    requires Canonical(fs.cwd) && IsTree(m) && IsAbs(dest)
    ensures var r := ArchiveResult(fs, m, archivePath, dest, unzip); var s := CleanStack(dest);
      (forall k :: k in m ==> k in r.tree) &&
      (forall k :: Touched(m, r.tree, k) ==> Below(k, s) || k <= s)
  {
    var r := ArchiveResult(fs, m, archivePath, dest, unzip);
    var s := CleanStack(dest);
    var data := if archivePath == "" then Failure(NotExist([])) else ReadTree(m, fs.Locate(archivePath), fs.faults);
    if data.Success? && unzip(data.value).Some? {
      CleanStackElems(dest);
      LocateRender(fs, s);
      CleanRender(true, s);
      assert fs.Locate(dest) == s;
      var o := MkdirAllTree(m, s, fs.faults);
      if o.err.None? {
        EntriesConfined(fs, o.tree, dest, unzip(data.value).value);
        forall k | Touched(m, r.tree, k) ensures Below(k, s) || k <= s {
          if !Touched(o.tree, r.tree, k) {
            assert Touched(m, o.tree, k);
          }
        }
      }
    }
  }

  // ---------------------------------------------------------------------------------------
  // Order and effects

  /** After the first failing entry no later entry runs. */
  lemma {:induction false} ExtractStops(fs: FileSystem, m: Tree, dest: string, es: seq<Entry>, i: nat)
    requires Canonical(fs.cwd) && IsTree(m) && i < |es|
    requires ExtractEntries(fs, m, dest, es[..i + 1]).err.Some?
    ensures ExtractEntries(fs, m, dest, es) == ExtractEntries(fs, m, dest, es[..i + 1])
    decreases |es|
  {
    if i + 1 < |es| {
      var init := es[..|es| - 1];
      assert init[..i + 1] == es[..i + 1];
      ExtractStops(fs, m, dest, init, i);
    } else {
      assert es[..i + 1] == es;
    }
  }

  // ---------------------------------------------------------------------------------------
  // The implementation

  /** extractAndWriteFile. */
  method ExtractFile(fs: FileSystem, dest: string, e: Entry) returns (err: Option<ExtractError>)
    requires fs.Valid()
    modifies fs
    ensures fs.Valid()
    ensures Extraction(fs.nodes, err) == EntryResult(fs, old(fs.nodes), dest, e)
  {
    if !e.opens {
      return Some(EntryOpenFailed(e.name));
    }
    var path := Join(dest, e.name);
    if !HasPrefix(path, Clean(dest) + "/") {
      return Some(IllegalPath(path));
    }
    var fsErr: Option<FsError>;
    if e.isDir {
      fsErr := fs.MkdirAll(path);
      if fsErr.Some? {
        return Some(DirectoryFailed(fsErr.value));
      }
      return None;
    }
    fsErr := fs.MkdirAll(Dir(path));
    if fsErr.Some? {
      return Some(DirectoryFailed(fsErr.value));
    }
    fsErr := fs.Create(path);
    if fsErr.Some? {
      return Some(FileOpenFailed(fsErr.value));
    }
    if e.content != [] {
      fsErr := fs.Append(path, e.content);
      if fsErr.Some? {
        return Some(WriteFailed(fsErr));
      }
    }
    if e.readFails {
      return Some(WriteFailed(None));
    }
    err := None;
  }

  /** ExtractArchive. */
  method ExtractArchive(fs: FileSystem, archivePath: string, dest: string, unzip: Unzip) returns (err: Option<ExtractError>)
    requires fs.Valid()
    modifies fs
    ensures fs.Valid()
    ensures Extraction(fs.nodes, err) == ArchiveResult(fs, old(fs.nodes), archivePath, dest, unzip)
  {
    var data := fs.ReadFile(archivePath);
    if data.Failure? {
      return Some(OpenArchiveFailed);
    }
    var entries := unzip(data.value);
    if entries.None? {
      return Some(OpenArchiveFailed);
    }
    var fsErr := fs.MkdirAll(dest);
    if fsErr.Some? {
      return Some(DestinationFailed(fsErr.value));
    }
    ghost var m := fs.nodes;
    var es := entries.value;
    var i := 0;
    while i < |es|
      invariant 0 <= i <= |es| && fs.Valid()
      invariant ExtractEntries(fs, m, dest, es[..i]) == Extraction(fs.nodes, None)
    {
      PrefixStep(es, i);
      assert es[..i + 1][..i] == es[..i];
      err := ExtractFile(fs, dest, es[i]);
      if err.Some? {
        ExtractStops(fs, m, dest, es, i);
        return;
      }
      i := i + 1;
    }
    PrefixAll(es);
    err := None;
  }
}
