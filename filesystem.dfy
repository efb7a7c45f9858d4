/**
 * The part of the operating system's file system the launcher uses, as a map from canonical
 * absolute paths to nodes. The root "/" is always a directory and is not stored. Every stored
 * path sits in a stored directory (or in the root). Relative paths resolve against the working
 * directory. A fixed set of (operation, path) pairs stands for the I/O failures the environment
 * may produce (permissions, full disks, device errors): such an operation fails on such a path.
 */
module FileSystems {
  import opened Wrappers
  import opened Numeric
  import opened Strings
  import opened Paths

  datatype Node = File(data: seq<byte>) | Directory

  datatype Op = StatOp | MkdirOp | CreateOp | WriteOp | ReadOp | RemoveOp | RenameOp

  datatype FsError =
    | NotExist(at: seq<string>)
    | Exist(at: seq<string>)
    | NotADirectory(at: seq<string>)
    | IsADirectory(at: seq<string>)
    | NotEmpty(at: seq<string>)
    | Invalid(at: seq<string>)
    | IoFailure(op: Op, at: seq<string>)

  /** A stored node is named by the elements of its canonical path, from the root down. */
  type Key = seq<string>

  type Tree = map<Key, Node>

  type Faults = set<(Op, Key)>

  /** The new tree after an operation, and the error it reports. */
  datatype Outcome = Outcome(tree: Tree, err: Option<FsError>)

  /** The elements of a path from the root down. */
  function Elems(p: Path): Key {
    if p == "" then [] else CleanStack(p)
  }

  /** The directory holding the node k. */
  function Up(k: Key): Key
    requires k != []
  {
    k[..|k| - 1]
  }

  /** k is d itself or lies somewhere below it. */
  predicate Within(k: Key, d: Key) {
    d <= k
  }

  predicate InDirectory(m: Tree, k: Key)
    requires k != []
  {
    Up(k) == [] || (Up(k) in m && m[Up(k)].Directory?)
  }

  predicate IsTree(m: Tree) {
    forall k :: k in m ==> k != [] && InDirectory(m, k)
  }

  /** Every entry of m0 is still in m1, unchanged. */
  predicate Keeps(m0: Tree, m1: Tree) {
    forall k :: k in m0 ==> k in m1 && m1[k] == m0[k]
  }

  lemma RootElems()
    ensures Elems("/") == []
  {
    assert Split("/") == ["", ""] by {
      FirstSlashAt("/", 0);
      assert "/"[1..] == "";
    }
    assert Resolve(true, [], ["", ""]) == Resolve(true, [], [""]);
  }

  /** The directory of a canonical path other than the root holds all its elements but the last. */
  lemma ElemsDir(p: Path)
    requires Canonical(p) && p != "/"
    ensures Canonical(Dir(p)) && Elems(p) != []
    ensures Elems(Dir(p)) == Up(Elems(p))
  {
    CanonicalStack(p);
    var st := CleanStack(p);
    DirCanonical(p);
    assert st != [];
    DirRender(st);
    var init := st[..|st| - 1];
    RenderRooted(true, init);
    ResolveRender(init);
  }

  /** Canonical paths are determined by their elements. */
  lemma ElemsInjective(a: Path, b: Path)
    requires Canonical(a) && Canonical(b) && Elems(a) == Elems(b)
    ensures a == b
  {
    CanonicalStack(a);
    CanonicalStack(b);
  }

  lemma PrefixOfUp(d: Key, k: Key)
    requires k != []
    ensures d <= Up(k) ==> d <= k
  {
    if d <= Up(k) {
      assert k == Up(k) + [k[|k| - 1]];
    }
  }

  /** In a tree, every directory above a stored node is stored. */
  lemma {:induction false} AncestorStored(m: Tree, c: Key, k: Key)
    requires IsTree(m) && c in m && k != [] && k <= c
    ensures k == c || (k in m && m[k].Directory?)
    decreases |c|
  {
    if k != c {
      assert k <= Up(c) by {
        assert Up(c) == c[..|c| - 1];
        assert |k| < |c|;
      }
      AncestorStored(m, Up(c), k);
    }
  }

  /** Why a node that is not stored cannot be reached: a missing directory or a file on the way. */
  function Absent(m: Tree, k: Key, name: Key): (e: FsError)
    requires k != []
    ensures e == NotExist(name) || e == NotADirectory(name)
    decreases |k|
  {
    var d := Up(k);
    if d == [] then NotExist(name)
    else if d in m then (if m[d].Directory? then NotExist(name) else NotADirectory(name))
    else Absent(m, d, name)
  }

  function Lookup(m: Tree, k: Key): (r: Result<Node, FsError>)
    ensures r.Success? <==> k == [] || k in m
  {
    if k == [] then Success(Directory)
    else if k in m then Success(m[k])
    else Failure(Absent(m, k, k))
  }

  /** os.Stat and os.Lstat. */
  function StatTree(m: Tree, k: Key, faults: Faults): (r: Result<Node, FsError>)
    ensures r.Success? ==> r == Lookup(m, k)
  {
    if (StatOp, k) in faults then Failure(IoFailure(StatOp, k)) else Lookup(m, k)
  }

  /** os.ReadFile. */
  function ReadTree(m: Tree, k: Key, faults: Faults): (r: Result<seq<byte>, FsError>)
    ensures r.Success? <==> k != [] && k in m && m[k].File? && (ReadOp, k) !in faults
    ensures r.Success? ==> r.value == m[k].data
  {
    if (ReadOp, k) in faults then Failure(IoFailure(ReadOp, k))
    else match Lookup(m, k)
      case Failure(e) => Failure(e)
      case Success(n) => if n.Directory? then Failure(IsADirectory(k)) else Success(n.data)
  }

  predicate HasEntries(m: Tree, k: Key) {
    exists c :: c in m && c != [] && Up(c) == k
  }

  /** os.Remove: a file or an empty directory. */
  function RemoveTree(m: Tree, k: Key, faults: Faults): (r: Outcome)
    requires IsTree(m)
    ensures IsTree(r.tree)
    ensures r.err.None? <==> k in m && (RemoveOp, k) !in faults && !HasEntries(m, k)
    ensures r.tree == if r.err.None? then m - {k} else m
  {
    match Lookup(m, k)
    case Failure(e) => Outcome(m, Some(e))
    case Success(n) =>
      if k == [] || (RemoveOp, k) in faults then Outcome(m, Some(IoFailure(RemoveOp, k)))
      else if HasEntries(m, k) then Outcome(m, Some(NotEmpty(k)))
      else Outcome(m - {k}, None)
  }

  /** The entries of m outside d. */
  function Outside(m: Tree, d: Key): (r: Tree)
    requires IsTree(m) && d != []
    ensures IsTree(r)
    ensures forall k :: k in r <==> k in m && !Within(k, d)
    ensures forall k :: k in r ==> r[k] == m[k]
  {
    var r := map k | k in m && !Within(k, d) :: m[k];
    assert IsTree(r) by {
      forall k | k in r
        ensures InDirectory(r, k)
      {
        if Up(k) != [] {
          PrefixOfUp(d, k);
        }
      }
    }
    r
  }

  /** os.RemoveAll: the node and everything below it; a node that does not exist is not an error. */
  function RemoveAllTree(m: Tree, k: Key, faults: Faults): (r: Outcome)
    requires IsTree(m)
    ensures IsTree(r.tree)
    ensures r.err.None? ==> forall c :: c in r.tree <==> c in m && !Within(c, k)
    ensures r.err.None? ==> forall c :: c in r.tree ==> r.tree[c] == m[c]
    ensures r.err.Some? ==> r.tree == m
    ensures (k in m && (RemoveOp, k) !in faults) ==> r.err.None?
  {
    match Lookup(m, k)
    case Failure(e) =>
      assert forall c :: c in m ==> !Within(c, k) by {
        forall c | c in m
          ensures !Within(c, k)
        {
          if Within(c, k) { AncestorStored(m, c, k); }
        }
      }
      if e.NotExist? then Outcome(m, None) else Outcome(m, Some(e))
    case Success(_) =>
      if k == [] || (RemoveOp, k) in faults then Outcome(m, Some(IoFailure(RemoveOp, k)))
      else Outcome(Outside(m, k), None)
  }

  /** os.MkdirAll: the directory and any missing directories above it. */
  function MkdirAllTree(m: Tree, k: Key, faults: Faults): (r: Outcome)
    requires IsTree(m)
    ensures IsTree(r.tree) && Keeps(m, r.tree)
    ensures forall c :: c in r.tree && c !in m ==> r.tree[c] == Directory && Within(k, c)
    ensures r.err.None? ==> Lookup(r.tree, k) == Success(Directory)
    decreases |k|
  {
    match StatTree(m, k, faults)
    case Success(n) => if n.Directory? then Outcome(m, None) else Outcome(m, Some(NotADirectory(k)))
    case Failure(e) =>
      if k == [] then Outcome(m, Some(e))
      else
        var d := Up(k);
        var up := if d == [] then Outcome(m, None) else MkdirAllTree(m, d, faults);
        if up.err.Some? then up
        else if (MkdirOp, k) !in faults && k !in up.tree then Outcome(up.tree[k := Directory], None)
        else
          var failure := if (MkdirOp, k) in faults then IoFailure(MkdirOp, k) else Exist(k);
          if StatTree(up.tree, k, faults) == Success(Directory) then up else Outcome(up.tree, Some(failure))
  }

  /** os.Create and os.OpenFile with O_WRONLY|O_CREATE|O_TRUNC: an empty file. */
  function CreateTree(m: Tree, k: Key, faults: Faults): (r: Outcome)
    requires IsTree(m)
    ensures IsTree(r.tree)
    ensures r.err.None? <==> k != [] && (CreateOp, k) !in faults && InDirectory(m, k) && (k in m ==> m[k].File?)
    ensures r.tree == if r.err.None? then m[k := File([])] else m
  {
    if k == [] || (k in m && m[k].Directory?) then Outcome(m, Some(IsADirectory(k)))
    else if !InDirectory(m, k) then Outcome(m, Some(Absent(m, k, k)))
    else if (CreateOp, k) in faults then Outcome(m, Some(IoFailure(CreateOp, k)))
    else Outcome(m[k := File([])], None)
  }

  /** A write through a file opened for writing: the data is appended. */
  function AppendTree(m: Tree, k: Key, data: seq<byte>, faults: Faults): (r: Outcome)
    requires IsTree(m)
    ensures IsTree(r.tree)
    ensures r.err.None? <==> k in m && m[k].File? && (WriteOp, k) !in faults
    ensures r.tree == if r.err.None? then m[k := File(m[k].data + data)] else m
  {
    if k !in m then Outcome(m, Some(NotExist(k)))
    else if m[k].Directory? then Outcome(m, Some(IsADirectory(k)))
    else if (WriteOp, k) in faults then Outcome(m, Some(IoFailure(WriteOp, k)))
    else Outcome(m[k := File(m[k].data + data)], None)
  }

  /** A place that sits in a directory is not below a file. */
  lemma NotBelowFile(m: Tree, s: Key, d: Key)
    requires IsTree(m) && s in m && m[s].File? && d != [] && InDirectory(m, d)
    ensures !(s < d)
  {
    if s < d {
      assert d == Up(d) + [d[|d| - 1]];
      assert s <= Up(d);
      AncestorStored(m, Up(d), s);
    }
  }

  /** Nothing is stored strictly below d. */
  predicate NothingBelow(m: Tree, d: Key) {
    forall k :: k in m ==> !(d < k)
  }

  /** The key k, at or below s, moved to the same place at or below d. */
  function Rebase(k: Key, s: Key, d: Key): Key
    requires s <= k
  {
    d + k[|s|..]
  }

  /** Distinct keys below s stay distinct below d. */
  lemma RebaseInjective(s: Key, d: Key)
    ensures forall k1, k2 :: s <= k1 && s <= k2 && Rebase(k1, s, d) == Rebase(k2, s, d) ==> k1 == k2
  {
    forall k1, k2 | s <= k1 && s <= k2 && Rebase(k1, s, d) == Rebase(k2, s, d)
      ensures k1 == k2
    {
      assert Rebase(k1, s, d)[|d|..] == k1[|s|..];
      assert Rebase(k2, s, d)[|d|..] == k2[|s|..];
      assert k1 == s + k1[|s|..];
      assert k2 == s + k2[|s|..];
    }
  }

  /** The nodes of m at and below s, rekeyed to sit at and below d. */
  function Rebased(m: Tree, s: Key, d: Key): Tree {
    RebaseInjective(s, d);
    map k | k in m && s <= k :: Rebase(k, s, d) := m[k]
  }

  /** The nodes at and below s moved to sit at and below d; a node stored at d is replaced. */
  function MoveSubtree(m: Tree, s: Key, d: Key): Tree
    requires IsTree(m) && s != []
  {
    Outside(m, s) + Rebased(m, s, d)
  }

  /**
   * When os.Rename of s to d succeeds (rename(2)): s exists and the rename is not made to fail;
   * d is s itself, or d is not the root, sits in a directory, and is not strictly below s; a node
   * at d is a file when s is a file, and an empty directory when s is a directory.
   */
  predicate RenameAllowed(m: Tree, s: Key, d: Key, faults: Faults) {
    s in m && (RenameOp, s) !in faults &&
    (d == s ||
     (d != [] && InDirectory(m, d) && !(s < d) &&
      (d in m ==> (if m[s].File? then m[d].File? else m[d].Directory? && NothingBelow(m, d)))))
  }

  /**
   * os.Rename: a file replaces a file at the target; a directory moves with everything below it,
   * replacing an empty directory at the target.
   */
  function RenameTree(m: Tree, s: Key, d: Key, faults: Faults): (r: Outcome)
    requires IsTree(m)
    ensures IsTree(r.tree)
    ensures r.err.None? <==> RenameAllowed(m, s, d, faults)
    ensures r.tree == if r.err.None? && d != s then MoveSubtree(m, s, d) else m
    ensures r.err.None? && d != s && m[s].File? ==> r.tree == (m - {s})[d := m[s]]
  {
    match Lookup(m, s)
    case Failure(e) => Outcome(m, Some(e))
    case Success(n) =>
      if s == [] || (RenameOp, s) in faults then Outcome(m, Some(IoFailure(RenameOp, s)))
      else if d == s then Outcome(m, None)
      else if d == [] then Outcome(m, Some(IsADirectory(d)))
      else if s < d then Outcome(m, Some(Invalid(d)))
      else if !InDirectory(m, d) then Outcome(m, Some(Absent(m, d, d)))
      else if n.File? && d in m && m[d].Directory? then Outcome(m, Some(IsADirectory(d)))
      else if n.Directory? && d in m && m[d].File? then Outcome(m, Some(NotADirectory(d)))
      else if n.Directory? && d in m && !NothingBelow(m, d) then Outcome(m, Some(NotEmpty(d)))
      else
        if n.File? then
          FileMove(m, s, d);
          Outcome(MoveSubtree(m, s, d), None)
        else
          DirectoryMove(m, s, d);
          Outcome(MoveSubtree(m, s, d), None)
  }

  /** Moving a file: nothing is stored below it, so only its own entry moves. */
  lemma FileMove(m: Tree, s: Key, d: Key)
    requires IsTree(m) && s in m && m[s].File? && d != [] && !(s <= d)
    requires InDirectory(m, d) && (d in m ==> m[d].File?)
    ensures MoveSubtree(m, s, d) == (m - {s})[d := m[s]]
    ensures IsTree(MoveSubtree(m, s, d))
  {
    forall k | k in m && s <= k
      ensures k == s
    {
      if k != s {
        AncestorStored(m, k, s);
      }
    }
    MoveLeaf(m, s, d);
    FileMoveIsTree(m, s, d);
  }

  /** When the only node at or below s is s itself, the subtree move moves just that entry. */
  lemma MoveLeaf(m: Tree, s: Key, d: Key)
    requires IsTree(m) && s in m && forall k :: k in m && s <= k ==> k == s
    ensures MoveSubtree(m, s, d) == (m - {s})[d := m[s]]
  {
    var kept := Outside(m, s);
    var moved := Rebased(m, s, d);
    assert s[|s|..] == [];
    assert Rebase(s, s, d) == d;
    assert moved.Keys == {d};
    assert moved == map[d := m[s]];
    assert kept == m - {s};
  }

  lemma FileMoveIsTree(m: Tree, s: Key, d: Key)
    requires IsTree(m) && s in m && m[s].File? && d != [] && !(s <= d)
    requires InDirectory(m, d) && (d in m ==> m[d].File?)
    ensures IsTree((m - {s})[d := m[s]])
  {
    var e := (m - {s})[d := m[s]];
    forall n | n in e
      ensures n != [] && InDirectory(e, n)
    {
      if n == d {
        if Up(d) != [] {
          PrefixOfUp(s, d);
        }
      } else if Up(n) != [] {
        assert Up(n) != s;
      }
    }
  }

  /** The conditions under which a directory may be moved onto d. */
  predicate DirectoryMovable(m: Tree, s: Key, d: Key) {
    IsTree(m) && s in m && m[s].Directory? && d != [] && !(s <= d) &&
    InDirectory(m, d) && (d in m ==> m[d].Directory? && NothingBelow(m, d))
  }

  /** Moving a directory onto a free or empty place keeps every stored node in a stored directory. */
  lemma DirectoryMove(m: Tree, s: Key, d: Key)
    requires DirectoryMovable(m, s, d)
    ensures IsTree(MoveSubtree(m, s, d))
  {
    FreeTargetEmpty(m, d);
    forall n | n in MoveSubtree(m, s, d)
      ensures n != [] && InDirectory(MoveSubtree(m, s, d), n)
    {
      if n in Rebased(m, s, d) {
        var k :| k in m && s <= k && n == Rebase(k, s, d);
        RebasedInDirectory(m, s, d, k);
      } else {
        OutsideInDirectory(m, s, d, n);
      }
    }
  }

  /** An absent node has nothing stored below it. */
  lemma FreeTargetEmpty(m: Tree, d: Key)
    requires IsTree(m) && d != []
    ensures d !in m ==> NothingBelow(m, d)
  {
    if d !in m {
      forall k | k in m
        ensures !(d < k)
      {
        if d < k {
          AncestorStored(m, k, d);
        }
      }
    }
  }

  /** Every moved node sits at or below the target. */
  lemma RebasedBelowTarget(m: Tree, s: Key, d: Key)
    ensures forall x :: x in Rebased(m, s, d) ==> d <= x
  {
    forall x | x in Rebased(m, s, d)
      ensures d <= x
    {
      var k :| k in m && s <= k && x == Rebase(k, s, d);
    }
  }

  /** A moved node sits in a directory of the new tree: the target's own directory, or a moved one. */
  lemma RebasedInDirectory(m: Tree, s: Key, d: Key, k: Key)
    requires DirectoryMovable(m, s, d) && NothingBelow(m, d) && k in m && s <= k
    ensures Rebase(k, s, d) != [] && InDirectory(MoveSubtree(m, s, d), Rebase(k, s, d))
  {
    if k == s {
      TargetInDirectory(m, s, d);
    } else {
      MovedChildInDirectory(m, s, d, k);
    }
  }

  /** The moved directory itself sits where the target's directory is, which stays. */
  lemma TargetInDirectory(m: Tree, s: Key, d: Key)
    requires DirectoryMovable(m, s, d)
    ensures Rebase(s, s, d) == d && InDirectory(MoveSubtree(m, s, d), d)
  {
    assert s[|s|..] == [];
    if Up(d) != [] {
      PrefixOfUp(s, d);
      assert Up(d) in Outside(m, s);
      RebasedBelowTarget(m, s, d);
      assert Up(d) !in Rebased(m, s, d);
    }
  }

  /** A node strictly below the moved directory sits in the moved copy of its own directory. */
  lemma MovedChildInDirectory(m: Tree, s: Key, d: Key, k: Key)
    requires DirectoryMovable(m, s, d) && k in m && s < k
    ensures Rebase(k, s, d) != [] && InDirectory(MoveSubtree(m, s, d), Rebase(k, s, d))
  {
    RebaseUp(k, s, d);
    var u := Up(k);
    assert InDirectory(m, k);
    RebasedAt(m, s, d, u);
  }

  /** A node at or below s is found, rekeyed, in the moved tree. */
  lemma RebasedAt(m: Tree, s: Key, d: Key, k: Key)
    requires IsTree(m) && s != [] && k in m && s <= k
    ensures Rebase(k, s, d) in MoveSubtree(m, s, d) && MoveSubtree(m, s, d)[Rebase(k, s, d)] == m[k]
  {
    var r := Rebased(m, s, d);
    RebaseInjective(s, d);
    assert Rebase(k, s, d) in r && r[Rebase(k, s, d)] == m[k];
  }

  /** The directory of a key strictly below s, rekeyed, is the rekeyed directory of the key. */
  lemma RebaseUp(k: Key, s: Key, d: Key)
    requires s < k
    ensures s <= Up(k) && Rebase(k, s, d) != [] && Up(Rebase(k, s, d)) == Rebase(Up(k), s, d)
  {
    assert k[|s|..] == Up(k)[|s|..] + [k[|k| - 1]];
  }

  /** A node that stays sits in a directory that stays, since nothing is stored below the target. */
  lemma OutsideInDirectory(m: Tree, s: Key, d: Key, n: Key)
    requires DirectoryMovable(m, s, d) && NothingBelow(m, d) && n in Outside(m, s)
    ensures n != [] && InDirectory(MoveSubtree(m, s, d), n)
  {
    if Up(n) != [] {
      PrefixOfUp(s, n);
      assert Up(n) in Outside(m, s);
      RebasedBelowTarget(m, s, d);
      PrefixOfUp(d, n);
      assert Up(n) !in Rebased(m, s, d);
    }
  }

  /**
   * A directory renamed elsewhere takes everything below it along: each node at or below the
   * source reappears at the same place below the target, nothing is left at or below the source,
   * and every node outside both is kept.
   */
  lemma RenameMovesSubtree(m: Tree, s: Key, d: Key, faults: Faults)
    requires IsTree(m) && RenameAllowed(m, s, d, faults) && d != s && m[s].Directory?
    ensures forall k :: k in m && s <= k ==>
      Rebase(k, s, d) in RenameTree(m, s, d, faults).tree && RenameTree(m, s, d, faults).tree[Rebase(k, s, d)] == m[k]
    ensures forall k :: k in RenameTree(m, s, d, faults).tree ==> !(s <= k)
    ensures forall k :: k in m && !(s <= k) && !(d <= k) ==>
      k in RenameTree(m, s, d, faults).tree && RenameTree(m, s, d, faults).tree[k] == m[k]
  {
    assert RenameTree(m, s, d, faults).tree == MoveSubtree(m, s, d);
    FreeTargetEmpty(m, d);
    MoveSubtreeMoves(m, s, d);
    MoveSubtreeLeavesSource(m, s, d);
    MoveSubtreeKeepsOthers(m, s, d);
  }

  lemma MoveSubtreeMoves(m: Tree, s: Key, d: Key)
    requires IsTree(m) && s != []
    ensures forall k :: k in m && s <= k ==>
      Rebase(k, s, d) in MoveSubtree(m, s, d) && MoveSubtree(m, s, d)[Rebase(k, s, d)] == m[k]
  {
    forall k | k in m && s <= k
      ensures Rebase(k, s, d) in MoveSubtree(m, s, d) && MoveSubtree(m, s, d)[Rebase(k, s, d)] == m[k]
    {
      RebasedAt(m, s, d, k);
    }
  }

  lemma MoveSubtreeLeavesSource(m: Tree, s: Key, d: Key)
    requires IsTree(m) && s != [] && !(s <= d) && !(d < s)
    ensures forall k :: k in MoveSubtree(m, s, d) ==> !(s <= k)
  {
    RebasedBelowTarget(m, s, d);
    forall k | k in MoveSubtree(m, s, d)
      ensures !(s <= k)
    {
      if k in Rebased(m, s, d) && s <= k {
        PrefixesComparable(s, d, k);
      }
    }
  }

  lemma MoveSubtreeKeepsOthers(m: Tree, s: Key, d: Key)
    requires IsTree(m) && s != []
    ensures forall k :: k in m && !(s <= k) && !(d <= k) ==>
      k in MoveSubtree(m, s, d) && MoveSubtree(m, s, d)[k] == m[k]
  {
    RebasedBelowTarget(m, s, d);
  }

  /** Two prefixes of one key are prefixes of each other. */
  lemma PrefixesComparable(a: Key, b: Key, k: Key)
    requires a <= k && b <= k
    ensures a <= b || b < a
  {
    if |a| <= |b| {
      assert a == k[..|a|] && b == k[..|b|];
      assert a == b[..|a|];
    } else {
      assert b == a[..|b|];
    }
  }

  /** The path names the current or the parent directory in its last element ("." or "x/."). */
  predicate EndsWithDot(p: string) {
    |p| >= 1 && p[|p| - 1] == '.' && (|p| == 1 || p[|p| - 2] == '/')
  }

  class FileSystem {
    var nodes: Tree
    /** The working directory of the process. */
    const cwd: Path
    const faults: Faults
    /** os.Getwd fails (the working directory was removed or cannot be read). */
    const getwdFails: bool

    ghost predicate Valid()
      reads this
    {
      IsTree(nodes) && Canonical(cwd)
    }

    constructor (tree: Tree, wd: Path, failing: Faults, wdUnreadable: bool)
      requires IsTree(tree) && Canonical(wd)
      ensures Valid() && nodes == tree && cwd == wd && faults == failing && getwdFails == wdUnreadable
    {
      nodes, cwd, faults, getwdFails := tree, wd, failing, wdUnreadable;
    }

    /** os.Getwd. */
    function Getwd(): (r: Option<Path>)
      ensures r.Some? <==> !getwdFails
      ensures r.Some? ==> r.value == cwd
    {
      if getwdFails then None else Some(cwd)
    }

    /** filepath.Abs: an absolute path is only cleaned; a relative one is joined to the working directory. */
    function AbsPath(p: string): (r: Option<Path>)
      requires Canonical(cwd)
      ensures IsAbs(p) ==> r == Some(Clean(p))
      ensures r.Some? ==> Canonical(r.value)
      ensures r.None? <==> !IsAbs(p) && getwdFails
    {
      if IsAbs(p) then CleanCanonical(p); Some(Clean(p))
      else if getwdFails then None
      else if p == "" then JoinEmpty(cwd); Some(Join(cwd, p))
      else AbsCanonical(cwd, p); Some(Join(cwd, p))
    }

    /** The node a non-empty path names: the elements of the canonical path the system resolves it to. */
    function Locate(p: string): (k: Key)
      requires Canonical(cwd) && p != ""
    {
      Elems(Abs(cwd, p))
    }

    function Stat(p: string): (r: Result<Node, FsError>)
      reads this
      requires Valid()
      ensures r.Success? ==> p != "" && r == Lookup(nodes, Locate(p))
      ensures p != "" && (StatOp, Locate(p)) !in faults ==> r == Lookup(nodes, Locate(p))
      ensures p == "" ==> r == Failure(NotExist([]))
    {
      if p == "" then Failure(NotExist([])) else StatTree(nodes, Locate(p), faults)
    }

    function ReadFile(p: string): (r: Result<seq<byte>, FsError>)
      reads this
      requires Valid()
      ensures r.Success? ==> p != "" && Locate(p) in nodes && nodes[Locate(p)].File? && r.value == nodes[Locate(p)].data
    {
      if p == "" then Failure(NotExist([])) else ReadTree(nodes, Locate(p), faults)
    }

    method Remove(p: string) returns (err: Option<FsError>)
      requires Valid()
      modifies this
      ensures Valid()
      ensures p == "" ==> nodes == old(nodes) && err == Some(NotExist([]))
      ensures p != "" ==> Outcome(nodes, err) == RemoveTree(old(nodes), Locate(p), faults)
    {
      if p == "" {
        err := Some(NotExist([]));
      } else {
        var r := RemoveTree(nodes, Locate(p), faults);
        nodes, err := r.tree, r.err;
      }
    }

    method RemoveAll(p: string) returns (err: Option<FsError>)
      requires Valid()
      modifies this
      ensures Valid()
      ensures p == "" ==> nodes == old(nodes) && err.None?
      ensures p != "" && EndsWithDot(p) ==> nodes == old(nodes) && err == Some(Invalid(Elems(p)))
      ensures p != "" && !EndsWithDot(p) ==> Outcome(nodes, err) == RemoveAllTree(old(nodes), Locate(p), faults)
    {
      if p == "" {
        err := None;
      } else if EndsWithDot(p) {
        err := Some(Invalid(Elems(p)));
      } else {
        var r := RemoveAllTree(nodes, Locate(p), faults);
        nodes, err := r.tree, r.err;
      }
    }

    method MkdirAll(p: string) returns (err: Option<FsError>)
      requires Valid()
      modifies this
      ensures Valid()
      ensures p == "" ==> nodes == old(nodes) && err == Some(NotExist([]))
      ensures p != "" ==> Outcome(nodes, err) == MkdirAllTree(old(nodes), Locate(p), faults)
    {
      if p == "" {
        err := Some(NotExist([]));
      } else {
        var r := MkdirAllTree(nodes, Locate(p), faults);
        nodes, err := r.tree, r.err;
      }
    }

    method Create(p: string) returns (err: Option<FsError>)
      requires Valid()
      modifies this
      ensures Valid()
      ensures p == "" ==> nodes == old(nodes) && err == Some(NotExist([]))
      ensures p != "" ==> Outcome(nodes, err) == CreateTree(old(nodes), Locate(p), faults)
    {
      if p == "" {
        err := Some(NotExist([]));
      } else {
        var r := CreateTree(nodes, Locate(p), faults);
        nodes, err := r.tree, r.err;
      }
    }

    /** Writes data to the file opened at p. */
    method Append(p: string, data: seq<byte>) returns (err: Option<FsError>)
      requires Valid()
      modifies this
      ensures Valid()
      ensures p == "" ==> nodes == old(nodes) && err == Some(NotExist([]))
      ensures p != "" ==> Outcome(nodes, err) == AppendTree(old(nodes), Locate(p), data, faults)
    {
      if p == "" {
        err := Some(NotExist([]));
      } else {
        var r := AppendTree(nodes, Locate(p), data, faults);
        nodes, err := r.tree, r.err;
      }
    }

    /** os.WriteFile: create or truncate, then write. */
    method WriteFile(p: string, data: seq<byte>) returns (err: Option<FsError>)
      requires Valid()
      modifies this
      ensures Valid()
      ensures err.None? ==> p != "" && nodes == old(nodes)[Locate(p) := File(data)]
      ensures err.Some? && p != "" ==>
        nodes == old(nodes) || nodes == old(nodes)[Locate(p) := File([])]
      ensures p == "" ==> nodes == old(nodes) && err.Some?
    {
      err := Create(p);
      if err.None? {
        err := Append(p, data);
        assert [] + data == data;
      }
    }

    method Rename(src: string, dst: string) returns (err: Option<FsError>)
      requires Valid()
      modifies this
      ensures Valid()
      ensures (src == "" || dst == "") ==> nodes == old(nodes) && err.Some?
      ensures src != "" && dst != "" ==>
        Outcome(nodes, err) == RenameTree(old(nodes), Locate(src), Locate(dst), faults)
    {
      if src == "" || dst == "" {
        err := Some(NotExist([]));
      } else {
        var r := RenameTree(nodes, Locate(src), Locate(dst), faults);
        nodes, err := r.tree, r.err;
      }
    }
  }
}
