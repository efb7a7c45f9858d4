/**
 * Directory walks (filepath.WalkDir) as the sequence of visits the walk makes, in walk order,
 * and the executable probe (os.Open followed by executable.IsExecutable) as a function of the path.
 */
module Walks {
  import opened Wrappers

  /**
   * One call of the walk callback: the path, whether the entry is a directory, whether the walk
   * passes an error for it, and, for FindAppExecutable, whether d.Info() fails and whether the
   * entry is a regular file.
   */
  datatype Visit = Visit(path: string, isDir: bool, walkErr: bool, infoFails: bool, regular: bool)

  /**
   * What opening a file and checking it for an executable format gives: the open fails, the
   * check fails with io.EOF (its read meets the end of the file), the check fails otherwise, or
   * the check answers.
   */
  datatype Probe = OpenFails | CheckEOF | CheckFails | Checked(executable: bool)

  type Prober = string -> Probe

  /** The first index whose flag is set, or |bs| when none is. */
  function FirstTrue(bs: seq<bool>): (n: nat)
    ensures n <= |bs|
    ensures n < |bs| ==> bs[n]
    ensures forall j :: 0 <= j < n ==> !bs[j]
  {
    if bs == [] then 0 else if bs[0] then 0 else 1 + FirstTrue(bs[1..])
  }

  /** The last index whose flag is set. */
  function LastTrue(bs: seq<bool>): (r: Option<nat>)
    ensures r.Some? ==> r.value < |bs| && bs[r.value] && forall j :: r.value < j < |bs| ==> !bs[j]
    ensures r.None? ==> forall j :: 0 <= j < |bs| ==> !bs[j]
  {
    if bs == [] then None else if bs[|bs| - 1] then Some(|bs| - 1) else LastTrue(bs[..|bs| - 1])
  }

  /** The first set flag is at n when no earlier flag is set. */
  lemma FirstTrueAt(bs: seq<bool>, n: nat)
    requires n <= |bs| && (n < |bs| ==> bs[n]) && forall j :: 0 <= j < n ==> !bs[j]
    ensures FirstTrue(bs) == n
  {
  }

  /** Extending a prefix by one flag. */
  lemma LastTrueStep(bs: seq<bool>, i: nat)
    requires i < |bs|
    ensures LastTrue(bs[..i + 1]) == if bs[i] then Some(i) else LastTrue(bs[..i])
  {
    assert bs[..i + 1][..i] == bs[..i];
  }
}
