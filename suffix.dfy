/** The file-name suffix of entrypoint binaries for each build environment (models.go). */
module BinarySuffix {
  import opened Strings

  /** binarySuffixes: the build configurations an entrypoint binary may be named after. */
  const BinarySuffixes: map<string, bool> := map["Debug" := true, "DebugGame" := true, "Test" := true, "Shipping" := true]

  /** getBinarySuffix for the environment name env on the operating system goos. */
  function GetBinarySuffix(env: string, goos: string): string {
    var e := ToLower(env);
    if goos == "windows" then
      if e == "debug" then "DebugGame.exe"
      else if e == "dev" || e == "development" then ".exe"
      else if e == "test" then "Test.exe"
      else if e == "prod" || e == "production" || e == "shipping" then "Shipping.exe"
      else ".exe"
    else
      if e == "debug" then "DebugGame"
      else if e == "dev" || e == "development" then ""
      else if e == "test" then "Test"
      else if e == "prod" || e == "production" || e == "shipping" then "Shipping"
      else ""
  }

  /** The configuration a lower-cased environment name selects; unknown names select development. */
  function Configuration(e: string): string {
    if e == "debug" then "DebugGame"
    else if e == "test" then "Test"
    else if e == "prod" || e == "production" || e == "shipping" then "Shipping"
    else ""
  }

  /** The table: the suffix is the configuration name, followed by ".exe" on Windows. */
  lemma SuffixTable(env: string, goos: string)
    ensures GetBinarySuffix(env, goos) == Configuration(ToLower(env)) + (if goos == "windows" then ".exe" else "")
  {
    if goos == "windows" {
      WindowsTable(env);
    } else {
      assert Configuration(ToLower(env)) + "" == Configuration(ToLower(env));
    }
  }

  lemma WindowsTable(env: string)
    ensures GetBinarySuffix(env, "windows") == Configuration(ToLower(env)) + ".exe"
  {
    var c := Configuration(ToLower(env));
    if c == "DebugGame" {
      assert c + ".exe" == "DebugGame.exe";
    } else if c == "Test" {
      assert c + ".exe" == "Test.exe";
    } else if c == "Shipping" {
      assert c + ".exe" == "Shipping.exe";
    } else {
      assert c + ".exe" == ".exe";
    }
  }

  /** Every Windows suffix is the suffix elsewhere with ".exe" appended. */
  lemma WindowsAppendsExe(env: string, goos: string)
    requires goos != "windows"
    ensures GetBinarySuffix(env, "windows") == GetBinarySuffix(env, goos) + ".exe"
  {
    SuffixTable(env, goos);
    SuffixTable(env, "windows");
  }

  /** Every configuration named by the table is a known binary suffix, and every entry of binarySuffixes is true. */
  lemma SuffixesKnown(env: string)
    ensures var c := Configuration(ToLower(env)); c == "" || (c in BinarySuffixes && BinarySuffixes[c])
    ensures forall k :: k in BinarySuffixes ==> BinarySuffixes[k]
  {
  }

  /** Matching ignores case: "PRODUCTION" selects Shipping. */
  lemma UpperCaseProduction()
    ensures GetBinarySuffix("PRODUCTION", "linux") == "Shipping"
  {
    LowerOf("PRODUCTION", "production");
    SuffixTable("PRODUCTION", "linux");
    assert Configuration("production") == "Shipping";
  }

  /** Unknown environments fall back to the development suffix. */
  lemma UnknownEnvironment()
    ensures GetBinarySuffix("staging", "windows") == ".exe"
    ensures GetBinarySuffix("staging", "linux") == ""
  {
    LowerOf("staging", "staging");
    SuffixTable("staging", "windows");
    SuffixTable("staging", "linux");
    assert Configuration("staging") == "";
  }

  lemma LowerOf(s: string, t: string)
    requires |s| == |t| && forall i :: 0 <= i < |s| ==> LowerChar(s[i]) == t[i]
    ensures ToLower(s) == t
  {
  }
}
