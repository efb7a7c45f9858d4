/**
 * Semantic versions and their precedence, as section 11 of Semantic Versioning 2.0.0 defines it:
 * major, minor and patch compare numerically; a version with a pre-release ranks below the same
 * version without one; pre-release identifiers compare one by one, numeric ones numerically,
 * alphanumeric ones in ASCII order, numeric below alphanumeric, and a shorter list whose
 * identifiers all match ranks below a longer one. Build metadata plays no part.
 * Parsing version text is done by a library and stays abstract: a partial function given as a
 * parameter wherever a version string is parsed.
 */
module SemVer {
  import opened Wrappers

  datatype Ident = Num(n: nat) | Alnum(s: string)

  datatype Version = Version(major: nat, minor: nat, patch: nat, pre: seq<Ident>, build: string)

  /** semver.NewVersion: version text to a version, or nothing when the text is not a version. */
  type Parser = string -> Option<Version>

  /** The zero version, semver.Version{}. */
  const Zero := Version(0, 0, 0, [], "")

  function CmpNat(a: nat, b: nat): (c: int)
    ensures c == 0 <==> a == b
    ensures c < 0 <==> a < b
  {
    if a < b then -1 else if a > b then 1 else 0
  }

  /** Go's byte-wise string comparison, on characters. */
  function CmpString(a: string, b: string): int {
    if a == [] && b == [] then 0
    else if a == [] then -1
    else if b == [] then 1
    else if a[0] < b[0] then -1
    else if a[0] > b[0] then 1
    else CmpString(a[1..], b[1..])
  }

  function CmpIdent(a: Ident, b: Ident): int {
    match (a, b)
    case (Num(x), Num(y)) => CmpNat(x, y)
    case (Num(_), Alnum(_)) => -1
    case (Alnum(_), Num(_)) => 1
    case (Alnum(x), Alnum(y)) => CmpString(x, y)
  }

  /** Identifier lists, left to right; a proper prefix ranks lower. */
  function CmpIdents(a: seq<Ident>, b: seq<Ident>): int {
    if a == [] && b == [] then 0
    else if a == [] then -1
    else if b == [] then 1
    else if CmpIdent(a[0], b[0]) != 0 then CmpIdent(a[0], b[0])
    else CmpIdents(a[1..], b[1..])
  }

  /** No pre-release ranks above every pre-release. */
  function CmpPre(a: seq<Ident>, b: seq<Ident>): int {
    if a == [] && b == [] then 0
    else if a == [] then 1
    else if b == [] then -1
    else CmpIdents(a, b)
  }

  /** Precedence: negative, zero or positive as a ranks below, level with or above b. */
  function Cmp(a: Version, b: Version): int {
    if a.major != b.major then CmpNat(a.major, b.major)
    else if a.minor != b.minor then CmpNat(a.minor, b.minor)
    else if a.patch != b.patch then CmpNat(a.patch, b.patch)
    else CmpPre(a.pre, b.pre)
  }

  /** Version.GreaterThan. */
  predicate GreaterThan(a: Version, b: Version) {
    Cmp(a, b) > 0
  }

  /** Equal precedence: everything but build metadata agrees. */
  predicate SamePrecedence(a: Version, b: Version) {
    a.major == b.major && a.minor == b.minor && a.patch == b.patch && a.pre == b.pre
  }

  // ---------------------------------------------------------------------------------------
  // Cmp is a total preorder whose ties are exactly equal precedence.

  lemma {:induction false} CmpStringAntisym(a: string, b: string)
    ensures CmpString(a, b) == -CmpString(b, a)
    ensures CmpString(a, b) == 0 <==> a == b
  {
    if a != [] && b != [] && a[0] == b[0] {
      CmpStringAntisym(a[1..], b[1..]);
      if a[1..] == b[1..] {
        assert a == [a[0]] + a[1..] && b == [b[0]] + b[1..];
      }
    }
  }

  lemma {:induction false} CmpStringTrans(a: string, b: string, c: string)
    requires CmpString(a, b) < 0 && CmpString(b, c) < 0
    ensures CmpString(a, c) < 0
  {
    if a != [] && b != [] && c != [] && a[0] == b[0] && b[0] == c[0] {
      CmpStringTrans(a[1..], b[1..], c[1..]);
    }
  }

  lemma CmpIdentAntisym(a: Ident, b: Ident)
    ensures CmpIdent(a, b) == -CmpIdent(b, a)
    ensures CmpIdent(a, b) == 0 <==> a == b
  {
    if a.Alnum? && b.Alnum? {
      CmpStringAntisym(a.s, b.s);
    }
  }

  lemma CmpIdentTrans(a: Ident, b: Ident, c: Ident)
    requires CmpIdent(a, b) < 0 && CmpIdent(b, c) < 0
    ensures CmpIdent(a, c) < 0
  {
    if a.Alnum? && b.Alnum? && c.Alnum? {
      CmpStringTrans(a.s, b.s, c.s);
    }
  }

  lemma {:induction false} CmpIdentsAntisym(a: seq<Ident>, b: seq<Ident>)
    ensures CmpIdents(a, b) == -CmpIdents(b, a)
    ensures CmpIdents(a, b) == 0 <==> a == b
  {
    if a != [] && b != [] {
      CmpIdentAntisym(a[0], b[0]);
      if CmpIdent(a[0], b[0]) == 0 {
        CmpIdentsAntisym(a[1..], b[1..]);
        if a[1..] == b[1..] {
          assert a == [a[0]] + a[1..] && b == [b[0]] + b[1..];
        }
      }
    }
  }

  lemma {:induction false} CmpIdentsTrans(a: seq<Ident>, b: seq<Ident>, c: seq<Ident>)
    requires CmpIdents(a, b) < 0 && CmpIdents(b, c) < 0
    ensures CmpIdents(a, c) < 0
  {
    if a != [] && b != [] && c != [] {
      CmpIdentAntisym(a[0], b[0]);
      CmpIdentAntisym(b[0], c[0]);
      if CmpIdent(a[0], b[0]) < 0 && CmpIdent(b[0], c[0]) < 0 {
        CmpIdentTrans(a[0], b[0], c[0]);
      } else if CmpIdent(a[0], b[0]) == 0 && CmpIdent(b[0], c[0]) == 0 {
        CmpIdentsTrans(a[1..], b[1..], c[1..]);
      }
    }
  }

  lemma CmpAntisym(a: Version, b: Version)
    ensures Cmp(a, b) == -Cmp(b, a)
    ensures Cmp(a, b) == 0 <==> SamePrecedence(a, b)
  {
    CmpIdentsAntisym(a.pre, b.pre);
  }

  lemma CmpTrans(a: Version, b: Version, c: Version)
    requires Cmp(a, b) < 0 && Cmp(b, c) < 0
    ensures Cmp(a, c) < 0
  {
    if SamePrecedence(a, b) || SamePrecedence(b, c) {
      CmpAntisym(a, b);
      CmpAntisym(b, c);
    } else if a.major == b.major == c.major && a.minor == b.minor == c.minor && a.patch == b.patch == c.patch {
      if a.pre != [] && b.pre != [] && c.pre != [] {
        CmpIdentsTrans(a.pre, b.pre, c.pre);
      }
    }
  }

  /** Ties are interchangeable: a version level with b compares with c the way b does. */
  lemma CmpSame(a: Version, b: Version, c: Version)
    requires SamePrecedence(a, b)
    ensures Cmp(a, c) == Cmp(b, c)
  {
  }

  /** Not greater than, and not greater than in turn, gives not greater than. */
  lemma NotGreaterTrans(a: Version, b: Version, c: Version)
    requires !GreaterThan(a, b) && !GreaterThan(b, c)
    ensures !GreaterThan(a, c)
  {
    CmpAntisym(a, b);
    CmpAntisym(b, c);
    if SamePrecedence(a, b) {
      CmpSame(a, b, c);
    } else if SamePrecedence(b, c) {
      CmpAntisym(a, c);
      CmpSame(b, c, a);
    } else {
      CmpTrans(a, b, c);
    }
  }

  /** Below b, and b not greater than c, gives below c. */
  lemma BelowNotGreater(a: Version, b: Version, c: Version)
    requires GreaterThan(b, a) && !GreaterThan(b, c)
    ensures GreaterThan(c, a)
  {
    CmpAntisym(b, a);
    CmpAntisym(b, c);
    if SamePrecedence(b, c) {
      CmpSame(b, c, a);
    } else {
      CmpTrans(a, b, c);
      CmpAntisym(a, c);
    }
  }

  lemma NotGreaterRefl(v: Version)
    ensures !GreaterThan(v, v)
  {
    CmpAntisym(v, v);
  }

  /** Strictly greater is asymmetric. */
  lemma GreaterAsym(a: Version, b: Version)
    requires GreaterThan(a, b)
    ensures !GreaterThan(b, a)
  {
    CmpAntisym(a, b);
  }

  /** A pre-release ranks below its release: 1.0.0-alpha < 1.0.0. */
  lemma PreReleaseBelowRelease(v: Version)
    requires v.pre != []
    ensures GreaterThan(v.(pre := []), v)
  {
  }

  /** Build metadata is ignored: 1.0.0+a and 1.0.0+b have equal precedence. */
  lemma BuildIgnored(v: Version, b: string)
    ensures Cmp(v, v.(build := b)) == 0
  {
    CmpAntisym(v, v.(build := b));
  }

  /** The examples of section 11: 1.0.0-alpha < 1.0.0-alpha.1 < 1.0.0-alpha.beta < 1.0.0-beta < 1.0.0-beta.2 < 1.0.0-beta.11 < 1.0.0-rc.1 < 1.0.0. */
  lemma PrecedenceExamples()
    ensures var v := (pre: seq<Ident>) => Version(1, 0, 0, pre, "");
      && Cmp(v([Alnum("alpha")]), v([Alnum("alpha"), Num(1)])) < 0
      && Cmp(v([Alnum("alpha"), Num(1)]), v([Alnum("alpha"), Alnum("beta")])) < 0
      && Cmp(v([Alnum("alpha"), Alnum("beta")]), v([Alnum("beta")])) < 0
      && Cmp(v([Alnum("beta")]), v([Alnum("beta"), Num(2)])) < 0
      && Cmp(v([Alnum("beta"), Num(2)]), v([Alnum("beta"), Num(11)])) < 0
      && Cmp(v([Alnum("beta"), Num(11)]), v([Alnum("rc"), Num(1)])) < 0
      && Cmp(v([Alnum("rc"), Num(1)]), v([])) < 0
  {
    assert CmpString("alpha", "beta") < 0;
    assert CmpString("beta", "rc") < 0;
  }
}
