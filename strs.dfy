/** The parts of Go's `strings` and `strconv` packages the launcher relies on. */
module Strings {
  import opened Wrappers
  import opened Numeric

  predicate HasPrefix(s: string, prefix: string) {
    |prefix| <= |s| && s[..|prefix|] == prefix
  }

  predicate HasSuffix(s: string, suffix: string) {
    |suffix| <= |s| && s[|s| - |suffix|..] == suffix
  }

  /** sub occurs in s at position j. */
  predicate OccursAt(s: string, sub: string, j: nat) {
    j + |sub| <= |s| && s[j..j + |sub|] == sub
  }

  /** strings.Index: the leftmost position at which sub occurs in s. */
  function IndexOf(s: string, sub: string): (r: Option<nat>)
    ensures r.Some? ==> OccursAt(s, sub, r.value)
    ensures r.Some? ==> forall j :: 0 <= j < r.value ==> !OccursAt(s, sub, j)
    ensures r.None? ==> forall j :: 0 <= j ==> !OccursAt(s, sub, j)
    decreases |s|
  {
    if HasPrefix(s, sub) then Some(0)
    else if s == [] then None
    else
      var rest := IndexOf(s[1..], sub);
      assert forall j :: 1 <= j ==> (OccursAt(s, sub, j) <==> OccursAt(s[1..], sub, j - 1)) by {
        forall j | 1 <= j ensures OccursAt(s, sub, j) <==> OccursAt(s[1..], sub, j - 1) {
          OccursShift(s, sub, j);
        }
      }
      if rest.None? then None else Some(rest.value + 1)
  }

  /** An occurrence past the first character is an occurrence in the tail. */
  lemma OccursShift(s: string, sub: string, j: nat)
    requires 1 <= j && s != []
    ensures OccursAt(s, sub, j) <==> OccursAt(s[1..], sub, j - 1)
  {
    if j + |sub| <= |s| {
      var u, v := s[j..j + |sub|], s[1..][j - 1..j - 1 + |sub|];
      assert forall k :: 0 <= k < |sub| ==> u[k] == s[j + k] == v[k];
      assert u == v;
    }
  }

  /** strings.Contains. */
  predicate Contains(s: string, sub: string) {
    IndexOf(s, sub).Some?
  }

  lemma ContainsAt(s: string, sub: string, i: nat)
    requires OccursAt(s, sub, i)
    ensures Contains(s, sub)
  {
  }

  /** strings.Replace(s, target, replacement, 1): the first occurrence of target is replaced. */
  function ReplaceFirst(s: string, target: string, replacement: string): (r: string)
    ensures IndexOf(s, target).None? ==> r == s
    ensures IndexOf(s, target).Some? ==>
      var i := IndexOf(s, target).value; r == s[..i] + replacement + s[i + |target|..]
  {
    match IndexOf(s, target)
    case None => s
    case Some(i) => s[..i] + replacement + s[i + |target|..]
  }

  /** strings.Count with a one-character separator: the number of occurrences of c. */
  function CountChar(s: string, c: char): nat {
    if s == [] then 0 else CountChar(s[..|s| - 1], c) + (if s[|s| - 1] == c then 1 else 0)
  }

  lemma CountCharAppend(a: string, b: string, c: char)
    ensures CountChar(a + b, c) == CountChar(a, c) + CountChar(b, c)
    decreases |b|
  {
    if b == [] {
      assert a + b == a;
    } else {
      assert (a + b)[..|a + b| - 1] == a + b[..|b| - 1];
      assert (a + b)[|a + b| - 1] == b[|b| - 1];
      CountCharAppend(a, b[..|b| - 1], c);
    }
  }

  lemma CountCharAbsent(s: string, c: char)
    requires c !in s
    ensures CountChar(s, c) == 0
  {
    if s != [] {
      assert s[..|s| - 1] + [s[|s| - 1]] == s;
      CountCharAbsent(s[..|s| - 1], c);
    }
  }

  /** strings.LastIndex with a one-character needle. */
  function LastIndexOfChar(s: string, c: char): (r: Option<nat>)
    ensures r.None? <==> c !in s
    ensures r.Some? ==> r.value < |s| && s[r.value] == c && c !in s[r.value + 1..]
  {
    if s == [] then None
    else if s[|s| - 1] == c then Some(|s| - 1)
    else
      var r := LastIndexOfChar(s[..|s| - 1], c);
      assert s == s[..|s| - 1] + [s[|s| - 1]];
      if r.Some? then assert s[r.value + 1..] == s[..|s| - 1][r.value + 1..] + [s[|s| - 1]]; r
      else r
  }

  /** The last c in s is the one with no c after it. */
  lemma {:induction false} LastIndexOfCharAt(s: string, c: char, i: nat)
    requires i < |s| && s[i] == c && c !in s[i + 1..]
    ensures LastIndexOfChar(s, c) == Some(i)
    decreases |s|
  {
    if i < |s| - 1 {
      assert s[|s| - 1] == s[i + 1..][|s| - 2 - i];
      assert s[..|s| - 1][i + 1..] == s[i + 1..][..|s| - 2 - i];
      LastIndexOfCharAt(s[..|s| - 1], c, i);
    }
  }

  /**
   * The lower-case form of c as far as matching against lower-case ASCII words is concerned:
   * unicode.ToLower maps A-Z to a-z, U+0130 (capital I with dot) to 'i' and U+212A (Kelvin sign)
   * to 'k'; every other character it maps to a character that is not an ASCII letter, and such a
   * character lies outside every keyword either way, so it is kept as it is.
   */
  function LowerChar(c: char): char {
    if 'A' <= c <= 'Z' then (c as int + 32) as char
    else if c == 'İ' then 'i'
    else if c == 'K' then 'k'
    else c
  }

  /** strings.ToLower, as seen by a comparison with a lower-case ASCII word. */
  function ToLower(s: string): (r: string)
    ensures |r| == |s|
    ensures forall i :: 0 <= i < |s| ==> r[i] == LowerChar(s[i])
  {
    if s == [] then [] else [LowerChar(s[0])] + ToLower(s[1..])
  }

  predicate IsDigit(c: char) { '0' <= c <= '9' }

  /** What strconv.Atoi reports: the value and whether the error is nil. */
  datatype AtoiResult = AtoiResult(value: int, ok: bool)

  /** The outcome of strconv.ParseUint's scan of a decimal digit string. */
  datatype Scan = Parsed(n: nat) | SyntaxError | RangeError

  /** ParseUint(s, 10, 64) scanning from left to right with accumulator n < 2^64. */
  function ScanDigits(s: string, n: nat): (r: Scan)
    requires n < TWO_64
    ensures r.Parsed? ==> r.n < TWO_64
    decreases |s|
  {
    if s == [] then Parsed(n)
    else if !IsDigit(s[0]) then SyntaxError
    else
      var m := n * 10 + (s[0] as int - 48);
      if m >= TWO_64 then RangeError else ScanDigits(s[1..], m)
  }

  /** strconv.ParseInt(s, 10, 64) (Atoi's slow path). */
  function ParseInt64(s: string): AtoiResult {
    if s == [] then AtoiResult(0, false)
    else
      var neg := s[0] == '-';
      var digits := if s[0] == '-' || s[0] == '+' then s[1..] else s;
      if digits == [] then AtoiResult(0, false)
      else
        match ScanDigits(digits, 0)
        case SyntaxError => AtoiResult(0, false)
        case RangeError => AtoiResult(if neg then MIN_INT64 else MAX_INT64, false)
        case Parsed(u) =>
          if !neg && u > MAX_INT64 then AtoiResult(MAX_INT64, false)
          else if neg && u > -MIN_INT64 then AtoiResult(MIN_INT64, false)
          else var v: int := u; AtoiResult(if neg then -v else v, true)
  }

  predicate AllDigits(s: string) {
    forall i :: 0 <= i < |s| ==> IsDigit(s[i])
  }

  /** s without one leading sign character. */
  function Unsigned(s: string): string
    requires s != []
  {
    if s[0] == '-' || s[0] == '+' then s[1..] else s
  }

  /** strconv.Atoi on a 64-bit platform: a fast path for strings of 1 to 18 bytes, else ParseInt. */
  function Atoi(s: string): (r: AtoiResult)
    ensures !r.ok ==> r.value == 0 || r.value == MAX_INT64 || r.value == MIN_INT64
  {
    if 0 < |s| < 19 then
      var digits := Unsigned(s);
      if digits == [] || !AllDigits(digits) then AtoiResult(0, false)
      else var v: int := DigitsValue(digits); AtoiResult(if s[0] == '-' then -v else v, true)
    else ParseInt64(s)
  }

  /** A missing query parameter reads as the empty string, which Atoi rejects with value 0. */
  lemma AtoiEmpty()
    ensures Atoi("") == AtoiResult(0, false)
  {
  }

  /** A short string with a non-digit character after its first yields 0 and an error. */
  lemma AtoiNonNumeric(s: string, k: nat)
    requires 0 < |s| < 19 && 0 < k < |s| && !IsDigit(s[k])
    ensures Atoi(s) == AtoiResult(0, false)
  {
    var digits := Unsigned(s);
    var at := if s[0] == '-' || s[0] == '+' then k - 1 else k;
    assert digits[at] == s[k];
    assert !AllDigits(digits);
  }

  /** Every unsigned decimal number below 10^18 reads back as itself. */
  lemma AtoiDecimal(n: nat)
    requires n < Pow10(18)
    ensures Atoi(Decimal(n)) == AtoiResult(n, true)
  {
    DecimalLength(n, 18);
    DecimalRoundTrip(n);
    var d := Decimal(n);
    assert Unsigned(d) == d;
  }

  function Pow10(k: nat): nat {
    if k == 0 then 1 else 10 * Pow10(k - 1)
  }

  lemma {:induction false} DecimalLength(n: nat, k: nat)
    requires 1 <= k && n < Pow10(k)
    ensures |Decimal(n)| <= k
  {
    if n >= 10 {
      assert k >= 2;
      DecimalLength(n / 10, k - 1);
    }
  }

  /** A prefix one element longer. */
  lemma PrefixStep<T>(s: seq<T>, i: nat)
    requires i < |s|
    ensures s[..i + 1] == s[..i] + [s[i]]
  {
  }

  lemma PrefixAll<T>(s: seq<T>)
    ensures s[..|s|] == s
  {
  }

  /** Associativity of concatenation, stated on named sequences so it is one step. */
  lemma AppendAssoc<T>(h: seq<T>, huv: seq<T>, uv: seq<T>, hu: seq<T>, u: seq<T>, v: seq<T>)
    requires huv == h + uv && uv == u + v && hu == h + u
    ensures huv == hu + v
  {
  }

  lemma UpdateTwice<K, V>(m: map<K, V>, k: K, a: V, b: V)
    ensures m[k := a][k := b] == m[k := b]
  {
  }
}
