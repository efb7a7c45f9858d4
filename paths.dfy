/**
 * Go's lexical path handling on a system whose separator is '/': path.Clean and filepath.Clean
 * (the rules of "Lexical File Names in Plan 9"), filepath.Join, Dir, Base and Abs.
 * A path is split at every '/' into parts; Clean keeps a stack of elements, dropping empty parts
 * and ".", letting ".." remove the element before it (or stay, at the front of a relative path,
 * or vanish, at the root), and renders the stack back with single separators.
 */
module Paths {
  import opened Wrappers
  import opened Strings

  type Path = string

  /** The position of the first '/' in p. */
  function FirstSlash(p: string): (i: nat)
    requires '/' in p
    ensures i < |p| && p[i] == '/' && '/' !in p[..i]
  {
    if p[0] == '/' then 0
    else
      assert p == [p[0]] + p[1..];
      var j := FirstSlash(p[1..]);
      assert p[..j + 1] == [p[0]] + p[1..][..j];
      1 + j
  }

  /** strings.Split(p, "/"): Split("a//b") == ["a", "", "b"], Split("") == [""]. */
  function Split(p: string): (parts: seq<string>)
    ensures |parts| >= 1
    ensures forall k :: 0 <= k < |parts| ==> '/' !in parts[k]
    decreases |p|
  {
    if '/' !in p then [p]
    else
      var i := FirstSlash(p);
      [p[..i]] + Split(p[i + 1..])
  }

  /** The first '/' of p is the one with no '/' before it. */
  lemma {:induction false} FirstSlashAt(p: string, i: nat)
    requires i < |p| && p[i] == '/' && '/' !in p[..i]
    ensures FirstSlash(p) == i
  {
    if i > 0 {
      assert p[0] == p[..i][0];
      assert p[1..][i - 1] == p[i];
      assert p[1..][..i - 1] == p[..i][1..];
      FirstSlashAt(p[1..], i - 1);
    }
  }

  lemma {:induction false} SplitAppend(a: string, b: string)
    ensures Split(a + "/" + b) == Split(a) + Split(b)
    decreases |a|
  {
    if '/' !in a {
      SplitAppendFlat(a, b);
    } else {
      var x, rest := a[..FirstSlash(a)], a[FirstSlash(a) + 1..];
      SplitAppendHead(a, b);
      SplitAppend(rest, b);
      SplitCons(a);
      AppendAssoc([x], Split(a + "/" + b), Split(rest + "/" + b), Split(a), Split(rest), Split(b));
    }
  }

  lemma SplitAppendFlat(a: string, b: string)
    requires '/' !in a
    ensures Split(a + "/" + b) == [a] + Split(b)
  {
    var p := a + "/" + b;
    assert p[..|a|] == a;
    FirstSlashAt(p, |a|);
    assert p[|a| + 1..] == b;
  }

  lemma SplitCons(a: string)
    requires '/' in a
    ensures Split(a) == [a[..FirstSlash(a)]] + Split(a[FirstSlash(a) + 1..])
  {
  }

  lemma SplitAppendHead(a: string, b: string)
    requires '/' in a
    ensures Split(a + "/" + b) == [a[..FirstSlash(a)]] + Split(a[FirstSlash(a) + 1..] + "/" + b)
  {
    var p := a + "/" + b;
    var i := FirstSlash(a);
    assert p[..i] == a[..i];
    FirstSlashAt(p, i);
    assert p[i + 1..] == a[i + 1..] + "/" + b;
  }

  /** strings.Join(es, "/"). */
  function JoinSep(es: seq<string>): string {
    if es == [] then ""
    else if |es| == 1 then es[0]
    else es[0] + "/" + JoinSep(es[1..])
  }

  lemma {:induction false} JoinSepAppend(a: seq<string>, b: seq<string>)
    requires a != [] && b != []
    ensures JoinSep(a + b) == JoinSep(a) + "/" + JoinSep(b)
    decreases |a|
  {
    if |a| == 1 {
      assert (a + b)[1..] == b;
    } else {
      assert (a + b)[1..] == a[1..] + b;
      JoinSepAppend(a[1..], b);
    }
  }

  predicate NoSlash(e: string) { '/' !in e }

  predicate NoSlashes(es: seq<string>) {
    forall k :: 0 <= k < |es| ==> NoSlash(es[k])
  }

  lemma {:induction false} SplitJoinSep(es: seq<string>)
    requires es != [] && NoSlashes(es)
    ensures Split(JoinSep(es)) == es
    decreases |es|
  {
    if |es| > 1 {
      SplitAppend(es[0], JoinSep(es[1..]));
      SplitJoinSep(es[1..]);
      assert [es[0]] + es[1..] == es;
    }
  }

  lemma JoinSepNoSlash(es: seq<string>)
    requires |es| <= 1 && NoSlashes(es)
    ensures NoSlash(JoinSep(es))
  {
  }

  /** An element of a cleaned path: non-empty, not "." and without a separator. */
  predicate IsElem(e: string) { e != "" && e != "." && NoSlash(e) }

  /** An ordinary name: an element other than "..". */
  predicate IsName(e: string) { IsElem(e) && e != ".." }

  predicate AllElems(st: seq<string>) {
    forall k :: 0 <= k < |st| ==> IsElem(st[k])
  }

  predicate AllNames(st: seq<string>) {
    forall k :: 0 <= k < |st| ==> IsName(st[k])
  }

  /** One part of a path applied to the stack of elements kept so far. */
  function Step(rooted: bool, st: seq<string>, e: string): seq<string> {
    if e == "" || e == "." then st
    else if e == ".." then
      if |st| > 0 && st[|st| - 1] != ".." then st[..|st| - 1]
      else if rooted then st
      else st + [".."]
    else st + [e]
  }

  function Resolve(rooted: bool, st: seq<string>, es: seq<string>): seq<string>
    decreases |es|
  {
    if es == [] then st else Resolve(rooted, Step(rooted, st, es[0]), es[1..])
  }

  /** A stack of elements written back as a path string. */
  function Render(rooted: bool, st: seq<string>): string {
    if rooted then "/" + JoinSep(st)
    else if st == [] then "."
    else JoinSep(st)
  }

  /** The elements Clean keeps of a non-empty path. */
  function CleanStack(p: string): seq<string>
    requires p != ""
  {
    Resolve(p[0] == '/', [], Split(p))
  }

  /** filepath.Clean. */
  function Clean(p: string): string {
    if p == "" then "." else Render(p[0] == '/', CleanStack(p))
  }

  predicate IsAbs(p: string) { |p| > 0 && p[0] == '/' }

  /** A path in the form the file system model is keyed by: absolute and already clean. */
  predicate Canonical(p: string) { IsAbs(p) && Clean(p) == p }

  /** filepath.Join: leading empty arguments are skipped, the rest joined with '/' and cleaned. */
  function JoinAll(es: seq<string>): string
    decreases |es|
  {
    if es == [] then "" else if es[0] == "" then JoinAll(es[1..]) else Clean(JoinSep(es))
  }

  function Join(a: string, b: string): string {
    JoinAll([a, b])
  }

  /** filepath.Dir and path.Dir: everything before the last '/', cleaned. */
  function Dir(p: string): (r: string)
    ensures r != ""
  {
    match LastIndexOfChar(p, '/')
    case None => CleanNotEmpty(""); Clean("")
    case Some(i) => CleanNotEmpty(p[..i + 1]); Clean(p[..i + 1])
  }

  function TrimTrailingSlashes(p: string): (r: string)
    ensures HasPrefix(p, r)
  {
    if p != [] && p[|p| - 1] == '/' then TrimTrailingSlashes(p[..|p| - 1]) else p
  }

  /** path.Base: the last element, after trailing slashes are removed. */
  function Base(p: string): string {
    if p == "" then "."
    else
      var t := TrimTrailingSlashes(p);
      var last := match LastIndexOfChar(t, '/') case None => t case Some(i) => t[i + 1..];
      if last == "" then "/" else last
  }

  /** filepath.Abs with the working directory wd. */
  function Abs(wd: string, p: string): string {
    if IsAbs(p) then Clean(p) else Join(wd, p)
  }

  // ---------------------------------------------------------------------------------------
  // Resolution lemmas

  lemma {:induction false} ResolveAppend(r: bool, st: seq<string>, xs: seq<string>, ys: seq<string>)
    ensures Resolve(r, st, xs + ys) == Resolve(r, Resolve(r, st, xs), ys)
    decreases |xs|
  {
    if xs != [] {
      assert (xs + ys)[0] == xs[0];
      assert (xs + ys)[1..] == xs[1..] + ys;
      ResolveAppend(r, Step(r, st, xs[0]), xs[1..], ys);
    } else {
      assert xs + ys == ys;
    }
  }

  /** Ordinary names are pushed as they are. */
  lemma {:induction false} ResolveNames(r: bool, st: seq<string>, names: seq<string>)
    requires AllNames(names)
    ensures Resolve(r, st, names) == st + names
    decreases |names|
  {
    if names != [] {
      ResolveNames(r, st + [names[0]], names[1..]);
      assert st + [names[0]] + names[1..] == st + names;
    }
  }

  /** Resolution keeps a stack of elements; from the root it never keeps "..". */
  lemma {:induction false} ResolveElems(r: bool, st: seq<string>, es: seq<string>)
    requires AllElems(st) && NoSlashes(es)
    requires r ==> AllNames(st)
    ensures AllElems(Resolve(r, st, es))
    ensures r ==> AllNames(Resolve(r, st, es))
    decreases |es|
  {
    if es != [] {
      ResolveElems(r, Step(r, st, es[0]), es[1..]);
    }
  }

  lemma CleanStackElems(p: string)
    requires p != ""
    ensures AllElems(CleanStack(p))
    ensures p[0] == '/' ==> AllNames(CleanStack(p))
  {
    ResolveElems(p[0] == '/', [], Split(p));
  }

  lemma RenderRooted(r: bool, st: seq<string>)
    requires AllElems(st)
    ensures Render(r, st) != ""
    ensures Render(r, st)[0] == '/' <==> r
  {
    if !r && st != [] {
      assert JoinSep(st)[0] == st[0][0] by {
        if |st| > 1 {
          assert JoinSep(st) == st[0] + ("/" + JoinSep(st[1..]));
        }
      }
      assert st[0][0] in st[0];
    }
  }

  /** The parts of a path rendered from the root. */
  lemma SplitRender(st: seq<string>)
    requires AllNames(st)
    ensures Split(Render(true, st)) == [""] + (if st == [] then [""] else st)
  {
    var p := Render(true, st);
    if st == [] {
      FirstSlashAt(p, 0);
      assert p[1..] == "";
    } else {
      assert p == "" + "/" + JoinSep(st);
      SplitAppend("", JoinSep(st));
      SplitJoinSep(st);
    }
  }

  /** Cleaning a path rendered from the root gives back its stack. */
  lemma ResolveRender(st: seq<string>)
    requires AllNames(st)
    ensures Resolve(true, [], Split(Render(true, st))) == st
  {
    SplitRender(st);
    var parts := Split(Render(true, st));
    assert parts[0] == "" && Step(true, [], parts[0]) == [];
    if st != [] {
      assert parts[1..] == st;
      ResolveNames(true, [], st);
      assert [] + st == st;
    } else {
      assert parts[1..] == [""];
      assert Resolve(true, [], [""]) == Resolve(true, [], []);
    }
  }

  /** A rendered stack of names is already clean. */
  lemma CleanRender(r: bool, st: seq<string>)
    requires AllNames(st)
    ensures Clean(Render(r, st)) == Render(r, st)
  {
    RenderRooted(r, st);
    if r {
      ResolveRender(st);
    } else if st == [] {
      assert Split(".") == ["."];
      assert Resolve(false, [], ["."]) == Resolve(false, [], []);
    } else {
      var p := Render(false, st);
      assert p == JoinSep(st) && p[0] != '/';
      SplitJoinSep(st);
      ResolveNames(false, [], st);
      assert [] + st == st;
      assert Clean(p) == Render(false, Resolve(false, [], st));
    }
  }

  /** Cleaning an absolute path gives a canonical path. */
  lemma CleanCanonical(p: string)
    requires IsAbs(p)
    ensures Canonical(Clean(p))
  {
    CleanStackElems(p);
    RenderRooted(true, CleanStack(p));
    CleanRender(true, CleanStack(p));
  }

  /** Every canonical path is the rendering of a stack of names from the root. */
  lemma CanonicalStack(p: string)
    requires Canonical(p)
    ensures AllNames(CleanStack(p)) && p == Render(true, CleanStack(p))
  {
    CleanStackElems(p);
  }

  /** Two stacks of names from the root that render alike are equal. */
  lemma RenderInjective(a: seq<string>, b: seq<string>)
    requires AllNames(a) && AllNames(b)
    requires Render(true, a) == Render(true, b)
    ensures a == b
  {
    ResolveRender(a);
    ResolveRender(b);
  }

  /** The parts of a canonical path followed by more names. */
  lemma SplitRenderNames(st: seq<string>, names: seq<string>)
    requires AllNames(st) && AllNames(names) && names != []
    ensures Resolve(true, [], Split(Render(true, st) + "/" + JoinSep(names))) == st + names
  {
    var d := Render(true, st);
    SplitAppend(d, JoinSep(names));
    SplitJoinSep(names);
    ResolveAppend(true, [], Split(d), names);
    ResolveRender(st);
    ResolveNames(true, st, names);
  }

  /** Joining a canonical path with ordinary names appends them to its stack. */
  lemma JoinNames(st: seq<string>, names: seq<string>)
    requires AllNames(st) && AllNames(names) && names != []
    ensures Join(Render(true, st), JoinSep(names)) == Render(true, st + names)
  {
    var d := Render(true, st);
    var x := JoinSep(names);
    var p := d + "/" + x;
    RenderRooted(true, st);
    assert Join(d, x) == Clean(p) by {
      assert [d, x][0] == d && [d, x][1..] == [x];
      assert JoinSep([d, x]) == p;
    }
    assert Clean(p) == Render(true, st + names) by {
      SplitRenderNames(st, names);
      assert p[0] == '/';
    }
  }

  /** Below a non-root directory, appended names follow a single separator. */
  lemma RenderAppend(st: seq<string>, names: seq<string>)
    requires st != [] && names != []
    ensures Render(true, st + names) == Render(true, st) + "/" + JoinSep(names)
  {
    JoinSepAppend(st, names);
  }

  // ---------------------------------------------------------------------------------------
  // Prefixes of rendered paths

  lemma JoinSepHead(es: seq<string>)
    requires es != []
    ensures HasPrefix(JoinSep(es), es[0])
    ensures |es| > 1 ==> JoinSep(es) == es[0] + "/" + JoinSep(es[1..])
  {
  }

  /** A string that starts with b and a separator contains a separator. */
  lemma PrefixedHasSlash(a: string, b: string)
    ensures HasPrefix(a, b + "/") ==> '/' in a
  {
    if HasPrefix(a, b + "/") {
      assert a[|b|] == (b + "/")[|b|];
    }
  }

  lemma PrefixDropHead(c: string, x: string, y: string)
    ensures HasPrefix(c + x, c + y) <==> HasPrefix(x, y)
  {
    if HasPrefix(c + x, c + y) {
      assert x[..|y|] == (c + x)[|c|..|c| + |y|];
    }
    if HasPrefix(x, y) {
      assert (c + x)[..|c + y|] == c + x[..|y|];
    }
  }

  /** A prefix ending in the first separator of s fixes everything before that separator. */
  lemma SlashPrefix(a: string, x: string, b: string)
    requires NoSlash(a) && NoSlash(b)
    ensures HasPrefix(a + "/" + x, b + "/") <==> a == b
  {
    var s := a + "/" + x;
    assert s[..|a|] == a;
    FirstSlashAt(s, |a|);
    if HasPrefix(s, b + "/") {
      assert s[..|b|] == b && s[|b|] == '/';
      FirstSlashAt(s, |b|);
    }
  }

  lemma PrefixCons(a: string, x: string, b: string, y: string)
    requires NoSlash(a) && NoSlash(b)
    ensures HasPrefix(a + "/" + x, b + "/" + y) <==> a == b && HasPrefix(x, y)
  {
    var s := a + "/" + x;
    if HasPrefix(s, b + "/" + y) {
      assert s[..|b| + 1] == (b + "/" + y)[..|b| + 1] == b + "/";
      SlashPrefix(a, x, b);
      assert x[..|y|] == s[|a| + 1..|a| + 1 + |y|] == (b + "/" + y)[|b| + 1..];
    }
    if a == b && HasPrefix(x, y) {
      assert s[..|b + "/" + y|] == a + "/" + x[..|y|];
    }
  }

  lemma ConsEq(a: string, x: seq<string>, b: string, y: seq<string>)
    ensures [a] + x == [b] + y <==> a == b && x == y
  {
    if [a] + x == [b] + y {
      assert a == ([a] + x)[0];
      assert x == ([a] + x)[1..];
    }
  }

  /** The rendered T extends the rendered S past a separator exactly when the stack T extends S. */
  lemma {:induction false} JoinSepPrefix(s: seq<string>, t: seq<string>)
    requires s != [] && NoSlashes(s) && NoSlashes(t)
    ensures HasPrefix(JoinSep(t), JoinSep(s) + "/") <==> |t| > |s| && t[..|s|] == s
    decreases |s|
  {
    if |t| <= 1 {
      JoinSepNoSlash(t);
      PrefixedHasSlash(JoinSep(t), JoinSep(s));
    } else {
      var rest := JoinSep(t[1..]);
      JoinSepHead(t);
      assert t[..1] == [t[0]];
      if |s| == 1 {
        SlashPrefix(t[0], rest, s[0]);
        assert s == [s[0]];
      } else {
        var srest := JoinSep(s[1..]);
        JoinSepHead(s);
        assert JoinSep(s) + "/" == s[0] + "/" + (srest + "/");
        PrefixCons(t[0], rest, s[0], srest + "/");
        JoinSepPrefix(s[1..], t[1..]);
        if |t| > |s| {
          assert t[..|s|] == [t[0]] + t[1..][..|s| - 1];
          assert s == [s[0]] + s[1..];
          ConsEq(t[0], t[1..][..|s| - 1], s[0], s[1..]);
        }
      }
    }
  }

  lemma ElemsNoSlashes(st: seq<string>)
    requires AllElems(st)
    ensures NoSlashes(st)
  {
  }

  /** The first character of a rendered relative stack is the first character of its first element. */
  lemma RenderFirstChars(st: seq<string>)
    requires AllElems(st) && st != []
    ensures JoinSep(st)[0] == st[0][0]
    ensures |st[0]| > 1 ==> JoinSep(st)[1] == st[0][1]
  {
    JoinSepHead(st);
    assert JoinSep(st)[..|st[0]|] == st[0];
  }

  /**
   * For stacks of elements S and T resolved the same way, the path rendered from T starts
   * with the path rendered from S followed by a separator exactly when S is not empty and
   * T strictly extends S.
   */
  lemma RenderPrefix(r: bool, s: seq<string>, t: seq<string>)
    requires AllElems(s) && AllElems(t)
    ensures HasPrefix(Render(r, t), Render(r, s) + "/") <==> |s| > 0 && |t| > |s| && t[..|s|] == s
  {
    ElemsNoSlashes(s);
    ElemsNoSlashes(t);
    if r {
      assert Render(r, s) + "/" == "/" + (JoinSep(s) + "/");
      PrefixDropHead("/", JoinSep(t), JoinSep(s) + "/");
      if s == [] {
        if t != [] {
          RenderFirstChars(t);
          assert st0: t[0][0] in t[0];
        }
        assert !HasPrefix(JoinSep(t), "/");
      } else {
        JoinSepPrefix(s, t);
      }
    } else if s == [] {
      if t != [] {
        RenderFirstChars(t);
        if |t[0]| == 1 {
          assert t[0] == [t[0][0]];
        } else {
          assert t[0][1] in t[0];
        }
      }
      assert !HasPrefix(Render(r, t), "./");
    } else {
      RenderFirstChars(s);
      assert |JoinSep(s) + "/"| > 1;
      if t != [] {
        JoinSepPrefix(s, t);
      }
    }
  }

  /** filepath.Join of a non-empty directory and a name resolves the name's parts on top of the directory's stack. */
  lemma JoinResolve(dir: string, name: string)
    requires dir != ""
    ensures Join(dir, name) == Render(dir[0] == '/', Resolve(dir[0] == '/', CleanStack(dir), Split(name)))
  {
    var p := dir + "/" + name;
    assert [dir, name][0] == dir && [dir, name][1..] == [name];
    assert JoinSep([dir, name]) == p;
    assert p[0] == dir[0];
    SplitAppend(dir, name);
    ResolveAppend(dir[0] == '/', [], Split(dir), Split(name));
  }

  // ---------------------------------------------------------------------------------------
  // Dir, Base and Abs of canonical paths

  lemma RenderOne(e: string)
    ensures Render(true, [e]) == "/" + e
  {
  }

  /** The last separator of a path rendered from a non-empty stack precedes its last element. */
  lemma RenderLast(st: seq<string>)
    requires AllNames(st) && st != []
    ensures var p := Render(true, st); var i := |p| - |st[|st| - 1]| - 1;
      0 <= i < |p| && LastIndexOfChar(p, '/') == Some(i) && p[i + 1..] == st[|st| - 1]
      && p[..i + 1] == (if |st| == 1 then "/" else Render(true, st[..|st| - 1]) + "/")
  {
    var init, last := st[..|st| - 1], st[|st| - 1];
    var p := Render(true, st);
    assert st == init + [last];
    if init == [] {
      RenderOne(last);
      assert p == "/" + last;
    } else {
      RenderAppend(init, [last]);
      assert p == Render(true, init) + "/" + last;
    }
    var i := |p| - |last| - 1;
    assert p[i + 1..] == last;
    LastIndexOfCharAt(p, '/', i);
  }

  /** Dir of a canonical path drops its last element. */
  lemma DirRender(st: seq<string>)
    requires AllNames(st) && st != []
    ensures Dir(Render(true, st)) == Render(true, st[..|st| - 1])
  {
    RenderLast(st);
    var p := Render(true, st);
    var init := st[..|st| - 1];
    var i := |p| - |st[|st| - 1]| - 1;
    assert Dir(p) == Clean(p[..i + 1]);
    if |st| == 1 {
      CleanRender(true, []);
      assert init == [] && Render(true, init) == "/";
    } else {
      CleanTrailingSlash(init);
    }
  }

  /** A trailing separator after a canonical path is cleaned away. */
  lemma CleanTrailingSlash(st: seq<string>)
    requires AllNames(st) && st != []
    ensures Clean(Render(true, st) + "/") == Render(true, st)
  {
    var d := Render(true, st);
    RenderRooted(true, st);
    assert (d + "/")[0] == '/';
    assert d + "/" == d + "/" + "";
    SplitAppend(d, "");
    ResolveAppend(true, [], Split(d), [""]);
    ResolveRender(st);
    assert Resolve(true, st, [""]) == st;
  }

  /** Base of a canonical path is its last element. */
  lemma BaseRender(st: seq<string>)
    requires AllNames(st) && st != []
    ensures Base(Render(true, st)) == st[|st| - 1]
  {
    RenderLast(st);
    var p := Render(true, st);
    var last := st[|st| - 1];
    assert p[|p| - 1] == last[|last| - 1];
    assert last[|last| - 1] in last;
  }

  /** A rooted path of names is its directory's path, a separator where needed, and its last name. */
  lemma RenderSnoc(st: seq<string>)
    requires AllNames(st) && st != []
    ensures var p, init := Render(true, st), Render(true, st[..|st| - 1]);
      if |st| == 1 then init == "/" && p == "/" + st[0]
      else |init| >= 2 && p == init + "/" + st[|st| - 1]
  {
    var init, last := st[..|st| - 1], st[|st| - 1];
    assert st == init + [last];
    if init == [] {
      RenderOne(last);
    } else {
      RenderAppend(init, [last]);
      assert IsName(init[0]);
      assert |JoinSep(init)| >= |init[0]|;
    }
  }

  /** A canonical path other than the root: its directory is canonical and shorter. */
  lemma DirCanonical(p: Path)
    requires Canonical(p) && p != "/"
    ensures Canonical(Dir(p)) && |Dir(p)| < |p|
    ensures Dir(p) == "/" || p == Dir(p) + "/" + Base(p)
    ensures Dir(p) == "/" ==> p == "/" + Base(p)
  {
    CanonicalStack(p);
    var st := CleanStack(p);
    assert st != [];
    DirRender(st);
    BaseRender(st);
    RenderSnoc(st);
    var init := st[..|st| - 1];
    assert AllNames(init);
    RenderRooted(true, init);
    CleanRender(true, init);
  }

  /** filepath.Abs gives a canonical path for every non-empty path and canonical working directory. */
  lemma AbsCanonical(wd: Path, p: string)
    requires Canonical(wd) && p != ""
    ensures Canonical(Abs(wd, p))
  {
    if IsAbs(p) {
      CleanCanonical(p);
    } else {
      JoinResolve(wd, p);
      CanonicalStack(wd);
      var t := Resolve(true, CleanStack(wd), Split(p));
      ResolveElems(true, CleanStack(wd), Split(p));
      RenderRooted(true, t);
      CleanRender(true, t);
    }
  }

  /** Clean never returns the empty string. */
  lemma CleanNotEmpty(p: string)
    ensures Clean(p) != ""
  {
    if p != "" {
      CleanStackElems(p);
      RenderRooted(p[0] == '/', CleanStack(p));
    }
  }

  lemma JoinNotEmpty(a: string, b: string)
    requires b != ""
    ensures Join(a, b) != ""
  {
    if a == "" {
      assert [a, b][1..] == [b];
      assert Join(a, b) == JoinAll([b]) == Clean(JoinSep([b]));
      CleanNotEmpty(JoinSep([b]));
    } else {
      assert Join(a, b) == Clean(JoinSep([a, b]));
      CleanNotEmpty(JoinSep([a, b]));
    }
  }

  /** Joining a canonical path with the empty name leaves it as it is. */
  lemma JoinEmpty(d: Path)
    requires Canonical(d)
    ensures Join(d, "") == d
  {
    JoinResolve(d, "");
    CanonicalStack(d);
    assert Split("") == [""];
    assert Resolve(true, CleanStack(d), [""]) == CleanStack(d);
  }

  /** filepath.Join of a canonical path and further ordinary names appends the names to its stack. */
  lemma JoinAllNames(st: seq<string>, names: seq<string>)
    requires AllNames(st) && AllNames(names) && names != []
    ensures JoinAll([Render(true, st)] + names) == Render(true, st + names)
  {
    var d := Render(true, st);
    RenderRooted(true, st);
    assert ([d] + names)[0] == d;
    JoinSepAppend([d], names);
    assert JoinSep([d, JoinSep(names)]) == d + "/" + JoinSep(names);
    assert [d, JoinSep(names)][0] == d;
    JoinNames(st, names);
  }
}
