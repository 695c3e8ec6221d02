/**
 * The parts of Go's `path/filepath` and `strings` packages the modelled code relies on,
 * for Unix paths: Clean of an absolute path, Abs against a working directory, Ext, Base,
 * HasSuffix, TrimSuffix, TrimPrefix, Split, Join and an ASCII ToLower.
 */
module FilePaths {

  predicate IsAbs(p: string) {
    |p| > 0 && p[0] == '/'
  }

  /** A working directory as os.Getwd reports it: always absolute. */
  type AbsPath = p: string | IsAbs(p) witness "/"

  /** strings.Split(s, sep) for a one-character separator: the pieces between separators, empty pieces included. */
  function Split(s: string, sep: char): (r: seq<string>)
    ensures |r| >= 1
    ensures forall i :: 0 <= i < |r| ==> sep !in r[i]
  {
    if s == [] then [""]
    else if s[0] == sep then [""] + Split(s[1..], sep)
    else
      var rest := Split(s[1..], sep);
      [[s[0]] + rest[0]] + rest[1..]
  }

  /** strings.Join(parts, sep) for a one-character separator. */
  function Join(parts: seq<string>, sep: char): string {
    if parts == [] then ""
    else if |parts| == 1 then parts[0]
    else parts[0] + [sep] + Join(parts[1..], sep)
  }

  /** An element Clean keeps: non-empty, not "." and not "..", without a separator. */
  predicate IsNormalElement(e: string) {
    e != "" && e != "." && e != ".." && '/' !in e
  }

  predicate AllNormal(es: seq<string>) {
    forall i :: 0 <= i < |es| ==> IsNormalElement(es[i])
  }

  /**
   * Lexical processing of the elements of a rooted path, left to right: empty and "."
   * elements vanish, ".." removes the element before it, and ".." at the root stays at the root.
   */
  function Resolve(es: seq<string>): (r: seq<string>)
    requires forall i :: 0 <= i < |es| ==> '/' !in es[i]
    ensures AllNormal(r)
    ensures |r| <= |es|
  {
    if es == [] then []
    else
      var s := Resolve(es[..|es| - 1]);
      var e := es[|es| - 1];
      if e == "" || e == "." then s
      else if e == ".." then (if s == [] then [] else s[..|s| - 1])
      else s + [e]
  }

  /** filepath.Clean of an absolute path. */
  function CleanAbs(p: string): (r: string)
    ensures IsAbs(r)
  {
    "/" + Join(Resolve(Split(p, '/')), '/')
  }

  /** A path that Clean leaves as it is: the root, or "/" followed by normal elements. */
  predicate IsCleanAbs(p: string) {
    p == "/" || (|p| > 1 && p[0] == '/' && Split(p[1..], '/') != [] && AllNormal(Split(p[1..], '/')))
  }

  /** filepath.Abs: a relative path is joined to the working directory; both results are cleaned. */
  function Abs(p: string, cwd: AbsPath): (r: string)
    ensures IsAbs(r)
  {
    if IsAbs(p) then CleanAbs(p) else CleanAbs(cwd + "/" + p)
  }

  lemma {:induction false} SplitNoSeparator(a: string, sep: char)
    requires sep !in a
    ensures Split(a, sep) == [a]
  {
    if a != [] {
      SplitNoSeparator(a[1..], sep);
      assert [a[0]] + a[1..] == a;
    }
  }

  lemma {:induction false} SplitAfterElement(a: string, sep: char, x: string)
    requires sep !in a
    ensures Split(a + [sep] + x, sep) == [a] + Split(x, sep)
  {
    if a == [] {
      assert a + [sep] + x == [sep] + x;
      assert ([sep] + x)[1..] == x;
    } else {
      assert (a + [sep] + x)[1..] == a[1..] + [sep] + x;
      SplitAfterElement(a[1..], sep, x);
      assert [a[0]] + a[1..] == a;
    }
  }

  /** Splitting undoes joining when no part contains the separator. */
  lemma {:induction false} SplitJoin(parts: seq<string>, sep: char)
    requires parts != []
    requires forall i :: 0 <= i < |parts| ==> sep !in parts[i]
    ensures Split(Join(parts, sep), sep) == parts
  {
    if |parts| == 1 {
      SplitNoSeparator(parts[0], sep);
    } else {
      SplitJoin(parts[1..], sep);
      SplitAfterElement(parts[0], sep, Join(parts[1..], sep));
    }
  }

  /** Joining undoes splitting. */
  lemma {:induction false} JoinSplit(s: string, sep: char)
    ensures Join(Split(s, sep), sep) == s
  {
    if s != [] {
      JoinSplit(s[1..], sep);
      var rest := Split(s[1..], sep);
      if s[0] == sep {
        assert ([""] + rest)[1..] == rest;
        assert s == [sep] + s[1..];
      } else if |rest| == 1 {
        assert s == [s[0]] + s[1..];
      } else {
        assert ([[s[0]] + rest[0]] + rest[1..])[1..] == rest[1..];
        assert Join(rest, sep) == rest[0] + [sep] + Join(rest[1..], sep);
        assert s == [s[0]] + s[1..];
      }
    }
  }

  /**
   * The pieces after the first one, joined again, are exactly the text after the first
   * separator.
   */
  lemma AfterFirstSeparator(s: string, sep: char)
    requires |Split(s, sep)| >= 2
    ensures var head := Split(s, sep)[0];
      |head| < |s| && s[..|head|] == head && s[|head|] == sep
      && Join(Split(s, sep)[1..], sep) == s[|head| + 1..]
  {
    var parts := Split(s, sep);
    JoinSplit(s, sep);
    assert s == parts[0] + [sep] + Join(parts[1..], sep);
  }

  /** Resolving a list that starts at the root and holds only normal elements changes nothing. */
  lemma {:induction false} ResolveNormal(es: seq<string>)
    requires AllNormal(es)
    ensures Resolve([""] + es) == es
  {
    if es != [] {
      var init := es[..|es| - 1];
      assert ([""] + es)[..|es|] == [""] + init;
      ResolveNormal(init);
      assert init + [es[|es| - 1]] == es;
    }
  }

  /** Clean produces the root or the root followed by normal elements. */
  lemma CleanAbsIsClean(p: string)
    ensures IsCleanAbs(CleanAbs(p))
  {
    var es := Resolve(Split(p, '/'));
    if es != [] {
      SplitJoin(es, '/');
      assert CleanAbs(p)[1..] == Join(es, '/');
    }
  }

  /** Clean is idempotent: cleaning a cleaned path returns it unchanged. */
  lemma CleanAbsIdempotent(p: string)
    ensures CleanAbs(CleanAbs(p)) == CleanAbs(p)
  {
    var es := Resolve(Split(p, '/'));
    var c := CleanAbs(p);
    if es == [] {
      assert c == "/";
      assert Split("/", '/') == [""] + Split("", '/');
      assert Resolve([""] + [""]) == [];
    } else {
      SplitJoin(es, '/');
      assert c == "/" + Join(es, '/');
      assert c[0] == '/' && c[1..] == Join(es, '/');
      assert Split(c, '/') == [""] + es;
      ResolveNormal(es);
    }
  }

  /**
   * filepath.Ext: the suffix of the last element starting at its final '.', or "" when the
   * last element has no '.'.
   */
  function Ext(p: string): (r: string)
    ensures r == "" || (r[0] == '.' && |r| <= |p| && p[|p| - |r|..] == r)
    ensures forall i :: 0 < i < |r| ==> r[i] != '.' && r[i] != '/'
  {
    if p == [] || p[|p| - 1] == '/' then ""
    else if p[|p| - 1] == '.' then "."
    else
      var e := Ext(p[..|p| - 1]);
      if e == "" then "" else e + [p[|p| - 1]]
  }

  /** Ext is empty exactly when the last element has no '.'. */
  lemma {:induction false} ExtEmptyIff(p: string)
    ensures Ext(p) == "" <==> forall i :: LastElementStart(p) <= i < |p| ==> p[i] != '.'
  {
    if p != [] && p[|p| - 1] != '/' && p[|p| - 1] != '.' {
      ExtEmptyIff(p[..|p| - 1]);
      assert LastElementStart(p) == LastElementStart(p[..|p| - 1]);
    }
  }

  /** Index where the last element begins: just after the last '/', or 0. */
  function LastElementStart(p: string): (k: nat)
    ensures k <= |p|
    ensures forall i :: k <= i < |p| ==> p[i] != '/'
    ensures k > 0 ==> p[k - 1] == '/'
  {
    if p == [] then 0
    else if p[|p| - 1] == '/' then |p|
    else LastElementStart(p[..|p| - 1])
  }

  function TrimTrailingSlashes(p: string): (r: string)
    ensures |r| <= |p| && r == p[..|r|]
    ensures r == "" || r[|r| - 1] != '/'
  {
    if p != [] && p[|p| - 1] == '/' then TrimTrailingSlashes(p[..|p| - 1]) else p
  }

  /** filepath.Base: the last element after trailing slashes are removed; "." for "", "/" for all slashes. */
  function Base(p: string): (r: string)
    ensures r != ""
    ensures r != "/" ==> '/' !in r
  {
    if p == "" then "."
    else
      var q := TrimTrailingSlashes(p);
      if q == "" then "/" else q[LastElementStart(q)..]
  }

  predicate HasSuffix(s: string, suffix: string) {
    |suffix| <= |s| && s[|s| - |suffix|..] == suffix
  }

  function TrimSuffix(s: string, suffix: string): (r: string)
    ensures HasSuffix(s, suffix) ==> r + suffix == s
    ensures !HasSuffix(s, suffix) ==> r == s
  {
    if HasSuffix(s, suffix) then s[..|s| - |suffix|] else s
  }

  function TrimPrefix(s: string, prefix: string): (r: string)
    ensures |prefix| <= |s| && s[..|prefix|] == prefix ==> prefix + r == s
    ensures !(|prefix| <= |s| && s[..|prefix|] == prefix) ==> r == s
  {
    if |prefix| <= |s| && s[..|prefix|] == prefix then s[|prefix|..] else s
  }

  predicate HasPrefix(s: string, prefix: string) {
    |prefix| <= |s| && s[..|prefix|] == prefix
  }

  /** strings.Contains: sub occurs somewhere in s. */
  predicate Contains(s: string, sub: string)
    decreases |s|
  {
    HasPrefix(s, sub) || (s != [] && Contains(s[1..], sub))
  }

  /** Text placed anywhere inside a longer string is found by Contains. */
  lemma {:induction false} ContainsInside(a: string, sub: string, b: string)
    ensures Contains(a + sub + b, sub)
  {
    if a == [] {
      assert (a + sub + b)[..|sub|] == sub;
    } else {
      ContainsInside(a[1..], sub, b);
      assert (a + sub + b)[1..] == a[1..] + sub + b;
    }
  }

  function LowerChar(c: char): char {
    if 'A' <= c <= 'Z' then (c as int - 'A' as int + 'a' as int) as char else c
  }

  /** strings.ToLower restricted to ASCII letters. */
  function ToLower(s: string): (r: string)
    ensures |r| == |s|
    ensures forall i :: 0 <= i < |s| ==> r[i] == LowerChar(s[i])
  {
    seq(|s|, i requires 0 <= i < |s| => LowerChar(s[i]))
  }
}
