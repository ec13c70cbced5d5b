/** Path strings (src/path/path.c and the string helpers of src/path/canon.c), and the component
    sequences they stand for. */
module Paths {
  import opened Common

  const PATH_MAX: nat := 4096
  const NAME_MAX: nat := 255
  const NUL: char := '\0'

  // ----- Components -----

  type Name = string
  type Path = seq<Name>

  predicate IsName(c: Name) {
    c != "" && '/' !in c && NUL !in c
  }

  predicate ValidPath(p: Path) {
    forall i :: 0 <= i < |p| ==> IsName(p[i])
  }

  function Tail(p: Path): string {
    if p == [] then "" else "/" + p[0] + Tail(p[1..])
  }

  /** The canonical string of an absolute path. */
  function Render(p: Path): string {
    if p == [] then "/" else Tail(p)
  }

  function Parent(p: Path): Path {
    if p == [] then [] else p[..|p| - 1]
  }

  function SkipSlashes(s: string): (r: string)
    ensures |r| <= |s| && (r != "" ==> r[0] != '/')
    ensures r == s[|s| - |r|..] && forall i :: 0 <= i < |s| - |r| ==> s[i] == '/'
  {
    if s == "" || s[0] != '/' then s else SkipSlashes(s[1..])
  }

  function FirstName(s: string): (c: Name)
    ensures c <= s && '/' !in c && (|c| < |s| ==> s[|c|] == '/')
    ensures s != "" && s[0] != '/' ==> c != ""
  {
    if s == "" || s[0] == '/' then "" else [s[0]] + FirstName(s[1..])
  }

  /** The components between the slashes of a string. */
  function Parse(s: string): Path
    decreases |s|, 1
  {
    ParseTrimmed(SkipSlashes(s))
  }

  function ParseTrimmed(s: string): Path
    requires s != "" ==> s[0] != '/'
    decreases |s|, 0
  {
    if s == "" then []
    else
      var c := FirstName(s);
      [c] + Parse(s[|c|..])
  }

  predicate EndsWithSlash(s: string) {
    s != "" && s[|s| - 1] == '/'
  }

  lemma {:induction false} TailAppend(p: Path, q: Path)
    ensures Tail(p + q) == Tail(p) + Tail(q)
  {
    if p == [] {
      assert p + q == q;
    } else {
      assert (p + q)[1..] == p[1..] + q;
      TailAppend(p[1..], q);
    }
  }

  lemma {:induction false} TailSnoc(p: Path, c: Name)
    ensures Tail(p + [c]) == Tail(p) + "/" + c
  {
    TailAppend(p, [c]);
    assert [c][1..] == [];
  }

  lemma {:induction false} FirstNameOf(c: string, rest: string)
    requires '/' !in c && (rest == "" || rest[0] == '/')
    ensures FirstName(c + rest) == c
  {
    if c == "" {
      assert c + rest == rest;
    } else {
      assert (c + rest)[1..] == c[1..] + rest;
      FirstNameOf(c[1..], rest);
    }
  }

  /** Rendering and parsing again gives the same components. */
  lemma {:induction false} ParseTail(p: Path)
    requires ValidPath(p)
    ensures Parse(Tail(p)) == p
  {
    if p != [] {
      var s, rest := Tail(p), Tail(p[1..]);
      TailStarts(p[1..]);
      OneSlash(p[0], rest);
      FirstNameOf(p[0], rest);
      ParseTail(p[1..]);
    }
  }

  lemma {:induction false} TailStarts(p: Path)
    ensures Tail(p) == "" || Tail(p)[0] == '/'
  {
  }

  lemma {:induction false} OneSlash(c: string, rest: string)
    requires c != "" && c[0] != '/'
    ensures SkipSlashes("/" + c + rest) == c + rest && (c + rest)[|c|..] == rest
  {
    assert ("/" + c + rest)[1..] == c + rest;
  }

  lemma ParseRender(p: Path)
    requires ValidPath(p)
    ensures Parse(Render(p)) == p
  {
    ParseTail(p);
    assert SkipSlashes("/") == "";
  }

  // ----- join_paths, for two paths -----

  function JoinedString(base: string, path: string): string {
    if base != "" && !EndsWithSlash(base) && (path == "" || path[0] != '/') then base + "/" + path
    else if EndsWithSlash(base) && path != "" && path[0] == '/' then base + path[1..]
    else base + path
  }

  /** The room left for a path in a buffer of PATH_MAX bytes, with the margin join_paths keeps. */
  predicate Fits(s: string) {
    |s| + 1 < PATH_MAX
  }

  lemma JoinName(p: Path, c: Name)
    requires ValidPath(p) && IsName(c)
    ensures JoinedString(Render(p), c) == Render(p + [c])
  {
    TailSnoc(p, c);
    if p != [] {
      TailEnd(p);
    }
  }

  lemma {:induction false} TailEnd(p: Path)
    requires ValidPath(p) && p != []
    ensures |Tail(p)| >= 2 && Tail(p)[0] == '/' && !EndsWithSlash(Tail(p))
  {
    var front, c := p[..|p| - 1], p[|p| - 1];
    assert p == front + [c];
    TailSnoc(front, c);
    assert Tail(p)[|Tail(p)| - 1] == c[|c| - 1];
    assert c[|c| - 1] in c;
  }

  // ----- compare_paths2 -----

  datatype Comparison = PathsAreEqual | Path1IsPrefix | Path2IsPrefix | PathsAreNotComparable

  /** C strings end with a null byte. */
  function CharAt(s: string, i: nat): char
    requires i <= |s|
  {
    if i < |s| then s[i] else NUL
  }

  function ComparePaths(path1: string, path2: string): Comparison
    requires path1 != "" && path2 != ""
  {
    var length1 := if EndsWithSlash(path1) then |path1| - 1 else |path1|;
    var length2 := if EndsWithSlash(path2) then |path2| - 1 else |path2|;
    var lengthMin := if length1 < length2 then length1 else length2;
    var sentinel := if length1 < length2 then CharAt(path2, lengthMin) else CharAt(path1, lengthMin);
    if sentinel != '/' && sentinel != NUL then PathsAreNotComparable
    else if path1[..lengthMin] != path2[..lengthMin] then PathsAreNotComparable
    else if length1 == length2 then PathsAreEqual
    else if length1 < length2 then Path1IsPrefix
    else Path2IsPrefix
  }

  /** The order on components. */
  function Compare(p: Path, q: Path): Comparison {
    if p == q then PathsAreEqual
    else if p <= q then Path1IsPrefix
    else if q <= p then Path2IsPrefix
    else PathsAreNotComparable
  }

  /** A rendered path is a string prefix of another one, up to a separator, if and only if its
      components are a prefix of the other one's. */
  lemma {:induction false} TailPrefix(p: Path, q: Path)
    requires ValidPath(p) && ValidPath(q)
    ensures p <= q <==> Tail(p) <= Tail(q) && (|Tail(p)| == |Tail(q)| || Tail(q)[|Tail(p)|] == '/')
  {
    if p == [] {
      assert q != [] ==> Tail(q)[0] == '/';
    } else if q == [] {
    } else {
      var s, t := Tail(p), Tail(q);
      var s', t' := Tail(p[1..]), Tail(q[1..]);
      TailPrefix(p[1..], q[1..]);
      assert (p <= q) == (p[0] == q[0] && p[1..] <= q[1..]) by {
        assert p == [p[0]] + p[1..] && q == [q[0]] + q[1..];
      }
      if p[0] == q[0] {
        SamePrefix("/" + p[0], s', t');
      } else if s <= t {
        FirstNamesDiffer(p, q);
      }
    }
  }

  lemma SamePrefix(a: string, b: string, c: string)
    ensures a + b <= a + c <==> b <= c
    ensures |b| < |c| ==> (a + c)[|a + b|] == c[|b|]
  {
    if a + b <= a + c {
      assert b == (a + b)[|a|..] && c == (a + c)[|a|..];
    }
  }

  lemma {:induction false} FirstNamesDiffer(p: Path, q: Path)
    requires ValidPath(p) && ValidPath(q) && p != [] && q != [] && p[0] != q[0]
    ensures !(Tail(p) <= Tail(q) && (|Tail(p)| == |Tail(q)| || Tail(q)[|Tail(p)|] == '/'))
  {
    var s, t := Tail(p), Tail(q);
    if s <= t && (|s| == |t| || t[|s|] == '/') {
      var rest := t[|s|..];
      assert t == s + rest && t == t + "";
      FirstNameOfTail(p, rest);
      FirstNameOfTail(q, "");
    }
  }

  lemma {:induction false} FirstNameOfTail(p: Path, rest: string)
    requires ValidPath(p) && p != [] && (rest == "" || rest[0] == '/')
    ensures FirstName((Tail(p) + rest)[1..]) == p[0]
  {
    var s := Tail(p[1..]);
    AfterSlash(p[0], s, rest);
    TailStarts(p[1..]);
    FirstNameOf(p[0], s + rest);
  }

  lemma AfterSlash(a: string, b: string, c: string)
    ensures ("/" + a + b + c)[1..] == a + (b + c)
  {
  }

  /** compare_paths2 computes the component order, on canonical strings with or without a
      trailing slash. */
  lemma ComparePathsMeaning(p: Path, q: Path)
    requires ValidPath(p) && ValidPath(q)
    ensures ComparePaths(Render(p), Render(q)) == Compare(p, q)
  {
    TailPrefix(p, q);
    TailPrefix(q, p);
    if p != [] {
      TailEnd(p);
    }
    if q != [] {
      TailEnd(q);
    }
    CharsOf(p);
    CharsOf(q);
    var s, t := Tail(p), Tail(q);
    assert |s| <= |t| ==> (s <= t <==> s == t[..|s|]);
    assert |t| <= |s| ==> (t <= s <==> t == s[..|t|]);
    if p <= q && q <= p {
      assert p == q;
    }
    if p != [] {
      assert Render(p)[..|s|] == s;
    }
  }

  lemma {:induction false} CharsOf(p: Path)
    requires ValidPath(p)
    ensures NUL !in Tail(p)
  {
    if p != [] {
      CharsOf(p[1..]);
    }
  }

  // ----- substitute_path_prefix -----

  /** None when the new path would be too long, in which case the buffer is left alone. */
  function SubstitutePrefix(path: string, oldLength: nat, newPrefix: string): Option<string>
    requires oldLength <= |path| && newPrefix != ""
  {
    if |newPrefix| == 1 then
      // "/foo" -> "/"
      Some(if |path| == oldLength then "/" else path[oldLength..])
    else if oldLength == 1 then
      // "/" -> "/foo"
      if |newPrefix| + |path| >= PATH_MAX then None
      else Some(if |path| > 1 then newPrefix + path else newPrefix)
    else if |path| - oldLength + |newPrefix| >= PATH_MAX then None
    else Some(newPrefix + path[oldLength..])
  }

  /** Edit `path` in place: first the end moves, then the new prefix is copied. */
  method SubstitutePathPrefix(path: string, oldLength: nat, newPrefix: string) returns (ok: bool, path': string)
    requires oldLength <= |path| && newPrefix != ""
    ensures match SubstitutePrefix(path, oldLength, newPrefix)
            case None => !ok && path' == path
            case Some(s) => ok && path' == s
  {
    ok, path' := true, path;
    if |newPrefix| == 1 {
      path' := path'[oldLength..];
      if path' == "" {
        path' := "/";
      }
    } else if oldLength == 1 {
      if |newPrefix| + |path| >= PATH_MAX {
        return false, path;
      }
      if |path| > 1 {
        path' := newPrefix + path';
      } else {
        path' := newPrefix;
      }
    } else {
      if |path| - oldLength + |newPrefix| >= PATH_MAX {
        return false, path;
      }
      path' := newPrefix + path'[oldLength..];
    }
  }

  /** Whether the substitution of a prefix leaves room enough; the margin is the one of the code,
      which counts the slash of "/" when it is replaced. */
  predicate SubstitutionFits(p: Path, before: Path, after: Path) {
    after != [] ==> |Tail(after)| + (if before == [] then |Render(p)| else |Tail(p)| - |Tail(before)|) < PATH_MAX
  }

  /** So what matters is the length of the result with its null byte, but for the substitution of "/" in
      itself, which counts one more; a path that only loses leading components always fits. */
  lemma SubstitutionFitsIff(p: Path, before: Path, after: Path)
    requires ValidPath(p) && ValidPath(after) && before <= p
    ensures SubstitutionFits(p, before, after) <==>
            after == [] || |Render(after + p[|before|..])| + (if p == [] then 1 else 0) < PATH_MAX
  {
    var rest := p[|before|..];
    assert p == before + rest;
    TailAppend(before, rest);
    TailAppend(after, rest);
    assert forall i :: 0 <= i < |before| ==> before[i] == p[i];
    LengthOfTail(p);
    LengthOfTail(after);
    LengthOfTail(after + rest);
  }

  /** Across all its special cases, the substitution replaces leading components.  The one case
      left out, "/" by "/", is never asked for: such a binding needs no substitution. */
  lemma SubstitutePrefixMeaning(p: Path, before: Path, after: Path)
    requires ValidPath(p) && ValidPath(after) && before <= p && (before != [] || after != [])
    ensures |Render(before)| <= |Render(p)|
    ensures SubstitutePrefix(Render(p), |Render(before)|, Render(after)) ==
            if SubstitutionFits(p, before, after) then Some(Render(after + p[|before|..])) else None
  {
    var rest := p[|before|..];
    assert p == before + rest;
    assert forall i :: 0 <= i < |before| ==> before[i] == p[i];
    TailAppend(before, rest);
    TailAppend(after, rest);
    LengthOfTail(before);
    LengthOfTail(after);
    LengthOfTail(rest);
    LengthOfTail(p);
    if before == [] {
      assert rest == p;
    } else {
      assert Render(p)[|Tail(before)|..] == Tail(rest);
    }
    if after == [] {
      assert after + rest == rest;
    } else if rest == [] {
      assert after + rest == after;
    }
  }

  lemma {:induction false} LengthOfTail(p: Path)
    requires ValidPath(p)
    ensures if p == [] then Tail(p) == "" else |Tail(p)| >= 2
  {
    if p != [] {
      TailEnd(p);
    }
  }
}
