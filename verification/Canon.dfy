/** Canonicalization of guest paths (src/path/canon.c) over an arbitrary tree of directories,
    symbolic links and other files. */
module Canon {
  import opened Common
  import opened Paths

  const MAXSYMLINKS: nat := 20
  const ENOENT: int := 2
  const ENOTDIR: int := 20
  const ENAMETOOLONG: int := 36
  const ELOOP: int := 40

  /** What matters of a path string. */
  datatype Parsed = Parsed(absolute: bool, names: Path, slash: bool)

  function ParsePath(s: string): Parsed {
    Parsed(s != "" && s[0] == '/', Parse(s), EndsWithSlash(s))
  }

  /** What lstat(2) and readlink(2) tell of a guest path, once its bindings are substituted and
      the target of a link is detranslated; `length` and `path` describe that target. */
  datatype Node = Missing | Directory | Symlink(length: nat, path: Parsed) | Other
  type Tree = Path -> Node

  /** The root is a directory, and links point to paths. */
  ghost predicate ValidTree(t: Tree) {
    && t([]) == Directory
    && forall p :: t(p).Symlink? ==> ValidPath(t(p).path.names)
  }

  datatype Finality = NotFinal | FinalNormal | FinalSlash | FinalDot
  datatype Result = Ok(path: Path, finality: Finality) | Err(errno: int)

  // ----- The specification, on components -----

  function FinalityOf(todo: Path, slash: bool): Finality
    requires todo != []
  {
    if |todo| > 1 then NotFinal else if slash then FinalSlash else FinalNormal
  }

  /** A non-final component has to be a directory or a link. */
  function StatError(n: Node, f: Finality): Option<int> {
    if f != NotFinal || n.Directory? || n.Symlink? then None
    else Some(if n.Missing? then ENOENT else ENOTDIR)
  }

  /** Resolve the components `todo` one after the other from `cwd`; `slash` tells whether the path
      they come from ends with a slash. */
  function Walk(t: Tree, cwd: Path, todo: Path, slash: bool, deref: bool, level: nat): Result
    requires level <= MAXSYMLINKS
    decreases MAXSYMLINKS + 1 - level, |todo|
  {
    if todo == [] then Ok(cwd, FinalNormal)
    else
      var c, rest, f := todo[0], todo[1..], FinalityOf(todo, slash);
      if |c| >= NAME_MAX then Err(ENAMETOOLONG)
      else if c == "." then
        if f != NotFinal then Ok(cwd, FinalDot) else Walk(t, cwd, rest, slash, deref, level)
      else if c == ".." then
        if f != NotFinal then Ok(Parent(cwd), FinalSlash) else Walk(t, Parent(cwd), rest, slash, deref, level)
      else
        var next := cwd + [c];
        if !Fits(Render(next)) then Err(ENAMETOOLONG)
        else if StatError(t(next), f).Some? then Err(StatError(t(next), f).value)
        else if !t(next).Symlink? || (f == FinalNormal && !deref) then
          if f != NotFinal then Ok(next, f) else Walk(t, next, rest, slash, deref, level)
        else if t(next).length >= PATH_MAX then Err(ENAMETOOLONG)
        else
          match Enter(t, cwd, t(next).path, true, level + 1)
          case Err(e) => Err(e)
          case Ok(p, _) =>
            if StatError(t(p), f).Some? then Err(StatError(t(p), f).value)
            else if f != NotFinal then Ok(p, f)
            else Walk(t, p, rest, slash, deref, level)
  }

  function Start(cwd: Path, path: Parsed): Path {
    if path.absolute then [] else cwd
  }

  /** Resolve a path, from the root if it is absolute. */
  function Enter(t: Tree, cwd: Path, path: Parsed, deref: bool, level: nat): Result
    requires level <= MAXSYMLINKS + 1
    decreases MAXSYMLINKS + 1 - level, 1 + |path.names|
  {
    if level > MAXSYMLINKS then Err(ELOOP)
    else if |Render(cwd)| >= PATH_MAX then Err(ENAMETOOLONG)
    else Walk(t, Start(cwd, path), path.names, path.slash, deref, level)
  }

  /** The string left at the first level, with the end that keeps the meaning of the path. */
  function Finished(p: Path, f: Finality): string {
    match f
    case FinalSlash => JoinedString(Render(p), "")
    case FinalDot => JoinedString(Render(p), ".")
    case _ => Render(p)
  }

  /** The status and the string the first level leaves for a result. */
  function Outcome(r: Result): (int, string) {
    match r
    case Err(e) => (-e, "")
    case Ok(p, f) =>
      if (f == FinalSlash || f == FinalDot) && !Fits(Finished(p, f)) then (-ENAMETOOLONG, "") else (0, Finished(p, f))
  }

  /** canonicalize(), from the first level. */
  function Canonical(t: Tree, cwd: Path, path: Parsed, deref: bool): (int, string) {
    Outcome(Enter(t, cwd, path, deref, 0))
  }

  // ----- Results are canonical -----

  ghost predicate NoDots(p: Path) {
    forall i :: 0 <= i < |p| ==> p[i] != "." && p[i] != ".."
  }

  ghost predicate Short(p: Path) {
    Fits(Render(p)) && forall i :: 0 <= i < |p| ==> |p[i]| < NAME_MAX
  }

  ghost predicate Clean(p: Path) {
    ValidPath(p) && NoDots(p) && Short(p)
  }

  lemma {:induction false} ParseValid(s: string)
    requires NUL !in s
    ensures ValidPath(Parse(s))
    decreases |s|
  {
    var u := SkipSlashes(s);
    if u != "" {
      var c := FirstName(u);
      assert c != "" by { assert u[0] != '/'; }
      PartsOf(s, |s| - |u|);
      PartsOf(u, |c|);
      assert IsName(c) by { assert c == u[..|c|]; }
      ParseValid(u[|c|..]);
      ValidCons(c, Parse(u[|c|..]));
    }
  }

  lemma ValidCons(c: Name, p: Path)
    requires IsName(c) && ValidPath(p)
    ensures ValidPath([c] + p)
  {
  }

  lemma PartsOf(s: string, n: nat)
    requires n <= |s| && NUL !in s
    ensures NUL !in s[..n] && NUL !in s[n..]
  {
  }

  lemma ParentClean(p: Path)
    requires Clean(p)
    ensures Clean(Parent(p))
  {
    if p != [] {
      var front, c := p[..|p| - 1], p[|p| - 1];
      assert p == front + [c];
      TailSnoc(front, c);
    }
  }

  lemma {:induction false} WalkClean(t: Tree, cwd: Path, todo: Path, slash: bool, deref: bool, level: nat)
    requires ValidTree(t) && Clean(cwd) && ValidPath(todo) && level <= MAXSYMLINKS
    ensures Walk(t, cwd, todo, slash, deref, level).Ok? ==> Clean(Walk(t, cwd, todo, slash, deref, level).path)
    decreases MAXSYMLINKS + 1 - level, |todo|
  {
    if todo != [] {
      var c, rest, f := todo[0], todo[1..], FinalityOf(todo, slash);
      ParentClean(cwd);
      if c == "." {
        WalkClean(t, cwd, rest, slash, deref, level);
      } else if c == ".." {
        WalkClean(t, Parent(cwd), rest, slash, deref, level);
      } else if |c| < NAME_MAX && Fits(Render(cwd + [c])) {
        var next := cwd + [c];
        if t(next).Symlink? && !(f == FinalNormal && !deref) {
          if level < MAXSYMLINKS {
            var path := t(next).path;
            EnterClean(t, cwd, path, true, level + 1);
            var r := Enter(t, cwd, path, true, level + 1);
            if r.Ok? {
              WalkClean(t, r.path, rest, slash, deref, level);
            }
          }
        } else {
          WalkClean(t, next, rest, slash, deref, level);
        }
      }
    }
  }

  lemma {:induction false} EnterClean(t: Tree, cwd: Path, path: Parsed, deref: bool, level: nat)
    requires ValidTree(t) && Clean(cwd) && ValidPath(path.names) && level <= MAXSYMLINKS
    ensures Enter(t, cwd, path, deref, level).Ok? ==> Clean(Enter(t, cwd, path, deref, level).path)
    decreases MAXSYMLINKS + 1 - level, 1 + |path.names|
  {
    WalkClean(t, Start(cwd, path), path.names, path.slash, deref, level);
  }

  // ----- No link is left -----

  /** Every proper prefix of the path is a directory. */
  ghost predicate DirectoriesAbove(t: Tree, p: Path) {
    forall i :: 0 <= i < |p| ==> t(p[..i]) == Directory
  }

  ghost predicate AllDirectories(t: Tree, p: Path) {
    DirectoriesAbove(t, p) && t(p) == Directory
  }

  lemma DirectoriesSnoc(t: Tree, p: Path, c: Name)
    requires AllDirectories(t, p)
    ensures DirectoriesAbove(t, p + [c])
  {
    var q := p + [c];
    forall i | 0 <= i < |q| ensures t(q[..i]) == Directory {
      assert q[..i] == if i < |p| then p[..i] else p;
    }
  }

  lemma ParentDirectories(t: Tree, p: Path)
    requires AllDirectories(t, p)
    ensures AllDirectories(t, Parent(p))
  {
    if p != [] {
      var q := Parent(p);
      assert forall i :: 0 <= i < |q| ==> q[..i] == p[..i];
    }
  }

  /** What a resolved path satisfies, so that the assertion on dereferenced links holds. */
  ghost predicate Settled(t: Tree, p: Path, f: Finality, deref: bool) {
    && DirectoriesAbove(t, p)
    && (deref || f != FinalNormal ==> !t(p).Symlink?)
    && (f == FinalDot ==> t(p) == Directory)
  }

  lemma {:induction false} WalkSettled(t: Tree, cwd: Path, todo: Path, slash: bool, deref: bool, level: nat)
    requires ValidTree(t) && AllDirectories(t, cwd) && level <= MAXSYMLINKS
    ensures var r := Walk(t, cwd, todo, slash, deref, level);
            r.Ok? ==> Settled(t, r.path, r.finality, deref) && r.finality != NotFinal
    decreases MAXSYMLINKS + 1 - level, |todo|
  {
    if todo != [] {
      var c, rest, f := todo[0], todo[1..], FinalityOf(todo, slash);
      ParentDirectories(t, cwd);
      if c == "." {
        WalkSettled(t, cwd, rest, slash, deref, level);
      } else if c == ".." {
        WalkSettled(t, Parent(cwd), rest, slash, deref, level);
      } else {
        var next := cwd + [c];
        DirectoriesSnoc(t, cwd, c);
        if t(next).Symlink? && !(f == FinalNormal && !deref) {
          if level < MAXSYMLINKS {
            var path := t(next).path;
            EnterSettled(t, cwd, path, true, level + 1);
            var r := Enter(t, cwd, path, true, level + 1);
            if r.Ok? && f == NotFinal && t(r.path) == Directory {
              WalkSettled(t, r.path, rest, slash, deref, level);
            }
          }
        } else if f == NotFinal && t(next) == Directory {
          WalkSettled(t, next, rest, slash, deref, level);
        }
      }
    }
  }

  lemma {:induction false} EnterSettled(t: Tree, cwd: Path, path: Parsed, deref: bool, level: nat)
    requires ValidTree(t) && AllDirectories(t, cwd) && level <= MAXSYMLINKS
    ensures var r := Enter(t, cwd, path, deref, level);
            r.Ok? ==> Settled(t, r.path, r.finality, deref) && r.finality != NotFinal
    decreases MAXSYMLINKS + 1 - level, 1 + |path.names|
  {
    WalkSettled(t, Start(cwd, path), path.names, path.slash, deref, level);
  }

  // ----- A second run changes nothing -----

  lemma {:induction false} ParseAppend(p: Path, s: string)
    requires ValidPath(p) && (s == "" || s[0] == '/')
    ensures Parse(Tail(p) + s) == p + Parse(s)
  {
    if p == [] {
      assert Tail(p) + s == s && p + Parse(s) == Parse(s);
    } else {
      ParseAppend(p[1..], s);
      TailFirst(p, s);
      ParseFirst(p[0], Tail(p[1..]) + s);
      SplitFirst(p, Parse(s));
    }
  }

  lemma {:induction false} TailFirst(p: Path, s: string)
    requires ValidPath(p) && p != [] && (s == "" || s[0] == '/')
    ensures Tail(p) + s == "/" + p[0] + (Tail(p[1..]) + s)
    ensures Tail(p[1..]) + s == "" || (Tail(p[1..]) + s)[0] == '/'
  {
  }

  lemma SplitFirst(p: Path, q: Path)
    requires p != []
    ensures [p[0]] + (p[1..] + q) == p + q
  {
  }

  lemma {:induction false} ParseFirst(c: Name, rest: string)
    requires IsName(c) && (rest == "" || rest[0] == '/')
    ensures Parse("/" + c + rest) == [c] + Parse(rest)
  {
    var s := "/" + c + rest;
    assert s[1..] == c + rest;
    assert SkipSlashes(s) == s[1..];
    FirstNameOf(c, rest);
    assert s[1..][|c|..] == rest;
  }

  lemma {:induction false} ParseSlash(s: string)
    requires |s| <= 1 && (s != "" ==> s[0] == '/')
    ensures Parse(s) == []
  {
    assert SkipSlashes(s) == "";
  }

  lemma {:induction false} ParseSlashDot(s: string, dot: Name)
    requires |s| == 2 && s[0] == '/' && s[1] == '.' && dot == "."
    ensures Parse(s) == [dot]
  {
    var p := [dot];
    assert IsName(dot);
    ParseTail(p);
    assert p[1..] == [];
    assert Tail(p) == s;
  }

  function FinishedNames(p: Path, f: Finality): Path {
    if f == FinalDot then p + ["."] else p
  }

  function FinishedSlash(p: Path, f: Finality): bool {
    if p == [] then f != FinalDot else f == FinalSlash
  }

  /** What the final string parses to. */
  lemma ParseFinished(p: Path, f: Finality)
    requires ValidPath(p)
    ensures ParsePath(Finished(p, f)) == Parsed(true, FinishedNames(p, f), FinishedSlash(p, f))
  {
    if p == [] {
      ParseFinishedRoot(f);
    } else {
      TailEnd(p);
      FinishedTail(p, f);
      ParseFinishedNames(p, Tail(p), f);
      AbsolutePath(Finished(p, f), FinishedNames(p, f), FinishedSlash(p, f));
    }
  }

  lemma {:induction false} AbsolutePath(s: string, names: Path, slash: bool)
    requires s != "" && s[0] == '/' && Parse(s) == names && EndsWithSlash(s) == slash
    ensures ParsePath(s) == Parsed(true, names, slash)
  {
  }

  lemma ParseFinishedRoot(f: Finality)
    ensures ParsePath(Finished([], f)) == Parsed(true, FinishedNames([], f), FinishedSlash([], f))
  {
    var s := Finished([], f);
    FinishedRoot(f);
    RootString(s, f == FinalDot);
    AbsolutePath(s, FinishedNames([], f), FinishedSlash([], f));
  }

  lemma {:induction false} RootString(s: string, dot: bool)
    requires s == if dot then "/." else "/"
    ensures s != "" && s[0] == '/' && Parse(s) == (if dot then ["."] else []) && EndsWithSlash(s) == !dot
  {
    if dot {
      ParseSlashDot(s, ".");
    } else {
      ParseSlash(s);
    }
  }

  lemma FinishedRoot(f: Finality)
    ensures Finished([], f) == if f == FinalDot then "/." else "/"
  {
    assert JoinedString("/", "") == "/" && JoinedString("/", ".") == "/.";
  }

  /** What follows the names in the final string. */
  function FinishedEnd(f: Finality): string {
    if f == FinalSlash then "/" else if f == FinalDot then "/." else ""
  }

  lemma {:induction false} ParseFinishedNames(p: Path, tail: string, f: Finality)
    requires ValidPath(p) && tail == Tail(p)
    ensures Parse(tail + FinishedEnd(f)) == FinishedNames(p, f)
  {
    var end := FinishedEnd(f);
    ParseAppend(p, end);
    if f == FinalDot {
      ParseSlashDot(end, ".");
    } else {
      ParseSlash(end);
      assert p + [] == p;
    }
  }

  lemma {:induction false} FinishedTail(p: Path, f: Finality)
    requires p != [] && !EndsWithSlash(Tail(p))
    ensures Finished(p, f) == Tail(p) + FinishedEnd(f)
    ensures EndsWithSlash(Finished(p, f)) == (f == FinalSlash)
  {
    var s := Tail(p);
    assert s + "" == s && s + "/" + "" == s + "/" && s + "/" + "." == s + "/.";
  }

  lemma {:induction false} PrefixClean(p: Path, q: Path)
    requires Clean(p + q)
    ensures Clean(p)
    decreases |q|
  {
    if q == [] {
      assert p + q == p;
    } else {
      assert Parent(p + q) == p + q[..|q| - 1];
      ParentClean(p + q);
      PrefixClean(p, q[..|q| - 1]);
    }
  }

  lemma {:induction false} WalkIdentity(t: Tree, cwd: Path, todo: Path, slash: bool, deref: bool)
    requires Clean(cwd + todo) && DirectoriesAbove(t, cwd + todo) && todo != []
    requires deref || slash ==> !t(cwd + todo).Symlink?
    ensures Walk(t, cwd, todo, slash, deref, 0) == Ok(cwd + todo, if slash then FinalSlash else FinalNormal)
    decreases |todo|
  {
    var c, rest := todo[0], todo[1..];
    var p, next := cwd + todo, cwd + [c];
    assert next + rest == p;
    PrefixClean(next, rest);
    assert p[|cwd|] == c;
    if rest == [] {
      assert p == next;
    } else {
      assert p[..|next|] == next;
      WalkIdentity(t, next, rest, slash, deref);
    }
  }

  lemma {:induction false} WalkIdentityDot(t: Tree, cwd: Path, todo: Path, deref: bool)
    requires Clean(cwd + todo) && AllDirectories(t, cwd + todo)
    ensures Walk(t, cwd, todo + ["."], false, deref, 0) == Ok(cwd + todo, FinalDot)
    decreases |todo|
  {
    if todo == [] {
      assert cwd + todo == cwd && todo + ["."] == ["."];
    } else {
      var c, rest := todo[0], todo[1..];
      var p, next := cwd + todo, cwd + [c];
      assert next + rest == p;
      PrefixClean(next, rest);
      assert p[|cwd|] == c;
      assert (todo + ["."])[1..] == rest + ["."];
      assert t(next) == Directory by {
        assert rest != [] ==> p[..|next|] == next;
        assert rest == [] ==> p == next;
      }
      WalkIdentityDot(t, next, rest, deref);
    }
  }

  /** Canonicalizing a canonical path is the identity. */
  lemma Idempotent(t: Tree, cwd: Path, path: Parsed, deref: bool)
    requires ValidTree(t) && Clean(cwd) && AllDirectories(t, cwd) && ValidPath(path.names)
    ensures var (status, s) := Canonical(t, cwd, path, deref);
            status == 0 ==> Canonical(t, [], ParsePath(s), deref) == (0, s)
  {
    EnterClean(t, cwd, path, deref, 0);
    EnterSettled(t, cwd, path, deref, 0);
    var r := Enter(t, cwd, path, deref, 0);
    if Canonical(t, cwd, path, deref).0 == 0 {
      KnownErrors(t, cwd, path, deref, 0);
      FinishedAgain(t, r.path, r.finality, deref);
    }
  }

  lemma FinishedAgain(t: Tree, p: Path, f: Finality, deref: bool)
    requires ValidTree(t) && Clean(p) && Settled(t, p, f, deref) && f != NotFinal
    requires f == FinalSlash || f == FinalDot ==> Fits(Finished(p, f))
    ensures Canonical(t, [], ParsePath(Finished(p, f)), deref) == (0, Finished(p, f))
  {
    ParseFinished(p, f);
    FinishedEnter(t, p, f, deref, ParsePath(Finished(p, f)));
    if p == [] && f != FinalDot {
      FinishedRoot(f);
      FinishedRoot(FinalNormal);
    }
  }

  lemma {:induction false} FinishedEnter(t: Tree, p: Path, f: Finality, deref: bool, path: Parsed)
    requires ValidTree(t) && Clean(p) && Settled(t, p, f, deref) && f != NotFinal
    requires path == Parsed(true, FinishedNames(p, f), FinishedSlash(p, f))
    ensures Enter(t, [], path, deref, 0) == Ok(p, if p == [] && f != FinalDot then FinalNormal else f)
  {
    FinishedWalk(t, p, f, deref);
  }

  lemma {:induction false} FinishedWalk(t: Tree, p: Path, f: Finality, deref: bool)
    requires ValidTree(t) && Clean(p) && Settled(t, p, f, deref) && f != NotFinal
    ensures var r := Walk(t, [], if f == FinalDot then p + ["."] else p, if p == [] then f != FinalDot else f == FinalSlash, deref, 0);
            r == Ok(p, if p == [] && f != FinalDot then FinalNormal else f)
  {
    assert [] + p == p;
    if f == FinalDot {
      WalkIdentityDot(t, [], p, deref);
    } else if p != [] {
      WalkIdentity(t, [], p, f == FinalSlash, deref);
    }
  }

  predicate KnownError(e: int) {
    e == ENOENT || e == ENOTDIR || e == ENAMETOOLONG || e == ELOOP
  }

  lemma {:induction false} KnownErrors(t: Tree, cwd: Path, path: Parsed, deref: bool, level: nat)
    requires level <= MAXSYMLINKS + 1
    ensures Enter(t, cwd, path, deref, level).Err? ==> KnownError(Enter(t, cwd, path, deref, level).errno)
    decreases MAXSYMLINKS + 1 - level, 1 + |path.names|
  {
    if level <= MAXSYMLINKS {
      KnownWalkErrors(t, Start(cwd, path), path.names, path.slash, deref, level);
    }
  }

  lemma {:induction false} KnownWalkErrors(t: Tree, cwd: Path, todo: Path, slash: bool, deref: bool, level: nat)
    requires level <= MAXSYMLINKS
    ensures var r := Walk(t, cwd, todo, slash, deref, level);
            r.Err? ==> KnownError(r.errno)
    decreases MAXSYMLINKS + 1 - level, |todo|, 1
  {
    if todo != [] {
      if todo[0] == "." {
        KnownWalkErrors(t, cwd, todo[1..], slash, deref, level);
      } else if todo[0] == ".." {
        KnownWalkErrors(t, Parent(cwd), todo[1..], slash, deref, level);
      } else {
        KnownStepErrors(t, cwd, todo, slash, deref, level);
      }
    }
  }

  lemma {:induction false} KnownStepErrors(t: Tree, cwd: Path, todo: Path, slash: bool, deref: bool, level: nat)
    requires level <= MAXSYMLINKS && todo != [] && todo[0] != "." && todo[0] != ".."
    ensures var r := Walk(t, cwd, todo, slash, deref, level);
            r.Err? ==> KnownError(r.errno)
    decreases MAXSYMLINKS + 1 - level, |todo|, 0
  {
    var next := cwd + [todo[0]];
    KnownWalkErrors(t, next, todo[1..], slash, deref, level);
    if t(next).Symlink? {
      KnownErrors(t, cwd, t(next).path, true, level + 1);
      var r := Enter(t, cwd, t(next).path, true, level + 1);
      if r.Ok? {
        KnownWalkErrors(t, r.path, todo[1..], slash, deref, level);
      }
    }
  }

  // ----- The iterative resolver -----

  /** The resolution of a path as the kernel does it: the target of a link takes the place of the
      link in front of what remains, whatever the depth. */
  datatype Walker = Walker(cwd: Path, todo: Path, nofollow: bool)

  function Advance(t: Tree, w: Walker): Option<Walker>
    requires w.todo != []
  {
    var c, rest := w.todo[0], w.todo[1..];
    if c == "." then Some(w.(todo := rest))
    else if c == ".." then Some(w.(cwd := Parent(w.cwd), todo := rest))
    else
      var n := t(w.cwd + [c]);
      if n.Symlink? && !(w.nofollow && rest == []) then
        Some(Walker(Start(w.cwd, n.path), n.path.names + rest, w.nofollow && rest != []))
      else if rest != [] && !n.Directory? then None
      else Some(w.(cwd := w.cwd + [c], todo := rest))
  }

  /** `n` steps; a walker with nothing left to do stays where it is. */
  function AdvanceBy(t: Tree, w: Walker, n: nat): Option<Walker>
    decreases n
  {
    if n == 0 || w.todo == [] then Some(w)
    else match Advance(t, w) case None => None case Some(w') => AdvanceBy(t, w', n - 1)
  }

  lemma {:induction false} AdvanceFurther(t: Tree, w: Walker, m: nat, n: nat)
    requires AdvanceBy(t, w, m).Some?
    ensures AdvanceBy(t, w, m + n) == AdvanceBy(t, AdvanceBy(t, w, m).value, n)
    decreases m
  {
    if m > 0 && w.todo != [] {
      AdvanceFurther(t, Advance(t, w).value, m - 1, n);
    }
  }

  /** After `n` steps the walker is at `end` with only `rest` left. */
  ghost predicate Reaches(t: Tree, w: Walker, n: nat, end: Path, rest: Path) {
    var r := AdvanceBy(t, w, n);
    r.Some? && r.value.cwd == end && r.value.todo == rest && (rest != [] ==> r.value.nofollow == w.nofollow)
  }

  lemma StepThen(t: Tree, w: Walker, w': Walker, n: nat, end: Path, rest: Path)
    requires w.todo != [] && Advance(t, w) == Some(w') && Reaches(t, w', n, end, rest)
    requires rest != [] ==> w'.nofollow == w.nofollow
    ensures Reaches(t, w, n + 1, end, rest)
  {
  }

  lemma StepsThen(t: Tree, w: Walker, m: nat, middle: Path, todo: Path, n: nat, end: Path, rest: Path)
    requires Reaches(t, w, m, middle, todo) && todo != []
    requires Reaches(t, Walker(middle, todo, w.nofollow), n, end, rest)
    ensures Reaches(t, w, m + n, end, rest)
  {
    AdvanceFurther(t, w, m, n);
  }

  /** The flag of a walker for components followed by `rest`. */
  ghost predicate FlagAgrees(nofollow: bool, slash: bool, deref: bool, rest: Path) {
    if rest == [] then nofollow == (!deref && !slash) else deref
  }

  /** The walk succeeds at a place from which `rest` can be resolved. */
  ghost predicate WalksTo(t: Tree, cwd: Path, todo: Path, slash: bool, deref: bool, level: nat, rest: Path, end: Path)
    requires level <= MAXSYMLINKS
  {
    var r := Walk(t, cwd, todo, slash, deref, level);
    r.Ok? && r.path == end && (rest != [] ==> t(end) == Directory)
  }

  lemma TodoParts(todo: Path, rest: Path)
    requires todo != []
    ensures (todo + rest)[0] == todo[0] && (todo + rest)[1..] == todo[1..] + rest
    ensures todo[1..] == [] ==> todo[1..] + rest == rest
  {
  }

  /** Depth-bounded recursion and iteration reach the same path; `rest` is what the enclosing
      calls still have to resolve. */
  lemma {:induction false} WalkIsIterative(t: Tree, cwd: Path, todo: Path, slash: bool, deref: bool, level: nat,
                                           rest: Path, nofollow: bool, end: Path) returns (n: nat)
    requires ValidTree(t) && AllDirectories(t, cwd) && level <= MAXSYMLINKS
    requires FlagAgrees(nofollow, slash, deref, rest)
    requires WalksTo(t, cwd, todo, slash, deref, level, rest, end)
    ensures Reaches(t, Walker(cwd, todo + rest, nofollow), n, end, rest)
    decreases MAXSYMLINKS + 1 - level, |todo|, 2
  {
    if todo == [] {
      assert todo + rest == rest;
      return 0;
    }
    var c, f := todo[0], FinalityOf(todo, slash);
    if c == "." || c == ".." {
      n := DotsIsIterative(t, cwd, todo, slash, deref, level, rest, nofollow, end);
    } else if t(cwd + [c]).Symlink? && !(f == FinalNormal && !deref) {
      n := FollowIsIterative(t, cwd, todo, slash, deref, level, rest, nofollow, end);
    } else {
      n := DescendIsIterative(t, cwd, todo, slash, deref, level, rest, nofollow, end);
    }
  }

  lemma {:induction false} DotsIsIterative(t: Tree, cwd: Path, todo: Path, slash: bool, deref: bool, level: nat,
                                           rest: Path, nofollow: bool, end: Path) returns (n: nat)
    requires ValidTree(t) && AllDirectories(t, cwd) && level <= MAXSYMLINKS && todo != []
    requires FlagAgrees(nofollow, slash, deref, rest) && (todo[0] == "." || todo[0] == "..")
    requires WalksTo(t, cwd, todo, slash, deref, level, rest, end)
    ensures Reaches(t, Walker(cwd, todo + rest, nofollow), n, end, rest)
    decreases MAXSYMLINKS + 1 - level, |todo|, 0
  {
    TodoParts(todo, rest);
    ParentDirectories(t, cwd);
    var w, more := Walker(cwd, todo + rest, nofollow), todo[1..];
    var there := if todo[0] == "." then cwd else Parent(cwd);
    var w' := Walker(there, more + rest, nofollow);
    if more == [] {
      n := 0;
    } else {
      n := WalkIsIterative(t, there, more, slash, deref, level, rest, nofollow, end);
    }
    StepThen(t, w, w', n, end, rest);
    n := n + 1;
  }

  /** A plain component, or a last link that is not followed. */
  lemma {:induction false} DescendIsIterative(t: Tree, cwd: Path, todo: Path, slash: bool, deref: bool, level: nat,
                                              rest: Path, nofollow: bool, end: Path) returns (n: nat)
    requires ValidTree(t) && AllDirectories(t, cwd) && level <= MAXSYMLINKS && todo != []
    requires FlagAgrees(nofollow, slash, deref, rest)
    requires todo[0] != "." && todo[0] != ".."
    requires t(cwd + [todo[0]]).Symlink? ==> FinalityOf(todo, slash) == FinalNormal && !deref
    requires WalksTo(t, cwd, todo, slash, deref, level, rest, end)
    ensures Reaches(t, Walker(cwd, todo + rest, nofollow), n, end, rest)
    decreases MAXSYMLINKS + 1 - level, |todo|, 0
  {
    TodoParts(todo, rest);
    var w, more, next := Walker(cwd, todo + rest, nofollow), todo[1..], cwd + [todo[0]];
    var w' := Walker(next, more + rest, nofollow);
    if more == [] {
      n := 0;
    } else {
      DirectoriesSnoc(t, cwd, todo[0]);
      n := WalkIsIterative(t, next, more, slash, deref, level, rest, nofollow, end);
    }
    StepThen(t, w, w', n, end, rest);
    n := n + 1;
  }

  /** A link: one step to splice its target in, then the nested walk, then what follows. */
  lemma {:induction false} FollowIsIterative(t: Tree, cwd: Path, todo: Path, slash: bool, deref: bool, level: nat,
                                             rest: Path, nofollow: bool, end: Path) returns (n: nat)
    requires ValidTree(t) && AllDirectories(t, cwd) && level <= MAXSYMLINKS && todo != []
    requires FlagAgrees(nofollow, slash, deref, rest)
    requires todo[0] != "." && todo[0] != ".." && t(cwd + [todo[0]]).Symlink?
    requires !(FinalityOf(todo, slash) == FinalNormal && !deref)
    requires WalksTo(t, cwd, todo, slash, deref, level, rest, end)
    ensures Reaches(t, Walker(cwd, todo + rest, nofollow), n, end, rest)
    decreases MAXSYMLINKS + 1 - level, |todo|, 0
  {
    TodoParts(todo, rest);
    var w, more := Walker(cwd, todo + rest, nofollow), todo[1..];
    var path := t(cwd + [todo[0]]).path;
    var left := more + rest;
    var flag := nofollow && left != [];
    var w' := Walker(Start(cwd, path), path.names + left, flag);
    assert Enter(t, cwd, path, true, level + 1).Ok?;
    EnterSettled(t, cwd, path, true, level + 1);
    var middle := Enter(t, cwd, path, true, level + 1).path;
    n := WalkIsIterative(t, w'.cwd, path.names, path.slash, true, level + 1, left, flag, middle);
    SpliceStep(t, w, w');
    StepThen(t, w, w', n, middle, left);
    n := n + 1;
    if more != [] {
      var k := WalkIsIterative(t, middle, more, slash, deref, level, rest, nofollow, end);
      StepsThen(t, w, n, middle, left, k, end, rest);
      n := n + k;
    }
  }

  lemma SpliceStep(t: Tree, w: Walker, w': Walker)
    requires w.todo != [] && w.todo[0] != "." && w.todo[0] != ".." && t(w.cwd + [w.todo[0]]).Symlink?
    requires !(w.nofollow && w.todo[1..] == [])
    requires var path := t(w.cwd + [w.todo[0]]).path;
             w' == Walker(Start(w.cwd, path), path.names + w.todo[1..], w.nofollow && w.todo[1..] != [])
    ensures Advance(t, w) == Some(w')
  {
  }

  /** The walk finds `what`, nothing or no directory, where a directory is needed. */
  ghost predicate WalkFails(t: Tree, cwd: Path, todo: Path, slash: bool, deref: bool, level: nat, rest: Path, what: Node)
    requires level <= MAXSYMLINKS
  {
    match Walk(t, cwd, todo, slash, deref, level)
    case Err(e) => e == if what == Missing then ENOENT else ENOTDIR
    case Ok(p, _) => rest != [] && t(p) == what
  }

  ghost predicate Stuck(t: Tree, w: Walker, n: nat) {
    AdvanceBy(t, w, n) == None
  }

  /** After `n` steps the walker cannot go on: it has come upon `what` on its way. */
  ghost predicate StopsOn(t: Tree, w: Walker, n: nat, what: Node) {
    var r := AdvanceBy(t, w, n);
    && r.Some? && |r.value.todo| > 1 && r.value.todo[0] != "." && r.value.todo[0] != ".."
    && t(r.value.cwd + [r.value.todo[0]]) == what && Advance(t, r.value) == None
  }

  lemma {:induction false} StopsThenStuck(t: Tree, w: Walker, n: nat, what: Node)
    requires StopsOn(t, w, n, what)
    ensures Stuck(t, w, n + 1)
  {
    AdvanceFurther(t, w, n, 1);
  }

  lemma StepThenStops(t: Tree, w: Walker, w': Walker, n: nat, what: Node)
    requires w.todo != [] && Advance(t, w) == Some(w') && StopsOn(t, w', n, what)
    ensures StopsOn(t, w, n + 1, what)
  {
  }

  lemma {:induction false} StepsThenStops(t: Tree, w: Walker, m: nat, middle: Path, todo: Path, n: nat, what: Node)
    requires Reaches(t, w, m, middle, todo) && todo != []
    requires StopsOn(t, Walker(middle, todo, w.nofollow), n, what)
    ensures StopsOn(t, w, m + n, what)
  {
    AdvanceFurther(t, w, m, n);
  }

  /** Where the recursion fails, other than on the length of a name or on its depth, so does the
      iteration, and on the same thing. */
  lemma {:induction false} FailureIsIterative(t: Tree, cwd: Path, todo: Path, slash: bool, deref: bool, level: nat,
                                              rest: Path, nofollow: bool, what: Node) returns (n: nat)
    requires ValidTree(t) && AllDirectories(t, cwd) && level <= MAXSYMLINKS
    requires FlagAgrees(nofollow, slash, deref, rest)
    requires (what == Missing || what == Other) && WalkFails(t, cwd, todo, slash, deref, level, rest, what)
    ensures StopsOn(t, Walker(cwd, todo + rest, nofollow), n, what)
    decreases MAXSYMLINKS + 1 - level, |todo|, 2
  {
    assert todo != [];
    TodoParts(todo, rest);
    var c, more, f := todo[0], todo[1..], FinalityOf(todo, slash);
    var w := Walker(cwd, todo + rest, nofollow);
    if c == "." || c == ".." {
      assert more != [] by { ParentDirectories(t, cwd); }
      n := DotsFailure(t, cwd, todo, slash, deref, level, rest, nofollow, what);
    } else if t(cwd + [c]).Symlink? && !(f == FinalNormal && !deref) {
      n := FollowFailure(t, cwd, todo, slash, deref, level, rest, nofollow, what);
    } else if more != [] && t(cwd + [c]).Directory? {
      DirectoriesSnoc(t, cwd, c);
      n := FailureIsIterative(t, cwd + [c], more, slash, deref, level, rest, nofollow, what);
      StepThenStops(t, w, Walker(cwd + [c], more + rest, nofollow), n, what);
      n := n + 1;
    } else {
      n := 0;
    }
  }

  lemma {:induction false} DotsFailure(t: Tree, cwd: Path, todo: Path, slash: bool, deref: bool, level: nat,
                                       rest: Path, nofollow: bool, what: Node) returns (n: nat)
    requires ValidTree(t) && AllDirectories(t, cwd) && level <= MAXSYMLINKS && |todo| > 1
    requires FlagAgrees(nofollow, slash, deref, rest) && (todo[0] == "." || todo[0] == "..")
    requires (what == Missing || what == Other) && WalkFails(t, cwd, todo, slash, deref, level, rest, what)
    ensures StopsOn(t, Walker(cwd, todo + rest, nofollow), n, what)
    decreases MAXSYMLINKS + 1 - level, |todo|, 0
  {
    TodoParts(todo, rest);
    ParentDirectories(t, cwd);
    var there := if todo[0] == "." then cwd else Parent(cwd);
    n := FailureIsIterative(t, there, todo[1..], slash, deref, level, rest, nofollow, what);
    StepThenStops(t, Walker(cwd, todo + rest, nofollow), Walker(there, todo[1..] + rest, nofollow), n, what);
    n := n + 1;
  }

  lemma {:induction false} FollowFailure(t: Tree, cwd: Path, todo: Path, slash: bool, deref: bool, level: nat,
                                         rest: Path, nofollow: bool, what: Node) returns (n: nat)
    requires ValidTree(t) && AllDirectories(t, cwd) && level <= MAXSYMLINKS && todo != []
    requires FlagAgrees(nofollow, slash, deref, rest)
    requires todo[0] != "." && todo[0] != ".." && t(cwd + [todo[0]]).Symlink?
    requires !(FinalityOf(todo, slash) == FinalNormal && !deref)
    requires (what == Missing || what == Other) && WalkFails(t, cwd, todo, slash, deref, level, rest, what)
    ensures StopsOn(t, Walker(cwd, todo + rest, nofollow), n, what)
    decreases MAXSYMLINKS + 1 - level, |todo|, 0
  {
    TodoParts(todo, rest);
    var w, more := Walker(cwd, todo + rest, nofollow), todo[1..];
    var path := t(cwd + [todo[0]]).path;
    var left := more + rest;
    var flag := nofollow && left != [];
    var w' := Walker(Start(cwd, path), path.names + left, flag);
    var r := Enter(t, cwd, path, true, level + 1);
    assert level < MAXSYMLINKS;
    EnterSettled(t, cwd, path, true, level + 1);
    SpliceStep(t, w, w');
    if WalkFails(t, w'.cwd, path.names, path.slash, true, level + 1, left, what) {
      n := FailureIsIterative(t, w'.cwd, path.names, path.slash, true, level + 1, left, flag, what);
      StepThenStops(t, w, w', n, what);
      n := n + 1;
    } else {
      n := WalkIsIterative(t, w'.cwd, path.names, path.slash, true, level + 1, left, flag, r.path);
      StepThen(t, w, w', n, r.path, left);
      var k := FailureIsIterative(t, r.path, more, slash, deref, level, rest, nofollow, what);
      StepsThenStops(t, w, n + 1, r.path, left, k, what);
      n := n + 1 + k;
    }
  }

  // ----- Where the recursion gives up -----

  /** The next step follows a link. */
  predicate AtLink(t: Tree, w: Walker)
    requires w.todo != []
  {
    && w.todo[0] != "." && w.todo[0] != ".." && t(w.cwd + [w.todo[0]]).Symlink?
    && !(w.nofollow && w.todo[1..] == [])
  }

  /** How many links the iteration follows in its first `n` steps. */
  function Followed(t: Tree, w: Walker, n: nat): nat
    decreases n
  {
    if n == 0 || w.todo == [] || Advance(t, w).None? then 0
    else (if AtLink(t, w) then 1 else 0) + Followed(t, Advance(t, w).value, n - 1)
  }

  /** A name, a path or the target of a link does not fit. */
  ghost predicate Overlong(t: Tree, w: Walker)
    requires w.todo != []
  {
    var next := w.cwd + [w.todo[0]];
    || |w.todo[0]| >= NAME_MAX || |Render(w.cwd)| >= PATH_MAX || !Fits(Render(next))
    || (t(next).Symlink? && t(next).length >= PATH_MAX)
  }

  ghost predicate MeetsOverlong(t: Tree, w: Walker, n: nat) {
    var r := AdvanceBy(t, w, n);
    r.Some? && r.value.todo != [] && Overlong(t, r.value)
  }

  predicate FollowsTooMany(t: Tree, w: Walker, n: nat) {
    AdvanceBy(t, w, n).Some? && Followed(t, w, n) > MAXSYMLINKS
  }

  /** After `n` steps there is a reason for this error: `k` links were followed, or something is too
      long. */
  ghost predicate GivenUp(t: Tree, w: Walker, n: nat, e: int, k: int) {
    && AdvanceBy(t, w, n).Some?
    && (e == ELOOP ==> Followed(t, w, n) >= k)
    && (e == ENAMETOOLONG ==> MeetsOverlong(t, w, n))
  }

  lemma {:induction false} FollowedFurther(t: Tree, w: Walker, m: nat, n: nat)
    requires AdvanceBy(t, w, m).Some?
    ensures Followed(t, w, m + n) == Followed(t, w, m) + Followed(t, AdvanceBy(t, w, m).value, n)
    decreases m
  {
    if m > 0 && w.todo != [] {
      FollowedFurther(t, Advance(t, w).value, m - 1, n);
    }
  }

  lemma {:induction false} StepThenUp(t: Tree, w: Walker, w': Walker, n: nat, e: int, k: int)
    requires w.todo != [] && Advance(t, w) == Some(w') && GivenUp(t, w', n, e, k)
    ensures GivenUp(t, w, n + 1, e, if AtLink(t, w) then k + 1 else k)
  {
  }

  lemma {:induction false} StepsThenUp(t: Tree, w: Walker, m: nat, middle: Path, todo: Path, n: nat, e: int, k: int)
    requires Reaches(t, w, m, middle, todo) && todo != []
    requires GivenUp(t, Walker(middle, todo, w.nofollow), n, e, k)
    ensures GivenUp(t, w, m + n, e, k)
  {
    AdvanceFurther(t, w, m, n);
    FollowedFurther(t, w, m, n);
  }

  /** Where the recursion gives up on a length, so does the iteration meet it; and where it gives up on
      its depth, the iteration has followed a link for each level that was left. */
  lemma {:induction false} GivesUp(t: Tree, cwd: Path, todo: Path, slash: bool, deref: bool, level: nat,
                                   rest: Path, nofollow: bool, e: int) returns (n: nat)
    requires ValidTree(t) && AllDirectories(t, cwd) && level <= MAXSYMLINKS
    requires FlagAgrees(nofollow, slash, deref, rest)
    requires Walk(t, cwd, todo, slash, deref, level) == Err(e) && (e == ELOOP || e == ENAMETOOLONG)
    ensures GivenUp(t, Walker(cwd, todo + rest, nofollow), n, e, MAXSYMLINKS + 1 - level)
    decreases MAXSYMLINKS + 1 - level, |todo|, 2
  {
    TodoParts(todo, rest);
    var c, more, f := todo[0], todo[1..], FinalityOf(todo, slash);
    var w := Walker(cwd, todo + rest, nofollow);
    if |c| >= NAME_MAX {
      n := 0;
    } else if c == "." || c == ".." {
      n := DotsGiveUp(t, cwd, todo, slash, deref, level, rest, nofollow, e);
    } else if !Fits(Render(cwd + [c])) {
      n := 0;
    } else if t(cwd + [c]).Symlink? && !(f == FinalNormal && !deref) {
      n := FollowGivesUp(t, cwd, todo, slash, deref, level, rest, nofollow, e);
    } else {
      DirectoriesSnoc(t, cwd, c);
      n := GivesUp(t, cwd + [c], more, slash, deref, level, rest, nofollow, e);
      StepThenUp(t, w, Walker(cwd + [c], more + rest, nofollow), n, e, MAXSYMLINKS + 1 - level);
      n := n + 1;
    }
  }

  lemma {:induction false} DotsGiveUp(t: Tree, cwd: Path, todo: Path, slash: bool, deref: bool, level: nat,
                                      rest: Path, nofollow: bool, e: int) returns (n: nat)
    requires ValidTree(t) && AllDirectories(t, cwd) && level <= MAXSYMLINKS && todo != []
    requires FlagAgrees(nofollow, slash, deref, rest) && (todo[0] == "." || todo[0] == "..")
    requires Walk(t, cwd, todo, slash, deref, level) == Err(e) && (e == ELOOP || e == ENAMETOOLONG)
    ensures GivenUp(t, Walker(cwd, todo + rest, nofollow), n, e, MAXSYMLINKS + 1 - level)
    decreases MAXSYMLINKS + 1 - level, |todo|, 0
  {
    TodoParts(todo, rest);
    ParentDirectories(t, cwd);
    var there := if todo[0] == "." then cwd else Parent(cwd);
    n := GivesUp(t, there, todo[1..], slash, deref, level, rest, nofollow, e);
    StepThenUp(t, Walker(cwd, todo + rest, nofollow), Walker(there, todo[1..] + rest, nofollow), n, e, MAXSYMLINKS + 1 - level);
    n := n + 1;
  }

  lemma {:induction false} FollowGivesUp(t: Tree, cwd: Path, todo: Path, slash: bool, deref: bool, level: nat,
                                         rest: Path, nofollow: bool, e: int) returns (n: nat)
    requires ValidTree(t) && AllDirectories(t, cwd) && level <= MAXSYMLINKS && todo != []
    requires FlagAgrees(nofollow, slash, deref, rest)
    requires |todo[0]| < NAME_MAX && todo[0] != "." && todo[0] != ".." && t(cwd + [todo[0]]).Symlink?
    requires Fits(Render(cwd + [todo[0]])) && !(FinalityOf(todo, slash) == FinalNormal && !deref)
    requires Walk(t, cwd, todo, slash, deref, level) == Err(e) && (e == ELOOP || e == ENAMETOOLONG)
    ensures GivenUp(t, Walker(cwd, todo + rest, nofollow), n, e, MAXSYMLINKS + 1 - level)
    decreases MAXSYMLINKS + 1 - level, |todo|, 1
  {
    TodoParts(todo, rest);
    var w, more := Walker(cwd, todo + rest, nofollow), todo[1..];
    var path := t(cwd + [todo[0]]).path;
    var left := more + rest;
    var flag := nofollow && left != [];
    var w' := Walker(Start(cwd, path), path.names + left, flag);
    var r := Enter(t, cwd, path, true, level + 1);
    SpliceStep(t, w, w');
    assert AtLink(t, w);
    if t(cwd + [todo[0]]).length >= PATH_MAX {
      n := 0;
    } else if level == MAXSYMLINKS {
      assert GivenUp(t, w', 0, e, 0);
      StepThenUp(t, w, w', 0, e, 0);
      n := 1;
    } else if |Render(cwd)| >= PATH_MAX {
      n := 0;
    } else if r.Err? {
      EnterSettled(t, cwd, path, true, level + 1);
      n := GivesUp(t, w'.cwd, path.names, path.slash, true, level + 1, left, flag, e);
      StepThenUp(t, w, w', n, e, MAXSYMLINKS - level);
      n := n + 1;
    } else {
      n := RestGivesUp(t, cwd, todo, slash, deref, level, rest, nofollow, e);
    }
  }

  lemma {:induction false} RestGivesUp(t: Tree, cwd: Path, todo: Path, slash: bool, deref: bool, level: nat,
                                       rest: Path, nofollow: bool, e: int) returns (n: nat)
    requires ValidTree(t) && AllDirectories(t, cwd) && level < MAXSYMLINKS && todo != []
    requires FlagAgrees(nofollow, slash, deref, rest)
    requires todo[0] != "." && todo[0] != ".." && t(cwd + [todo[0]]).Symlink?
    requires !(FinalityOf(todo, slash) == FinalNormal && !deref)
    requires Enter(t, cwd, t(cwd + [todo[0]]).path, true, level + 1).Ok?
    requires Walk(t, cwd, todo, slash, deref, level) == Err(e) && (e == ELOOP || e == ENAMETOOLONG)
    requires var p := Enter(t, cwd, t(cwd + [todo[0]]).path, true, level + 1).path;
             todo[1..] != [] && StatError(t(p), NotFinal).None? && Walk(t, p, todo[1..], slash, deref, level) == Err(e)
    ensures GivenUp(t, Walker(cwd, todo + rest, nofollow), n, e, MAXSYMLINKS + 1 - level)
    decreases MAXSYMLINKS + 1 - level, |todo|, 0
  {
    TodoParts(todo, rest);
    var w, more := Walker(cwd, todo + rest, nofollow), todo[1..];
    var path := t(cwd + [todo[0]]).path;
    var left := more + rest;
    var flag := nofollow && left != [];
    var w' := Walker(Start(cwd, path), path.names + left, flag);
    var middle := Enter(t, cwd, path, true, level + 1).path;
    SpliceStep(t, w, w');
    EnterSettled(t, cwd, path, true, level + 1);
    n := WalkIsIterative(t, w'.cwd, path.names, path.slash, true, level + 1, left, flag, middle);
    StepThen(t, w, w', n, middle, left);
    var k := GivesUp(t, middle, more, slash, deref, level, rest, nofollow, e);
    StepsThenUp(t, w, n + 1, middle, left, k, e, MAXSYMLINKS + 1 - level);
    n := n + 1 + k;
  }

  /** The recursive resolver against the iterative one, for any number of steps of the latter: they
      agree on the path and on failures, except that the recursion gives up on what is too long, and
      with ELOOP only where the iteration follows more than MAXSYMLINKS links. */
  lemma ResolversAgree(t: Tree, cwd: Path, path: Parsed, deref: bool, n: nat)
    requires ValidTree(t) && AllDirectories(t, cwd)
    ensures var w := Walker(Start(cwd, path), path.names, !deref && !path.slash);
            match Enter(t, cwd, path, deref, 0)
            case Err(e) =>
              || (e == ELOOP && exists m :: FollowsTooMany(t, w, m))
              || (e == ENAMETOOLONG && (|Render(cwd)| >= PATH_MAX || exists m :: MeetsOverlong(t, w, m)))
              || (e == ENOENT && (exists m :: StopsOn(t, w, m, Missing)) && NotThere(t, w, n))
              || (e == ENOTDIR && (exists m :: StopsOn(t, w, m, Other)) && NotThere(t, w, n))
            case Ok(p, _) =>
              AdvanceBy(t, w, n).Some? && (AdvanceBy(t, w, n).value.todo == [] ==> AdvanceBy(t, w, n).value.cwd == p)
  {
    var w := Walker(Start(cwd, path), path.names, !deref && !path.slash);
    assert path.names + [] == path.names;
    KnownErrors(t, cwd, path, deref, 0);
    var r := Enter(t, cwd, path, deref, 0);
    if r.Ok? {
      var m := WalkIsIterative(t, w.cwd, path.names, path.slash, deref, 0, [], w.nofollow, r.path);
      ReachedOnce(t, w, m, n);
    } else if r.errno == ENOENT || r.errno == ENOTDIR {
      var what := if r.errno == ENOENT then Missing else Other;
      var m := FailureIsIterative(t, w.cwd, path.names, path.slash, deref, 0, [], w.nofollow, what);
      StopsThenStuck(t, w, m, what);
      if n <= m {
        StuckLater(t, w, n, m + 1 - n);
      } else {
        StuckLater(t, w, m + 1, n - m - 1);
      }
    } else if |Render(cwd)| < PATH_MAX {
      var m := GivesUp(t, w.cwd, path.names, path.slash, deref, 0, [], w.nofollow, r.errno);
      assert if r.errno == ELOOP then FollowsTooMany(t, w, m) else MeetsOverlong(t, w, m);
    }
  }

  /** The walker has not arrived. */
  predicate NotThere(t: Tree, w: Walker, n: nat) {
    AdvanceBy(t, w, n).None? || AdvanceBy(t, w, n).value.todo != []
  }

  /** Any two numbers of steps are consistent with each other. */
  lemma {:induction false} ReachedOnce(t: Tree, w: Walker, m: nat, n: nat)
    requires AdvanceBy(t, w, m).Some? && AdvanceBy(t, w, m).value.todo == []
    ensures AdvanceBy(t, w, n).Some?
    ensures AdvanceBy(t, w, n).value.todo == [] ==> AdvanceBy(t, w, n).value == AdvanceBy(t, w, m).value
  {
    if m <= n {
      AdvanceFurther(t, w, m, n - m);
    } else {
      StuckLater(t, w, n, m - n);
      AdvanceFurther(t, w, n, m - n);
    }
  }

  /** A walker that is stuck stays so, and one that has arrived does not get stuck. */
  lemma StuckLater(t: Tree, w: Walker, m: nat, n: nat)
    ensures Stuck(t, w, m) ==> Stuck(t, w, m + n)
    ensures AdvanceBy(t, w, m).Some? && AdvanceBy(t, w, m).value.todo == [] ==> !Stuck(t, w, m + n)
  {
    if Stuck(t, w, m) {
      StuckStays(t, w, m, n);
    } else {
      AdvanceFurther(t, w, m, n);
    }
  }

  lemma {:induction false} StuckStays(t: Tree, w: Walker, m: nat, n: nat)
    requires Stuck(t, w, m)
    ensures Stuck(t, w, m + n)
    decreases m
  {
    if Advance(t, w).Some? {
      StuckStays(t, Advance(t, w).value, m - 1, n);
    }
  }
}
