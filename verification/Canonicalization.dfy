/** The loops of src/path/canon.c, on path strings, against the resolver on components. */
module Canonicalization {
  import opened Common
  import opened Paths
  import opened Canon

  // ----- join_paths -----

  function Joined(paths: seq<string>): Option<string> {
    if paths == [] then Some("")
    else
      match Joined(paths[..|paths| - 1])
      case None => None
      case Some(s) =>
        var joined := JoinedString(s, paths[|paths| - 1]);
        if Fits(joined) then Some(joined) else None
  }

  method JoinPaths(paths: seq<string>) returns (status: int, result: string)
    ensures match Joined(paths)
            case None => status == -ENAMETOOLONG
            case Some(s) => status == 0 && result == s
  {
    result, status := "", 0;
    for i := 0 to |paths|
      invariant Joined(paths[..i]) == Some(result) && status == 0
    {
      assert paths[..i + 1][..i] == paths[..i];
      var path := paths[i];
      if |result| > 0 && result[|result| - 1] != '/' && (path == "" || path[0] != '/') {
        if |result| + |path| + 1 + 1 >= PATH_MAX {
          JoinedPrefix(paths, i + 1);
          return -ENAMETOOLONG, result;
        }
        result := result + "/" + path;
      } else if |result| > 0 && result[|result| - 1] == '/' && path != "" && path[0] == '/' {
        if |result| + |path| - 1 + 1 >= PATH_MAX {
          JoinedPrefix(paths, i + 1);
          return -ENAMETOOLONG, result;
        }
        result := result + path[1..];
      } else {
        if |result| + |path| + 1 >= PATH_MAX {
          JoinedPrefix(paths, i + 1);
          return -ENAMETOOLONG, result;
        }
        result := result + path;
      }
    }
    assert paths[..|paths|] == paths;
  }

  lemma {:induction false} JoinedPrefix(paths: seq<string>, n: nat)
    requires n <= |paths| && Joined(paths[..n]) == None
    ensures Joined(paths) == None
    decreases |paths|
  {
    if n == |paths| {
      assert paths[..n] == paths;
    } else {
      assert paths[..|paths| - 1][..n] == paths[..n];
      JoinedPrefix(paths[..|paths| - 1], n);
    }
  }

  lemma JoinNothing(path: string)
    ensures JoinedString("", path) == path
  {
    assert "" + path == path;
  }

  lemma {:induction false} JoinOne(paths: seq<string>)
    requires |paths| == 1
    ensures Joined(paths) == if Fits(paths[0]) then Some(paths[0]) else None
  {
    JoinNothing(paths[0]);
    assert paths[..0] == [];
  }

  lemma JoinTwo(base: string, path: string)
    ensures Joined([base, path]) ==
            if Fits(base) && Fits(JoinedString(base, path)) then Some(JoinedString(base, path)) else None
  {
    var paths := [base, path];
    assert paths[..1] == [base];
    JoinOne(paths[..1]);
  }

  // ----- pop_component -----

  predicate AllSlashes(s: string) {
    forall i :: 0 <= i < |s| ==> s[i] == '/'
  }

  /** Remove the last component of a path; redundant slashes after it go too. */
  method PopComponent(path: string, ghost p: Path, ghost slashes: string) returns (popped: string)
    requires ValidPath(p) && AllSlashes(slashes) && path == Render(p) + slashes
    ensures popped == Render(Parent(p))
  {
    LengthOfTail(p);
    var offset := |path| - 1;
    if offset == 0 {
      return path;
    }
    ghost var last := if p == [] then 0 else |Tail(p)| - 1;
    while offset > 1 && path[offset] == '/'
      invariant 1 <= offset < |path| && last <= offset
      invariant AllSlashes(path[offset + 1..])
    {
      LastIsNotSlash(p, path, offset);
      offset := offset - 1;
    }
    LastIsNotSlash(p, path, offset);
    ghost var front := Parent(p);
    ParentTail(p);
    LengthOfTail(front);
    while offset > 1 && path[offset] != '/'
      invariant 1 <= offset < |path| && |Tail(front)| <= offset <= if p == [] then 1 else last
    {
      offset := offset - 1;
    }
    Popped(p, path, slashes, offset);
    popped := path[..offset];
  }

  lemma {:induction false} Popped(p: Path, path: string, slashes: string, offset: nat)
    requires ValidPath(p) && path == Render(p) + slashes && 1 <= offset < |path| && (offset == 1 || path[offset] == '/')
    requires |Tail(Parent(p))| <= offset <= if p == [] then 1 else |Tail(p)| - 1
    ensures path[..offset] == Render(Parent(p))
  {
    if p != [] {
      ParentTail(p);
      assert path[..offset] == Tail(p)[..offset];
      LastSlash(Tail(p), Parent(p), p[|p| - 1], offset);
    }
  }

  lemma {:induction false} LastIsNotSlash(p: Path, path: string, offset: nat)
    requires ValidPath(p) && Render(p) <= path && AllSlashes(path[|Render(p)|..]) && 1 <= offset < |path|
    requires AllSlashes(path[offset + 1..])
    requires p != [] ==> |Tail(p)| - 1 <= offset
    ensures p != [] && path[offset] == '/' ==> |Tail(p)| - 1 < offset
    ensures p != [] && (offset == 1 || path[offset] != '/') ==> offset == |Tail(p)| - 1
  {
    if p != [] {
      TailEnd(p);
      var n := |Tail(p)|;
      if offset >= n {
        assert path[offset] == path[n..][offset - n];
      }
    }
  }

  lemma {:induction false} ParentTail(p: Path)
    requires ValidPath(p)
    ensures ValidPath(Parent(p))
    ensures p != [] ==> Tail(p) == Tail(Parent(p)) + "/" + p[|p| - 1]
  {
    if p != [] {
      var front, c := p[..|p| - 1], p[|p| - 1];
      assert p == front + [c];
      TailSnoc(front, c);
    }
  }

  lemma {:induction false} LastSlash(path: string, front: Path, c: Name, offset: nat)
    requires ValidPath(front) && IsName(c) && path == Tail(front) + "/" + c
    requires 1 <= offset < |path| && |Tail(front)| <= offset && (offset == 1 || path[offset] == '/')
    ensures path[..offset] == Render(front)
  {
    LengthOfTail(front);
    var n := |Tail(front)|;
    if offset > n {
      assert path[offset] == c[offset - n - 1];
    } else {
      assert path[..n] == Tail(front);
    }
  }

  // ----- next_component -----

  method SkipSeparators(path: string, start: nat) returns (cursor: nat)
    requires start <= |path|
    ensures start <= cursor <= |path| && path[cursor..] == SkipSlashes(path[start..])
  {
    cursor := start;
    while cursor < |path| && path[cursor] == '/'
      invariant start <= cursor <= |path| && SkipSlashes(path[cursor..]) == SkipSlashes(path[start..])
    {
      assert path[cursor..][1..] == path[cursor + 1..];
      cursor := cursor + 1;
    }
  }

  method SkipName(path: string, start: nat) returns (cursor: nat)
    requires start <= |path|
    ensures start <= cursor <= |path| && path[start..cursor] == FirstName(path[start..])
  {
    cursor := start;
    while cursor < |path| && path[cursor] != '/'
      invariant start <= cursor <= |path| && '/' !in path[start..cursor]
    {
      cursor := cursor + 1;
    }
    FirstNameOf(path[start..cursor], path[cursor..]);
    assert path[start..] == path[start..cursor] + path[cursor..];
  }

  datatype Component = TooLong | Component(name: string, finality: Finality, cursor: nat)

  /** The first of the components `todo`, with the `left` ones behind it; a path made of slashes has
      one component, an empty one. */
  predicate IsFirst(todo: Path, slash: bool, name: string, finality: Finality, left: Path) {
    if todo == [] then name == "" && finality == FinalNormal && left == []
    else name == todo[0] && finality == FinalityOf(todo, slash) && left == todo[1..]
  }

  /** What next_component finds in front of a path whose components are `todo`. */
  predicate IsNext(path: string, todo: Path, r: Component) {
    match r
    case TooLong => todo != [] && |todo[0]| >= NAME_MAX
    case Component(name, finality, cursor) =>
      && cursor <= |path| && |name| < NAME_MAX
      && IsFirst(todo, EndsWithSlash(path), name, finality, Parse(path[cursor..]))
  }

  method NextComponent(path: string, cursor: nat) returns (r: Component)
    requires cursor <= |path|
    ensures IsNext(path, Parse(path[cursor..]), r)
  {
    var start := SkipSeparators(path, cursor);
    var end := SkipName(path, start);
    if end - start >= NAME_MAX {
      NextFound(path, cursor, start, end, end);
      return TooLong;
    }
    var wantDir := end < |path| && path[end] == '/';
    var next := SkipSeparators(path, end);
    NextFound(path, cursor, start, end, next);
    if next == |path| {
      return Component(path[start..end], if wantDir then FinalSlash else FinalNormal, next);
    }
    r := Component(path[start..end], NotFinal, next);
  }

  lemma NextFound(path: string, cursor: nat, start: nat, end: nat, next: nat)
    requires cursor <= start <= end <= next <= |path| && path[start..] == SkipSlashes(path[cursor..])
    requires path[start..end] == FirstName(path[start..])
    ensures end - start >= NAME_MAX ==> IsNext(path, Parse(path[cursor..]), TooLong)
    ensures end - start < NAME_MAX && path[next..] == SkipSlashes(path[end..]) ==>
              IsNext(path, Parse(path[cursor..]), Component(path[start..end],
                if next < |path| then NotFinal else if end < |path| && path[end] == '/' then FinalSlash else FinalNormal, next))
  {
    SliceRest(path, start, end);
    ParseOne(path[cursor..], path[start..], path[start..end], path[end..]);
    if end - start < NAME_MAX && path[next..] == SkipSlashes(path[end..]) {
      ParseSkips(path[end..], path[next..]);
      if start < end && next == |path| {
        NothingLeft(path, start, end, next);
      }
      FirstIs(Parse(path[cursor..]), EndsWithSlash(path), path[start..end], Parse(path[next..]),
              if next < |path| then NotFinal else if end < |path| && path[end] == '/' then FinalSlash else FinalNormal);
    }
  }

  lemma FirstIs(todo: Path, slash: bool, name: string, left: Path, finality: Finality)
    requires if name == "" then todo == [] && left == [] && finality == FinalNormal else todo == [name] + left
    requires left != [] ==> finality == NotFinal
    requires name != "" && left == [] ==> finality == if slash then FinalSlash else FinalNormal
    ensures IsFirst(todo, slash, name, finality, left)
  {
  }

  lemma SliceRest(path: string, start: nat, end: nat)
    requires start <= end <= |path|
    ensures path[start..][|path[start..end]|..] == path[end..]
  {
  }

  lemma {:induction false} ParseOne(s: string, u: string, c: string, rest: string)
    requires u == SkipSlashes(s) && c == FirstName(u) && rest == u[|c|..]
    ensures Parse(s) == if u == "" then [] else [c] + Parse(rest)
    ensures c == "" <==> u == ""
  {
  }

  lemma {:induction false} ParseSkips(s: string, u: string)
    requires u == SkipSlashes(s)
    ensures Parse(u) == Parse(s)
    ensures u == "" <==> Parse(s) == []
  {
    assert SkipSlashes(u) == u;
  }

  lemma NothingLeft(path: string, start: nat, end: nat, next: nat)
    requires start < end <= next <= |path| && next == |path| && path[next..] == SkipSlashes(path[end..])
    requires '/' !in path[start..end]
    ensures EndsWithSlash(path) == (end < |path| && path[end] == '/')
  {
    if end == |path| {
      assert path[|path| - 1] in path[start..end];
    } else {
      assert path[end..][|path| - 1 - end] == path[|path| - 1];
    }
  }

  // ----- canonicalize -----

  /** The targets readlink(2) gives, detranslated, are those of the tree. */
  ghost predicate Coherent(t: Tree, readlink: Path -> string) {
    forall p :: t(p).Symlink? ==> readlink(p) != "" && NUL !in readlink(p) && ParsePath(readlink(p)) == t(p).path
  }

  function StatStatus(n: Node, finality: Finality): int {
    match StatError(n, finality) case Some(e) => -e case None => if n.Symlink? then 1 else 0
  }

  /** substitute_binding_stat: whether there is a link there, or an error. */
  method SubstituteBindingStat(t: Tree, finality: Finality, guestPath: string, ghost p: Path) returns (status: int)
    requires ValidPath(p) && guestPath == Render(p)
    ensures status == StatStatus(t(p), finality)
  {
    ParseRender(p);
    var n := t(Parse(guestPath));
    if finality == NotFinal && !n.Directory? && !n.Symlink? {
      return if n.Missing? then -ENOENT else -ENOTDIR;
    }
    status := if n.Symlink? then 1 else 0;
  }

  /** Where a walk stands: its result is still that of walking through `todo` from `cwd`, or it is
      already known. */
  ghost predicate Standing(t: Tree, cwd: Path, todo: Path, slash: bool, deref: bool, level: nat, finality: Finality, r: Result)
    requires level <= MAXSYMLINKS
  {
    if finality == NotFinal then
      AllDirectories(t, cwd) && ValidPath(todo) && r == Walk(t, cwd, todo, slash, deref, level)
    else r == Ok(cwd, finality)
  }

  /** One component, as the loop handles it. */
  function AfterDots(cwd: Path, name: string, finality: Finality): (Path, Finality) {
    if name == "." then (cwd, if finality != NotFinal then FinalDot else finality)
    else (Parent(cwd), if finality != NotFinal then FinalSlash else finality)
  }

  lemma DotsStand(t: Tree, cwd: Path, todo: Path, slash: bool, deref: bool, level: nat,
                  name: string, finality: Finality, left: Path, r: Result)
    requires level <= MAXSYMLINKS && ValidTree(t) && Standing(t, cwd, todo, slash, deref, level, NotFinal, r)
    requires IsFirst(todo, slash, name, finality, left) && |name| < NAME_MAX && (name == "." || name == "..")
    ensures var (cwd', f) := AfterDots(cwd, name, finality);
            Standing(t, cwd', left, slash, deref, level, f, r)
  {
    ParentDirectories(t, cwd);
  }

  lemma PlainStands(t: Tree, cwd: Path, todo: Path, slash: bool, deref: bool, level: nat,
                    name: Name, finality: Finality, left: Path, r: Result)
    requires level <= MAXSYMLINKS && ValidTree(t) && Standing(t, cwd, todo, slash, deref, level, NotFinal, r)
    requires IsFirst(todo, slash, name, finality, left) && |name| < NAME_MAX
    requires IsName(name) && name != "." && name != ".." && Fits(Render(cwd + [name]))
    requires StatError(t(cwd + [name]), finality).None?
    requires !t(cwd + [name]).Symlink? || (finality == FinalNormal && !deref)
    ensures Standing(t, cwd + [name], left, slash, deref, level, finality, r)
  {
    DirectoriesSnoc(t, cwd, name);
  }

  lemma {:induction false} LinkStands(t: Tree, cwd: Path, todo: Path, slash: bool, deref: bool, level: nat,
                   name: Name, finality: Finality, left: Path, r: Result)
    requires level <= MAXSYMLINKS && ValidTree(t) && Standing(t, cwd, todo, slash, deref, level, NotFinal, r)
    requires IsFirst(todo, slash, name, finality, left) && |name| < NAME_MAX
    requires IsName(name) && name != "." && name != ".." && Fits(Render(cwd + [name]))
    requires t(cwd + [name]).Symlink? && !(finality == FinalNormal && !deref) && t(cwd + [name]).length < PATH_MAX
    ensures var nested := Enter(t, cwd, t(cwd + [name]).path, true, level + 1);
            if nested.Err? then r == nested
            else !t(nested.path).Symlink? &&
                 var e := StatError(t(nested.path), finality);
                 if e.Some? then r == Err(e.value)
                 else Standing(t, nested.path, left, slash, deref, level, finality, r)
  {
    if level < MAXSYMLINKS {
      EnterSettled(t, cwd, t(cwd + [name]).path, true, level + 1);
    }
  }

  lemma JoinComponent(cwd: Path, name: string)
    requires ValidPath(cwd) && (IsName(name) || (name == "" && cwd == []))
    ensures var next := if name == "" then cwd else cwd + [name];
            && ValidPath(next) && (Fits(Render(next)) ==> Fits(Render(cwd)))
            && Joined([Render(cwd), name]) == if Fits(Render(next)) then Some(Render(next)) else None
  {
    JoinTwo(Render(cwd), name);
    if name == "" {
      assert JoinedString("/", name) == "/";
    } else {
      JoinName(cwd, name);
      TailSnoc(cwd, name);
    }
  }

  lemma RefusedStands(t: Tree, cwd: Path, todo: Path, slash: bool, deref: bool, level: nat,
                      name: Name, finality: Finality, left: Path, r: Result)
    requires level <= MAXSYMLINKS && Standing(t, cwd, todo, slash, deref, level, NotFinal, r)
    requires IsFirst(todo, slash, name, finality, left) && |name| < NAME_MAX
    requires IsName(name) && name != "." && name != ".."
    ensures var next := cwd + [name];
            if !Fits(Render(next)) then r == Err(ENAMETOOLONG)
            else if StatError(t(next), finality).Some? then r == Err(StatError(t(next), finality).value)
            else t(next).Symlink? && !(finality == FinalNormal && !deref) && t(next).length >= PATH_MAX ==> r == Err(ENAMETOOLONG)
  {
  }

  lemma FirstValid(todo: Path, slash: bool, name: string, finality: Finality, left: Path)
    requires IsFirst(todo, slash, name, finality, left) && ValidPath(todo)
    ensures ValidPath(left) && (todo != [] ==> IsName(name))
    ensures finality == NotFinal <==> left != []
    ensures finality == NotFinal ==> |left| < |todo|
  {
  }

  /** The end a path keeps at the first level. */
  method Finish(guestPath: string, finality: Finality, ghost p: Path) returns (status: int, guest: string)
    requires guestPath == Render(p) && ValidPath(p) && finality != NotFinal && Fits(guestPath)
    ensures if (finality == FinalSlash || finality == FinalDot) && !Fits(Finished(p, finality)) then status == -ENAMETOOLONG
            else status == 0 && guest == Finished(p, finality)
  {
    match finality
    case FinalSlash =>
      JoinTwo(guestPath, "");
      status, guest := JoinPaths([guestPath, ""]);
    case FinalDot =>
      JoinTwo(guestPath, ".");
      status, guest := JoinPaths([guestPath, "."]);
    case _ =>
      status, guest := 0, guestPath;
  }

  /** What canonicalize leaves below the first level: the path itself. */
  ghost predicate LeavesBelow(r: Result, status: int, guest: string) {
    if r.Err? then status == -r.errno else status == 0 && guest == Render(r.path)
  }

  method Canonicalize(t: Tree, readlink: Path -> string, userPath: string, derefFinal: bool,
                      guestPath: string, level: nat, ghost start: Path, ghost path: Parsed)
    returns (status: int, guest: string)
    requires ValidTree(t) && Coherent(t, readlink)
    requires userPath != "" && NUL !in userPath && path == ParsePath(userPath)
    requires Clean(start) && AllDirectories(t, start) && guestPath == Render(start)
    requires level <= MAXSYMLINKS + 1
    ensures level == 0 ==> var (e, s) := Canonical(t, start, path, derefFinal);
                           status == e && (e == 0 ==> guest == s)
    ensures level > 0 ==> LeavesBelow(Enter(t, start, path, derefFinal, level), status, guest)
    decreases MAXSYMLINKS + 1 - level
  {
    guest := guestPath;
    if level > MAXSYMLINKS {
      return -ELOOP, guest;
    }
    ghost var cwd := start;
    if userPath[0] == '/' {
      guest, cwd := "/", [];
    }
    ghost var r := Walk(t, cwd, Parse(userPath), EndsWithSlash(userPath), derefFinal, level);
    ParseValid(userPath);
    var finality;
    status, guest, finality, cwd := CanonicalizeFrom(t, readlink, userPath, derefFinal, guest, level, cwd, r);
    if status < 0 {
      return;
    }
    if level == 0 {
      status, guest := Finish(guest, finality, cwd);
    }
  }

  /** The loop over the components. */
  method CanonicalizeFrom(t: Tree, readlink: Path -> string, userPath: string, derefFinal: bool,
                          guestPath: string, level: nat, ghost start: Path, ghost r: Result)
    returns (status: int, guest: string, finality: Finality, ghost end: Path)
    requires ValidTree(t) && Coherent(t, readlink)
    requires userPath != "" && NUL !in userPath && level <= MAXSYMLINKS
    requires Clean(start) && AllDirectories(t, start) && guestPath == Render(start) && (userPath[0] == '/' ==> start == [])
    requires Standing(t, start, Parse(userPath), EndsWithSlash(userPath), derefFinal, level, NotFinal, r)
    ensures status <= 0
    ensures status < 0 ==> r.Err? && status == -r.errno
    ensures status == 0 ==> r == Ok(end, finality) && finality != NotFinal && guest == Render(end) && Clean(end)
    decreases MAXSYMLINKS + 1 - level, 2
  {
    var cursor: nat := 0;
    status, guest, finality, end := 0, guestPath, NotFinal, start;
    var slash := EndsWithSlash(userPath);
    ghost var todo := Parse(userPath);
    assert todo == Parse(userPath[cursor..]) by { assert userPath[cursor..] == userPath; }
    NonEmpty(userPath);
    while finality == NotFinal
      invariant status == 0 && cursor <= |userPath| && todo == Parse(userPath[cursor..])
      invariant guest == Render(end) && Clean(end)
      invariant Standing(t, end, todo, slash, derefFinal, level, finality, r)
      invariant finality == NotFinal && todo == [] ==> end == []
      decreases if finality == NotFinal then 1 + |todo| else 0
    {
      var next := NextComponent(userPath, cursor);
      if next.TooLong? {
        LongNameStands(t, end, todo, slash, derefFinal, level, r);
        return -ENAMETOOLONG, guest, finality, end;
      }
      ghost var rest := Parse(userPath[next.cursor..]);
      FirstValid(todo, slash, next.name, next.finality, rest);
      status, guest, finality, end :=
        Resolve(t, readlink, slash, derefFinal, guest, level, next.name, next.finality, end, todo, rest, r);
      if status < 0 {
        return status, guest, finality, end;
      }
      cursor, todo := next.cursor, rest;
    }
    Stood(t, end, todo, slash, derefFinal, level, finality, r);
  }

  lemma Stood(t: Tree, cwd: Path, todo: Path, slash: bool, deref: bool, level: nat, finality: Finality, r: Result)
    requires level <= MAXSYMLINKS && Standing(t, cwd, todo, slash, deref, level, finality, r) && finality != NotFinal
    ensures r == Ok(cwd, finality)
  {
  }

  lemma LongNameStands(t: Tree, cwd: Path, todo: Path, slash: bool, deref: bool, level: nat, r: Result)
    requires level <= MAXSYMLINKS && Standing(t, cwd, todo, slash, deref, level, NotFinal, r)
    requires todo != [] && |todo[0]| >= NAME_MAX
    ensures r == Err(ENAMETOOLONG)
  {
  }

  lemma {:induction false} NonEmpty(s: string)
    requires s != ""
    ensures Parse(s) == [] ==> s[0] == '/'
  {
    if s[0] != '/' {
      ParseOne(s, s, FirstName(s), s[|FirstName(s)|..]);
    }
  }

  /** The body of the loop, once the component is known. */
  method Resolve(t: Tree, readlink: Path -> string, slash: bool, derefFinal: bool, guestPath: string, level: nat,
                 component: string, finality: Finality, ghost cwd: Path, ghost todo: Path, ghost left: Path, ghost r: Result)
    returns (status: int, guest: string, finality': Finality, ghost cwd': Path)
    requires ValidTree(t) && Coherent(t, readlink)
    requires Clean(cwd) && guestPath == Render(cwd) && level <= MAXSYMLINKS
    requires Standing(t, cwd, todo, slash, derefFinal, level, NotFinal, r) && (todo == [] ==> cwd == [])
    requires IsFirst(todo, slash, component, finality, left) && |component| < NAME_MAX
    ensures status <= 0
    ensures status < 0 ==> r.Err? && status == -r.errno
    ensures status == 0 ==> guest == Render(cwd') && Clean(cwd') && (finality' == NotFinal <==> finality == NotFinal)
    ensures status == 0 ==> Standing(t, cwd', left, slash, derefFinal, level, finality', r)
    decreases MAXSYMLINKS + 1 - level, 1
  {
    if component == "." || component == ".." {
      DotsStand(t, cwd, todo, slash, derefFinal, level, component, finality, left, r);
      guest, finality', cwd' := PassDots(component, guestPath, finality, cwd);
      return 0, guest, finality', cwd';
    }
    FirstValid(todo, slash, component, finality, left);
    JoinComponent(cwd, component);
    ghost var next := if component == "" then cwd else cwd + [component];
    if todo != [] {
      RefusedStands(t, cwd, todo, slash, derefFinal, level, component, finality, left, r);
    }
    guest, finality', cwd' := guestPath, finality, next;
    var scratch: string;
    status, scratch := JoinPaths([guest, component]);
    if status < 0 {
      return;
    }
    status := SubstituteBindingStat(t, finality, scratch, next);
    if status < 0 {
      return;
    }
    if status <= 0 || (finality == FinalNormal && !derefFinal) {
      status, guest := JoinPaths([guest, component]);
      if todo != [] {
        CleanSnoc(cwd, component);
        PlainStands(t, cwd, todo, slash, derefFinal, level, component, finality, left, r);
      }
      return status, guest, finality, cwd';
    }
    status, guest, cwd' := Follow(t, readlink, slash, derefFinal, scratch, guest, level, component, finality, cwd, todo, left, r);
  }

  method PassDots(component: string, guestPath: string, finality: Finality, ghost cwd: Path)
    returns (guest: string, finality': Finality, ghost cwd': Path)
    requires Clean(cwd) && guestPath == Render(cwd) && (component == "." || component == "..")
    ensures guest == Render(cwd') && Clean(cwd') && (cwd', finality') == AfterDots(cwd, component, finality)
  {
    guest, finality', cwd' := guestPath, finality, cwd;
    if component == "." {
      if finality != NotFinal {
        finality' := FinalDot;
      }
    } else {
      ParentClean(cwd);
      assert Render(cwd) + "" == Render(cwd);
      guest := PopComponent(guest, cwd, "");
      if finality != NotFinal {
        finality' := FinalSlash;
      }
      cwd' := Parent(cwd);
    }
  }

  /** readlink(2) in a buffer of PATH_MAX bytes. */
  method ReadLink(t: Tree, readlink: Path -> string, hostPath: string, ghost p: Path) returns (status: int, target: string)
    requires Coherent(t, readlink) && ValidPath(p) && hostPath == Render(p) && t(p).Symlink?
    ensures status == if t(p).length >= PATH_MAX then -ENAMETOOLONG else 0
    ensures target != "" && NUL !in target && ParsePath(target) == t(p).path
  {
    ParseRender(p);
    target := readlink(Parse(hostPath));
    status := if t(Parse(hostPath)).length >= PATH_MAX then -ENAMETOOLONG else 0;
  }

  /** A link that has to be dereferenced. */
  method Follow(t: Tree, readlink: Path -> string, slash: bool, derefFinal: bool, hostPath: string, guestPath: string, level: nat,
                component: Name, finality: Finality, ghost cwd: Path, ghost todo: Path, ghost left: Path, ghost r: Result)
    returns (status: int, guest: string, ghost cwd': Path)
    requires ValidTree(t) && Coherent(t, readlink)
    requires Clean(cwd) && guestPath == Render(cwd) && level <= MAXSYMLINKS
    requires Standing(t, cwd, todo, slash, derefFinal, level, NotFinal, r)
    requires IsFirst(todo, slash, component, finality, left) && |component| < NAME_MAX
    requires IsName(component) && component != "." && component != ".."
    requires hostPath == Render(cwd + [component]) && Fits(hostPath)
    requires t(cwd + [component]).Symlink? && !(finality == FinalNormal && !derefFinal)
    ensures status <= 0
    ensures status < 0 ==> r.Err? && status == -r.errno
    ensures status == 0 ==> guest == Render(cwd') && Clean(cwd') && Standing(t, cwd', left, slash, derefFinal, level, finality, r)
    decreases MAXSYMLINKS + 1 - level, 0, 1
  {
    guest, cwd' := guestPath, cwd;
    RefusedStands(t, cwd, todo, slash, derefFinal, level, component, finality, left, r);
    var target: string;
    ghost var path := t(cwd + [component]).path;
    status, target := ReadLink(t, readlink, hostPath, cwd + [component]);
    if status < 0 {
      return;
    }
    ghost var nested := Dereferenced(t, cwd, todo, slash, derefFinal, level, component, finality, left, r);
    status, guest := FollowTarget(t, readlink, target, slash, derefFinal, guest, level, finality, cwd, path, left, r, nested);
    cwd' := if nested.Ok? then nested.path else cwd;
  }

  /** Where the target of a link leads, and whether that is what the rest of the path needs. */
  method FollowTarget(t: Tree, readlink: Path -> string, target: string, slash: bool, derefFinal: bool, guestPath: string,
                      level: nat, finality: Finality, ghost cwd: Path, ghost path: Parsed, ghost left: Path, ghost r: Result,
                      ghost nested: Result)
    returns (status: int, guest: string)
    requires ValidTree(t) && Coherent(t, readlink) && level <= MAXSYMLINKS
    requires target != "" && NUL !in target && path == ParsePath(target)
    requires Clean(cwd) && AllDirectories(t, cwd) && guestPath == Render(cwd)
    requires nested == Enter(t, cwd, path, true, level + 1) && LeadsOn(t, nested, left, slash, derefFinal, level, finality, r)
    ensures status <= 0
    ensures status < 0 ==> r.Err? && status == -r.errno
    ensures status == 0 ==> nested.Ok? && guest == Render(nested.path) && Clean(nested.path)
                            && Standing(t, nested.path, left, slash, derefFinal, level, finality, r)
    decreases MAXSYMLINKS + 1 - level, 0, 0
  {
    status, guest := Canonicalize(t, readlink, target, true, guestPath, level + 1, cwd, path);
    if status < 0 {
      return;
    }
    status := SubstituteBindingStat(t, finality, guest, nested.path);
    // It is no link any more.
    assert status != 1;
  }

  /** What the resolution of a link says about that of the whole path. */
  ghost predicate LeadsOn(t: Tree, nested: Result, left: Path, slash: bool, deref: bool, level: nat, finality: Finality, r: Result)
    requires level <= MAXSYMLINKS
  {
    match nested
    case Err(e) => r == nested && e > 0
    case Ok(p, _) =>
      && Clean(p) && StatStatus(t(p), finality) <= 0
      && if StatStatus(t(p), finality) < 0 then r.Err? && r.errno == -StatStatus(t(p), finality)
         else Standing(t, p, left, slash, deref, level, finality, r)
  }

  lemma Dereferenced(t: Tree, cwd: Path, todo: Path, slash: bool, deref: bool, level: nat,
                     name: Name, finality: Finality, left: Path, r: Result) returns (nested: Result)
    requires level <= MAXSYMLINKS && ValidTree(t) && Standing(t, cwd, todo, slash, deref, level, NotFinal, r)
    requires Clean(cwd) && IsFirst(todo, slash, name, finality, left) && |name| < NAME_MAX
    requires IsName(name) && name != "." && name != ".." && Fits(Render(cwd + [name]))
    requires t(cwd + [name]).Symlink? && !(finality == FinalNormal && !deref) && t(cwd + [name]).length < PATH_MAX
    ensures nested == Enter(t, cwd, t(cwd + [name]).path, true, level + 1)
    ensures LeadsOn(t, nested, left, slash, deref, level, finality, r)
  {
    var path := t(cwd + [name]).path;
    nested := Enter(t, cwd, path, true, level + 1);
    LinkStands(t, cwd, todo, slash, deref, level, name, finality, left, r);
    KnownErrors(t, cwd, path, true, level + 1);
    if level < MAXSYMLINKS {
      EnterClean(t, cwd, path, true, level + 1);
    }
  }

  lemma CleanSnoc(cwd: Path, c: Name)
    requires Clean(cwd) && IsName(c) && |c| < NAME_MAX && c != "." && c != ".." && Fits(Render(cwd + [c]))
    ensures Clean(cwd + [c])
  {
  }
}
