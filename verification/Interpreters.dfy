/** Expanding a script into its interpreters: the program that is run in the end and the argv[] it
    gets (src/execve/shebang.c:208-307). */
module Interpreters {
  import opened Common
  import opened TraceeMemory
  import opened Xpointers
  import opened Shebang

  const ENOENT: int := 2

  /** What a path of the tracee leads to: an error, or a file it may execute, which may not be
      readable. */
  type Errno = e: int | 0 < e witness 1
  datatype File = Absent(error: Errno) | Sealed(error: Errno) | Content(bytes: seq<Byte>)
  type Files = map<Text, File>

  /** The same, with the first line of each file. */
  datatype Program = Refused(errno: Errno) | Unreadable(errno: Errno) | Executable(line: Line)
  type Programs = map<Text, Program>

  function Inspected(file: File): Program {
    match file
    case Absent(e) => Refused(e)
    case Sealed(e) => Unreadable(e)
    case Content(bytes) => Executable(Extract(bytes))
  }

  function AllInspected(files: Files): (programs: Programs)
    ensures programs.Keys == files.Keys && forall p :: p in files ==> programs[p] == Inspected(files[p])
  {
    map p | p in files :: Inspected(files[p])
  }

  /** translate_and_check_exec */
  function Check(programs: Programs, path: Text): (errno: int)
    ensures errno >= 0 && (errno == 0 ==> path in programs && !programs[path].Refused?)
  {
    if path == [] then ENOEXEC
    else if path !in programs then ENOENT
    else if programs[path].Refused? then programs[path].errno
    else 0
  }

  /** execve(2): interpreter [optional-arg] filename arg... */
  function Rewritten(interpreter: Text, argument: Text, path: Text, argv: seq<Text>): seq<Text> {
    Words(interpreter, argument) + [path] + (if argv == [] then [] else argv[1..])
  }

  function Words(interpreter: Text, argument: Text): seq<Text> {
    if argument == [] then [interpreter] else [interpreter, argument]
  }

  /** What one level finds out about a path: an error, a program, or a script whose interpreter may be
      executed. */
  datatype Sight = Stop(errno: int) | Program | Via(interpreter: Text, argument: Text)

  function Look(programs: Programs, path: Text): (s: Sight)
    ensures s.Stop? ==> s.errno > 0
  {
    if Check(programs, path) != 0 then Stop(Check(programs, path))
    else if programs[path].Unreadable? then Stop(programs[path].errno)
    else match programs[path].line
      case NoScript => Sight.Program
      case Malformed => Stop(ENOEXEC)
      case Script(interpreter, argument) =>
        if Check(programs, interpreter) != 0 then Stop(Check(programs, interpreter)) else Via(interpreter, argument)
  }

  datatype Expansion = Failed(errno: int) | Expanded(path: Text, argv: seq<Text>, script: bool)

  function Expand(programs: Programs, path: Text, argv: seq<Text>, script: bool, i: nat): Expansion
    requires i <= MAXSYMLINKS
    decreases MAXSYMLINKS - i
  {
    if i == MAXSYMLINKS then Failed(ELOOP)
    else match Look(programs, path)
      case Stop(errno) => Failed(errno)
      case Program => Expanded(path, argv, script)
      case Via(interpreter, argument) =>
        Expand(programs, interpreter, Rewritten(interpreter, argument, path, argv), true, i + 1)
  }

  // ---- the closed form ------------------------------------------------------------------

  /** One interpreter of a chain of scripts. */
  datatype Level = Level(interpreter: Text, argument: Text)

  /** These are the interpreters that lead from `path` to a program that is no script. */
  predicate Chain(programs: Programs, path: Text, levels: seq<Level>)
    decreases |levels|
  {
    if levels == [] then Look(programs, path) == Sight.Program
    else Look(programs, path) == Via(levels[0].interpreter, levels[0].argument)
         && Chain(programs, levels[0].interpreter, levels[1..])
  }

  /** The interpreters, the last one first, each with its argument. */
  function Front(levels: seq<Level>): seq<Text>
    decreases |levels|
  {
    if levels == [] then []
    else Front(levels[1..]) + Words(levels[0].interpreter, levels[0].argument)
  }

  function Final(path: Text, levels: seq<Level>): Text {
    if levels == [] then path else levels[|levels| - 1].interpreter
  }

  function Whole(path: Text, argv: seq<Text>, levels: seq<Level>): seq<Text> {
    if levels == [] then argv else Front(levels) + [path] + (if argv == [] then [] else argv[1..])
  }

  lemma WholeStep(path: Text, argv: seq<Text>, levels: seq<Level>)
    requires levels != []
    ensures var l := levels[0];
            Whole(l.interpreter, Rewritten(l.interpreter, l.argument, path, argv), levels[1..]) == Whole(path, argv, levels)
    ensures Final(levels[0].interpreter, levels[1..]) == Final(path, levels)
  {
    var l, rest := levels[0], levels[1..];
    var words := Words(l.interpreter, l.argument);
    var tail := if argv == [] then [] else argv[1..];
    assert words == [l.interpreter] + words[1..];
    FirstDropped(l.interpreter, words[1..], path, tail);
    Regroup(Front(rest), l.interpreter, words[1..], path, tail);
    assert rest == [] ==> Front(levels) == words;
  }

  lemma FirstDropped(first: Text, words: seq<Text>, path: Text, tail: seq<Text>)
    ensures ([first] + words + [path] + tail)[1..] == words + [path] + tail
  {
  }

  lemma Regroup(front: seq<Text>, first: Text, words: seq<Text>, path: Text, tail: seq<Text>)
    ensures front + [first] + (words + [path] + tail) == front + ([first] + words) + [path] + tail
  {
  }

  /** A script runs its last interpreter with every interpreter and its argument, innermost last, then
      its own path and the arguments it was given; it fits in MAXSYMLINKS levels or fails. */
  lemma {:induction false} ExpandChain(programs: Programs, path: Text, argv: seq<Text>, script: bool, i: nat, levels: seq<Level>)
    requires i <= MAXSYMLINKS && Chain(programs, path, levels)
    ensures Expand(programs, path, argv, script, i)
            == if i + |levels| < MAXSYMLINKS then Expanded(Final(path, levels), Whole(path, argv, levels), script || levels != [])
               else Failed(ELOOP)
    decreases |levels|
  {
    if i < MAXSYMLINKS && levels != [] {
      var l := levels[0];
      ExpandChain(programs, l.interpreter, Rewritten(l.interpreter, l.argument, path, argv), true, i + 1, levels[1..]);
      WholeStep(path, argv, levels);
    }
  }

  /** Nothing else succeeds. */
  lemma {:induction false} ExpandedChain(programs: Programs, path: Text, argv: seq<Text>, script: bool, i: nat) returns (levels: seq<Level>)
    requires i <= MAXSYMLINKS && Expand(programs, path, argv, script, i).Expanded?
    ensures Chain(programs, path, levels) && i + |levels| < MAXSYMLINKS
    decreases MAXSYMLINKS - i
  {
    var line := Look(programs, path);
    if line.Program? {
      levels := [];
    } else {
      var rest := ExpandedChain(programs, line.interpreter, Rewritten(line.interpreter, line.argument, path, argv), true, i + 1);
      levels := [Level(line.interpreter, line.argument)] + rest;
      assert levels[1..] == rest;
    }
  }

  // ---- what a file is run as -----------------------------------------------------------------

  /** The arguments a program was given, after its own name. */
  function Given(words: seq<Text>): seq<Text> {
    if words == [] then [] else words[1..]
  }

  /** A path that leads to something the tracee may execute. */
  predicate MayExecute(files: Files, path: Text) {
    path != [] && path in files && !files[path].Absent?
  }

  predicate IsScript(bytes: seq<Byte>) {
    2 <= |bytes| && bytes[..2] == [35, 33]
  }

  /** A file is a program, or a script for an interpreter that may be executed; and otherwise this is the
      error: that of an empty path, of a missing file, of one that may not be executed or read, or of its
      interpreter. */
  lemma LookMeaning(files: Files, path: Text)
    ensures var sight := Look(AllInspected(files), path);
            && (sight == Sight.Program <==>
                  MayExecute(files, path) && files[path].Content? && !IsScript(files[path].bytes))
            && (sight.Via? ==>
                  && MayExecute(files, path) && files[path].Content? && IsScript(files[path].bytes)
                  && MayExecute(files, sight.interpreter)
                  && Extract(files[path].bytes) == Script(sight.interpreter, sight.argument))
            && (path == [] ==> sight == Stop(ENOEXEC))
            && (path != [] && path !in files ==> sight == Stop(ENOENT))
            && (path != [] && path in files && !files[path].Content? ==> sight == Stop(files[path].error))
            && (MayExecute(files, path) && files[path].Content? && Extract(files[path].bytes).Malformed? ==> sight == Stop(ENOEXEC))
            && (MayExecute(files, path) && files[path].Content? && Extract(files[path].bytes).Script? ==>
                  var interpreter := Extract(files[path].bytes).interpreter;
                  if MayExecute(files, interpreter) then sight.Via?
                  else sight == Stop(if interpreter == [] then ENOEXEC
                                     else if interpreter !in files then ENOENT else files[interpreter].error))
  {
    if MayExecute(files, path) && files[path].Content? {
      ScriptIff(files[path].bytes);
    }
  }

  /** execve(2): a script whose first line is "#!interpreter argument", with any blanks, runs the
      interpreter with its own name, the argument, the path of the script and what the script was given. */
  lemma {:induction false} ScriptRuns(files: Files, path: Text, argv: seq<Text>, lead: seq<Byte>, interpreter: Text,
                                      gap: seq<Byte>, argument: Text, trail: seq<Byte>, tail: seq<Byte>)
    requires AllBlank(lead) && Plain(interpreter) && AllBlank(gap) && gap != []
    requires OneArgument(argument) && AllBlank(trail)
    requires 2 + |lead| + |interpreter| + |gap| + |argument| + |trail| + 1 < BINPRM_BUF_SIZE
    requires MayExecute(files, path) && MayExecute(files, interpreter)
    requires files[path] == Content([HASH, BANG] + lead + (interpreter + gap + (argument + trail)) + [NEWLINE] + tail)
    requires files[interpreter].Content? && !IsScript(files[interpreter].bytes)
    ensures Expand(AllInspected(files), path, argv, false, 0)
            == Expanded(interpreter, [interpreter, argument, path] + Given(argv), true)
  {
    var programs := AllInspected(files);
    WithArgument(lead, interpreter, gap, argument, trail, tail);
    LookMeaning(files, path);
    LookMeaning(files, interpreter);
    assert programs[path].line == Script(interpreter, argument);
    assert Rewritten(interpreter, argument, path, argv) == [interpreter, argument, path] + Given(argv);
    assert Expand(programs, interpreter, Rewritten(interpreter, argument, path, argv), true, 1).Expanded?;
  }

  // ---- rewriting the array in place --------------------------------------------------------

  /** What is left of an array once its first string is replaced: at least the null entry. */
  function Tail(e: Entries): Entries
    requires e != []
  {
    if |e| == 1 then e else e[1..]
  }

  /** The first entry gives way to the strings of one level. */
  ghost predicate Rewrote(e: Entries, f: Entries, interpreter: Text, argument: Text, path: Text) {
    var n := |Words(interpreter, argument)|;
    && e != [] && |f| == n + 1 + |Tail(e)|
    && f[0].local == Some(interpreter)
    && (argument != [] ==> f[1].local == Some(argument))
    && f[n].local == Some(path)
    && f[n + 1..] == Tail(e)
  }

  lemma RewrittenMeans(mem: Memory, e: Entries, f: Entries, argv: seq<Text>, interpreter: Text, argument: Text, path: Text)
    requires Means(mem, e, argv) && Rewrote(e, f, interpreter, argument, path)
    ensures Means(mem, f, Rewritten(interpreter, argument, path, argv))
  {
    var n, all := |Words(interpreter, argument)|, Rewritten(interpreter, argument, path, argv);
    forall i | 0 <= i < |all| ensures Denotes(mem, f[i], all[i]) {
      if i > n {
        assert f[i] == f[n + 1..][i - n - 1] == Tail(e)[i - n - 1] == e[i - n];
        assert Denotes(mem, e[i - n], argv[i - n]);
      }
    }
    assert f[|all|] == f[n + 1..][|Tail(e)| - 1];
  }

  /** One level: argv[0] gives way to the interpreter, its argument if any, and the script. */
  method Rewrite(argv: ArrayOfXPointers, interpreter: Text, argument: Text, path: Text)
    requires argv.entries != []
    modifies argv
    ensures argv.entries != []
    ensures forall mem, a :: Means(mem, old(argv.entries), a) ==> Means(mem, argv.entries, Rewritten(interpreter, argument, path, a))
    ensures Rewrote(old(argv.entries), argv.entries, interpreter, argument, path)
    ensures Kept(old(argv.entries), argv.entries)
    ensures argv.entries[0].local.Some?
  {
    var e := argv.entries;
    var empty := if |argv.entries| == 1 then 1 else 0;
    if argument != [] {
      argv.Resize(0, 2 + empty);
      argv.WriteXpointee(0, interpreter);
      argv.WriteXpointee(1, argument);
      argv.WriteXpointee(2, path);
      assert argv.entries[3..] == Tail(e);
    } else {
      argv.Resize(0, 1 + empty);
      argv.WriteXpointee(0, interpreter);
      argv.WriteXpointee(1, path);
      assert argv.entries[2..] == Tail(e);
    }
    forall mem, a | Means(mem, e, a) ensures Means(mem, argv.entries, Rewritten(interpreter, argument, path, a)) {
      RewrittenMeans(mem, e, argv.entries, a, interpreter, argument, path);
    }
    KeptTail(e, argv.entries, |Words(interpreter, argument)| + 1);
  }

  /** Pointers into the tracee are the old ones, and the last entry is still the last one. */
  ghost predicate Kept(e: Entries, f: Entries) {
    && e != [] && f != [] && f[|f| - 1] == e[|e| - 1]
    && forall k :: 0 <= k < |f| ==> KeptEntry(e, f[k])
  }

  ghost predicate KeptEntry(e: Entries, x: XPointer)
    requires e != []
  {
    x in e || (x.local.Some? && x.remote in {0, e[0].remote})
  }

  lemma KeptTail(e: Entries, f: Entries, n: nat)
    requires e != [] && n <= |f| && f[n..] == Tail(e)
    requires forall k :: 0 <= k < n ==> f[k].local.Some? && f[k].remote in {0, e[0].remote}
    ensures Kept(e, f)
  {
    assert f[|f| - 1] == f[n..][|Tail(e)| - 1];
    forall k | n <= k < |f| ensures f[k] in e {
      assert f[k] == f[n..][k - n];
    }
  }

  // ---- the whole expansion ------------------------------------------------------------------

  lemma {:induction false} ExpandSplit(programs: Programs, path: Text, front: seq<Text>, rest: seq<Text>, script: bool, i: nat)
    requires i <= MAXSYMLINKS && front != []
    ensures Expand(programs, path, front + rest, script, i)
            == match Expand(programs, path, front, script, i)
               case Failed(errno) => Failed(errno)
               case Expanded(program, argv, s) => Expanded(program, argv + rest, s)
    decreases MAXSYMLINKS - i
  {
    if i < MAXSYMLINKS {
      var sight := Look(programs, path);
      if sight.Via? {
        var next := Rewritten(sight.interpreter, sight.argument, path, front);
        assert (front + rest)[1..] == front[1..] + rest;
        Rejoin(Words(sight.interpreter, sight.argument) + [path], front[1..], rest);
        ExpandSplit(programs, sight.interpreter, next, rest, true, i + 1);
      }
    }
  }

  lemma Rejoin(a: seq<Text>, b: seq<Text>, c: seq<Text>)
    ensures a + (b + c) == a + b + c
  {
  }

  /** The arguments given to a script only matter as the end of argv[]. */
  lemma {:induction false} ExpandFront(programs: Programs, path: Text, words: seq<Text>)
    ensures Expand(programs, path, words, false, 0)
            == match Expand(programs, path, [], false, 0)
               case Failed(errno) => Failed(errno)
               case Expanded(program, front, script) => Expanded(program, if script then front + Given(words) else words, script)
    ensures var x := Expand(programs, path, [], false, 0); x.Expanded? ==> (x.script <==> Look(programs, path).Via?)
  {
    var sight := Look(programs, path);
    if sight.Via? {
      var front := Words(sight.interpreter, sight.argument) + [path];
      assert Rewritten(sight.interpreter, sight.argument, path, []) == front;
      assert Rewritten(sight.interpreter, sight.argument, path, words) == front + Given(words);
      ExpandSplit(programs, sight.interpreter, front, Given(words), true, 1);
      StaysScript(programs, sight.interpreter, front, 1);
    }
  }

  lemma {:induction false} StaysScript(programs: Programs, path: Text, argv: seq<Text>, i: nat)
    requires i <= MAXSYMLINKS
    ensures var x := Expand(programs, path, argv, true, i); x.Expanded? ==> x.script
    decreases MAXSYMLINKS - i
  {
    if i < MAXSYMLINKS && Look(programs, path).Via? {
      var sight := Look(programs, path);
      StaysScript(programs, sight.interpreter, Rewritten(sight.interpreter, sight.argument, path, argv), i + 1);
    }
  }

  /** The array of a tracee once these strings of the tracer replaced its first entry. */
  function NewArray(front: seq<Text>, first: Entries): Entries
    requires first != []
  {
    seq(|front|, i requires 0 <= i < |front| => XPointer(0, Some(front[i]))) + Tail(first)
  }

  /** An array is that one, but for the pointers that its own strings replace. */
  ghost predicate Fronted(e: Entries, front: seq<Text>, first: Entries) {
    && first != []
    && if front == [] then e == first
       else
         && |e| == |front| + |Tail(first)| && e[|front|..] == Tail(first)
         && forall k :: 0 <= k < |front| ==> e[k].local == Some(front[k])
  }

  lemma FrontedSame(e: Entries, front: seq<Text>, first: Entries)
    requires front != [] && Fronted(e, front, first) && forall k :: 0 <= k < |first| ==> first[k].local.None?
    ensures SameStrings(e, NewArray(front, first))
  {
    var f := NewArray(front, first);
    assert f[|front|..] == Tail(first);
    forall k | 0 <= k < |e| ensures e[k].local == f[k].local {
      if k >= |front| {
        assert e[k] == e[|front|..][k - |front|] == f[k];
      }
    }
  }

  lemma FrontedNext(e: Entries, f: Entries, front: seq<Text>, first: Entries, interpreter: Text, argument: Text, path: Text)
    requires Fronted(e, front, first) && Rewrote(e, f, interpreter, argument, path)
    ensures Fronted(f, Rewritten(interpreter, argument, path, front), first)
  {
    var n, next := |Words(interpreter, argument)| + 1, Rewritten(interpreter, argument, path, front);
    forall k | 0 <= k < |next| ensures f[k].local == Some(next[k]) {
      if k >= n {
        TailAt(f, n, Tail(e), k);
      }
    }
    if front != [] {
      assert f[|next|..] == f[n..][|front| - 1..] == e[1..][|front| - 1..] == e[|front|..];
    }
  }

  lemma TailAt(f: Entries, n: nat, tail: Entries, k: nat)
    requires n <= k < |f| && f[n..] == tail
    ensures f[k] == tail[k - n]
  {
  }

  /** With what the first array means, so does this one, and its pointers fit. */
  lemma FrontedMeans(mem: Memory, e: Entries, front: seq<Text>, first: Entries, words: seq<Text>)
    requires front != [] && Fronted(e, front, first) && Means(mem, first, words)
    ensures Means(mem, e, front + Given(words))
  {
    var all := front + Given(words);
    assert |e| == |all| + 1;
    forall i | 0 <= i < |all| ensures Denotes(mem, e[i], all[i]) {
      if i >= |front| {
        FrontedTail(e, front, first, i);
        assert Denotes(mem, first[i - |front| + 1], words[i - |front| + 1]);
      }
    }
    FrontedLast(e, front, first);
  }

  lemma FrontedTail(e: Entries, front: seq<Text>, first: Entries, i: nat)
    requires front != [] && Fronted(e, front, first) && |first| > 1 && |front| <= i < |e|
    ensures e[i] == first[i - |front| + 1]
  {
    assert e[i] == e[|front|..][i - |front|];
  }

  lemma FrontedLast(e: Entries, front: seq<Text>, first: Entries)
    requires front != [] && Fronted(e, front, first)
    ensures e[|e| - 1] == first[|first| - 1]
  {
    assert e[|e| - 1] == e[|front|..][|Tail(first)| - 1];
  }

  lemma FrontedBelow(e: Entries, front: seq<Text>, first: Entries, limit: nat)
    requires front != [] && Fronted(e, front, first) && forall k :: 0 <= k < |first| ==> first[k].remote < limit
    ensures Below(e, limit)
  {
    forall i | 0 <= i < |e| && e[i].local.None? ensures e[i].remote < limit {
      assert i >= |front|;
      assert e[i] == e[|front|..][i - |front|];
    }
  }

  // Where the arguments that a script was given are left.

  predicate StringStays(mem: Memory, mem': Memory, address: nat, ws: nat, s: Text) {
    Mapped(mem, address, ws) ==> StringAt(mem', WordAt(mem, address, ws), s)
  }

  /** The strings of argv[] but for the first one are still where they were. */
  ghost predicate ArgumentsStay(mem: Memory, mem': Memory, address: nat, ws: nat, words: seq<Text>) {
    forall i :: 1 <= i < |words| ==> StringStays(mem, mem', address + i * ws, ws, words[i])
  }

  predicate Apart(mem: Memory, address: nat, ws: nat, s: Text, low: nat, high: nat) {
    Mapped(mem, address, ws) ==> WordAt(mem, address, ws) + |s| < low || high <= WordAt(mem, address, ws)
  }

  /** None of them is in a part of the memory. */
  ghost predicate ArgumentsApart(mem: Memory, address: nat, ws: nat, words: seq<Text>, low: nat, high: nat) {
    forall i :: 1 <= i < |words| ==> Apart(mem, address + i * ws, ws, words[i], low, high)
  }

  lemma ApartStay(mem: Memory, mem': Memory, address: nat, ws: nat, words: seq<Text>, low: nat, high: nat)
    requires ArgvAt(mem, address, ws, words) && ArgumentsApart(mem, address, ws, words, low, high)
    requires low <= high && KeptOutside(mem, mem', low, high - low)
    ensures ArgumentsStay(mem, mem', address, ws, words)
  {
    forall i | 1 <= i < |words| ensures StringStays(mem, mem', address + i * ws, ws, words[i]) {
      assert PointsTo(mem, address + i * ws, ws, words[i]) && Apart(mem, address + i * ws, ws, words[i], low, high);
      StringKept(mem, mem', WordAt(mem, address + i * ws, ws), words[i], low, high);
    }
  }

  lemma StringKept(mem: Memory, mem': Memory, address: nat, s: Text, low: nat, high: nat)
    requires StringAt(mem, address, s) && low <= high && KeptOutside(mem, mem', low, high - low)
    requires address + |s| < low || high <= address
    ensures StringAt(mem', address, s)
  {
    assert forall a :: a in mem <==> a in mem.Keys;
    assert forall a :: a in mem' <==> a in mem'.Keys;
    assert Peek(mem', address, |s|) == Peek(mem, address, |s|);
  }

  lemma OneStays(mem: Memory, mem': Memory, address: nat, ws: nat, words: seq<Text>,
                 e: Entries, front: seq<Text>, first: Entries, i: nat, k: nat)
    requires front != [] && Fronted(e, front, first) && Fetched(mem, address, ws, first) && Means(mem, first, words)
    requires 1 <= i < |words| && k == |front| + i - 1 && k < |e|
    ensures Stays(mem', e[k], words[i]) <==> StringStays(mem, mem', address + i * ws, ws, words[i])
  {
    FrontedTail(e, front, first, k);
    assert WordFetched(mem, address + i * ws, ws, first[i]);
  }

  lemma FrontedStay(mem: Memory, mem': Memory, address: nat, ws: nat, words: seq<Text>,
                    e: Entries, front: seq<Text>, first: Entries)
    requires front != [] && Fronted(e, front, first) && Fetched(mem, address, ws, first) && Means(mem, first, words)
    requires |e| == |front + Given(words)| + 1
    ensures Stay(mem', e, front + Given(words)) <==> ArgumentsStay(mem, mem', address, ws, words)
  {
    if Stay(mem', e, front + Given(words)) {
      StayOnlyIf(mem, mem', address, ws, words, e, front, first);
    }
    if ArgumentsStay(mem, mem', address, ws, words) {
      StayIf(mem, mem', address, ws, words, e, front, first);
    }
  }

  lemma StayOnlyIf(mem: Memory, mem': Memory, address: nat, ws: nat, words: seq<Text>,
                   e: Entries, front: seq<Text>, first: Entries)
    requires front != [] && Fronted(e, front, first) && Fetched(mem, address, ws, first) && Means(mem, first, words)
    requires |e| == |front + Given(words)| + 1 && Stay(mem', e, front + Given(words))
    ensures ArgumentsStay(mem, mem', address, ws, words)
  {
    forall i | 1 <= i < |words| ensures StringStays(mem, mem', address + i * ws, ws, words[i]) {
      var k := |front| + i - 1;
      assert Stays(mem', e[k], (front + Given(words))[k]);
      OneStays(mem, mem', address, ws, words, e, front, first, i, k);
    }
  }

  lemma StayIf(mem: Memory, mem': Memory, address: nat, ws: nat, words: seq<Text>,
               e: Entries, front: seq<Text>, first: Entries)
    requires front != [] && Fronted(e, front, first) && Fetched(mem, address, ws, first) && Means(mem, first, words)
    requires |e| == |front + Given(words)| + 1 && ArgumentsStay(mem, mem', address, ws, words)
    ensures Stay(mem', e, front + Given(words))
  {
    var all := front + Given(words);
    forall k | 0 <= k < |all| ensures Stays(mem', e[k], all[k]) {
      if k >= |front| {
        var i := k - |front| + 1;
        assert StringStays(mem, mem', address + i * ws, ws, words[i]);
        OneStays(mem, mem', address, ws, words, e, front, first, i, k);
      }
    }
  }

  /** The words that the tracee gave as argv[], as they can be read. */
  ghost function ArrayOf(tracee: Tracee, address: nat): Option<Entries>
    requires tracee.ws in {4, 8}
    reads tracee, tracee.access
  {
    ArrayAt(tracee.access.mem, address, tracee.ws, tracee.access.hasProcessVm)
  }

  /** What an expansion answers: what a level fails with; -EFAULT for an array that cannot be read, once
      a first script asks for it; 0 for a program that is no script; or else what pushing the new array
      answers, where 1 is success. */
  ghost function ExpandStatus(tracee: Tracee, programs: Programs, address: nat, path: Text): int
    requires tracee.ws in {4, 8}
    reads tracee, tracee.access
  {
    var expected := Expand(programs, path, [], false, 0);
    if Look(programs, path).Via? && ArrayOf(tracee, address).None? then -EFAULT
    else
      match expected
      case Failed(errno) => -errno
      case Expanded(_, front, script) =>
        if !script then 0
        else if tracee.PushStatus(Needed(tracee, front, address)) < 0 then tracee.PushStatus(Needed(tracee, front, address))
        else 1
  }

  /** The array that is pushed in the end. */
  ghost function Needed(tracee: Tracee, front: seq<Text>, address: nat): Entries
    requires tracee.ws in {4, 8}
    reads tracee, tracee.access
  {
    match ArrayOf(tracee, address)
    case None => []
    case Some(first) => if first == [] then [] else NewArray(front, first)
  }

  /** The array of a tracee through every level: fetched once, rewritten at each one, pushed at the
      end. On success `pointer`, when not 0, is the new value of the second argument of execve(2): the
      expanded argv[] if and only if the block does not cover an argument, which may only be where
      nothing is in use, below the stack. */
  method ExpandShebang(tracee: Tracee, files: Files, argvAddress: nat, userPath: Text, ghost words: seq<Text>)
      returns (status: int, path: Text, pointer: nat)
    requires tracee.ws in {4, 8} && tracee.sp < Limit(tracee.ws)
    modifies tracee`sp, tracee.access
    ensures status == old(ExpandStatus(tracee, AllInspected(files), argvAddress, userPath))
    ensures status >= 0 ==>
              var x := Expand(AllInspected(files), userPath, words, false, 0);
              x.Expanded? && path == x.path && status == if x.script then 1 else 0
    ensures status != 1 ==> pointer == 0
    ensures status !in {1, -EFAULT} ==> tracee.access.mem == old(tracee.access.mem) && tracee.sp == old(tracee.sp)
    ensures KeptAbove(old(tracee.access.mem), tracee.access.mem, old(tracee.sp))
    ensures status == 1 ==> pointer == tracee.sp && Stored(old(tracee.access.mem), tracee.access.mem, pointer, old(StackEnd(tracee)))
    ensures status == 1 && old(ArgvAt(tracee.access.mem, argvAddress, tracee.ws, words)) ==>
              Delivered(old(tracee.access.mem), tracee.access.mem, tracee.ws, argvAddress, words, pointer, old(StackEnd(tracee)),
                        Expand(AllInspected(files), userPath, words, false, 0).argv)
  {
    ghost var programs := AllInspected(files);
    ExpandFront(programs, userPath, words);
    var argv;
    ghost var front, first;
    pointer := 0;
    status, path, argv, front, first := ExpandLevels(tracee, files, argvAddress, userPath);
    StatusOfLevels(tracee, programs, argvAddress, userPath, path, front, first);
    if status < 0 || argv == null {
      return;
    }
    status, pointer := PushArgv(argv, front, first, argvAddress, words);
  }

  /** Where the unused part of the stack ends. */
  function StackEnd(tracee: Tracee): int
    reads tracee
  {
    tracee.sp - tracee.RedZone()
  }

  /** A block was written from `pointer` to the end of the unused stack, and nothing else. */
  ghost predicate Stored(mem: Memory, mem': Memory, pointer: nat, end: int) {
    0 < pointer <= end && KeptOutside(mem, mem', pointer, end - pointer)
  }

  /** The tracee sees `argv` if and only if the arguments it gave are still where they were, which is so
      when the block covers none of them. */
  ghost predicate Delivered(mem: Memory, mem': Memory, ws: nat, address: nat, words: seq<Text>, pointer: nat, end: int, argv: seq<Text>) {
    && (ArgvAt(mem', pointer, ws, argv) <==> ArgumentsStay(mem, mem', address, ws, words))
    && (0 <= end && ArgumentsApart(mem, address, ws, words, pointer, end) ==> ArgumentsStay(mem, mem', address, ws, words))
  }

  lemma {:induction false} StatusOfLevels(tracee: Tracee, programs: Programs, address: nat, userPath: Text, path: Text, front: seq<Text>, first: Entries)
    requires tracee.ws in {4, 8}
    ensures var x, lost := Expand(programs, userPath, [], false, 0), Look(programs, userPath).Via? && ArrayOf(tracee, address).None?;
            && (lost ==> ExpandStatus(tracee, programs, address, userPath) == -EFAULT)
            && (!lost && x.Failed? ==> ExpandStatus(tracee, programs, address, userPath) == -x.errno)
            && (!lost && x == Expanded(path, front, false) ==> ExpandStatus(tracee, programs, address, userPath) == 0)
            && (!lost && x == Expanded(path, front, true) && ArrayOf(tracee, address) == Some(first) && first != [] ==>
                  ExpandStatus(tracee, programs, address, userPath) ==
                  if tracee.PushStatus(NewArray(front, first)) < 0 then tracee.PushStatus(NewArray(front, first)) else 1)
  {
  }

  lemma {:induction false} ExpandedMeans(mem: Memory, address: nat, ws: nat, direct: bool, words: seq<Text>,
                                         e: Entries, front: seq<Text>, first: Entries, ptr: nat)
    requires ws in {4, 8} && ArgvAt(mem, address, ws, words) && ArrayAt(mem, address, ws, direct) == Some(first)
    requires front != [] && Fronted(e, front, first)
    requires Mapped(mem, ptr, Total(e, ws)) && ptr != 0 && ptr + Total(e, ws) <= Limit(ws)
    ensures var mem' := Poke(mem, ptr, Block(e, ws, ptr));
            ArgvAt(mem', ptr, ws, front + Given(words)) <==> ArgumentsStay(mem, mem', address, ws, words)
  {
    ArgvReadIff(mem, address, ws, direct, words);
    ArrayIsFetched(mem, address, ws, direct, first);
    WholeFetched(mem, address, ws, direct, first);
    forall k | 0 <= k < |first| ensures first[k].remote < Limit(ws) {
      assert WordFetched(mem, address + k * ws, ws, first[k]);
      DecodeBelow(Peek(mem, address + k * ws, ws));
    }
    FrontedMeans(mem, e, front, first, words);
    FrontedBelow(e, front, first, Limit(ws));
    PushMeaningIff(mem, e, front + Given(words), ws, ptr);
    FrontedStay(mem, Poke(mem, ptr, Block(e, ws, ptr)), address, ws, words, e, front, first);
  }

  /** The loop over the levels, which leaves the rewritten array to be pushed, if there is one. */
  method ExpandLevels(tracee: Tracee, files: Files, argvAddress: nat, userPath: Text)
      returns (status: int, path: Text, argv: ArrayOfXPointers?, ghost front: seq<Text>, ghost first: Entries)
    requires tracee.ws in {4, 8}
    ensures status <= 0
    ensures var x := Expand(AllInspected(files), userPath, [], false, 0);
            && (status == if Look(AllInspected(files), userPath).Via? && ArrayOf(tracee, argvAddress).None? then -EFAULT
                          else if x.Failed? then -x.errno else 0)
            && (status == 0 ==> x == Expanded(path, front, argv != null))
    ensures argv != null ==> fresh(argv) && (status == 0 ==> Live(argv, tracee, front, first, argvAddress))
  {
    ghost var programs := AllInspected(files);
    status, front, first, argv, path := 0, [], [], null, userPath;
    for i := 0 to MAXSYMLINKS
      invariant argv != null ==> fresh(argv) && Live(argv, tracee, front, first, argvAddress) && Look(programs, userPath).Via?
      invariant status <= 0
      invariant argv == null ==> front == [] && path == userPath && i == 0
      invariant Expand(programs, userPath, [], false, 0) == Expand(programs, path, front, argv != null, i)
    {
      var sight := LookAt(files, path);
      if sight.Stop? {
        return -sight.errno, path, argv, front, first;
      }
      if sight.Program? {
        return 0, path, argv, front, first;
      }
      status, argv, first := NextArgv(tracee, argv, argvAddress, sight, path, front, first);
      if status < 0 {
        return;
      }
      front := Rewritten(sight.interpreter, sight.argument, path, front);
      path := sight.interpreter;
    }
    status := -ELOOP;
  }

  /** The checks and the extraction of one level. */
  method LookAt(files: Files, path: Text) returns (sight: Sight)
    ensures sight == Look(AllInspected(files), path)
  {
    var status := TranslateAndCheckExec(files, path);
    if status < 0 {
      return Stop(-status);
    }
    ghost var programs := AllInspected(files);
    assert programs[path] == Inspected(files[path]);
    var line;
    status, line := ReadFirstLine(files[path]);
    if status < 0 {
      return Stop(-status);
    }
    if line.NoScript? {
      return Sight.Program;
    }
    status := TranslateAndCheckExec(files, line.interpreter);
    sight := if status < 0 then Stop(-status) else Via(line.interpreter, line.argument);
  }

  method TranslateAndCheckExec(files: Files, path: Text) returns (status: int)
    ensures status == -Check(AllInspected(files), path)
  {
    if path == [] {
      return -ENOEXEC;
    }
    if path !in files {
      return -ENOENT;
    }
    assert AllInspected(files)[path] == Inspected(files[path]);
    var errno: int := if files[path].Absent? then files[path].error else 0;
    status := -errno;
  }

  method ReadFirstLine(file: File) returns (status: int, line: Line)
    requires !file.Absent?
    ensures match Inspected(file)
            case Refused(_) => true
            case Unreadable(e) => status < 0 && e == -status
            case Executable(l) => status == if l.Malformed? then -ENOEXEC else 0
    ensures status == 0 ==> Inspected(file) == Executable(line) && !line.Malformed?
  {
    if file.Sealed? {
      var errno: int := file.error;
      return -errno, NoScript;
    }
    var fd := new Reader(file.bytes);
    line := ExtractShebang(fd);
    status := if line.Malformed? then -ENOEXEC else 0;
  }

  /** The array between two levels. */
  ghost predicate Live(argv: ArrayOfXPointers, tracee: Tracee, front: seq<Text>, first: Entries, address: nat)
    requires tracee.ws in {4, 8}
    reads argv, tracee, tracee.access
  {
    argv.tracee == tracee && front != [] && Fronted(argv.entries, front, first) && ArrayOf(tracee, address) == Some(first)
  }

  /** The first level fetches the array; every level rewrites it. */
  method NextArgv(tracee: Tracee, before: ArrayOfXPointers?, argvAddress: nat, sight: Sight, path: Text,
                  ghost front: seq<Text>, ghost first: Entries)
      returns (status: int, argv: ArrayOfXPointers, ghost fetched: Entries)
    requires tracee.ws in {4, 8} && sight.Via?
    requires if before == null then front == [] else Live(before, tracee, front, first, argvAddress)
    modifies before
    ensures fresh(argv) || argv == before
    ensures status == if before == null && ArrayOf(tracee, argvAddress).None? then -EFAULT else 0
    ensures status == 0 ==> Live(argv, tracee, Rewritten(sight.interpreter, sight.argument, path, front), fetched, argvAddress)
  {
    status, fetched := 0, first;
    if before == null {
      argv := new ArrayOfXPointers(tracee);
      status := argv.Fetch(argvAddress, 0);
      if status < 0 {
        return;
      }
      fetched := argv.entries;
    } else {
      argv := before;
    }
    ghost var e := argv.entries;
    Rewrite(argv, sight.interpreter, sight.argument, path);
    FrontedNext(e, argv.entries, front, fetched, sight.interpreter, sight.argument, path);
  }

  method PushArgv(argv: ArrayOfXPointers, ghost front: seq<Text>, ghost first: Entries, ghost address: nat, ghost words: seq<Text>)
      returns (status: int, pointer: nat)
    requires argv.tracee.ws in {4, 8} && argv.tracee.sp < Limit(argv.tracee.ws)
    requires Live(argv, argv.tracee, front, first, address)
    modifies argv, argv.tracee`sp, argv.tracee.access
    ensures var s := old(argv.tracee.PushStatus(NewArray(front, first))); status == if s < 0 then s else 1
    ensures status != 1 ==> pointer == 0
    ensures status == 1 ==>
              && pointer == argv.tracee.sp
              && Stored(old(argv.tracee.access.mem), argv.tracee.access.mem, pointer, old(StackEnd(argv.tracee)))
    ensures status == 1 && old(ArgvAt(argv.tracee.access.mem, address, argv.tracee.ws, words)) ==>
              Delivered(old(argv.tracee.access.mem), argv.tracee.access.mem, argv.tracee.ws, address, words, pointer,
                        old(StackEnd(argv.tracee)), front + Given(words))
    ensures status !in {1, -EFAULT} ==>
              argv.tracee.access.mem == old(argv.tracee.access.mem) && argv.tracee.sp == old(argv.tracee.sp)
    ensures KeptAbove(old(argv.tracee.access.mem), argv.tracee.access.mem, old(argv.tracee.sp))
  {
    ghost var mem, e, end := argv.tracee.access.mem, argv.entries, StackEnd(argv.tracee);
    LimitBelow(argv.tracee.ws);
    OneIsLeft(argv, front, first, address);
    FrontedSame(argv.entries, front, first);
    argv.tracee.SamePush(argv.entries, NewArray(front, first));
    status, pointer := argv.Push();
    if status == 0 {
      status := 1;
      if ArgvAt(mem, address, argv.tracee.ws, words) {
        BlockDelivered(mem, address, argv.tracee.ws, argv.tracee.access.hasProcessVm, words, e, front, first, pointer, end);
      }
    }
  }

  lemma {:induction false} BlockDelivered(mem: Memory, address: nat, ws: nat, direct: bool, words: seq<Text>,
                                          e: Entries, front: seq<Text>, first: Entries, ptr: nat, end: int)
    requires ws in {4, 8} && ArgvAt(mem, address, ws, words) && ArrayAt(mem, address, ws, direct) == Some(first)
    requires front != [] && Fronted(e, front, first)
    requires Mapped(mem, ptr, Total(e, ws)) && ptr != 0 && ptr + Total(e, ws) == end <= Limit(ws)
    ensures var mem' := Poke(mem, ptr, Block(e, ws, ptr));
            Delivered(mem, mem', ws, address, words, ptr, end, front + Given(words))
  {
    var mem' := Poke(mem, ptr, Block(e, ws, ptr));
    ExpandedMeans(mem, address, ws, direct, words, e, front, first, ptr);
    if ArgumentsApart(mem, address, ws, words, ptr, end) {
      BlockKeepsOutside(mem, ptr, Block(e, ws, ptr));
      ApartStay(mem, mem', address, ws, words, ptr, end);
    }
  }

  lemma BlockKeepsOutside(mem: Memory, ptr: nat, block: seq<Byte>)
    ensures KeptOutside(mem, Poke(mem, ptr, block), ptr, |block|)
  {
  }

  /** The null pointer that ends an array is never modified, and its first entry always is. */
  lemma {:induction false} OneIsLeft(argv: ArrayOfXPointers, front: seq<Text>, first: Entries, address: nat)
    requires argv.tracee.ws in {4, 8} && Live(argv, argv.tracee, front, first, address)
    ensures forall k :: 0 <= k < |first| ==> first[k].local.None?
    ensures argv.entries != [] && argv.entries[0].local.Some? && argv.entries[|argv.entries| - 1].local.None?
  {
    var access := argv.tracee.access;
    ArrayIsFetched(access.mem, address, argv.tracee.ws, access.hasProcessVm, first);
    ReadAt(access.mem, address, argv.tracee.ws, access.hasProcessVm, first);
    FrontedLast(argv.entries, front, first);
  }
}
