/** Scripts: what a first line asks for, and the argument of their interpreter
    (src/execve/shebang.c:51-198). */
module Shebang {
  import opened Common
  import opened TraceeMemory
  import opened Xpointers

  const BINPRM_BUF_SIZE: nat := 256
  const MAXSYMLINKS: nat := 20
  const ENOEXEC: int := 8
  const ELOOP: int := 40

  const SPACE: Byte := 32
  const TAB: Byte := 9
  const NEWLINE: Byte := 10
  const RETURN: Byte := 13
  const HASH: Byte := 35
  const BANG: Byte := 33

  predicate Blank(b: Byte) {
    b == SPACE || b == TAB
  }

  predicate EndOfLine(b: Byte) {
    b == NEWLINE || b == RETURN
  }

  // ---- the first line -------------------------------------------------------------------

  datatype Line = NoScript | Malformed | Script(interpreter: Text, argument: Text)

  /** Where the null byte is, or the length. */
  function CStringLength(s: seq<Byte>): (n: nat)
    ensures n <= |s| && (forall i :: 0 <= i < n ==> s[i] != 0) && (n < |s| ==> s[n] == 0)
  {
    if s == [] || s[0] == 0 then 0 else 1 + CStringLength(s[1..])
  }

  function CString(s: seq<Byte>): Text {
    s[..CStringLength(s)]
  }

  /** Blanks become null bytes in the buffer of the interpreter. */
  function Cut(b: Byte): Byte {
    if Blank(b) then 0 else b
  }

  /** The first `n` bytes of a line as the buffer of the interpreter holds them. */
  function Blanked(line: seq<Byte>, n: nat): (r: seq<Byte>)
    requires n <= |line|
    ensures |r| == n
  {
    seq(n, i requires 0 <= i < n => Cut(line[i]))
  }

  /** The bytes that are looked at: the last one of the buffer is kept for a null byte. */
  function Window(file: seq<Byte>): (n: nat)
    ensures n <= |file|
  {
    if |file| < BINPRM_BUF_SIZE then |file| else BINPRM_BUF_SIZE - 1
  }

  /** The first position from `i` on that is not blank. */
  function SkipBlanks(s: seq<Byte>, i: nat): (n: nat)
    requires i <= |s|
    ensures i <= n <= |s| && (forall k :: i <= k < n ==> Blank(s[k])) && (n < |s| ==> !Blank(s[n]))
    decreases |s| - i
  {
    if i < |s| && Blank(s[i]) then SkipBlanks(s, i + 1) else i
  }

  function LineEnd(s: seq<Byte>, i: nat): (n: nat)
    requires i <= |s|
    ensures i <= n <= |s| && (forall k :: i <= k < n ==> !EndOfLine(s[k])) && (n < |s| ==> EndOfLine(s[n]))
    decreases |s| - i
  {
    if i < |s| && !EndOfLine(s[i]) then LineEnd(s, i + 1) else i
  }

  /** Whether the argument starts at `i`: it follows a blank or a null byte. */
  predicate StartsArgument(line: seq<Byte>, i: nat)
    requires i < |line|
  {
    !Blank(line[i]) && i > 1 && Cut(line[i - 1]) == 0
  }

  function ArgumentStart(line: seq<Byte>, i: nat): (n: nat)
    requires i <= |line|
    ensures i <= n <= |line|
    ensures forall k :: i <= k < n ==> !StartsArgument(line, k)
    ensures n < |line| ==> StartsArgument(line, n)
    decreases |line| - i
  {
    if i < |line| && !StartsArgument(line, i) then ArgumentStart(line, i + 1) else i
  }

  function TrimRight(s: seq<Byte>): (r: seq<Byte>)
    ensures |r| <= |s|
  {
    if |s| > 1 && Blank(s[|s| - 1]) then TrimRight(s[..|s| - 1]) else s
  }

  /** The argument: trimmed when the line is complete, dropped when the file ends inside it, and
      taken as it is when the buffer ends inside it. */
  function Argument(s: seq<Byte>, complete: bool, ended: bool): Text {
    if s == [] || (!complete && ended) then [] else if complete then CString(TrimRight(s)) else CString(s)
  }

  /** What the source extracts from the beginning of a file. */
  function Extract(file: seq<Byte>): Line {
    if |file| < 2 || file[0] != HASH || file[1] != BANG then NoScript
    else
      var window := file[..Window(file)];
      var start := SkipBlanks(window, 2);
      if start == |file| then Malformed
      else
        var end := LineEnd(window, start);
        Split(window[start..end], end < |window|, |file| < BINPRM_BUF_SIZE)
  }

  /** The interpreter and the argument of a line. A file that ends inside the interpreter loses its
      last byte: the null byte is put over it. */
  function Split(line: seq<Byte>, complete: bool, ended: bool): Line {
    var at := ArgumentStart(line, 0);
    var kept := if at == |line| > 0 && !complete && ended then at - 1 else at;
    Script(CString(Blanked(line, kept)), Argument(line[at..], complete, ended))
  }

  // ---- what execve(2) promises ------------------------------------------------------------

  /** Spaces and tabs. */
  predicate AllBlank(s: seq<Byte>) {
    forall i :: 0 <= i < |s| ==> s[i] == 32 || s[i] == 9
  }

  /** An interpreter: no blank, no end of line. */
  predicate Plain(s: Text) {
    s != [] && forall i :: 0 <= i < |s| ==> !Blank(s[i]) && !EndOfLine(s[i])
  }

  /** The rest of the line as one argument, which may hold blanks. */
  predicate OneArgument(s: Text) {
    && s != [] && !Blank(s[0]) && !Blank(s[|s| - 1])
    && OneLine(s)
  }

  /** No line feed, no carriage return. */
  predicate OneLine(s: seq<Byte>) {
    forall i :: 0 <= i < |s| ==> s[i] != 10 && s[i] != 13
  }

  lemma OneLineJoin(a: seq<Byte>, b: seq<Byte>, c: seq<Byte>)
    requires OneLine(a) && OneLine(b) && OneLine(c)
    ensures OneLine(a + b + c)
  {
  }

  lemma {:induction false} CStringIs(s: seq<Byte>, text: Text, more: seq<Byte>)
    requires s == text + [0] + more || s == text
    ensures CString(s) == text
  {
    var n := CStringLength(s);
    if s == text {
      assert n == |s|;
    } else {
      assert s[|text|] == 0;
      assert forall k :: 0 <= k < |text| ==> s[k] == text[k];
      assert n == |text|;
      assert s[..n] == text;
    }
  }

  lemma {:induction false} TrimBlanks(s: seq<Byte>, blanks: seq<Byte>)
    requires s != [] && !Blank(s[|s| - 1]) && AllBlank(blanks)
    ensures TrimRight(s + blanks) == s
    decreases |blanks|
  {
    if blanks == [] {
      assert s + blanks == s;
    } else {
      var fewer := blanks[..|blanks| - 1];
      assert (s + blanks)[..|s + blanks| - 1] == s + fewer;
      TrimBlanks(s, fewer);
    }
  }

  /** The line of an interpreter alone: its name, then only blanks. */
  lemma {:induction false} InterpreterAlone(interpreter: Text, blanks: seq<Byte>, line: seq<Byte>)
    requires Plain(interpreter) && AllBlank(blanks) && line == interpreter + blanks
    ensures ArgumentStart(line, 0) == |line|
    ensures CString(Blanked(line, |line|)) == interpreter
  {
    forall k | 0 <= k < |line| ensures !StartsArgument(line, k) {
      assert k > 1 && k < |interpreter| ==> line[k - 1] == interpreter[k - 1];
    }
    BlankedName(line, |line|, interpreter);
  }

  lemma BlankedName(line: seq<Byte>, at: nat, interpreter: Text)
    requires Plain(interpreter) && |interpreter| <= at <= |line|
    requires forall k :: 0 <= k < |interpreter| ==> line[k] == interpreter[k]
    requires |interpreter| < at ==> Blank(line[|interpreter|])
    ensures CString(Blanked(line, at)) == interpreter
  {
    var b, n := Blanked(line, at), |interpreter|;
    if n == at {
      assert b == interpreter;
      CStringIs(b, interpreter, []);
    } else {
      assert b == interpreter + [0] + b[n + 1..];
      CStringIs(b, interpreter, b[n + 1..]);
    }
  }

  /** The line of an interpreter and an argument. */
  lemma {:induction false} InterpreterAndMore(interpreter: Text, gap: seq<Byte>, argument: seq<Byte>, line: seq<Byte>)
    requires Plain(interpreter) && AllBlank(gap) && gap != [] && argument != [] && !Blank(argument[0])
    requires line == interpreter + gap + argument
    ensures ArgumentStart(line, 0) == |interpreter + gap|
    ensures CString(Blanked(line, |interpreter + gap|)) == interpreter
    ensures line[|interpreter + gap|..] == argument
  {
    var at := |interpreter + gap|;
    forall k | 0 <= k < at ensures !StartsArgument(line, k) {
      if k < |interpreter| {
        assert k > 1 ==> line[k - 1] == interpreter[k - 1];
      } else {
        assert line[k] == gap[k - |interpreter|];
      }
    }
    assert line[at] == argument[0];
    assert line[at - 1] == gap[|gap| - 1];
    assert StartsArgument(line, at);
    assert line[|interpreter|] == gap[0];
    BlankedName(line, at, interpreter);
  }

  lemma LineInside(before: seq<Byte>, line: seq<Byte>, after: seq<Byte>, file: seq<Byte>)
    requires file == before + line + after
    ensures forall k :: 0 <= k < |before| ==> file[k] == before[k]
    ensures forall k :: |before| <= k < |before| + |line| ==> file[k] == line[k - |before|]
    ensures forall k :: |before| + |line| <= k < |file| ==> file[k] == after[k - |before| - |line|]
    ensures file[|before|..|before| + |line|] == line
  {
  }

  /** Cutting the first line out of a file. */
  lemma {:induction false} CutLine(file: seq<Byte>, before: seq<Byte>, line: seq<Byte>, tail: seq<Byte>)
    requires file == before + line + ([NEWLINE] + tail) && |before| + |line| + 1 < BINPRM_BUF_SIZE
    requires 2 <= |before| && forall k :: 2 <= k < |before| ==> Blank(before[k])
    requires line != [] && !Blank(line[0])
    requires OneLine(line)
    ensures var window := file[..Window(file)];
            && SkipBlanks(window, 2) == |before| < |window|
            && LineEnd(window, |before|) == |before| + |line| < |window|
            && window[|before|..|before| + |line|] == line
  {
    LineInside(before, line, [NEWLINE] + tail, file);
    assert file[|before|] == line[0];
    assert file[|before| + |line|] == NEWLINE;
    CutAt(file, |before|, |line|);
  }

  lemma CutAt(file: seq<Byte>, start: nat, n: nat)
    requires 2 <= start && 0 < n && start + n < |file| && start + n + 1 < BINPRM_BUF_SIZE
    requires forall k :: 2 <= k < start ==> Blank(file[k])
    requires !Blank(file[start]) && EndOfLine(file[start + n])
    requires forall k :: start <= k < start + n ==> !EndOfLine(file[k])
    ensures var window := file[..Window(file)];
            && SkipBlanks(window, 2) == start < |window|
            && LineEnd(window, start) == start + n < |window|
            && window[start..start + n] == file[start..start + n]
  {
    var window := file[..Window(file)];
    assert forall k :: 0 <= k < |window| ==> window[k] == file[k];
    assert !Blank(window[start]) && EndOfLine(window[start + n]);
  }

  /** "#!", the interpreter and the rest of the line as one argument, with any blanks around them. */
  lemma WithArgument(lead: seq<Byte>, interpreter: Text, gap: seq<Byte>, argument: Text, trail: seq<Byte>, tail: seq<Byte>)
    requires AllBlank(lead) && Plain(interpreter) && AllBlank(gap) && gap != []
    requires OneArgument(argument) && AllBlank(trail)
    requires 2 + |lead| + |interpreter| + |gap| + |argument| + |trail| + 1 < BINPRM_BUF_SIZE
    ensures Extract([HASH, BANG] + lead + (interpreter + gap + (argument + trail)) + [NEWLINE] + tail)
            == Script(interpreter, argument)
  {
    var rest := argument + trail;
    var line := interpreter + gap + rest;
    OneLineJoin(argument, trail, []);
    assert rest == argument + trail + [];
    OneLineJoin(interpreter, gap, rest);
    ExtractLine(lead, line, tail);
    InterpreterAndMore(interpreter, gap, rest, line);
    TrimBlanks(argument, trail);
    CStringIs(argument, argument, []);
  }

  lemma {:induction false} ExtractAt(file: seq<Byte>, start: nat, line: seq<Byte>)
    requires 2 <= |file| && file[0] == HASH && file[1] == BANG
    requires var window := file[..Window(file)];
             && SkipBlanks(window, 2) == start < |window|
             && LineEnd(window, start) == start + |line| < |window|
             && window[start..start + |line|] == line
    ensures Extract(file) == Split(line, true, |file| < BINPRM_BUF_SIZE)
  {
  }

  lemma Opening(lead: seq<Byte>, before: seq<Byte>)
    requires AllBlank(lead) && before == [HASH, BANG] + lead
    ensures before[0] == HASH && before[1] == BANG && forall k :: 2 <= k < |before| ==> Blank(before[k])
  {
    assert forall k :: 2 <= k < |before| ==> before[k] == lead[k - 2];
  }

  lemma ExtractLine(lead: seq<Byte>, line: seq<Byte>, tail: seq<Byte>)
    requires AllBlank(lead) && line != [] && !Blank(line[0]) && OneLine(line)
    requires 2 + |lead| + |line| + 1 < BINPRM_BUF_SIZE
    ensures var file := [HASH, BANG] + lead + line + [NEWLINE] + tail;
            Extract(file) == Split(line, true, |file| < BINPRM_BUF_SIZE)
  {
    var before := [HASH, BANG] + lead;
    var file := before + line + ([NEWLINE] + tail);
    assert [HASH, BANG] + lead + line + [NEWLINE] + tail == file;
    Opening(lead, before);
    LineInside(before, line, [NEWLINE] + tail, file);
    CutLine(file, before, line, tail);
    ExtractAt(file, |before|, line);
  }

  lemma WithoutArgument(lead: seq<Byte>, interpreter: Text, trail: seq<Byte>, tail: seq<Byte>)
    requires AllBlank(lead) && Plain(interpreter) && AllBlank(trail)
    requires 2 + |lead| + |interpreter| + |trail| + 1 < BINPRM_BUF_SIZE
    ensures Extract([HASH, BANG] + lead + (interpreter + trail) + [NEWLINE] + tail) == Script(interpreter, [])
  {
    var line := interpreter + trail;
    OneLineJoin(interpreter, trail, []);
    assert line == interpreter + trail + [];
    ExtractLine(lead, line, tail);
    InterpreterAlone(interpreter, trail, line);
  }

  /** A file that ends inside its first line, `line` being what follows "#!" and leading blanks. */
  lemma ExtractEnded(file: seq<Byte>, before: seq<Byte>, line: seq<Byte>)
    requires file == before + line && |file| < BINPRM_BUF_SIZE && 2 <= |before|
    requires before[0] == HASH && before[1] == BANG && forall k :: 2 <= k < |before| ==> Blank(before[k])
    requires line != [] && !Blank(line[0]) && OneLine(line)
    ensures Extract(file) == Split(line, false, true)
  {
    var window := file[..Window(file)];
    assert window == file;
    LineInside(before, line, [], file + []);
    assert file + [] == file;
    assert !Blank(file[|before|]) by {
      assert file[|before|] == line[0];
    }
    assert SkipBlanks(window, 2) == |before|;
    assert LineEnd(window, |before|) == |file| by {
      assert forall k :: |before| <= k < |file| ==> !EndOfLine(file[k]);
    }
    assert window[|before|..|file|] == line;
  }

  /** An interpreter alone, with or without blanks after it, when the line is cut short by the end of
      the file: the last byte of the line is lost, be it a blank or a part of the name. */
  lemma InterpreterCutShort(interpreter: Text, blanks: seq<Byte>, line: seq<Byte>)
    requires Plain(interpreter) && AllBlank(blanks) && line == interpreter + blanks
    ensures Split(line, false, true)
            == Script(if blanks == [] then interpreter[..|interpreter| - 1] else interpreter, [])
  {
    InterpreterAlone(interpreter, blanks, line);
    CutShort(line);
    if blanks == [] {
      var name := interpreter[..|interpreter| - 1];
      assert Blanked(line, |line| - 1) == name;
      CStringIs(name, name, []);
    } else {
      assert line[|interpreter|] == blanks[0];
      BlankedName(line, |line| - 1, interpreter);
    }
  }

  /** What a file gives that ends inside its first line: never an argument, and a whole interpreter
      only when something follows it. */
  lemma EndOfFile(lead: seq<Byte>, interpreter: Text, gap: seq<Byte>, argument: Text, trail: seq<Byte>)
    requires AllBlank(lead) && Plain(interpreter) && AllBlank(gap) && AllBlank(trail)
    requires argument != [] ==> OneArgument(argument) && gap != []
    requires 2 + |lead| + |interpreter| + |gap| + |argument| + |trail| < BINPRM_BUF_SIZE
    ensures Extract([HASH, BANG] + lead + (interpreter + gap + (argument + trail)))
            == Script(if gap + argument + trail == [] then interpreter[..|interpreter| - 1] else interpreter, [])
  {
    var before, rest := [HASH, BANG] + lead, argument + trail;
    var line := interpreter + gap + rest;
    Opening(lead, before);
    OneLineJoin(argument, trail, []);
    assert rest == argument + trail + [];
    OneLineJoin(interpreter, gap, rest);
    assert line[0] == interpreter[0];
    ExtractEnded(before + line, before, line);
    if argument == [] {
      assert line == interpreter + (gap + trail);
      InterpreterCutShort(interpreter, gap + trail, line);
    } else {
      assert rest[0] == argument[0];
      InterpreterAndMore(interpreter, gap, rest, line);
      SplitAt(line, |interpreter + gap|, false, true);
    }
  }

  /** Without an end of line, the interpreter and the argument are what execve(2) promises if and only
      if there is no argument and a blank follows the interpreter. */
  lemma EndOfFileKeepsIff(lead: seq<Byte>, interpreter: Text, gap: seq<Byte>, argument: Text, trail: seq<Byte>)
    requires AllBlank(lead) && Plain(interpreter) && AllBlank(gap) && AllBlank(trail)
    requires argument != [] ==> OneArgument(argument) && gap != []
    requires 2 + |lead| + |interpreter| + |gap| + |argument| + |trail| < BINPRM_BUF_SIZE
    ensures Extract([HASH, BANG] + lead + (interpreter + gap + (argument + trail))) == Script(interpreter, argument)
            <==> argument == [] && gap + trail != []
  {
    EndOfFile(lead, interpreter, gap, argument, trail);
    assert |interpreter[..|interpreter| - 1]| < |interpreter|;
  }

  /** What is read is 255 bytes. A line that goes on is cut there without a word: the name of the
      interpreter, or the argument, as it is. */
  lemma CutByBuffer(lead: seq<Byte>, interpreter: Text, gap: seq<Byte>, argument: Text, tail: seq<Byte>)
    requires AllBlank(lead) && Plain(interpreter) && AllBlank(gap) && tail != []
    requires argument != [] ==> gap != [] && !Blank(argument[0]) && OneLine(argument)
    requires 2 + |lead| + |interpreter| + |gap| + |argument| == 255
    ensures Extract([HASH, BANG] + lead + (interpreter + gap + argument) + tail) == Script(interpreter, argument)
  {
    var before, line := [HASH, BANG] + lead, interpreter + gap + argument;
    var file := before + line + tail;
    Opening(lead, before);
    OneLineJoin(interpreter, gap, argument);
    assert line[0] == interpreter[0];
    ExtractCut(file, before, line, tail);
    if argument == [] {
      assert line == interpreter + gap;
      InterpreterAlone(interpreter, gap, line);
      NoArgument(line, false, false);
    } else {
      InterpreterAndMore(interpreter, gap, argument, line);
      SplitAt(line, |interpreter + gap|, false, false);
      CStringIs(argument, argument, []);
    }
  }

  /** The same, whatever the line. */
  lemma ExtractCut(file: seq<Byte>, before: seq<Byte>, line: seq<Byte>, tail: seq<Byte>)
    requires file == before + line + tail && tail != [] && |before| + |line| == 255 && 2 <= |before|
    requires before[0] == HASH && before[1] == BANG && forall k :: 2 <= k < |before| ==> Blank(before[k])
    requires line != [] && !Blank(line[0]) && OneLine(line)
    ensures Extract(file) == Split(line, false, false)
  {
    var window := file[..Window(file)];
    LineInside(before, line, tail, file);
    assert file[|before|] == line[0];
    assert SkipBlanks(window, 2) == |before|;
    assert LineEnd(window, |before|) == 255 by {
      assert forall k :: |before| <= k < 255 ==> !EndOfLine(file[k]);
    }
    assert window[|before|..255] == line;
  }

  /** A file is a script when it starts with "#!", and a malformed one when nothing but blanks, and not
      even the end of a line, follows in a file that is shorter than what would be read. */
  lemma ScriptIff(file: seq<Byte>)
    ensures Extract(file).NoScript? <==> |file| < 2 || file[..2] != [35, 33]
    ensures Extract(file).Malformed? <==> 2 <= |file| <= 255 && file[..2] == [35, 33] && AllBlank(file[2..])
  {
    if 2 <= |file| {
      assert file[..2] == [file[0], file[1]];
      var window := file[..Window(file)];
      var start := SkipBlanks(window, 2);
      if start == |file| {
        assert forall i :: 0 <= i < |file[2..]| ==> file[2..][i] == window[i + 2];
      } else if start < |window| {
        assert file[2..][start - 2] == window[start];
      }
    }
  }

  // ---- reading it character by character --------------------------------------------------

  /** One byte of a file through a descriptor; the lemmas need no position of their own. */
  class Reader {
    const file: seq<Byte>
    var position: nat

    constructor (f: seq<Byte>)
      ensures file == f && position == 0
    {
      file, position := f, 0;
    }

    method Read() returns (tmp: Byte, eof: bool)
      requires position <= |file|
      modifies this
      ensures eof <==> old(position) == |file|
      ensures !eof ==> position == old(position) + 1 && tmp == file[old(position)]
      ensures eof ==> position == old(position)
    {
      if position == |file| {
        return 0, true;
      }
      tmp, eof := file[position], false;
      position := position + 1;
    }
  }

  method ExtractShebang(fd: Reader) returns (result: Line)
    requires fd.position == 0
    modifies fd
    ensures result == Extract(fd.file)
  {
    ghost var file := fd.file;
    ghost var window := file[..Window(file)];
    var first, second, eof;
    first, eof := fd.Read();
    if eof {
      return NoScript;
    }
    second, eof := fd.Read();
    if eof {
      return NoScript;
    }
    if first != HASH || second != BANG {
      return NoScript;
    }
    var currentLength := 2;
    var tmp := SPACE;
    while Blank(tmp) && currentLength < BINPRM_BUF_SIZE
      invariant 2 <= currentLength <= BINPRM_BUF_SIZE
      invariant fd.position == currentLength <= |file|
      invariant currentLength > 2 ==> tmp == file[currentLength - 1]
      invariant currentLength == 2 ==> Blank(tmp)
      invariant forall k :: 2 <= k < currentLength - 1 ==> Blank(file[k])
      decreases BINPRM_BUF_SIZE - currentLength
    {
      tmp, eof := fd.Read();
      if eof {
        return Malformed;
      }
      currentLength := currentLength + 1;
    }
    var start := currentLength - 1;
    BlanksSkipped(file, start);
    ghost var end := LineEnd(window, start);
    LineFound(file, start);
    result := SlurpInterpreter(fd, tmp, start, window[start..end], end < |window|);
  }

  lemma {:induction false} LineFound(file: seq<Byte>, start: nat)
    requires start <= Window(file)
    ensures var window := file[..Window(file)];
            var end := LineEnd(window, start);
            LineOf(file, start, window[start..end], end < |window|)
  {
    var window := file[..Window(file)];
    assert forall k :: 0 <= k < |window| ==> window[k] == file[k];
  }

  lemma BlanksSkipped(file: seq<Byte>, start: nat)
    requires 2 <= start <= Window(file)
    requires forall k :: 2 <= k < start ==> Blank(file[k])
    requires start < Window(file) ==> !Blank(file[start])
    ensures SkipBlanks(file[..Window(file)], 2) == start
  {
    var window := file[..Window(file)];
    assert forall k :: 0 <= k < |window| ==> window[k] == file[k];
    assert start < |window| ==> !Blank(window[start]);
  }

  /** The line at `start`: up to an end of line, or else up to the end of what is looked at. */
  ghost predicate LineOf(file: seq<Byte>, start: nat, line: seq<Byte>, complete: bool) {
    && start + |line| <= Window(file)
    && (forall k :: 0 <= k < |line| ==> line[k] == file[start + k])
    && (forall k :: start <= k < start + |line| ==> !EndOfLine(file[k]))
    && (complete <==> start + |line| < Window(file))
    && (complete ==> EndOfLine(file[start + |line|]))
  }

  /** A byte of the line, or the one that ends it. */
  lemma LineByte(file: seq<Byte>, start: nat, line: seq<Byte>, complete: bool, i: nat)
    requires LineOf(file, start, line, complete) && i <= |line| && start + i < Window(file)
    ensures EndOfLine(file[start + i]) <==> i == |line|
    ensures i == |line| ==> complete
    ensures i < |line| ==> line[i] == file[start + i]
  {
  }

  lemma LineStops(file: seq<Byte>, start: nat, line: seq<Byte>, complete: bool, n: nat)
    requires LineOf(file, start, line, complete) && n <= |line| && start + n == Window(file)
    ensures n == |line| && !complete
  {
  }

  lemma LineRest(file: seq<Byte>, start: nat, line: seq<Byte>, complete: bool, i: nat)
    requires LineOf(file, start, line, complete) && i <= |line|
    ensures LineOf(file, start + i, line[i..], complete)
  {
  }

  /** Whether the argument starts at a byte, as told by what was put down before it. */
  lemma ArgumentHere(line: seq<Byte>, i: nat, complete: bool, ended: bool)
    requires i < |line| && ArgumentStart(line, 0) == ArgumentStart(line, i)
    ensures if !Blank(line[i]) && i > 1 && Blanked(line, i)[i - 1] == 0
            then Split(line, complete, ended) == Script(CString(Blanked(line, i)), Argument(line[i..], complete, ended))
            else ArgumentStart(line, 0) == ArgumentStart(line, i + 1)
  {
    if StartsArgument(line, i) {
      SplitAt(line, i, complete, ended);
    }
  }

  lemma {:induction false} SplitAt(line: seq<Byte>, at: nat, complete: bool, ended: bool)
    requires at < |line| && ArgumentStart(line, 0) == at
    ensures Split(line, complete, ended) == Script(CString(Blanked(line, at)), Argument(line[at..], complete, ended))
  {
  }

  lemma {:induction false} NoArgument(line: seq<Byte>, complete: bool, ended: bool)
    requires ArgumentStart(line, 0) == |line| && (complete || !ended)
    ensures Split(line, complete, ended) == Script(CString(Blanked(line, |line|)), [])
  {
  }

  lemma BlankedNext(line: seq<Byte>, i: nat)
    requires i < |line|
    ensures Blanked(line, i) + [Cut(line[i])] == Blanked(line, i + 1) && Blanked(line, i + 1)[..i] == Blanked(line, i)
  {
  }

  lemma {:induction false} CutShort(line: seq<Byte>)
    requires ArgumentStart(line, 0) == |line| > 0
    ensures Split(line, false, true) == Script(CString(Blanked(line, |line| - 1)), [])
  {
  }

  /** The line from its first byte that is not blank on, which `tmp` holds. */
  method SlurpInterpreter(fd: Reader, first: Byte, start: nat, ghost line: seq<Byte>, ghost complete: bool)
      returns (result: Line)
    requires start < |fd.file| && fd.position == start + 1 <= BINPRM_BUF_SIZE && first == fd.file[start]
    requires LineOf(fd.file, start, line, complete)
    modifies fd
    ensures result == Split(line, complete, |fd.file| < BINPRM_BUF_SIZE)
  {
    ghost var ended := |fd.file| < BINPRM_BUF_SIZE;
    var tmp, currentLength, eof := first, start + 1, false;
    var userPath: seq<Byte> := [];
    while currentLength < BINPRM_BUF_SIZE
      invariant fd.position == currentLength == start + |userPath| + 1 <= |fd.file| && currentLength <= BINPRM_BUF_SIZE
      invariant |userPath| <= |line| && userPath == Blanked(line, |userPath|)
      invariant tmp == fd.file[start + |userPath|]
      invariant ArgumentStart(line, 0) == ArgumentStart(line, |userPath|)
      decreases BINPRM_BUF_SIZE - currentLength
    {
      var i := |userPath|;
      LineByte(fd.file, start, line, complete, i);
      if EndOfLine(tmp) {
        NoArgument(line, complete, ended);
        return Script(CString(userPath), []);
      }
      ArgumentHere(line, i, complete, ended);
      if !Blank(tmp) && i > 1 && userPath[i - 1] == 0 {
        LineRest(fd.file, start, line, complete, i);
        var argument := SlurpArgument(fd, tmp, start + i, line[i..], complete);
        return Script(CString(userPath), argument);
      }
      BlankedNext(line, i);
      userPath := userPath + [Cut(tmp)];
      tmp, eof := fd.Read();
      if eof {
        // The null byte goes where the last byte was put.
        LineStops(fd.file, start, line, complete, i + 1);
        CutShort(line);
        return Script(CString(userPath[..i]), []);
      }
      currentLength := currentLength + 1;
    }
    LineStops(fd.file, start, line, complete, |userPath|);
    NoArgument(line, complete, ended);
    result := Script(CString(userPath), []);
  }

  /** The argument, from its first byte on. */
  method SlurpArgument(fd: Reader, first: Byte, start: nat, ghost rest: seq<Byte>, ghost complete: bool)
      returns (argument: Text)
    requires start < |fd.file| && fd.position == start + 1 <= BINPRM_BUF_SIZE && first == fd.file[start]
    requires rest != [] && LineOf(fd.file, start, rest, complete)
    modifies fd
    ensures argument == Argument(rest, complete, |fd.file| < BINPRM_BUF_SIZE)
  {
    var tmp, currentLength, eof := first, start + 1, false;
    var buffer: seq<Byte> := [];
    while currentLength < BINPRM_BUF_SIZE
      invariant fd.position == currentLength == start + |buffer| + 1 <= |fd.file| && currentLength <= BINPRM_BUF_SIZE
      invariant |buffer| <= |rest| && buffer == rest[..|buffer|]
      invariant tmp == fd.file[start + |buffer|]
      decreases BINPRM_BUF_SIZE - currentLength
    {
      if EndOfLine(tmp) {
        assert buffer == rest;
        argument := TrimmedString(buffer);
        return;
      }
      assert rest[..|buffer| + 1] == rest[..|buffer|] + [tmp];
      buffer := buffer + [tmp];
      tmp, eof := fd.Read();
      if eof {
        return [];
      }
      currentLength := currentLength + 1;
    }
    assert buffer == rest;
    argument := CString(buffer);
  }

  /** Blanks at the end of the argument go. */
  method TrimmedString(buffer: seq<Byte>) returns (argument: Text)
    requires buffer != []
    ensures argument == CString(TrimRight(buffer))
  {
    var i := |buffer| - 1;
    assert buffer[..i + 1] == buffer;
    while i > 0 && Blank(buffer[i])
      invariant 0 <= i < |buffer|
      invariant TrimRight(buffer) == TrimRight(buffer[..i + 1])
    {
      assert buffer[..i + 1][..i] == buffer[..i];
      i := i - 1;
    }
    argument := CString(buffer[..i + 1]);
  }
}
