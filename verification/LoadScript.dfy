/** The load script: statements packed into words (src/loader/script.h), then transferred below
    the stack pointer together with the strings they point to (src/execve/exit.c). */
module LoadScript {
  import opened Common
  import opened LoadInfo

  datatype Statement =
    | OpenNext(stringAddress: Word)
    | Open(stringAddress: Word)
    | MmapFile(addr: Word, length: Word, prot: Word, offset: Word, clearLength: Word)
    | MmapAnon(addr: Word, length: Word, prot: Word, offset: Word, clearLength: Word)
    | MakeStackExec(start: Word)
    | Start(traced: bool, info: StartInfo)

  datatype StartInfo = StartInfo(stackPointer: Word, entryPoint: Word, atPhdr: Word, atPhent: Word,
                                 atPhnum: Word, atEntry: Word, atExecfn: Word)

  const LOAD_ACTION_OPEN_NEXT: Word := 0
  const LOAD_ACTION_OPEN: Word := 1
  const LOAD_ACTION_MMAP_FILE: Word := 2
  const LOAD_ACTION_MMAP_ANON: Word := 3
  const LOAD_ACTION_MAKE_STACK_EXEC: Word := 4
  const LOAD_ACTION_START_TRACED: Word := 5
  const LOAD_ACTION_START: Word := 6

  function Pack(s: Statement): (ws: seq<Word>)
    ensures |ws| == Size(s)
  {
    match s
    case OpenNext(a) => [LOAD_ACTION_OPEN_NEXT, a]
    case Open(a) => [LOAD_ACTION_OPEN, a]
    case MmapFile(a, l, p, o, c) => [LOAD_ACTION_MMAP_FILE, a, l, p, o, c]
    case MmapAnon(a, l, p, o, c) => [LOAD_ACTION_MMAP_ANON, a, l, p, o, c]
    case MakeStackExec(a) => [LOAD_ACTION_MAKE_STACK_EXEC, a]
    case Start(traced, i) =>
      [if traced then LOAD_ACTION_START_TRACED else LOAD_ACTION_START,
       i.stackPointer, i.entryPoint, i.atPhdr, i.atPhent, i.atPhnum, i.atEntry, i.atExecfn]
  }

  /** LOAD_STATEMENT_SIZE, in words. */
  function Size(s: Statement): nat {
    match s
    case OpenNext(_) => 2
    case Open(_) => 2
    case MmapFile(_, _, _, _, _) => 6
    case MmapAnon(_, _, _, _, _) => 6
    case MakeStackExec(_) => 2
    case Start(_, _) => 8
  }

  function PackAll(ss: seq<Statement>): seq<Word> {
    if ss == [] then [] else PackAll(ss[..|ss| - 1]) + Pack(ss[|ss| - 1])
  }

  /** The statement at the head of a packed script. */
  function Unpack(ws: seq<Word>): Option<Statement> {
    if |ws| < 2 then None
    else if ws[0] == LOAD_ACTION_OPEN_NEXT then Some(OpenNext(ws[1]))
    else if ws[0] == LOAD_ACTION_OPEN then Some(Open(ws[1]))
    else if ws[0] == LOAD_ACTION_MAKE_STACK_EXEC then Some(MakeStackExec(ws[1]))
    else if |ws| < 6 then None
    else if ws[0] == LOAD_ACTION_MMAP_FILE then Some(MmapFile(ws[1], ws[2], ws[3], ws[4], ws[5]))
    else if ws[0] == LOAD_ACTION_MMAP_ANON then Some(MmapAnon(ws[1], ws[2], ws[3], ws[4], ws[5]))
    else if |ws| < 8 then None
    else if ws[0] == LOAD_ACTION_START || ws[0] == LOAD_ACTION_START_TRACED then
      Some(Start(ws[0] == LOAD_ACTION_START_TRACED, StartInfo(ws[1], ws[2], ws[3], ws[4], ws[5], ws[6], ws[7])))
    else None
  }

  /** Whatever follows it in memory, a packed statement reads back as itself. */
  lemma UnpackPack(s: Statement, rest: seq<Word>)
    ensures Unpack(Pack(s) + rest) == Some(s)
  {
  }

  lemma {:induction false} PackAppend(a: seq<Statement>, b: seq<Statement>)
    ensures PackAll(a + b) == PackAll(a) + PackAll(b)
    decreases |b|
  {
    if b == [] {
      assert a + b == a && PackAll(a) + [] == PackAll(a);
    } else {
      var front, last := b[..|b| - 1], b[|b| - 1];
      PackAppend(a, front);
      assert (a + b)[..|a + b| - 1] == a + front;
      Assoc(PackAll(a), PackAll(front), Pack(last));
    }
  }

  lemma Assoc<T>(a: seq<T>, b: seq<T>, c: seq<T>)
    ensures (a + b) + c == a + (b + c)
  {
  }

  lemma PackOne(s: Statement)
    ensures PackAll([s]) == Pack(s)
  {
    assert [s][..0] == [];
    assert [] + Pack(s) == Pack(s);
  }

  lemma {:induction false} PackSplit(a: seq<Statement>, s: Statement, b: seq<Statement>)
    ensures PackAll(a + [s] + b) == PackAll(a) + (Pack(s) + PackAll(b))
    ensures PackAll(a + [s]) == PackAll(a) + Pack(s)
  {
    PackAppend(a, [s]);
    PackOne(s);
    PackAppend(a + [s], b);
    Assoc(PackAll(a), Pack(s), PackAll(b));
  }

  /** Statement `k` of a packed script starts after the packed size of those before it. */
  lemma {:induction false} PackAllAt(ss: seq<Statement>, k: nat)
    requires k < |ss|
    ensures PackAll(ss) == PackAll(ss[..k]) + (Pack(ss[k]) + PackAll(ss[k + 1..]))
    ensures PackAll(ss[..k + 1]) == PackAll(ss[..k]) + Pack(ss[k])
  {
    SplitAt(ss, k);
    PackSplit(ss[..k], ss[k], ss[k + 1..]);
  }

  lemma SplitAt<T>(s: seq<T>, k: nat)
    requires k < |s|
    ensures s == s[..k] + [s[k]] + s[k + 1..]
    ensures s[..k + 1] == s[..k] + [s[k]]
  {
  }

  // ----- Writing the script -----

  function MappingStatement(m: Mapping): Statement {
    if m.anonymous then MmapAnon(m.addr, m.length, m.prot, m.offset, m.clearLength)
    else MmapFile(m.addr, m.length, m.prot, m.offset, m.clearLength)
  }

  function MappingStatements(ms: seq<Mapping>): (ss: seq<Statement>)
    ensures |ss| == |ms|
  {
    seq(|ms|, i requires 0 <= i < |ms| => MappingStatement(ms[i]))
  }

  /** An ELF object to load: its mappings, its entry point, and the path given to open(2),
      without its terminator. */
  datatype Object = Object(mappings: seq<Mapping>, entry: Word, path: seq<Byte>)

  datatype Program = Program(exe: Object, interp: Option<Object>, rawPath: Option<seq<Byte>>, stackExec: bool,
                             traced: bool, phdrOffset: Word, phent: Word, phnum: Word)

  /** Where the strings are put and where the script starts, from the top of the stack. */
  datatype Layout = Layout(string1: Word, string2: Word, string3: Word, bottom: Word)

  function StringSize(s: Option<seq<Byte>>): nat {
    match s case None => 0 case Some(bytes) => |bytes| + 1
  }

  function InterpPath(p: Program): Option<seq<Byte>> {
    match p.interp case None => None case Some(o) => Some(o.path)
  }

  function ScriptOf(p: Program, sp: Word, l: Layout): seq<Statement>
    requires p.exe.mappings != []
  {
    [Open(l.string1)] + MappingStatements(p.exe.mappings)
    + InterpStatements(p, l) + StackStatements(p, sp) + [StartOf(p, sp, l)]
  }

  function StartOf(p: Program, sp: Word, l: Layout): Statement
    requires p.exe.mappings != []
  {
    Start(p.traced, StartInfo(sp, if p.interp.Some? then p.interp.value.entry else p.exe.entry,
                              Wrap(p.phdrOffset + p.exe.mappings[0].addr), p.phent, p.phnum, p.exe.entry, l.string3))
  }

  /** Size of the script as computed before it is written, in words. */
  function ScriptWords(p: Program): nat {
    2 + 6 * |p.exe.mappings| + (match p.interp case None => 0 case Some(o) => 2 + 6 * |o.mappings|)
    + (if p.stackExec then 2 else 0) + 8
  }

  lemma {:induction false} PackedMappings(ms: seq<Mapping>)
    ensures |PackAll(MappingStatements(ms))| == 6 * |ms|
  {
    if ms != [] {
      var front, m := ms[..|ms| - 1], ms[|ms| - 1];
      PackedMappings(front);
      assert MappingStatements(ms)[..|ms| - 1] == MappingStatements(front);
    }
  }

  /** The size computed beforehand is the size written. */
  lemma ScriptSize(p: Program, sp: Word, l: Layout)
    requires p.exe.mappings != []
    ensures |PackAll(ScriptOf(p, sp, l))| == ScriptWords(p)
  {
    PackScript(p, sp, l);
    PackedMappings(p.exe.mappings);
    InterpSize(p, l);
    StackSize(p, sp);
  }

  lemma InterpSize(p: Program, l: Layout)
    ensures |PackAll(InterpStatements(p, l))| == match p.interp case None => 0 case Some(o) => 2 + 6 * |o.mappings|
  {
    if p.interp.Some? {
      PackInterp(p, l);
      PackedMappings(p.interp.value.mappings);
    }
  }

  lemma StackSize(p: Program, sp: Word)
    ensures |PackAll(StackStatements(p, sp))| == if p.stackExec then 2 else 0
  {
    if p.stackExec {
      PackOne(MakeStackExec(PageDown(sp)));
    }
  }

  function InterpStatements(p: Program, l: Layout): seq<Statement> {
    match p.interp case None => [] case Some(o) => [OpenNext(l.string2)] + MappingStatements(o.mappings)
  }

  function StackStatements(p: Program, sp: Word): seq<Statement> {
    if p.stackExec then [MakeStackExec(PageDown(sp))] else []
  }

  /** The script, packed piece by piece in the order it is written. */
  lemma PackScript(p: Program, sp: Word, l: Layout)
    requires p.exe.mappings != []
    ensures PackAll(ScriptOf(p, sp, l)) ==
            Pack(Open(l.string1)) + PackAll(MappingStatements(p.exe.mappings))
            + PackAll(InterpStatements(p, l)) + PackAll(StackStatements(p, sp)) + Pack(StartOf(p, sp, l))
  {
    var a := [Open(l.string1)];
    var b := MappingStatements(p.exe.mappings);
    var c := InterpStatements(p, l);
    var d := StackStatements(p, sp);
    var e := [StartOf(p, sp, l)];
    PackAppend(a, b);
    PackAppend(a + b, c);
    PackAppend(a + b + c, d);
    PackAppend(a + b + c + d, e);
    PackOne(Open(l.string1));
    PackOne(StartOf(p, sp, l));
  }

  lemma PackInterp(p: Program, l: Layout)
    requires p.interp.Some?
    ensures PackAll(InterpStatements(p, l)) == Pack(OpenNext(l.string2)) + PackAll(MappingStatements(p.interp.value.mappings))
  {
    PackAppend([OpenNext(l.string2)], MappingStatements(p.interp.value.mappings));
    PackOne(OpenNext(l.string2));
  }

  // ----- The strings area -----

  /** What the stack pointer has to be aligned to: a word of the tracee, or 16 bytes on AArch64. */
  predicate ValidAlignment(align: nat) {
    align == 4 || align == 8 || align == 16
  }

  function StringsSize(p: Program): nat {
    |p.exe.path| + 1 + StringSize(InterpPath(p)) + StringSize(p.rawPath)
  }

  function Misalignment(x: int, align: nat): nat
    requires ValidAlignment(align)
  {
    if align == 4 then x % 4 else if align == 8 then x % 8 else x % 16
  }

  function Padding(p: Program, sp: Word, align: nat): nat
    requires ValidAlignment(align)
  {
    Misalignment(sp - StringsSize(p), align)
  }

  /** The stack has room for the strings, their padding and the script. */
  predicate Fits(p: Program, sp: Word, align: nat)
    requires ValidAlignment(align)
  {
    StringsSize(p) + Padding(p, sp, align) + 8 * ScriptWords(p) <= sp
  }

  function LayoutOf(p: Program, sp: Word, align: nat): Layout
    requires ValidAlignment(align) && Fits(p, sp, align)
  {
    var string1 := sp - StringsSize(p) - Padding(p, sp, align);
    Layout(string1,
           string1 + |p.exe.path| + 1,
           if p.rawPath.None? then string1 else string1 + |p.exe.path| + 1 + StringSize(InterpPath(p)),
           string1 - 8 * ScriptWords(p))
  }

  function WithNul(s: Option<seq<Byte>>): seq<Byte> {
    match s case None => [] case Some(bytes) => bytes + [0]
  }

  /** The bytes put right above the script. */
  function StringsArea(p: Program, sp: Word, align: nat): (area: seq<Byte>)
    requires ValidAlignment(align)
    ensures |area| == StringsSize(p) + Padding(p, sp, align)
  {
    p.exe.path + [0] + WithNul(InterpPath(p)) + WithNul(p.rawPath) + seq(Padding(p, sp, align), _ => 0)
  }

  /** `s` and its terminator lie at `address` in an area that starts at `start`. */
  predicate StringAt(area: seq<Byte>, start: int, address: int, s: seq<Byte>) {
    && 0 <= address - start <= |area| - |s| - 1
    && area[address - start..address - start + |s| + 1] == s + [0]
  }

  /** Every string address of the script points at its string, and the area ends at the old stack
      pointer. */
  lemma StringsInPlace(p: Program, sp: Word, align: nat)
    requires ValidAlignment(align) && Fits(p, sp, align)
    ensures var l, area := LayoutOf(p, sp, align), StringsArea(p, sp, align);
            && l.string1 + |area| == sp
            && StringAt(area, l.string1, l.string1, p.exe.path)
            && (p.interp.Some? ==> StringAt(area, l.string1, l.string2, p.interp.value.path))
            && StringAt(area, l.string1, l.string3, if p.rawPath.Some? then p.rawPath.value else p.exe.path)
  {
    var a, b, c := p.exe.path + [0], WithNul(InterpPath(p)), WithNul(p.rawPath);
    var d: seq<Byte> := seq(Padding(p, sp, align), _ => 0);
    var area := StringsArea(p, sp, align);
    SlicesOf(a, b, c, d);
  }

  lemma SlicesOf(a: seq<Byte>, b: seq<Byte>, c: seq<Byte>, d: seq<Byte>)
    ensures (a + b + c + d)[0..|a|] == a
    ensures (a + b + c + d)[|a|..|a| + |b|] == b
    ensures (a + b + c + d)[|a| + |b|..|a| + |b| + |c|] == c
  {
  }

  /** The final stack pointer is aligned whatever the lengths of the strings, and even when the
      initial stack pointer is not. */
  lemma BottomAligned(p: Program, sp: Word, align: nat)
    requires ValidAlignment(align) && Fits(p, sp, align)
    ensures Misalignment(LayoutOf(p, sp, align).bottom, align) == 0
  {
    RoundDown(sp - StringsSize(p), ScriptWords(p) / 2, align);
  }

  lemma RoundDown(x: int, j: int, align: nat)
    requires ValidAlignment(align)
    ensures Misalignment(x - Misalignment(x, align) - 16 * j, align) == 0
  {
    RoundDown4(x, j);
    RoundDown8(x, j);
    RoundDown16(x, j);
  }

  lemma RoundDown4(x: int, j: int)
    ensures (x - x % 4 - 16 * j) % 4 == 0
  {
    assert x - x % 4 - 16 * j == 4 * (x / 4 - 4 * j);
  }

  lemma RoundDown8(x: int, j: int)
    ensures (x - x % 8 - 16 * j) % 8 == 0
  {
    assert x - x % 8 - 16 * j == 8 * (x / 8 - 2 * j);
  }

  lemma RoundDown16(x: int, j: int)
    ensures (x - x % 16 - 16 * j) % 16 == 0
  {
    assert x - x % 16 - 16 * j == 16 * (x / 16 - 1 * j);
  }

  // ----- The buffer -----

  /** Half a word, as the buffer is also seen as an array of uint32_t. */
  type Half = h: int | 0 <= h < 0x1_0000_0000

  function FromHalves(low: int, high: int): int {
    low + 0x1_0000_0000 * high
  }

  /** Little endian words of a buffer of halves. */
  function Words(h: seq<Half>): (ws: seq<Word>)
    ensures |ws| == |h| / 2
    ensures forall i :: 0 <= i < |ws| ==> ws[i] == FromHalves(h[2 * i], h[2 * i + 1])
  {
    seq(|h| / 2, i requires 0 <= i < |h| / 2 => FromHalves(h[2 * i], h[2 * i + 1]))
  }

  method PutWord(buffer: array<Half>, cursor: nat, w: Word)
    requires 2 * cursor + 1 < buffer.Length
    modifies buffer
    ensures Words(buffer[..]) == old(Words(buffer[..]))[cursor := w]
  {
    buffer[2 * cursor] := w % 0x1_0000_0000;
    buffer[2 * cursor + 1] := w / 0x1_0000_0000;
    assert forall i :: 0 <= i < buffer.Length / 2 && i != cursor ==>
        buffer[2 * i] == old(buffer[2 * i]) && buffer[2 * i + 1] == old(buffer[2 * i + 1]);
  }

  /** The words written so far. */
  ghost predicate Holds(buffer: array<Half>, cursor: nat, done: seq<Word>)
    reads buffer
  {
    cursor <= buffer.Length / 2 && Words(buffer[..])[..cursor] == done
  }

  /** Write one statement at the cursor, and move the cursor. */
  method PutStatement(buffer: array<Half>, cursor: nat, s: Statement, ghost done: seq<Word>) returns (cursor': nat)
    requires cursor + Size(s) <= buffer.Length / 2 && Holds(buffer, cursor, done)
    modifies buffer
    ensures cursor' == cursor + Size(s) && Holds(buffer, cursor', done + Pack(s))
  {
    var ws := Pack(s);
    assert done + ws[..0] == done;
    for i := 0 to |ws|
      invariant Holds(buffer, cursor + i, done + ws[..i])
    {
      ghost var before := Words(buffer[..]);
      PutWord(buffer, cursor + i, ws[i]);
      assert Words(buffer[..])[..cursor + i + 1] == before[..cursor + i] + [ws[i]];
      assert ws[..i + 1] == ws[..i] + [ws[i]];
      Assoc(done, ws[..i], [ws[i]]);
    }
    assert ws[..|ws|] == ws;
    cursor' := cursor + |ws|;
  }

  method TranscriptMappings(buffer: array<Half>, cursor: nat, ms: seq<Mapping>, ghost done: seq<Word>) returns (cursor': nat)
    requires cursor + 6 * |ms| <= buffer.Length / 2 && Holds(buffer, cursor, done)
    modifies buffer
    ensures cursor' == cursor + 6 * |ms| && Holds(buffer, cursor', done + PackAll(MappingStatements(ms)))
  {
    cursor' := cursor;
    ghost var ss := MappingStatements(ms);
    assert done + PackAll([]) == done;
    for i := 0 to |ms|
      invariant cursor' == cursor + 6 * i && Holds(buffer, cursor', done + PackAll(ss[..i]))
    {
      assert ss[..i + 1][..i] == ss[..i];
      Assoc(done, PackAll(ss[..i]), Pack(ss[i]));
      cursor' := PutStatement(buffer, cursor', MappingStatement(ms[i]), done + PackAll(ss[..i]));
    }
    assert ss[..|ms|] == ss;
  }

  method PutInterp(buffer: array<Half>, cursor: nat, p: Program, l: Layout, ghost done: seq<Word>) returns (cursor': nat)
    requires p.interp.Some? ==> cursor + 2 + 6 * |p.interp.value.mappings| <= buffer.Length / 2
    requires Holds(buffer, cursor, done)
    modifies buffer
    ensures cursor' == cursor + (if p.interp.Some? then 2 + 6 * |p.interp.value.mappings| else 0)
    ensures Holds(buffer, cursor', done + PackAll(InterpStatements(p, l)))
  {
    cursor' := cursor;
    if p.interp.Some? {
      var o := p.interp.value;
      PackInterp(p, l);
      Assoc(done, Pack(OpenNext(l.string2)), PackAll(MappingStatements(o.mappings)));
      cursor' := PutStatement(buffer, cursor', OpenNext(l.string2), done);
      cursor' := TranscriptMappings(buffer, cursor', o.mappings, done + Pack(OpenNext(l.string2)));
    } else {
      assert done + [] == done;
    }
  }

  method PutStackExec(buffer: array<Half>, cursor: nat, p: Program, sp: Word, ghost done: seq<Word>) returns (cursor': nat)
    requires cursor + (if p.stackExec then 2 else 0) <= buffer.Length / 2
    requires Holds(buffer, cursor, done)
    modifies buffer
    ensures cursor' == cursor + (if p.stackExec then 2 else 0)
    ensures Holds(buffer, cursor', done + PackAll(StackStatements(p, sp)))
  {
    cursor' := cursor;
    if p.stackExec {
      PackOne(MakeStackExec(PageDown(sp)));
      cursor' := PutStatement(buffer, cursor', MakeStackExec(PageDown(sp)), done);
    } else {
      assert done + [] == done;
    }
  }

  /** The part of the script that maps the objects. */
  method PutObjects(buffer: array<Half>, p: Program, l: Layout) returns (cursor: nat)
    requires buffer.Length == 2 * ScriptWords(p)
    modifies buffer
    ensures cursor + (if p.stackExec then 2 else 0) + 8 == ScriptWords(p)
    ensures Holds(buffer, cursor, Pack(Open(l.string1)) + PackAll(MappingStatements(p.exe.mappings))
                                  + PackAll(InterpStatements(p, l)))
  {
    ghost var done: seq<Word> := [];
    cursor := PutStatement(buffer, 0, Open(l.string1), done);
    assert done + Pack(Open(l.string1)) == Pack(Open(l.string1));
    done := Pack(Open(l.string1));
    cursor := TranscriptMappings(buffer, cursor, p.exe.mappings, done);
    done := done + PackAll(MappingStatements(p.exe.mappings));
    cursor := PutInterp(buffer, cursor, p, l, done);
  }

  /** Write the whole script; the cursor ends where the size computed beforehand says. */
  method WriteScript(p: Program, sp: Word, l: Layout) returns (buffer: array<Half>)
    requires p.exe.mappings != []
    ensures fresh(buffer) && buffer.Length == 2 * ScriptWords(p)
    ensures Holds(buffer, ScriptWords(p), PackAll(ScriptOf(p, sp, l)))
  {
    buffer := new Half[2 * ScriptWords(p)](_ => 0);
    var cursor := PutObjects(buffer, p, l);
    ghost var done := Pack(Open(l.string1)) + PackAll(MappingStatements(p.exe.mappings)) + PackAll(InterpStatements(p, l));
    cursor := PutStackExec(buffer, cursor, p, sp, done);
    done := done + PackAll(StackStatements(p, sp));
    cursor := PutStatement(buffer, cursor, StartOf(p, sp, l), done);
    PackScript(p, sp, l);
  }

  /** Convert a script of `n` words to 32-bit words, in place: word i is read from halves 2i and
      2i + 1 and written to half i, which was already read. */
  method Narrow(buffer: array<Half>, n: nat)
    requires 2 * n <= buffer.Length
    modifies buffer
    ensures forall i :: 0 <= i < n ==> buffer[i] == old(buffer[2 * i])
    ensures forall i :: n <= i < buffer.Length ==> buffer[i] == old(buffer[i])
  {
    ghost var before := buffer[..];
    var i := 0;
    while i < n
      invariant 0 <= i <= n
      invariant forall k :: 0 <= k < i ==> buffer[k] == before[2 * k]
      invariant forall k :: i <= k < buffer.Length ==> buffer[k] == before[k]
    {
      var low, high := buffer[2 * i], buffer[2 * i + 1];
      buffer[i] := Truncate(low, high);
      i := i + 1;
    }
  }

  /** A 64-bit word stored to a 32-bit location. */
  function Truncate(low: Half, high: Half): (h: Half)
    ensures h == low
  {
    FromHalves(low, high) % 0x1_0000_0000
  }

  /** What the 32-bit loader reads from a narrowed script: the words of the script if and only if
      they all fit 32 bits. */
  lemma NarrowedScript(before: seq<Half>, after: seq<Half>, n: nat)
    requires 2 * n == |before| == |after| && forall i :: 0 <= i < n ==> after[i] == before[2 * i]
    ensures (forall i :: 0 <= i < n ==> after[i] == Words(before)[i]) <==>
            (forall i :: 0 <= i < n ==> Words(before)[i] < 0x1_0000_0000)
  {
    forall i | 0 <= i < n
      ensures after[i] == Words(before)[i] <==> Words(before)[i] < 0x1_0000_0000
    {
      assert Words(before)[i] == FromHalves(before[2 * i], before[2 * i + 1]);
    }
  }
}
