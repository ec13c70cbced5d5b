/** The loader (src/loader/loader.c): it interprets a load script, and the memory it leaves is
    the one the System V gABI (chapter 5, "Program Header") asks for. */
module Loader {
  import opened Common
  import opened LoadInfo
  import opened LoadScript

  // ----- Memory -----

  /** A mapped byte; it can be stored to when it is writable and backed: pages of a file mapping
      that lie entirely past the end of the file are not. */
  datatype Cell = Cell(value: Byte, rights: Flags, backed: bool)
  type Memory = map<int, Cell>

  function Range(low: int, high: int): (s: set<int>)
    ensures forall a :: a in s <==> low <= a < high
    decreases high - low
  {
    if low >= high then {} else Range(low, high - 1) + {high - 1}
  }

  /** End of the last page that holds a byte of the file. */
  function BackedEnd(file: seq<Byte>): int {
    PageDown(|file| + PAGE - 1)
  }

  function FileCell(file: seq<Byte>, offset: nat, rights: Flags): Cell {
    Cell(if offset < |file| then file[offset] else 0, rights, offset < BackedEnd(file))
  }

  /** mmap(2) with MAP_FIXED replaces whatever was there. */
  function MapFile(mem: Memory, addr: int, length: int, rights: Flags, file: seq<Byte>, offset: nat): (mem': Memory)
    ensures forall a :: addr <= a < addr + length ==> a in mem' && mem'[a] == FileCell(file, offset + a - addr, rights)
    ensures forall a :: a in mem && !(addr <= a < addr + length) ==> a in mem' && mem'[a] == mem[a]
  {
    map a | a in mem.Keys + Range(addr, addr + length) ::
      if addr <= a < addr + length then FileCell(file, offset + a - addr, rights) else mem[a]
  }

  function MapAnonymous(mem: Memory, addr: int, length: int, rights: Flags): (mem': Memory)
    ensures forall a :: addr <= a < addr + length ==> a in mem' && mem'[a] == Cell(0, rights, true)
    ensures forall a :: a in mem && !(addr <= a < addr + length) ==> a in mem' && mem'[a] == mem[a]
  {
    map a | a in mem.Keys + Range(addr, addr + length) ::
      if addr <= a < addr + length then Cell(0, rights, true) else mem[a]
  }

  predicate Storable(mem: Memory, low: int, high: int) {
    forall a :: low <= a < high ==> a in mem && mem[a].rights.write && mem[a].backed
  }

  function Zero(mem: Memory, low: int, high: int): (mem': Memory)
    ensures mem'.Keys == mem.Keys
  {
    map a | a in mem :: if low <= a < high then mem[a].(value := 0) else mem[a]
  }

  lemma ZeroTwice(mem: Memory, low: int, mid: int, high: int)
    requires low <= mid <= high
    ensures Zero(Zero(mem, low, mid), mid, high) == Zero(mem, low, high)
  {
  }

  lemma StorableZero(mem: Memory, low: int, high: int, low': int, high': int)
    ensures Storable(Zero(mem, low, high), low', high') == Storable(mem, low', high')
  {
    var mem' := Zero(mem, low, high);
    assert forall a :: a in mem ==> mem'[a].rights == mem[a].rights && mem'[a].backed == mem[a].backed;
  }

  const WORD_SIZE: nat := 8

  function RoundUpWord(x: int): int {
    if x % WORD_SIZE == 0 then x else x + WORD_SIZE - x % WORD_SIZE
  }

  function RoundDownWord(x: int): int {
    x - x % WORD_SIZE
  }

  /** The process being loaded.  A store to memory that cannot take it is fatal. */
  class Process {
    var mem: Memory

    constructor (mem: Memory)
      ensures this.mem == mem
    {
      this.mem := mem;
    }

    method MmapFile(addr: int, length: int, rights: Flags, file: seq<Byte>, offset: nat)
      modifies this
      ensures mem == MapFile(old(mem), addr, length, rights, file, offset)
    {
      mem := MapFile(mem, addr, length, rights, file, offset);
    }

    method StoreZeros(address: int, n: nat) returns (ok: bool)
      modifies this
      ensures ok == Storable(old(mem), address, address + n)
      ensures mem == if ok then Zero(old(mem), address, address + n) else old(mem)
    {
      ok := Storable(mem, address, address + n);
      if ok {
        mem := Zero(mem, address, address + n);
      }
    }

    method ZeroBytes(low: int, high: int) returns (ok: bool)
      modifies this
      ensures ok == Storable(old(mem), low, high)
      ensures ok ==> mem == Zero(old(mem), low, high)
    {
      var cursor := low;
      while cursor < high
        invariant low <= cursor && (cursor <= high || cursor == low)
        invariant Storable(old(mem), low, cursor) && mem == Zero(old(mem), low, cursor)
        decreases high - cursor
      {
        ZeroTwice(old(mem), low, cursor, cursor + 1);
        ok := StoreZeros(cursor, 1);
        if !ok {
          return;
        }
        cursor := cursor + 1;
      }
      ok := true;
    }

    method ZeroWords(low: int, high: int) returns (ok: bool)
      requires low % WORD_SIZE == 0 && high % WORD_SIZE == 0
      modifies this
      ensures ok == Storable(old(mem), low, high)
      ensures ok ==> mem == Zero(old(mem), low, high)
    {
      var cursor := low;
      while cursor < high
        invariant low <= cursor && (cursor <= high || cursor == low) && cursor % WORD_SIZE == 0
        invariant Storable(old(mem), low, cursor) && mem == Zero(old(mem), low, cursor)
        decreases high - cursor
      {
        ZeroTwice(old(mem), low, cursor, cursor + WORD_SIZE);
        ok := StoreZeros(cursor, WORD_SIZE);
        if !ok {
          return;
        }
        cursor := cursor + WORD_SIZE;
      }
      ok := true;
    }

    /** Clear leading misaligned bytes, then aligned words, then trailing misaligned bytes. */
    method Clear(start: int, end: int) returns (ok: bool)
      modifies this
      ensures ok == ClearStorable(old(mem), start, end)
      ensures ok ==> mem == Cleared(old(mem), start, end)
    {
      var startBytes := start % WORD_SIZE;
      var endBytes := end % WORD_SIZE;
      var startAligned := if startBytes != 0 then start + WORD_SIZE - startBytes else start;
      var endAligned := end - endBytes;
      StorableZero(mem, start, startAligned, startAligned, endAligned);
      StorableZero(mem, start, startAligned, endAligned, end);
      ok := ZeroBytes(start, startAligned);
      if !ok {
        return;
      }
      StorableZero(mem, startAligned, endAligned, endAligned, end);
      ok := ZeroWords(startAligned, endAligned);
      if !ok {
        return;
      }
      ok := ZeroBytes(endAligned, end);
    }
  }

  /** What clear() stores to, region by region. */
  predicate ClearStorable(mem: Memory, start: int, end: int) {
    && Storable(mem, start, RoundUpWord(start))
    && Storable(mem, RoundUpWord(start), RoundDownWord(end))
    && Storable(mem, RoundDownWord(end), end)
  }

  function Cleared(mem: Memory, start: int, end: int): Memory {
    Zero(Zero(Zero(mem, start, RoundUpWord(start)), RoundUpWord(start), RoundDownWord(end)), RoundDownWord(end), end)
  }

  /** clear() does what it says if and only if no leading bytes are left to clear in the word that
      holds the end: else it also clears bytes from the end on. */
  lemma ClearExactIff(mem: Memory, start: int, end: int)
    requires start <= end && end in mem && mem[end].value != 0
    ensures Cleared(mem, start, end) == Zero(mem, start, end) <==> start % WORD_SIZE == 0 || RoundUpWord(start) <= end
  {
    var up, down := RoundUpWord(start), RoundDownWord(end);
    if up <= down {
      ZeroTwice(mem, start, up, down);
      ZeroTwice(mem, start, down, end);
    } else {
      assert end < up;
      assert start % WORD_SIZE == 0 || Cleared(mem, start, end)[end].value == 0;
    }
  }

  /** The loader only clears up to page boundaries. */
  lemma ClearToPageEnd(mem: Memory, start: int, end: int)
    requires start <= end && end % PAGE == 0
    ensures Cleared(mem, start, end) == Zero(mem, start, end)
    ensures ClearStorable(mem, start, end) == Storable(mem, start, end)
  {
    PageEndIsAligned(start, end);
    ZeroTwice(mem, start, RoundUpWord(start), end);
    assert Zero(Zero(mem, start, end), end, end) == Zero(mem, start, end);
  }

  lemma PageEndIsAligned(start: int, end: int)
    requires start <= end && end % PAGE == 0
    ensures start <= RoundUpWord(start) <= end && RoundDownWord(end) == end
  {
    PageIsWords(end);
    WordBelow(start, 512 * (end / PAGE));
  }

  lemma PageIsWords(end: int)
    requires end % PAGE == 0
    ensures end == WORD_SIZE * (512 * (end / PAGE))
  {
  }

  lemma WordBelow(start: int, n: int)
    requires start <= WORD_SIZE * n
    ensures start <= RoundUpWord(start) <= WORD_SIZE * n && RoundDownWord(WORD_SIZE * n) == WORD_SIZE * n
  {
  }

  // ----- The meaning of a script -----

  /** The file behind each address given to open(2); no entry when the call fails. */
  type Files = map<Word, seq<Byte>>

  datatype State =
    | Running(mem: Memory, file: Option<seq<Byte>>, atBase: Word, resetAtBase: bool, stack: Option<Word>)
    | Started(mem: Memory, atBase: Word, stack: Option<Word>, traced: bool, info: StartInfo)
    | Fatal

  predicate MmapAccepts(addr: Word, length: Word, offset: Word) {
    addr % PAGE == 0 && offset % PAGE == 0 && 0 < length && addr + length < TWO_64
  }

  function Opened(st: State, files: Files, address: Word): State
    requires st.Running?
  {
    if address in files then st.(file := Some(files[address]), resetAtBase := true) else Fatal
  }

  function RunMmapFile(st: State, addr: Word, length: Word, prot: Word, offset: Word, clearLength: Word): State
    requires st.Running?
  {
    if st.file.None? || !MmapAccepts(addr, length, offset) then Fatal
    else
      var mapped := MapFile(st.mem, addr, length, RightsOf(prot), st.file.value, offset);
      FinishMmap(Running(mapped, st.file, st.atBase, st.resetAtBase, st.stack), addr, addr + length, clearLength)
  }

  function FinishMmap(st: State, addr: Word, end: int, clearLength: Word): State
    requires st.Running?
  {
    AfterMmap(st, addr, Clearing(st.mem, end, clearLength))
  }

  function AfterMmap(st: State, addr: Word, cleared: Option<Memory>): State
    requires st.Running?
  {
    match cleared
    case None => Fatal
    case Some(mem) => Running(mem, st.file, if st.resetAtBase then addr else st.atBase, false, st.stack)
  }

  /** Clear the last bytes of a mapping, if any has to be. */
  function Clearing(mem: Memory, end: int, clearLength: Word): Option<Memory> {
    if clearLength == 0 then Some(mem)
    else if ClearStorable(mem, end - clearLength, end) then Some(Cleared(mem, end - clearLength, end))
    else None
  }

  function RunOne(st: State, s: Statement, files: Files): State {
    if !st.Running? then st
    else match s
      case OpenNext(address) => if st.file.None? then Fatal else Opened(st, files, address)
      case Open(address) => Opened(st, files, address)
      case MmapFile(addr, length, prot, offset, clearLength) => RunMmapFile(st, addr, length, prot, offset, clearLength)
      case MmapAnon(addr, length, prot, _, _) =>
        if !MmapAccepts(addr, length, 0) then Fatal
        else Running(MapAnonymous(st.mem, addr, length, RightsOf(prot)), st.file, st.atBase, st.resetAtBase, st.stack)
      case MakeStackExec(start) => Running(st.mem, st.file, st.atBase, st.resetAtBase, Some(start))
      case Start(traced, info) =>
        if st.file.None? then Fatal else Started(st.mem, st.atBase, st.stack, traced, info)
  }

  function RunAll(st: State, ss: seq<Statement>, files: Files): State {
    if ss == [] then st else RunOne(RunAll(st, ss[..|ss| - 1], files), ss[|ss| - 1], files)
  }

  lemma {:induction false} RunAppend(st: State, a: seq<Statement>, b: seq<Statement>, files: Files)
    ensures RunAll(st, a + b, files) == RunAll(RunAll(st, a, files), b, files)
    decreases |b|
  {
    if b == [] {
      assert a + b == a;
    } else {
      assert (a + b)[..|a + b| - 1] == a + b[..|b| - 1];
      RunAppend(st, a, b[..|b| - 1], files);
    }
  }

  // ----- The interpreter of packed scripts -----

  /** A script ends with the statement that starts the program. */
  predicate EndsWithStart(ss: seq<Statement>) {
    && ss != [] && ss[|ss| - 1].Start?
    && forall i :: 0 <= i < |ss| - 1 ==> !ss[i].Start?
  }

  class Interpreter {
    const files: Files
    const process: Process
    var file: Option<seq<Byte>>
    var atBase: Word
    var resetAtBase: bool
    /** Where the stack was made executable. */
    var stack: Option<Word>

    constructor (files: Files, mem: Memory)
      ensures fresh(process) && this.files == files
      ensures State() == Running(mem, None, 0, true, None)
    {
      this.files := files;
      this.process := new Process(mem);
      file, atBase, resetAtBase, stack := None, 0, true, None;
    }

    function State(): State
      reads this, process
    {
      Running(process.mem, file, atBase, resetAtBase, stack)
    }

    method OpenFile(address: Word) returns (ok: bool)
      modifies this
      ensures var st := Opened(old(State()), files, address);
              if ok then st == State() else st.Fatal?
    {
      ok := address in files;
      if ok {
        file := Some(files[address]);
        resetAtBase := true;
      }
    }

    method ClearEnd(end: int, clearLength: Word) returns (ok: bool)
      modifies process
      ensures var mem := Clearing(old(process.mem), end, clearLength);
              if ok then mem == Some(process.mem) else mem.None?
    {
      ok := true;
      if clearLength != 0 {
        ok := process.Clear(end - clearLength, end);
      }
    }

    method MapFromFile(addr: Word, length: Word, prot: Word, offset: Word, clearLength: Word) returns (ok: bool)
      modifies this, process
      ensures var st := RunMmapFile(old(State()), addr, length, prot, offset, clearLength);
              if ok then st == State() else st.Fatal?
    {
      if file.None? || !MmapAccepts(addr, length, offset) {
        return false;
      }
      process.MmapFile(addr, length, RightsOf(prot), file.value, offset);
      ok := FinishMapping(addr, addr + length, clearLength);
    }

    method FinishMapping(addr: Word, end: int, clearLength: Word) returns (ok: bool)
      modifies this, process
      ensures var st := FinishMmap(old(State()), addr, end, clearLength);
              if ok then st == State() else st.Fatal?
    {
      ok := ClearEnd(end, clearLength);
      if ok {
        SetBase(addr);
      }
    }

    /** The first mapping of an object is its base. */
    method SetBase(addr: Word)
      modifies this`atBase, this`resetAtBase
      ensures atBase == (if old(resetAtBase) then addr else old(atBase)) && !resetAtBase
    {
      if resetAtBase {
        atBase := addr;
        resetAtBase := false;
      }
    }

    /** One statement other than the last one. */
    method Execute(ws: seq<Word>, ghost s: Statement) returns (ok: bool, size: nat)
      requires Pack(s) <= ws && !s.Start?
      modifies this, process
      ensures size == Size(s)
      ensures var st := RunOne(old(State()), s, files);
              if ok then st == State() else st.Fatal?
    {
      assert ws[0] == Pack(s)[0];
      assert forall i :: 0 <= i < |Pack(s)| ==> ws[i] == Pack(s)[i];
      var action := ws[0];
      ok := true;
      if action == LOAD_ACTION_OPEN_NEXT {
        // The previous file has to be closed first.
        ok := file.Some?;
        if ok {
          ok := OpenFile(ws[1]);
        }
        size := 2;
      } else if action == LOAD_ACTION_OPEN {
        ok := OpenFile(ws[1]);
        size := 2;
      } else if action == LOAD_ACTION_MMAP_FILE {
        ok := MapFromFile(ws[1], ws[2], ws[3], ws[4], ws[5]);
        size := 6;
      } else if action == LOAD_ACTION_MMAP_ANON {
        ok := MmapAccepts(ws[1], ws[2], 0);
        if ok {
          process.mem := MapAnonymous(process.mem, ws[1], ws[2], RightsOf(ws[3]));
        }
        size := 6;
      } else {
        stack := Some(ws[1]);
        size := 2;
      }
    }

    /** The last statement: close the file and start the program. */
    method Begin(ws: seq<Word>, ghost s: Statement) returns (st: State)
      requires Pack(s) <= ws && s.Start?
      ensures st == RunOne(State(), s, files)
    {
      assert forall i :: 0 <= i < |Pack(s)| ==> ws[i] == Pack(s)[i];
      if file.None? {
        return Fatal;
      }
      var info := StartInfo(ws[1], ws[2], ws[3], ws[4], ws[5], ws[6], ws[7]);
      st := Started(process.mem, atBase, stack, ws[0] == LOAD_ACTION_START_TRACED, info);
    }

    /** The same two steps, as parts of the run from `st0` on. */
    method ExecuteNext(ws: seq<Word>, cursor: nat, ghost st0: State, ghost ss: seq<Statement>, ghost k: nat)
      returns (ok: bool, next: nat)
      requires k < |ss| && Pack(ss[k]) <= ws && !ss[k].Start? && Astray(st0, ss, k, files, cursor, State()) == {}
      modifies this, process
      ensures ok ==> Astray(st0, ss, k + 1, files, next, State()) == {}
      ensures !ok ==> RunAll(st0, ss, files).Fatal?
    {
      var size;
      ghost var st := State();
      ok, size := Execute(ws, ss[k]);
      next := cursor + size;
      OneFurther(st0, ss, k, files, cursor, st);
      if !ok {
        FatalStays(st0, ss, k + 1, files);
      }
    }

    method BeginLast(ws: seq<Word>, ghost cursor: nat, ghost st0: State, ghost ss: seq<Statement>) returns (st: State)
      requires EndsWithStart(ss) && Pack(ss[|ss| - 1]) <= ws && Astray(st0, ss, |ss| - 1, files, cursor, State()) == {}
      ensures st == RunAll(st0, ss, files)
    {
      OnTrack(st0, ss, |ss| - 1, files, cursor, State());
      st := Begin(ws, ss[|ss| - 1]);
    }

    /** Interpret the script packed in `script`, which starts with the packed form of `ss`. */
    method Interpret(script: seq<Word>, ghost ss: seq<Statement>, ghost rest: seq<Word>) returns (st: State)
      requires script == PackAll(ss) + rest && EndsWithStart(ss)
      modifies this, process
      ensures st == RunAll(old(State()), ss, files)
    {
      var cursor: nat := 0;
      ghost var k := 0;
      while true
        invariant 0 <= k < |ss| && Astray(old(State()), ss, k, files, cursor, State()) == {}
        decreases |ss| - k
      {
        StatementAt(script, ss, rest, k, cursor, old(State()), State(), files);
        var ws := script[cursor..];
        if ws[0] == LOAD_ACTION_START || ws[0] == LOAD_ACTION_START_TRACED {
          st := BeginLast(ws, cursor, old(State()), ss);
          return;
        }
        var ok, next := ExecuteNext(ws, cursor, old(State()), ss, k);
        if !ok {
          return Fatal;
        }
        cursor := next;
        k := k + 1;
      }
    }
  }

  /** Nothing, if `k` statements of a script lead to `st` and take `cursor` words. */
  ghost function Astray(st0: State, ss: seq<Statement>, k: nat, files: Files, cursor: nat, st: State): set<nat>
    requires k <= |ss|
  {
    set i | i == k && !(cursor == |PackAll(ss[..i])| && RunAll(st0, ss[..i], files) == st)
  }

  lemma {:induction false} OnTrack(st0: State, ss: seq<Statement>, k: nat, files: Files, cursor: nat, st: State)
    requires k <= |ss|
    ensures Astray(st0, ss, k, files, cursor, st) == {} <==> cursor == |PackAll(ss[..k])| && RunAll(st0, ss[..k], files) == st
  {
    assert k in Astray(st0, ss, k, files, cursor, st) <==> !(cursor == |PackAll(ss[..k])| && RunAll(st0, ss[..k], files) == st);
  }

  lemma {:induction false} OneFurther(st0: State, ss: seq<Statement>, k: nat, files: Files, cursor: nat, st: State)
    requires k < |ss| && Astray(st0, ss, k, files, cursor, st) == {}
    ensures var st' := RunOne(st, ss[k], files);
            && Astray(st0, ss, k + 1, files, cursor + Size(ss[k]), st') == {}
            && RunAll(st0, ss[..k + 1], files) == st'
  {
    OnTrack(st0, ss, k, files, cursor, st);
    PackAllAt(ss, k);
    RunNext(st0, ss, k, files);
    OnTrack(st0, ss, k + 1, files, cursor + Size(ss[k]), RunOne(st, ss[k], files));
  }

  lemma StartIsLast(ss: seq<Statement>, k: nat)
    requires EndsWithStart(ss) && k < |ss|
    ensures ss[k].Start? <==> k == |ss| - 1
  {
  }

  lemma {:induction false} StatementAt(script: seq<Word>, ss: seq<Statement>, rest: seq<Word>, k: nat,
                                       cursor: nat, st0: State, st: State, files: Files)
    requires script == PackAll(ss) + rest && EndsWithStart(ss) && k < |ss| && Astray(st0, ss, k, files, cursor, st) == {}
    ensures cursor < |script| && Pack(ss[k]) <= script[cursor..]
    ensures script[cursor] == LOAD_ACTION_START || script[cursor] == LOAD_ACTION_START_TRACED <==> k == |ss| - 1
    ensures ss[k].Start? <==> k == |ss| - 1
  {
    OnTrack(st0, ss, k, files, cursor, st);
    PackAllAt(ss, k);
    Regroup(PackAll(ss[..k]), Pack(ss[k]), PackAll(ss[k + 1..]), rest);
    StartIsLast(ss, k);
    ActionOf(ss[k]);
    assert script[cursor] == Pack(ss[k])[0];
  }

  lemma ActionOf(s: Statement)
    ensures Pack(s)[0] == LOAD_ACTION_START || Pack(s)[0] == LOAD_ACTION_START_TRACED <==> s.Start?
  {
  }

  lemma Regroup(a: seq<Word>, b: seq<Word>, c: seq<Word>, d: seq<Word>)
    ensures (a + (b + c) + d)[|a|..] == b + (c + d)
  {
  }

  lemma {:induction false} RunNext(st: State, ss: seq<Statement>, k: nat, files: Files)
    requires k < |ss|
    ensures RunAll(st, ss[..k + 1], files) == RunOne(RunAll(st, ss[..k], files), ss[k], files)
  {
    assert ss[..k + 1][..k] == ss[..k];
  }

  lemma {:induction false} FatalStays(st: State, ss: seq<Statement>, k: nat, files: Files)
    requires k <= |ss| && RunAll(st, ss[..k], files).Fatal?
    ensures RunAll(st, ss, files).Fatal?
    decreases |ss| - k
  {
    if k == |ss| {
      assert ss[..k] == ss;
    } else {
      RunNext(st, ss, k, files);
      FatalStays(st, ss, k + 1, files);
    }
  }

  // ----- The image in memory -----

  /** The gABI's image of a segment: its file bytes, then zeros up to its memory size, with the rights it
      asks for and no other. */
  ghost predicate Image(mem: Memory, s: Segment, file: seq<Byte>)
    requires s.offset + s.filesz <= |file|
  {
    forall a :: s.vaddr <= a < s.vaddr + s.memsz ==>
      && a in mem
      && mem[a].rights == s.flags
      && mem[a].value == if a < s.vaddr + s.filesz then file[s.offset + a - s.vaddr] else 0
  }

  /** The loader can clear the end of the file mapping: it is writable and inside the file. */
  predicate Clearable(s: Segment, file: seq<Byte>) {
    s.memsz > s.filesz ==> s.flags.write && PageDown(s.offset + s.filesz) < |file|
  }

  ghost predicate UnchangedOutside(mem: Memory, mem': Memory, low: int, high: int) {
    forall a :: a in mem && !(low <= a < high) ==> a in mem' && mem'[a] == mem[a]
  }

  lemma PageFacts(s: Segment)
    requires ValidSegment(s)
    ensures PageDown(s.vaddr) - s.vaddr == PageDown(s.offset) - s.offset
    ensures s.vaddr + s.filesz < FileEnd(s) <= s.vaddr + s.filesz + PAGE
    ensures s.vaddr + s.memsz < MemoryEnd(s) <= s.vaddr + s.memsz + PAGE
    ensures FileEnd(s) <= MemoryEnd(s)
    ensures FileEnd(s) % PAGE == 0 && MemoryEnd(s) % PAGE == 0
    ensures s.memsz == s.filesz ==> FileEnd(s) == MemoryEnd(s)
    ensures PageDown(s.vaddr + s.filesz) == FileEnd(s) - PAGE
  {
    PageAligned(s.vaddr + s.filesz + PAGE);
    PageAligned(s.vaddr + s.memsz + PAGE);
    PageDownMonotonic(s.vaddr + s.filesz + PAGE, s.vaddr + s.memsz + PAGE);
    PageDownShift(s.vaddr + s.filesz, PAGE);
  }

  lemma PageDownMonotonic(x: int, y: int)
    requires x <= y
    ensures PageDown(x) <= PageDown(y)
  {
    assert x / PAGE <= y / PAGE;
    assert PageDown(x) == PAGE * (x / PAGE) && PageDown(y) == PAGE * (y / PAGE);
  }

  /** What the file mapping of a segment does to the state, once its end is cleared. */
  ghost predicate FileLoaded(st: State, st': State, s: Segment, file: seq<Byte>)
    requires st.Running? && s.offset + s.filesz <= |file|
  {
    && (st'.Running? <==> Clearable(s, file))
    && (st'.Running? ==>
          && st'.file == st.file && st'.stack == st.stack && !st'.resetAtBase
          && st'.atBase == (if st.resetAtBase then PageDown(s.vaddr) else st.atBase)
          && UnchangedOutside(st.mem, st'.mem, PageDown(s.vaddr), FileEnd(s))
          && FileImage(st'.mem, s, file))
  }

  lemma FileMappingRun(st: State, s: Segment, file: seq<Byte>, files: Files)
    requires ValidSegment(s) && st.Running? && st.file == Some(file)
    ensures var m := FileMapping(s);
            RunOne(st, MappingStatement(m), files) ==
            AfterMmap(st, m.addr, ZeroedEnd(MappedFile(st.mem, m, file), m.addr + m.length, m.clearLength))
  {
    AcceptsFileMapping(s);
    FileEndAligned(s);
    RunToPageEnd(st, FileMapping(s), file, files);
  }

  lemma FileMappingDone(st: State, st': State, s: Segment, file: seq<Byte>, m: Mapping)
    requires ValidSegment(s) && st.Running? && s.offset + s.filesz <= |file| && m == FileMapping(s)
    requires st' == AfterMmap(st, m.addr, ZeroedEnd(MappedFile(st.mem, m, file), m.addr + m.length, m.clearLength))
    ensures FileLoaded(st, st', s, file)
  {
    AcceptsFileMapping(s);
    var r := ZeroedEnd(MappedFile(st.mem, m, file), m.addr + m.length, m.clearLength);
    MappedAndCleared(st.mem, s, file, m, r);
    AfterFileMapping(st, st', s, file, m.addr, r);
  }

  lemma MappedAndCleared(mem: Memory, s: Segment, file: seq<Byte>, m: Mapping, r: Option<Memory>)
    requires ValidSegment(s) && s.offset + s.filesz <= |file| && m == FileMapping(s)
    requires r == ZeroedEnd(MappedFile(mem, m, file), m.addr + m.length, m.clearLength)
    ensures r.Some? <==> Clearable(s, file)
    ensures r.Some? ==> UnchangedOutside(mem, r.value, PageDown(s.vaddr), FileEnd(s)) && FileImage(r.value, s, file)
  {
    MapFileMapping(mem, s, file);
    AcceptsFileMapping(s);
    ClearFileMapping(MappedFile(mem, m, file), mem, s, file, r);
  }

  lemma AfterFileMapping(st: State, st': State, s: Segment, file: seq<Byte>, addr: Word, r: Option<Memory>)
    requires ValidSegment(s) && addr == PageDown(s.vaddr) && st.Running? && s.offset + s.filesz <= |file| && (r.Some? <==> Clearable(s, file))
    requires r.Some? ==> UnchangedOutside(st.mem, r.value, PageDown(s.vaddr), FileEnd(s)) && FileImage(r.value, s, file)
    requires st' == AfterMmap(st, addr, r)
    ensures FileLoaded(st, st', s, file)
  {
  }

  lemma AcceptsFileMapping(s: Segment)
    requires ValidSegment(s)
    ensures var m := FileMapping(s);
            MmapAccepts(m.addr, m.length, m.offset) && m.addr == PageDown(s.vaddr) && m.addr + m.length == FileEnd(s)
  {
    PageFacts(s);
    PageAligned(s.vaddr);
    PageAligned(s.offset);
  }

  lemma FileEndAligned(s: Segment)
    requires ValidSegment(s)
    ensures FileEnd(s) % PAGE == 0
  {
    PageFacts(s);
  }

  lemma MapFileMapping(mem: Memory, s: Segment, file: seq<Byte>)
    requires ValidSegment(s)
    ensures FromFile(MappedFile(mem, FileMapping(s), file), s, file)
    ensures UnchangedOutside(mem, MappedFile(mem, FileMapping(s), file), PageDown(s.vaddr), FileEnd(s))
  {
  }

  /** Clearing() with nothing but the region it is meant to clear. */
  function ZeroedEnd(mem: Memory, end: int, clearLength: Word): Option<Memory> {
    if clearLength == 0 then Some(mem)
    else if Storable(mem, end - clearLength, end) then Some(Zero(mem, end - clearLength, end))
    else None
  }

  lemma ClearingAtPageEnd(mem: Memory, end: int, clearLength: Word)
    requires end % PAGE == 0
    ensures Clearing(mem, end, clearLength) == ZeroedEnd(mem, end, clearLength)
  {
    ClearToPageEnd(mem, end - clearLength, end);
  }

  function MappedFile(mem: Memory, m: Mapping, file: seq<Byte>): Memory {
    MapFile(mem, m.addr, m.length, RightsOf(m.prot), file, m.offset)
  }

  lemma RunFileMapping(st: State, m: Mapping, file: seq<Byte>, files: Files)
    requires st.Running? && st.file == Some(file) && !m.anonymous
    ensures RunOne(st, MappingStatement(m), files) ==
            if !MmapAccepts(m.addr, m.length, m.offset) then Fatal
            else AfterMmap(st, m.addr, Clearing(MappedFile(st.mem, m, file), m.addr + m.length, m.clearLength))
  {
    RunMmap(st, file, m.addr, m.length, m.prot, m.offset, m.clearLength, files);
  }

  lemma RunToPageEnd(st: State, m: Mapping, file: seq<Byte>, files: Files)
    requires st.Running? && st.file == Some(file) && !m.anonymous
    requires MmapAccepts(m.addr, m.length, m.offset) && (m.addr + m.length) % PAGE == 0
    ensures RunOne(st, MappingStatement(m), files) ==
            AfterMmap(st, m.addr, ZeroedEnd(MappedFile(st.mem, m, file), m.addr + m.length, m.clearLength))
  {
    RunFileMapping(st, m, file, files);
    ClearingAtPageEnd(MappedFile(st.mem, m, file), m.addr + m.length, m.clearLength);
  }

  lemma RunMmap(st: State, file: seq<Byte>, addr: Word, length: Word, prot: Word, offset: Word, clearLength: Word,
                files: Files)
    requires st.Running? && st.file == Some(file)
    ensures RunOne(st, MmapFile(addr, length, prot, offset, clearLength), files) ==
            if !MmapAccepts(addr, length, offset) then Fatal
            else AfterMmap(st, addr, Clearing(MapFile(st.mem, addr, length, RightsOf(prot), file, offset),
                                              addr + length, clearLength))
  {
  }

  lemma ClearFileMapping(mem1: Memory, mem: Memory, s: Segment, file: seq<Byte>, r: Option<Memory>)
    requires ValidSegment(s) && s.offset + s.filesz <= |file|
    requires FromFile(mem1, s, file) && UnchangedOutside(mem, mem1, PageDown(s.vaddr), FileEnd(s))
    requires r == ZeroedEnd(mem1, FileEnd(s), FileMapping(s).clearLength)
    ensures r.Some? <==> Clearable(s, file)
    ensures r.Some? ==> UnchangedOutside(mem, r.value, PageDown(s.vaddr), FileEnd(s)) && FileImage(r.value, s, file)
  {
    PageFacts(s);
    MappedBytes(mem1, s, file);
    if s.memsz > s.filesz {
      ClearableIff(mem1, s, file);
    }
  }

  /** The bytes of the file mapping, before anything is mapped after it. */
  ghost predicate FileImage(mem: Memory, s: Segment, file: seq<Byte>)
    requires s.offset + s.filesz <= |file|
  {
    forall a :: s.vaddr <= a < FileEnd(s) ==>
      && a in mem && mem[a].rights == s.flags
      && (a < s.vaddr + s.filesz ==> mem[a].value == file[s.offset + a - s.vaddr])
      && (s.memsz > s.filesz && s.vaddr + s.filesz <= a ==> mem[a].value == 0)
  }

  /** The file mapping of a segment is in place. */
  ghost predicate FromFile(mem: Memory, s: Segment, file: seq<Byte>)
    requires ValidSegment(s)
  {
    forall a :: PageDown(s.vaddr) <= a < FileEnd(s) ==>
      a in mem && mem[a] == FileCell(file, PageDown(s.offset) + a - PageDown(s.vaddr), s.flags)
  }

  lemma MappedBytes(mem: Memory, s: Segment, file: seq<Byte>)
    requires ValidSegment(s) && s.offset + s.filesz <= |file|
    requires FromFile(mem, s, file)
    ensures forall a :: s.vaddr <= a < FileEnd(s) ==>
              a in mem && (a < s.vaddr + s.filesz ==> mem[a].value == file[s.offset + a - s.vaddr])
  {
    PageFacts(s);
  }

  lemma ClearableIff(mem1: Memory, s: Segment, file: seq<Byte>)
    requires ValidSegment(s) && s.memsz > s.filesz && s.offset + s.filesz <= |file|
    requires FromFile(mem1, s, file)
    ensures Storable(mem1, s.vaddr + s.filesz, FileEnd(s)) <==> Clearable(s, file)
  {
    PageFacts(s);
    LastPageBacked(s, file);
    var start := s.vaddr + s.filesz;
    assert forall a :: start <= a < FileEnd(s) ==>
        mem1[a] == FileCell(file, PageDown(s.offset) + a - PageDown(s.vaddr), s.flags);
    assert start in mem1 && mem1[start].backed == (s.offset + s.filesz < BackedEnd(file));
  }

  /** The page being cleared is backed by the file as a whole, or not at all. */
  lemma LastPageBacked(s: Segment, file: seq<Byte>)
    requires ValidSegment(s)
    ensures PageDown(s.offset + s.filesz) < |file| <==> s.offset + s.filesz < BackedEnd(file)
    ensures s.offset + s.filesz < BackedEnd(file) ==> s.offset - s.vaddr + FileEnd(s) <= BackedEnd(file)
  {
    var x := s.offset + s.filesz;
    LastPageStart(s);
    PageAligned(x);
    PageAligned(|file| + PAGE - 1);
    AlignedOrder(PageDown(x), BackedEnd(file), |file|);
  }

  /** The page where the file bytes of a segment end, in memory and in the file. */
  lemma LastPageStart(s: Segment)
    requires ValidSegment(s)
    ensures s.offset - s.vaddr + FileEnd(s) == PageDown(s.offset + s.filesz) + PAGE
  {
    PageFacts(s);
    PageDownShift(s.vaddr + s.filesz, PageDown(s.offset) - PageDown(s.vaddr));
  }

  lemma AlignedOrder(p: int, q: int, n: int)
    requires p % PAGE == 0 && q % PAGE == 0 && n <= q < n + PAGE
    ensures p < n <==> p < q
    ensures p < q <==> p + PAGE <= q
  {
    assert p == PAGE * (p / PAGE) && q == PAGE * (q / PAGE);
  }

  /** The mappings of one segment: they leave its image if and only if its end can be cleared, and
      touch nothing outside its pages. */
  ghost predicate SegmentLoaded(st: State, st': State, s: Segment, file: seq<Byte>)
    requires st.Running? && s.offset + s.filesz <= |file|
  {
    && (st'.Running? <==> Clearable(s, file))
    && (st'.Running? ==>
          && st'.file == st.file && st'.stack == st.stack && !st'.resetAtBase
          && st'.atBase == (if st.resetAtBase then PageDown(s.vaddr) else st.atBase)
          && UnchangedOutside(st.mem, st'.mem, PageDown(s.vaddr), MemoryEnd(s))
          && Image(st'.mem, s, file))
  }

  lemma {:induction false} LoadSegment(st: State, s: Segment, file: seq<Byte>, files: Files)
    requires ValidSegment(s) && st.Running? && st.file == Some(file) && s.offset + s.filesz <= |file|
    ensures SegmentLoaded(st, RunAll(st, MappingStatements(Mappings(s)), files), s, file)
  {
    var st1 := RunSegment(st, s, file, files);
    var st2 := RunAll(st, MappingStatements(Mappings(s)), files);
    FileMappingDone(st, st1, s, file, FileMapping(s));
    AllMapped(st, st1, st2, s, file);
  }

  lemma AllMapped(st: State, st1: State, st2: State, s: Segment, file: seq<Byte>)
    requires ValidSegment(s) && st.Running? && s.offset + s.filesz <= |file| && FileLoaded(st, st1, s, file)
    requires if |Mappings(s)| == 1 then st2 == st1 else AnonymousLoaded(st1, st2, s)
    ensures SegmentLoaded(st, st2, s, file)
  {
    if |Mappings(s)| == 1 {
      OnlyFileMapping(st, st1, s, file);
    } else {
      BothMappings(st, st1, st2, s, file);
    }
  }

  lemma {:induction false} RunSegment(st: State, s: Segment, file: seq<Byte>, files: Files) returns (st1: State)
    requires ValidSegment(s) && st.Running? && st.file == Some(file)
    ensures var m := FileMapping(s);
            st1 == AfterMmap(st, m.addr, ZeroedEnd(MappedFile(st.mem, m, file), m.addr + m.length, m.clearLength))
    ensures var st2 := RunAll(st, MappingStatements(Mappings(s)), files);
            if |Mappings(s)| == 1 then st2 == st1 else AnonymousLoaded(st1, st2, s)
  {
    var a := MappingStatement(FileMapping(s));
    st1 := RunOne(st, a, files);
    FileMappingRun(st, s, file, files);
    if |Mappings(s)| == 1 {
      assert MappingStatements(Mappings(s)) == [a];
      RunSingle(st, a, files);
    } else {
      var b := MappingStatement(Mappings(s)[1]);
      assert MappingStatements(Mappings(s)) == [a, b];
      RunPair(st, a, b, files);
      LoadAnonymousMapping(st1, s, files);
    }
  }

  lemma {:induction false} RunSingle(st: State, a: Statement, files: Files)
    ensures RunAll(st, [a], files) == RunOne(st, a, files)
  {
    assert [a][..0] == [];
  }

  lemma {:induction false} RunPair(st: State, a: Statement, b: Statement, files: Files)
    ensures RunAll(st, [a, b], files) == RunOne(RunOne(st, a, files), b, files)
  {
    assert [a, b][..1] == [a];
    RunSingle(st, a, files);
  }

  lemma OnlyFileMapping(st: State, st1: State, s: Segment, file: seq<Byte>)
    requires ValidSegment(s) && st.Running? && s.offset + s.filesz <= |file| && |Mappings(s)| == 1
    requires FileLoaded(st, st1, s, file)
    ensures SegmentLoaded(st, st1, s, file)
  {
    PageFacts(s);
    assert MemoryEnd(s) == FileEnd(s);
  }

  lemma BothMappings(st: State, st1: State, st2: State, s: Segment, file: seq<Byte>)
    requires ValidSegment(s) && st.Running? && s.offset + s.filesz <= |file|
    requires FileLoaded(st, st1, s, file) && AnonymousLoaded(st1, st2, s)
    ensures SegmentLoaded(st, st2, s, file)
  {
    PageFacts(s);
  }

  ghost predicate AnonymousLoaded(st: State, st': State, s: Segment) {
    if st.Running? then
      && st'.Running? && st' == Running(st'.mem, st.file, st.atBase, st.resetAtBase, st.stack)
      && UnchangedOutside(st.mem, st'.mem, FileEnd(s), MemoryEnd(s))
      && forall a :: FileEnd(s) <= a < MemoryEnd(s) ==> a in st'.mem && st'.mem[a].value == 0 && st'.mem[a].rights == s.flags
    else st' == st
  }

  lemma LoadAnonymousMapping(st: State, s: Segment, files: Files)
    requires ValidSegment(s) && |Mappings(s)| == 2
    ensures AnonymousLoaded(st, RunOne(st, MappingStatement(Mappings(s)[1]), files), s)
  {
    PageFacts(s);
  }

  ghost predicate InFile(ss: seq<Segment>, file: seq<Byte>) {
    forall i :: 0 <= i < |ss| ==> ss[i].offset + ss[i].filesz <= |file|
  }

  /** Each segment's first page starts at or after the end in memory of the segments before it. */
  ghost predicate Ascending(ss: seq<Segment>) {
    forall i, j :: 0 <= i < j < |ss| ==> ss[i].vaddr + ss[i].memsz <= PageDown(ss[j].vaddr)
  }

  ghost predicate Images(mem: Memory, ss: seq<Segment>, file: seq<Byte>)
    requires InFile(ss, file)
  {
    forall i :: 0 <= i < |ss| ==> Image(mem, ss[i], file)
  }

  ghost predicate AllClearable(ss: seq<Segment>, file: seq<Byte>) {
    forall i :: 0 <= i < |ss| ==> Clearable(ss[i], file)
  }

  ghost predicate UnchangedBySegments(mem: Memory, mem': Memory, ss: seq<Segment>) {
    forall a :: a in mem && (forall i :: 0 <= i < |ss| ==> !(PageDown(ss[i].vaddr) <= a < MemoryEnd(ss[i])))
      ==> a in mem' && mem'[a] == mem[a]
  }

  /** Later segments leave the images of the earlier ones alone, although the mappings overlap. */
  lemma ImagesKept(mem: Memory, mem': Memory, ss: seq<Segment>, s: Segment, file: seq<Byte>)
    requires InFile(ss, file) && Images(mem, ss, file)
    requires forall i :: 0 <= i < |ss| ==> ss[i].vaddr + ss[i].memsz <= PageDown(s.vaddr)
    requires UnchangedOutside(mem, mem', PageDown(s.vaddr), MemoryEnd(s))
    ensures Images(mem', ss, file)
  {
    forall i | 0 <= i < |ss| ensures Image(mem', ss[i], file) {
      assert Image(mem, ss[i], file);
    }
  }

  /** What a successful load of the segments does to the state. */
  ghost predicate Loaded(st: State, st': State, ss: seq<Segment>, file: seq<Byte>)
    requires InFile(ss, file)
  {
    && st.Running? && st'.Running? && st'.file == st.file && st'.stack == st.stack
    && Images(st'.mem, ss, file)
    && UnchangedBySegments(st.mem, st'.mem, ss)
    && st'.resetAtBase == (st.resetAtBase && ss == [])
    && st'.atBase == if st.resetAtBase && ss != [] then PageDown(ss[0].vaddr) else st.atBase
  }

  lemma LoadedSnoc(st: State, st1: State, st': State, ss: seq<Segment>, file: seq<Byte>)
    requires ss != [] && InFile(ss, file) && Ascending(ss)
    requires Loaded(st, st1, ss[..|ss| - 1], file) && st'.Running? && st'.file == st1.file && st'.stack == st1.stack && !st'.resetAtBase
    requires var s := ss[|ss| - 1];
             && st'.atBase == (if st1.resetAtBase then PageDown(s.vaddr) else st1.atBase)
             && UnchangedOutside(st1.mem, st'.mem, PageDown(s.vaddr), MemoryEnd(s))
             && Image(st'.mem, s, file)
    ensures Loaded(st, st', ss, file)
  {
    var front, s := ss[..|ss| - 1], ss[|ss| - 1];
    ImagesKept(st1.mem, st'.mem, front, s, file);
    forall i | 0 <= i < |ss| ensures Image(st'.mem, ss[i], file) {
      if i < |front| {
        assert front[i] == ss[i];
      }
    }
    forall a | a in st.mem && forall i :: 0 <= i < |ss| ==> !(PageDown(ss[i].vaddr) <= a < MemoryEnd(ss[i]))
      ensures a in st'.mem && st'.mem[a] == st.mem[a]
    {
      assert forall i :: 0 <= i < |front| ==> front[i] == ss[i];
      assert a in st1.mem && st1.mem[a] == st.mem[a];
    }
  }

  /** Main theorem: running the mappings compiled from the segments of a file gives the image of
      every segment; it fails exactly when the end of some segment cannot be cleared. */
  lemma {:induction false} LoadSegments(st: State, ss: seq<Segment>, file: seq<Byte>, files: Files)
    requires ValidSegments(ss) && InFile(ss, file) && Ascending(ss)
    requires st.Running? && st.file == Some(file)
    ensures var st' := RunAll(st, MappingStatements(AllMappings(ss)), files);
            if AllClearable(ss, file) then Loaded(st, st', ss, file) else st'.Fatal?
    decreases |ss|
  {
    if ss != [] {
      var front, s := ss[..|ss| - 1], ss[|ss| - 1];
      LoadSegments(st, front, file, files);
      SplitMappings(AllMappings(front), Mappings(s));
      RunAppend(st, MappingStatements(AllMappings(front)), MappingStatements(Mappings(s)), files);
      var st1 := RunAll(st, MappingStatements(AllMappings(front)), files);
      ClearableSnoc(ss, file);
      if st1.Running? {
        LoadLastSegment(st, st1, ss, file, files);
      } else {
        FatalRemains(st1, MappingStatements(Mappings(s)), files);
      }
    }
  }

  lemma LoadLastSegment(st: State, st1: State, ss: seq<Segment>, file: seq<Byte>, files: Files)
    requires ss != [] && InFile(ss, file) && Ascending(ss) && ValidSegment(ss[|ss| - 1])
    requires st.Running? && st.file == Some(file)
    requires Loaded(st, st1, ss[..|ss| - 1], file)
    ensures var s := ss[|ss| - 1];
            var st' := RunAll(st1, MappingStatements(Mappings(s)), files);
            if Clearable(s, file) then Loaded(st, st', ss, file) else st'.Fatal?
  {
    var s := ss[|ss| - 1];
    LoadSegment(st1, s, file, files);
    NeverStarts(st1, Mappings(s), files);
    if Clearable(s, file) {
      LoadedSnoc(st, st1, RunAll(st1, MappingStatements(Mappings(s)), files), ss, file);
    }
  }

  lemma ClearableSnoc(ss: seq<Segment>, file: seq<Byte>)
    requires ss != []
    ensures AllClearable(ss, file) <==> AllClearable(ss[..|ss| - 1], file) && Clearable(ss[|ss| - 1], file)
  {
    var front := ss[..|ss| - 1];
    assert forall i :: 0 <= i < |front| ==> front[i] == ss[i];
  }

  lemma SplitMappings(a: seq<Mapping>, b: seq<Mapping>)
    ensures MappingStatements(a + b) == MappingStatements(a) + MappingStatements(b)
  {
  }

  lemma {:induction false} NeverStarts(st: State, ms: seq<Mapping>, files: Files)
    requires st.Running?
    ensures !RunAll(st, MappingStatements(ms), files).Started?
  {
    if ms != [] {
      assert MappingStatements(ms)[..|ms| - 1] == MappingStatements(ms[..|ms| - 1]);
      NeverStarts(st, ms[..|ms| - 1], files);
    }
  }

  lemma {:induction false} FatalRemains(st: State, ss: seq<Statement>, files: Files)
    requires st.Fatal?
    ensures RunAll(st, ss, files).Fatal?
  {
    if ss != [] {
      FatalRemains(st, ss[..|ss| - 1], files);
    }
  }

  /** An object to load: its segments where they go, and the file they come from. */
  ghost predicate ValidObject(o: Object, ss: seq<Segment>, file: seq<Byte>) {
    && ss != [] && ValidSegments(ss) && InFile(ss, file) && Ascending(ss) && AllClearable(ss, file)
    && o.mappings == AllMappings(ss)
  }

  /** No page of `ss'` reaches an image of `ss`. */
  ghost predicate Apart(ss: seq<Segment>, ss': seq<Segment>) {
    forall i, j :: 0 <= i < |ss| && 0 <= j < |ss'| ==>
      ss[i].vaddr + ss[i].memsz <= PageDown(ss'[j].vaddr) || MemoryEnd(ss'[j]) <= ss[i].vaddr
  }

  lemma ImagesApart(mem: Memory, mem': Memory, ss: seq<Segment>, file: seq<Byte>, ss': seq<Segment>)
    requires InFile(ss, file) && Images(mem, ss, file) && UnchangedBySegments(mem, mem', ss') && Apart(ss, ss')
    ensures Images(mem', ss, file)
  {
    forall i | 0 <= i < |ss| ensures Image(mem', ss[i], file) {
      assert Image(mem, ss[i], file);
    }
  }

  /** Opening an object and mapping it. */
  lemma {:induction false} LoadObject(st: State, open: Statement, o: Object, ss: seq<Segment>, file: seq<Byte>, files: Files)
    requires ValidObject(o, ss, file) && st.Running?
    requires open.Open? || (open.OpenNext? && st.file.Some?)
    requires open.stringAddress in files && files[open.stringAddress] == file
    ensures var st' := RunAll(st, [open] + MappingStatements(o.mappings), files);
            && st'.Running? && st'.file == Some(file) && st'.stack == st.stack && st'.atBase == PageDown(ss[0].vaddr)
            && Images(st'.mem, ss, file) && UnchangedBySegments(st.mem, st'.mem, ss)
  {
    RunAppend(st, [open], MappingStatements(o.mappings), files);
    assert [open][..0] == [];
    var st1 := RunAll(st, [open], files);
    assert st1 == RunOne(st, open, files);
    LoadSegments(st1, ss, file, files);
  }

  /** Main theorem, for a program and its interpreter: the script of exit.c, run by the loader,
      starts the entry point with both images in memory. */
  lemma {:induction false} LoadProgram(p: Program, sp: Word, l: Layout, exe: seq<Segment>, exeFile: seq<Byte>,
                    interp: seq<Segment>, interpFile: seq<Byte>, mem: Memory, files: Files)
    requires ValidObject(p.exe, exe, exeFile)
    requires l.string1 in files && files[l.string1] == exeFile
    requires p.interp.Some? ==>
               && ValidObject(p.interp.value, interp, interpFile) && Apart(exe, interp)
               && l.string2 in files && files[l.string2] == interpFile
    ensures var st := RunAll(Running(mem, None, 0, true, None), ScriptOf(p, sp, l), files);
            && st.Started? && st.traced == p.traced
            && st.stack == (if p.stackExec then Some(PageDown(sp)) else None)
            && Images(st.mem, exe, exeFile)
            && (p.interp.Some? ==> Images(st.mem, interp, interpFile))
            && st.atBase == PageDown(if p.interp.Some? then interp[0].vaddr else exe[0].vaddr)
            && st.info.entryPoint == (if p.interp.Some? then p.interp.value.entry else p.exe.entry)
            && st.info.stackPointer == sp && st.info == StartOf(p, sp, l).info
  {
    var st0 := Running(mem, None, 0, true, None);
    var a := [Open(l.string1)] + MappingStatements(p.exe.mappings);
    var b, c, d := InterpStatements(p, l), StackStatements(p, sp), [StartOf(p, sp, l)];
    RunAppend(st0, a, b, files);
    RunAppend(st0, a + b, c, files);
    RunAppend(st0, a + b + c, d, files);
    LoadObject(st0, Open(l.string1), p.exe, exe, exeFile, files);
    var st1 := RunAll(st0, a, files);
    if p.interp.Some? {
      LoadObject(st1, OpenNext(l.string2), p.interp.value, interp, interpFile, files);
      ImagesApart(st1.mem, RunAll(st1, b, files).mem, exe, exeFile, interp);
    }
    RunTail(RunAll(st1, b, files), p, sp, l, files);
  }

  lemma {:induction false} RunTail(st: State, p: Program, sp: Word, l: Layout, files: Files)
    requires st.Running? && st.file.Some? && p.exe.mappings != []
    ensures RunAll(RunAll(st, StackStatements(p, sp), files), [StartOf(p, sp, l)], files)
         == Started(st.mem, st.atBase, if p.stackExec then Some(PageDown(sp)) else st.stack, p.traced, StartOf(p, sp, l).info)
  {
    var c, d := StackStatements(p, sp), [StartOf(p, sp, l)];
    assert d[..0] == [] && (c != [] ==> c[..0] == []);
    assert RunAll(st, c, files) == if p.stackExec then Running(st.mem, st.file, st.atBase, st.resetAtBase, Some(PageDown(sp))) else st;
    assert RunAll(st, d, files) == RunOne(st, d[0], files);
  }
}
