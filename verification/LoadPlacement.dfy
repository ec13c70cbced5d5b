/** From the segments of the ELF files to the images in memory, load addresses included
    (src/execve/enter.c:56-124,311-357, src/execve/exit.c:144-395, src/loader/loader.c:111-263). */
module LoadPlacement {
  import opened Common
  import opened LoadInfo
  import opened LoadScript
  import opened Loader
  import AuxVectors

  /** An ELF file: its PT_LOAD segments, whether it is position independent, its entry point. */
  datatype Elf = Elf(segments: seq<Segment>, pic: bool, entry: Word, path: seq<Byte>)

  /** The file can be loaded `base` bytes higher than it says. */
  ghost predicate Loadable(elf: Elf, file: seq<Byte>, base: nat) {
    && elf.segments != [] && CanShift(elf.segments, base) && elf.entry + base < TWO_64
    && InFile(elf.segments, file) && Ascending(elf.segments) && AllClearable(elf.segments, file)
  }

  /** What src/execve/enter.c makes of the file: its mappings, and where they go. */
  function BaseFor(elf: Elf, address: Word): Word
    requires elf.segments != [] && ValidSegments(elf.segments)
  {
    BaseOf(elf.pic, AllMappings(elf.segments), address)
  }

  function ObjectFor(elf: Elf, address: Word): Object
    requires elf.segments != [] && ValidSegments(elf.segments)
  {
    var base := BaseFor(elf, address);
    Object(ShiftMappings(AllMappings(elf.segments), base), Wrap(elf.entry + base), elf.path)
  }

  /** Where the first page of the file is loaded. */
  function FirstPage(elf: Elf, base: nat): int
    requires elf.segments != []
  {
    PageDown(elf.segments[0].vaddr) + base
  }

  /** The file bytes and the zeros of every segment, with its rights, `base` bytes higher than the file
      says. */
  ghost predicate Placed(mem: Memory, elf: Elf, file: seq<Byte>, base: nat)
    requires InFile(elf.segments, file)
  {
    forall i :: 0 <= i < |elf.segments| ==> PlacedSegment(mem, elf.segments[i], file, base)
  }

  ghost predicate PlacedSegment(mem: Memory, s: Segment, file: seq<Byte>, base: nat)
    requires s.offset + s.filesz <= |file|
  {
    var start := s.vaddr + base;
    forall a :: start <= a < start + s.memsz ==>
      a in mem && mem[a].rights == s.flags && mem[a].value == if a < start + s.filesz then file[s.offset + a - start] else 0
  }

  lemma ShiftedAscending(ss: seq<Segment>, base: nat)
    requires CanShift(ss, base) && Ascending(ss)
    ensures Ascending(ShiftSegments(ss, base))
  {
    forall i, j | 0 <= i < j < |ss|
      ensures ss[i].vaddr + base + ss[i].memsz <= PageDown(ss[j].vaddr + base)
    {
      PageDownShift(ss[j].vaddr, base);
    }
  }

  lemma ShiftedInFile(ss: seq<Segment>, base: nat, file: seq<Byte>)
    requires CanShift(ss, base) && InFile(ss, file) && AllClearable(ss, file)
    ensures InFile(ShiftSegments(ss, base), file) && AllClearable(ShiftSegments(ss, base), file)
  {
    forall i | 0 <= i < |ss| ensures Clearable(ShiftSegments(ss, base)[i], file) {
      assert Clearable(ss[i], file);
    }
  }

  lemma ShiftedObject(elf: Elf, file: seq<Byte>, base: nat, o: Object)
    requires Loadable(elf, file, base) && o.mappings == ShiftMappings(AllMappings(elf.segments), base)
    ensures ValidObject(o, ShiftSegments(elf.segments, base), file)
  {
    ShiftCommutes(elf.segments, base);
    ShiftedAscending(elf.segments, base);
    ShiftedInFile(elf.segments, base, file);
  }

  lemma EntryShifted(elf: Elf, address: Word)
    requires elf.segments != [] && ValidSegments(elf.segments) && elf.entry + BaseFor(elf, address) < TWO_64
    ensures ObjectFor(elf, address).entry == elf.entry + BaseFor(elf, address)
  {
    WrapSmall(elf.entry + BaseFor(elf, address));
  }

  lemma ImagePlaced(mem: Memory, elf: Elf, file: seq<Byte>, base: nat)
    requires CanShift(elf.segments, base) && InFile(elf.segments, file)
    requires InFile(ShiftSegments(elf.segments, base), file) && Images(mem, ShiftSegments(elf.segments, base), file)
    ensures Placed(mem, elf, file, base)
  {
    forall i | 0 <= i < |elf.segments| ensures PlacedSegment(mem, elf.segments[i], file, base) {
      assert Image(mem, ShiftSegments(elf.segments, base)[i], file);
    }
  }

  /** The two objects do not meet where they are loaded. */
  ghost predicate Clear(exe: Elf, interp: Elf, class32: bool)
    requires exe.segments != [] && ValidSegments(exe.segments) && interp.segments != [] && ValidSegments(interp.segments)
  {
    var a, b := BaseFor(exe, ExecAddress(class32)), BaseFor(interp, InterpAddress(class32));
    CanShift(exe.segments, a) && CanShift(interp.segments, b)
    && Apart(ShiftSegments(exe.segments, a), ShiftSegments(interp.segments, b))
  }

  /** Main theorem, end to end: for any two ELF files that can be loaded where the load addresses put
      them, the loader interprets the script compiled from their headers up to the entry point of the
      interpreter, or of the program alone, with every segment of both at its address plus the load
      base of its file. */
  lemma {:induction false} PlaceProgram(p: Program, exe: Elf, exeFile: seq<Byte>, interp: Elf, interpFile: seq<Byte>, class32: bool,
                     sp: Word, l: Layout, mem: Memory, files: Files)
    requires exe.segments != [] && ValidSegments(exe.segments)
    requires Loadable(exe, exeFile, BaseFor(exe, ExecAddress(class32)))
    requires p.exe == ObjectFor(exe, ExecAddress(class32))
    requires l.string1 in files && files[l.string1] == exeFile
    requires p.interp.Some? ==>
               && interp.segments != [] && ValidSegments(interp.segments)
               && Loadable(interp, interpFile, BaseFor(interp, InterpAddress(class32)))
               && p.interp.value == ObjectFor(interp, InterpAddress(class32))
               && Clear(exe, interp, class32)
               && l.string2 in files && files[l.string2] == interpFile
    ensures var st := RunAll(Running(mem, None, 0, true, None), ScriptOf(p, sp, l), files);
            && st.Started? && st.info.stackPointer == sp && st.stack == (if p.stackExec then Some(PageDown(sp)) else None)
            && Placed(st.mem, exe, exeFile, BaseFor(exe, ExecAddress(class32)))
            && if p.interp.Some? then
                 var base := BaseFor(interp, InterpAddress(class32));
                 Placed(st.mem, interp, interpFile, base) && st.info.entryPoint == interp.entry + base
               else st.info.entryPoint == exe.entry + BaseFor(exe, ExecAddress(class32))
    ensures var st := RunAll(Running(mem, None, 0, true, None), ScriptOf(p, sp, l), files);
            && st.Started? && st.traced == p.traced && st.info == StartOf(p, sp, l).info
            && st.info.atEntry == exe.entry + BaseFor(exe, ExecAddress(class32))
            && st.atBase == if p.interp.Some? then FirstPage(interp, BaseFor(interp, InterpAddress(class32)))
                            else FirstPage(exe, BaseFor(exe, ExecAddress(class32)))
  {
    PlaceImages(p, exe, exeFile, interp, interpFile, class32, sp, l, mem, files);
    EntryShifted(exe, ExecAddress(class32));
    if p.interp.Some? {
      EntryShifted(interp, InterpAddress(class32));
    }
  }

  lemma {:induction false} PlaceImages(p: Program, exe: Elf, exeFile: seq<Byte>, interp: Elf, interpFile: seq<Byte>, class32: bool,
                                       sp: Word, l: Layout, mem: Memory, files: Files)
    requires exe.segments != [] && ValidSegments(exe.segments)
    requires Loadable(exe, exeFile, BaseFor(exe, ExecAddress(class32)))
    requires p.exe == ObjectFor(exe, ExecAddress(class32))
    requires l.string1 in files && files[l.string1] == exeFile
    requires p.interp.Some? ==>
               && interp.segments != [] && ValidSegments(interp.segments)
               && Loadable(interp, interpFile, BaseFor(interp, InterpAddress(class32)))
               && p.interp.value == ObjectFor(interp, InterpAddress(class32))
               && Clear(exe, interp, class32)
               && l.string2 in files && files[l.string2] == interpFile
    ensures p.exe.mappings != []
    ensures var st := RunAll(Running(mem, None, 0, true, None), ScriptOf(p, sp, l), files);
            && st.Started? && st.traced == p.traced && st.info == StartOf(p, sp, l).info
            && st.stack == (if p.stackExec then Some(PageDown(sp)) else None)
            && Placed(st.mem, exe, exeFile, BaseFor(exe, ExecAddress(class32)))
            && (p.interp.Some? ==> Placed(st.mem, interp, interpFile, BaseFor(interp, InterpAddress(class32))))
            && st.atBase == if p.interp.Some? then FirstPage(interp, BaseFor(interp, InterpAddress(class32)))
                            else FirstPage(exe, BaseFor(exe, ExecAddress(class32)))
  {
    LoadShifted(p, exe, exeFile, interp, interpFile, class32, sp, l, mem, files);
    var st := RunAll(Running(mem, None, 0, true, None), ScriptOf(p, sp, l), files);
    ImagePlaced(st.mem, exe, exeFile, BaseFor(exe, ExecAddress(class32)));
    if p.interp.Some? {
      ImagePlaced(st.mem, interp, interpFile, BaseFor(interp, InterpAddress(class32)));
    }
  }

  ghost predicate LoadedAt(mem: Memory, elf: Elf, file: seq<Byte>, base: nat) {
    && CanShift(elf.segments, base) && InFile(elf.segments, file) && InFile(ShiftSegments(elf.segments, base), file)
    && Images(mem, ShiftSegments(elf.segments, base), file)
  }

  lemma {:induction false} LoadShifted(p: Program, exe: Elf, exeFile: seq<Byte>, interp: Elf, interpFile: seq<Byte>, class32: bool,
                                       sp: Word, l: Layout, mem: Memory, files: Files)
    requires exe.segments != [] && ValidSegments(exe.segments)
    requires Loadable(exe, exeFile, BaseFor(exe, ExecAddress(class32)))
    requires p.exe == ObjectFor(exe, ExecAddress(class32))
    requires l.string1 in files && files[l.string1] == exeFile
    requires p.interp.Some? ==>
               && interp.segments != [] && ValidSegments(interp.segments)
               && Loadable(interp, interpFile, BaseFor(interp, InterpAddress(class32)))
               && p.interp.value == ObjectFor(interp, InterpAddress(class32))
               && Clear(exe, interp, class32)
               && l.string2 in files && files[l.string2] == interpFile
    ensures p.exe.mappings != []
    ensures var st := RunAll(Running(mem, None, 0, true, None), ScriptOf(p, sp, l), files);
            && st.Started? && st.traced == p.traced && st.info == StartOf(p, sp, l).info
            && st.stack == (if p.stackExec then Some(PageDown(sp)) else None)
            && LoadedAt(st.mem, exe, exeFile, BaseFor(exe, ExecAddress(class32)))
            && (p.interp.Some? ==> LoadedAt(st.mem, interp, interpFile, BaseFor(interp, InterpAddress(class32))))
            && st.atBase == if p.interp.Some? then FirstPage(interp, BaseFor(interp, InterpAddress(class32)))
                            else FirstPage(exe, BaseFor(exe, ExecAddress(class32)))
  {
    var a := BaseFor(exe, ExecAddress(class32));
    var ss := ShiftSegments(exe.segments, a);
    ShiftedObject(exe, exeFile, a, p.exe);
    var ts := ss;
    if p.interp.Some? {
      var b := BaseFor(interp, InterpAddress(class32));
      ShiftedObject(interp, interpFile, b, p.interp.value);
      PageDownShift(interp.segments[0].vaddr, b);
      ts := ShiftSegments(interp.segments, b);
    }
    LoadProgram(p, sp, l, ss, exeFile, ts, interpFile, mem, files);
    PageDownShift(exe.segments[0].vaddr, a);
  }

  /** The program headers are where the program is told they are, if and only if its first page is the
      first one of the file. */
  lemma {:induction false} HeadersInPlaceIff(p: Program, exe: Elf, file: seq<Byte>, class32: bool, sp: Word, l: Layout, mem: Memory, n: nat)
    requires exe.segments != [] && ValidSegments(exe.segments)
    requires Loadable(exe, file, BaseFor(exe, ExecAddress(class32))) && p.exe == ObjectFor(exe, ExecAddress(class32))
    requires Placed(mem, exe, file, BaseFor(exe, ExecAddress(class32)))
    requires var s := exe.segments[0]; s.offset <= p.phdrOffset && p.phdrOffset + n <= s.offset + s.filesz && n > 0
    ensures var s, at := exe.segments[0], StartOf(p, sp, l).info.atPhdr;
            && (at == s.vaddr + BaseFor(exe, ExecAddress(class32)) + p.phdrOffset - s.offset <==> PageDown(s.offset) == 0)
            && (PageDown(s.offset) == 0 ==> HeadersAt(mem, at, file, p.phdrOffset, n))
  {
    var s, base := exe.segments[0], BaseFor(exe, ExecAddress(class32));
    var right := s.vaddr + base + p.phdrOffset - s.offset;
    HeadersTold(p, exe, class32, sp, l, right);
    WrapMoves(right, PageDown(s.offset));
    assert PlacedSegment(mem, s, file, base);
    BytesInPlace(mem, s, file, base, p.phdrOffset, n);
  }

  lemma {:induction false} HeadersTold(p: Program, exe: Elf, class32: bool, sp: Word, l: Layout, right: Word)
    requires exe.segments != [] && ValidSegments(exe.segments) && CanShift(exe.segments, BaseFor(exe, ExecAddress(class32)))
    requires p.exe == ObjectFor(exe, ExecAddress(class32))
    requires right == exe.segments[0].vaddr + BaseFor(exe, ExecAddress(class32)) + p.phdrOffset - exe.segments[0].offset
    ensures p.exe.mappings != [] && StartOf(p, sp, l).info.atPhdr == Wrap(right + PageDown(exe.segments[0].offset))
  {
    FirstMappingAt(exe.segments, BaseFor(exe, ExecAddress(class32)));
    SamePage(exe.segments[0]);
  }

  lemma SamePage(s: Segment)
    requires ValidSegment(s)
    ensures PageDown(s.vaddr) - s.vaddr == PageDown(s.offset) - s.offset
  {
    PageFacts(s);
  }

  lemma BytesInPlace(mem: Memory, s: Segment, file: seq<Byte>, base: nat, offset: nat, n: nat)
    requires s.filesz <= s.memsz && s.offset + s.filesz <= |file| && PlacedSegment(mem, s, file, base)
    requires s.offset <= offset && offset + n <= s.offset + s.filesz
    ensures HeadersAt(mem, s.vaddr + base + offset - s.offset, file, offset, n)
  {
  }

  ghost predicate HeadersAt(mem: Memory, at: int, file: seq<Byte>, offset: nat, n: nat)
    requires offset + n <= |file|
  {
    forall k :: at <= k < at + n ==> k in mem && mem[k].value == file[offset + k - at]
  }

  lemma WrapMoves(x: Word, y: Word)
    ensures Wrap(x + y) == x <==> y == 0
  {
  }

  lemma {:induction false} FirstMappingAt(ss: seq<Segment>, base: nat)
    requires ss != [] && CanShift(ss, base)
    ensures AllMappings(ss) != [] && ShiftMappings(AllMappings(ss), base)[0].addr == PageDown(ss[0].vaddr) + base
  {
    FirstMapping(ss);
    WrapSmall(PageDown(ss[0].vaddr) + base);
  }

  lemma {:induction false} FirstMapping(ss: seq<Segment>)
    requires ss != [] && ValidSegments(ss)
    ensures AllMappings(ss)[0] == FileMapping(ss[0])
    decreases |ss|
  {
    if |ss| > 1 {
      FirstMapping(ss[..|ss| - 1]);
    }
  }

  /** The vectors that the loader knows better. */
  const TOLD := {AuxVectors.AT_PHDR, AuxVectors.AT_PHENT, AuxVectors.AT_PHNUM, AuxVectors.AT_BASE, AuxVectors.AT_ENTRY, AuxVectors.AT_EXECFN}

  /** What the program reads in its auxiliary vectors, once they are patched: its entry point, its
      headers, and where its interpreter is. */
  lemma {:induction false} ProgramSees(p: Program, exe: Elf, exeFile: seq<Byte>, interp: Elf, interpFile: seq<Byte>, class32: bool,
                                       sp: Word, l: Layout, mem: Memory, files: Files, auxv: seq<AuxVectors.Vector>, execfn: Word, i: nat)
    requires exe.segments != [] && ValidSegments(exe.segments)
    requires Loadable(exe, exeFile, BaseFor(exe, ExecAddress(class32)))
    requires p.exe == ObjectFor(exe, ExecAddress(class32))
    requires l.string1 in files && files[l.string1] == exeFile
    requires p.interp.Some? ==>
               && interp.segments != [] && ValidSegments(interp.segments)
               && Loadable(interp, interpFile, BaseFor(interp, InterpAddress(class32)))
               && p.interp.value == ObjectFor(interp, InterpAddress(class32))
               && Clear(exe, interp, class32)
               && l.string2 in files && files[l.string2] == interpFile
    requires var s := exe.segments[0];
             PageDown(s.offset) == 0 && s.offset <= p.phdrOffset && p.phdrOffset + p.phent * p.phnum <= s.offset + s.filesz
    requires i < |auxv| && p.phent * p.phnum > 0
    ensures var st := RunAll(Running(mem, None, 0, true, None), ScriptOf(p, sp, l), files);
            && st.Started?
            && var start := AuxVectors.Start(st.info.atPhdr, st.info.atPhent, st.info.atPhnum, st.info.atEntry, st.atBase);
               var v := AuxVectors.PatchedAll(start, execfn, auxv)[i];
               && v.kind == auxv[i].kind
               && (v.kind == AuxVectors.AT_ENTRY ==> v.value == exe.entry + BaseFor(exe, ExecAddress(class32)))
               && (v.kind == AuxVectors.AT_PHDR ==> HeadersAt(st.mem, v.value, exeFile, p.phdrOffset, p.phent * p.phnum))
               && (v.kind == AuxVectors.AT_PHENT ==> v.value == p.phent)
               && (v.kind == AuxVectors.AT_PHNUM ==> v.value == p.phnum)
               && (v.kind == AuxVectors.AT_BASE ==>
                     v.value == if p.interp.Some? then FirstPage(interp, BaseFor(interp, InterpAddress(class32)))
                                else FirstPage(exe, BaseFor(exe, ExecAddress(class32))))
               && (v.kind == AuxVectors.AT_EXECFN ==> v.value == execfn)
               && (v.kind !in TOLD ==> v.value == auxv[i].value)
  {
    PlaceProgram(p, exe, exeFile, interp, interpFile, class32, sp, l, mem, files);
    var st := RunAll(Running(mem, None, 0, true, None), ScriptOf(p, sp, l), files);
    HeadersInPlaceIff(p, exe, exeFile, class32, sp, l, st.mem, p.phent * p.phnum);
  }

  /** So the entry point of a file can be executed where its segment can. */
  lemma EntryExecutable(mem: Memory, elf: Elf, file: seq<Byte>, base: nat, i: nat)
    requires InFile(elf.segments, file) && Placed(mem, elf, file, base) && i < |elf.segments|
    requires var s := elf.segments[i]; s.vaddr <= elf.entry < s.vaddr + s.memsz
    ensures elf.entry + base in mem && mem[elf.entry + base].rights == elf.segments[i].flags
  {
    assert PlacedSegment(mem, elf.segments[i], file, base);
  }

  /** A file goes where it says, unless it is position independent and its first segment starts in page 0;
      then it goes above everything small and below the end of its address space, a program lower than
      its interpreter by at least 2.5 GB, and by 31 TB in 64 bits. */
  lemma {:induction false} BaseMeaning(elf: Elf, address: Word, class32: bool)
    requires elf.segments != [] && ValidSegments(elf.segments)
    ensures BaseFor(elf, address) == if elf.pic && elf.segments[0].vaddr < PAGE then address else 0
    ensures ExecAddress(class32) % PAGE == 0 && InterpAddress(class32) % PAGE == 0
    ensures if class32 then 0x0F00_0000 <= ExecAddress(true) <= InterpAddress(true) - 0xA000_0000 < 0x1_0000_0000 - 0xA000_0000
            else 0x5000_0000_0000 <= ExecAddress(false) <= InterpAddress(false) - 0x1F00_0000_0000 < 0x8000_0000_0000 - 0x1F00_0000_0000
  {
    FirstMapping(elf.segments);
  }

  /** Two position independent objects that start at 0 do not meet when the program ends below the
      distance between the two load addresses. */
  lemma ApartByAddress(exe: Elf, interp: Elf, class32: bool)
    requires exe.segments != [] && ValidSegments(exe.segments) && interp.segments != [] && ValidSegments(interp.segments)
    requires exe.pic && interp.pic
    requires AllMappings(exe.segments)[0].addr == 0 && AllMappings(interp.segments)[0].addr == 0
    requires CanShift(interp.segments, InterpAddress(class32))
    requires forall i :: 0 <= i < |exe.segments| ==>
               exe.segments[i].vaddr + exe.segments[i].memsz <= InterpAddress(class32) - ExecAddress(class32)
    ensures BaseFor(exe, ExecAddress(class32)) == ExecAddress(class32)
    ensures BaseFor(interp, InterpAddress(class32)) == InterpAddress(class32)
    ensures Clear(exe, interp, class32)
  {
    var a, b := ExecAddress(class32), InterpAddress(class32);
    assert CanShift(exe.segments, a);
    var ss, ts := ShiftSegments(exe.segments, a), ShiftSegments(interp.segments, b);
    forall i, j | 0 <= i < |ss| && 0 <= j < |ts| ensures ss[i].vaddr + ss[i].memsz <= PageDown(ts[j].vaddr) {
      PageDownShift(interp.segments[j].vaddr, b);
    }
  }
}
