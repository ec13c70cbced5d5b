/** From program headers to page mappings (src/execve/enter.c).  Addresses are 64-bit words and
    pages are 4096 bytes long. */
module LoadInfo {
  import opened Common

  const PAGE: nat := 0x1000

  /** `x & page_mask`. */
  function PageDown(x: int): (p: int)
    ensures p <= x < p + PAGE
    ensures x >= 0 ==> p >= 0
  {
    x - x % PAGE
  }

  /** A program header of type PT_LOAD. */
  datatype Segment = Segment(vaddr: Word, memsz: Word, filesz: Word, offset: Word, flags: Flags)

  /** PF_R, PF_W and PF_X. */
  datatype Flags = Flags(read: bool, write: bool, exec: bool)

  const PROT_READ: Word := 1
  const PROT_WRITE: Word := 2
  const PROT_EXEC: Word := 4

  function ProtOf(f: Flags): (prot: Word)
    ensures RightsOf(prot) == f
  {
    (if f.read then PROT_READ else 0) + (if f.write then PROT_WRITE else 0) + (if f.exec then PROT_EXEC else 0)
  }

  /** What a protection allows, bit by bit. */
  function RightsOf(prot: Word): Flags {
    Flags(prot % 2 == 1, prot / 2 % 2 == 1, prot / 4 % 2 == 1)
  }

  datatype Mapping = Mapping(anonymous: bool, addr: Word, length: Word, prot: Word, offset: Word, clearLength: Word)

  /** The segments the loader is made for: no address or offset overflows, file and memory images
      agree on their position in a page, and the memory image is not the smaller one. */
  predicate ValidSegment(s: Segment) {
    && s.filesz <= s.memsz
    && s.vaddr + s.memsz + PAGE < TWO_64
    && s.offset + s.filesz + PAGE < TWO_64
    && s.vaddr % PAGE == s.offset % PAGE
  }

  /** First address after the file mapping of a segment, rounded up strictly. */
  function FileEnd(s: Segment): int {
    PageDown(s.vaddr + s.filesz + PAGE)
  }

  function MemoryEnd(s: Segment): int {
    PageDown(s.vaddr + s.memsz + PAGE)
  }

  function FileMapping(s: Segment): Mapping
    requires ValidSegment(s)
  {
    Mapping(false, PageDown(s.vaddr), FileEnd(s) - PageDown(s.vaddr), ProtOf(s.flags), PageDown(s.offset),
            if s.memsz > s.filesz then FileEnd(s) - s.vaddr - s.filesz else 0)
  }

  function Mappings(s: Segment): (ms: seq<Mapping>)
    requires ValidSegment(s)
    ensures 1 <= |ms| <= 2
  {
    if s.memsz > s.filesz && MemoryEnd(s) > FileEnd(s)
    then [FileMapping(s), Mapping(true, FileEnd(s), MemoryEnd(s) - FileEnd(s), ProtOf(s.flags), 0, 0)]
    else [FileMapping(s)]
  }

  predicate ValidSegments(ss: seq<Segment>) {
    forall i :: 0 <= i < |ss| ==> ValidSegment(ss[i])
  }

  function AllMappings(ss: seq<Segment>): (ms: seq<Mapping>)
    requires ValidSegments(ss)
    ensures |ss| > 0 ==> |ms| > 0
  {
    if ss == [] then [] else AllMappings(ss[..|ss| - 1]) + Mappings(ss[|ss| - 1])
  }

  /** The segment as it lies once the object is loaded `base` bytes higher. */
  function ShiftSegment(s: Segment, base: nat): Segment
    requires ValidSegment(s) && s.vaddr + s.memsz + base + PAGE < TWO_64
  {
    s.(vaddr := s.vaddr + base)
  }

  function ShiftMapping(m: Mapping, base: nat): Mapping {
    m.(addr := Wrap(m.addr + base))
  }

  function ShiftMappings(ms: seq<Mapping>, base: nat): (ms': seq<Mapping>)
    ensures |ms'| == |ms|
    ensures forall i :: 0 <= i < |ms| ==> ms'[i] == ShiftMapping(ms[i], base)
  {
    seq(|ms|, i requires 0 <= i < |ms| => ShiftMapping(ms[i], base))
  }

  predicate CanShift(ss: seq<Segment>, base: nat) {
    && base % PAGE == 0
    && ValidSegments(ss)
    && forall i :: 0 <= i < |ss| ==> ss[i].vaddr + ss[i].memsz + base + PAGE < TWO_64
  }

  function ShiftSegments(ss: seq<Segment>, base: nat): (ss': seq<Segment>)
    requires CanShift(ss, base)
    ensures |ss'| == |ss|
    ensures forall i :: 0 <= i < |ss| ==> ss'[i] == ShiftSegment(ss[i], base)
    ensures ValidSegments(ss')
  {
    ShiftedValid(ss, base);
    seq(|ss|, i requires 0 <= i < |ss| => ShiftSegment(ss[i], base))
  }

  lemma ShiftedValid(ss: seq<Segment>, base: nat)
    requires CanShift(ss, base)
    ensures forall i :: 0 <= i < |ss| ==> ValidSegment(ShiftSegment(ss[i], base))
  {
    forall i | 0 <= i < |ss| ensures ValidSegment(ShiftSegment(ss[i], base)) {
      ShiftedAligned(ss[i].vaddr, base);
    }
  }

  lemma ShiftedAligned(v: int, base: int)
    requires base % PAGE == 0
    ensures (v + base) % PAGE == v % PAGE
  {
    assert base == PAGE * (base / PAGE) && v == PAGE * (v / PAGE) + v % PAGE;
  }

  /** Adding the load base to the mappings is mapping the object where it is loaded. */
  lemma {:induction false} ShiftCommutes(ss: seq<Segment>, base: nat)
    requires CanShift(ss, base)
    ensures ShiftMappings(AllMappings(ss), base) == AllMappings(ShiftSegments(ss, base))
  {
    if ss != [] {
      var front, s := ss[..|ss| - 1], ss[|ss| - 1];
      ShiftCommutes(front, base);
      ShiftFront(ss, base);
      ShiftOne(s, base);
      ShiftAppend(AllMappings(front), Mappings(s), base);
    }
  }

  lemma ShiftFront(ss: seq<Segment>, base: nat)
    requires CanShift(ss, base) && ss != []
    ensures ShiftSegments(ss, base)[..|ss| - 1] == ShiftSegments(ss[..|ss| - 1], base)
  {
  }

  lemma ShiftAppend(a: seq<Mapping>, b: seq<Mapping>, base: nat)
    ensures ShiftMappings(a + b, base) == ShiftMappings(a, base) + ShiftMappings(b, base)
  {
  }

  lemma ShiftOne(s: Segment, base: nat)
    requires ValidSegment(s) && s.vaddr + s.memsz + base + PAGE < TWO_64 && base % PAGE == 0
    ensures ShiftMappings(Mappings(s), base) == Mappings(ShiftSegment(s, base))
  {
    ShiftedEnds(s, base);
    WrapSmall(PageDown(s.vaddr) + base);
    WrapSmall(FileEnd(s) + base);
    assert ShiftMapping(FileMapping(s), base) == FileMapping(ShiftSegment(s, base));
  }

  lemma ShiftedEnds(s: Segment, base: nat)
    requires ValidSegment(s) && s.vaddr + s.memsz + base + PAGE < TWO_64 && base % PAGE == 0
    ensures var t := ShiftSegment(s, base);
            && PageDown(t.vaddr) == PageDown(s.vaddr) + base
            && FileEnd(t) == FileEnd(s) + base && MemoryEnd(t) == MemoryEnd(s) + base
  {
    PageDownShift(s.vaddr, base);
    PageDownShift(s.vaddr + s.filesz + PAGE, base);
    PageDownShift(s.vaddr + s.memsz + PAGE, base);
  }

  lemma PageAligned(x: int)
    ensures PageDown(x) % PAGE == 0
  {
  }

  lemma PageDownShift(x: int, base: int)
    requires base % PAGE == 0
    ensures PageDown(x + base) == PageDown(x) + base
  {
  }

  const EXEC_PIC_ADDRESS: Word := 0x5000_0000_0000
  const INTERP_PIC_ADDRESS: Word := 0x6F00_0000_0000
  const EXEC_PIC_ADDRESS_32: Word := 0x0F00_0000
  const INTERP_PIC_ADDRESS_32: Word := 0xAF00_0000

  lemma FileMappingIs(s: Segment)
    requires ValidSegment(s)
    ensures PageDown(s.vaddr) <= s.vaddr && s.vaddr + s.filesz < FileEnd(s) <= s.vaddr + s.filesz + PAGE
    ensures s.vaddr + s.memsz < MemoryEnd(s) <= s.vaddr + s.memsz + PAGE
  {
  }

  /** What is known of an ELF object to load. */
  class LoadInfo {
    var mappings: seq<Mapping>
    var entry: Word

    constructor (entry: Word)
      ensures mappings == [] && this.entry == entry
    {
      mappings := [];
      this.entry := entry;
    }

    method AddMapping(s: Segment)
      requires ValidSegment(s)
      modifies this`mappings
      ensures mappings == old(mappings) + Mappings(s)
    {
      WrapSmall(s.vaddr + s.filesz + PAGE);
      WrapSmall(s.vaddr + s.memsz + PAGE);
      FileMappingIs(s);
      var startAddress := PageDown(s.vaddr);
      var endAddress := PageDown(Wrap(s.vaddr + s.filesz + PAGE));
      var m := Mapping(false, startAddress, endAddress - startAddress, ProtOf(s.flags), PageDown(s.offset), 0);
      if s.memsz > s.filesz {
        m := m.(clearLength := endAddress - s.vaddr - s.filesz);
        mappings := mappings + [m];
        startAddress := endAddress;
        endAddress := PageDown(Wrap(s.vaddr + s.memsz + PAGE));
        if endAddress > startAddress {
          mappings := mappings + [Mapping(true, startAddress, endAddress - startAddress, ProtOf(s.flags), 0, 0)];
        }
      } else {
        mappings := mappings + [m];
      }
    }

    /** The program header iterator, for the headers of type PT_LOAD. */
    method AddMappings(ss: seq<Segment>)
      requires ValidSegments(ss) && mappings == []
      modifies this`mappings
      ensures mappings == AllMappings(ss)
    {
      for i := 0 to |ss|
        invariant mappings == AllMappings(ss[..i])
      {
        assert ss[..i + 1][..i] == ss[..i];
        AddMapping(ss[i]);
      }
      assert ss[..|ss|] == ss;
    }

    method AddLoadBase(base: Word)
      modifies this
      ensures mappings == ShiftMappings(old(mappings), base)
      ensures entry == Wrap(old(entry) + base)
    {
      for i := 0 to |mappings|
        invariant |mappings| == |old(mappings)|
        invariant forall k :: 0 <= k < i ==> mappings[k] == ShiftMapping(old(mappings)[k], base)
        invariant forall k :: i <= k < |mappings| ==> mappings[k] == old(mappings)[k]
        invariant entry == old(entry)
      {
        mappings := mappings[i := mappings[i].(addr := Wrap(mappings[i].addr + base))];
      }
      entry := Wrap(entry + base);
    }

    /** Position independent objects that start at 0 are loaded at a fixed address. */
    method ComputeLoadAddress(positionIndependent: bool, base: Word)
      requires mappings != []
      modifies this
      ensures var b := if positionIndependent && old(mappings)[0].addr == 0 then base else 0;
              mappings == ShiftMappings(old(mappings), b) && entry == Wrap(old(entry) + b)
    {
      if positionIndependent && mappings[0].addr == 0 {
        AddLoadBase(base);
      } else {
        assert forall m :: ShiftMapping(m, 0) == m;
      }
    }
  }

  /** The base an object gets: only a position independent one that starts at 0 is moved. */
  function BaseOf(positionIndependent: bool, mappings: seq<Mapping>, base: Word): Word
    requires mappings != []
  {
    if positionIndependent && mappings[0].addr == 0 then base else 0
  }

  function ExecAddress(class32: bool): Word {
    if class32 then EXEC_PIC_ADDRESS_32 else EXEC_PIC_ADDRESS
  }

  function InterpAddress(class32: bool): Word {
    if class32 then INTERP_PIC_ADDRESS_32 else INTERP_PIC_ADDRESS
  }

  /** The program and its interpreter each get their own address; the class of the program decides
      for both. */
  method ComputeLoadAddresses(exe: LoadInfo, exePic: bool, class32: bool, interp: LoadInfo?, interpPic: bool)
    requires exe.mappings != [] && (interp != null ==> interp != exe && interp.mappings != [])
    modifies exe, interp
    ensures var base := BaseOf(exePic, old(exe.mappings), ExecAddress(class32));
            exe.mappings == ShiftMappings(old(exe.mappings), base) && exe.entry == Wrap(old(exe.entry) + base)
    ensures interp != null ==>
              var base := BaseOf(interpPic, old(interp.mappings), InterpAddress(class32));
              interp.mappings == ShiftMappings(old(interp.mappings), base) && interp.entry == Wrap(old(interp.entry) + base)
  {
    exe.ComputeLoadAddress(exePic, if class32 then EXEC_PIC_ADDRESS_32 else EXEC_PIC_ADDRESS);
    if interp != null {
      interp.ComputeLoadAddress(interpPic, if class32 then INTERP_PIC_ADDRESS_32 else INTERP_PIC_ADDRESS);
    }
  }
}
