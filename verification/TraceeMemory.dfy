/** Access to the memory of a tracee (src/tracee/mem.c): by blocks when the kernel can, word by word
    with ptrace(2) otherwise. */
module TraceeMemory {
  import opened Common

  const EFAULT: int := 14
  const PAGE: nat := 4096
  const CHUNK: nat := 1024
  const WORD: nat := 8

  /** The mapped bytes; whole pages are mapped. */
  type Memory = map<int, Byte>

  ghost predicate ByPages(mem: Memory) {
    forall a, b :: a / PAGE == b / PAGE && a in mem ==> b in mem
  }

  predicate Mapped(mem: Memory, address: int, size: nat) {
    forall a :: address <= a < address + size ==> a in mem
  }

  function Peek(mem: Memory, address: int, size: nat): (s: seq<Byte>)
    requires Mapped(mem, address, size)
    ensures |s| == size && forall i :: 0 <= i < size ==> s[i] == mem[address + i]
  {
    seq(size, i requires 0 <= i < size => mem[address + i])
  }

  function Poke(mem: Memory, address: int, s: seq<Byte>): (mem': Memory)
    ensures mem'.Keys == mem.Keys
    ensures forall a :: a in mem ==> mem'[a] == if address <= a < address + |s| then s[a - address] else mem[a]
  {
    map a | a in mem :: if address <= a < address + |s| then s[a - address] else mem[a]
  }

  function RoundUp(size: nat): nat {
    if size % WORD == 0 then size else size - size % WORD + WORD
  }

  /** Every word that a transfer by words touches is mapped. */
  predicate WordsMapped(mem: Memory, address: int, size: nat) {
    Mapped(mem, address, RoundUp(size))
  }

  /** Bytes the kernel lets one process write to another: those of mapped pages that are not read-only. */
  predicate Permitted(mem: Memory, readOnly: set<int>, address: int, size: nat) {
    forall a :: address <= a < address + size ==> a in mem && a / PAGE !in readOnly
  }

  /** What write_data can write: all at once if the kernel lets it, or else word by word. */
  predicate Storable(mem: Memory, readOnly: set<int>, direct: bool, address: int, size: nat) {
    (direct && Permitted(mem, readOnly, address, size)) || WordsMapped(mem, address, size)
  }

  predicate CanWrite(mem: Memory, readOnly: set<int>, a: int) {
    a in mem && a / PAGE !in readOnly
  }

  /** The word that holds byte `i` of a transfer. */
  predicate WordOf(mem: Memory, address: int, i: nat) {
    Mapped(mem, address + i - i % WORD, WORD)
  }

  /** In bytes: every one of them is on a mapped page that is not read-only, or every word that holds one
      of them is mapped as a whole. */
  lemma {:induction false} StorableMeaning(mem: Memory, readOnly: set<int>, direct: bool, address: int, size: nat)
    ensures Storable(mem, readOnly, direct, address, size) <==>
            || (direct && forall a :: address <= a < address + size ==> CanWrite(mem, readOnly, a))
            || forall i: nat :: i < size ==> WordOf(mem, address, i)
  {
    var n := RoundUp(size);
    if forall i: nat :: i < size ==> WordOf(mem, address, i) {
      forall a | address <= a < address + n ensures a in mem {
        var k := a - address;
        InLastWord(k, size);
        assert WordOf(mem, address, k - k % WORD);
      }
    }
    if Mapped(mem, address, n) {
      forall i: nat | i < size ensures WordOf(mem, address, i) {
        var last := i / WORD * WORD + (WORD - 1);
        assert last % WORD == WORD - 1 && i == i / WORD * WORD + i % WORD;
        InLastWord(last, size);
      }
    }
    if forall a :: address <= a < address + size ==> CanWrite(mem, readOnly, a) {
      forall a | address <= a < address + size ensures a in mem && a / PAGE !in readOnly {
        assert CanWrite(mem, readOnly, a);
      }
    }
  }

  lemma InLastWord(k: nat, size: nat)
    ensures k < RoundUp(size) <==> k - k % WORD < size
  {
    assert k == k / WORD * WORD + k % WORD;
    assert size == size / WORD * WORD + size % WORD;
  }

  /** nb_full_words. */
  function FullWords(size: nat): nat {
    (size - size % WORD) / WORD
  }

  lemma WordsOf(size: nat)
    ensures WORD * FullWords(size) == size - size % WORD
  {
  }

  /** Reading back what was written. */
  lemma PeekPoke(mem: Memory, address: int, s: seq<Byte>)
    requires Mapped(mem, address, |s|)
    ensures Peek(Poke(mem, address, s), address, |s|) == s
  {
  }

  lemma PeekJoin(mem: Memory, address: int, n: nat, k: nat)
    requires Mapped(mem, address, n) && Mapped(mem, address + n, k)
    ensures Mapped(mem, address, n + k)
    ensures Peek(mem, address, n) + Peek(mem, address + n, k) == Peek(mem, address, n + k)
  {
  }

  lemma PeekPart(mem: Memory, address: int, n: nat, k: nat)
    requires Mapped(mem, address, n) && k <= n
    ensures Mapped(mem, address, k) && Peek(mem, address, n)[..k] == Peek(mem, address, k)
  {
  }

  lemma PokeTwice(mem: Memory, address: int, s: seq<Byte>, n: nat)
    requires n <= |s|
    ensures Poke(Poke(mem, address, s[..n]), address, s) == Poke(mem, address, s)
  {
  }

  /** One more word. */
  lemma PokeNext(mem: Memory, address: int, s: seq<Byte>, n: nat, word: seq<Byte>)
    requires n + |word| <= |s| && word == s[n..n + |word|]
    ensures Poke(Poke(mem, address, s[..n]), address + n, word) == Poke(mem, address, s[..n + |word|])
  {
  }

  // ----- Strings -----

  datatype Scan = Found(length: nat) | Fault(index: nat) | TooLong

  /** The string at an address: where its null byte is, or the first byte that is not mapped. */
  function ScanFrom(mem: Memory, address: int, max: nat, i: nat): Scan
    requires i <= max
    decreases max - i
  {
    if i == max then TooLong
    else if address + i !in mem then Fault(i)
    else if mem[address + i] == 0 then Found(i)
    else ScanFrom(mem, address, max, i + 1)
  }

  predicate NoNull(mem: Memory, address: int, n: nat) {
    Mapped(mem, address, n) && forall a :: address <= a < address + n ==> mem[a] != 0
  }

  lemma {:induction false} ScanSkips(mem: Memory, address: int, max: nat, i: nat, j: nat)
    requires i <= j <= max && NoNull(mem, address + i, j - i)
    ensures ScanFrom(mem, address, max, i) == ScanFrom(mem, address, max, j)
    decreases j - i
  {
    if i < j {
      ScanSkips(mem, address, max, i + 1, j);
    }
  }

  /** What read_string returns: the size of the string with its null byte, one more than the limit if
      there is none before, or an error.  A word has to be mapped as a whole to be read, even the one
      past the limit. */
  function StringStatus(mem: Memory, address: int, max: nat, direct: bool): int {
    match ScanFrom(mem, address, max, 0)
    case Found(k) => if direct || Mapped(mem, address + k / WORD * WORD, WORD) then k + 1 else -EFAULT
    case Fault(_) => -EFAULT
    case TooLong => if Mapped(mem, address + max / WORD * WORD, WORD) then max + 1 else -EFAULT
  }

  /** Both ways to read a string agree if and only if the word that holds its null byte is mapped. */
  lemma {:induction false} FallbackAgrees(mem: Memory, address: int, max: nat)
    ensures var scan := ScanFrom(mem, address, max, 0);
            StringStatus(mem, address, max, true) == StringStatus(mem, address, max, false) <==>
            (scan.Found? ==> Mapped(mem, address + scan.length / WORD * WORD, WORD))
  {
  }

  /** The null byte is the first one, and every byte before is mapped. */
  lemma {:induction false} ScanMeaning(mem: Memory, address: int, max: nat, i: nat)
    requires i <= max
    ensures match ScanFrom(mem, address, max, i)
            case Found(k) => i <= k < max && NoNull(mem, address + i, k - i) && address + k in mem && mem[address + k] == 0
            case Fault(k) => i <= k < max && NoNull(mem, address + i, k - i) && address + k !in mem
            case TooLong => NoNull(mem, address + i, max - i)
    decreases max - i
  {
    if i < max && address + i in mem && mem[address + i] != 0 {
      ScanMeaning(mem, address, max, i + 1);
    }
  }

  /** The bytes up to the next chunk. */
  function ChunkLeft(start: int): (n: nat)
    ensures 0 < n <= CHUNK && start % CHUNK + n <= CHUNK
  {
    CHUNK - start % CHUNK
  }

  /** A chunk does not cross a page: it is mapped as a whole or not at all. */
  lemma ChunkInPage(mem: Memory, start: int, size: nat)
    requires ByPages(mem) && size > 0 && start % CHUNK + size <= CHUNK
    ensures Mapped(mem, start, size) <==> start in mem
  {
    forall a | start <= a < start + size ensures a / PAGE == start / PAGE {
      SamePage(start, a);
    }
  }

  lemma SamePage(start: int, a: int)
    requires start <= a && start % CHUNK + (a - start) < CHUNK
    ensures a / PAGE == start / PAGE
  {
    assert start == CHUNK * (start / CHUNK) + start % CHUNK;
    assert a / CHUNK == start / CHUNK;
    PageOfChunk(start);
    PageOfChunk(a);
  }

  lemma PageOfChunk(a: int)
    ensures a / PAGE == a / CHUNK / 4
  {
  }

  // ----- The accesses -----

  class TraceeAccess {
    var mem: Memory
    const readOnly: set<int>
    const hasProcessVm: bool

    constructor (m: Memory, pages: set<int>, processVm: bool)
      ensures mem == m && readOnly == pages && hasProcessVm == processVm
    {
      mem, readOnly, hasProcessVm := m, pages, processVm;
    }

    // ----- The calls of the kernel -----

    /** process_vm_writev(2): as many bytes as can be written. */
    method ProcessVmWritev(address: int, s: seq<Byte>) returns (n: nat)
      modifies this
      ensures n <= |s| && mem == Poke(old(mem), address, s[..n])
      ensures n == |s| <==> Permitted(old(mem), readOnly, address, |s|)
    {
      n := 0;
      assert Poke(mem, address, s[..0]) == mem;
      while n < |s|
        invariant n <= |s| && mem == Poke(old(mem), address, s[..n])
        invariant Permitted(old(mem), readOnly, address, n)
      {
        if address + n !in mem || (address + n) / PAGE in readOnly {
          return;
        }
        PokeNext(old(mem), address, s, n, [s[n]]);
        mem := mem[address + n := s[n]];
        assert mem == Poke(Poke(old(mem), address, s[..n]), address + n, [s[n]]);
        n := n + 1;
      }
      assert s[..n] == s;
    }

    method PokeData(address: int, word: seq<Byte>) returns (ok: bool)
      requires |word| == WORD
      modifies this
      ensures ok == Mapped(old(mem), address, WORD)
      ensures mem == if ok then Poke(old(mem), address, word) else old(mem)
    {
      ok := Mapped(mem, address, WORD);
      if ok {
        mem := Poke(mem, address, word);
      }
    }

    method PeekData(address: int) returns (word: seq<Byte>, ok: bool)
      ensures ok == Mapped(mem, address, WORD)
      ensures |word| == WORD && (ok ==> word == Peek(mem, address, WORD))
    {
      ok := Mapped(mem, address, WORD);
      word := if ok then Peek(mem, address, WORD) else seq(WORD, _ => 0);
    }

    // ----- write_data -----

    method WriteData(address: int, s: seq<Byte>) returns (status: int)
      modifies this
      ensures status == if Storable(old(mem), readOnly, hasProcessVm, address, |s|) then 0 else -EFAULT
      ensures status == 0 ==> mem == Poke(old(mem), address, s)
      ensures mem.Keys == old(mem).Keys
      ensures forall a :: a in mem && !(address <= a < address + |s|) ==> mem[a] == old(mem)[a]
    {
      if hasProcessVm {
        var n := ProcessVmWritev(address, s);
        if n == |s| {
          assert s[..n] == s;
          return 0;
        }
        PokeTwice(old(mem), address, s, n);
      }
      status := WriteWords(address, s);
    }

    /** Whole words first, then what is left of the bytes. */
    method WriteWords(address: int, s: seq<Byte>) returns (status: int)
      modifies this
      ensures status == if WordsMapped(old(mem), address, |s|) then 0 else -EFAULT
      ensures status == 0 ==> mem == Poke(old(mem), address, s)
      ensures mem.Keys == old(mem).Keys
      ensures forall a :: a in mem && !(address <= a < address + |s|) ==> mem[a] == old(mem)[a]
    {
      var words := FullWords(|s|);
      WordsOf(|s|);
      assert Poke(mem, address, s[..0]) == mem;
      for i := 0 to words
        invariant mem == Poke(old(mem), address, s[..WORD * i]) && Mapped(mem, address, WORD * i)
      {
        var n := WORD * i;
        PokeNext(old(mem), address, s, n, s[n..n + WORD]);
        var ok := PokeData(address + n, s[n..n + WORD]);
        if !ok {
          return -EFAULT;
        }
      }
      status := WriteTrailing(address, s, WORD * words, old(mem));
    }

    /** What is left of the bytes, in a word whose other bytes stay. */
    method WriteTrailing(address: int, s: seq<Byte>, n: nat, ghost before: Memory) returns (status: int)
      requires n == |s| - |s| % WORD && mem == Poke(before, address, s[..n]) && Mapped(mem, address, n)
      modifies this
      ensures status == if WordsMapped(before, address, |s|) then 0 else -EFAULT
      ensures mem == if status == 0 then Poke(before, address, s) else old(mem)
    {
      if |s| == n {
        assert s[..n] == s;
        return 0;
      }
      var word, ok := PeekData(address + n);
      if !ok {
        return -EFAULT;
      }
      var last := s[n..] + word[|s| - n..];
      LastWord(before, mem, address, s, n, word, last);
      ok := PokeData(address + n, last);
      status := 0;
    }

    // ----- read_data -----

    method ReadData(address: int, size: nat) returns (status: int, s: seq<Byte>)
      ensures status == if (hasProcessVm && Mapped(mem, address, size)) || WordsMapped(mem, address, size) then 0 else -EFAULT
      ensures status == 0 ==> Mapped(mem, address, size) && s == Peek(mem, address, size)
    {
      if hasProcessVm && Mapped(mem, address, size) {
        return 0, Peek(mem, address, size);
      }
      s := [];
      WordsOf(size);
      for i := 0 to FullWords(size)
        invariant Mapped(mem, address, WORD * i) && s == Peek(mem, address, WORD * i)
      {
        var word, ok := PeekData(address + WORD * i);
        if !ok {
          return -EFAULT, s;
        }
        s := s + word;
      }
      if size % WORD == 0 {
        return 0, s;
      }
      var word, ok := PeekData(address + WORD * FullWords(size));
      if !ok {
        return -EFAULT, s;
      }
      s := s + word[..size % WORD];
      status := 0;
    }

    // ----- read_string -----

    /** strnlen(3). */
    method Strnlen(s: seq<Byte>) returns (n: nat)
      ensures n <= |s| && (forall i :: 0 <= i < n ==> s[i] != 0) && (n < |s| ==> s[n] == 0)
    {
      n := 0;
      while n < |s| && s[n] != 0
        invariant n <= |s| && forall i :: 0 <= i < n ==> s[i] != 0
      {
        n := n + 1;
      }
    }

    /** Read by chunks that do not cross a page; 0 when the words have to be read one by one. */
    method ReadChunks(address: int, max: nat) returns (status: int, s: seq<Byte>)
      requires ByPages(mem)
      ensures var scan := ScanFrom(mem, address, max, 0);
              if scan.Found? then status == scan.length + 1 && Mapped(mem, address, scan.length + 1) && s == Peek(mem, address, scan.length + 1)
              else status == 0
    {
      var offset: nat := 0;
      s := [];
      while offset < max
        invariant offset <= max && NoNull(mem, address, offset) && s == Peek(mem, address, offset)
      {
        ScanSkips(mem, address, max, 0, offset);
        var start := address + offset;
        var size := if ChunkLeft(start) < max - offset then ChunkLeft(start) else max - offset;
        ChunkInPage(mem, start, size);
        if !Mapped(mem, start, size) {
          return 0, s;
        }
        var chunk := Peek(mem, start, size);
        var n := Strnlen(chunk);
        ScanChunk(mem, address, max, offset, chunk, n);
        if n < size {
          PeekPart(mem, start, size, n + 1);
          PeekJoin(mem, address, offset, n + 1);
          return offset + n + 1, s + chunk[..n + 1];
        }
        PeekJoin(mem, address, offset, size);
        s := s + chunk;
        offset := offset + size;
      }
      ScanSkips(mem, address, max, 0, max);
      status := 0;
    }

    /** Read word by word; the whole word is stored, unless it is the last one. */
    method ReadWords(address: int, max: nat) returns (status: int, s: seq<Byte>)
      ensures status == StringStatus(mem, address, max, false) && Holds(mem, address, max, status, s)
    {
      s := [];
      WordsOf(max);
      for i := 0 to FullWords(max)
        invariant NoNull(mem, address, WORD * i) && s == Peek(mem, address, WORD * i)
      {
        var word, ok := PeekData(address + WORD * i);
        if !ok {
          WordFaults(mem, address, max, i);
          return -EFAULT, s;
        }
        PeekJoin(mem, address, WORD * i, WORD);
        s := s + word;
        var j := Strnlen(word);
        NoNullIn(mem, address, WORD * i, word, j);
        if j < WORD {
          NullAt(mem, address, max, i, j);
          HoldsPart(mem, address, max, WORD * i + j + 1, WORD * i + WORD, s);
          return WORD * i + j + 1, s;
        }
      }
      status, s := ReadLastWord(address, max, FullWords(max), s);
    }

    method ReadLastWord(address: int, max: nat, i: nat, before: seq<Byte>) returns (status: int, s: seq<Byte>)
      requires WORD * i <= max < WORD * i + WORD && NoNull(mem, address, WORD * i) && before == Peek(mem, address, WORD * i)
      ensures status == StringStatus(mem, address, max, false) && Holds(mem, address, max, status, s)
    {
      s := before;
      var word, ok := PeekData(address + WORD * i);
      if !ok {
        WordFaults(mem, address, max, i);
        return -EFAULT, s;
      }
      var trailing := max - WORD * i;
      var j := 0;
      while j < trailing
        invariant j <= trailing && NoNull(mem, address, WORD * i + j) && s == Peek(mem, address, WORD * i + j)
      {
        s := s + [word[j]];
        assert word[j] == mem[address + WORD * i + j];
        if word[j] == 0 {
          NullAt(mem, address, max, i, j);
          return WORD * i + j + 1, s;
        }
        j := j + 1;
      }
      NoNullAt(mem, address, max, i);
      status := WORD * i + j + 1;
    }

    method ReadString(address: int, max: nat) returns (status: int, s: seq<Byte>)
      requires ByPages(mem)
      ensures status == StringStatus(mem, address, max, hasProcessVm) && Holds(mem, address, max, status, s)
    {
      if hasProcessVm {
        status, s := ReadChunks(address, max);
        if status != 0 {
          ScanMeaning(mem, address, max, 0);
          return;
        }
      }
      status, s := ReadWords(address, max);
    }
  }

  /** What is left in the buffer: the string, or all that fits. */
  ghost predicate Holds(mem: Memory, address: int, max: nat, status: int, s: seq<Byte>) {
    status > 0 ==>
      var n := if status <= max then status else max;
      n <= |s| && Mapped(mem, address, n) && s[..n] == Peek(mem, address, n)
  }

  lemma HoldsPart(mem: Memory, address: int, max: nat, status: nat, n: nat, s: seq<Byte>)
    requires 0 < status <= n <= max && Mapped(mem, address, n) && s == Peek(mem, address, n)
    ensures Holds(mem, address, max, status, s)
  {
  }

  lemma NoNullIn(mem: Memory, address: int, n: nat, word: seq<Byte>, j: nat)
    requires NoNull(mem, address, n) && Mapped(mem, address + n, |word|) && word == Peek(mem, address + n, |word|)
    requires j <= |word| && forall k :: 0 <= k < j ==> word[k] != 0
    ensures NoNull(mem, address, n + j)
    ensures j < |word| ==> mem[address + n + j] == word[j]
  {
    forall a | address + n <= a < address + n + j ensures mem[a] != 0 {
      assert word[a - address - n] == mem[a];
    }
  }

  /** A word that cannot be read, after bytes that are not null, ends the read. */
  lemma WordFaults(mem: Memory, address: int, max: nat, i: nat)
    requires WORD * i <= max && NoNull(mem, address, WORD * i) && !Mapped(mem, address + WORD * i, WORD)
    ensures StringStatus(mem, address, max, false) == -EFAULT
  {
    ScanSkips(mem, address, max, 0, WORD * i);
    ScanMeaning(mem, address, max, WORD * i);
    var scan := ScanFrom(mem, address, max, WORD * i);
    if scan.Found? {
      DivWord(scan.length, i);
    } else if scan.TooLong? {
      DivWord(max, i);
    }
  }

  lemma DivWord(k: nat, i: nat)
    ensures WORD * i <= k < WORD * i + WORD ==> k / WORD * WORD == WORD * i
  {
  }

  lemma NullAt(mem: Memory, address: int, max: nat, i: nat, j: nat)
    requires WORD * i + j < max && j < WORD && NoNull(mem, address, WORD * i + j)
    requires Mapped(mem, address + WORD * i, WORD) && mem[address + WORD * i + j] == 0
    ensures StringStatus(mem, address, max, false) == WORD * i + j + 1
  {
    ScanSkips(mem, address, max, 0, WORD * i + j);
    DivWord(WORD * i + j, i);
  }

  lemma NoNullAt(mem: Memory, address: int, max: nat, i: nat)
    requires WORD * i <= max < WORD * i + WORD && NoNull(mem, address, max) && Mapped(mem, address + WORD * i, WORD)
    ensures StringStatus(mem, address, max, false) == max + 1
  {
    ScanSkips(mem, address, max, 0, max);
    DivWord(max, i);
  }

  lemma {:induction false} ScanChunk(mem: Memory, address: int, max: nat, offset: nat, chunk: seq<Byte>, n: nat)
    requires offset + |chunk| <= max && Mapped(mem, address + offset, |chunk|) && chunk == Peek(mem, address + offset, |chunk|)
    requires n <= |chunk| && (forall i :: 0 <= i < n ==> chunk[i] != 0) && (n < |chunk| ==> chunk[n] == 0)
    ensures NoNull(mem, address + offset, n)
    ensures n < |chunk| ==> ScanFrom(mem, address, max, offset) == Found(offset + n)
  {
    forall a | address + offset <= a < address + offset + n ensures mem[a] != 0 {
      assert chunk[a - address - offset] == mem[a];
    }
    ScanSkips(mem, address, max, offset, offset + n);
  }

  /** The last word: its trailing bytes come from the source, the others are kept. */
  lemma LastWord(before: Memory, mem: Memory, address: int, s: seq<Byte>, n: nat, word: seq<Byte>, last: seq<Byte>)
    requires n == |s| - |s| % WORD && n < |s| && mem == Poke(before, address, s[..n]) && Mapped(mem, address + n, WORD)
    requires word == Peek(mem, address + n, WORD) && last == s[n..] + word[|s| - n..]
    requires Mapped(mem, address, n)
    ensures |last| == WORD && Poke(mem, address + n, last) == Poke(before, address, s)
    ensures WordsMapped(before, address, |s|)
  {
    var mem' := Poke(mem, address + n, last);
    forall a | a in mem' ensures mem'[a] == Poke(before, address, s)[a] {
      if address + n <= a < address + n + WORD {
        var k := a - address - n;
        if k >= |s| - n {
          assert last[k] == word[k];
        }
      }
    }
  }
}
