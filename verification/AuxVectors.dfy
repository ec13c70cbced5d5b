/** The ELF auxiliary vectors a program finds on its stack: how PRoot walks, edits and moves them
    (src/execve/auxv.c:44-183, src/extension/kompat/kompat.c:76-80,587-677) and how the loader
    finds and patches them (src/loader/loader.c:180-242). The stack is modelled by words: an address
    divided by the size of a word is a slot. */
module AuxVectors {
  import opened Common

  type Slots = map<int, Word>

  const AT_NULL: Word := 0
  const AT_IGNORE: Word := 1
  const AT_PHDR: Word := 3
  const AT_PHENT: Word := 4
  const AT_PHNUM: Word := 5
  const AT_BASE: Word := 7
  const AT_ENTRY: Word := 9
  const AT_HWCAP: Word := 16
  const AT_RANDOM: Word := 25
  const AT_EXECFN: Word := 31
  const AT_SYSINFO: Word := 32
  const AT_SYSINFO_EHDR: Word := 33

  /** (word_t) -1 */
  const NO_HWCAP: Word := 0xFFFF_FFFF_FFFF_FFFF
  /** KERNEL_VERSION(2,6,29) */
  const RELEASE_2_6_29: int := 0x2061D

  datatype Vector = Vector(kind: Word, value: Word)

  // ---- memory -------------------------------------------------------------------------

  ghost predicate Holds(mem: Slots, at: int, s: seq<Word>) {
    Wrong(mem, at, s) == {}
  }

  /** The slots where memory does not hold these words. */
  ghost function Wrong(mem: Slots, at: int, s: seq<Word>): set<int> {
    set k | at <= k < at + |s| && (k !in mem || mem[k] != s[k - at])
  }

  lemma HoldsAt(mem: Slots, at: int, s: seq<Word>, i: nat)
    requires Holds(mem, at, s) && i < |s|
    ensures at + i in mem && mem[at + i] == s[i]
  {
    assert at + i !in Wrong(mem, at, s);
  }

  lemma HoldsAll(mem: Slots, at: int, s: seq<Word>)
    ensures Holds(mem, at, s) <==> forall k :: at <= k < at + |s| ==> k in mem && mem[k] == s[k - at]
  {
    forall k | at <= k < at + |s| && k !in Wrong(mem, at, s) ensures k in mem && mem[k] == s[k - at] {
    }
    if forall k :: at <= k < at + |s| ==> k in mem && mem[k] == s[k - at] {
      forall k ensures k !in Wrong(mem, at, s) {
      }
    } else {
      var k :| at <= k < at + |s| && (k !in mem || mem[k] != s[k - at]);
      assert k in Wrong(mem, at, s);
    }
  }

  predicate Mapped(mem: Slots, at: int, n: nat) {
    forall k :: at <= k < at + n ==> k in mem
  }

  function Put(mem: Slots, at: int, s: seq<Word>): (mem': Slots)
    ensures mem'.Keys == mem.Keys
    ensures forall k :: k in mem ==> mem'[k] == if at <= k < at + |s| then s[k - at] else mem[k]
  {
    map k | k in mem :: if at <= k < at + |s| then s[k - at] else mem[k]
  }

  lemma PutHolds(mem: Slots, at: int, s: seq<Word>)
    requires Mapped(mem, at, |s|)
    ensures Holds(Put(mem, at, s), at, s)
  {
    HoldsAll(Put(mem, at, s), at, s);
  }

  lemma PutPut(mem: Slots, at: int, a: seq<Word>, b: seq<Word>)
    ensures Put(Put(mem, at, a), at + |a|, b) == Put(mem, at, a + b)
  {
  }

  lemma HoldsBoth(mem: Slots, at: int, a: seq<Word>, b: seq<Word>)
    ensures Holds(mem, at, a + b) <==> Holds(mem, at, a) && Holds(mem, at + |a|, b)
  {
    HoldsAll(mem, at, a + b);
    HoldsAll(mem, at, a);
    HoldsAll(mem, at + |a|, b);
    if Holds(mem, at, a + b) {
      forall k | at <= k < at + |a| ensures k in mem && mem[k] == a[k - at] {
        assert (a + b)[k - at] == a[k - at];
      }
      forall k | at + |a| <= k < at + |a| + |b| ensures k in mem && mem[k] == b[k - at - |a|] {
        assert (a + b)[k - at] == b[k - at - |a|];
      }
    }
  }

  // ---- the stack right after execve ------------------------------------------------------

  /** argc, argv[], 0, envp[], 0 */
  function Head(argv: seq<Word>, envp: seq<Word>): seq<Word>
    requires |argv| < 0x1_0000_0000
  {
    [|argv|] + argv + [0] + envp + [0]
  }

  function Pairs(auxv: seq<Vector>): (s: seq<Word>)
    ensures |s| == 2 * |auxv|
  {
    if auxv == [] then [] else Pairs(auxv[..|auxv| - 1]) + [auxv[|auxv| - 1].kind, auxv[|auxv| - 1].value]
  }

  ghost predicate Layout(mem: Slots, sp: int, argv: seq<Word>, envp: seq<Word>, auxv: seq<Vector>) {
    && |argv| < 0x1_0000_0000
    && Nulls(envp) == {}
    && Terminated(auxv)
    && Holds(mem, sp, Head(argv, envp))
    && HoldsVectors(mem, sp + |Head(argv, envp)|, auxv)
  }

  ghost function Nulls(words: seq<Word>): set<int> {
    set i | 0 <= i < |words| && words[i] == 0
  }

  /** No vector ends the list before its end. */
  ghost predicate Terminated(auxv: seq<Vector>) {
    Enders(auxv) == {}
  }

  ghost function Enders(auxv: seq<Vector>): set<int> {
    set i | 0 <= i < |auxv| && auxv[i].kind == AT_NULL
  }

  lemma TerminatedAt(auxv: seq<Vector>, i: nat)
    requires Terminated(auxv) && i < |auxv|
    ensures auxv[i].kind != AT_NULL
  {
    assert i !in Enders(auxv);
  }

  ghost predicate HoldsVectors(mem: Slots, at: int, auxv: seq<Vector>) {
    WrongVectors(mem, at, auxv) == {}
  }

  ghost function WrongVectors(mem: Slots, at: int, auxv: seq<Vector>): set<int> {
    set i | 0 <= i <= |auxv| && !EntryAt(mem, at + 2 * i, auxv, i)
  }

  predicate EntryAt(mem: Slots, at: int, auxv: seq<Vector>, i: nat)
    requires i <= |auxv|
  {
    if i < |auxv| then VectorAt(mem, at, auxv[i]) else NullAt(mem, at)
  }

  lemma HoldsEntry(mem: Slots, at: int, auxv: seq<Vector>, i: nat)
    requires HoldsVectors(mem, at, auxv) && i <= |auxv|
    ensures EntryAt(mem, at + 2 * i, auxv, i)
  {
    assert i !in WrongVectors(mem, at, auxv);
  }

  predicate VectorAt(mem: Slots, at: int, v: Vector) {
    at in mem && at + 1 in mem && mem[at] == v.kind && mem[at + 1] == v.value
  }

  predicate NullAt(mem: Slots, at: int) {
    at in mem && at + 1 in mem && mem[at] == AT_NULL
  }

  lemma {:induction false} PairsAt(auxv: seq<Vector>, i: nat)
    requires i < |auxv|
    ensures Pairs(auxv)[2 * i] == auxv[i].kind && Pairs(auxv)[2 * i + 1] == auxv[i].value
  {
    if i < |auxv| - 1 {
      PairsAt(auxv[..|auxv| - 1], i);
    }
  }

  lemma {:induction false} PairsNext(auxv: seq<Vector>, v: Vector)
    ensures Pairs(auxv + [v]) == Pairs(auxv) + [v.kind, v.value]
  {
    assert (auxv + [v])[..|auxv|] == auxv;
  }

  /** The vectors as they are pushed, with their null one. */
  function Pushed(auxv: seq<Vector>): seq<Word> {
    Pairs(auxv) + [AT_NULL, 0]
  }

  lemma PushedHolds(mem: Slots, at: int, auxv: seq<Vector>)
    requires Holds(mem, at, Pushed(auxv))
    ensures HoldsVectors(mem, at, auxv)
  {
    var s := Pushed(auxv);
    forall i: nat | i <= |auxv| ensures EntryAt(mem, at + 2 * i, auxv, i) {
      if i < |auxv| {
        PairsAt(auxv, i);
      }
      HoldsAt(mem, at, s, 2 * i);
      HoldsAt(mem, at, s, 2 * i + 1);
    }
  }

  lemma HeadSize(argv: seq<Word>, envp: seq<Word>)
    requires |argv| < 0x1_0000_0000
    ensures |Head(argv, envp)| == |argv| + |envp| + 3
  {
  }

  lemma WordOfHead(mem: Slots, sp: int, head: seq<Word>, k: nat)
    requires Holds(mem, sp, head) && k < |head|
    ensures sp + k in mem && mem[sp + k] == head[k]
  {
    HoldsAt(mem, sp, head, k);
  }

  /** The walk of argv[]: its size is the first word. */
  lemma ArgcAt(mem: Slots, sp: int, argv: seq<Word>, envp: seq<Word>)
    requires |argv| < 0x1_0000_0000 && Holds(mem, sp, Head(argv, envp))
    ensures sp in mem && mem[sp] == |argv|
  {
    WordOfHead(mem, sp, Head(argv, envp), 0);
  }

  /** The walk of envp[]: only the word after its last one is null. */
  lemma EnvpAt(mem: Slots, sp: int, argv: seq<Word>, envp: seq<Word>, i: nat)
    requires |argv| < 0x1_0000_0000 && Holds(mem, sp, Head(argv, envp)) && i <= |envp|
    requires Nulls(envp) == {}
    ensures sp + |argv| + 2 + i in mem && (mem[sp + |argv| + 2 + i] == 0 <==> i == |envp|)
  {
    var h := Head(argv, envp);
    WordOfHead(mem, sp, h, |argv| + 2 + i);
    assert h == ([|argv|] + argv + [0]) + envp + [0];
    assert i < |envp| ==> h[|argv| + 2 + i] == envp[i];
    assert i !in Nulls(envp);
  }

  /** The walk of the vectors: only the last one is null. */
  lemma NextEntry(mem: Slots, at: int, auxv: seq<Vector>, i: nat)
    requires HoldsVectors(mem, at, auxv) && Terminated(auxv) && i <= |auxv|
    ensures EntryAt(mem, at + 2 * i, auxv, i)
    ensures mem[at + 2 * i] == AT_NULL <==> i == |auxv|
  {
    HoldsEntry(mem, at, auxv, i);
    if i < |auxv| {
      TerminatedAt(auxv, i);
    }
  }

  // ---- what kompat makes of the vectors ---------------------------------------------------

  datatype Config = Config(actualRelease: int, virtualRelease: int, hwcap: Word)

  predicate NeedsKompat(config: Config, expectedRelease: int) {
    config.actualRelease < expectedRelease <= config.virtualRelease
  }

  function Edited(config: Config, v: Vector): Vector {
    if v.kind == AT_SYSINFO_EHDR || v.kind == AT_SYSINFO then Vector(AT_IGNORE, 0)
    else if v.kind == AT_HWCAP && config.hwcap != NO_HWCAP then v.(value := config.hwcap)
    else v
  }

  /** Whether a vector ends the edition: there is no need to go on past AT_RANDOM. */
  predicate Stops(config: Config, v: Vector) {
    v.kind == AT_RANDOM && config.actualRelease != 0
  }

  /** How many of the vectors are edited. */
  function Reach(config: Config, auxv: seq<Vector>, i: nat): (n: nat)
    requires i <= |auxv|
    ensures i <= n <= |auxv|
    ensures (forall k :: i <= k < n ==> !Stops(config, auxv[k])) && (n < |auxv| ==> Stops(config, auxv[n]))
    decreases |auxv| - i
  {
    if i == |auxv| || Stops(config, auxv[i]) then i else Reach(config, auxv, i + 1)
  }

  function EditedUpTo(config: Config, auxv: seq<Vector>, n: nat): (r: seq<Vector>)
    requires n <= |auxv|
    ensures |r| == |auxv|
    ensures forall k :: 0 <= k < |auxv| ==> r[k] == if k < n then Edited(config, auxv[k]) else auxv[k]
  {
    seq(|auxv|, k requires 0 <= k < |auxv| => if k < n then Edited(config, auxv[k]) else auxv[k])
  }

  predicate Adds(config: Config, auxv: seq<Vector>) {
    Reach(config, auxv, 0) == |auxv| && NeedsKompat(config, RELEASE_2_6_29)
  }

  /** The vectors the program gets, when the old ones are at `address`. */
  function Adjusted(config: Config, auxv: seq<Vector>, address: Word): seq<Vector> {
    var edited := EditedUpTo(config, auxv, Reach(config, auxv, 0));
    if Adds(config, auxv) then edited + [Vector(AT_RANDOM, address)] else edited
  }

  lemma AdjustedTerminated(config: Config, auxv: seq<Vector>, address: Word)
    requires Terminated(auxv)
    ensures Terminated(Adjusted(config, auxv, address))
  {
    var r := Adjusted(config, auxv, address);
    forall i: nat | i < |r| ensures r[i].kind != AT_NULL {
      if i < |auxv| {
        TerminatedAt(auxv, i);
      }
    }
  }

  /** The kernel's own pages are hidden, which is what the edition is for, exactly when no such vector
      comes after an AT_RANDOM that stops it. */
  lemma HiddenIff(config: Config, auxv: seq<Vector>, address: Word)
    ensures var r := Adjusted(config, auxv, address);
            (forall i :: 0 <= i < |r| ==> r[i].kind != AT_SYSINFO && r[i].kind != AT_SYSINFO_EHDR) <==>
            (forall i, j :: 0 <= i < j < |auxv| && Stops(config, auxv[i]) ==>
                              auxv[j].kind != AT_SYSINFO && auxv[j].kind != AT_SYSINFO_EHDR)
  {
    var r, n := Adjusted(config, auxv, address), Reach(config, auxv, 0);
    forall j | n <= j < |auxv| ensures r[j] == auxv[j] {
    }
    if forall i :: 0 <= i < |r| ==> r[i].kind != AT_SYSINFO && r[i].kind != AT_SYSINFO_EHDR {
      forall i, j | 0 <= i < j < |auxv| && Stops(config, auxv[i])
        ensures auxv[j].kind != AT_SYSINFO && auxv[j].kind != AT_SYSINFO_EHDR
      {
        assert r[j] == auxv[j];
      }
    }
  }

  /** Outside forced mode a program never gets two random vectors from one. */
  lemma RandomOnce(config: Config, auxv: seq<Vector>, address: Word)
    requires config.actualRelease != 0 && exists i :: 0 <= i < |auxv| && auxv[i].kind == AT_RANDOM
    ensures |Adjusted(config, auxv, address)| == |auxv|
  {
    var i :| 0 <= i < |auxv| && auxv[i].kind == AT_RANDOM;
    assert Stops(config, auxv[i]);
  }

  /** A vector before any that ends the edition, and not that one either. */
  ghost predicate IsEdited(config: Config, auxv: seq<Vector>, i: nat)
    requires i < |auxv|
  {
    forall j :: 0 <= j <= i ==> !Stops(config, auxv[j])
  }

  /** Everything a program may find changed: the vectors of the kernel's own pages are to be ignored, the
      capabilities are the ones asked for, if any, and the random bytes an old kernel does not give, and
      the asked one should, are somewhere in the old vectors. The rest is the kernel's, in its order. */
  lemma AdjustedMeaning(config: Config, auxv: seq<Vector>, address: Word)
    ensures var r := Adjusted(config, auxv, address);
            && |auxv| <= |r| <= |auxv| + 1
            && (|r| > |auxv| <==>
                  && config.actualRelease < RELEASE_2_6_29 <= config.virtualRelease
                  && (config.actualRelease == 0 || forall i :: 0 <= i < |auxv| ==> auxv[i].kind != AT_RANDOM))
            && (|r| > |auxv| ==> r[|auxv|] == Vector(AT_RANDOM, address))
            && forall i :: 0 <= i < |auxv| ==>
                 if IsEdited(config, auxv, i) && auxv[i].kind in {AT_SYSINFO, AT_SYSINFO_EHDR} then r[i] == Vector(AT_IGNORE, 0)
                 else
                   && r[i].kind == auxv[i].kind
                   && r[i].value == if IsEdited(config, auxv, i) && auxv[i].kind == AT_HWCAP && config.hwcap != NO_HWCAP
                                    then config.hwcap else auxv[i].value
  {
    var n := Reach(config, auxv, 0);
    forall i | 0 <= i < |auxv| ensures IsEdited(config, auxv, i) <==> i < n {
    }
    if n < |auxv| {
      assert Stops(config, auxv[n]);
    } else {
      forall i | 0 <= i < |auxv| && config.actualRelease != 0 ensures auxv[i].kind != AT_RANDOM {
        assert !Stops(config, auxv[i]);
      }
    }
  }

  lemma PutTwo(mem: Slots, at: int, s: seq<Word>, x: Word, y: Word)
    ensures Put(Put(Put(mem, at, s), at + |s|, [x]), at + |s| + 1, [y]) == Put(mem, at, s + [x, y])
  {
    PutPut(Put(mem, at, s), at + |s|, [x], [y]);
    assert [x] + [y] == [x, y];
    PutPut(mem, at, s, [x, y]);
  }

  lemma PutVector(mem: Slots, at: int, vectors: seq<Vector>, i: nat)
    requires i < |vectors|
    ensures var done, v := Put(mem, at, Pairs(vectors[..i])), vectors[i];
            Put(Put(done, at + 2 * i, [v.kind]), at + 2 * i + 1, [v.value]) == Put(mem, at, Pairs(vectors[..i + 1]))
  {
    assert vectors[..i + 1] == vectors[..i] + [vectors[i]];
    PairsNext(vectors[..i], vectors[i]);
    PutTwo(mem, at, Pairs(vectors[..i]), vectors[i].kind, vectors[i].value);
  }

  /** What a program finds once its vectors have been adjusted: `was` was the stack pointer in
      `before`. */
  ghost predicate Arrived(config: Config, argv: seq<Word>, envp: seq<Word>, auxv: seq<Vector>, wordSize: nat,
                          before: Slots, was: int, mem: Slots, sp: int)
    requires |argv| < 0x1_0000_0000
    requires 0 <= (was + |Head(argv, envp)|) * wordSize < 0x1_0000_0000_0000_0000
  {
    var aux := was + |Head(argv, envp)|;
    && Layout(mem, sp, argv, envp, Adjusted(config, auxv, aux * wordSize))
    && SameOutside(before, mem, if Adds(config, auxv) then sp else aux, aux + 2 * |auxv| + 2)
  }

  lemma Arrives(config: Config, argv: seq<Word>, envp: seq<Word>, auxv: seq<Vector>, wordSize: nat,
                before: Slots, was: int, mem: Slots, sp: int, vectors: seq<Vector>, aux: int)
    requires |argv| < 0x1_0000_0000 && aux == was + |Head(argv, envp)|
    requires 0 <= aux * wordSize < 0x1_0000_0000_0000_0000
    requires Layout(mem, sp, argv, envp, vectors) && vectors == Adjusted(config, auxv, aux * wordSize)
    requires SameOutside(before, mem, if Adds(config, auxv) then sp else aux, aux + 2 * |auxv| + 2)
    ensures Arrived(config, argv, envp, auxv, wordSize, before, was, mem, sp)
  {
  }

  // ---- the walkers -------------------------------------------------------------------------

  /** A tracee stopped right after its execve. */
  class Tracee {
    var mem: Slots
    var sp: int
    const wordSize: nat

    constructor (m: Slots, s: int, w: nat)
      ensures mem == m && sp == s && wordSize == w
    {
      mem, sp, wordSize := m, s, w;
    }

    /** get_elf_aux_vectors_address */
    method GetElfAuxVectorsAddress(ghost argv: seq<Word>, ghost envp: seq<Word>, ghost auxv: seq<Vector>) returns (address: int)
      requires Layout(mem, sp, argv, envp, auxv)
      ensures address == sp + |Head(argv, envp)|
    {
      ArgcAt(mem, sp, argv, envp);
      HeadSize(argv, envp);
      address := sp;
      var data := mem[address];
      address := address + 1 + data + 1;
      ghost var i := 0;
      EnvpAt(mem, sp, argv, envp, 0);
      data := mem[address];
      address := address + 1;
      while data != 0
        invariant 0 <= i <= |envp| && address == sp + |argv| + 3 + i
        invariant data == 0 <==> i == |envp|
        decreases |envp| - i
      {
        i := i + 1;
        EnvpAt(mem, sp, argv, envp, i);
        data := mem[address];
        address := address + 1;
      }
    }

    /** The same walk as the loader makes it, stepping onto the null pointers instead of past them. */
    method LoaderCursor(ghost argv: seq<Word>, ghost envp: seq<Word>, ghost auxv: seq<Vector>) returns (cursor: int)
      requires Layout(mem, sp, argv, envp, auxv)
      ensures cursor == sp + |Head(argv, envp)|
    {
      ArgcAt(mem, sp, argv, envp);
      HeadSize(argv, envp);
      cursor := sp + mem[sp] + 1;
      ghost var i := 0;
      cursor := cursor + 1;
      EnvpAt(mem, sp, argv, envp, 0);
      while mem[cursor] != 0
        invariant 0 <= i <= |envp| && cursor == sp + |argv| + 2 + i
        invariant cursor in mem && (mem[cursor] == 0 <==> i == |envp|)
        decreases |envp| - i
      {
        cursor := cursor + 1;
        i := i + 1;
        EnvpAt(mem, sp, argv, envp, i);
      }
      cursor := cursor + 1;
    }

    /** fetch_elf_aux_vectors */
    method FetchElfAuxVectors(start: int, ghost auxv: seq<Vector>) returns (vectors: seq<Vector>)
      requires HoldsVectors(mem, start, auxv) && Terminated(auxv)
      ensures vectors == auxv
    {
      vectors := [];
      var address := start;
      NextEntry(mem, start, auxv, 0);
      while mem[address] != AT_NULL
        invariant |vectors| <= |auxv| && vectors == auxv[..|vectors|] && address == start + 2 * |vectors|
        invariant EntryAt(mem, address, auxv, |vectors|)
        invariant mem[address] == AT_NULL <==> |vectors| == |auxv|
        decreases |auxv| - |vectors|
      {
        vectors := vectors + [Vector(mem[address], mem[address + 1])];
        address := address + 2;
        NextEntry(mem, start, auxv, |vectors|);
      }
    }

    /** poke_word, where memory is mapped. */
    method PokeWord(at: int, value: Word) returns (ok: bool)
      modifies this`mem
      ensures ok == (at in old(mem))
      ensures mem == if ok then Put(old(mem), at, [value]) else old(mem)
    {
      ok := at in mem;
      if ok {
        mem := Put(mem, at, [value]);
      }
    }

    /** push_elf_aux_vectors */
    method PushElfAuxVectors(vectors: seq<Vector>, start: int)
      requires Terminated(vectors) && Mapped(mem, start, 2 * |vectors| + 2)
      modifies this`mem
      ensures mem == Put(old(mem), start, Pushed(vectors))
    {
      var address := start;
      var ok;
      assert Put(mem, start, Pairs([])) == mem;
      for i := 0 to |vectors|
        invariant address == start + 2 * i
        invariant mem == Put(old(mem), start, Pairs(vectors[..i]))
      {
        PutVector(old(mem), start, vectors, i);
        ok := PokeWord(address, vectors[i].kind);
        ok := PokeWord(address + 1, vectors[i].value);
        address := address + 2;
      }
      assert vectors[..|vectors|] == vectors;
      PutTwo(old(mem), start, Pairs(vectors), AT_NULL, 0);
      ok := PokeWord(address, AT_NULL);
      ok := PokeWord(address + 1, 0);
    }

    /** The loop that edits the vectors; `stopped` when it ended at an AT_RANDOM. */
    method EditVectors(config: Config, auxv: seq<Vector>) returns (vectors: seq<Vector>, stopped: bool)
      ensures vectors == EditedUpTo(config, auxv, Reach(config, auxv, 0))
      ensures stopped <==> Reach(config, auxv, 0) < |auxv|
    {
      vectors := auxv;
      assert auxv == EditedUpTo(config, auxv, 0);
      for i := 0 to |auxv|
        invariant vectors == EditedUpTo(config, auxv, i)
        invariant Reach(config, auxv, 0) == Reach(config, auxv, i)
      {
        var v := vectors[i];
        if v.kind == AT_SYSINFO_EHDR || v.kind == AT_SYSINFO {
          vectors := vectors[i := Vector(AT_IGNORE, 0)];
        } else if v.kind == AT_HWCAP {
          if config.hwcap != NO_HWCAP {
            vectors := vectors[i := v.(value := config.hwcap)];
          }
        } else if v.kind == AT_RANDOM && config.actualRelease != 0 {
          return vectors, true;
        }
      }
      stopped := false;
    }

    /** adjust_elf_auxv: argc, argv[] and envp[] are what they were as seen from the stack pointer, the
        vectors are the adjusted ones, and nothing else in memory changes. Without room for one more
        vector below the stack pointer, only the stack pointer moves, onto what is not mapped. */
    method AdjustElfAuxv(config: Config, ghost argv: seq<Word>, ghost envp: seq<Word>, ghost auxv: seq<Vector>)
      requires Layout(mem, sp, argv, envp, auxv)
      requires 0 <= (sp + |Head(argv, envp)|) * wordSize < 0x1_0000_0000_0000_0000
      modifies this
      ensures sp == old(sp) - (if Adds(config, auxv) then 2 else 0)
      ensures if Adds(config, auxv) && !Mapped(old(mem), sp, 2) then mem == old(mem)
              else Arrived(config, argv, envp, auxv, wordSize, old(mem), old(sp), mem, sp)
    {
      var vectorsAddress := GetElfAuxVectorsAddress(argv, envp, auxv);
      var fetched := FetchElfAuxVectors(vectorsAddress, auxv);
      var vectors, stopped := EditVectors(config, fetched);
      AdjustedTerminated(config, auxv, vectorsAddress * wordSize);
      VectorsMapped(mem, vectorsAddress, auxv);
      if stopped || !NeedsKompat(config, RELEASE_2_6_29) {
        PushedInPlace(mem, sp, argv, envp, vectors);
        PushElfAuxVectors(vectors, vectorsAddress);
        Arrives(config, argv, envp, auxv, wordSize, old(mem), old(sp), mem, sp, vectors, vectorsAddress);
      } else {
        vectors := vectors + [Vector(AT_RANDOM, vectorsAddress * wordSize)];
        MoveDown(vectorsAddress, vectors, argv, envp);
        if Mapped(old(mem), sp, 2) {
          Arrives(config, argv, envp, auxv, wordSize, old(mem), old(sp), mem, sp, vectors, vectorsAddress);
        }
      }
    }

    /** argv[] and envp[] one vector downward, and all the vectors after them. */
    method MoveDown(vectorsAddress: int, vectors: seq<Vector>, ghost argv: seq<Word>, ghost envp: seq<Word>)
      requires |argv| < 0x1_0000_0000 && Holds(mem, sp, Head(argv, envp))
      requires Nulls(envp) == {}
      requires vectorsAddress == sp + |Head(argv, envp)| && Terminated(vectors)
      requires Mapped(mem, vectorsAddress, 2 * |vectors|)
      modifies this
      ensures sp == old(sp) - 2
      ensures !Mapped(old(mem), sp, 2) ==> mem == old(mem)
      ensures Mapped(old(mem), sp, 2) ==>
                Layout(mem, sp, argv, envp, vectors) && SameOutside(old(mem), mem, sp, vectorsAddress + 2 * |vectors|)
    {
      ghost var before := mem;
      var argvEnvp := ReadSlots(sp, vectorsAddress - sp, argv, envp);
      sp := sp - 2;
      if sp !in mem || sp + 1 !in mem {
        assert !Mapped(mem, sp, 2);
        return;
      }
      AllMapped(before, sp, argv, envp, 2 * |vectors|);
      mem := Put(mem, sp, argvEnvp);
      PutPut(before, sp, argvEnvp, Pushed(vectors));
      PushElfAuxVectors(vectors, vectorsAddress - 2);
      PushedBelow(before, sp, argv, envp, vectors);
    }

    method ReadSlots(at: int, size: nat, ghost argv: seq<Word>, ghost envp: seq<Word>) returns (words: seq<Word>)
      requires |argv| < 0x1_0000_0000 && Holds(mem, at, Head(argv, envp)) && size == |Head(argv, envp)|
      ensures words == Head(argv, envp)
    {
      words := [];
      ghost var head := Head(argv, envp);
      while |words| < size
        invariant |words| <= size && words == head[..|words|]
      {
        WordOfHead(mem, at, head, |words|);
        words := words + [mem[at + |words|]];
      }
    }

    /** The loader's own pass over the vectors. The loop looks for the null vector after its first turn
        only: an empty list is passed by, and what lies `beyond` it, up to a null word where a type would
        be, is patched in its place. */
    method PatchVectors(start: Start, ghost argv: seq<Word>, ghost envp: seq<Word>, ghost auxv: seq<Vector>,
                        ghost beyond: seq<Vector>)
      requires Layout(mem, sp, argv, envp, auxv)
      requires auxv == [] ==> Terminated(beyond) && HoldsVectors(mem, sp + |Head(argv, envp)| + 2, beyond)
      modifies this`mem
      ensures var patched := if auxv == [] then [] else PatchedAll(start, FirstArgument(argv), auxv);
              Layout(mem, sp, argv, envp, patched)
      ensures var aux := sp + |Head(argv, envp)|;
              if auxv == [] then
                HoldsVectors(mem, aux + 2, PatchedAll(start, FirstArgument(argv), beyond))
                && SameOutside(old(mem), mem, aux + 2, aux + 2 + 2 * |beyond|)
              else SameOutside(old(mem), mem, aux, aux + 2 * |auxv|)
    {
      ghost var aux := sp + |Head(argv, envp)|;
      HeadSize(argv, envp);
      WordOfHead(mem, sp, Head(argv, envp), 1);
      var atExecfn := mem[sp + 1];
      assert atExecfn == FirstArgument(argv);
      var cursor := LoaderCursor(argv, envp, auxv);
      ghost var before := mem;
      NextEntry(mem, aux, auxv, 0);
      PatchOne(start, atExecfn, cursor);
      cursor := cursor + 2;
      ghost var vs, base, done := auxv, aux, 1;
      if auxv == [] {
        vs, base, done := beyond, aux + 2, 0;
        assert mem == before;
        assert PatchedTo(start, atExecfn, beyond, 0) == beyond;
      } else {
        assert PatchedTo(start, atExecfn, auxv, 0) == auxv;
        PatchedNext(before, start, atExecfn, auxv, 0, aux, mem);
        PatchedTerminated(start, atExecfn, auxv, |auxv|);
      }
      PatchRest(start, atExecfn, cursor, base, vs, done);
      KeptHead(before, mem, sp, Head(argv, envp), base + 2 * |vs|);
      if auxv == [] {
        KeptEmpty(before, mem, aux, base + 2 * |vs|);
      }
    }

    /** The value of a vector of a known type is replaced, any other one is written back. */
    method PatchOne(start: Start, atExecfn: Word, cursor: int)
      requires cursor in mem && cursor + 1 in mem
      modifies this`mem
      ensures mem == Put(old(mem), cursor + 1, [Patched(start, atExecfn, Vector(old(mem)[cursor], old(mem)[cursor + 1])).value])
    {
      mem := Put(mem, cursor + 1, [Patched(start, atExecfn, Vector(mem[cursor], mem[cursor + 1])).value]);
    }

    /** The turns of the loop from the second one on. */
    method PatchRest(start: Start, atExecfn: Word, second: int, ghost base: int, ghost vs: seq<Vector>, ghost done: nat)
      requires done <= |vs| && second == base + 2 * done && Terminated(vs)
      requires HoldsVectors(mem, base, PatchedTo(start, atExecfn, vs, done))
      modifies this`mem
      ensures HoldsVectors(mem, base, PatchedAll(start, atExecfn, vs))
      ensures SameOutside(old(mem), mem, base, base + 2 * |vs|)
    {
      var cursor := second;
      ghost var i := done;
      PatchedTerminated(start, atExecfn, vs, i);
      NextEntry(mem, base, PatchedTo(start, atExecfn, vs, i), i);
      while mem[cursor] != AT_NULL
        invariant 0 <= i <= |vs| && cursor == base + 2 * i && cursor in mem && (mem[cursor] == AT_NULL <==> i == |vs|)
        invariant HoldsVectors(mem, base, PatchedTo(start, atExecfn, vs, i))
        invariant SameOutside(old(mem), mem, base, base + 2 * |vs|)
        decreases |vs| - i
      {
        ghost var mem0 := mem;
        HoldsEntry(mem, base, PatchedTo(start, atExecfn, vs, i), i);
        PatchOne(start, atExecfn, cursor);
        PatchedNext(mem0, start, atExecfn, vs, i, base, mem);
        cursor := cursor + 2;
        i := i + 1;
        PatchedTerminated(start, atExecfn, vs, i);
        NextEntry(mem, base, PatchedTo(start, atExecfn, vs, i), i);
      }
    }
  }

  lemma KeptEmpty(mem: Slots, mem': Slots, at: int, high: int)
    requires HoldsVectors(mem, at, []) && SameOutside(mem, mem', at + 2, high)
    ensures HoldsVectors(mem', at, [])
  {
    HoldsEntry(mem, at, [], 0);
  }

  lemma AllMapped(mem: Slots, sp: int, argv: seq<Word>, envp: seq<Word>, n: nat)
    requires |argv| < 0x1_0000_0000 && Mapped(mem, sp, 2)
    requires Holds(mem, sp + 2, Head(argv, envp)) && Mapped(mem, sp + 2 + |Head(argv, envp)|, n)
    ensures Mapped(mem, sp, |Head(argv, envp)| + n + 2)
  {
    HoldsAll(mem, sp + 2, Head(argv, envp));
  }

  lemma KeptHead(mem: Slots, mem': Slots, sp: int, head: seq<Word>, high: int)
    requires Holds(mem, sp, head) && SameOutside(mem, mem', sp + |head|, high)
    ensures Holds(mem', sp, head)
  {
    HoldsAll(mem, sp, head);
    HoldsAll(mem', sp, head);
  }

  // ---- the loader ----------------------------------------------------------------------

  /** What the last statement of a load script says about the program. */
  datatype Start = Start(atPhdr: Word, atPhent: Word, atPhnum: Word, atEntry: Word, atBase: Word)

  /** argv[0], or the null pointer in its place. */
  function FirstArgument(argv: seq<Word>): Word {
    if argv == [] then 0 else argv[0]
  }

  function Patched(start: Start, atExecfn: Word, v: Vector): (r: Vector)
    ensures r.kind == v.kind
  {
    if v.kind == AT_PHDR then v.(value := start.atPhdr)
    else if v.kind == AT_PHENT then v.(value := start.atPhent)
    else if v.kind == AT_PHNUM then v.(value := start.atPhnum)
    else if v.kind == AT_ENTRY then v.(value := start.atEntry)
    else if v.kind == AT_BASE then v.(value := start.atBase)
    else if v.kind == AT_EXECFN then v.(value := atExecfn)
    else v
  }

  function PatchedTo(start: Start, atExecfn: Word, auxv: seq<Vector>, n: nat): (r: seq<Vector>)
    requires n <= |auxv|
    ensures |r| == |auxv|
    ensures forall k :: 0 <= k < |auxv| ==> r[k] == if k < n then Patched(start, atExecfn, auxv[k]) else auxv[k]
  {
    seq(|auxv|, k requires 0 <= k < |auxv| => if k < n then Patched(start, atExecfn, auxv[k]) else auxv[k])
  }

  function PatchedAll(start: Start, atExecfn: Word, auxv: seq<Vector>): seq<Vector> {
    PatchedTo(start, atExecfn, auxv, |auxv|)
  }

  lemma PatchedTerminated(start: Start, atExecfn: Word, auxv: seq<Vector>, n: nat)
    requires Terminated(auxv) && n <= |auxv|
    ensures Terminated(PatchedTo(start, atExecfn, auxv, n))
  {
    var r := PatchedTo(start, atExecfn, auxv, n);
    forall i: nat | i < |r| ensures r[i].kind != AT_NULL {
      TerminatedAt(auxv, i);
    }
  }

  lemma PatchedNext(mem: Slots, start: Start, atExecfn: Word, auxv: seq<Vector>, i: nat, at: int, mem': Slots)
    requires i < |auxv| && HoldsVectors(mem, at, PatchedTo(start, atExecfn, auxv, i))
    requires mem' == Put(mem, at + 2 * i + 1, [Patched(start, atExecfn, auxv[i]).value])
    ensures HoldsVectors(mem', at, PatchedTo(start, atExecfn, auxv, i + 1))
  {
    var now, next := PatchedTo(start, atExecfn, auxv, i), PatchedTo(start, atExecfn, auxv, i + 1);
    forall k: nat | k <= |next| ensures EntryAt(mem', at + 2 * k, next, k) {
      HoldsEntry(mem, at, now, k);
    }
  }

  ghost predicate SameOutside(mem: Slots, mem': Slots, low: int, high: int) {
    mem'.Keys == mem.Keys && forall k :: k in mem && !(low <= k < high) ==> mem'[k] == mem[k]
  }

  lemma VectorsMapped(mem: Slots, at: int, auxv: seq<Vector>)
    requires HoldsVectors(mem, at, auxv)
    ensures Mapped(mem, at, 2 * |auxv| + 2)
  {
    forall k | at <= k < at + 2 * |auxv| + 2 ensures k in mem {
      var i := (k - at) / 2;
      assert k == at + 2 * i || k == at + 2 * i + 1;
      HoldsEntry(mem, at, auxv, i);
    }
  }

  /** Vectors pushed where they were. */
  lemma PushedInPlace(mem: Slots, sp: int, argv: seq<Word>, envp: seq<Word>, vectors: seq<Vector>)
    requires |argv| < 0x1_0000_0000 && Nulls(envp) == {} && Terminated(vectors)
    requires Holds(mem, sp, Head(argv, envp))
    requires Mapped(mem, sp + |Head(argv, envp)|, 2 * |vectors| + 2)
    ensures var aux := sp + |Head(argv, envp)|;
            var mem' := Put(mem, aux, Pushed(vectors));
            Layout(mem', sp, argv, envp, vectors) && SameOutside(mem, mem', aux, aux + 2 * |vectors| + 2)
  {
    var aux := sp + |Head(argv, envp)|;
    var mem' := Put(mem, aux, Pushed(vectors));
    PutHolds(mem, aux, Pushed(vectors));
    PushedHolds(mem', aux, vectors);
    KeptHead(mem, mem', sp, Head(argv, envp), aux + 2 * |vectors| + 2);
  }

  /** Everything pushed from the new stack pointer on. */
  lemma PushedBelow(mem: Slots, sp: int, argv: seq<Word>, envp: seq<Word>, vectors: seq<Vector>)
    requires |argv| < 0x1_0000_0000 && Nulls(envp) == {} && Terminated(vectors)
    requires Mapped(mem, sp, |Head(argv, envp)| + 2 * |vectors| + 2)
    ensures var all := Head(argv, envp) + Pushed(vectors);
            var mem' := Put(mem, sp, all);
            Layout(mem', sp, argv, envp, vectors) && SameOutside(mem, mem', sp, sp + |Head(argv, envp)| + 2 * |vectors| + 2)
  {
    var head := Head(argv, envp);
    var mem' := Put(mem, sp, head + Pushed(vectors));
    PutHolds(mem, sp, head + Pushed(vectors));
    HoldsBoth(mem', sp, head, Pushed(vectors));
    PushedHolds(mem', sp + |head|, vectors);
  }
}
