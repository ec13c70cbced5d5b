/** The seccomp filter generator of src/syscall/seccomp.c: the lists of
    filtered syscalls are merged, then compiled into a classic BPF program that
    is judged here by an interpreter of that instruction set. */
module Seccomp {
  import opened Common
  import opened Bits

  // ----- Neutral syscall numbers and their per-ABI tables (sysnum.c) -----

  type Sysnum = nat
  const VOID: Sysnum := 0

  const UINT32_MAX: nat := 0xFFFF_FFFF
  const SYSCALL_AVOIDER: nat := 0xFFFF_FFFF_FFFF_FFFE
  const ERANGE: int := 34
  const EINVAL: int := 22

  /** One table of neutral numbers, indexed by architecture number minus `offset`. */
  datatype Abi = Abi(table: seq<Sysnum>, offset: nat)

  /** Architecture number of a neutral number: the first table slot that holds it. */
  function Detranslate(abi: Abi, v: Sysnum): (n: nat)
    ensures v == VOID || v !in abi.table ==> n == SYSCALL_AVOIDER
    ensures v != VOID && v in abi.table ==>
              var i := n - abi.offset;
              0 <= i < |abi.table| && abi.table[i] == v && v !in abi.table[..i]
  {
    if v == VOID then SYSCALL_AVOIDER else DetranslateFrom(abi, v, 0)
  }

  function DetranslateFrom(abi: Abi, v: Sysnum, i: nat): (n: nat)
    requires i <= |abi.table| && v !in abi.table[..i]
    ensures v !in abi.table ==> n == SYSCALL_AVOIDER
    ensures v in abi.table ==>
              var k := n - abi.offset;
              0 <= k < |abi.table| && abi.table[k] == v && v !in abi.table[..k]
    decreases |abi.table| - i
  {
    if i == |abi.table| then SYSCALL_AVOIDER
    else if abi.table[i] == v then i + abi.offset
    else DetranslateFrom(abi, v, i + 1)
  }

  method DetranslateSysnum(abi: Abi, v: Sysnum) returns (n: nat)
    ensures n == Detranslate(abi, v)
  {
    if v == VOID {
      return SYSCALL_AVOIDER;
    }
    for i := 0 to |abi.table|
      invariant v !in abi.table[..i]
      invariant DetranslateFrom(abi, v, i) == Detranslate(abi, v)
    {
      if abi.table[i] == v {
        return i + abi.offset;
      }
    }
    n := SYSCALL_AVOIDER;
  }

  // ----- Lists of filtered syscalls -----

  type Flags = nat

  datatype FilteredSysnum = FilteredSysnum(value: Sysnum, flags: Flags)

  /** A C array of filtered syscalls: the one entry with value VOID is the last. */
  ghost predicate Terminated(s: seq<FilteredSysnum>) {
    && |s| > 0
    && s[|s| - 1].value == VOID
    && forall i :: 0 <= i < |s| - 1 ==> s[i].value != VOID
  }

  /** The entries of a terminated array. */
  function Items(s: seq<FilteredSysnum>): seq<FilteredSysnum>
    requires |s| > 0
  {
    s[..|s| - 1]
  }

  predicate Requests(s: seq<FilteredSysnum>, v: Sysnum) {
    exists i :: 0 <= i < |s| && s[i].value == v
  }

  /** The OR of the flags of every entry for `v`. */
  function FlagsFor(s: seq<FilteredSysnum>, v: Sysnum): Flags {
    if s == [] then 0
    else Or(FlagsFor(s[..|s| - 1], v), if s[|s| - 1].value == v then s[|s| - 1].flags else 0)
  }

  ghost predicate Distinct(s: seq<FilteredSysnum>) {
    forall i, j :: 0 <= i < j < |s| ==> s[i].value != s[j].value
  }

  lemma {:induction false} FlagsForAbsent(s: seq<FilteredSysnum>, v: Sysnum)
    requires !Requests(s, v)
    ensures FlagsFor(s, v) == 0
  {
    if s != [] {
      assert forall i :: 0 <= i < |s| - 1 ==> s[..|s| - 1][i] == s[i];
      FlagsForAbsent(s[..|s| - 1], v);
    }
  }

  /** In a list without duplicates, an entry's own flags are all the flags of its value. */
  lemma {:induction false} FlagsForDistinct(s: seq<FilteredSysnum>, j: nat)
    requires Distinct(s) && j < |s|
    ensures FlagsFor(s, s[j].value) == s[j].flags
  {
    var s' := s[..|s| - 1];
    if j == |s| - 1 {
      FlagsForAbsent(s', s[j].value);
    } else {
      assert s'[j] == s[j];
      FlagsForDistinct(s', j);
    }
  }

  /** Merging one flag word into entry `j` of a list without duplicates. */
  lemma FlagsForUpdate(s: seq<FilteredSysnum>, j: nat, f: Flags, v: Sysnum)
    requires Distinct(s) && j < |s|
    ensures var t := s[j := s[j].(flags := Or(s[j].flags, f))];
            && Distinct(t)
            && (Requests(t, v) <==> Requests(s, v))
            && FlagsFor(t, v) == Or(FlagsFor(s, v), if s[j].value == v then f else 0)
  {
    var t := s[j := s[j].(flags := Or(s[j].flags, f))];
    assert forall i :: 0 <= i < |s| ==> t[i].value == s[i].value;
    if !Requests(s, v) {
      FlagsForAbsent(s, v);
      FlagsForAbsent(t, v);
    } else {
      var i :| 0 <= i < |s| && s[i].value == v;
      assert t[i].value == v;
      FlagsForDistinct(s, i);
      FlagsForDistinct(t, i);
    }
  }

  /** What `merged` has to be once `requested` was merged into it. */
  ghost predicate IsMergeOf(merged: seq<FilteredSysnum>, requested: seq<FilteredSysnum>) {
    && Distinct(merged)
    && forall v: Sysnum :: (Requests(merged, v) <==> Requests(requested, v)) && FlagsFor(merged, v) == FlagsFor(requested, v)
  }

  /** One round of the merge: either a new last entry, or flags added to an existing one. */
  lemma MergeStep(merged: seq<FilteredSysnum>, requested: seq<FilteredSysnum>, e: FilteredSysnum, j: nat)
    requires IsMergeOf(merged, requested)
    requires j <= |merged| && forall k :: 0 <= k < j ==> merged[k].value != e.value
    requires j < |merged| ==> merged[j].value == e.value
    ensures var next := if j == |merged| then merged + [e] else merged[j := merged[j].(flags := Or(merged[j].flags, e.flags))];
            IsMergeOf(next, requested + [e])
  {
    var next := if j == |merged| then merged + [e] else merged[j := merged[j].(flags := Or(merged[j].flags, e.flags))];
    assert Distinct(next);
    forall v: Sysnum
      ensures (Requests(next, v) <==> Requests(requested + [e], v)) && FlagsFor(next, v) == FlagsFor(requested + [e], v)
    {
      RequestsSnoc(requested, e, v);
      assert (requested + [e])[..|requested|] == requested;
      if j == |merged| {
        RequestsSnoc(merged, e, v);
        assert next[..|merged|] == merged;
      } else {
        FlagsForUpdate(merged, j, e.flags, v);
      }
    }
  }

  lemma RequestsSnoc(s: seq<FilteredSysnum>, e: FilteredSysnum, v: Sysnum)
    ensures Requests(s + [e], v) <==> Requests(s, v) || e.value == v
  {
    var t := s + [e];
    assert t[|s|] == e;
    if Requests(s, v) {
      var i :| 0 <= i < |s| && s[i].value == v;
      assert t[i].value == v;
    }
  }

  /** The growing list of filtered syscalls: a terminated array, absent at first. */
  class SysnumList {
    var sysnums: seq<FilteredSysnum>
    ghost var requested: seq<FilteredSysnum>

    ghost predicate Valid()
      reads this
    {
      && Terminated(sysnums)
      && IsMergeOf(Items(sysnums), requested)
    }

    constructor ()
      ensures Valid() && requested == []
    {
      sysnums := [FilteredSysnum(VOID, 0)];
      requested := [];
    }

    method MergeFilteredSysnums(newSysnums: seq<FilteredSysnum>)
      requires Valid() && Terminated(newSysnums)
      modifies this
      ensures Valid()
      ensures requested == old(requested) + Items(newSysnums)
    {
      var i := 0;
      while newSysnums[i].value != VOID
        invariant 0 <= i < |newSysnums|
        invariant Valid() && requested == old(requested) + newSysnums[..i]
        decreases |newSysnums| - i
      {
        var j := 0;
        while sysnums[j].value != VOID && sysnums[j].value != newSysnums[i].value
          invariant 0 <= j < |sysnums|
          invariant forall k :: 0 <= k < j ==> sysnums[k].value != VOID && sysnums[k].value != newSysnums[i].value
          decreases |sysnums| - j
        {
          j := j + 1;
        }

        ghost var before := Items(sysnums);
        MergeStep(before, requested, newSysnums[i], j);
        if sysnums[j].value == VOID {
          sysnums := sysnums[..j] + [newSysnums[i]] + [FilteredSysnum(VOID, 0)];
          assert Items(sysnums) == before + [newSysnums[i]];
        } else {
          sysnums := sysnums[j := sysnums[j].(flags := Or(sysnums[j].flags, newSysnums[i].flags))];
          assert Items(sysnums) == before[j := before[j].(flags := Or(before[j].flags, newSysnums[i].flags))];
        }
        requested := requested + [newSysnums[i]];
        assert newSysnums[..i + 1] == newSysnums[..i] + [newSysnums[i]];
        i := i + 1;
      }
    }
  }

  // ----- Classic BPF -----

  const SECCOMP_RET_KILL: nat := 0
  const SECCOMP_RET_TRACE: nat := 0x7FF0_0000
  const SECCOMP_RET_ALLOW: nat := 0x7FFF_0000

  const NR_OFFSET: nat := 0
  const ARCH_OFFSET: nat := 4

  datatype Insn =
    | LdWAbs(offset: nat)
    | JeqK(k: nat, jt: nat, jf: nat)
    | Ja(k: nat)
    | RetK(ret: nat)

  datatype SeccompData = SeccompData(nr: nat, arch: nat)

  function Load(d: SeccompData, offset: nat): nat {
    if offset == NR_OFFSET then d.nr else if offset == ARCH_OFFSET then d.arch else 0
  }

  /** The value returned by program `p` from statement `pc` on; None if it runs off its end. */
  function Run(p: seq<Insn>, pc: nat, acc: nat, d: SeccompData): (r: Option<nat>)
    decreases |p| - pc
  {
    if pc >= |p| then None
    else match p[pc]
      case LdWAbs(offset) => Run(p, pc + 1, Load(d, offset), d)
      case JeqK(k, jt, jf) => Run(p, pc + 1 + (if acc == k then jt else jf), acc, d)
      case Ja(k) => Run(p, pc + 1 + k, acc, d)
      case RetK(v) => Some(v)
  }

  /** Only statements from `pc` on matter: a program can be run from the middle of another. */
  lemma {:induction false} RunSuffix(a: seq<Insn>, b: seq<Insn>, pc: nat, acc: nat, d: SeccompData)
    ensures Run(a + b, |a| + pc, acc, d) == Run(b, pc, acc, d)
    decreases |b| - pc
  {
    if pc < |b| {
      assert (a + b)[|a| + pc] == b[pc];
      match b[pc]
      case LdWAbs(offset) => RunSuffix(a, b, pc + 1, Load(d, offset), d);
      case JeqK(k, jt, jf) => RunSuffix(a, b, pc + 1 + (if acc == k then jt else jf), acc, d);
      case Ja(k) => RunSuffix(a, b, pc + 1 + k, acc, d);
      case RetK(v) =>
    }
  }

  // ----- The compiler, as a function from sections to statements -----

  datatype Entry = Entry(nr: nat, flags: Flags)
  datatype Arch = Arch(value: nat, abis: seq<Abi>)

  /** `SECCOMP_RET_TRACE + flag`, the flag word narrowed to a C int first. */
  function TraceValue(flags: Flags): nat {
    (SECCOMP_RET_TRACE + flags % 0x1_0000_0000) % 0x1_0000_0000
  }

  function TraceStatements(e: Entry): seq<Insn> {
    [JeqK(e.nr, 0, 1), RetK(TraceValue(e.flags))]
  }

  function TraceAll(es: seq<Entry>): (p: seq<Insn>)
    ensures |p| == 2 * |es|
  {
    if es == [] then [] else TraceAll(es[..|es| - 1]) + TraceStatements(es[|es| - 1])
  }

  function SectionStart(arch: nat, n: nat): seq<Insn> {
    [LdWAbs(ARCH_OFFSET), JeqK(arch, 1, 0), Ja(1 + 2 * n + 1), LdWAbs(NR_OFFSET)]
  }

  function Section(arch: nat, es: seq<Entry>): (p: seq<Insn>)
    ensures |p| == 5 + 2 * |es|
  {
    SectionStart(arch, |es|) + TraceAll(es) + [RetK(SECCOMP_RET_ALLOW)]
  }

  /** What is traced for one request: its number, if the ABI has one for it. */
  function OneEntry(abi: Abi, item: FilteredSysnum): seq<Entry> {
    var n := Detranslate(abi, item.value);
    if n == SYSCALL_AVOIDER then [] else [Entry(n, item.flags)]
  }

  /** The traced numbers of one ABI, in the order of the list. */
  function AbiEntries(abi: Abi, items: seq<FilteredSysnum>): seq<Entry> {
    if items == [] then []
    else AbiEntries(abi, items[..|items| - 1]) + OneEntry(abi, items[|items| - 1])
  }

  function Entries(abis: seq<Abi>, items: seq<FilteredSysnum>): seq<Entry> {
    if abis == [] then []
    else Entries(abis[..|abis| - 1], items) + AbiEntries(abis[|abis| - 1], items)
  }

  function Sections(archs: seq<Arch>, items: seq<FilteredSysnum>): seq<Insn> {
    if archs == [] then []
    else
      var last := archs[|archs| - 1];
      Sections(archs[..|archs| - 1], items) + Section(last.value, Entries(last.abis, items))
  }

  function Program(archs: seq<Arch>, items: seq<FilteredSysnum>): seq<Insn> {
    Sections(archs, items) + [RetK(SECCOMP_RET_KILL)]
  }

  /** The sanity checks of the generator: every number and jump fits a 32-bit field, and the
      first statement of each section body fits the 16-bit `len` it is remembered in. */
  ghost predicate SectionFits(arch: Arch, items: seq<FilteredSysnum>, start: nat) {
    var es := Entries(arch.abis, items);
    && start + 4 < 0x1_0000
    && 1 + 2 * |es| <= UINT32_MAX - 1
    && AllFit(es)
  }

  ghost predicate AllFit(es: seq<Entry>) {
    TooLarge(es) == {}
  }

  ghost function TooLarge(es: seq<Entry>): set<Entry> {
    set e | e in es && e.nr > UINT32_MAX
  }

  ghost predicate Fits(archs: seq<Arch>, items: seq<FilteredSysnum>) {
    archs == [] ||
    (var last, rest := archs[|archs| - 1], archs[..|archs| - 1];
     Fits(rest, items) && SectionFits(last, items, |Sections(rest, items)|))
  }

  /** struct sock_fprog: a growing array of statements and a 16-bit length. */
  class ProgramFilter {
    var filter: seq<Insn>
    var len: nat

    constructor ()
      ensures filter == [] && len == 0
    {
      filter := [];
      len := 0;
    }

    method AddStatements(statements: seq<Insn>)
      modifies `filter
      ensures filter == old(filter) + statements
    {
      for i := 0 to |statements|
        invariant filter == old(filter) + statements[..i]
      {
        filter := filter + [statements[i]];
      }
    }

    method AddTraceSyscall(syscall: nat, flags: Flags) returns (status: int)
      modifies `filter
      ensures status == if syscall > UINT32_MAX then -ERANGE else 0
      ensures filter == if status < 0 then old(filter) else old(filter) + TraceStatements(Entry(syscall, flags))
    {
      if syscall > UINT32_MAX {
        return -ERANGE;
      }
      AddStatements([JeqK(syscall, 0, 1), RetK(TraceValue(flags))]);
      status := 0;
    }

    method StartArchSection(arch: nat, n: nat) returns (status: int)
      modifies this
      ensures status == if 1 + 2 * n > UINT32_MAX - 1 then -ERANGE else 0
      ensures status == 0 ==> filter == old(filter) + SectionStart(arch, n) && len == |filter| % 0x1_0000
    {
      var sectionLength := 1 + n * 2;
      if sectionLength > UINT32_MAX - 1 {
        return -ERANGE;
      }
      AddStatements([LdWAbs(ARCH_OFFSET), JeqK(arch, 1, 0), Ja(sectionLength + 1), LdWAbs(NR_OFFSET)]);
      len := |filter| % 0x1_0000;
      status := 0;
    }

    method EndArchSection(n: nat) returns (status: int)
      modifies `filter
      ensures filter == old(filter) + [RetK(SECCOMP_RET_ALLOW)]
      ensures status == if |filter| - len != 1 + 2 * n then -ERANGE else 0
    {
      AddStatements([RetK(SECCOMP_RET_ALLOW)]);
      status := if |filter| - len != 1 + n * 2 then -ERANGE else 0;
    }

    /** Compile the given list and hand it over to the kernel, which accepts 1 to 4096
        statements and only looks at the first `len` ones. */
    method SetSeccompFilters(archs: seq<Arch>, sysnums: seq<FilteredSysnum>)
      returns (status: int, ghost installed: seq<Insn>)
      requires Terminated(sysnums) && filter == [] && len == 0
      modifies this
      ensures filter == [] && len == 0
      ensures !Fits(archs, Items(sysnums)) ==> status == -ERANGE
      ensures Fits(archs, Items(sysnums)) ==>
                var p := Program(archs, Items(sysnums));
                && installed == p[..|p| % 0x1_0000]
                && status == if 0 < |installed| <= MAX_INSNS then 0 else -EINVAL
    {
      installed := [];
      status := AddArchSections(archs, sysnums);
      if status < 0 {
        FreeProgramFilter();
        return;
      }
      AddStatements([RetK(SECCOMP_RET_KILL)]);
      status, installed := Install();
      FreeProgramFilter();
    }

    /** prctl(2): the kernel reads `len` statements. */
    method Install() returns (status: int, ghost installed: seq<Insn>)
      modifies `len
      ensures installed == filter[..|filter| % 0x1_0000]
      ensures status == if 0 < |installed| <= MAX_INSNS then 0 else -EINVAL
    {
      len := |filter| % 0x1_0000;
      LowBits(|filter|);
      installed := filter[..len];
      status := if 0 < len <= MAX_INSNS then 0 else -EINVAL;
    }

    /** The loop over the handled architectures. */
    method AddArchSections(archs: seq<Arch>, sysnums: seq<FilteredSysnum>) returns (status: int)
      requires Terminated(sysnums) && filter == []
      modifies this
      ensures status == if Fits(archs, Items(sysnums)) then 0 else -ERANGE
      ensures status == 0 ==> filter == Sections(archs, Items(sysnums))
    {
      ghost var items := Items(sysnums);
      var i := 0;
      while i < |archs|
        invariant 0 <= i <= |archs|
        invariant Fits(archs[..i], items)
        invariant filter == Sections(archs[..i], items)
      {
        ArchTurn(archs, items, i);
        status := AddArchSection(archs[i], sysnums);
        if status < 0 {
          return;
        }
        i := i + 1;
      }
      assert archs[..i] == archs;
      status := 0;
    }

    /** One turn of the loop over the handled architectures. */
    method AddArchSection(arch: Arch, sysnums: seq<FilteredSysnum>) returns (status: int)
      requires Terminated(sysnums)
      modifies this
      ensures status == if SectionFits(arch, Items(sysnums), |old(filter)|) then 0 else -ERANGE
      ensures status == 0 ==> filter == old(filter) + Section(arch.value, Entries(arch.abis, Items(sysnums)))
    {
      ghost var start := |filter|;
      ghost var es := Entries(arch.abis, Items(sysnums));
      var n := CountEntries(arch.abis, sysnums);
      status := StartArchSection(arch.value, n);
      if status < 0 {
        return;
      }
      status := AddEntries(arch.abis, sysnums);
      if status < 0 {
        return;
      }
      AppendAssoc(old(filter), SectionStart(arch.value, n), TraceAll(es));
      AppendAssoc(old(filter), SectionStart(arch.value, n) + TraceAll(es), [RetK(SECCOMP_RET_ALLOW)]);
      status := EndArchSection(n);
    }

    method FreeProgramFilter()
      modifies this
      ensures filter == [] && len == 0
    {
      filter, len := [], 0;
    }

    /** Second pass: one pair of statements per traced number. */
    method AddEntries(abis: seq<Abi>, sysnums: seq<FilteredSysnum>) returns (status: int)
      requires Terminated(sysnums)
      modifies `filter
      ensures len == old(len)
      ensures var es := Entries(abis, Items(sysnums));
              && (status == if AllFit(es) then 0 else -ERANGE)
              && (status == 0 ==> filter == old(filter) + TraceAll(es))
    {
      ghost var items := Items(sysnums);
      var j := 0;
      while j < |abis|
        invariant 0 <= j <= |abis|
        invariant AllFit(Entries(abis[..j], items))
        invariant len == old(len) && filter == old(filter) + TraceAll(Entries(abis[..j], items))
      {
        assert abis[..j + 1][..j] == abis[..j];
        TraceAllAppend(Entries(abis[..j], items), AbiEntries(abis[j], items));
        AllFitAppend(Entries(abis[..j], items), AbiEntries(abis[j], items));
        AppendAssoc(old(filter), TraceAll(Entries(abis[..j], items)), TraceAll(AbiEntries(abis[j], items)));
        status := AddAbiEntries(abis[j], sysnums);
        if status < 0 {
          EveryAbiFits(abis, items, j);
          return;
        }
        j := j + 1;
      }
      assert abis[..j] == abis;
      status := 0;
    }

    method AddAbiEntries(abi: Abi, sysnums: seq<FilteredSysnum>) returns (status: int)
      requires Terminated(sysnums)
      modifies `filter
      ensures var es := AbiEntries(abi, Items(sysnums));
              && (status == if AllFit(es) then 0 else -ERANGE)
              && (status == 0 ==> filter == old(filter) + TraceAll(es))
    {
      ghost var items := Items(sysnums);
      NothingEmitted(filter, abi, items);
      var k := 0;
      while sysnums[k].value != VOID
        invariant 0 <= k < |sysnums| && Astray(old(filter), abi, items, k, filter) == {}
        decreases |sysnums| - k
      {
        ghost var before := filter;
        status := AddIfHandled(abi, sysnums[k]);
        AbiTurn(old(filter), abi, items, k, before, filter, status);
        if status < 0 {
          return;
        }
        k := k + 1;
      }
      AllEmitted(old(filter), abi, items, filter);
      status := 0;
    }

    /** A number the ABI does not have is passed over. */
    method AddIfHandled(abi: Abi, sysnum: FilteredSysnum) returns (status: int)
      modifies `filter
      ensures status == if AllFit(OneEntry(abi, sysnum)) then 0 else -ERANGE
      ensures filter == if status < 0 then old(filter) else old(filter) + TraceAll(OneEntry(abi, sysnum))
    {
      var syscall := DetranslateSysnum(abi, sysnum.value);
      if syscall == SYSCALL_AVOIDER {
        return 0;
      }
      OnlyEntry(Entry(syscall, sysnum.flags));
      status := AddTraceSyscall(syscall, sysnum.flags);
    }
  }

  ghost function EntriesUpTo(abi: Abi, items: seq<FilteredSysnum>, k: nat): seq<Entry>
    requires k <= |items|
  {
    AbiEntries(abi, items[..k])
  }

  lemma LowBits(n: nat)
    ensures n % 0x1_0000 <= n
  {
  }

  lemma AllFitAppend(a: seq<Entry>, b: seq<Entry>)
    ensures AllFit(a + b) <==> AllFit(a) && AllFit(b)
  {
    assert TooLarge(a + b) == TooLarge(a) + TooLarge(b);
  }

  lemma AppendAssoc(a: seq<Insn>, b: seq<Insn>, c: seq<Insn>)
    ensures (a + b) + c == a + (b + c)
  {
  }

  lemma {:induction false} TraceAllAppend(es: seq<Entry>, es': seq<Entry>)
    ensures TraceAll(es + es') == TraceAll(es) + TraceAll(es')
    decreases |es'|
  {
    if es' == [] {
      assert es + es' == es;
    } else {
      var front := es'[..|es'| - 1];
      assert (es + es')[..|es + es'| - 1] == es + front;
      TraceAllAppend(es, front);
      AppendAssoc(TraceAll(es), TraceAll(front), TraceStatements(es'[|es'| - 1]));
    }
  }

  /** One turn of the inner loop, on entries and on statements. */
  lemma AbiEntriesStep(abi: Abi, items: seq<FilteredSysnum>, k: nat)
    requires k < |items|
    ensures var one := OneEntry(abi, items[k]);
            var es, es' := EntriesUpTo(abi, items, k), EntriesUpTo(abi, items, k + 1);
            es' == es + one && TraceAll(es') == TraceAll(es) + TraceAll(one) && (AllFit(es') <==> AllFit(es) && AllFit(one))
  {
    assert items[..k + 1][..k] == items[..k];
    var es, one := AbiEntries(abi, items[..k]), OneEntry(abi, items[k]);
    TraceAllAppend(es, one);
    AllFitAppend(es, one);
  }

  /** Nothing, if `filter` is `start` and the statements of `k` requests, which all fit. */
  ghost function Astray(start: seq<Insn>, abi: Abi, items: seq<FilteredSysnum>, k: nat, filter: seq<Insn>): set<nat>
    requires k <= |items|
  {
    set i | i == k && !Emitted(start, EntriesUpTo(abi, items, i), filter)
  }

  ghost predicate Emitted(start: seq<Insn>, es: seq<Entry>, filter: seq<Insn>) {
    AllFit(es) && filter == start + TraceAll(es)
  }

  lemma NothingEmitted(start: seq<Insn>, abi: Abi, items: seq<FilteredSysnum>)
    ensures Astray(start, abi, items, 0, start) == {}
  {
    assert EntriesUpTo(abi, items, 0) == [] && TraceAll([]) == [] && start + [] == start;
  }

  lemma {:induction false} AllEmitted(start: seq<Insn>, abi: Abi, items: seq<FilteredSysnum>, filter: seq<Insn>)
    requires Astray(start, abi, items, |items|, filter) == {}
    ensures Emitted(start, AbiEntries(abi, items), filter)
  {
    assert |items| !in Astray(start, abi, items, |items|, filter);
    assert items[..|items|] == items;
  }

  /** One more request, with what its failure means for the whole list. */
  lemma {:induction false} AbiTurn(start: seq<Insn>, abi: Abi, items: seq<FilteredSysnum>, k: nat,
                filter: seq<Insn>, filter': seq<Insn>, status: int)
    requires k < |items| && Astray(start, abi, items, k, filter) == {}
    requires var one := OneEntry(abi, items[k]);
             if AllFit(one) then status == 0 && filter' == filter + TraceAll(one) else status == -ERANGE
    ensures status == 0 ==> Astray(start, abi, items, k + 1, filter') == {}
    ensures status != 0 ==> !AllFit(AbiEntries(abi, items))
  {
    assert k !in Astray(start, abi, items, k, filter);
    AbiEntriesStep(abi, items, k);
    AppendAssoc(start, TraceAll(EntriesUpTo(abi, items, k)), TraceAll(OneEntry(abi, items[k])));
    NoneFits(abi, items, k + 1);
  }

  /** One turn of the outer loop. */
  lemma {:induction false} ArchTurn(archs: seq<Arch>, items: seq<FilteredSysnum>, i: nat)
    requires i < |archs|
    ensures var before, es := Sections(archs[..i], items), Entries(archs[i].abis, items);
            && Sections(archs[..i + 1], items) == before + Section(archs[i].value, es)
            && (Fits(archs[..i + 1], items) <==> Fits(archs[..i], items) && SectionFits(archs[i], items, |before|))
            && (Fits(archs, items) ==> Fits(archs[..i + 1], items))
  {
    assert archs[..i + 1][..i] == archs[..i] && archs[..i + 1][i] == archs[i];
    if !Fits(archs[..i + 1], items) {
      FitsPrefix(archs, items, i + 1);
    }
  }

  lemma OnlyEntry(e: Entry)
    ensures TraceAll([e]) == TraceStatements(e) && (AllFit([e]) <==> e.nr <= UINT32_MAX)
  {
    assert [e][..0] == [];
    assert TooLarge([e]) == if e.nr > UINT32_MAX then {e} else {};
  }

  lemma PartFits(part: seq<Entry>, es: seq<Entry>)
    requires AllFit(es) && forall e :: e in part ==> e in es
    ensures AllFit(part)
  {
    forall e | e in TooLarge(part) ensures e in TooLarge(es) {
    }
  }

  /** Later requests do not make up for one that does not fit. */
  lemma {:induction false} NoneFits(abi: Abi, items: seq<FilteredSysnum>, k: nat)
    requires k <= |items|
    ensures AllFit(AbiEntries(abi, items)) ==> AllFit(EntriesUpTo(abi, items, k))
  {
    if AllFit(AbiEntries(abi, items)) {
      forall e | e in EntriesUpTo(abi, items, k) ensures e in AbiEntries(abi, items) {
        AbiEntriesPrefix(abi, items, k, e);
      }
      PartFits(EntriesUpTo(abi, items, k), AbiEntries(abi, items));
    }
  }

  lemma {:induction false} EveryAbiFits(abis: seq<Abi>, items: seq<FilteredSysnum>, j: nat)
    requires j < |abis|
    ensures AllFit(Entries(abis, items)) ==> AllFit(AbiEntries(abis[j], items))
  {
    if AllFit(Entries(abis, items)) {
      forall e | e in AbiEntries(abis[j], items) ensures e in Entries(abis, items) {
        EntriesPrefix(abis, items, j, e);
      }
      PartFits(AbiEntries(abis[j], items), Entries(abis, items));
    }
  }

  lemma {:induction false} AbiEntriesPrefix(abi: Abi, items: seq<FilteredSysnum>, k: nat, e: Entry)
    requires k <= |items| && e in AbiEntries(abi, items[..k])
    ensures e in AbiEntries(abi, items)
    decreases |items| - k
  {
    if k < |items| {
      assert items[..k + 1][..k] == items[..k];
      AbiEntriesPrefix(abi, items, k + 1, e);
    } else {
      assert items[..k] == items;
    }
  }

  const MAX_INSNS: nat := 4096

  /** First pass: how many numbers will be traced. */
  method CountEntries(abis: seq<Abi>, sysnums: seq<FilteredSysnum>) returns (n: nat)
    requires Terminated(sysnums)
    ensures n == |Entries(abis, Items(sysnums))|
  {
    n := 0;
    for j := 0 to |abis|
      invariant n == |Entries(abis[..j], Items(sysnums))|
    {
      assert abis[..j + 1][..j] == abis[..j];
      var more := CountAbiEntries(abis[j], sysnums);
      n := n + more;
    }
    assert abis[..|abis|] == abis;
  }

  /** The inner loop, over the requests. */
  method CountAbiEntries(abi: Abi, sysnums: seq<FilteredSysnum>) returns (n: nat)
    requires Terminated(sysnums)
    ensures n == |AbiEntries(abi, Items(sysnums))|
  {
    ghost var items := Items(sysnums);
    n := 0;
    var k := 0;
    while sysnums[k].value != VOID
      invariant 0 <= k < |sysnums| && n == |EntriesUpTo(abi, items, k)|
      decreases |sysnums| - k
    {
      AbiEntriesStep(abi, items, k);
      var syscall := DetranslateSysnum(abi, sysnums[k].value);
      if syscall != SYSCALL_AVOIDER {
        n := n + 1;
      }
      k := k + 1;
    }
    assert items[..k] == items;
  }

  lemma {:induction false} FitsPrefix(archs: seq<Arch>, items: seq<FilteredSysnum>, i: nat)
    requires i <= |archs| && !Fits(archs[..i], items)
    ensures !Fits(archs, items)
    decreases |archs| - i
  {
    if i < |archs| {
      assert archs[..i + 1][..i] == archs[..i];
      FitsPrefix(archs, items, i + 1);
    } else {
      assert archs[..i] == archs;
    }
  }

  /** Entries of one ABI are entries of the whole section. */
  lemma {:induction false} EntriesPrefix(abis: seq<Abi>, items: seq<FilteredSysnum>, j: nat, e: Entry)
    requires j < |abis| && e in AbiEntries(abis[j], items)
    ensures e in Entries(abis, items)
    decreases |abis|
  {
    if j < |abis| - 1 {
      EntriesPrefix(abis[..|abis| - 1], items, j, e);
    }
  }

  // ----- What the compiled program does -----

  /** The first entry for a number wins. */
  function FirstMatch(es: seq<Entry>, nr: nat): (f: Option<Flags>)
    ensures f.Some? ==> Entry(nr, f.value) in es
    ensures f.None? ==> forall e :: e in es ==> e.nr != nr
  {
    if es == [] then None
    else
      var f := FirstMatch(es[..|es| - 1], nr);
      if f.Some? then f else if es[|es| - 1].nr == nr then Some(es[|es| - 1].flags) else None
  }

  lemma {:induction false} RunTraceAll(es: seq<Entry>, rest: seq<Insn>, d: SeccompData)
    ensures Run(TraceAll(es) + rest, 0, d.nr, d) ==
            match FirstMatch(es, d.nr) case Some(f) => Some(TraceValue(f)) case None => Run(rest, 0, d.nr, d)
    decreases |es|
  {
    if es == [] {
      assert TraceAll(es) + rest == rest;
    } else {
      var e := es[|es| - 1];
      var es' := es[..|es| - 1];
      var rest' := TraceStatements(e) + rest;
      assert TraceAll(es) + rest == TraceAll(es') + rest';
      RunTraceAll(es', rest', d);
      assert rest'[0] == JeqK(e.nr, 0, 1) && rest'[1] == RetK(TraceValue(e.flags));
      RunSuffix(TraceStatements(e), rest, 0, d.nr, d);
    }
  }

  /** What a section says about a syscall of its own architecture. */
  function SectionVerdict(es: seq<Entry>, nr: nat): nat {
    match FirstMatch(es, nr) case Some(f) => TraceValue(f) case None => SECCOMP_RET_ALLOW
  }

  /** A section either decides, or jumps exactly past its own end. */
  lemma {:induction false} RunSection(arch: nat, es: seq<Entry>, rest: seq<Insn>, acc: nat, d: SeccompData)
    ensures Run(Section(arch, es) + rest, 0, acc, d) ==
            if d.arch == arch then Some(SectionVerdict(es, d.nr)) else Run(rest, 0, d.arch, d)
  {
    var p := Section(arch, es) + rest;
    var start := SectionStart(arch, |es|);
    assert p[0] == start[0] && p[1] == start[1] && p[2] == start[2] && p[3] == start[3];
    if d.arch == arch {
      var tail := [RetK(SECCOMP_RET_ALLOW)] + rest;
      assert p == start + (TraceAll(es) + tail);
      calc {
        Run(p, 0, acc, d);
        Run(p, 1, d.arch, d);
        Run(p, 3, d.arch, d);
        Run(p, 4, d.nr, d);
        { RunSuffix(start, TraceAll(es) + tail, 0, d.nr, d); }
        Run(TraceAll(es) + tail, 0, d.nr, d);
      }
      RunTraceAll(es, tail, d);
      assert tail[0] == RetK(SECCOMP_RET_ALLOW);
    } else {
      calc {
        Run(p, 0, acc, d);
        Run(p, 1, d.arch, d);
        Run(p, 2, d.arch, d);
        Run(p, |Section(arch, es)|, d.arch, d);
        { RunSuffix(Section(arch, es), rest, 0, d.arch, d); }
        Run(rest, 0, d.arch, d);
      }
    }
  }

  /** The verdict of a whole program, given by the section of the first matching architecture. */
  function ProgramVerdict(archs: seq<Arch>, items: seq<FilteredSysnum>, d: SeccompData, otherwise: Option<nat>): Option<nat> {
    if archs == [] then otherwise
    else
      var last := archs[|archs| - 1];
      ProgramVerdict(archs[..|archs| - 1], items, d,
                     if d.arch == last.value then Some(SectionVerdict(Entries(last.abis, items), d.nr)) else otherwise)
  }

  lemma {:induction false} RunSections(archs: seq<Arch>, items: seq<FilteredSysnum>, rest: seq<Insn>, acc: nat,
                                       d: SeccompData, otherwise: Option<nat>)
    requires forall a: nat :: Run(rest, 0, a, d) == otherwise
    ensures Run(Sections(archs, items) + rest, 0, acc, d) == ProgramVerdict(archs, items, d, otherwise)
    decreases |archs|
  {
    if archs == [] {
      assert Sections(archs, items) + rest == rest;
    } else {
      var last := archs[|archs| - 1];
      var es := Entries(last.abis, items);
      var rest' := Section(last.value, es) + rest;
      assert Sections(archs, items) + rest == Sections(archs[..|archs| - 1], items) + rest';
      var otherwise' := if d.arch == last.value then Some(SectionVerdict(es, d.nr)) else otherwise;
      forall a: nat ensures Run(rest', 0, a, d) == otherwise' {
        RunSection(last.value, es, rest, a, d);
      }
      RunSections(archs[..|archs| - 1], items, rest', acc, d, otherwise');
    }
  }

  // ----- What the compiled program means -----

  /** The architectures are different ones, and the ABIs of one of them use different numbers. */
  ghost predicate WellFormed(archs: seq<Arch>) {
    && (forall i, j :: 0 <= i < j < |archs| ==> archs[i].value != archs[j].value)
    && forall i :: 0 <= i < |archs| ==> DisjointAbis(archs[i].abis)
  }

  ghost predicate DisjointAbis(abis: seq<Abi>) {
    forall i, j :: 0 <= i < |abis| && 0 <= j < |abis| && i != j ==>
      abis[i].offset + |abis[i].table| <= abis[j].offset || abis[j].offset + |abis[j].table| <= abis[i].offset
  }

  /** `nr` is the number of the requested syscall `v` in one of the ABIs. */
  ghost predicate Denotes(abis: seq<Abi>, v: Sysnum, nr: nat) {
    exists j :: 0 <= j < |abis| && Detranslate(abis[j], v) == nr
  }

  lemma {:induction false} EntrySource(abis: seq<Abi>, items: seq<FilteredSysnum>, e: Entry) returns (k: nat)
    requires e in Entries(abis, items)
    ensures k < |items| && e.flags == items[k].flags
    ensures e.nr != SYSCALL_AVOIDER && Denotes(abis, items[k].value, e.nr)
  {
    var abi := abis[|abis| - 1];
    if e in Entries(abis[..|abis| - 1], items) {
      k := EntrySource(abis[..|abis| - 1], items, e);
      var j :| 0 <= j < |abis| - 1 && Detranslate(abis[..|abis| - 1][j], items[k].value) == e.nr;
      assert Detranslate(abis[j], items[k].value) == e.nr;
    } else {
      k := AbiEntrySource(abi, items, e);
    }
  }

  lemma {:induction false} AbiEntrySource(abi: Abi, items: seq<FilteredSysnum>, e: Entry) returns (k: nat)
    requires e in AbiEntries(abi, items)
    ensures k < |items| && e.flags == items[k].flags
    ensures e.nr != SYSCALL_AVOIDER && Detranslate(abi, items[k].value) == e.nr
  {
    if e in AbiEntries(abi, items[..|items| - 1]) {
      k := AbiEntrySource(abi, items[..|items| - 1], e);
    } else {
      k := |items| - 1;
    }
  }

  lemma {:induction false} EntryMember(abis: seq<Abi>, items: seq<FilteredSysnum>, j: nat, k: nat)
    requires j < |abis| && k < |items|
    requires Detranslate(abis[j], items[k].value) != SYSCALL_AVOIDER
    ensures Entry(Detranslate(abis[j], items[k].value), items[k].flags) in Entries(abis, items)
  {
    var e := Entry(Detranslate(abis[j], items[k].value), items[k].flags);
    assert items[..k + 1][k] == items[k];
    assert items[..k + 1][..k] == items[..k];
    AbiEntriesPrefix(abis[j], items, k + 1, e);
    EntriesPrefix(abis, items, j, e);
  }

  /** A number denotes at most one neutral syscall. */
  lemma DenotesUnique(abis: seq<Abi>, v: Sysnum, w: Sysnum, nr: nat)
    requires DisjointAbis(abis) && nr != SYSCALL_AVOIDER
    requires Denotes(abis, v, nr) && Denotes(abis, w, nr)
    ensures v == w
  {
    var i := DenotedIn(abis, v, nr);
    var j := DenotedIn(abis, w, nr);
    assert i == j;
  }

  lemma DenotedIn(abis: seq<Abi>, v: Sysnum, nr: nat) returns (i: nat)
    requires Denotes(abis, v, nr) && nr != SYSCALL_AVOIDER
    ensures i < |abis| && 0 <= nr - abis[i].offset < |abis[i].table| && abis[i].table[nr - abis[i].offset] == v
  {
    i :| 0 <= i < |abis| && Detranslate(abis[i], v) == nr;
    InTable(abis[i], v, nr);
  }

  /** A number of an ABI lies in its range, and its slot in the table tells what it denotes. */
  lemma InTable(abi: Abi, v: Sysnum, nr: nat)
    requires Detranslate(abi, v) == nr && nr != SYSCALL_AVOIDER
    ensures abi.offset <= nr < abi.offset + |abi.table| && abi.table[nr - abi.offset] == v
  {
  }

  /** A section traces the numbers denoted by requested syscalls, with their flags; no others. */
  lemma {:induction false} SectionMeaning(abis: seq<Abi>, items: seq<FilteredSysnum>, nr: nat)
    requires DisjointAbis(abis) && Distinct(items) && nr <= UINT32_MAX
    ensures forall v :: Requests(items, v) && Denotes(abis, v, nr) ==>
              SectionVerdict(Entries(abis, items), nr) == TraceValue(FlagsFor(items, v))
    ensures (forall v :: Requests(items, v) ==> !Denotes(abis, v, nr)) ==>
              SectionVerdict(Entries(abis, items), nr) == SECCOMP_RET_ALLOW
  {
    var es := Entries(abis, items);
    var f := FirstMatch(es, nr);
    if f.Some? {
      var k := EntrySource(abis, items, Entry(nr, f.value));
      assert Requests(items, items[k].value);
      FlagsForDistinct(items, k);
      forall v | Requests(items, v) && Denotes(abis, v, nr) ensures v == items[k].value {
        DenotesUnique(abis, v, items[k].value, nr);
      }
    } else {
      forall v | Requests(items, v) && Denotes(abis, v, nr) ensures false {
        var j :| 0 <= j < |abis| && Detranslate(abis[j], v) == nr;
        var k :| 0 <= k < |items| && items[k].value == v;
        EntryMember(abis, items, j, k);
        assert false;
      }
    }
  }

  lemma {:induction false} VerdictOfArch(archs: seq<Arch>, items: seq<FilteredSysnum>, d: SeccompData, otherwise: Option<nat>)
    requires WellFormed(archs)
    ensures forall i :: 0 <= i < |archs| && archs[i].value == d.arch ==>
              ProgramVerdict(archs, items, d, otherwise) == Some(SectionVerdict(Entries(archs[i].abis, items), d.nr))
    ensures (forall i :: 0 <= i < |archs| ==> archs[i].value != d.arch) ==>
              ProgramVerdict(archs, items, d, otherwise) == otherwise
    decreases |archs|
  {
    if archs != [] {
      var last := archs[|archs| - 1];
      var rest := archs[..|archs| - 1];
      assert forall i :: 0 <= i < |rest| ==> rest[i] == archs[i];
      VerdictOfArch(rest, items, d,
                    if d.arch == last.value then Some(SectionVerdict(Entries(last.abis, items), d.nr)) else otherwise);
    }
  }

  /** What a filter has to answer: KILL for an unknown architecture; otherwise TRACE with all the flags
      requested for the call a number denotes, and ALLOW when it denotes none that is requested. */
  ghost predicate Answered(r: Option<nat>, archs: seq<Arch>, requested: seq<FilteredSysnum>, d: SeccompData) {
    && ((forall i :: 0 <= i < |archs| ==> archs[i].value != d.arch) ==> r == Some(SECCOMP_RET_KILL))
    && forall i :: 0 <= i < |archs| && archs[i].value == d.arch ==>
         && (forall v :: Requests(requested, v) && Denotes(archs[i].abis, v, d.nr) ==>
               r == Some(TraceValue(FlagsFor(requested, v))))
         && ((forall v :: Requests(requested, v) ==> !Denotes(archs[i].abis, v, d.nr)) ==>
               r == Some(SECCOMP_RET_ALLOW))
  }

  /** Main theorem: running the program compiled from a merge of the requested lists. */
  lemma {:induction false} FilterMeaning(archs: seq<Arch>, merged: seq<FilteredSysnum>, requested: seq<FilteredSysnum>, acc: nat, d: SeccompData)
    requires WellFormed(archs) && IsMergeOf(merged, requested) && d.nr <= UINT32_MAX
    ensures Answered(Run(Program(archs, merged), 0, acc, d), archs, requested, d)
  {
    var kill := [RetK(SECCOMP_RET_KILL)];
    RunSections(archs, merged, kill, acc, d, Some(SECCOMP_RET_KILL));
    VerdictOfArch(archs, merged, d, Some(SECCOMP_RET_KILL));
    forall i | 0 <= i < |archs| && archs[i].value == d.arch
      ensures forall v :: Requests(requested, v) && Denotes(archs[i].abis, v, d.nr) ==>
                SectionVerdict(Entries(archs[i].abis, merged), d.nr) == TraceValue(FlagsFor(requested, v))
      ensures (forall v :: Requests(requested, v) ==> !Denotes(archs[i].abis, v, d.nr)) ==>
                SectionVerdict(Entries(archs[i].abis, merged), d.nr) == SECCOMP_RET_ALLOW
    {
      SectionMeaning(archs[i].abis, merged, d.nr);
    }
  }

  /** For flag words that fit the data part, the value splits into the TRACE action and the flags. */
  lemma TraceValueSplits(flags: Flags)
    requires flags < 0x1_0000
    ensures TraceValue(flags) / 0x1_0000 * 0x1_0000 == SECCOMP_RET_TRACE
    ensures TraceValue(flags) % 0x1_0000 == flags
  {
  }

  lemma FirstIndexUnique(s: seq<Sysnum>, i: nat, j: nat)
    requires i < |s| && j < |s| && s[i] == s[j] && s[i] !in s[..i] && s[j] !in s[..j]
    ensures i == j
  {
  }

  /** A table may hold a requested syscall under several numbers; only the first one is traced. */
  lemma {:induction false} TracedIffFirst(abi: Abi, items: seq<FilteredSysnum>, i: nat)
    requires Distinct(items) && i < |abi.table| && abi.offset + |abi.table| <= UINT32_MAX
    requires abi.table[i] != VOID && Requests(items, abi.table[i])
    ensures FirstMatch(Entries([abi], items), abi.offset + i).Some? <==> abi.table[i] !in abi.table[..i]
  {
    var v := abi.table[i];
    var nr := abi.offset + i;
    var es := Entries([abi], items);
    var f := FirstMatch(es, nr);
    if f.Some? {
      var k := EntrySource([abi], items, Entry(nr, f.value));
      assert Detranslate([abi][0], items[k].value) == nr;
    } else if v !in abi.table[..i] {
      FirstIndexUnique(abi.table, i, Detranslate(abi, v) - abi.offset);
      var k :| 0 <= k < |items| && items[k].value == v;
      EntryMember([abi], items, 0, k);
    }
  }

  // ----- enable_syscall_filtering -----

  /** The lists requested by the extensions that have one. */
  ghost function ExtensionLists(extensions: seq<Option<seq<FilteredSysnum>>>): seq<FilteredSysnum>
    requires forall e :: e in extensions && e.Some? ==> Terminated(e.value)
  {
    if extensions == [] then []
    else
      var last := extensions[|extensions| - 1];
      assert last in extensions && (last.Some? ==> Terminated(last.value));
      ExtensionLists(extensions[..|extensions| - 1]) + (if last.Some? then Items(last.value) else [])
  }

  method EnableSyscallFiltering(archs: seq<Arch>, prootSysnums: seq<FilteredSysnum>,
                                extensions: seq<Option<seq<FilteredSysnum>>>)
    returns (status: int, ghost merged: seq<FilteredSysnum>, ghost installed: seq<Insn>)
    requires Terminated(prootSysnums) && forall e :: e in extensions && e.Some? ==> Terminated(e.value)
    ensures IsMergeOf(merged, Items(prootSysnums) + ExtensionLists(extensions))
    ensures !Fits(archs, merged) ==> status == -ERANGE
    ensures Fits(archs, merged) && |Program(archs, merged)| <= MAX_INSNS ==>
              && status == 0 && installed == Program(archs, merged)
              && (WellFormed(archs) ==> Filters(installed, archs, Items(prootSysnums) + ExtensionLists(extensions)))
  {
    var filtered := MergeAll(prootSysnums, extensions);
    merged := Items(filtered.sysnums);
    var program := new ProgramFilter();
    status, installed := program.SetSeccompFilters(archs, filtered.sysnums);
    if |Program(archs, merged)| <= MAX_INSNS {
      ShortProgram(Program(archs, merged));
    }
    if WellFormed(archs) {
      ProgramFilters(archs, merged, Items(prootSysnums) + ExtensionLists(extensions));
    }
  }

  /** The kernel, running these statements for any call, gets the answers asked for. */
  ghost predicate Filters(p: seq<Insn>, archs: seq<Arch>, requested: seq<FilteredSysnum>) {
    forall acc: nat, d: SeccompData | d.nr <= UINT32_MAX :: Answered(Run(p, 0, acc, d), archs, requested, d)
  }

  lemma ProgramFilters(archs: seq<Arch>, merged: seq<FilteredSysnum>, requested: seq<FilteredSysnum>)
    requires WellFormed(archs) && IsMergeOf(merged, requested)
    ensures Filters(Program(archs, merged), archs, requested)
  {
    forall acc: nat, d: SeccompData | d.nr <= UINT32_MAX
      ensures Answered(Run(Program(archs, merged), 0, acc, d), archs, requested, d)
    {
      FilterMeaning(archs, merged, requested, acc, d);
    }
  }

  lemma ShortProgram(p: seq<Insn>)
    requires |p| <= MAX_INSNS
    ensures p[..|p| % 0x1_0000] == p
  {
  }

  /** The system calls PRoot wants to see, then those of each extension. */
  method MergeAll(prootSysnums: seq<FilteredSysnum>, extensions: seq<Option<seq<FilteredSysnum>>>)
    returns (filtered: SysnumList)
    requires Terminated(prootSysnums) && forall e :: e in extensions && e.Some? ==> Terminated(e.value)
    ensures fresh(filtered) && filtered.Valid()
    ensures filtered.requested == Items(prootSysnums) + ExtensionLists(extensions)
  {
    filtered := new SysnumList();
    filtered.MergeFilteredSysnums(prootSysnums);
    for i := 0 to |extensions|
      invariant filtered.Valid()
      invariant filtered.requested == Items(prootSysnums) + ExtensionLists(extensions[..i])
    {
      assert extensions[..i + 1][..i] == extensions[..i];
      if extensions[i].Some? {
        filtered.MergeFilteredSysnums(extensions[i].value);
      }
    }
    assert extensions[..|extensions|] == extensions;
  }

  // ----- A section that starts too far -----

  /** The second section is refused once the first one has this many entries: its body starts at a
      statement that 16 bits do not hold. */
  lemma {:induction false} FarSectionRefused(a: Arch, b: Arch, items: seq<FilteredSysnum>)
    requires |Entries(a.abis, items)| >= 32764
    ensures !Fits([a, b], items)
  {
    assert [a, b][..1] == [a] && [a][..0] == [];
    assert Sections([], items) == [];
  }

  /** `n` system calls, each with a number of its own, requested in this order. */
  function Calls(n: nat): seq<Sysnum> {
    seq(n, i requires 0 <= i < n => i + 1)
  }

  function RequestsFor(n: nat): seq<FilteredSysnum> {
    seq(n, i requires 0 <= i < n => FilteredSysnum(i + 1, 0))
  }

  lemma {:induction false} AllHandled(n: nat, k: nat)
    requires k <= n < SYSCALL_AVOIDER
    ensures |AbiEntries(Abi(Calls(n), 0), RequestsFor(n)[..k])| == k
  {
    if k > 0 {
      AllHandled(n, k - 1);
      assert RequestsFor(n)[..k][..k - 1] == RequestsFor(n)[..k - 1];
      assert Calls(n)[k - 1] == k;
    }
  }

  /** So a filter for two architectures is refused although each of its sections could be compiled on
      its own. */
  lemma {:induction false} LongFilterRefused(n: nat)
    requires 32764 <= n <= 0x1_0000
    ensures var a, b, items := Arch(1, [Abi(Calls(n), 0)]), Arch(2, [Abi(Calls(n), 0)]), RequestsFor(n);
            && WellFormed([a, b]) && Distinct(items)
            && Fits([a], items) && Fits([b], items) && !Fits([a, b], items)
  {
    var abi, items := Abi(Calls(n), 0), RequestsFor(n);
    AllHandled(n, n);
    assert items[..n] == items;
    OneAbi(abi, items);
    AbiEntriesBound(abi, items);
    OneSectionFits(Arch(1, [abi]), items);
    OneSectionFits(Arch(2, [abi]), items);
    FarSectionRefused(Arch(1, [abi]), Arch(2, [abi]), items);
  }

  lemma {:induction false} OneSectionFits(a: Arch, items: seq<FilteredSysnum>)
    requires 1 + 2 * |Entries(a.abis, items)| <= UINT32_MAX - 1 && AllFit(Entries(a.abis, items))
    ensures Fits([a], items)
  {
    assert [a][..0] == [] && Sections([], items) == [];
    assert Fits([], items);
  }

  // ----- The x86_64 instance (arch.h) -----

  const X32_OFFSET: nat := 0x4000_0000

  function X86Archs(x64: seq<Sysnum>, i386: seq<Sysnum>, x32: seq<Sysnum>): seq<Arch> {
    [Arch(0xC000_003E, [Abi(x64, 0), Abi(x32, X32_OFFSET)]), Arch(0x4000_0003, [Abi(i386, 0)])]
  }

  lemma {:induction false} AbiEntriesBound(abi: Abi, items: seq<FilteredSysnum>)
    requires abi.offset + |abi.table| <= UINT32_MAX
    ensures |AbiEntries(abi, items)| <= |items|
    ensures AllFit(AbiEntries(abi, items))
  {
    if items != [] {
      var front, one := items[..|items| - 1], OneEntry(abi, items[|items| - 1]);
      AbiEntriesBound(abi, front);
      AllFitAppend(AbiEntries(abi, front), one);
      if one != [] {
        OnlyEntry(one[0]);
      }
    }
  }

  lemma X86WellFormed(x64: seq<Sysnum>, i386: seq<Sysnum>, x32: seq<Sysnum>)
    requires |x64| <= X32_OFFSET && |i386| <= X32_OFFSET && |x32| <= X32_OFFSET
    ensures WellFormed(X86Archs(x64, i386, x32))
  {
  }

  /** Up to 680 syscalls, the generator cannot fail on x86_64 and the kernel takes the program. */
  lemma {:induction false} X86Accepted(x64: seq<Sysnum>, i386: seq<Sysnum>, x32: seq<Sysnum>, items: seq<FilteredSysnum>)
    requires |x64| <= X32_OFFSET && |i386| <= X32_OFFSET && |x32| <= X32_OFFSET
    requires |items| <= 680
    ensures var archs := X86Archs(x64, i386, x32);
            WellFormed(archs) && Fits(archs, items) && |Program(archs, items)| <= MAX_INSNS
  {
    var archs := X86Archs(x64, i386, x32);
    var abi1, abi2, abi3 := Abi(x64, 0), Abi(i386, 0), Abi(x32, X32_OFFSET);
    X86WellFormed(x64, i386, x32);
    AbiEntriesBound(abi1, items);
    AbiEntriesBound(abi2, items);
    AbiEntriesBound(abi3, items);
    OneAbi(abi1, items);
    OneAbi(abi2, items);
    AllFitAppend(AbiEntries(abi1, items), AbiEntries(abi3, items));
    assert [abi1, abi3][..1] == [abi1];
    assert Entries([abi1, abi3], items) == AbiEntries(abi1, items) + AbiEntries(abi3, items);
    assert archs[..1] == [archs[0]] && [archs[0]][..0] == [];
    assert Sections([], items) == [] && Fits([], items);
    assert |Sections([archs[0]], items)| <= 5 + 4 * 680;
    assert Fits([archs[0]], items);
  }

  lemma {:induction false} OneAbi(abi: Abi, items: seq<FilteredSysnum>)
    ensures Entries([abi], items) == AbiEntries(abi, items)
  {
    assert [abi][..0] == [] && Entries([], items) == [];
  }
}
