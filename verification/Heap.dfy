/** The emulated program break (src/syscall/heap.c:42-213): a private mapping stands for the heap,
    and brk(2) becomes mmap(2) the first time and mremap(2) afterwards. */
module Heap {
  import opened Common

  /** The discarded first page, which lets an empty heap be a non-empty mapping. */
  const OFFSET: Word := 0x1000

  /** User addresses stay below this on x86_64. */
  const TASK_SIZE: Word := 0x7FFF_FFFF_F000

  function PageUp(x: nat): (r: nat)
    ensures x <= r < x + OFFSET && r % OFFSET == 0
  {
    (x + OFFSET - 1) / OFFSET * OFFSET
  }

  /** `(int) result` */
  function IntOf(w: Word): int {
    var low := w % 0x1_0000_0000;
    if low < 0x8000_0000 then low else low - 0x1_0000_0000
  }

  predicate LooksLikeError(w: Word) {
    -4096 < IntOf(w) < 0
  }

  /** What the tracee asks the kernel for once its brk(2) has been translated. */
  datatype Syscall =
    | Brk
    | Void
    | Mmap(address: Word, length: Word)
    | Mremap(oldAddress: Word, oldSize: Word, newSize: Word)

  datatype State = State(base: Word, size: Word, disabled: bool)

  // ---- the kernel ---------------------------------------------------------------------

  datatype Mapping = NoMapping | Mapping(start: Word, end: nat)

  /** What the kernel decides about one request: where a new mapping goes, the native break, or
      an error number. `narrow` says that the tracee's registers are 32 bits wide. */
  datatype Decision = Granted(address: Word) | Refused(errno: int, narrow: bool)

  predicate Plausible(call: Syscall, d: Decision) {
    match d
    case Granted(a) =>
      (call.Mmap? ==> a % OFFSET == 0 && a + call.length <= TASK_SIZE)
      && (call.Mremap? ==> call.oldAddress + PageUp(call.newSize) <= TASK_SIZE)
    case Refused(e, _) => 1 <= e <= 4095
  }

  function ErrorWord(errno: int, narrow: bool): Word
    requires 1 <= errno <= 4095
  {
    if narrow then 0x1_0000_0000 - errno else 0x1_0000_0000_0000_0000 - errno
  }

  const EFAULT := 14

  /** mremap(2) without MREMAP_MAYMOVE resizes a whole mapping where it is, or fails. */
  function KernelStep(m: Mapping, call: Syscall, d: Decision): (r: (Mapping, Word))
    requires Plausible(call, d)
  {
    if d.Refused? then (m, ErrorWord(d.errno, d.narrow))
    else match call
      case Mmap(_, length) => (Mapping(d.address, d.address + PageUp(length)), d.address)
      case Mremap(start, oldSize, newSize) =>
        if newSize != 0 && m == Mapping(start, start + PageUp(oldSize))
        then (Mapping(start, start + PageUp(newSize)), start)
        else (m, ErrorWord(EFAULT, false))
      case Brk => (m, d.address)
      case Void => (m, ErrorWord(38, false))
  }

  // ---- the two stages ------------------------------------------------------------------

  function Enter(h: State, arg: Word, bssEnd: Word): Syscall {
    if h.disabled then Brk
    else if h.base == 0 then if arg != 0 then Brk else Mmap(bssEnd, OFFSET)
    else if arg < h.base then Void
    else Mremap(Wrap(h.base - OFFSET), Wrap(h.size + OFFSET), Wrap(arg - h.base + OFFSET))
  }

  function Exit(h: State, call: Syscall, original: Word, result: Word): (r: (State, Word)) {
    if h.disabled then (h, result)
    else match call
      case Void => (h, Wrap(h.base + h.size))
      case Mmap(_, _) =>
        if LooksLikeError(result) then (h, 0)
        else (h.(base := Wrap(result + OFFSET), size := 0), Wrap(result + OFFSET))
      case Mremap(_, _, newSize) =>
        if LooksLikeError(result) || h.base != Wrap(result + OFFSET) then (h, Wrap(h.base + h.size))
        else (h.(size := Wrap(newSize - OFFSET)), Wrap(h.base + Wrap(newSize - OFFSET)))
      case Brk => (h.(disabled := result == original), result)
  }

  /** One brk(2), from the argument the tracee passed to the result it reads. */
  function Call(h: State, m: Mapping, arg: Word, bssEnd: Word, d: Decision): (r: (State, Mapping, Word))
    requires Plausible(Enter(h, arg, bssEnd), d)
  {
    var call := Enter(h, arg, bssEnd);
    var (n, result) := KernelStep(m, call, d);
    var (g, answer) := Exit(h, call, arg, result);
    (g, n, answer)
  }

  // ---- the truncated error test -----------------------------------------------------------

  lemma LowWord(high: nat, low: nat)
    requires low < 0x1_0000_0000
    ensures (high * 0x1_0000_0000 + low) % 0x1_0000_0000 == low
  {
  }

  /** No page-aligned address is taken for an error. */
  lemma AlignedIsNoError(w: Word)
    requires w % OFFSET == 0
    ensures !LooksLikeError(w)
  {
    var page := w / 0x1000;
    var high, low := page / 0x10_0000, page % 0x10_0000;
    assert w == high * 0x1_0000_0000 + low * 0x1000;
    LowWord(high, low * 0x1000);
  }

  /** Every error is seen, in registers of either width. */
  lemma ErrorIsSeen(errno: int, narrow: bool)
    requires 1 <= errno <= 4095
    ensures LooksLikeError(ErrorWord(errno, narrow))
  {
    LowWord(if narrow then 0 else 0xFFFF_FFFF, 0x1_0000_0000 - errno);
  }

  // ---- what every call keeps ----------------------------------------------------------------

  /** The heap is in use and its mapping covers the spare page and the heap, to the end of a page. */
  predicate Sound(h: State, m: Mapping) {
    && !h.disabled
    && OFFSET <= h.base && h.base % OFFSET == 0
    && h.base + h.size <= TASK_SIZE
    && m == Mapping(h.base - OFFSET, PageUp(h.base + h.size))
  }

  predicate Fresh(h: State) {
    h == State(0, 0, false)
  }

  function Break(h: State): int {
    h.base + h.size
  }

  lemma PageUpShift(base: nat, n: nat)
    requires base % OFFSET == 0 && OFFSET <= base
    ensures base - OFFSET + PageUp(n + OFFSET) == PageUp(base + n)
  {
    var k := base / OFFSET;
    assert base == k * OFFSET;
    assert (base + n + OFFSET - 1) / OFFSET == k + (n + OFFSET - 1) / OFFSET;
    assert (n + OFFSET + OFFSET - 1) / OFFSET == 1 + (n + OFFSET - 1) / OFFSET;
  }

  /** The request for another break names exactly the mapping the heap has and never wraps around. */
  lemma RequestExact(h: State, m: Mapping, arg: Word, bssEnd: Word)
    requires Sound(h, m) && h.base <= arg
    ensures var call := Enter(h, arg, bssEnd);
            && call == Mremap(h.base - OFFSET, h.size + OFFSET, arg - h.base + OFFSET)
            && m == Mapping(call.oldAddress, call.oldAddress + PageUp(call.oldSize))
            && call.oldAddress + PageUp(call.newSize) == PageUp(arg)
  {
    PageUpShift(h.base, h.size);
    PageUpShift(h.base, arg - h.base);
    RequestSmall(h, arg, bssEnd);
  }

  lemma RequestSmall(h: State, arg: Word, bssEnd: Word)
    requires !h.disabled && OFFSET <= h.base <= arg && h.base + h.size <= TASK_SIZE
    ensures Enter(h, arg, bssEnd) == Mremap(h.base - OFFSET, h.size + OFFSET, arg - h.base + OFFSET)
  {
    WrapSmall(h.base - OFFSET);
    WrapSmall(h.size + OFFSET);
    WrapSmall(arg - h.base + OFFSET);
  }

  lemma Refused(h: State, m: Mapping, arg: Word, bssEnd: Word, d: Decision)
    requires Sound(h, m) && d.Refused?
    requires Plausible(Enter(h, arg, bssEnd), d)
    ensures Call(h, m, arg, bssEnd, d) == (h, m, Break(h))
  {
    ErrorIsSeen(d.errno, d.narrow);
  }

  lemma Resized(h: State, m: Mapping, arg: Word, bssEnd: Word, d: Decision)
    requires Sound(h, m) && d.Granted? && h.base <= arg
    requires Plausible(Enter(h, arg, bssEnd), d)
    ensures var g := h.(size := arg - h.base);
            Call(h, m, arg, bssEnd, d) == (g, Mapping(h.base - OFFSET, PageUp(arg)), arg) && arg <= TASK_SIZE
  {
    RequestExact(h, m, arg, bssEnd);
    ExitResized(h, Enter(h, arg, bssEnd), arg);
  }

  /** The answer to a resized mapping. */
  lemma ExitResized(h: State, call: Syscall, arg: Word)
    requires !h.disabled && OFFSET <= h.base <= arg && h.base % OFFSET == 0
    requires call.Mremap? && call.newSize == arg - h.base + OFFSET
    ensures Exit(h, call, arg, h.base - OFFSET) == (h.(size := arg - h.base), arg)
  {
    AlignedBefore(h.base);
    AlignedIsNoError(h.base - OFFSET);
    WrapSmall(h.base);
    WrapSmall(arg - h.base);
    WrapSmall(arg);
  }

  lemma AlignedBefore(x: int)
    requires x % OFFSET == 0
    ensures (x - OFFSET) % OFFSET == 0
  {
  }

  lemma AlignedAfter(x: nat)
    requires x % OFFSET == 0
    ensures (x + OFFSET) % OFFSET == 0 && PageUp(x) == x
  {
  }

  /** brk(2) in use: the base stays, a granted request moves the break to its argument and anything
      else answers the break there was, with the mapping following it. */
  lemma CallKeeps(h: State, m: Mapping, arg: Word, bssEnd: Word, d: Decision)
    requires Sound(h, m)
    requires Plausible(Enter(h, arg, bssEnd), d)
    ensures var (g, n, answer) := Call(h, m, arg, bssEnd, d);
            && Sound(g, n) && g.base == h.base
            && answer == Break(g)
            && Break(g) == if h.base <= arg && d.Granted? then arg else Break(h)
  {
    if d.Refused? {
      Refused(h, m, arg, bssEnd, d);
    } else if h.base <= arg {
      Resized(h, m, arg, bssEnd, d);
    }
  }

  /** The first brk(0): one page is asked for where the program ends. An empty heap one page above the new
      mapping, or 0 and nothing changed. */
  lemma FirstCall(h: State, m: Mapping, bssEnd: Word, d: Decision)
    requires Fresh(h)
    requires Plausible(Enter(h, 0, bssEnd), d)
    ensures Enter(h, 0, bssEnd) == Mmap(bssEnd, OFFSET)
    ensures var (g, n, answer) := Call(h, m, 0, bssEnd, d);
            if d.Granted? then Sound(g, n) && g.size == 0 && answer == g.base == d.address + OFFSET
            else g == h && n == m && answer == 0
  {
    if d.Refused? {
      ErrorIsSeen(d.errno, d.narrow);
    } else {
      FirstGranted(h, m, bssEnd, d);
    }
  }

  lemma FirstGranted(h: State, m: Mapping, bssEnd: Word, d: Decision)
    requires Fresh(h) && d.Granted?
    requires Plausible(Enter(h, 0, bssEnd), d)
    ensures var base := d.address + OFFSET;
            && Call(h, m, 0, bssEnd, d) == (State(base, 0, false), Mapping(d.address, base), base)
            && Sound(State(base, 0, false), Mapping(d.address, base))
  {
    AlignedIsNoError(d.address);
    AlignedAfter(0);
    AlignedAfter(OFFSET);
    AlignedAfter(d.address);
    AlignedAfter(d.address + OFFSET);
    WrapSmall(d.address + OFFSET);
  }

  /** A first call with an address is left to the kernel; the emulation is switched off for good
      exactly when the kernel answers that very address. */
  lemma SuspiciousCall(h: State, m: Mapping, arg: Word, bssEnd: Word, d: Decision)
    requires Fresh(h) && arg != 0
    requires Plausible(Enter(h, arg, bssEnd), d)
    ensures var (g, n, answer) := Call(h, m, arg, bssEnd, d);
            && n == m && g == h.(disabled := answer == arg)
            && answer == if d.Granted? then d.address else ErrorWord(d.errno, d.narrow)
  {
  }

  // ---- runs -----------------------------------------------------------------------------

  /** One brk(2) of a run: its argument and what the kernel decides. */
  datatype Request = Request(arg: Word, decision: Decision)

  /** The break a process has after a run of brk(2), by the manual page: the argument when it is
      not below the start of the heap and the kernel has the memory, otherwise as it was. */
  function Ideal(base: Word, brk: int, run: seq<Request>): seq<int>
    decreases |run|
  {
    if run == [] then []
    else
      var b := if base <= run[0].arg && run[0].decision.Granted? then run[0].arg else brk;
      [b] + Ideal(base, b, run[1..])
  }

  /** The answers a tracee reads over a run, and the state it ends in. */
  function Answers(h: State, m: Mapping, run: seq<Request>, bssEnd: Word): (r: (State, Mapping, seq<int>))
    requires PlausibleRun(h, m, run, bssEnd)
    decreases |run|
  {
    if run == [] then (h, m, [])
    else
      var (g, n, answer) := Call(h, m, run[0].arg, bssEnd, run[0].decision);
      var (g', n', rest) := Answers(g, n, run[1..], bssEnd);
      (g', n', [answer] + rest)
  }

  predicate PlausibleRun(h: State, m: Mapping, run: seq<Request>, bssEnd: Word)
    decreases |run|
  {
    run == []
    || (&& Plausible(Enter(h, run[0].arg, bssEnd), run[0].decision)
        && var (g, n, _) := Call(h, m, run[0].arg, bssEnd, run[0].decision);
           PlausibleRun(g, n, run[1..], bssEnd))
  }

  /** Over every run of calls the tracee reads what brk(2) would have answered, the base does not
      move and the mapping is the heap's. */
  lemma {:induction false} RunKeeps(h: State, m: Mapping, run: seq<Request>, bssEnd: Word)
    requires Sound(h, m) && PlausibleRun(h, m, run, bssEnd)
    ensures var (g, n, answers) := Answers(h, m, run, bssEnd);
            Sound(g, n) && g.base == h.base && answers == Ideal(h.base, Break(h), run)
    decreases |run|
  {
    if run != [] {
      CallKeeps(h, m, run[0].arg, bssEnd, run[0].decision);
      var (g, n, _) := Call(h, m, run[0].arg, bssEnd, run[0].decision);
      RunKeeps(g, n, run[1..], bssEnd);
    }
  }

  // ---- the tracee's record ---------------------------------------------------------------

  /** The registers a stage reads and rewrites. */
  class Registers {
    var sysnum: string
    var arg1: Word
    var arg2: Word
    var arg3: Word
    var result: Word

    /** The request the modified registers make. */
    function Request(): Syscall
      reads this
    {
      if sysnum == "void" then Void
      else if sysnum == "mmap" then Mmap(arg1, arg2)
      else if sysnum == "mremap" then Mremap(arg1, arg2, arg3)
      else Brk
    }
  }

  class Tracee {
    const regs: Registers
    var base: Word
    var size: Word
    var disabled: bool

    constructor (r: Registers)
      ensures regs == r && Abstract() == State(0, 0, false)
    {
      regs := r;
      base, size, disabled := 0, 0, false;
    }

    function Abstract(): State
      reads this
    {
      State(base, size, disabled)
    }

    method TranslateBrkEnter(bssEnd: Word)
      requires regs.sysnum == "brk"
      modifies regs
      ensures regs.Request() == Enter(Abstract(), old(regs.arg1), bssEnd)
      ensures regs.result == old(regs.result)
    {
      if disabled {
        return;
      }
      var newBrkAddress := regs.arg1;
      if base == 0 {
        if newBrkAddress != 0 {
          return;
        }
        regs.sysnum := "mmap";
        regs.arg1 := bssEnd;
        regs.arg2 := OFFSET;
        return;
      }
      if newBrkAddress < base {
        regs.sysnum := "void";
        return;
      }
      var newHeapSize := newBrkAddress - base;
      var oldHeapSize := size;
      regs.sysnum := "mremap";
      regs.arg1 := Wrap(base - OFFSET);
      regs.arg2 := Wrap(oldHeapSize + OFFSET);
      regs.arg3 := Wrap(newHeapSize + OFFSET);
    }

    method TranslateBrkExit(original: Word)
      requires regs.sysnum in {"brk", "void", "mmap", "mremap"}
      modifies this, regs
      ensures (Abstract(), regs.result)
              == Exit(old(Abstract()), old(regs.Request()), original, old(regs.result))
      ensures regs.Request() == old(regs.Request())
    {
      if disabled {
        return;
      }
      var result := regs.result;
      if regs.sysnum == "void" {
        regs.result := Wrap(base + size);
      } else if regs.sysnum == "mmap" {
        if -4096 < IntOf(result) < 0 {
          regs.result := 0;
        } else {
          base := Wrap(result + OFFSET);
          size := 0;
          regs.result := Wrap(base + size);
        }
      } else if regs.sysnum == "mremap" {
        if -4096 < IntOf(result) < 0 || base != Wrap(result + OFFSET) {
          regs.result := Wrap(base + size);
        } else {
          size := Wrap(regs.arg3 - OFFSET);
          regs.result := Wrap(base + size);
        }
      } else if result == original {
        disabled := true;
      }
    }
  }
}
