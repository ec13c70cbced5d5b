/** The stop protocol of src/tracee/event.c together with the enter and exit
    stages of src/syscall/syscall.c, for one tracee, run against a small
    automaton of the kernel in both of its stop orders. */
module Event {
  import opened Common

  /** How a tracee is restarted: not decided yet, PTRACE_CONT, or PTRACE_SYSCALL. */
  datatype How = Undecided | Cont | Syscall
  datatype SeccompMode = Disabled | Disabling | Enabled

  /** The part of a tracee that takes part in the protocol.  `status` is 0 when the next syscall
      stop is an enter stop, 1 or -errno when it is an exit stop; `chain` counts the
      chained syscalls still queued, None when no chain is in progress. */
  datatype Tracee = Tracee(
    status: int, how: How, last: How,
    seccomp: SeccompMode, exitPending: bool, alreadyHandled: bool,
    chain: Option<nat>, suppressed: int)

  /** What event.c keeps in static variables: whether a seccomp stop was ever seen, and whether
      this kernel reports it after the enter stop. */
  datatype Detection = Detection(detected: bool, afterEnter: bool)

  datatype Stop =
    | SyscallStop                    // SIGTRAP | 0x80: enter or exit stage
    | SeccompStop(sysexit: bool)     // with the flags of the filter
    | ForkStop                       // PTRACE_EVENT_{FORK,VFORK,CLONE}
    | InnerStop                      // PTRACE_EVENT_{EXEC,VFORK_DONE}
    | SignalStop(signal: int)

  /** The answer of the translation code and of the extensions to one stage: status of the stage,
      request for the exit stop, number of newly chained syscalls, ptrace emulation started. */
  datatype Outcome = Outcome(status: int, wantsExit: bool, chained: Option<nat>, disables: bool)

  datatype Reply =
    | Abort                          // an assertion of the event loop failed
    | Resume(t: Tracee, g: Detection, signal: int, entered: bool, exited: bool)

  // ----- translate_syscall -----

  function AddChained(chain: Option<nat>, more: Option<nat>): Option<nat> {
    match (chain, more)
    case (_, None) => chain
    case (None, Some(n)) => Some(n)
    case (Some(m), Some(n)) => Some(m + n)
  }

  function EnterStage(t: Tracee, o: Outcome): Tracee {
    var how := if t.chain.Some? || o.wantsExit then Syscall else t.how;
    var chain := AddChained(t.chain, if t.chain.None? then o.chained else None);
    var status := if how == Cont then 0 else if o.status < 0 then o.status else 1;
    t.(status := status, how := how, chain := chain, seccomp := LeavingSeccomp(t, o))
  }

  function LeavingSeccomp(t: Tracee, o: Outcome): SeccompMode {
    if t.chain.None? && o.disables && t.seccomp == Enabled then Disabling else t.seccomp
  }

  function ExitStage(t: Tracee, o: Outcome): Tracee {
    var t' := t.(status := 0, seccomp := LeavingSeccomp(t, o), chain := AddChained(t.chain, o.chained));
    match t'.chain
    case None => t'
    case Some(n) => if n == 0 then t'.(chain := None) else t'.(chain := Some(n - 1), how := Syscall)
  }

  function TranslateSyscall(t: Tracee, o: Outcome): Tracee {
    if t.status == 0 then EnterStage(t, o) else ExitStage(t, o)
  }

  // ----- handle_tracee_event and restart_tracee -----

  predicate ExitNecessary(t: Tracee) {
    t.exitPending || t.chain.Some?
  }

  function ChooseHow(t: Tracee): Tracee {
    if t.how != Undecided then t
    else t.(how := if t.seccomp == Enabled && !ExitNecessary(t) then Cont else Syscall)
  }

  function Restart(r: Reply): Reply {
    if r.Abort? || r.t.how == Undecided then Abort
    else r.(t := r.t.(last := r.t.how, how := Undecided))
  }

  function HandleEvent(t0: Tracee, g: Detection, stop: Stop, o: Outcome): Reply {
    var t := ChooseHow(t0);
    match stop
    case SyscallStop => HandleSyscallStop(t, g, o)
    case SeccompStop(sysexit) => HandleSeccompStop(t, g, sysexit || ExitNecessary(t0), o)
    case ForkStop => Resume(t, g, 0, false, false)
    case InnerStop => Resume(if t.last != Undecided then t.(how := t.last) else t, g, 0, false, false)
    case SignalStop(signal) =>
      if t.chain.Some? then Resume(t.(suppressed := signal), g, 0, false, false)
      else Resume(t, g, signal, false, false)
  }

  function HandleSyscallStop(t: Tracee, g: Detection, o: Outcome): Reply {
    match t.seccomp
    case Enabled =>
      if t.status == 0 then SyscallStopCommon(t.(how := Syscall, exitPending := true), g, o)
      else SyscallStopCommon(t.(how := Cont, exitPending := false), g, o)
    case Disabled => SyscallStopCommon(t, g, o)
    case Disabling =>
      Resume(t.(seccomp := Disabled, status := if t.status == 0 then 1 else t.status), g, 0, false, false)
  }

  function SyscallStopCommon(t: Tracee, g: Detection, o: Outcome): Reply {
    if t.alreadyHandled then
      if t.status == 0 || g.afterEnter then Abort
      else Resume(LeaveSeccomp(t.(alreadyHandled := false, how := Syscall)), g, 0, false, false)
    else
      var t1 := TranslateSyscall(t, o);
      var redeliver := t1.suppressed != 0 && t1.chain.None?;
      var t2 := if redeliver then t1.(suppressed := 0) else t1;
      Resume(LeaveSeccomp(t2), g, if redeliver then t1.suppressed else 0, t.status == 0, t.status != 0)
  }

  function LeaveSeccomp(t: Tracee): Tracee {
    if t.seccomp == Disabling then t.(how := Syscall, seccomp := Disabled) else t
  }

  function HandleSeccompStop(t0: Tracee, g0: Detection, exitNecessary: bool, o: Outcome): Reply {
    var t := if g0.detected then t0 else t0.(seccomp := Enabled);
    var g := if g0.detected then g0 else Detection(true, t.status != 0);
    if g.afterEnter && t.status != 0 then
      if t.last == Cont then Abort else Resume(t.(how := t.last), g, 0, false, false)
    else if t.status != 0 then Abort
    else if t.seccomp != Enabled then Resume(t, g, 0, false, false)
    else if exitNecessary then
      if g.afterEnter then Resume(TranslateSyscall(t.(how := Syscall), o).(how := Syscall), g, 0, true, false)
      else Resume(t.(how := Syscall), g, 0, false, false)
    else
      var t1 := TranslateSyscall(t.(how := Cont), o);
      var t2 := if t1.seccomp == Disabling then t1.(how := Syscall) else t1;
      Resume(if !g.afterEnter && t2.how == Syscall then t2.(alreadyHandled := true) else t2, g, 0, true, false)
  }

  function Step(t: Tracee, g: Detection, stop: Stop, o: Outcome): Reply {
    Restart(HandleEvent(t, g, stop, o))
  }

  // ----- The kernel -----

  /** How the kernel treats one syscall: whether the filter traces it and with which flag, and
      whether it can report a fork-like event. */
  datatype Kind = Kind(filtered: bool, sysexit: bool, forks: bool)

  /** The syscall being made, how its number looked when it was made, and how many times each of
      its stages was translated so far. */
  datatype Call = Call(kind: Kind, asked: Kind, enters: nat, exits: nat)

  /** What the kernel does next with the tracee: run it in user mode, check the filter, report
      the entry, or execute the syscall. */
  datatype Place = UserMode | FilterCheck | EntryReport | Executing

  /** The last field is what the tracee got of the signals raised so far, in order. */
  datatype System = System(newOrder: bool, t: Tracee, g: Detection, place: Place, call: Call, delivered: seq<int>)

  datatype Choice =
    | MakeSyscall(kind: Kind)
    | CheckFilter(o: Outcome)
    | ReportEntry(o: Outcome, rewritten: Kind)
    | ReportFork
    | ReportInner
    | Finish(o: Outcome)
    | RaiseSignal(signal: int)

  /** An extension that chains syscalls from the enter stage also asks for the exit stop, and
      only the exit stage of ptrace(2) gives up seccomp. */
  predicate Allowed(o: Outcome) {
    (o.chained.Some? ==> o.wantsExit && o.chained.value > 0) && !o.disables
  }

  /** With `forkFree`, the filter traces no syscall that reports a fork-like event. */
  predicate Permits(forkFree: bool, k: Kind) {
    forkFree && k.forks ==> !k.filtered
  }

  predicate Possible(s: System, forkFree: bool, c: Choice) {
    match c
    case MakeSyscall(kind) => s.place == UserMode && Permits(forkFree, kind)
    case CheckFilter(o) => s.place == FilterCheck && Allowed(o)
    case ReportEntry(o, rewritten) =>
      s.place == EntryReport && Allowed(o) && Permits(forkFree, rewritten) && (rewritten.forks ==> s.call.kind.forks)
    case ReportFork => s.place == Executing && s.call.kind.forks
    case ReportInner => s.place == Executing
    case Finish(o) => s.place == Executing && (o.chained.Some? ==> o.chained.value > 0)
    case RaiseSignal(signal) => s.place == UserMode && signal != 0
  }

  function Pending(signal: int): seq<int> {
    if signal == 0 then [] else [signal]
  }

  function Stopped(s: System, stop: Stop, o: Outcome, place: Place): Option<System> {
    match Step(s.t, s.g, stop, o)
    case Abort => None
    case Resume(t, g, signal, entered, exited) =>
      Some(s.(t := t, g := g, place := place, delivered := s.delivered + Pending(signal),
              call := s.call.(enters := s.call.enters + (if entered then 1 else 0),
                              exits := s.call.exits + (if exited then 1 else 0))))
  }

  /** One kernel step, with PRoot's reaction when it is a stop; None if an assertion failed. */
  function Next(s: System, c: Choice): Option<System> {
    match c
    case MakeSyscall(kind) =>
      Some(s.(place := if s.newOrder then EntryReport else FilterCheck, call := Call(kind, kind, 0, 0)))
    case CheckFilter(o) =>
      var place := if s.newOrder then Executing else EntryReport;
      if s.call.kind.filtered then Stopped(s, SeccompStop(s.call.kind.sysexit), o, place) else Some(s.(place := place))
    case ReportEntry(o, rewritten) =>
      var place := if s.newOrder then FilterCheck else Executing;
      if s.t.last == Syscall then Stopped(s.(call := s.call.(kind := rewritten)), SyscallStop, o, place)
      else Some(s.(place := place))
    case ReportFork => Stopped(s, ForkStop, Outcome(0, false, None, false), Executing)
    case ReportInner => Stopped(s, InnerStop, Outcome(0, false, None, false), Executing)
    case Finish(o) =>
      if s.t.last == Syscall then Stopped(s, SyscallStop, o, UserMode) else Some(s.(place := UserMode))
    case RaiseSignal(signal) => Stopped(s, SignalStop(signal), Outcome(0, false, None, false), UserMode)
  }

  /** The state reached by a sequence of choices; None if an assertion failed on the way. */
  function Execute(s: System, forkFree: bool, cs: seq<Choice>): Option<System>
    requires Run(s, forkFree, cs)
    decreases |cs|
  {
    if cs == [] then Some(s)
    else match Next(s, cs[0])
      case None => None
      case Some(s') => Execute(s', forkFree, cs[1..])
  }

  predicate Run(s: System, forkFree: bool, cs: seq<Choice>)
    decreases |cs|
  {
    cs == [] ||
    (Possible(s, forkFree, cs[0]) &&
     match Next(s, cs[0]) case None => true case Some(s') => Run(s', forkFree, cs[1..]))
  }

  /** A tracee about to run user code, either the very first one, or a child that inherited
      `seccomp` and `exitPending` from its parent. */
  predicate Initial(s: System) {
    && s.place == UserMode
    && s.t.status == 0 && s.t.how == Undecided && !s.t.alreadyHandled
    && s.t.chain.None? && s.t.suppressed == 0
    && s.t.seccomp != Disabling
    && s.call.enters == 0 && s.call.exits == 0 && s.delivered == []
    && (s.t.last == Syscall || (s.t.last == Cont && s.t.seccomp == Enabled && !s.t.exitPending))
    && (s.g.detected ==> s.g.afterEnter == s.newOrder)
    && (!s.g.detected ==> s.t.seccomp == Disabled)
  }

  // ----- The invariant -----

  predicate Invariant(s: System, forkFree: bool) {
    var t, c := s.t, s.call;
    && t.how == Undecided && t.last != Undecided && t.seccomp != Disabling
    && (t.seccomp == Disabled ==> t.last == Syscall)
    && (s.g.detected ==> s.g.afterEnter == s.newOrder)
    && (!s.g.detected ==> t.seccomp == Disabled)
    && (ExitNecessary(t) ==> t.last == Syscall)
    && (t.suppressed != 0 ==> t.chain.Some?)
    && c.exits <= c.enters <= 1
    && (t.alreadyHandled ==> !s.newOrder && s.g.detected && s.place == EntryReport && t.status != 0)
    && (s.place != UserMode ==> Permits(forkFree, c.kind) && c.exits == 0)
    && match s.place
       case UserMode => t.status == 0
       case FilterCheck =>
         if s.newOrder then
           if t.last == Syscall then t.status != 0 && c.enters == 1 && Expecting(s)
           else t.status == 0 && c.enters == 0 && c.kind == c.asked
         else t.status == 0 && c.enters == 0 && c.kind == c.asked
       case EntryReport =>
         if t.alreadyHandled then c.enters == 1 && c.kind.filtered && t.last == Syscall
         else
           && t.status == 0
           && c.enters == (if !s.newOrder && c.kind.filtered && t.last == Cont then 1 else 0)
           && (!s.newOrder && c.kind.filtered && c.kind.sysexit ==> t.last == Syscall)
           && c.kind == c.asked
       case Executing =>
         if t.last == Syscall then t.status != 0 && c.enters == 1 && (forkFree ==> Expecting(s))
         else t.status == 0 && c.enters == (if c.asked.filtered then 1 else 0) && !(c.asked.filtered && c.asked.sysexit)
  }

  /** A syscall that can report a fork-like event keeps the tracee in PTRACE_SYSCALL mode. */
  predicate Expecting(s: System) {
    s.t.seccomp == Enabled && s.call.kind.forks ==> ExitNecessary(s.t)
  }

  // ----- Theorems -----

  lemma InitialInvariant(s: System)
    requires Initial(s)
    ensures Invariant(s, true)
  {
  }

  /** With a filter that leaves fork-like syscalls alone, no assertion fails, and one more step
      keeps the invariant. */
  lemma NextInvariant(s: System, c: Choice)
    requires Invariant(s, true) && Possible(s, true, c)
    ensures Next(s, c).Some? && Invariant(Next(s, c).value, true)
  {
    match c
    case MakeSyscall(kind) =>
    case CheckFilter(o) => CheckFilterInvariant(s, o);
    case ReportEntry(o, rewritten) => ReportEntryInvariant(s, o, rewritten);
    case ReportFork =>
    case ReportInner =>
    case Finish(o) => FinishInvariant(s, o);
    case RaiseSignal(signal) =>
  }

  lemma FinishInvariant(s: System, o: Outcome)
    requires Invariant(s, true) && Possible(s, true, Finish(o))
    ensures Next(s, Finish(o)).Some? && Invariant(Next(s, Finish(o)).value, true)
  {
  }

  lemma CheckFilterInvariant(s: System, o: Outcome)
    requires Invariant(s, true) && Possible(s, true, CheckFilter(o))
    ensures Next(s, CheckFilter(o)).Some? && Invariant(Next(s, CheckFilter(o)).value, true)
  {
  }

  lemma ReportEntryInvariant(s: System, o: Outcome, rewritten: Kind)
    requires Invariant(s, true) && Possible(s, true, ReportEntry(o, rewritten))
    ensures Next(s, ReportEntry(o, rewritten)).Some? && Invariant(Next(s, ReportEntry(o, rewritten)).value, true)
  {
  }

  /** No assertion of the event loop ever fails, in either kernel order. */
  lemma {:induction false} AssertionsHold(s: System, cs: seq<Choice>)
    requires Invariant(s, true) && Run(s, true, cs)
    ensures Execute(s, true, cs).Some? && Invariant(Execute(s, true, cs).value, true)
    decreases |cs|
  {
    if cs != [] {
      NextInvariant(s, cs[0]);
      AssertionsHold(Next(s, cs[0]).value, cs[1..]);
    }
  }

  predicate Reachable(s0: System, cs: seq<Choice>, s: System) {
    Initial(s0) && Run(s0, true, cs) && Execute(s0, true, cs) == Some(s)
  }

  /** Once executed, a syscall the filter traces had its enter stage translated exactly once; its
      exit stage follows at most once, and exactly once when its filter entry asks for it. */
  lemma StagesOnce(s0: System, cs: seq<Choice>, s: System, o: Outcome)
    requires Reachable(s0, cs, s) && Possible(s, true, Finish(o))
    ensures s.call.exits == 0 && (s.call.asked.filtered ==> s.call.enters == 1)
    ensures var r := Next(s, Finish(o));
            && r.Some? && r.value.place == UserMode && r.value.t.status == 0
            && r.value.call.enters == s.call.enters
            && r.value.call.exits == (if s.t.last == Syscall then 1 else 0)
            && (r.value.call.exits == 1 ==> r.value.call.enters == 1)
            && (s.call.asked.filtered && s.call.asked.sysexit ==> r.value.call.exits == 1)
  {
    AssertionsHold(s0, cs);
    NextInvariant(s, Finish(o));
  }

  /** A stop at the end of a syscall is never taken for an entry, nor the other way round. */
  lemma StagesMatchStops(s0: System, cs: seq<Choice>, s: System, c: Choice)
    requires Reachable(s0, cs, s) && Possible(s, true, c)
    ensures Next(s, c).Some?
    ensures !c.MakeSyscall? ==>
              var call, call' := s.call, Next(s, c).value.call;
              && (call'.enters > call.enters ==> c.CheckFilter? || c.ReportEntry?)
              && (call'.exits > call.exits ==> c.Finish?)
  {
    AssertionsHold(s0, cs);
    NextInvariant(s, c);
  }

  /** The first seccomp stop tells the two kernel orders apart. */
  lemma OrderDetected(s0: System, cs: seq<Choice>, s: System, o: Outcome)
    requires Reachable(s0, cs, s) && Possible(s, true, CheckFilter(o)) && s.call.kind.filtered
    ensures Next(s, CheckFilter(o)).Some?
    ensures Next(s, CheckFilter(o)).value.g == Detection(true, s.newOrder)
  {
    AssertionsHold(s0, cs);
    NextInvariant(s, CheckFilter(o));
  }

  /** An ordinary signal raised during a chain is held back, and the last one held back is
      delivered by the very stop that ends the chain. */
  lemma SignalsHeldBack(s0: System, cs: seq<Choice>, s: System, stop: Stop, o: Outcome)
    requires Reachable(s0, cs, s)
    ensures HeldBack(s.t, stop, Step(s.t, s.g, stop, o))
  {
    AssertionsHold(s0, cs);
    match stop
    case SyscallStop => HeldBackAtSyscallStop(ChooseHow(s.t), s.g, o);
    case SeccompStop(sysexit) => HeldBackAtSeccompStop(ChooseHow(s.t), s.g, sysexit || ExitNecessary(s.t), o);
    case _ =>
  }

  predicate HeldBack(t: Tracee, stop: Stop, r: Reply) {
    r.Resume? ==>
      && (r.signal != 0 ==> r.t.chain.None?)
      && (r.t.chain.Some? || r.t.suppressed == 0)
      && (t.suppressed != 0 && !stop.SignalStop? && r.t.chain.None? ==> r.signal == t.suppressed)
  }

  /** What a run tells of signals: one raised outside of any chain, one raised during a chain, and the
      end of a chain. */
  datatype Mark = Now(signal: int) | During(signal: int) | Over

  function MarksOf(s: System, c: Choice): seq<Mark> {
    if c.RaiseSignal? then [if s.t.chain.None? then Now(c.signal) else During(c.signal)]
    else if s.t.chain.Some? && Next(s, c).Some? && Next(s, c).value.t.chain.None? then [Over]
    else []
  }

  function Marks(s: System, cs: seq<Choice>): seq<Mark>
    requires Run(s, true, cs)
    decreases |cs|
  {
    if cs == [] || Next(s, cs[0]).None? then [] else MarksOf(s, cs[0]) + Marks(Next(s, cs[0]).value, cs[1..])
  }

  /** What the tracee has to get when `held` is held back (0 for nothing): every signal, but for those
      that another one replaced during the same chain. */
  function Due(held: int, marks: seq<Mark>): seq<int>
    decreases |marks|
  {
    if marks == [] then Pending(held)
    else
      match marks[0]
      case Now(signal) => Pending(held) + [signal] + Due(0, marks[1..])
      case During(signal) => Due(signal, marks[1..])
      case Over => Pending(held) + Due(0, marks[1..])
  }

  /** One step: a signal raised outside of a chain is delivered at once, one raised during a chain takes
      the place of the one that is held back, the end of the chain delivers that one, and nothing else is
      ever delivered. */
  lemma SignalStep(s: System, c: Choice)
    requires Invariant(s, true) && Possible(s, true, c)
    ensures Next(s, c).Some?
    ensures var s', held := Next(s, c).value, s.t.suppressed;
            if c.RaiseSignal? && s.t.chain.None? then s'.delivered == s.delivered + [c.signal] && s'.t.suppressed == held == 0
            else if c.RaiseSignal? then s'.delivered == s.delivered && s'.t.suppressed == c.signal && s'.t.chain == s.t.chain
            else if s'.t.chain.None? then s'.delivered == s.delivered + Pending(held) && s'.t.suppressed == 0
            else s'.delivered == s.delivered && s'.t.suppressed == held
  {
    NextInvariant(s, c);
    if c.CheckFilter? {
      SignalAtFilter(s, c.o);
    }
  }

  lemma SignalAtFilter(s: System, o: Outcome)
    requires Invariant(s, true) && Possible(s, true, CheckFilter(o)) && Next(s, CheckFilter(o)).Some?
    ensures var s' := Next(s, CheckFilter(o)).value;
            s'.delivered == s.delivered && s'.t.suppressed == s.t.suppressed && (s.t.chain.Some? ==> s'.t.chain.Some?)
  {
  }

  lemma {:induction false} DueStep(held: int, marks: seq<Mark>, mark: Mark)
    ensures Due(held, [mark] + marks) ==
            if mark.Now? then Pending(held) + [mark.signal] + Due(0, marks)
            else if mark.During? then Due(mark.signal, marks)
            else Pending(held) + Due(0, marks)
  {
    assert ([mark] + marks)[1..] == marks;
  }

  /** Main theorem on signals: over every run, what was delivered and what is held back is all that was
      raised, in order, but for what was replaced during its chain. */
  lemma {:induction false} SignalsDelivered(s: System, cs: seq<Choice>)
    requires Invariant(s, true) && Run(s, true, cs)
    ensures Execute(s, true, cs).Some?
    ensures var s' := Execute(s, true, cs).value;
            s'.delivered + Pending(s'.t.suppressed) == s.delivered + Due(s.t.suppressed, Marks(s, cs))
    decreases |cs|
  {
    if cs != [] {
      var next, rest := Next(s, cs[0]), cs[1..];
      SignalStep(s, cs[0]);
      NextInvariant(s, cs[0]);
      SignalsDelivered(next.value, rest);
      DueSplit(s.delivered, s.t.suppressed, MarksOf(s, cs[0]), Marks(next.value, rest), next.value);
    }
  }

  lemma Join(a: seq<int>, b: seq<int>, c: seq<int>)
    ensures a + (b + c) == a + b + c
  {
  }

  /** The marks of one step and those after it. */
  lemma {:induction false} DueSplit(before: seq<int>, held: int, ms: seq<Mark>, marks: seq<Mark>, next: System)
    requires |ms| <= 1
    requires if ms == [] then next.delivered == before && next.t.suppressed == held
             else if ms[0].Now? then held == 0 && next.delivered == before + [ms[0].signal] && next.t.suppressed == 0
             else if ms[0].During? then next.delivered == before && next.t.suppressed == ms[0].signal
             else next.delivered == before + Pending(held) && next.t.suppressed == 0
    ensures next.delivered + Due(next.t.suppressed, marks) == before + Due(held, ms + marks)
  {
    if ms == [] {
      assert ms + marks == marks;
    } else {
      assert ms == [ms[0]];
      DueStep(held, marks, ms[0]);
      Join(before, Pending(held), Due(0, marks));
    }
  }

  /** The signals of a run whose chains are never interrupted by one are delivered one by one. */
  lemma {:induction false} AllDue(marks: seq<Mark>)
    requires forall i :: 0 <= i < |marks| ==> !marks[i].During?
    ensures Due(0, marks) == RaisedIn(marks)
    decreases |marks|
  {
    if marks != [] {
      AllDue(marks[1..]);
    }
  }

  function RaisedIn(marks: seq<Mark>): seq<int>
    decreases |marks|
  {
    if marks == [] then []
    else (match marks[0] case Over => [] case Now(n) => [n] case During(n) => [n]) + RaisedIn(marks[1..])
  }

  lemma HeldBackAtSyscallStop(t: Tracee, g: Detection, o: Outcome)
    requires t.suppressed != 0 ==> t.chain.Some?
    ensures HeldBack(t, SyscallStop, HandleSyscallStop(t, g, o))
  {
  }

  lemma HeldBackAtSeccompStop(t: Tracee, g: Detection, exitNecessary: bool, o: Outcome)
    requires t.suppressed != 0 ==> t.chain.Some?
    ensures HeldBack(t, SeccompStop(exitNecessary), HandleSeccompStop(t, g, exitNecessary, o))
  {
  }

  // ----- The condition on the filter is exact -----

  ghost predicate Safe(newOrder: bool, forkFree: bool) {
    forall s, cs :: Initial(s) && s.newOrder == newOrder && Run(s, forkFree, cs) ==> Execute(s, forkFree, cs).Some?
  }

  /** No assertion can fail if and only if the filter traces no syscall that reports a fork. */
  lemma SafeIffForkFree(newOrder: bool, forkFree: bool)
    ensures Safe(newOrder, forkFree) <==> forkFree
  {
    if forkFree {
      forall s, cs | Initial(s) && s.newOrder == newOrder && Run(s, true, cs)
        ensures Execute(s, true, cs).Some?
      {
        InitialInvariant(s);
        AssertionsHold(s, cs);
      }
    } else if newOrder {
      var s, cs := ForkTracedAbortsNew();
    } else {
      var s, cs := ForkTracedAbortsOld();
    }
  }

  function FastTracee(newOrder: bool, kind: Kind): System {
    System(newOrder, Tracee(0, Undecided, Cont, Enabled, false, false, None, 0),
           Detection(true, newOrder), UserMode, Call(kind, kind, 0, 0), [])
  }

  const QUIET := Outcome(0, false, None, false)

  /** New order: the seccomp stop of a fork-like syscall leaves its exit stage pending without
      `exitPending`; the fork event then drops it, and the next seccomp stop is out of step. */
  lemma ForkTracedAbortsNew() returns (s: System, cs: seq<Choice>)
    ensures Initial(s) && s.newOrder && Run(s, false, cs) && Execute(s, false, cs).None?
  {
    var kind := Kind(true, true, true);
    s := FastTracee(true, kind);
    var u;
    cs, u := Extend(s, [], s, MakeSyscall(kind));
    cs, u := Extend(s, cs, u, ReportEntry(QUIET, kind));
    cs, u := Extend(s, cs, u, CheckFilter(QUIET));
    assert u.place == Executing && u.t.status == 1 && u.t.last == Syscall && !ExitNecessary(u.t);
    cs, u := Extend(s, cs, u, ReportFork);
    cs, u := Extend(s, cs, u, Finish(QUIET));
    assert u.place == UserMode && u.t.status == 1 && u.t.last == Cont;
    cs, u := Extend(s, cs, u, MakeSyscall(kind));
    cs, u := Extend(s, cs, u, ReportEntry(QUIET, kind));
    RunSnoc(s, false, cs, CheckFilter(QUIET));
    cs := cs + [CheckFilter(QUIET)];
  }

  /** Old order: the same happens when the exit stop is asked for by the enter stage itself. */
  lemma ForkTracedAbortsOld() returns (s: System, cs: seq<Choice>)
    ensures Initial(s) && !s.newOrder && Run(s, false, cs) && Execute(s, false, cs).None?
  {
    var kind := Kind(true, false, true);
    s := FastTracee(false, kind);
    var u;
    cs, u := Extend(s, [], s, MakeSyscall(kind));
    cs, u := Extend(s, cs, u, CheckFilter(QUIET.(wantsExit := true)));
    assert u.t.alreadyHandled && u.t.status == 1;
    cs, u := Extend(s, cs, u, ReportEntry(QUIET, kind));
    assert u.place == Executing && u.t.status == 1 && u.t.last == Syscall && !ExitNecessary(u.t);
    cs, u := Extend(s, cs, u, ReportFork);
    cs, u := Extend(s, cs, u, Finish(QUIET));
    assert u.place == UserMode && u.t.status == 1 && u.t.last == Cont;
    cs, u := Extend(s, cs, u, MakeSyscall(kind));
    RunSnoc(s, false, cs, CheckFilter(QUIET));
    cs := cs + [CheckFilter(QUIET)];
  }

  lemma Extend(s: System, cs: seq<Choice>, u: System, c: Choice) returns (cs': seq<Choice>, u': System)
    requires Run(s, false, cs) && Execute(s, false, cs) == Some(u)
    requires Possible(u, false, c) && Next(u, c).Some?
    ensures Run(s, false, cs') && Execute(s, false, cs') == Some(u') && u' == Next(u, c).value
  {
    RunSnoc(s, false, cs, c);
    cs', u' := cs + [c], Next(u, c).value;
  }

  /** A run can be extended by any possible step. */
  lemma {:induction false} RunSnoc(s: System, forkFree: bool, cs: seq<Choice>, c: Choice)
    requires Run(s, forkFree, cs) && Execute(s, forkFree, cs).Some?
    requires Possible(Execute(s, forkFree, cs).value, forkFree, c)
    ensures Run(s, forkFree, cs + [c])
    ensures Execute(s, forkFree, cs + [c]) == Next(Execute(s, forkFree, cs).value, c)
    decreases |cs|
  {
    if cs == [] {
      assert cs + [c] == [c];
    } else {
      assert (cs + [c])[1..] == cs[1..] + [c];
      RunSnoc(Next(s, cs[0]).value, forkFree, cs[1..], c);
    }
  }

  // ----- The event loop, in place -----

  class EventLoop {
    // The tracee.
    var status: int
    var restartHow: How
    var lastRestartHow: How
    var seccomp: SeccompMode
    var sysexitPending: bool
    var seccompAlreadyHandledEnter: bool
    var chain: Option<nat>
    var suppressedSignal: int
    // Static variables of event.c.
    var seccompDetected: bool
    var seccompAfterPtraceEnter: bool

    function State(): Tracee
      reads this
    {
      Tracee(status, restartHow, lastRestartHow, seccomp, sysexitPending, seccompAlreadyHandledEnter, chain, suppressedSignal)
    }

    function Flags(): Detection
      reads this
    {
      Detection(seccompDetected, seccompAfterPtraceEnter)
    }

    /** Both stages of src/syscall/syscall.c, the translation proper being given by `o`. */
    method TranslateStage(o: Outcome)
      modifies this
      ensures State() == TranslateSyscall(old(State()), o) && Flags() == old(Flags())
    {
      if status == 0 {
        if chain.None? {
          if o.disables && seccomp == Enabled {
            seccomp := Disabling;
          }
          if o.wantsExit {
            restartHow := Syscall;
          }
          RegisterChained(o.chained);
        } else {
          restartHow := Syscall;
        }
        if o.status < 0 {
          status := o.status;
        } else {
          status := 1;
        }
        if restartHow == Cont {
          status := 0;
        }
      } else {
        if chain.None? && o.disables && seccomp == Enabled {
          seccomp := Disabling;
        }
        RegisterChained(o.chained);
        status := 0;
        if chain.Some? {
          ChainNextSyscall();
        }
      }
    }

    method RegisterChained(more: Option<nat>)
      modifies this`chain
      ensures chain == AddChained(old(chain), more)
    {
      if more.Some? {
        chain := Some((if chain.None? then 0 else chain.value) + more.value);
      }
    }

    method ChainNextSyscall()
      requires chain.Some?
      modifies this`chain, this`restartHow
      ensures chain == if old(chain).value == 0 then None else Some(old(chain).value - 1)
      ensures restartHow == if old(chain).value == 0 then old(restartHow) else Syscall
    {
      if chain.value == 0 {
        chain := None;
        return;
      }
      chain := Some(chain.value - 1);
      restartHow := Syscall;
    }

    method OnSyscallStop(o: Outcome) returns (ok: bool, signal: int, ghost entered: bool, ghost exited: bool)
      modifies this
      ensures var r := HandleSyscallStop(old(State()), old(Flags()), o);
              if ok then r == Resume(State(), Flags(), signal, entered, exited) else r.Abort?
    {
      ok, signal, entered, exited := true, 0, false, false;
      if seccomp == Disabling {
        seccomp := Disabled;
        if status == 0 {
          status := 1;
        }
      } else {
        if seccomp == Enabled {
          if status == 0 {
            restartHow := Syscall;
            sysexitPending := true;
          } else {
            restartHow := Cont;
            sysexitPending := false;
          }
        }
        if !seccompAlreadyHandledEnter {
          entered, exited := status == 0, status != 0;
          TranslateStage(o);
          if suppressedSignal != 0 && chain.None? {
            signal := suppressedSignal;
            suppressedSignal := 0;
          }
        } else {
          if status == 0 || seccompAfterPtraceEnter {
            ok := false;
            return;
          }
          seccompAlreadyHandledEnter := false;
          restartHow := Syscall;
        }
        if seccomp == Disabling {
          restartHow := Syscall;
          seccomp := Disabled;
        }
      }
    }

    method OnSeccompStop(exitNecessary: bool, o: Outcome) returns (ok: bool, ghost entered: bool)
      modifies this
      ensures var r := HandleSeccompStop(old(State()), old(Flags()), exitNecessary, o);
              if ok then r == Resume(State(), Flags(), 0, entered, false) else r.Abort?
    {
      ok, entered := true, false;
      if !seccompDetected {
        seccomp := Enabled;
        seccompDetected := true;
        seccompAfterPtraceEnter := status != 0;
      }
      if seccompAfterPtraceEnter && status != 0 {
        restartHow := lastRestartHow;
        ok := restartHow != Cont;
        return;
      }
      if status != 0 {
        ok := false;
        return;
      }
      if seccomp != Enabled {
        return;
      }
      if exitNecessary {
        if seccompAfterPtraceEnter {
          restartHow := Syscall;
          entered := true;
          TranslateStage(o);
        }
        restartHow := Syscall;
        return;
      }
      restartHow := Cont;
      entered := true;
      TranslateStage(o);
      if seccomp == Disabling {
        restartHow := Syscall;
      }
      if !seccompAfterPtraceEnter && restartHow == Syscall {
        seccompAlreadyHandledEnter := true;
      }
    }

    /** `ok` is false when an assertion of the source fails. */
    method HandleTraceeEvent(stop: Stop, o: Outcome) returns (ok: bool, signal: int, ghost entered: bool, ghost exited: bool)
      modifies this
      ensures var r := HandleEvent(old(State()), old(Flags()), stop, o);
              if ok then r == Resume(State(), Flags(), signal, entered, exited) else r.Abort?
    {
      ok, signal, entered, exited := true, 0, false, false;
      var sysexitNecessary := sysexitPending || chain.Some?;
      if restartHow == Undecided {
        if seccomp == Enabled && !sysexitNecessary {
          restartHow := Cont;
        } else {
          restartHow := Syscall;
        }
      }
      match stop
      case SyscallStop =>
        ok, signal, entered, exited := OnSyscallStop(o);
      case SeccompStop(sysexit) =>
        ok, entered := OnSeccompStop(sysexit || sysexitNecessary, o);
      case ForkStop =>
      case InnerStop =>
        if lastRestartHow != Undecided {
          restartHow := lastRestartHow;
        }
      case SignalStop(sig) =>
        if chain.Some? {
          suppressedSignal := sig;
        } else {
          signal := sig;
        }
    }

    method RestartTracee() returns (ok: bool)
      modifies this
      ensures var r := Restart(Resume(old(State()), old(Flags()), 0, false, false));
              if ok then r == Resume(State(), Flags(), 0, false, false) else r.Abort?
    {
      if restartHow == Undecided {
        return false;
      }
      lastRestartHow := restartHow;
      restartHow := Undecided;
      ok := true;
    }
  }
}
