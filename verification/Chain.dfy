/** Chained syscalls and register restoration: src/syscall/chain.c, src/tracee/reg.c
    and the register handling of src/syscall/syscall.c, with the x86_64 layout, where the
    result register also holds the number of a syscall about to be made. */
module Chain {
  import opened Common

  const SYSTRAP_SIZE: nat := 2
  const ENOSYS: int := 38
  const AVOIDER: Word := 0xFFFF_FFFF_FFFF_FFFE

  /** Argument registers are numbered 1 to 6, as in the source. */
  datatype Reg = Num | Arg(i: nat) | Result | StackPointer | InstrPointer

  datatype Regs = Regs(num: Word, args: seq<Word>, result: Word, sp: Word, ip: Word)

  predicate ValidRegs(r: Regs) {
    |r.args| == 6
  }

  predicate ValidReg(reg: Reg) {
    reg.Arg? ==> 1 <= reg.i <= 6
  }

  function Get(r: Regs, reg: Reg): Word
    requires ValidRegs(r) && ValidReg(reg)
  {
    match reg
    case Num => r.num
    case Arg(i) => r.args[i - 1]
    case Result => r.result
    case StackPointer => r.sp
    case InstrPointer => r.ip
  }

  function Set(r: Regs, reg: Reg, v: Word): Regs
    requires ValidRegs(r) && ValidReg(reg)
  {
    match reg
    case Num => r.(num := v)
    case Arg(i) => r.(args := r.args[i - 1 := v])
    case Result => r.(result := v)
    case StackPointer => r.(sp := v)
    case InstrPointer => r.(ip := v)
  }

  datatype Syscall = Syscall(num: Word, args: seq<Word>)

  /** What translation code and extensions may do during a stage. */
  datatype Action =
    | Poke(reg: Reg, value: Word)
    | Register(syscall: Syscall)
    | Force(value: Word)

  predicate ValidAction(a: Action) {
    match a
    case Poke(reg, _) => ValidReg(reg) && reg != InstrPointer
    case Register(syscall) => |syscall.args| == 6
    case Force(_) => true
  }

  predicate ValidActions(acts: seq<Action>) {
    forall i :: 0 <= i < |acts| ==> ValidAction(acts[i])
  }

  /** The syscalls registered by a sequence of actions, in order. */
  function Registered(acts: seq<Action>): seq<Syscall> {
    if acts == [] then []
    else Registered(acts[..|acts| - 1]) +
         (var a := acts[|acts| - 1]; if a.Register? then [a.syscall] else [])
  }

  /** The last result forced by a sequence of actions. */
  function Forced(before: Option<Word>, acts: seq<Action>): Option<Word> {
    if acts == [] then before
    else
      var a := acts[|acts| - 1];
      if a.Force? then Some(a.value) else Forced(before, acts[..|acts| - 1])
  }

  /** A register after a sequence of actions: the last value put there, if any. */
  function After(before: Word, reg: Reg, acts: seq<Action>): Word {
    if acts == [] then before
    else
      var a := acts[|acts| - 1];
      if a.Poke? && a.reg == reg then a.value else After(before, reg, acts[..|acts| - 1])
  }

  // ----- PRoot's cache of a tracee -----

  datatype Cache = Cache(
    current: Regs, original: Regs, changed: bool, restore: bool,
    chain: Option<seq<Syscall>>, force: Option<Word>)

  predicate ValidCache(c: Cache) {
    && ValidRegs(c.current) && ValidRegs(c.original)
    && (c.chain.Some? ==> forall i :: 0 <= i < |c.chain.value| ==> |c.chain.value[i].args| == 6)
  }

  function PokeReg(c: Cache, reg: Reg, v: Word): (c': Cache)
    requires ValidCache(c) && ValidReg(reg)
    ensures ValidCache(c')
  {
    if Get(c.current, reg) == v then c else c.(current := Set(c.current, reg, v), changed := true)
  }

  /** The chain once more syscalls were registered. */
  function Queue(chain: Option<seq<Syscall>>, more: seq<Syscall>): Option<seq<Syscall>> {
    if more == [] then chain else if chain.None? then Some(more) else Some(chain.value + more)
  }

  function Act(c: Cache, a: Action): (c': Cache)
    requires ValidCache(c) && ValidAction(a)
    ensures ValidCache(c')
  {
    match a
    case Poke(reg, v) => PokeReg(c, reg, v)
    case Register(syscall) => c.(chain := Queue(c.chain, [syscall]))
    case Force(v) => c.(force := Some(v))
  }

  function ActAll(c: Cache, acts: seq<Action>): (c': Cache)
    requires ValidCache(c) && ValidActions(acts)
    ensures ValidCache(c')
  {
    if acts == [] then c else Act(ActAll(c, acts[..|acts| - 1]), acts[|acts| - 1])
  }

  /** This action puts a value where there was another one. */
  predicate PutsNew(c: Cache, acts: seq<Action>, k: nat)
    requires ValidCache(c) && ValidActions(acts) && k < |acts|
  {
    assert ValidAction(acts[k]);
    acts[k].Poke? && Get(ActAll(c, acts[..k]).current, acts[k].reg) != acts[k].value
  }

  /** The registers have to be written back if and only if some action put a new value somewhere. */
  lemma {:induction false} ChangedIff(c: Cache, acts: seq<Action>)
    requires ValidCache(c) && ValidActions(acts)
    ensures ActAll(c, acts).changed <==> c.changed || exists k: nat :: k < |acts| && PutsNew(c, acts, k)
    decreases |acts|
  {
    if acts != [] {
      var n := |acts| - 1;
      var front := acts[..n];
      ChangedIff(c, front);
      forall k: nat | k < n ensures PutsNew(c, front, k) <==> PutsNew(c, acts, k) {
        assert front[..k] == acts[..k];
      }
      assert PutsNew(c, acts, n) <==> acts[n].Poke? && Get(ActAll(c, front).current, acts[n].reg) != acts[n].value;
    }
  }

  function PokeArgs(c: Cache, args: seq<Word>, n: nat): (c': Cache)
    requires ValidCache(c) && |args| == 6 && n <= 6
    ensures ValidCache(c')
  {
    if n == 0 then c else PokeReg(PokeArgs(c, args, n - 1), Arg(n), args[n - 1])
  }

  /** Use the first element of the chain to forge a new syscall, or end the chain. */
  function ChainNext(c: Cache): (c': Cache)
    requires ValidCache(c) && c.chain.Some?
    ensures ValidCache(c')
  {
    var q := c.chain.value;
    if q == [] then
      var c1 := c.(chain := None);
      var c2 := if c.force.Some? then PokeReg(c1, Result, c.force.value) else c1;
      c2.(force := None)
    else
      var c1 := c.(restore := false, chain := Some(q[1..]));
      var c2 := PokeReg(PokeArgs(c1, q[0].args, 6), Result, q[0].num);
      PokeReg(c2, InstrPointer, Wrap(c2.current.ip - SYSTRAP_SIZE))
  }

  /** The enter stage; `status` is the answer of the translation or of the extensions. */
  function EnterStage(c0: Cache, u: Regs, acts: seq<Action>, status: int): (c': Cache)
    requires ValidCache(c0) && ValidRegs(u) && ValidActions(acts)
    ensures ValidCache(c')
  {
    var c := c0.(current := u, restore := false);
    var c1 := if c.chain.None? then c.(original := u, changed := false) else c;
    ActAll(c1, acts + StatusActions(status))
  }

  /** The same for a call that will not be stopped at its exit: the stack pointer is put back at once. */
  function EnterStageOnly(c0: Cache, u: Regs, acts: seq<Action>, status: int): (c': Cache)
    requires ValidCache(c0) && ValidRegs(u) && ValidActions(acts)
    ensures ValidCache(c')
  {
    var c := EnterStage(c0, u, acts, status);
    PokeReg(c, StackPointer, c.original.sp)
  }

  /** An error reported by the enter stage avoids the actual syscall. */
  function StatusActions(status: int): (acts: seq<Action>)
    ensures ValidActions(acts)
  {
    if status < 0 then [Poke(Num, AVOIDER), Poke(Result, Wrap(status))] else []
  }

  function ExitStage(c0: Cache, u: Regs, acts: seq<Action>): (c': Cache)
    requires ValidCache(c0) && ValidRegs(u) && ValidActions(acts)
    ensures ValidCache(c')
  {
    var c1 := ActAll(c0.(current := u, restore := true), acts);
    if c1.chain.Some? then ChainNext(c1) else c1
  }

  /** The cache after push_specific_regs: original values are restored at the very end. */
  function Restored(c: Cache): Regs {
    if c.restore
    then Regs(c.original.num, c.original.args, c.current.result, c.original.sp, c.current.ip)
    else c.current
  }

  /** The registers of the tracee after push_specific_regs, from `u` before. */
  function Pushed(c: Cache, u: Regs): Regs {
    if c.changed then Restored(c) else u
  }

  function AfterPush(c: Cache): (c': Cache)
    requires ValidCache(c)
    ensures ValidCache(c')
  {
    if c.changed then c.(current := Restored(c)) else c
  }

  // ----- The kernel -----

  /** The trap instruction: the number moves from the result register to its own place. */
  function Trap(u: Regs): Regs {
    u.(num := u.result, result := Wrap(-ENOSYS), ip := Wrap(u.ip + SYSTRAP_SIZE))
  }

  /** The tracee's registers, PRoot's cache, the syscalls trapped so far, as the tracee's registers
      presented them, and those that the kernel ran in their places. */
  datatype System = System(u: Regs, c: Cache, log: seq<Syscall>, ran: seq<Syscall>)

  predicate ValidSystem(s: System) {
    ValidRegs(s.u) && ValidCache(s.c)
  }

  /** One syscall: what is done at its entry, what the kernel returns, what is done at its exit. */
  datatype Round = Round(enter: seq<Action>, status: int, returned: Word, exit: seq<Action>)

  predicate ValidRound(r: Round) {
    ValidActions(r.enter) && ValidActions(r.exit)
  }

  /** The kernel runs what the registers say; no call has the number that avoids one, and then the
      result register stays as it is. */
  function Serve(u: Regs, r: Round): Regs {
    if u.num == AVOIDER then u else u.(result := r.returned)
  }

  function MakeSyscall(s: System, r: Round): (s': System)
    requires ValidSystem(s) && ValidRound(r)
    ensures ValidSystem(s')
  {
    var u1 := Trap(s.u);
    var c1 := EnterStage(s.c, u1, r.enter, r.status);
    var u2 := Pushed(c1, u1);
    var u3 := Serve(u2, r);
    var c2 := ExitStage(AfterPush(c1), u3, r.exit);
    System(Pushed(c2, u3), AfterPush(c2), s.log + [Syscall(u1.num, u1.args)], s.ran + [Syscall(u2.num, u2.args)])
  }

  /** A call that is not stopped at its exit. */
  function MakeUnstopped(s: System, r: Round): (s': System)
    requires ValidSystem(s) && ValidRound(r)
    ensures ValidSystem(s')
  {
    var u1 := Trap(s.u);
    var c1 := EnterStageOnly(s.c, u1, r.enter, r.status);
    var u2 := Pushed(c1, u1);
    System(Serve(u2, r), AfterPush(c1), s.log + [Syscall(u1.num, u1.args)], s.ran + [Syscall(u2.num, u2.args)])
  }

  function Rounds(s: System, rs: seq<Round>): (s': System)
    requires ValidSystem(s) && forall i :: 0 <= i < |rs| ==> ValidRound(rs[i])
    ensures ValidSystem(s')
  {
    if rs == [] then s else MakeSyscall(Rounds(s, rs[..|rs| - 1]), rs[|rs| - 1])
  }

  // ----- What a sequence of actions leaves alone -----

  lemma {:induction false} ActAllEffect(c: Cache, acts: seq<Action>)
    requires ValidCache(c) && ValidActions(acts)
    ensures var c' := ActAll(c, acts);
            && c'.original == c.original && c'.restore == c.restore && c'.current.ip == c.current.ip
            && c'.force == Forced(c.force, acts)
            && c'.chain == Queue(c.chain, Registered(acts))
            && (!c'.changed ==> !c.changed && c'.current == c.current)
  {
    if acts != [] {
      var front, a := acts[..|acts| - 1], acts[|acts| - 1];
      ActAllEffect(c, front);
      QueueTwice(c.chain, Registered(front), if a.Register? then [a.syscall] else []);
    }
  }

  lemma QueueTwice(chain: Option<seq<Syscall>>, a: seq<Syscall>, b: seq<Syscall>)
    ensures Queue(Queue(chain, a), b) == Queue(chain, a + b)
  {
    assert b == [] ==> a + b == a;
    assert a == [] ==> a + b == b;
    if chain.Some? {
      assert chain.value + (a + b) == (chain.value + a) + b;
    }
  }

  /** The next chained syscall is ready to be trapped once the instruction pointer has moved back. */
  lemma ChainNextEffect(c: Cache)
    requires ValidCache(c) && c.chain.Some?
    ensures var c', q := ChainNext(c), c.chain.value;
            && c'.original == c.original
            && (q == [] ==>
                  && c'.chain.None? && c'.force.None? && c'.restore == c.restore
                  && c'.current == c.current.(result := if c.force.Some? then c.force.value else c.current.result)
                  && (c.changed ==> c'.changed))
            && (q != [] ==>
                  && c'.chain == Some(q[1..]) && c'.force == c.force && !c'.restore && c'.changed
                  && c'.current.args == q[0].args && c'.current.result == q[0].num
                  && c'.current.ip == Wrap(c.current.ip - SYSTRAP_SIZE))
  {
    var q := c.chain.value;
    if q != [] {
      PokeArgsEffect(c.(restore := false, chain := Some(q[1..])), q[0].args, 6);
      assert q[0].args[..6] == q[0].args;
    }
  }

  lemma {:induction false} PokeArgsEffect(c: Cache, args: seq<Word>, n: nat)
    requires ValidCache(c) && |args| == 6 && n <= 6
    ensures var c' := PokeArgs(c, args, n);
            && c' == c.(current := c'.current, changed := c'.changed)
            && c'.current == c.current.(args := c'.current.args)
            && c'.current.args[..n] == args[..n]
  {
    if n != 0 {
      PokeArgsEffect(c, args, n - 1);
      assert args[..n] == args[..n - 1] + [args[n - 1]];
      var c1 := PokeArgs(c, args, n - 1);
      assert PokeArgs(c, args, n).current.args == c1.current.args[n - 1 := args[n - 1]];
    }
  }

  // ----- Theorems -----

  /** The actions of the rounds, in the order they were done. */
  function Actions(rs: seq<Round>): seq<Action> {
    if rs == [] then [] else Actions(rs[..|rs| - 1]) + rs[|rs| - 1].enter + rs[|rs| - 1].exit
  }

  ghost predicate ValidRounds(rs: seq<Round>) {
    forall i :: 0 <= i < |rs| ==> ValidRound(rs[i])
  }

  /** `rs` is a syscall of the tracee with all the syscalls chained to it, up to the last but one
      exit stage: every round so far left a chain in progress. */
  ghost predicate InProgress(s: System, rs: seq<Round>)
    requires ValidSystem(s) && ValidRounds(rs)
  {
    && s.c.chain.None?
    && forall k :: 0 < k <= |rs| ==> Rounds(s, rs[..k]).c.chain.Some?
  }

  /** While a chain is in progress, the entry registers are remembered, the instruction pointer is
      back on the trap, and what was trapped, what comes next and what is queued are the
      registered syscalls in their order. */
  ghost predicate ChainInvariant(s0: System, s: System, acts: seq<Action>)
    requires ValidSystem(s0) && ValidSystem(s)
  {
    && s.c.original == Trap(s0.u)
    && s.c.chain.Some?
    && s.c.changed
    && s.u.ip == s0.u.ip
    && s.c.force == Forced(s0.c.force, acts)
    && s.log + [Syscall(s.u.result, s.u.args)] + s.c.chain.value
       == s0.log + [Syscall(s0.u.result, s0.u.args)] + Registered(acts)
  }

  lemma {:induction false} RegisteredAppend(a: seq<Action>, b: seq<Action>)
    ensures Registered(a + b) == Registered(a) + Registered(b)
    ensures forall f :: Forced(f, a + b) == Forced(Forced(f, a), b)
    decreases |b|
  {
    if b == [] {
      assert a + b == a;
    } else {
      assert (a + b)[..|a + b| - 1] == a + b[..|b| - 1];
      RegisteredAppend(a, b[..|b| - 1]);
    }
  }

  /** The cache and the tracee's registers around the run of the syscall itself. */
  lemma EnterEffect(s: System, r: Round)
    requires ValidSystem(s) && ValidRound(r)
    ensures var u1 := Trap(s.u);
            var c1 := EnterStage(s.c, u1, r.enter, r.status);
            && !c1.restore
            && c1.original == (if s.c.chain.None? then u1 else s.c.original)
            && c1.chain == Queue(s.c.chain, Registered(r.enter))
            && c1.force == Forced(s.c.force, r.enter)
            && Pushed(c1, u1).ip == u1.ip
            && (!c1.changed ==> Pushed(c1, u1) == u1 && (s.c.chain.Some? ==> !s.c.changed))
  {
    var u1 := Trap(s.u);
    var c := s.c.(current := u1, restore := false);
    ActAllEffect(if c.chain.None? then c.(original := u1, changed := false) else c, r.enter + StatusActions(r.status));
    RegisteredAppend(r.enter, StatusActions(r.status));
    PokesRegisterNothing(StatusActions(r.status));
    assert Registered(r.enter) + [] == Registered(r.enter);
  }

  lemma {:induction false} PokesRegisterNothing(acts: seq<Action>)
    requires forall i :: 0 <= i < |acts| ==> acts[i].Poke?
    ensures Registered(acts) == []
    ensures forall f :: Forced(f, acts) == f
  {
    if acts != [] {
      PokesRegisterNothing(acts[..|acts| - 1]);
    }
  }

  /** The cache at the end of the exit stage, before it is pushed. */
  lemma {:induction false} ExitEffect(c0: Cache, u: Regs, acts: seq<Action>)
    requires ValidCache(c0) && ValidRegs(u) && ValidActions(acts)
    ensures var c2, chain, force := ExitStage(c0, u, acts), Queue(c0.chain, Registered(acts)), Forced(c0.force, acts);
            && c2.original == c0.original
            && if chain.None? then
                 && c2.chain.None? && c2.force == force && c2.restore && c2.current.ip == u.ip
                 && (!c2.changed ==> !c0.changed && c2.current == u)
               else if chain.value == [] then
                 && c2.chain.None? && c2.force.None? && c2.restore && c2.current.ip == u.ip
                 && (c0.changed ==> c2.changed) && (!c2.changed ==> c2.current == u)
                 && (force.Some? ==> c2.current.result == force.value)
               else
                 && c2.chain == Some(chain.value[1..]) && c2.force == force && !c2.restore && c2.changed
                 && c2.current.args == chain.value[0].args && c2.current.result == chain.value[0].num
                 && c2.current.ip == Wrap(u.ip - SYSTRAP_SIZE)
  {
    var c := c0.(current := u, restore := true);
    ActAllEffect(c, acts);
    var c1 := ActAll(c, acts);
    if c1.chain.Some? {
      ChainNextEffect(c1);
    }
  }

  lemma BackOnTrap(ip: Word)
    ensures Wrap(Wrap(ip + SYSTRAP_SIZE) - SYSTRAP_SIZE) == ip
  {
  }

  /** Everything one round does, in terms of the actions done in it. */
  lemma RoundEffect(s: System, r: Round)
    requires ValidSystem(s) && ValidRound(r)
    requires s.c.chain.Some? ==> s.c.changed
    ensures var s' := MakeSyscall(s, r);
            var acts := r.enter + r.exit;
            var original := if s.c.chain.None? then Trap(s.u) else s.c.original;
            var chain := Queue(s.c.chain, Registered(acts));
            var force := Forced(s.c.force, acts);
            && s'.c.original == original
            && s'.log == s.log + [Syscall(s.u.result, s.u.args)]
            && match chain
               case None =>
                 s'.u == original.(result := s'.u.result, ip := Trap(s.u).ip) && s'.c.chain.None? && s'.c.force == force
               case Some(q) =>
                 if q == [] then
                   && (s.c.chain.Some? ==> s'.u == original.(result := s'.u.result, ip := Trap(s.u).ip))
                   && s'.c.chain.None? && s'.c.force.None?
                   && (force.Some? ==> s'.u.result == force.value)
                 else
                   && s'.u.ip == s.u.ip && s'.u.result == q[0].num && s'.u.args == q[0].args
                   && s'.c.chain == Some(q[1..]) && s'.c.changed && s'.c.force == force
  {
    EnterEffect(s, r);
    var u1 := Trap(s.u);
    var c1 := EnterStage(s.c, u1, r.enter, r.status);
    BackOnTrap(s.u.ip);
    ExitEffect(AfterPush(c1), Serve(Pushed(c1, u1), r), r.exit);
    RegisteredAppend(r.enter, r.exit);
    QueueTwice(s.c.chain, Registered(r.enter), Registered(r.exit));
  }

  /** The first round of a syscall, whether it starts a chain or not. */
  lemma FirstRound(s: System, r: Round)
    requires ValidSystem(s) && ValidRound(r) && s.c.chain.None?
    ensures var s' := MakeSyscall(s, r);
            if s'.c.chain.Some? then ChainInvariant(s, s', r.enter + r.exit)
            else TraceeUnaware(s, s') && s'.c.force == Forced(s.c.force, r.enter + r.exit)
                 && Registered(r.enter + r.exit) == [] && s'.log == s.log + [Syscall(s.u.result, s.u.args)]
  {
    RoundEffect(s, r);
    var q := Registered(r.enter + r.exit);
    if q != [] {
      assert q == [q[0]] + q[1..];
      assert [Syscall(q[0].num, q[0].args)] == [q[0]];
      var now := [Syscall(s.u.result, s.u.args)];
      assert s.log + now + [q[0]] + q[1..] == s.log + now + q;
    }
  }

  lemma {:induction false} ActAllAfter(c: Cache, reg: Reg, acts: seq<Action>)
    requires ValidCache(c) && ValidActions(acts) && ValidReg(reg)
    ensures Get(ActAll(c, acts).current, reg) == After(Get(c.current, reg), reg, acts)
  {
    if acts != [] {
      ActAllAfter(c, reg, acts[..|acts| - 1]);
    }
  }

  lemma {:induction false} AfterStatus(before: Word, reg: Reg, acts: seq<Action>, status: int)
    ensures After(before, reg, acts + StatusActions(status)) ==
            if status < 0 && reg == Num then AVOIDER
            else if status < 0 && reg == Result then Wrap(status)
            else After(before, reg, acts)
  {
    var all := acts + StatusActions(status);
    if status < 0 {
      var front := all[..|all| - 1];
      assert front[..|front| - 1] == acts && front[|front| - 1] == Poke(Num, AVOIDER);
      assert all[|all| - 1] == Poke(Result, Wrap(status));
    } else {
      assert all == acts;
    }
  }

  /** What the kernel is handed in place of a call that was trapped: no call when its translation
      failed, or else the last values put in its registers. */
  function RanAs(call: Syscall, r: Round): Syscall
    requires |call.args| == 6
  {
    Syscall(if r.status < 0 then AVOIDER else After(call.num, Num, r.enter),
            seq(6, i requires 0 <= i < 6 => After(call.args[i], Arg(i + 1), r.enter)))
  }

  /** The registers of the tracee at the end of the enter stage. */
  lemma {:induction false} HandedOver(s: System, r: Round, reg: Reg)
    requires ValidSystem(s) && ValidRound(r) && ValidReg(reg)
    requires s.c.chain.Some? ==> s.c.changed
    ensures var u1 := Trap(s.u);
            var u2 := Pushed(EnterStage(s.c, u1, r.enter, r.status), u1);
            Get(u2, reg) == if r.status < 0 && reg == Num then AVOIDER
                            else if r.status < 0 && reg == Result then Wrap(r.status)
                            else After(Get(u1, reg), reg, r.enter)
  {
    var u1 := Trap(s.u);
    var c := s.c.(current := u1, restore := false);
    var c1 := if c.chain.None? then c.(original := u1, changed := false) else c;
    var acts := r.enter + StatusActions(r.status);
    ActAllEffect(c1, acts);
    ActAllAfter(c1, reg, acts);
    AfterStatus(Get(u1, reg), reg, r.enter, r.status);
  }

  lemma RunsAs(s: System, r: Round)
    requires ValidSystem(s) && ValidRound(r)
    requires s.c.chain.Some? ==> s.c.changed
    ensures var s' := MakeSyscall(s, r); s'.ran == s.ran + [RanAs(Syscall(s.u.result, s.u.args), r)]
  {
    var u1 := Trap(s.u);
    var u2 := Pushed(EnterStage(s.c, u1, r.enter, r.status), u1);
    HandedOver(s, r, Num);
    forall i | 0 <= i < 6 ensures u2.args[i] == After(s.u.args[i], Arg(i + 1), r.enter) {
      HandedOver(s, r, Arg(i + 1));
    }
    assert Syscall(u2.num, u2.args) == RanAs(Syscall(s.u.result, s.u.args), r);
  }

  /** What is run in place of the calls of some rounds. */
  function AllRan(calls: seq<Syscall>, rs: seq<Round>): seq<Syscall>
    requires |calls| == |rs| && forall k :: 0 <= k < |calls| ==> |calls[k].args| == 6
  {
    if rs == [] then []
    else AllRan(calls[..|rs| - 1], rs[..|rs| - 1]) + [RanAs(calls[|rs| - 1], rs[|rs| - 1])]
  }

  lemma OneRan(s: System, r: Round)
    requires ValidSystem(s) && ValidRound(r) && (s.c.chain.Some? ==> s.c.changed)
    ensures var s', call := MakeSyscall(s, r), Syscall(s.u.result, s.u.args);
            s'.log == s.log + [call] && s'.ran == s.ran + [RanAs(call, r)] && (s'.c.chain.Some? ==> s'.c.changed)
  {
    RoundEffect(s, r);
    RunsAs(s, r);
  }

  /** Over any rounds, chained or not, the kernel runs each call that was trapped as its enter stage left
      it, and none for one that was refused. */
  lemma {:induction false} RunsWhatIsTrapped(s: System, rs: seq<Round>) returns (calls: seq<Syscall>)
    requires ValidSystem(s) && ValidRounds(rs) && (s.c.chain.Some? ==> s.c.changed)
    ensures |calls| == |rs| && forall k :: 0 <= k < |calls| ==> |calls[k].args| == 6
    ensures var s' := Rounds(s, rs);
            && (s'.c.chain.Some? ==> s'.c.changed)
            && s'.log == s.log + calls && s'.ran == s.ran + AllRan(calls, rs)
    decreases |rs|
  {
    if rs == [] {
      calls := [];
    } else {
      var front, last := rs[..|rs| - 1], rs[|rs| - 1];
      var before := RunsWhatIsTrapped(s, front);
      var s1 := Rounds(s, front);
      OneRan(s1, last);
      var call := Syscall(s1.u.result, s1.u.args);
      calls := before + [call];
      assert calls[..|rs| - 1] == before;
      AppendOne(s.log, before, call);
      AppendOne(s.ran, AllRan(before, front), RanAs(call, last));
      assert AllRan(calls, rs) == AllRan(before, front) + [RanAs(call, last)];
    }
  }

  lemma AppendOne(a: seq<Syscall>, b: seq<Syscall>, x: Syscall)
    ensures a + b + [x] == a + (b + [x])
  {
  }

  /** What the result register holds between the two stages: the error of a call that was refused, or
      what the kernel returned, unless an extension avoided the call. */
  function Answer(s: System, r: Round): Word
    requires ValidSystem(s) && ValidRound(r)
  {
    if r.status < 0 then Wrap(r.status)
    else if After(s.u.result, Num, r.enter) == AVOIDER then After(Wrap(-ENOSYS), Result, r.enter)
    else r.returned
  }

  lemma AnswerIs(s: System, r: Round)
    requires ValidSystem(s) && ValidRound(r) && (s.c.chain.Some? ==> s.c.changed)
    ensures var u1 := Trap(s.u); Serve(Pushed(EnterStage(s.c, u1, r.enter, r.status), u1), r).result == Answer(s, r)
  {
    HandedOver(s, r, Num);
    HandedOver(s, r, Result);
  }

  /** Without a stop at its exit, a call leaves its changed arguments to the tracee, and nothing else
      that is not the result: it goes unnoticed if and only if the last value put in each one is its own. */
  lemma UnstoppedUnawareIff(s: System, r: Round)
    requires ValidSystem(s) && ValidRound(r) && s.c.chain.None?
    ensures var s' := MakeUnstopped(s, r);
            && s'.u.sp == s.u.sp && s'.u.ip == Trap(s.u).ip && s'.u.result == Answer(s, r)
            && s'.ran == s.ran + [RanAs(Syscall(s.u.result, s.u.args), r)]
            && (s'.u.args == s.u.args <==> forall i :: 1 <= i <= 6 ==> After(s.u.args[i - 1], Arg(i), r.enter) == s.u.args[i - 1])
  {
    var u1 := Trap(s.u);
    var c1 := EnterStage(s.c, u1, r.enter, r.status);
    var c := s.c.(current := u1, restore := false, original := u1, changed := false);
    EnterEffect(s, r);
    AnswerIs(s, r);
    RunsAs(s, r);
    HandedOver(s, r, Num);
    HandedOver(s, r, StackPointer);
    ActAllEffect(c, r.enter + StatusActions(r.status));
    forall i | 1 <= i <= 6 ensures Pushed(c1, u1).args[i - 1] == After(s.u.args[i - 1], Arg(i), r.enter) {
      HandedOver(s, r, Arg(i));
    }
    assert Pushed(c1, u1) == c1.current;
  }

  /** The round that ends a syscall, or its chain with nothing forced, leaves the result the kernel
      returned in it, or the one put in its place at its exit. */
  lemma RoundResult(s: System, r: Round)
    requires ValidSystem(s) && ValidRound(r)
    requires s.c.chain.Some? ==> s.c.changed
    requires MakeSyscall(s, r).c.chain.None?
    requires Queue(s.c.chain, Registered(r.enter + r.exit)).Some? ==> Forced(s.c.force, r.enter + r.exit).None?
    ensures MakeSyscall(s, r).u.result == After(Answer(s, r), Result, r.exit)
  {
    EnterEffect(s, r);
    var u1 := Trap(s.u);
    var c1 := EnterStage(s.c, u1, r.enter, r.status);
    var u3 := Serve(Pushed(c1, u1), r);
    var c := AfterPush(c1).(current := u3, restore := true);
    ActAllEffect(c, r.exit);
    ActAllAfter(c, Result, r.exit);
    AnswerIs(s, r);
    RegisteredAppend(r.enter, r.exit);
    QueueTwice(s.c.chain, Registered(r.enter), Registered(r.exit));
    var c2 := ActAll(c, r.exit);
    if c2.chain.Some? {
      ChainNextEffect(c2);
    }
  }

  lemma FirstResult(s: System, r: Round)
    requires ValidSystem(s) && ValidRound(r) && s.c.chain.None? && MakeSyscall(s, r).c.chain.None?
    ensures MakeSyscall(s, r).u.result == After(Answer(s, r), Result, r.exit)
  {
    FirstRound(s, r);
    RoundResult(s, r);
  }

  /** What the tracee may notice: nothing but the result. */
  ghost predicate TraceeUnaware(s0: System, s: System)
    requires ValidSystem(s0) && ValidSystem(s)
  {
    s.u == Trap(s0.u).(result := s.u.result)
  }

  /** One more round of a chain. */
  lemma NextRound(s0: System, s: System, acts: seq<Action>, r: Round)
    requires ValidSystem(s0) && ValidSystem(s) && ValidRound(r)
    requires ChainInvariant(s0, s, acts)
    ensures var s' := MakeSyscall(s, r);
            var acts' := acts + r.enter + r.exit;
            if s'.c.chain.Some? then ChainInvariant(s0, s', acts')
            else
              && TraceeUnaware(s0, s') && s'.c.force.None?
              && s'.log == s0.log + [Syscall(s0.u.result, s0.u.args)] + Registered(acts')
              && (Forced(s0.c.force, acts').Some? ==> s'.u.result == Forced(s0.c.force, acts').value)
  {
    RoundEffect(s, r);
    var done := r.enter + r.exit;
    assert acts + r.enter + r.exit == acts + done;
    RegisteredAppend(acts, done);
    var q := s.c.chain.value + Registered(done);
    assert Queue(s.c.chain, Registered(done)) == Some(q) by {
      assert Registered(done) == [] ==> q == s.c.chain.value;
    }
    var s' := MakeSyscall(s, r);
    LogStep(s.log, Syscall(s.u.result, s.u.args), s.c.chain.value, Registered(done),
            s0.log + [Syscall(s0.u.result, s0.u.args)], Registered(acts));
    assert s'.log + q == s0.log + [Syscall(s0.u.result, s0.u.args)] + Registered(acts + done);
    if q != [] {
      assert Syscall(q[0].num, q[0].args) == q[0];
      assert s'.log + [q[0]] + q[1..] == s'.log + q;
    } else {
      assert s'.log + q == s'.log;
    }
  }

  lemma {:induction false} NextResult(s0: System, s: System, acts: seq<Action>, r: Round)
    requires ValidSystem(s0) && ValidSystem(s) && ValidRound(r)
    requires ChainInvariant(s0, s, acts) && MakeSyscall(s, r).c.chain.None?
    ensures Forced(s0.c.force, acts + r.enter + r.exit).None? ==>
              MakeSyscall(s, r).u.result == After(Answer(s, r), Result, r.exit)
  {
    if Forced(s0.c.force, acts + r.enter + r.exit).None? {
      assert acts + r.enter + r.exit == acts + (r.enter + r.exit);
      RegisteredAppend(acts, r.enter + r.exit);
      RoundResult(s, r);
    }
  }

  lemma LogStep(log: seq<Syscall>, now: Syscall, queue: seq<Syscall>, more: seq<Syscall>, start: seq<Syscall>, done: seq<Syscall>)
    requires log + [now] + queue == start + done
    ensures log + [now] + (queue + more) == start + (done + more)
  {
    assert log + [now] + (queue + more) == (log + [now] + queue) + more;
    assert start + (done + more) == (start + done) + more;
  }

  lemma {:induction false} InProgressFront(s: System, rs: seq<Round>, front: seq<Round>)
    requires ValidSystem(s) && ValidRounds(rs) && InProgress(s, rs) && rs != [] && front == rs[..|rs| - 1]
    ensures ValidRounds(front) && InProgress(s, front)
    ensures Rounds(s, rs).c.chain.Some?
  {
    assert rs[..|rs|] == rs;
    forall k | 0 < k <= |front| ensures Rounds(s, front[..k]).c.chain.Some? {
      PrefixOfFront(rs, k);
    }
  }

  lemma PrefixOfFront(rs: seq<Round>, k: nat)
    requires k < |rs|
    ensures rs[..|rs| - 1][..k] == rs[..k]
  {
  }

  lemma {:induction false} ChainKept(s: System, rs: seq<Round>)
    requires ValidSystem(s) && ValidRounds(rs) && InProgress(s, rs) && rs != []
    ensures ChainInvariant(s, Rounds(s, rs), Actions(rs))
    decreases |rs|
  {
    var front := rs[..|rs| - 1];
    InProgressFront(s, rs, front);
    if front == [] {
      OneRound(s, rs);
    } else {
      ChainKept(s, front);
      OneRoundMore(s, front, rs);
    }
  }

  lemma {:induction false} OneRound(s: System, rs: seq<Round>)
    requires ValidSystem(s) && ValidRounds(rs) && |rs| == 1 && s.c.chain.None? && Rounds(s, rs).c.chain.Some?
    ensures ChainInvariant(s, Rounds(s, rs), Actions(rs))
  {
    RoundsSnoc(s, [], rs[0]);
    assert [] + [rs[0]] == rs;
    assert Actions(rs) == rs[0].enter + rs[0].exit;
    FirstRound(s, rs[0]);
  }

  lemma {:induction false} OneRoundMore(s: System, front: seq<Round>, rs: seq<Round>)
    requires ValidSystem(s) && ValidRounds(rs) && rs != [] && front == rs[..|rs| - 1]
    requires ChainInvariant(s, Rounds(s, front), Actions(front)) && Rounds(s, rs).c.chain.Some?
    ensures ChainInvariant(s, Rounds(s, rs), Actions(rs))
  {
    var last := rs[|rs| - 1];
    assert front + [last] == rs;
    RoundsSnoc(s, front, last);
    NextRound(s, Rounds(s, front), Actions(front), last);
  }

  /** Main theorem: with any number of syscalls chained along the way, the kernel is handed the
      tracee's own syscall and then the chained ones in registration order; afterwards the
      tracee's registers are those of a plain syscall, the result being the forced one if any, else
      the answer to the last call, or what its exit stage put in its place. */
  lemma {:induction false} ChainUnnoticed(s: System, rs: seq<Round>, last: Round)
    requires ValidSystem(s) && ValidRounds(rs) && ValidRound(last) && InProgress(s, rs)
    requires Rounds(s, rs + [last]).c.chain.None?
    ensures var s' := Rounds(s, rs + [last]);
            var acts := Actions(rs + [last]);
            && s'.u == Trap(s.u).(result := s'.u.result)
            && s'.log == s.log + [Syscall(s.u.result, s.u.args)] + Registered(acts)
            && (rs != [] && Forced(s.c.force, acts).Some? ==> s'.u.result == Forced(s.c.force, acts).value)
            && (rs == [] || Forced(s.c.force, acts).None? ==>
                  s'.u.result == After(Answer(Rounds(s, rs), last), Result, last.exit))
            && s'.c.force == (if rs == [] then Forced(s.c.force, acts) else None)
  {
    RoundsSnoc(s, rs, last);
    if rs == [] {
      assert Actions(rs + [last]) == last.enter + last.exit;
      FirstRound(s, last);
      FirstResult(s, last);
    } else {
      ChainKept(s, rs);
      NextRound(s, Rounds(s, rs), Actions(rs), last);
      NextResult(s, Rounds(s, rs), Actions(rs), last);
    }
  }

  lemma {:induction false} RoundsSnoc(s: System, rs: seq<Round>, last: Round)
    requires ValidSystem(s) && ValidRounds(rs) && ValidRound(last)
    ensures Rounds(s, rs + [last]) == MakeSyscall(Rounds(s, rs), last)
    ensures Actions(rs + [last]) == Actions(rs) + last.enter + last.exit
  {
    var all := rs + [last];
    assert all[..|all| - 1] == rs && all[|all| - 1] == last;
  }

  // ----- A result forced without a chain -----

  lemma {:induction false} ForcedDefault(v: Word, acts: seq<Action>)
    requires Forced(None, acts).None?
    ensures Forced(Some(v), acts) == Some(v)
  {
    if acts != [] {
      ForcedDefault(v, acts[..|acts| - 1]);
    }
  }

  /** A result forced by a syscall that chains nothing is not dropped: it becomes the result of
      the next syscall that does chain something, even though that one forces nothing. */
  lemma {:induction false} ForcedWithoutChainLeaks(s: System, r: Round, v: Word, rs: seq<Round>, last: Round)
    requires ValidSystem(s) && s.c.chain.None? && s.c.force.None? && ValidRound(r)
    requires Registered(r.enter + r.exit) == [] && Forced(None, r.enter + r.exit) == Some(v)
    requires ValidRounds(rs) && ValidRound(last) && rs != [] && InProgress(MakeSyscall(s, r), rs)
    requires Rounds(MakeSyscall(s, r), rs + [last]).c.chain.None?
    requires Forced(None, Actions(rs + [last])).None?
    ensures Rounds(MakeSyscall(s, r), rs + [last]).u.result == v
  {
    RoundEffect(s, r);
    ChainUnnoticed(MakeSyscall(s, r), rs, last);
    ForcedDefault(v, Actions(rs + [last]));
  }

  // ----- In place -----

  class Tracee {
    var current: Regs
    var original: Regs
    var regsWereChanged: bool
    var restoreOriginalRegs: bool
    var syscalls: Option<seq<Syscall>>
    var forceFinalResult: bool
    var finalResult: Word

    function State(): Cache
      reads this
    {
      Cache(current, original, regsWereChanged, restoreOriginalRegs, syscalls,
            if forceFinalResult then Some(finalResult) else None)
    }

    method PokeRegister(reg: Reg, value: Word)
      requires ValidCache(State()) && ValidReg(reg)
      modifies this`current, this`regsWereChanged
      ensures State() == PokeReg(old(State()), reg, value)
    {
      if Get(current, reg) == value {
        return;
      }
      current := Set(current, reg, value);
      regsWereChanged := true;
    }

    method RegisterChainedSyscall(syscall: Syscall)
      requires ValidCache(State()) && |syscall.args| == 6
      modifies this`syscalls
      ensures State() == Act(old(State()), Register(syscall))
    {
      assert [] + [syscall] == [syscall];
      if syscalls.None? {
        syscalls := Some([]);
      }
      syscalls := Some(syscalls.value + [syscall]);
    }

    method ForceChainFinalResult(value: Word)
      modifies this`forceFinalResult, this`finalResult
      ensures State() == old(State()).(force := Some(value))
    {
      forceFinalResult := true;
      finalResult := value;
    }

    /** Whatever the translation and the extensions do during a stage. */
    method Perform(acts: seq<Action>)
      requires ValidCache(State()) && ValidActions(acts)
      modifies this
      ensures State() == ActAll(old(State()), acts)
    {
      for i := 0 to |acts|
        invariant ValidCache(State()) && State() == ActAll(old(State()), acts[..i])
      {
        assert acts[..i + 1][..i] == acts[..i];
        match acts[i]
        case Poke(reg, value) => PokeRegister(reg, value);
        case Register(syscall) => RegisterChainedSyscall(syscall);
        case Force(value) => ForceChainFinalResult(value);
      }
      assert acts[..|acts|] == acts;
    }

    method ChainNextSyscall()
      requires ValidCache(State()) && syscalls.Some?
      modifies this
      ensures State() == ChainNext(old(State()))
    {
      if syscalls.value == [] {
        syscalls := None;
        if forceFinalResult {
          PokeRegister(Result, finalResult);
        }
        forceFinalResult := false;
        finalResult := 0;
        return;
      }
      restoreOriginalRegs := false;
      var syscall := syscalls.value[0];
      syscalls := Some(syscalls.value[1..]);
      ghost var c1 := State();
      for i := 1 to 7
        invariant ValidCache(State()) && State() == PokeArgs(c1, syscall.args, i - 1)
      {
        PokeRegister(Arg(i), syscall.args[i - 1]);
      }
      PokeRegister(Result, syscall.num);
      PokeRegister(InstrPointer, Wrap(current.ip - SYSTRAP_SIZE));
    }

    /** Copy the cached registers back to the tracee, whose registers were `u`. */
    method PushSpecificRegs(u: Regs) returns (u': Regs)
      requires ValidCache(State())
      modifies this`current
      ensures State() == AfterPush(old(State())) && u' == Pushed(old(State()), u)
    {
      if !regsWereChanged {
        return u;
      }
      if restoreOriginalRegs {
        current := current.(num := original.num);
        for i := 1 to 7
          invariant current == old(current).(num := original.num, args := current.args)
          invariant |current.args| == 6
          invariant forall k :: 0 <= k < i - 1 ==> current.args[k] == original.args[k]
        {
          current := current.(args := current.args[i - 1 := original.args[i - 1]]);
        }
        assert current.args == original.args;
        current := current.(sp := original.sp);
      }
      u' := current;
    }

    /** translate_syscall, given the tracee's registers at this stop; `cont` is for a call that will not
        be stopped at its exit. */
    method TranslateSyscall(isEnterStage: bool, u: Regs, acts: seq<Action>, status: int, cont: bool) returns (u': Regs)
      requires ValidCache(State()) && ValidRegs(u) && ValidActions(acts)
      modifies this
      ensures var c := if isEnterStage && cont then EnterStageOnly(old(State()), u, acts, status)
                       else if isEnterStage then EnterStage(old(State()), u, acts, status)
                       else ExitStage(old(State()), u, acts);
              State() == AfterPush(c) && u' == Pushed(c, u)
    {
      current := u;
      if isEnterStage {
        restoreOriginalRegs := false;
        if syscalls.None? {
          original := current;
          regsWereChanged := false;
        }
        ghost var c1 := State();
        Perform(acts);
        if status < 0 {
          ghost var c2 := State();
          PokeRegister(Num, AVOIDER);
          PokeRegister(Result, Wrap(status));
          ActStatus(c1, acts, status);
        } else {
          assert acts + [] == acts;
        }
        if cont {
          PokeRegister(StackPointer, original.sp);
        }
      } else {
        restoreOriginalRegs := true;
        Perform(acts);
        if syscalls.Some? {
          ChainNextSyscall();
        }
      }
      u' := PushSpecificRegs(u);
    }
  }

  lemma {:induction false} ActStatus(c: Cache, acts: seq<Action>, status: int)
    requires ValidCache(c) && ValidActions(acts) && status < 0
    ensures ActAll(c, acts + StatusActions(status))
         == PokeReg(PokeReg(ActAll(c, acts), Num, AVOIDER), Result, Wrap(status))
  {
    var all := acts + StatusActions(status);
    var front := all[..|all| - 1];
    assert front[..|front| - 1] == acts && front[|front| - 1] == Poke(Num, AVOIDER);
    assert all[|all| - 1] == Poke(Result, Wrap(status));
    assert ActAll(c, all) == Act(ActAll(c, front), all[|all| - 1]);
    assert ActAll(c, front) == Act(ActAll(c, acts), front[|front| - 1]);
  }
}
