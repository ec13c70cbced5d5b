/** The emulation of ptrace(2) and wait(2) between tracees (src/ptrace/ptrace.c, src/ptrace/wait.c,
    src/tracee/tracee.c): who traces whom, who waits for whom, and the zombies in between. */
module Ptrace {
  import opened Common

  type Pid = nat

  /** A dead ptracee its ptracer is not notified of yet; its event is an exit. */
  datatype Zombie = Zombie(pid: Pid, parent: Option<Pid>, thread: bool)

  /** __WALL, __WCLONE and WNOHANG. */
  datatype WaitOptions = WaitOptions(all: bool, cloneOnly: bool, noHang: bool)

  const ANY: int := -1
  const NO_OPTIONS := WaitOptions(false, false, false)

  /** What the emulation knows of a process.  `known` tells that its creation was handled; `pending`
      that an event is ready for its ptracer, `exited` that it is the last one; `waitPid` is not zero
      while it is kept in wait(2). */
  datatype Process = Process(
    parent: Option<Pid>, thread: bool, known: bool, running: bool,
    ptracer: Option<Pid>, pending: bool, exited: bool,
    nbPtracees: int, zombies: seq<Zombie>, waitPid: int, options: WaitOptions)

  type World = map<Pid, Process>

  const NEW_PROCESS := Process(None, false, false, false, None, false, false, 0, [], 0, NO_OPTIONS)

  // ----- What is wrong with a world -----

  ghost function Ptracees(w: World, q: Pid): set<Pid> {
    set p | p in w && w[p].ptracer == Some(q)
  }

  /** Ptracers whose count is not that of their ptracees and zombies. */
  ghost function Miscounted(w: World): set<Pid> {
    set q | q in w && w[q].nbPtracees != |Ptracees(w, q)| + |w[q].zombies|
  }

  /** Processes with a ptracer, or a parent, that is gone or not known yet, or with themselves as such;
      and unknown processes that wait. */
  ghost function Astray(w: World): set<Pid> {
    set p | p in w && !Related(w, p)
  }

  ghost predicate Related(w: World, p: Pid)
    requires p in w
  {
    && (w[p].ptracer.Some? ==> w[p].ptracer.value in w && w[p].ptracer.value != p && w[w[p].ptracer.value].known)
    && (w[p].parent.Some? ==> w[p].parent.value in w && w[p].parent.value != p && w[w[p].parent.value].known)
    && (w[p].waitPid != 0 ==> w[p].known)
  }

  predicate Blocked(w: World, q: Pid)
    requires q in w
  {
    w[q].waitPid != 0
  }

  /** EXPECTED_WAIT_CLONE, and the requested pid. */
  predicate Matches(pid: int, options: WaitOptions, candidate: Pid, thread: bool) {
    && (pid == ANY || pid == candidate)
    && (options.all || options.cloneOnly == thread)
  }

  /** The stopped ptracees wait(2) could report. */
  ghost function Waitable(w: World, q: Pid, pid: int, options: WaitOptions): set<Pid> {
    set p | p in w && w[p].ptracer == Some(q) && !w[p].running && w[p].pending && Matches(pid, options, p, w[p].thread)
  }

  /** A ptracee a call of wait(2) is about, in any state. */
  predicate Expected(w: World, q: Pid, pid: int, options: WaitOptions, p: Pid) {
    p in w && w[p].ptracer == Some(q) && Matches(pid, options, p, w[p].thread)
  }

  ghost predicate AnyExpected(w: World, q: Pid, pid: int, options: WaitOptions)
    requires q in w
  {
    AnyZombie(w[q].zombies, pid, options) || exists p :: Expected(w, q, pid, options, p)
  }

  /** Those with an event indeed, and not only kept in wait(2) themselves. */
  ghost function Ready(w: World, q: Pid, pid: int, options: WaitOptions): set<Pid> {
    set p | p in Waitable(w, q, pid, options) && (w[p].waitPid == 0 || w[p].exited)
  }

  predicate AnyZombie(zombies: seq<Zombie>, pid: int, options: WaitOptions) {
    exists i :: 0 <= i < |zombies| && Matches(pid, options, zombies[i].pid, zombies[i].thread)
  }

  /** Ptracers kept in wait(2) with nobody to wait for, or although they run, or although there is an
      event for them. */
  ghost function Forgotten(w: World): set<Pid> {
    set q | q in w && Blocked(w, q) && !WaitsWell(w, q)
  }

  ghost predicate WaitsWell(w: World, q: Pid)
    requires q in w
  {
    && w[q].nbPtracees > 0 && !w[q].running
    && Ready(w, q, w[q].waitPid, w[q].options) == {} && !AnyZombie(w[q].zombies, w[q].waitPid, w[q].options)
  }

  ghost predicate Valid(w: World) {
    Miscounted(w) == {} && Astray(w) == {} && Forgotten(w) == {}
  }

  lemma CountedAt(w: World, q: Pid)
    requires Valid(w) && q in w
    ensures w[q].nbPtracees == |Ptracees(w, q)| + |w[q].zombies|
  {
    assert q !in Miscounted(w);
  }

  lemma RelatedAt(w: World, p: Pid)
    requires Valid(w) && p in w
    ensures Related(w, p)
  {
    assert p !in Astray(w);
  }

  lemma WaitsWellAt(w: World, q: Pid)
    requires Valid(w) && q in w && Blocked(w, q)
    ensures WaitsWell(w, q)
  {
    assert q !in Forgotten(w);
  }

  // ----- attach_to_ptracer, detach_from_ptracer -----

  function Attached(w: World, p: Pid, q: Pid): World
    requires p in w && q in w && p != q
  {
    w[p := w[p].(ptracer := Some(q), pending := false)][q := w[q].(nbPtracees := w[q].nbPtracees + 1)]
  }

  function Detached(w: World, p: Pid): World
    requires p in w && w[p].ptracer.Some? && w[p].ptracer.value in w && w[p].ptracer.value != p
  {
    var q := w[p].ptracer.value;
    w[p := w[p].(ptracer := None)][q := w[q].(nbPtracees := w[q].nbPtracees - 1)]
  }

  /** restart_tracee: a process kept in wait(2), or dead, is left alone. */
  function Restarted(w: World, p: Pid): World
    requires p in w
  {
    if w[p].waitPid != 0 || w[p].exited then w else w[p := w[p].(running := true)]
  }

  /** Out of wait(2), and running again. */
  function Woken(w: World, q: Pid): World
    requires q in w
  {
    w[q := w[q].(waitPid := 0, running := true)]
  }

  // ----- wait(2) -----

  /** What the wait status is updated from: a ptracee that is still there, or a zombie by its place. */
  datatype Target = Alive(pid: Pid) | Dead(index: nat)

  predicate IsTarget(w: World, q: Pid, target: Target)
    requires q in w
  {
    match target
    case Alive(p) => p in w && w[p].ptracer == Some(q) && p != q
    case Dead(i) => i < |w[q].zombies|
  }

  function PidOf(w: World, q: Pid, target: Target): Pid
    requires q in w && IsTarget(w, q, target)
  {
    match target case Alive(p) => p case Dead(i) => w[q].zombies[i].pid
  }

  /** A zombie rests in peace. */
  function Reaped(w: World, q: Pid, i: nat): World
    requires q in w && i < |w[q].zombies|
  {
    w[q := w[q].(nbPtracees := w[q].nbPtracees - 1, zombies := Without(w[q].zombies, i))]
  }

  /** The result of wait(2): the call goes to the kernel, an error, or a pid. */
  datatype Report = Replayed | Failed | Reported(pid: Pid)
  datatype Update = Update(report: Report, world: World)

  /** update_wait_status; `faults` tells that the status cannot be written in the ptracer. */
  function Updated(w: World, q: Pid, target: Target, faults: bool): Update
    requires q in w && IsTarget(w, q, target)
  {
    match target
    case Alive(p) =>
      if w[p].parent == Some(q) && w[p].exited then Update(Replayed, Detached(w, p))
      else if faults then Update(Failed, w)
      else Update(Reported(p), w[p := w[p].(pending := false)])
    case Dead(i) =>
      if w[q].zombies[i].parent == Some(q) then Update(Replayed, Reaped(w, q, i))
      else if faults then Update(Failed, w)
      else Update(Reported(w[q].zombies[i].pid), Reaped(w, q, i))
  }

  /** Whether it detaches the ptracee. */
  predicate Detaches(w: World, q: Pid, target: Target, faults: bool)
    requires q in w && IsTarget(w, q, target)
  {
    match target
    case Alive(p) => w[p].parent == Some(q) && w[p].exited
    case Dead(i) => w[q].zombies[i].parent == Some(q) || !faults
  }

  // ----- The operations -----

  datatype Op =
    | Appear(pid: Pid)
    | Fork(creator: Pid, child: Pid, sibling: bool, thread: bool, inherits: bool)
    | TraceMe(pid: Pid)
    | Attach(ptracer: Pid, pid: Pid)
    | Detach(ptracer: Pid, pid: Pid)
    | Resume(ptracer: Pid, pid: Pid)
    | Event(pid: Pid, exit: bool, notified: bool, faults: bool)
    | Wait(ptracer: Pid, waitPid: int, options: WaitOptions, choice: Option<Target>, faults: bool)
    | Free(pid: Pid, restarted: set<Pid>)

  /** An event for its ptracer: reported if this one waits for it. */
  function Notified(w: World, p: Pid, exit: bool, faults: bool): World
    requires p in w && w[p].ptracer.Some? && w[p].ptracer.value in w && w[p].ptracer.value != p
  {
    var q := w[p].ptracer.value;
    var w1 := w[p := w[p].(running := false, pending := true, exited := exit)];
    if w[q].waitPid != 0 && Matches(w[q].waitPid, w[q].options, p, w[p].thread)
    then Woken(Updated(w1, q, Alive(p), faults).world, q)
    else w1
  }

  /** remove_tracee, for the others: children become orphans and ptracees are freed. */
  function Bereaved(w: World, p: Pid, restarted: set<Pid>): World {
    map x | x in w && x != p :: Orphaned(w[x], x, p, restarted)
  }

  function Orphaned(y: Process, x: Pid, p: Pid, restarted: set<Pid>): Process {
    var z := if y.parent == Some(p) then y.(parent := None) else y;
    if z.ptracer == Some(p) then
      z.(ptracer := None, pending := false, running := z.running || (x in restarted && z.waitPid == 0))
    else z
  }

  /** ... and for its ptracer: it becomes a zombie, or one ptracee less. */
  function Freed(w: World, p: Pid, restarted: set<Pid>): World
    requires p in w && (w[p].ptracer.Some? ==> w[p].ptracer.value in w && w[p].ptracer.value != p)
  {
    var rest := Bereaved(w, p, restarted);
    if w[p].ptracer.None? then rest
    else
      var q := w[p].ptracer.value;
      if w[p].pending && w[p].exited then
        rest[q := rest[q].(zombies := [Zombie(p, w[p].parent, w[p].thread)] + rest[q].zombies)]
      else
        var r := rest[q := rest[q].(nbPtracees := rest[q].nbPtracees - 1)];
        if r[q].nbPtracees == 0 && r[q].waitPid != 0 then Woken(r, q) else r
  }

  /** The dead are freed before the next event, and processes kept in wait(2) do not run. */
  predicate Calls(w: World, q: Pid) {
    q in w && w[q].known && !w[q].exited && !Blocked(w, q)
  }

  /** get_stopped_ptracee: zombies come first, then a stopped ptracee with an event. */
  ghost predicate IsChoice(w: World, q: Pid, pid: int, options: WaitOptions, choice: Option<Target>)
    requires q in w
  {
    match choice
    case None => Waitable(w, q, pid, options) == {} && !AnyZombie(w[q].zombies, pid, options)
    case Some(Alive(p)) => p in Waitable(w, q, pid, options) && p != q && !AnyZombie(w[q].zombies, pid, options)
    case Some(Dead(i)) =>
      && i < |w[q].zombies| && Matches(pid, options, w[q].zombies[i].pid, w[q].zombies[i].thread)
      && forall k :: 0 <= k < i ==> !Matches(pid, options, w[q].zombies[k].pid, w[q].zombies[k].thread)
  }

  /** The child a wait(2) is told about is the ptracer's and one it asked for: any, or the one of this
      number; a thread only with __WCLONE or __WALL, and another child not with __WCLONE alone. Its event
      is told once. */
  lemma ReportedIsAsked(w: World, q: Pid, pid: int, options: WaitOptions, target: Target, r: Pid)
    requires q in w && IsChoice(w, q, pid, options, Some(target)) && IsTarget(w, q, target)
    requires Updated(w, q, target, false).report == Reported(r)
    ensures pid == ANY || pid == r
    ensures var thread := match target case Alive(p) => w[p].thread case Dead(i) => w[q].zombies[i].thread;
            && (thread ==> options.all || options.cloneOnly)
            && (!thread ==> options.all || !options.cloneOnly)
    ensures match target
            case Alive(p) => r == p && w[p].ptracer == Some(q) && !w[p].running && w[p].pending
                             && r in Updated(w, q, target, false).world && !Updated(w, q, target, false).world[r].pending
            case Dead(i) => r == w[q].zombies[i].pid
                            && Updated(w, q, target, false).world[q].zombies == w[q].zombies[..i] + w[q].zombies[i + 1..]
  {
  }

  /** No child it asks for, in a state to be reported, is passed over for nothing; zombies come first. */
  lemma NoneIsMissed(w: World, q: Pid, pid: int, options: WaitOptions, choice: Option<Target>, p: Pid)
    requires q in w && IsChoice(w, q, pid, options, choice)
    requires p in w && w[p].ptracer == Some(q) && !w[p].running && w[p].pending
    requires pid == ANY || pid == p
    requires options.all || (w[p].thread <==> options.cloneOnly)
    ensures choice.Some?
  {
    assert p in Waitable(w, q, pid, options);
  }

  /** When the source lets an operation happen. */
  ghost predicate Enabled(w: World, op: Op) {
    match op
    case Appear(p) => p !in w && p != 0
    case Fork(creator, child, _, _, _) =>
      Calls(w, creator) && child != creator && child != 0 && (child in w ==> !w[child].known)
    case TraceMe(p) => Calls(w, p)
    case Attach(q, p) => Calls(w, q) && (p in w ==> !w[p].exited)
    case Detach(q, p) => Calls(w, q) && (p in w ==> !w[p].exited)
    case Resume(q, p) => Calls(w, q) && (p in w ==> !w[p].exited)
    case Event(p, exit, notified, _) => p in w && !w[p].exited && (if exit then notified else w[p].running)
    case Wait(q, pid, options, choice, _) => Calls(w, q) && (pid == ANY || pid > 0) && IsChoice(w, q, pid, options, choice)
    case Free(p, _) => p in w && w[p].exited && !w[p].running
  }

  /** A request finds a stopped ptracee, if no zombie has its pid. */
  predicate Requests(w: World, q: Pid, p: Pid)
    requires q in w
  {
    && p in w && w[p].ptracer == Some(q) && !w[p].running
    && forall i :: 0 <= i < |w[q].zombies| ==> w[q].zombies[i].pid != p
  }

  function Created(w: World, creator: Pid, child: Pid, sibling: bool, thread: bool): World
    requires creator in w && creator != child
  {
    var entry := if child in w then w[child] else NEW_PROCESS;
    w[child := entry.(parent := if sibling then w[creator].parent else Some(creator), thread := thread, known := true, running := true)]
  }

  /** Some(w') is the world after the operation; None that an assertion fails, or that a null pointer
      is followed. */
  function Step(w: World, op: Op): Option<World> {
    match op
    case Appear(p) => Some(w[p := NEW_PROCESS])
    case Fork(creator, child, sibling, thread, inherits) =>
      if creator !in w || creator == child then Some(w)
      else if child in w && (w[child].parent.Some? || w[child].ptracer.Some?) then None
      else
        var w1 := Created(w, creator, child, sibling, thread);
        var q := w[creator].ptracer;
        Some(if inherits && q.Some? && q.value in w && q.value != child then Attached(w1, child, q.value) else w1)
    case TraceMe(p) =>
      if p !in w || w[p].ptracer.Some? || w[p].parent == Some(p) then Some(w)
      else if w[p].parent.None? || w[p].parent.value !in w then None
      else Some(Attached(w, p, w[p].parent.value))
    case Attach(q, p) =>
      Some(if p !in w || q !in w || w[p].ptracer.Some? || p == q then w else Attached(w, p, q))
    case Detach(q, p) =>
      if q !in w || p == q || !Requests(w, q, p) then Some(w)
      else if w[q].nbPtracees <= 0 then None
      else Some(Restarted(Detached(w, p), p))
    case Resume(q, p) =>
      Some(if q !in w || !Requests(w, q, p) then w else Restarted(w, p))
    case Event(p, exit, notified, faults) =>
      if p !in w then Some(w)
      else if w[p].ptracer.None? || w[p].ptracer.value !in w || w[p].ptracer.value == p then
        Some(if exit then w[p := w[p].(running := false, exited := true)] else w)
      else if !notified then Some(w)
      else if exit && w[p].parent == w[p].ptracer && w[w[p].ptracer.value].waitPid != 0 && w[w[p].ptracer.value].nbPtracees <= 0
      then None
      else Some(Notified(w, p, exit, faults))
    case Wait(q, pid, options, choice, faults) =>
      if q !in w then Some(w)
      else if choice.None? then
        Some(if w[q].nbPtracees == 0 || options.noHang then w
             else w[q := w[q].(waitPid := pid, options := options, running := false)])
      else if !IsTarget(w, q, choice.value) then Some(w)
      else if Detaches(w, q, choice.value, faults) && w[q].nbPtracees <= 0 then None
      else Some(Updated(w, q, choice.value, faults).world)
    case Free(p, restarted) =>
      if p !in w then Some(w)
      else if w[p].ptracer.Some? && (w[p].ptracer.value !in w || w[p].ptracer.value == p) then Some(w)
      else if w[p].ptracer.Some? && w[w[p].ptracer.value].nbPtracees <= 0 then None
      else Some(Freed(w, p, restarted))
  }

  // ----- Changes that keep the counts -----

  /** The two worlds have the same processes, ptracers, parents, counts and zombies. */
  ghost predicate SameTies(w: World, w': World) {
    && w'.Keys == w.Keys
    && forall x :: x in w ==>
         && w'[x].ptracer == w[x].ptracer && w'[x].parent == w[x].parent && w'[x].known == w[x].known
         && w'[x].nbPtracees == w[x].nbPtracees && w'[x].zombies == w[x].zombies && w'[x].thread == w[x].thread
         && (w[x].waitPid != 0 || w[x].known <==> w'[x].waitPid != 0 || w'[x].known)
  }

  lemma TiesKept(w: World, w': World)
    requires SameTies(w, w') && Astray(w) == {}
    ensures Miscounted(w') == Miscounted(w) && Astray(w') == {}
  {
    forall q | q in w ensures Ptracees(w', q) == Ptracees(w, q) {
    }
    forall q | q in w ensures q in Miscounted(w') <==> q in Miscounted(w) {
      assert Ptracees(w', q) == Ptracees(w, q);
    }
    assert Miscounted(w') == Miscounted(w);
    forall p | p in w ensures Related(w', p) {
      assert p !in Astray(w);
    }
  }

  // ----- Waiting goes on -----

  lemma StillWaits(w: World, w': World, x: Pid)
    requires x in w && x in w' && Blocked(w, x) && WaitsWell(w, x)
    requires w'[x].waitPid == w[x].waitPid && w'[x].options == w[x].options && !w'[x].running
    requires w'[x].nbPtracees > 0 && (w'[x].zombies == w[x].zombies || !AnyZombie(w'[x].zombies, w[x].waitPid, w[x].options))
    requires Ready(w', x, w[x].waitPid, w[x].options) <= Ready(w, x, w[x].waitPid, w[x].options)
    ensures WaitsWell(w', x)
  {
  }

  /** Only `p` may have become an event for somebody. */
  lemma ReadyBut(w: World, w': World, p: Pid, x: Pid, pid: int, options: WaitOptions)
    requires forall y :: y in w' && y != p ==> y in w && w'[y].thread == w[y].thread && (w'[y].pending ==> w[y].pending)
    requires forall y :: y in w' && y != p && (w[y].running || (w[y].waitPid != 0 && !w[y].exited)) ==>
               w'[y].running || (w'[y].waitPid != 0 && !w'[y].exited)
    requires forall y :: y in w' && y != p && w'[y].ptracer == Some(x) ==> w[y].ptracer == Some(x)
    requires p !in Ready(w', x, pid, options)
    ensures Ready(w', x, pid, options) <= Ready(w, x, pid, options)
  {
  }

  // ----- Each change keeps a world valid -----

  lemma AttachedPtracees(w: World, p: Pid, q: Pid, x: Pid)
    requires p in w && q in w && p != q && w[p].ptracer.None?
    ensures Ptracees(Attached(w, p, q), x) == if x == q then Ptracees(w, x) + {p} else Ptracees(w, x)
    ensures p !in Ptracees(w, x)
  {
  }

  lemma AttachedCounts(w: World, p: Pid, q: Pid)
    requires Miscounted(w) == {} && p in w && q in w && p != q && w[p].ptracer.None?
    ensures Miscounted(Attached(w, p, q)) == {}
  {
    var w' := Attached(w, p, q);
    forall x | x in w' ensures w'[x].nbPtracees == |Ptracees(w', x)| + |w'[x].zombies| {
      assert x !in Miscounted(w);
      AttachedPtracees(w, p, q, x);
    }
  }

  lemma AttachedRelated(w: World, p: Pid, q: Pid)
    requires Astray(w) == {} && p in w && q in w && p != q && w[q].known
    ensures Astray(Attached(w, p, q)) == {}
  {
    var w' := Attached(w, p, q);
    forall x | x in w' ensures Related(w', x) {
      assert x !in Astray(w);
    }
  }

  lemma AttachedWaits(w: World, p: Pid, q: Pid, x: Pid)
    requires x in w && Blocked(w, x) && WaitsWell(w, x) && p in w && q in w && p != q
    ensures WaitsWell(Attached(w, p, q), x)
  {
    var w' := Attached(w, p, q);
    ReadyBut(w, w', p, x, w[x].waitPid, w[x].options);
    StillWaits(w, w', x);
  }

  lemma AttachedValid(w: World, p: Pid, q: Pid)
    requires Valid(w) && p in w && q in w && p != q && w[p].ptracer.None? && w[q].known
    ensures Valid(Attached(w, p, q))
  {
    AttachedCounts(w, p, q);
    AttachedRelated(w, p, q);
    forall x | x in Attached(w, p, q) && Blocked(Attached(w, p, q), x) ensures WaitsWell(Attached(w, p, q), x) {
      WaitsWellAt(w, x);
      AttachedWaits(w, p, q, x);
    }
  }

  lemma DetachedPtracees(w: World, p: Pid, x: Pid)
    requires p in w && w[p].ptracer.Some? && w[p].ptracer.value in w && w[p].ptracer.value != p
    ensures Ptracees(Detached(w, p), x) == if w[p].ptracer == Some(x) then Ptracees(w, x) - {p} else Ptracees(w, x)
    ensures w[p].ptracer == Some(x) ==> p in Ptracees(w, x)
  {
  }

  /** A ptracer with a ptracee has a count to decrement. */
  lemma HasPtracee(w: World, p: Pid)
    requires Miscounted(w) == {} && p in w && w[p].ptracer.Some? && w[p].ptracer.value in w
    ensures w[w[p].ptracer.value].nbPtracees > 0
  {
    var q := w[p].ptracer.value;
    assert q !in Miscounted(w);
    assert p in Ptracees(w, q);
  }

  lemma DetachedCounts(w: World, p: Pid)
    requires Miscounted(w) == {} && p in w && w[p].ptracer.Some? && w[p].ptracer.value in w && w[p].ptracer.value != p
    ensures Miscounted(Detached(w, p)) == {}
  {
    var w' := Detached(w, p);
    forall x | x in w' ensures w'[x].nbPtracees == |Ptracees(w', x)| + |w'[x].zombies| {
      assert x !in Miscounted(w);
      DetachedPtracees(w, p, x);
    }
  }

  lemma DetachedWaits(w: World, p: Pid, x: Pid)
    requires x in w && Blocked(w, x) && WaitsWell(w, x) && p in w
    requires w[p].ptracer.Some? && w[p].ptracer.value in w && w[p].ptracer.value != p && x != w[p].ptracer.value
    ensures WaitsWell(Detached(w, p), x)
  {
    var w' := Detached(w, p);
    ReadyBut(w, w', p, x, w[x].waitPid, w[x].options);
    StillWaits(w, w', x);
  }

  /** Only its ptracer may be left with nobody to wait for. */
  lemma DetachedValid(w: World, p: Pid)
    requires Miscounted(w) == {} && Astray(w) == {} && p in w && w[p].ptracer.Some?
    requires w[p].ptracer.value in w && w[p].ptracer.value != p && Forgotten(w) <= {w[p].ptracer.value}
    ensures var w' := Detached(w, p);
            Miscounted(w') == {} && Astray(w') == {} && Forgotten(w') <= {w[p].ptracer.value}
  {
    var w', q := Detached(w, p), w[p].ptracer.value;
    DetachedCounts(w, p);
    forall x | x in w' ensures Related(w', x) {
      assert x !in Astray(w);
    }
    forall x | x in w' && Blocked(w', x) && x != q ensures WaitsWell(w', x) {
      assert x !in Forgotten(w);
      DetachedWaits(w, p, x);
    }
  }

  /** Another state of a process, with the same ties. */
  lemma ChangedValid(w: World, p: Pid, y: Process)
    requires Valid(w) && p in w && y.ptracer == w[p].ptracer && y.parent == w[p].parent && y.known == w[p].known
    requires y.nbPtracees == w[p].nbPtracees && y.zombies == w[p].zombies && y.thread == w[p].thread
    requires y.waitPid == w[p].waitPid && y.options == w[p].options && (y.waitPid != 0 ==> !y.running)
    ensures var w' := w[p := y];
            && Miscounted(w') == {} && Astray(w') == {}
            && (w[p].ptracer.Some? ==> Forgotten(w') <= {w[p].ptracer.value})
            && (y.running || !y.pending || y.ptracer.None? ==> Valid(w'))
  {
    var w' := w[p := y];
    TiesKept(w, w');
    forall x | x in w' && Blocked(w', x) && w[p].ptracer != Some(x) ensures WaitsWell(w', x) {
      WaitsWellAt(w, x);
      ReadyBut(w, w', p, x, w[x].waitPid, w[x].options);
      StillWaits(w, w', x);
    }
    if y.running || !y.pending {
      forall x | x in w' && Blocked(w', x) ensures WaitsWell(w', x) {
        WaitsWellAt(w, x);
        ReadyBut(w, w', p, x, w[x].waitPid, w[x].options);
        StillWaits(w, w', x);
      }
    }
  }

  /** The forgotten one wakes up. */
  lemma WokenValid(w: World, q: Pid)
    requires Miscounted(w) == {} && Astray(w) == {} && q in w && Forgotten(w) <= {q}
    ensures Valid(Woken(w, q))
  {
    var w' := Woken(w, q);
    assert q !in Astray(w);
    TiesKept(w, w');
    forall x | x in w' && Blocked(w', x) ensures WaitsWell(w', x) {
      assert x !in Forgotten(w);
      ReadyBut(w, w', q, x, w[x].waitPid, w[x].options);
      StillWaits(w, w', x);
    }
  }

  lemma RestartedValid(w: World, p: Pid)
    requires Valid(w) && p in w
    ensures Valid(Restarted(w, p))
  {
    if w[p].waitPid == 0 && !w[p].exited {
      ChangedValid(w, p, w[p].(running := true));
    }
  }

  /** A process that does not wait is not forgotten. */
  lemma NotForgotten(w: World, q: Pid)
    requires Miscounted(w) == {} && Astray(w) == {} && Forgotten(w) <= {q} && q in w && !Blocked(w, q)
    ensures Valid(w)
  {
    assert q !in Forgotten(w);
  }

  // ----- Zombies -----

  lemma ReapedValid(w: World, q: Pid, i: nat)
    requires Miscounted(w) == {} && Astray(w) == {} && q in w && i < |w[q].zombies| && Forgotten(w) <= {q}
    ensures var w' := Reaped(w, q, i);
            Miscounted(w') == {} && Astray(w') == {} && Forgotten(w') <= {q}
    ensures w[q].nbPtracees > 0
  {
    var w' := Reaped(w, q, i);
    assert q !in Miscounted(w);
    forall x | x in w' ensures w'[x].nbPtracees == |Ptracees(w', x)| + |w'[x].zombies| {
      assert x !in Miscounted(w);
      assert Ptracees(w', x) == Ptracees(w, x);
    }
    forall x | x in w' ensures Related(w', x) {
      assert x !in Astray(w);
    }
    forall x | x in w' && Blocked(w', x) && x != q ensures WaitsWell(w', x) {
      assert x !in Forgotten(w);
      ReadyBut(w, w', q, x, w[x].waitPid, w[x].options);
      StillWaits(w, w', x);
    }
  }

  // ----- wait(2) -----

  lemma UpdatedValid(w: World, q: Pid, target: Target, faults: bool)
    requires Miscounted(w) == {} && Astray(w) == {} && q in w && IsTarget(w, q, target) && Forgotten(w) <= {q}
    requires target.Alive? ==> w[target.pid].waitPid == 0 || !w[target.pid].running
    ensures var w' := Updated(w, q, target, faults).world;
            Miscounted(w') == {} && Astray(w') == {} && Forgotten(w') <= {q} && q in w' && w'[q].waitPid == w[q].waitPid
    ensures Detaches(w, q, target, faults) ==> w[q].nbPtracees > 0
  {
    match target
    case Alive(p) =>
      HasPtracee(w, p);
      if w[p].parent == Some(q) && w[p].exited {
        DetachedValid(w, p);
      } else if !faults {
        ReportedValid(w, p, q);
      }
    case Dead(i) =>
      ReapedValid(w, q, i);
  }

  lemma ReportedValid(w: World, p: Pid, q: Pid)
    requires Miscounted(w) == {} && Astray(w) == {} && p in w && Forgotten(w) <= {q}
    ensures var w' := w[p := w[p].(pending := false)];
            Miscounted(w') == {} && Astray(w') == {} && Forgotten(w') <= {q}
  {
    var w' := w[p := w[p].(pending := false)];
    TiesKept(w, w');
    forall x | x in w' && Blocked(w', x) && x != q ensures WaitsWell(w', x) {
      assert x !in Forgotten(w);
      ReadyBut(w, w', p, x, w[x].waitPid, w[x].options);
      StillWaits(w, w', x);
    }
  }

  /** Into wait(2), with somebody to wait for and no event yet. */
  lemma BlockedValid(w: World, q: Pid, pid: int, options: WaitOptions)
    requires Valid(w) && Calls(w, q) && w[q].nbPtracees != 0 && pid != 0
    requires Waitable(w, q, pid, options) == {} && !AnyZombie(w[q].zombies, pid, options)
    ensures Valid(w[q := w[q].(waitPid := pid, options := options, running := false)])
  {
    var w' := w[q := w[q].(waitPid := pid, options := options, running := false)];
    TiesKept(w, w');
    CountedAt(w, q);
    forall x | x in w' && Blocked(w', x) ensures WaitsWell(w', x) {
      if x == q {
        RelatedAt(w, q);
        ReadyBut(w, w', q, q, pid, options);
      } else {
        WaitsWellAt(w, x);
        ReadyBut(w, w', q, x, w[x].waitPid, w[x].options);
        StillWaits(w, w', x);
      }
    }
  }

  // ----- Births -----

  lemma AppearValid(w: World, p: Pid)
    requires Valid(w) && p !in w
    ensures Valid(w[p := NEW_PROCESS])
  {
    var w' := w[p := NEW_PROCESS];
    forall x | x in w' ensures w'[x].nbPtracees == |Ptracees(w', x)| + |w'[x].zombies| {
      NewPtracees(w, p, x);
      if x != p {
        CountedAt(w, x);
      }
    }
    forall x | x in w' ensures Related(w', x) {
      if x != p {
        RelatedAt(w, x);
      }
    }
    forall x | x in w' && Blocked(w', x) ensures WaitsWell(w', x) {
      WaitsWellAt(w, x);
      ReadyBut(w, w', p, x, w[x].waitPid, w[x].options);
      StillWaits(w, w', x);
    }
  }

  lemma NewPtracees(w: World, p: Pid, x: Pid)
    requires Valid(w) && p !in w
    ensures Ptracees(w[p := NEW_PROCESS], x) == if x == p then {} else Ptracees(w, x)
  {
    var w' := w[p := NEW_PROCESS];
    if x == p {
      forall y | y in w && w[y].ptracer == Some(p) ensures false {
        RelatedAt(w, y);
      }
    }
    assert forall y :: y in Ptracees(w', x) ==> y != p;
  }

  /** The creation of a child that appeared already, or that appears now. */
  lemma CreatedValid(w: World, creator: Pid, child: Pid, sibling: bool, thread: bool)
    requires Valid(w) && creator in w && w[creator].known && creator != child
    requires child in w ==> !w[child].known && w[child].ptracer.None?
    requires child in w ==> w[child].waitPid == 0
    ensures Valid(Created(w, creator, child, sibling, thread))
  {
    if child !in w {
      AppearValid(w, child);
      KnownChild(w[child := NEW_PROCESS], creator, child, sibling, thread);
      assert Created(w[child := NEW_PROCESS], creator, child, sibling, thread) == Created(w, creator, child, sibling, thread);
    } else {
      KnownChild(w, creator, child, sibling, thread);
    }
  }

  lemma KnownChild(w: World, creator: Pid, child: Pid, sibling: bool, thread: bool)
    requires Valid(w) && creator in w && w[creator].known && creator != child
    requires child in w && !w[child].known && w[child].ptracer.None? && w[child].waitPid == 0
    ensures Valid(Created(w, creator, child, sibling, thread))
  {
    var w' := Created(w, creator, child, sibling, thread);
    RelatedAt(w, creator);
    forall x | x in w' ensures w'[x].nbPtracees == |Ptracees(w', x)| + |w'[x].zombies| {
      CountedAt(w, x);
      assert Ptracees(w', x) == Ptracees(w, x);
    }
    forall x | x in w' ensures Related(w', x) {
      RelatedAt(w, x);
    }
    forall x | x in w' && Blocked(w', x) ensures WaitsWell(w', x) {
      WaitsWellAt(w, x);
      ReadyBut(w, w', child, x, w[x].waitPid, w[x].options);
      StillWaits(w, w', x);
    }
  }

  // ----- Deaths -----

  lemma BereavedKeys(w: World, p: Pid, restarted: set<Pid>)
    ensures Bereaved(w, p, restarted).Keys == w.Keys - {p}
  {
  }

  lemma BereavedAt(w: World, p: Pid, restarted: set<Pid>, x: Pid)
    requires x in w && x != p
    ensures var w' := Bereaved(w, p, restarted);
            && x in w' && w'[x].nbPtracees == w[x].nbPtracees && w'[x].zombies == w[x].zombies
            && w'[x].ptracer == (if w[x].ptracer == Some(p) then None else w[x].ptracer)
            && w'[x].parent == (if w[x].parent == Some(p) then None else w[x].parent)
            && w'[x].known == w[x].known
  {
  }

  lemma BereavedPtracees(w: World, p: Pid, restarted: set<Pid>, x: Pid)
    requires p in w && x != p
    ensures Ptracees(Bereaved(w, p, restarted), x) == Ptracees(w, x) - {p}
  {
    var w' := Bereaved(w, p, restarted);
    BereavedKeys(w, p, restarted);
    forall y ensures y in Ptracees(w', x) <==> y in Ptracees(w, x) - {p} {
      if y in w && y != p {
        BereavedAt(w, p, restarted, y);
      }
    }
  }

  /** For the others, only the count of the dead one's ptracer is behind. */
  lemma BereavedCounts(w: World, p: Pid, restarted: set<Pid>, x: Pid)
    requires Valid(w) && p in w && x in w && x != p
    ensures var w' := Bereaved(w, p, restarted);
            && x in w' && w'[x].zombies == w[x].zombies
            && w'[x].nbPtracees == |Ptracees(w', x)| + |w'[x].zombies| + if w[p].ptracer == Some(x) then 1 else 0
  {
    CountedAt(w, x);
    BereavedPtracees(w, p, restarted, x);
    BereavedAt(w, p, restarted, x);
    OneLess(w, p, x);
  }

  lemma OneLess(w: World, p: Pid, x: Pid)
    requires p in w
    ensures |Ptracees(w, x)| == |Ptracees(w, x) - {p}| + if w[p].ptracer == Some(x) then 1 else 0
  {
    assert w[p].ptracer == Some(x) <==> p in Ptracees(w, x);
  }

  lemma BereavedRelated(w: World, p: Pid, restarted: set<Pid>)
    requires Valid(w) && p in w
    ensures Astray(Bereaved(w, p, restarted)) == {}
  {
    var w' := Bereaved(w, p, restarted);
    BereavedKeys(w, p, restarted);
    forall x | x in w' ensures Related(w', x) {
      RelatedAt(w, x);
      BereavedAt(w, p, restarted, x);
      if w[x].ptracer.Some? && w[x].ptracer != Some(p) {
        BereavedAt(w, p, restarted, w[x].ptracer.value);
      }
      if w[x].parent.Some? && w[x].parent != Some(p) {
        BereavedAt(w, p, restarted, w[x].parent.value);
      }
    }
  }

  lemma BereavedWaits(w: World, p: Pid, restarted: set<Pid>, x: Pid)
    requires Valid(w) && p in w && x in w && x != p && Blocked(w, x)
    ensures var w' := Bereaved(w, p, restarted); Blocked(w', x) && WaitsWell(w', x)
  {
    var w' := Bereaved(w, p, restarted);
    WaitsWellAt(w, x);
    BereavedReady(w, p, restarted, x, w[x].waitPid, w[x].options);
    BereavedAt(w, p, restarted, x);
    BereavedWaiter(w, p, restarted, x);
    StillWaits(w, w', x);
  }

  lemma BereavedWaiter(w: World, p: Pid, restarted: set<Pid>, x: Pid)
    requires x in w && x != p && Blocked(w, x)
    ensures var w' := Bereaved(w, p, restarted);
            w'[x].waitPid == w[x].waitPid && w'[x].options == w[x].options && w'[x].running == w[x].running
  {
  }

  lemma BereavedReady(w: World, p: Pid, restarted: set<Pid>, x: Pid, pid: int, options: WaitOptions)
    requires x != p
    ensures Ready(Bereaved(w, p, restarted), x, pid, options) <= Ready(w, x, pid, options)
  {
    var w' := Bereaved(w, p, restarted);
    forall y | y in Ready(w', x, pid, options) ensures y in Ready(w, x, pid, options) {
      BereavedKeys(w, p, restarted);
      assert w'[y] == Orphaned(w[y], y, p, restarted);
    }
  }

  /** A world where only the ptracer `q` of the dead process may be wrong. */
  ghost predicate ValidBut(w: World, q: Pid) {
    q in w && Miscounted(w) <= {q} && Astray(w) == {} && Forgotten(w) == {}
  }

  lemma BereavedValid(w: World, p: Pid, restarted: set<Pid>)
    requires Valid(w) && p in w
    ensures var w' := Bereaved(w, p, restarted);
            if w[p].ptracer.Some? then ValidBut(w', w[p].ptracer.value) else Valid(w')
  {
    var w' := Bereaved(w, p, restarted);
    BereavedKeys(w, p, restarted);
    BereavedRelated(w, p, restarted);
    RelatedAt(w, p);
    forall x | x in w' ensures w[p].ptracer == Some(x) || x !in Miscounted(w') {
      BereavedCounts(w, p, restarted, x);
    }
    forall x | x in w' && Blocked(w', x) ensures WaitsWell(w', x) {
      BereavedBlocked(w, p, restarted, x);
      BereavedWaits(w, p, restarted, x);
    }
  }

  lemma BereavedBlocked(w: World, p: Pid, restarted: set<Pid>, x: Pid)
    requires x in w && x != p
    ensures Blocked(Bereaved(w, p, restarted), x) <==> Blocked(w, x)
  {
  }

  /** The count of `q` is made right again, by one ptracee less or one zombie more. */
  lemma RecountedValid(w: World, q: Pid, n: int, zombies: seq<Zombie>)
    requires ValidBut(w, q) && n == |Ptracees(w, q)| + |zombies|
    requires Blocked(w, q) ==> !AnyZombie(zombies, w[q].waitPid, w[q].options)
    ensures var w' := w[q := w[q].(nbPtracees := n, zombies := zombies)];
            Miscounted(w') == {} && Astray(w') == {} && (if n > 0 then Forgotten(w') == {} else Forgotten(w') <= {q})
  {
    var w' := w[q := w[q].(nbPtracees := n, zombies := zombies)];
    RecountedCounts(w, q, n, zombies);
    forall x | x in w' ensures Related(w', x) {
      assert x !in Astray(w);
    }
    forall x | x in w' && Blocked(w', x) && (x != q || n > 0) ensures WaitsWell(w', x) {
      assert x !in Forgotten(w);
      assert q !in Ready(w, x, w[x].waitPid, w[x].options);
      ReadyBut(w, w', q, x, w[x].waitPid, w[x].options);
      StillWaits(w, w', x);
    }
  }

  lemma RecountedCounts(w: World, q: Pid, n: int, zombies: seq<Zombie>)
    requires q in w && Miscounted(w) <= {q} && n == |Ptracees(w, q)| + |zombies|
    ensures Miscounted(w[q := w[q].(nbPtracees := n, zombies := zombies)]) == {}
  {
    var w' := w[q := w[q].(nbPtracees := n, zombies := zombies)];
    forall x | x in w' ensures w'[x].nbPtracees == |Ptracees(w', x)| + |w'[x].zombies| {
      assert Ptracees(w', x) == Ptracees(w, x);
      assert x !in Miscounted(w) || x == q;
    }
  }

  /** A dead process whose exit was not reported is not one its ptracer waits for. */
  lemma UnreportedNotAwaited(w: World, p: Pid)
    requires Valid(w) && p in w && !w[p].running && w[p].exited && w[p].ptracer.Some? && w[p].pending
    ensures var q := w[p].ptracer.value;
            q in w && (Blocked(w, q) ==> !Matches(w[q].waitPid, w[q].options, p, w[p].thread))
  {
    var q := w[p].ptracer.value;
    RelatedAt(w, p);
    if Blocked(w, q) {
      WaitsWellAt(w, q);
      assert p !in Ready(w, q, w[q].waitPid, w[q].options);
    }
  }

  lemma ZombiesWith(zombies: seq<Zombie>, z: Zombie, pid: int, options: WaitOptions)
    requires !AnyZombie(zombies, pid, options) && !Matches(pid, options, z.pid, z.thread)
    ensures !AnyZombie([z] + zombies, pid, options)
  {
    var all := [z] + zombies;
    forall i | 0 <= i < |all| ensures !Matches(pid, options, all[i].pid, all[i].thread) {
      assert i > 0 ==> all[i] == zombies[i - 1];
    }
  }

  lemma FreedPtracer(w: World, p: Pid, restarted: set<Pid>)
    requires Valid(w) && p in w && w[p].ptracer.Some?
    ensures var q, b := w[p].ptracer.value, Bereaved(w, p, restarted);
            && q in w && q != p && q in b && ValidBut(b, q)
            && b[q].zombies == w[q].zombies && b[q].waitPid == w[q].waitPid && b[q].options == w[q].options
            && b[q].nbPtracees == |Ptracees(b, q)| + |b[q].zombies| + 1
  {
    var q := w[p].ptracer.value;
    RelatedAt(w, p);
    BereavedValid(w, p, restarted);
    BereavedCounts(w, p, restarted, q);
    BereavedOptions(w, p, restarted, q);
  }

  lemma BereavedOptions(w: World, p: Pid, restarted: set<Pid>, x: Pid)
    requires x in w && x != p
    ensures var w' := Bereaved(w, p, restarted); w'[x].waitPid == w[x].waitPid && w'[x].options == w[x].options
  {
  }

  lemma FreedValid(w: World, p: Pid, restarted: set<Pid>)
    requires Valid(w) && p in w && !w[p].running && w[p].exited
    requires w[p].ptracer.Some? ==> w[p].ptracer.value in w && w[p].ptracer.value != p
    ensures Valid(Freed(w, p, restarted))
  {
    BereavedValid(w, p, restarted);
    if w[p].ptracer.Some? {
      FreedPtracer(w, p, restarted);
      if w[p].pending && w[p].exited {
        ZombifiedValid(w, p, restarted);
      } else {
        LostPtracee(w, p, restarted);
      }
    }
  }

  lemma ZombifiedValid(w: World, p: Pid, restarted: set<Pid>)
    requires Valid(w) && p in w && !w[p].running && w[p].ptracer.Some?
    requires w[p].pending && w[p].exited && w[p].ptracer.value in w && w[p].ptracer.value != p
    ensures Valid(Freed(w, p, restarted))
  {
    var q, b, z := w[p].ptracer.value, Bereaved(w, p, restarted), Zombie(p, w[p].parent, w[p].thread);
    FreedPtracer(w, p, restarted);
    UnreportedNotAwaited(w, p);
    var zombies := [z] + b[q].zombies;
    if Blocked(b, q) {
      assert q !in Forgotten(b);
      ZombiesWith(b[q].zombies, z, b[q].waitPid, b[q].options);
    }
    RecountedValid(b, q, b[q].nbPtracees, zombies);
    assert Freed(w, p, restarted) == b[q := b[q].(nbPtracees := b[q].nbPtracees, zombies := zombies)];
  }

  lemma LostPtracee(w: World, p: Pid, restarted: set<Pid>)
    requires Valid(w) && p in w && w[p].ptracer.Some?
    requires !(w[p].pending && w[p].exited) && w[p].ptracer.value in w && w[p].ptracer.value != p
    ensures Valid(Freed(w, p, restarted))
  {
    var q, b := w[p].ptracer.value, Bereaved(w, p, restarted);
    FreedPtracer(w, p, restarted);
    if Blocked(b, q) {
      assert q !in Forgotten(b);
    }
    var n := b[q].nbPtracees - 1;
    RecountedValid(b, q, n, b[q].zombies);
    var r := b[q := b[q].(nbPtracees := n, zombies := b[q].zombies)];
    assert r == b[q := b[q].(nbPtracees := n)];
    if r[q].nbPtracees == 0 && r[q].waitPid != 0 {
      WokenValid(r, q);
    } else if n <= 0 {
      NotForgotten(r, q);
    }
  }

  // ----- Events -----

  lemma NotifiedValid(w: World, p: Pid, exit: bool, faults: bool)
    requires Valid(w) && p in w && w[p].ptracer.Some? && w[p].ptracer.value in w && w[p].ptracer.value != p
    ensures Valid(Notified(w, p, exit, faults))
  {
    var q := w[p].ptracer.value;
    var y := w[p].(running := false, pending := true, exited := exit);
    ChangedValid(w, p, y);
    var w1 := w[p := y];
    if w[q].waitPid != 0 && Matches(w[q].waitPid, w[q].options, p, w[p].thread) {
      UpdatedValid(w1, q, Alive(p), faults);
      WokenValid(Updated(w1, q, Alive(p), faults).world, q);
    } else {
      NotAwaited(w, p, y);
    }
  }

  /** An event its ptracer does not wait for. */
  lemma NotAwaited(w: World, p: Pid, y: Process)
    requires Valid(w) && p in w && w[p].ptracer.Some? && w[p].ptracer.value in w && w[p].ptracer.value != p
    requires y == w[p].(running := false, pending := true, exited := y.exited)
    requires var q := w[p].ptracer.value; w[q].waitPid != 0 ==> !Matches(w[q].waitPid, w[q].options, p, w[p].thread)
    ensures Valid(w[p := y])
  {
    var q, w' := w[p].ptracer.value, w[p := y];
    ChangedValid(w, p, y);
    if Blocked(w', q) {
      WaitsWellAt(w, q);
      ReadyBut(w, w', p, q, w[q].waitPid, w[q].options);
      StillWaits(w, w', q);
      assert q !in Forgotten(w');
    } else {
      NotForgotten(w', q);
    }
  }

  // ----- Every operation -----

  /** No assertion fails as long as a process is not attached to before its creation is handled, and
      a process that asks to be traced has a parent to be traced by. */
  predicate Careful(w: World, op: Op) {
    match op
    case Fork(_, child, _, _, _) => child in w ==> w[child].ptracer.None? && w[child].parent.None?
    case TraceMe(p) => p in w && w[p].ptracer.None? ==> w[p].parent.Some?
    case _ => true
  }

  /** The operations keep the world valid; they fail exactly where they are not careful. */
  lemma StepValid(w: World, op: Op)
    requires Valid(w) && Enabled(w, op)
    ensures Step(w, op).Some? <==> Careful(w, op)
    ensures Step(w, op).Some? ==> Valid(Step(w, op).value)
  {
    match op
    case Appear(p) => AppearValid(w, p);
    case Fork(creator, child, sibling, thread, inherits) => ForkValid(w, creator, child, sibling, thread, inherits);
    case TraceMe(p) =>
      RelatedAt(w, p);
      if w[p].ptracer.None? && w[p].parent.Some? {
        AttachedValid(w, p, w[p].parent.value);
      }
    case Attach(q, p) =>
      if p in w && w[p].ptracer.None? && p != q {
        AttachedValid(w, p, q);
      }
    case Detach(q, p) =>
      if p != q && Requests(w, q, p) {
        RelatedAt(w, p);
        HasPtracee(w, p);
        DetachedValid(w, p);
        NotForgotten(Detached(w, p), q);
        RestartedValid(Detached(w, p), p);
      }
    case Resume(q, p) =>
      if Requests(w, q, p) {
        RestartedValid(w, p);
      }
    case Event(p, exit, notified, faults) => EventValid(w, p, exit, notified, faults);
    case Wait(q, pid, options, choice, faults) => WaitValid(w, q, pid, options, choice, faults);
    case Free(p, restarted) =>
      RelatedAt(w, p);
      if w[p].ptracer.Some? {
        HasPtracee(w, p);
      }
      FreedValid(w, p, restarted);
  }

  lemma ForkValid(w: World, creator: Pid, child: Pid, sibling: bool, thread: bool, inherits: bool)
    requires Valid(w) && Enabled(w, Fork(creator, child, sibling, thread, inherits))
    ensures var op := Fork(creator, child, sibling, thread, inherits);
            && (Step(w, op).Some? <==> Careful(w, op))
            && (Step(w, op).Some? ==> Valid(Step(w, op).value))
  {
    if child in w ==> w[child].parent.None? && w[child].ptracer.None? {
      if child in w {
        RelatedAt(w, child);
      }
      RelatedAt(w, creator);
      CreatedValid(w, creator, child, sibling, thread);
      var q := w[creator].ptracer;
      if inherits && q.Some? {
        AttachedValid(Created(w, creator, child, sibling, thread), child, q.value);
      }
    }
  }

  lemma EventValid(w: World, p: Pid, exit: bool, notified: bool, faults: bool)
    requires Valid(w) && Enabled(w, Event(p, exit, notified, faults))
    ensures var op := Event(p, exit, notified, faults); Step(w, op).Some? && Valid(Step(w, op).value)
  {
    RelatedAt(w, p);
    if w[p].ptracer.None? {
      if exit {
        ChangedValid(w, p, w[p].(running := false, exited := true));
      }
    } else {
      HasPtracee(w, p);
      if notified {
        NotifiedValid(w, p, exit, faults);
      }
    }
  }

  lemma WaitValid(w: World, q: Pid, pid: int, options: WaitOptions, choice: Option<Target>, faults: bool)
    requires Valid(w) && Enabled(w, Wait(q, pid, options, choice, faults))
    ensures var op := Wait(q, pid, options, choice, faults); Step(w, op).Some? && Valid(Step(w, op).value)
  {
    match choice
    case None =>
      if w[q].nbPtracees != 0 && !options.noHang {
        BlockedValid(w, q, pid, options);
      }
    case Some(target) =>
      if target.Alive? {
        assert target.pid in Waitable(w, q, pid, options);
      }
      UpdatedValid(w, q, target, faults);
      NotForgotten(Updated(w, q, target, faults).world, q);
  }

  // ----- Runs -----

  /** Processes that are traced, or that have a parent, before their creation is handled. */
  ghost function Premature(w: World): set<Pid> {
    set p | p in w && !w[p].known && (w[p].ptracer.Some? || w[p].parent.Some?)
  }

  /** Nobody attaches to a process whose creation is not handled yet, and no orphan asks to be traced. */
  predicate Polite(w: World, op: Op) {
    match op
    case Attach(_, p) => p in w ==> w[p].known
    case TraceMe(p) => p in w && w[p].ptracer.None? ==> w[p].parent.Some?
    case _ => true
  }

  lemma PoliteIsCareful(w: World, op: Op)
    requires Premature(w) == {} && Polite(w, op) && Enabled(w, op)
    ensures Careful(w, op)
  {
    if op.Fork? {
      assert op.child !in Premature(w);
    }
  }

  ghost predicate Early(w: World, p: Pid) {
    p in w && !w[p].known && (w[p].ptracer.Some? || w[p].parent.Some?)
  }

  lemma UpdatedEarly(w: World, q: Pid, target: Target, faults: bool, x: Pid)
    requires q in w && IsTarget(w, q, target) && Early(Updated(w, q, target, faults).world, x)
    ensures Early(w, x)
  {
  }

  lemma FreedEarly(w: World, p: Pid, restarted: set<Pid>, x: Pid)
    requires p in w && (w[p].ptracer.Some? ==> w[p].ptracer.value in w && w[p].ptracer.value != p)
    requires Early(Freed(w, p, restarted), x)
    ensures Early(w, x)
  {
    BereavedKeys(w, p, restarted);
    BereavedAt(w, p, restarted, x);
  }

  lemma NotifiedEarly(w: World, p: Pid, exit: bool, faults: bool, x: Pid)
    requires p in w && w[p].ptracer.Some? && w[p].ptracer.value in w && w[p].ptracer.value != p
    requires Early(Notified(w, p, exit, faults), x)
    ensures Early(w, x)
  {
  }

  lemma ForkEarly(w: World, creator: Pid, child: Pid, sibling: bool, thread: bool, inherits: bool, x: Pid)
    requires var op := Fork(creator, child, sibling, thread, inherits);
             Enabled(w, op) && Step(w, op).Some? && Early(Step(w, op).value, x)
    ensures Early(w, x)
  {
  }

  /** A polite step makes no process premature. */
  lemma StepEarly(w: World, op: Op, x: Pid)
    requires Valid(w) && Enabled(w, op) && Polite(w, op) && Step(w, op).Some? && Early(Step(w, op).value, x)
    ensures Early(w, x)
  {
    match op
    case Fork(creator, child, sibling, thread, inherits) => ForkEarly(w, creator, child, sibling, thread, inherits, x);
    case Wait(q, pid, options, choice, faults) =>
      if choice.Some? && IsTarget(w, q, choice.value) {
        UpdatedEarly(w, q, choice.value, faults, x);
      }
    case Free(p, restarted) =>
      RelatedAt(w, p);
      FreedEarly(w, p, restarted, x);
    case Event(p, exit, notified, faults) =>
      RelatedAt(w, p);
      if notified && w[p].ptracer.Some? {
        NotifiedEarly(w, p, exit, faults, x);
      }
    case Detach(q, p) =>
      if p != q && Requests(w, q, p) {
        RequestEarly(w, q, p, x);
      }
    case Resume(q, p) =>
    case Attach(q, p) =>
    case TraceMe(p) =>
    case Appear(p) =>
  }

  lemma RequestEarly(w: World, q: Pid, p: Pid, x: Pid)
    requires Valid(w) && q in w && p in w && w[p].ptracer == Some(q) && p != q
    ensures Early(Restarted(Detached(w, p), p), x) ==> Early(w, x)
  {
  }

  lemma StepPremature(w: World, op: Op)
    requires Valid(w) && Enabled(w, op) && Polite(w, op) && Premature(w) == {} && Step(w, op).Some?
    ensures Premature(Step(w, op).value) == {}
  {
    var w' := Step(w, op).value;
    forall x | x in Premature(w') ensures x in Premature(w) {
      StepEarly(w, op, x);
    }
  }

  ghost predicate PoliteRun(w: World, ops: seq<Op>)
    decreases |ops|
  {
    ops != [] ==>
      && Enabled(w, ops[0]) && Polite(w, ops[0])
      && (Step(w, ops[0]).Some? ==> PoliteRun(Step(w, ops[0]).value, ops[1..]))
  }

  function Run(w: World, ops: seq<Op>): Option<World>
    decreases |ops|
  {
    if ops == [] then Some(w)
    else match Step(w, ops[0]) case None => None case Some(w') => Run(w', ops[1..])
  }

  /** In every polite run no assertion fails, no null pointer is followed, every count is right, every
      ptracer kept in wait(2) has somebody to wait for, and no event for it is missed. */
  lemma {:induction false} RunValid(w: World, ops: seq<Op>)
    requires Valid(w) && Premature(w) == {} && PoliteRun(w, ops)
    ensures Run(w, ops).Some? && Valid(Run(w, ops).value)
    decreases |ops|
  {
    if ops != [] {
      PoliteIsCareful(w, ops[0]);
      StepValid(w, ops[0]);
      StepPremature(w, ops[0]);
      RunValid(Step(w, ops[0]).value, ops[1..]);
    }
  }

  /** The first process of a session has no parent and no ptracer. */
  lemma InitialValid(p: Pid)
    ensures var w: World := map[p := NEW_PROCESS.(known := true, running := true)];
            Valid(w) && Premature(w) == {}
  {
    var w: World := map[p := NEW_PROCESS.(known := true, running := true)];
    assert Ptracees(w, p) == {};
  }

  /** That first process makes PRoot follow a null pointer when it asks to be traced. */
  lemma OrphanTraceMe(p: Pid)
    requires p != 0
    ensures var w: World := map[p := NEW_PROCESS.(known := true, running := true)];
            Enabled(w, TraceMe(p)) && Step(w, TraceMe(p)) == None
  {
  }

  ghost predicate EnabledRun(w: World, ops: seq<Op>)
    decreases |ops|
  {
    ops != [] ==> Enabled(w, ops[0]) && (Step(w, ops[0]).Some? ==> EnabledRun(Step(w, ops[0]).value, ops[1..]))
  }

  /** Another process attaching to a child between its first stop and the event of its creation, while
      its creator is still held in clone(2), makes the assertion of new_child fail. */
  lemma EarlyAttachFails(creator: Pid, other: Pid, child: Pid) returns (ops: seq<Op>)
    requires creator != child && creator != other && other != child && 0 !in {creator, other, child}
    ensures var w: World := map[creator := NEW_PROCESS.(known := true, running := true)];
            Valid(w) && EnabledRun(w, ops) && Run(w, ops) == None
    ensures ops == [Fork(creator, other, false, false, false), Appear(child), Attach(other, child),
                    Fork(creator, child, false, false, false)]
  {
    var w: World := map[creator := NEW_PROCESS.(known := true, running := true)];
    InitialValid(creator);
    var w1 := Created(w, creator, other, false, false);
    var w2 := w1[child := NEW_PROCESS];
    var w3 := Attached(w2, child, other);
    var last := [Fork(creator, child, false, false, false)];
    assert EnabledRun(w3, last) && Run(w3, last) == None;
    ops := FirstStep(w2, Attach(other, child), w3, last);
    ops := FirstStep(w1, Appear(child), w2, ops);
    ops := FirstStep(w, Fork(creator, other, false, false, false), w1, ops);
  }

  lemma FirstStep(w: World, op: Op, w': World, rest: seq<Op>) returns (ops: seq<Op>)
    requires Enabled(w, op) && Step(w, op) == Some(w') && EnabledRun(w', rest)
    ensures ops == [op] + rest && EnabledRun(w, ops) && Run(w, ops) == Run(w', rest)
  {
    ops := [op] + rest;
    assert ops[1..] == rest;
  }

  // ----- Exits are not lost -----

  /** `p` is a ptracee of `q` that is dead, and `q` does not know yet. */
  ghost predicate Unreported(w: World, p: Pid, q: Pid) {
    p in w && w[p].ptracer == Some(q) && w[p].pending && w[p].exited
  }

  ghost predicate IsZombieOf(w: World, p: Pid, q: Pid) {
    q in w && exists i :: 0 <= i < |w[q].zombies| && w[q].zombies[i].pid == p
  }

  /** The operations that may end the wait for the exit of `p`: its ptracer is told, or dies. */
  predicate Settles(w: World, op: Op, p: Pid, q: Pid) {
    match op
    case Wait(r, _, _, Some(target), faults) => r == q && IsTargetOf(w, r, target, p) && !(faults && !ReplaysIn(w, r, target))
    case Free(r, _) => r == q
    case _ => false
  }

  predicate IsTargetOf(w: World, q: Pid, target: Target, p: Pid) {
    q in w && IsTarget(w, q, target) && PidOf(w, q, target) == p
  }

  predicate ReplaysIn(w: World, q: Pid, target: Target) {
    q in w && IsTarget(w, q, target) &&
    match target
    case Alive(p) => w[p].parent == Some(q) && w[p].exited
    case Dead(i) => w[q].zombies[i].parent == Some(q)
  }

  /** An exit that was not reported stays so, as that of a process and then as that of a zombie, until
      its ptracer is told or dies. */
  lemma ExitNotLost(w: World, op: Op, p: Pid, q: Pid)
    requires Valid(w) && Enabled(w, op) && Step(w, op).Some? && Unreported(w, p, q) && !Settles(w, op, p, q)
    ensures var w' := Step(w, op).value; Unreported(w', p, q) || IsZombieOf(w', p, q)
  {
    RelatedAt(w, p);
    match op
    case Free(r, restarted) =>
      RelatedAt(w, r);
      if r == p {
        ZombieKept(w, p, q, restarted);
      } else {
        FreedElsewhere(w, r, p, q, restarted);
      }
    case Event(r, exit, notified, faults) =>
      RelatedAt(w, r);
      EventElsewhere(w, r, exit, notified, faults, p, q);
    case Wait(r, pid, options, choice, faults) =>
      WaitElsewhere(w, r, pid, options, choice, faults, p, q);
    case Fork(creator, child, sibling, thread, inherits) =>
    case Detach(r, x) =>
    case Resume(r, x) =>
    case Attach(r, x) =>
    case TraceMe(x) =>
    case Appear(x) =>
  }

  lemma FreedElsewhere(w: World, r: Pid, p: Pid, q: Pid, restarted: set<Pid>)
    requires Unreported(w, p, q) && r in w && r != p && r != q
    requires w[r].ptracer.Some? ==> w[r].ptracer.value in w && w[r].ptracer.value != r
    ensures Unreported(Freed(w, r, restarted), p, q)
  {
  }

  lemma EventElsewhere(w: World, r: Pid, exit: bool, notified: bool, faults: bool, p: Pid, q: Pid)
    requires Valid(w) && Enabled(w, Event(r, exit, notified, faults)) && Step(w, Event(r, exit, notified, faults)).Some?
    requires Unreported(w, p, q)
    ensures Unreported(Step(w, Event(r, exit, notified, faults)).value, p, q)
  {
  }

  lemma WaitElsewhere(w: World, r: Pid, pid: int, options: WaitOptions, choice: Option<Target>, faults: bool, p: Pid, q: Pid)
    requires var op := Wait(r, pid, options, choice, faults);
             Valid(w) && Enabled(w, op) && Step(w, op).Some? && Unreported(w, p, q) && !Settles(w, op, p, q)
    ensures Unreported(Step(w, Wait(r, pid, options, choice, faults)).value, p, q)
  {
    if choice.Some? && choice.value.Alive? {
      assert choice.value.pid in Waitable(w, r, pid, options);
    }
  }

  lemma ZombieKept(w: World, p: Pid, q: Pid, restarted: set<Pid>)
    requires Unreported(w, p, q) && q in w && p != q
    ensures IsZombieOf(Freed(w, p, restarted), p, q)
  {
    BereavedAt(w, p, restarted, q);
    var w' := Freed(w, p, restarted);
    assert w'[q].zombies[0].pid == p;
  }
}
