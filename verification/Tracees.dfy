/** The functions of src/ptrace/ptrace.c, src/ptrace/wait.c and src/tracee/tracee.c that change who
    traces whom, on the processes they change. */
module Tracees {
  import opened Common
  import opened Ptrace

  const EPERM: int := 1
  const ESRCH: int := 3
  const ECHILD: int := 10
  const EFAULT: int := 14

  /** What a wait status is updated to: 0 when the call goes to the kernel instead. */
  function StatusOf(report: Report): int {
    match report case Replayed => 0 case Failed => -EFAULT case Reported(pid) => pid
  }

  class Table {
    var world: World

    constructor (first: Pid)
      requires first != 0
      ensures Valid(world) && world == map[first := NEW_PROCESS.(known := true, running := true)]
    {
      world := map[first := NEW_PROCESS.(known := true, running := true)];
      new;
      InitialValid(first);
    }

    method AttachToPtracer(ptracee: Pid, ptracer: Pid)
      requires ptracee in world && ptracer in world && ptracee != ptracer
      modifies this
      ensures world == Attached(old(world), ptracee, ptracer)
    {
      world := world[ptracee := world[ptracee].(ptracer := Some(ptracer), pending := false)];
      world := world[ptracer := world[ptracer].(nbPtracees := world[ptracer].nbPtracees + 1)];
    }

    method DetachFromPtracer(ptracee: Pid)
      requires ptracee in world && world[ptracee].ptracer.Some?
      requires world[ptracee].ptracer.value in world && world[ptracee].ptracer.value != ptracee
      requires world[world[ptracee].ptracer.value].nbPtracees > 0
      modifies this
      ensures world == Detached(old(world), ptracee)
    {
      var ptracer := world[ptracee].ptracer.value;
      world := world[ptracee := world[ptracee].(ptracer := None)];
      assert world[ptracer].nbPtracees > 0;
      world := world[ptracer := world[ptracer].(nbPtracees := world[ptracer].nbPtracees - 1)];
    }

    method RestartTracee(tracee: Pid)
      requires tracee in world
      modifies this
      ensures world == Restarted(old(world), tracee)
    {
      if world[tracee].waitPid != 0 || world[tracee].exited {
        return;
      }
      world := world[tracee := world[tracee].(running := true)];
    }

    // ----- ptrace(2) -----

    /** `ok` is false when the pointer to the parent that is followed is null. */
    method TraceMe(tracee: Pid) returns (ok: bool, status: int)
      requires Valid(world) && Enabled(world, Op.TraceMe(tracee))
      modifies this
      ensures ok <==> Careful(old(world), Op.TraceMe(tracee))
      ensures ok ==> Some(world) == Step(old(world), Op.TraceMe(tracee)) && Valid(world)
      ensures !ok ==> Step(old(world), Op.TraceMe(tracee)) == None && world == old(world)
      ensures ok ==> status == (if old(world)[tracee].ptracer.Some? then -EPERM else 0)
    {
      StepValid(world, Op.TraceMe(tracee));
      RelatedAt(world, tracee);
      if world[tracee].ptracer.Some? || world[tracee].parent == Some(tracee) {
        return true, -EPERM;
      }
      if world[tracee].parent.None? {
        return false, 0;
      }
      AttachToPtracer(tracee, world[tracee].parent.value);
      return true, 0;
    }

    method Attach(ptracer: Pid, pid: Pid) returns (status: int)
      requires Valid(world) && Enabled(world, Op.Attach(ptracer, pid))
      modifies this
      ensures Some(world) == Step(old(world), Op.Attach(ptracer, pid)) && Valid(world)
      ensures status == (if pid !in old(world) then -ESRCH
                         else if old(world)[pid].ptracer.Some? || pid == ptracer then -EPERM else 0)
    {
      StepValid(world, Op.Attach(ptracer, pid));
      if pid !in world {
        return -ESRCH;
      }
      if world[pid].ptracer.Some? || pid == ptracer {
        return -EPERM;
      }
      AttachToPtracer(pid, ptracer);
      status := 0;
    }

    /** Whether get_stopped_ptracee finds a ptracee, and not a zombie, for a request. */
    method FindsStopped(ptracer: Pid, pid: Pid) returns (found: bool)
      requires ptracer in world
      ensures found == Requests(world, ptracer, pid)
    {
      for i := 0 to |world[ptracer].zombies|
        invariant forall k :: 0 <= k < i ==> world[ptracer].zombies[k].pid != pid
      {
        if world[ptracer].zombies[i].pid == pid {
          return false;
        }
      }
      found := pid in world && world[pid].ptracer == Some(ptracer) && !world[pid].running;
    }

    method Detach(ptracer: Pid, pid: Pid) returns (status: int)
      requires Valid(world) && Enabled(world, Op.Detach(ptracer, pid))
      modifies this
      ensures Some(world) == Step(old(world), Op.Detach(ptracer, pid)) && Valid(world)
      ensures status == (if Requests(old(world), ptracer, pid) then 0 else -ESRCH)
    {
      StepValid(world, Op.Detach(ptracer, pid));
      var found := FindsStopped(ptracer, pid);
      if !found {
        return -ESRCH;
      }
      RelatedAt(world, pid);
      HasPtracee(world, pid);
      DetachFromPtracer(pid);
      RestartTracee(pid);
      status := 0;
    }

    method Resume(ptracer: Pid, pid: Pid) returns (status: int)
      requires Valid(world) && Enabled(world, Op.Resume(ptracer, pid))
      modifies this
      ensures Some(world) == Step(old(world), Op.Resume(ptracer, pid)) && Valid(world)
      ensures status == (if Requests(old(world), ptracer, pid) then 0 else -ESRCH)
    {
      StepValid(world, Op.Resume(ptracer, pid));
      var found := FindsStopped(ptracer, pid);
      if !found {
        return -ESRCH;
      }
      RestartTracee(pid);
      status := 0;
    }

    // ----- wait(2) -----

    /** Zombies first, in the order of their list; then any stopped ptracee with an event. */
    method GetStoppedPtracee(ptracer: Pid, pid: int, options: WaitOptions) returns (choice: Option<Target>)
      requires ptracer in world && world[ptracer].ptracer != Some(ptracer)
      ensures IsChoice(world, ptracer, pid, options, choice)
    {
      var zombies := world[ptracer].zombies;
      for i := 0 to |zombies|
        invariant forall k :: 0 <= k < i ==> !Matches(pid, options, zombies[k].pid, zombies[k].thread)
      {
        if Matches(pid, options, zombies[i].pid, zombies[i].thread) {
          return Some(Dead(i));
        }
      }
      var left := world.Keys;
      while left != {}
        invariant left <= world.Keys && Waitable(world, ptracer, pid, options) <= left
      {
        var p :| p in left;
        var ptracee := world[p];
        if ptracee.ptracer == Some(ptracer) && Matches(pid, options, p, ptracee.thread) && !ptracee.running && ptracee.pending {
          return Some(Alive(p));
        }
        left := left - {p};
      }
      choice := None;
    }

    /** 0 when the call goes to the kernel instead. */
    method UpdateWaitStatus(ptracer: Pid, target: Target, faults: bool) returns (status: int)
      requires ptracer in world && IsTarget(world, ptracer, target)
      requires Detaches(world, ptracer, target, faults) ==> world[ptracer].nbPtracees > 0
      modifies this
      ensures var u := Updated(old(world), ptracer, target, faults);
              && world == u.world
              && status == StatusOf(u.report)
    {
      match target
      case Alive(p) =>
        if world[p].parent == Some(ptracer) && world[p].exited {
          DetachFromPtracer(p);
          return 0;
        }
        if faults {
          return -EFAULT;
        }
        world := world[p := world[p].(pending := false)];
        status := p;
      case Dead(i) =>
        var zombie := world[ptracer].zombies[i];
        if zombie.parent == Some(ptracer) {
          ReapZombie(ptracer, i);
          return 0;
        }
        if faults {
          return -EFAULT;
        }
        ReapZombie(ptracer, i);
        status := zombie.pid;
    }

    method ReapZombie(ptracer: Pid, i: nat)
      requires ptracer in world && i < |world[ptracer].zombies| && world[ptracer].nbPtracees > 0
      modifies this
      ensures world == Reaped(old(world), ptracer, i)
    {
      var q := world[ptracer];
      world := world[ptracer := q.(nbPtracees := q.nbPtracees - 1, zombies := Without(q.zombies, i))];
    }

    /** Whether any ptracee, stopped or not, or any zombie is one the call asks for. */
    method HasPtracees(ptracer: Pid, pid: int, options: WaitOptions) returns (found: bool)
      requires ptracer in world
      ensures found <==> AnyExpected(world, ptracer, pid, options)
    {
      var zombies := world[ptracer].zombies;
      for i := 0 to |zombies|
        invariant forall k :: 0 <= k < i ==> !Matches(pid, options, zombies[k].pid, zombies[k].thread)
      {
        if Matches(pid, options, zombies[i].pid, zombies[i].thread) {
          return true;
        }
      }
      var left := world.Keys;
      while left != {}
        invariant left <= world.Keys
        invariant forall p :: p in world && p !in left ==> !Expected(world, ptracer, pid, options, p)
      {
        var p :| p in left;
        if Expected(world, ptracer, pid, options, p) {
          return true;
        }
        left := left - {p};
      }
      found := false;
    }

    method TranslateWaitExit(ptracer: Pid, pid: int, options: WaitOptions, faults: bool)
      returns (status: int, ghost choice: Option<Target>)
      requires Valid(world) && Calls(world, ptracer) && (pid == ANY || pid > 0)
      modifies this
      ensures IsChoice(old(world), ptracer, pid, options, choice)
      ensures Some(world) == Step(old(world), Op.Wait(ptracer, pid, options, choice, faults)) && Valid(world)
      ensures choice.None? ==>
                var childless := old(world)[ptracer].nbPtracees == 0
                                 || (options.noHang && !AnyExpected(old(world), ptracer, pid, options));
                status == if childless then -ECHILD else 0
      ensures choice.Some? ==>
                IsTarget(old(world), ptracer, choice.value)
                && status == StatusOf(Updated(old(world), ptracer, choice.value, faults).report)
    {
      RelatedAt(world, ptracer);
      var found := GetStoppedPtracee(ptracer, pid, options);
      choice := found;
      StepValid(world, Op.Wait(ptracer, pid, options, choice, faults));
      if found.None? {
        if world[ptracer].nbPtracees == 0 {
          return -ECHILD, choice;
        }
        if options.noHang {
          var any := HasPtracees(ptracer, pid, options);
          return if any then 0 else -ECHILD, choice;
        }
        world := world[ptracer := world[ptracer].(waitPid := pid, options := options, running := false)];
        return 0, choice;
      }
      UpdatedValid(world, ptracer, found.value, faults);
      status := UpdateWaitStatus(ptracer, found.value, faults);
    }

    /** An event for the ptracer: wake it up if it waits for it. */
    method HandlePtraceeEvent(ptracee: Pid, exit: bool, faults: bool)
      requires Valid(world) && Enabled(world, Op.Event(ptracee, exit, true, faults)) && world[ptracee].ptracer.Some?
      modifies this
      ensures Some(world) == Step(old(world), Op.Event(ptracee, exit, true, faults)) && Valid(world)
    {
      StepValid(world, Op.Event(ptracee, exit, true, faults));
      RelatedAt(world, ptracee);
      HasPtracee(world, ptracee);
      var ptracer := world[ptracee].ptracer.value;
      world := world[ptracee := world[ptracee].(running := false, pending := true, exited := exit)];
      if world[ptracer].waitPid != 0 && Matches(world[ptracer].waitPid, world[ptracer].options, ptracee, world[ptracee].thread) {
        var status := UpdateWaitStatus(ptracer, Alive(ptracee), faults);
        world := world[ptracer := world[ptracer].(waitPid := 0, running := true)];
      }
    }

    // ----- The death of a process -----

    method RemoveTracee(tracee: Pid, restarted: set<Pid>)
      requires Valid(world) && Enabled(world, Op.Free(tracee, restarted))
      modifies this
      ensures Some(world) == Step(old(world), Op.Free(tracee, restarted)) && Valid(world)
    {
      StepValid(world, Op.Free(tracee, restarted));
      RelatedAt(world, tracee);
      var dead := world[tracee];
      if dead.ptracer.Some? {
        HasPtracee(world, tracee);
        BereavedAt(world, tracee, restarted, dead.ptracer.value);
      }
      LeaveRelatives(tracee, restarted);
      if dead.ptracer.None? {
        return;
      }
      var ptracer := dead.ptracer.value;
      if dead.pending && dead.exited {
        // Detached, and attached again as a zombie.
        var zombie := Zombie(tracee, dead.parent, dead.thread);
        world := world[ptracer := world[ptracer].(zombies := [zombie] + world[ptracer].zombies)];
        return;
      }
      assert world[ptracer].nbPtracees > 0;
      world := world[ptracer := world[ptracer].(nbPtracees := world[ptracer].nbPtracees - 1)];
      if world[ptracer].nbPtracees == 0 && world[ptracer].waitPid != 0 {
        world := world[ptracer := world[ptracer].(waitPid := 0, running := true)];
      }
    }

    /** Its children become orphans and its ptracees are freed. */
    method LeaveRelatives(tracee: Pid, restarted: set<Pid>)
      requires tracee in world
      modifies this
      ensures world == Bereaved(old(world), tracee, restarted)
    {
      world := world - {tracee};
      ghost var before := world;
      var left := world.Keys;
      while left != {}
        invariant left <= world.Keys && world.Keys == before.Keys
        invariant forall x :: x in before ==> world[x] == if x in left then before[x] else Orphaned(before[x], x, tracee, restarted)
      {
        var p :| p in left;
        LeaveRelative(p, tracee, restarted);
        left := left - {p};
      }
      BereavedKeys(old(world), tracee, restarted);
      assert world.Keys == Bereaved(old(world), tracee, restarted).Keys;
    }

    method LeaveRelative(relative: Pid, tracee: Pid, restarted: set<Pid>)
      requires relative in world
      modifies this
      ensures world == old(world)[relative := Orphaned(old(world)[relative], relative, tracee, restarted)]
    {
      var y := world[relative];
      if y.parent == Some(tracee) {
        y := y.(parent := None);
      }
      if y.ptracer == Some(tracee) {
        y := y.(ptracer := None, pending := false);
        if relative in restarted && y.waitPid == 0 {
          y := y.(running := true);
        }
      }
      world := world[relative := y];
    }

    // ----- The birth of a process -----

    /** `ok` is false when the assertion that the child has no relatives yet fails. */
    method NewChild(parent: Pid, pid: Pid, sibling: bool, thread: bool, inherits: bool) returns (ok: bool)
      requires Valid(world) && Enabled(world, Op.Fork(parent, pid, sibling, thread, inherits))
      modifies this
      ensures ok <==> Careful(old(world), Op.Fork(parent, pid, sibling, thread, inherits))
      ensures ok ==> Some(world) == Step(old(world), Op.Fork(parent, pid, sibling, thread, inherits)) && Valid(world)
      ensures !ok ==> Step(old(world), Op.Fork(parent, pid, sibling, thread, inherits)) == None
    {
      StepValid(world, Op.Fork(parent, pid, sibling, thread, inherits));
      RelatedAt(world, parent);
      if pid !in world {
        world := world[pid := NEW_PROCESS];
      }
      var child := world[pid];
      ok := child.parent == None && child.ptracer == None;
      if !ok {
        return;
      }
      child := child.(parent := if sibling then world[parent].parent else Some(parent), thread := thread);
      world := world[pid := child.(known := true, running := true)];
      assert world == Created(old(world), parent, pid, sibling, thread);
      if inherits && world[parent].ptracer.Some? {
        AttachToPtracer(pid, world[parent].ptracer.value);
      }
    }
  }
}
