/** What the emulated calls mean for the processes they are about: who traces a new child, what a request
    does to a ptracee, who is told about an exit, and what is left of a ptracee whose ptracer is dead
    (src/ptrace/wait.c:121-227, src/tracee/tracee.c:80-170, src/tracee/tracee.c:382-507). */
module PtraceCalls {
  import opened Common
  import opened Ptrace

  // ----- fork(2), vfork(2), clone(2) -----

  /** A child runs, as a thread or not; its parent is its creator or, with CLONE_PARENT, the parent of its
      creator; the ptracer of its creator traces it only when asked to. Nobody else notices. */
  lemma ForkMeaning(w: World, creator: Pid, child: Pid, sibling: bool, thread: bool, inherits: bool)
    requires var op := Fork(creator, child, sibling, thread, inherits); Valid(w) && Enabled(w, op) && Careful(w, op)
    ensures var r := Step(w, Fork(creator, child, sibling, thread, inherits));
            && r.Some? && child in r.value
            && var w' := r.value;
            && var y := w'[child];
            && y.known && y.running && y.thread == thread
            && y.parent == (if sibling then w[creator].parent else Some(creator))
            && y.ptracer == (if inherits then w[creator].ptracer else None)
            && (y.ptracer.Some? ==> !y.pending && w'[y.ptracer.value].nbPtracees == w[y.ptracer.value].nbPtracees + 1)
            && forall x :: x in w && x != child && y.ptracer != Some(x) ==> x in w' && w'[x] == w[x]
  {
    RelatedAt(w, creator);
    if child in w {
      RelatedAt(w, child);
    }
  }

  // ----- ptrace(2) requests -----

  /** A request is about a stopped ptracee of the caller, and is lost on any other process; but a zombie of
      the same number hides it. */
  lemma DetachMeaning(w: World, q: Pid, p: Pid)
    requires Valid(w) && Enabled(w, Detach(q, p)) && p in w
    ensures var r := Step(w, Detach(q, p));
            && r.Some?
            && if w[p].ptracer == Some(q) && !w[p].running && !(exists z :: z in w[q].zombies && z.pid == p) then
                 && p != q && p in r.value && q in r.value
                 && r.value[p].ptracer.None? && r.value[q].nbPtracees == w[q].nbPtracees - 1
                 && (r.value[p].running <==> w[p].waitPid == 0)
                 && forall x :: x in w && x != p && x != q ==> x in r.value && r.value[x] == w[x]
               else r.value == w
  {
    StepValid(w, Detach(q, p));
    RelatedAt(w, p);
  }

  lemma ResumeMeaning(w: World, q: Pid, p: Pid)
    requires Valid(w) && Enabled(w, Resume(q, p)) && p in w
    ensures var found := w[p].ptracer == Some(q) && !w[p].running && !(exists z :: z in w[q].zombies && z.pid == p);
            Step(w, Resume(q, p)) == Some(if found && w[p].waitPid == 0 then w[p := w[p].(running := true)] else w)
  {
  }

  // ----- exits -----

  /** The parent of a process, when it is its ptracer too, is told about the exit by the kernel; any other
      ptracer by PRoot. */
  lemma ReplayedIff(w: World, q: Pid, target: Target, faults: bool)
    requires q in w && IsTarget(w, q, target)
    ensures Updated(w, q, target, faults).report == Replayed <==> ReplaysIn(w, q, target)
    ensures Updated(w, q, target, faults).report == Failed <==> faults && !ReplaysIn(w, q, target)
    ensures Updated(w, q, target, faults).report == Failed ==> Updated(w, q, target, faults).world == w
  {
  }

  /** A process that is dead, and that its ptracer has not heard of. */
  ghost function Unheard(w: World, q: Pid): multiset<Pid>
    requires q in w
  {
    multiset(set p | p in w && Unreported(w, p, q)) + multiset(Numbers(w[q].zombies))
  }

  ghost function Numbers(zombies: seq<Zombie>): seq<Pid> {
    seq(|zombies|, i requires 0 <= i < |zombies| => zombies[i].pid)
  }

  /** An exit is told once: by the kernel or by PRoot, the ptracer hears of one dead process, and that one
      is then heard of. Another event, or a status that cannot be written, is no exit. */
  lemma ToldOnce(w: World, q: Pid, pid: int, options: WaitOptions, target: Target, faults: bool)
    requires Valid(w) && Enabled(w, Wait(q, pid, options, Some(target), faults))
    ensures IsTarget(w, q, target)
    ensures var u := Updated(w, q, target, faults);
            var p := PidOf(w, q, target);
            && Step(w, Wait(q, pid, options, Some(target), faults)) == Some(u.world) && q in u.world
            && if u.report != Failed && (target.Alive? ==> w[p].exited) then
                 p in Unheard(w, q) && Unheard(u.world, q) == Unheard(w, q) - multiset{p}
               else Unheard(u.world, q) == Unheard(w, q)
  {
    var u := Updated(w, q, target, faults);
    match target
    case Alive(p) =>
      assert p in Waitable(w, q, pid, options);
      StepValid(w, Wait(q, pid, options, Some(target), faults));
      LivingTold(w, q, p, faults);
    case Dead(i) =>
      StepValid(w, Wait(q, pid, options, Some(target), faults));
      if u.report != Failed {
        ZombieTold(w, q, i);
      }
  }

  ghost function Dying(w: World, q: Pid): set<Pid> {
    set p | p in w && Unreported(w, p, q)
  }

  lemma LivingTold(w: World, q: Pid, p: Pid, faults: bool)
    requires q in w && p in w && p != q && w[p].ptracer == Some(q) && w[p].pending
    ensures var u := Updated(w, q, Alive(p), faults);
            && q in u.world
            && if u.report != Failed && w[p].exited then
                 p in Unheard(w, q) && Unheard(u.world, q) == Unheard(w, q) - multiset{p}
               else Unheard(u.world, q) == Unheard(w, q)
  {
    var w' := Updated(w, q, Alive(p), faults).world;
    assert w'[q].zombies == w[q].zombies;
    if Updated(w, q, Alive(p), faults).report != Failed && w[p].exited {
      assert p in Dying(w, q);
      assert Dying(w', q) == Dying(w, q) - {p};
    } else {
      assert Dying(w', q) == Dying(w, q);
    }
  }

  lemma ZombieTold(w: World, q: Pid, i: nat)
    requires q in w && i < |w[q].zombies|
    ensures w[q].zombies[i].pid in Unheard(w, q)
    ensures Unheard(Reaped(w, q, i), q) == Unheard(w, q) - multiset{w[q].zombies[i].pid}
  {
    var zombies, w' := w[q].zombies, Reaped(w, q, i);
    assert Dying(w', q) == Dying(w, q);
    assert Numbers(zombies) == Numbers(zombies[..i]) + [zombies[i].pid] + Numbers(zombies[i + 1..]);
    assert Numbers(Without(zombies, i)) == Numbers(zombies[..i]) + Numbers(zombies[i + 1..]);
  }

  // ----- the death of a ptracer -----

  lemma FreedStep(w: World, p: Pid, restarted: set<Pid>)
    requires Valid(w) && Enabled(w, Free(p, restarted))
    ensures w[p].ptracer.Some? ==> w[p].ptracer.value in w && w[p].ptracer.value != p
    ensures Step(w, Free(p, restarted)) == Some(Freed(w, p, restarted))
  {
    RelatedAt(w, p);
    if w[p].ptracer.Some? {
      HasPtracee(w, p);
    }
  }

  /** What was traced by a dead process is free: no event of it is pending any more, and one that was
      stopped for its ptracer runs again, unless it waits itself. Its children are orphans. */
  lemma FreedMeaning(w: World, p: Pid, restarted: set<Pid>, x: Pid)
    requires Valid(w) && Enabled(w, Free(p, restarted)) && x in w && x != p
    ensures var r := Step(w, Free(p, restarted));
            && r.Some? && p !in r.value && x in r.value
            && var y := r.value[x];
            && y.parent == (if w[x].parent == Some(p) then None else w[x].parent)
            && y.ptracer == (if w[x].ptracer == Some(p) then None else w[x].ptracer)
            && y.pending == (w[x].pending && w[x].ptracer != Some(p))
            && y.known == w[x].known && y.thread == w[x].thread && y.exited == w[x].exited
  {
    FreedStep(w, p, restarted);
    assert Freed(w, p, restarted).Keys == w.Keys - {p} by {
      BereavedKeys(w, p, restarted);
    }
    FreedParts(w, p, restarted, x);
  }

  lemma FreedParts(w: World, p: Pid, restarted: set<Pid>, x: Pid)
    requires p in w && x in w && x != p
    requires w[p].ptracer.Some? ==> w[p].ptracer.value in w && w[p].ptracer.value != p
    ensures var w', o := Freed(w, p, restarted), Orphaned(w[x], x, p, restarted);
            x in w' && (if w[p].ptracer != Some(x) then w'[x] == o
                        else w'[x] == o.(zombies := w'[x].zombies, nbPtracees := w'[x].nbPtracees,
                                         waitPid := w'[x].waitPid, running := w'[x].running))
  {
  }

  /** Everybody but the ptracer of the dead one goes on as it was, unless it was its ptracee. */
  lemma OthersGoOn(w: World, p: Pid, restarted: set<Pid>, x: Pid)
    requires p in w && x in w && x != p && w[p].ptracer != Some(x)
    requires w[p].ptracer.Some? ==> w[p].ptracer.value in w && w[p].ptracer.value != p
    ensures var w' := Freed(w, p, restarted);
            && x in w'
            && w'[x].nbPtracees == w[x].nbPtracees && w'[x].zombies == w[x].zombies && w'[x].waitPid == w[x].waitPid
            && (w'[x].running <==> w[x].running || (w[x].ptracer == Some(p) && x in restarted && w[x].waitPid == 0))
  {
    FreedParts(w, p, restarted, x);
  }

  /** For its ptracer: the exit of the dead one is still to be told, or it is one ptracee less; and when
      that was the last one, a ptracer that waits is let go. */
  lemma MournedMeaning(w: World, p: Pid, restarted: set<Pid>)
    requires p in w && w[p].exited && w[p].ptracer.Some? && w[p].ptracer.value in w && w[p].ptracer.value != p
    ensures var q, w' := w[p].ptracer.value, Freed(w, p, restarted);
            && q in w'
            && Unheard(w', q) == Unheard(w, q)
            && w'[q].nbPtracees == w[q].nbPtracees - (if w[p].pending then 0 else 1)
            && w'[q].waitPid == if w[p].pending || w[q].nbPtracees != 1 then w[q].waitPid else 0
  {
    var q, w' := w[p].ptracer.value, Freed(w, p, restarted);
    PtracerAfter(w, p, restarted);
    DyingAfter(w, p, restarted);
    Moved(w, p, q, w', if w[p].pending then [Zombie(p, w[p].parent, w[p].thread)] else []);
  }

  lemma Moved(w: World, p: Pid, q: Pid, w': World, zombie: seq<Zombie>)
    requires q in w && q in w' && p in w && w[p].exited && w[p].ptracer == Some(q)
    requires Dying(w', q) == Dying(w, q) - {p} && w'[q].zombies == zombie + w[q].zombies
    requires if w[p].pending then |zombie| == 1 && zombie[0].pid == p else zombie == []
    ensures Unheard(w', q) == Unheard(w, q)
  {
    if w[p].pending {
      assert p in Dying(w, q);
      assert Numbers(w'[q].zombies) == [p] + Numbers(w[q].zombies);
    } else {
      assert p !in Dying(w, q);
      assert zombie + w[q].zombies == w[q].zombies;
    }
  }

  lemma PtracerAfter(w: World, p: Pid, restarted: set<Pid>)
    requires p in w && w[p].exited && w[p].ptracer.Some? && w[p].ptracer.value in w && w[p].ptracer.value != p
    ensures var q, w' := w[p].ptracer.value, Freed(w, p, restarted);
            && q in w'
            && w'[q].zombies == (if w[p].pending then [Zombie(p, w[p].parent, w[p].thread)] else []) + w[q].zombies
            && w'[q].nbPtracees == w[q].nbPtracees - (if w[p].pending then 0 else 1)
            && w'[q].waitPid == if w[p].pending || w[q].nbPtracees != 1 then w[q].waitPid else 0
  {
  }

  lemma DyingAfter(w: World, p: Pid, restarted: set<Pid>)
    requires p in w && w[p].ptracer.Some? && w[p].ptracer.value in w && w[p].ptracer.value != p
    ensures var q := w[p].ptracer.value; Dying(Freed(w, p, restarted), q) == Dying(w, q) - {p}
  {
    var q, w' := w[p].ptracer.value, Freed(w, p, restarted);
    assert w'.Keys == w.Keys - {p} by {
      BereavedKeys(w, p, restarted);
    }
    forall x | x in w && x != p ensures x in Dying(w', q) <==> x in Dying(w, q) {
      FreedParts(w, p, restarted, x);
    }
  }
}
