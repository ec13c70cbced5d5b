/** What each call on a message queue answers, and what it does to the processes involved
    (src/extension/sysvipc/sysvipc_msg.c:100-312), and which identifiers are given again. */
module SysvAnswers {
  import opened Common
  import opened SysvMsg

  // ----- msgget -----

  /** The identifier of the one queue with this key, or an error; and that of a new queue, empty, in the
      first place that is free, only where there is none and one may be made. */
  lemma GetCall(w: World, id: int, create: bool, exclusive: bool) returns (k: nat)
    requires -0x8000_0000 <= id < 0x8000_0000
    ensures var r := Step(w, OpGet(id, create, exclusive));
            && r.Done? && r.world.receivers == w.receivers
            && if exists i :: 0 <= i < |w.queues| && HasKey(w.queues[i], id) then
                 && r.world == w && k < |w.queues| && HasKey(w.queues[k], id)
                 && r.status == if create && exclusive then -EEXIST else IdOf(k, w.queues[k].generation)
               else if !create then r == Done(-ENOENT, w)
               else
                 && k < |r.world.queues| && r.status == IdOf(k, r.world.queues[k].generation)
                 && r.world.queues[k].valid && r.world.queues[k].key == id && r.world.queues[k].items == []
                 && (forall i :: 0 <= i < k ==> i < |w.queues| && w.queues[i].valid)
                 && (k < |w.queues| ==> !w.queues[k].valid)
                 && forall i :: 0 <= i < |w.queues| && i != k ==> i < |r.world.queues| && r.world.queues[i] == w.queues[i]
  {
    k := GetAnswers(w.queues, id, create, exclusive);
  }

  // ----- msgsnd -----

  /** A message is queued, as the last one, exactly when its queue is there, it is not too big, it can be
      read and its type is positive; nothing changes otherwise. */
  lemma SendAnswers(w: World, id: int, size: nat, mtype: Option<int>, text: Option<Text>, woken: Option<Pid>)
    ensures var r := Step(w, OpSend(id, size, mtype, text, woken));
            var i := Lookup(w.queues, id);
            && r.Done? && r.status in {0, -EINVAL, -EFAULT}
            && (r.status == 0 <==> i.Some? && size <= 65535 && mtype.Some? && mtype.value > 0 && text.Some?)
            && (r.status == -EFAULT <==>
                  i.Some? && size <= 65535 && (mtype.None? || (mtype.value > 0 && text.None?)))
            && (r.status != 0 ==> r.world == w)
            && (r.status == 0 ==>
                  && |r.world.queues| == |w.queues|
                  && r.world.queues[i.value].items == w.queues[i.value].items + [Item(mtype.value, text.value)]
                  && forall k :: 0 <= k < |w.queues| && k != i.value ==> r.world.queues[k] == w.queues[k])
  {
  }

  /** Nobody but the receiver that waits for it is told. */
  lemma SendWakes(w: World, id: int, size: nat, mtype: Option<int>, text: Option<Text>, woken: Option<Pid>, p: Pid)
    requires Enabled(w, OpSend(id, size, mtype, text, woken)) && p in w.receivers
    requires Step(w, OpSend(id, size, mtype, text, woken)).status == 0
    ensures var w' := Step(w, OpSend(id, size, mtype, text, woken)).world;
            && p in w'.receivers
            && if woken == Some(p) then
                 && w.receivers[p].Blocked? && w.receivers[p].index == Lookup(w.queues, id).value
                 && Matches(Item(mtype.value, text.value), w.receivers[p].request)
                 && Awaits(w'.receivers[p]) && w'.receivers[p].index == w.receivers[p].index
                 && w'.receivers[p].request == w.receivers[p].request
               else w'.receivers[p] == w.receivers[p]
  {
  }

  // ----- msgrcv -----

  /** Arguments that msgrcv refuses: a size that is negative as an int, an unknown flag, or a copy that
      may have to wait or takes all but a type. */
  predicate Malformed(request: Request) {
    || 0x8000_0000 <= request.size % 0x1_0000_0000
    || request.flags.other
    || (request.flags.copy && !(request.flags.noWait && !request.flags.except))
  }

  /** The message that a request is for: the one at a place, to be copied, or else the first that matches. */
  predicate IsFor(q: Queue, request: Request, k: nat) {
    && k < |q.items|
    && if request.flags.copy then request.mtype == k
       else Matches(q.items[k], request) && forall i :: 0 <= i < k ==> !Matches(q.items[i], request)
  }

  ghost predicate NoneFor(q: Queue, request: Request) {
    forall k: nat :: !IsFor(q, request, k)
  }

  /** The errors in their order; no message at all is an error only with IPC_NOWAIT. What is delivered is
      the text, or as much of it as fits with MSG_NOERROR. */
  lemma ReceiveAnswers(q: Queue, request: Request, faults: bool)
    ensures Receive(q, request, faults) == Failed(EINVAL) <==> Malformed(request)
    ensures !Malformed(request) && NoneFor(q, request) ==>
              Receive(q, request, faults) == if request.flags.noWait then Failed(ENOMSG) else MustWait
    ensures forall k: nat | !Malformed(request) && IsFor(q, request, k) ::
              var fits := |q.items[k].text| <= request.size;
              if !fits && !request.flags.noError then Receive(q, request, faults) == Failed(E2BIG)
              else if faults then Receive(q, request, faults) == Failed(EFAULT)
              else Receive(q, request, faults) == Got(k, if fits then |q.items[k].text| else request.size)
  {
    FirstMatchIsFirst(q.items, request);
    var j := if request.flags.copy then if request.mtype >= 0 then request.mtype else |q.items| else FirstMatch(q.items, request);
    forall k: nat | IsFor(q, request, k) ensures k == j {
      if !request.flags.copy {
        FirstMatchFound(q.items, request, k);
      }
    }
    if j < |q.items| {
      assert IsFor(q, request, j);
    }
  }

  /** A receive leaves a message queued unless it delivers it, and then takes that one out; a copy leaves
      it too. */
  lemma ReceiveTakes(q: Queue, request: Request, faults: bool)
    ensures var o, q' := Receive(q, request, faults), AfterReceive(q, request, faults);
            if o.Got? && !request.flags.copy then o.k < |q.items| && q'.items == q.items[..o.k] + q.items[o.k + 1..]
            else q' == q
  {
    FirstMatchIsFirst(q.items, request);
  }

  /** The call answers the length or the error; it waits only where the receive has to, as a blocked
      receiver of this queue. */
  lemma ReceiveCall(w: World, pid: Pid, id: int, request: Request, faults: bool)
    ensures var r, i := Step(w, OpReceive(pid, id, request, faults)), Lookup(w.queues, id);
            && r.Done?
            && if i.None? then r.status == -EINVAL && r.world == w
               else
                 var o := Receive(w.queues[i.value], request, faults);
                 && (o.Got? ==> r.status == o.length) && (o.Failed? ==> r.status == -o.errno)
                 && (o.MustWait? ==> r.status == 0)
                 && pid in r.world.receivers
                 && r.world.receivers[pid] == (if o.MustWait? then Blocked(i.value, request) else Idle)
                 && |r.world.queues| == |w.queues|
                 && r.world.queues[i.value] == AfterReceive(w.queues[i.value], request, faults)
                 && (forall k :: 0 <= k < |w.queues| && k != i.value ==> r.world.queues[k] == w.queues[k])
                 && forall p :: p in w.receivers && p != pid ==> p in r.world.receivers && r.world.receivers[p] == w.receivers[p]
  {
  }

  /** The retry of a receiver woken up for a message answers what the call would have, except that it
      is interrupted where it would have to wait again; it never waits. */
  lemma RetryAnswers(w: World, pid: Pid, faults: bool)
    requires pid in w.receivers && Awaits(w.receivers[pid]) && NamesQueue(w, w.receivers[pid].index)
    ensures var r := Step(w, OpRetry(pid, faults));
            var i, request := w.receivers[pid].index, w.receivers[pid].request;
            var o := Receive(w.queues[i], request, faults);
            && r.Done?
            && (o.Got? ==> r.status == o.length) && (o.Failed? ==> r.status == -o.errno)
            && (o.MustWait? ==> r.status == -EINTR)
            && r.world.receivers == w.receivers[pid := Idle]
            && r.world.queues == w.queues[i := AfterReceive(w.queues[i], request, faults)]
  {
  }

  /** A signal ends a wait with EINTR, and nothing else. */
  lemma InterruptAnswers(w: World, pid: Pid)
    requires Enabled(w, OpInterrupt(pid))
    ensures Step(w, OpInterrupt(pid)) == Done(-EINTR, World(w.queues, w.receivers[pid := Idle]))
  {
  }

  // ----- msgctl(IPC_RMID) -----

  /** A queue that is removed is gone under every identifier; those who waited for its messages, and only
      they, are told EIDRM at once, with nothing delivered. */
  lemma RemoveAnswers(w: World, id: int, p: Pid, faults: bool)
    requires p in w.receivers
    ensures Lookup(w.queues, id).None? ==> Step(w, OpRemove(id)) == Done(-EINVAL, w)
    ensures var i := Lookup(w.queues, id);
            i.Some? ==>
              var r := Step(w, OpRemove(id));
              && r.Done? && r.status == 0 && |r.world.queues| == |w.queues| && !r.world.queues[i.value].valid
              && (forall other :: Lookup(r.world.queues, other) != i)
              && (forall k :: 0 <= k < |w.queues| && k != i.value ==> r.world.queues[k] == w.queues[k])
              && p in r.world.receivers
              && if w.receivers[p].Blocked? && w.receivers[p].index == i.value then
                   Step(r.world, OpRetry(p, faults))
                   == Done(-EIDRM, World(r.world.queues, r.world.receivers[p := Idle]))
                 else r.world.receivers[p] == w.receivers[p]
  {
  }

  // ----- Which identifiers are given again -----

  /** The queue in a place where `n` queues were made and removed before. */
  function Recreated(q: Queue, key: int, n: nat): Queue {
    if n == 0 then q else NewQueue(key, Removed(Recreated(q, key, n - 1)).generation)
  }

  lemma {:induction false} GenerationAfter(q: Queue, key: int, n: nat)
    requires q.generation == 0
    ensures -0x8000 <= Recreated(q, key, n).generation < 0x8000
    ensures Recreated(q, key, n).generation % 0x1_0000 == n % 0x1_0000
  {
    if n > 0 {
      GenerationAfter(q, key, n - 1);
      NextGeneration(Recreated(q, key, n - 1).generation, n - 1);
    }
  }

  lemma NextGeneration(g: int, n: nat)
    requires g % 0x1_0000 == n % 0x1_0000
    ensures ToInt16(g + 1) % 0x1_0000 == (n + 1) % 0x1_0000
  {
    var a, b := g / 0x1_0000, n / 0x1_0000;
    assert g + 1 == (n + 1) + (a - b) * 0x1_0000;
    SameResidue(n + 1, a - b);
    var t := (g + 1 + 0x8000) / 0x1_0000;
    assert ToInt16(g + 1) == g + 1 + (-t) * 0x1_0000;
    SameResidue(g + 1, -t);
  }

  lemma SameResidue(x: int, k: int)
    ensures (x + k * 0x1_0000) % 0x1_0000 == x % 0x1_0000
  {
    var q := x / 0x1_0000;
    assert x + k * 0x1_0000 == (q + k) * 0x1_0000 + x % 0x1_0000;
  }

  lemma GenerationValue(g: int, n: nat)
    requires -0x8000 <= g < 0x8000 && g % 0x1_0000 == n % 0x1_0000
    ensures g == if n % 0x1_0000 < 0x8000 then n % 0x1_0000 else n % 0x1_0000 - 0x1_0000
  {
  }

  /** The queue made in a place after `n` others is named by its identifier if and only if the place is
      one of the first 4095 and `n`, to 16 bits, is below 32768. */
  lemma {:induction false} NamedIff(queues: seq<Queue>, index: nat, q: Queue, key: int, n: nat)
    requires index < |queues| && q.generation == 0 && q.valid && queues[index] == Recreated(q, key, n)
    ensures Lookup(queues, IdOf(index, queues[index].generation)) == Some(index) <==>
            index + 1 < 4096 && n % 0x1_0000 < 0x8000
  {
    GenerationAfter(q, key, n);
    GenerationValue(queues[index].generation, n);
    IdNamesQueue(queues, index);
  }

  /** The identifier of a queue that is gone is that of a later one in its place if and only if a
      multiple of 65536 queues were made there since. */
  lemma {:induction false} IdAgainIff(index: nat, q: Queue, key: int, n: nat, m: nat)
    requires index + 1 < 4096 && q.generation == 0
    ensures IdOf(index, Recreated(q, key, n).generation) == IdOf(index, Recreated(q, key, m).generation) <==>
            n % 0x1_0000 == m % 0x1_0000
  {
    var g, h := Recreated(q, key, n).generation, Recreated(q, key, m).generation;
    GenerationAfter(q, key, n);
    GenerationAfter(q, key, m);
    GenerationValue(g, n);
    GenerationValue(h, m);
    IdParts(index, g);
    IdParts(index, h);
    GenerationPart(g);
    GenerationPart(h);
  }
}
