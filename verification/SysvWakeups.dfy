/** Whether a message that somebody waits for is ever left in its queue with nobody woken up for it
    (src/extension/sysvipc/sysvipc_msg.c:100-274, src/extension/sysvipc/sysvipc.c:351-365). msgsnd
    wakes up one receiver, which then tries again: it may be served another message, be late, or fail. */
module SysvWakeups {
  import opened Common
  import opened SysvMsg

  predicate Int32(t: int) {
    -0x8000_0000 <= t < 0x8000_0000
  }

  /** The message types a request asks for. */
  predicate Takes(r: Request, t: int) {
    TypeMatches(t, r.mtype) != r.flags.except
  }

  ghost predicate Same(r: Request, s: Request) {
    forall t | Int32(t) :: Takes(r, t) <==> Takes(s, t)
  }

  ghost predicate Apart(r: Request, s: Request) {
    forall t | Int32(t) :: !(Takes(r, t) && Takes(s, t))
  }

  /** A receiver with this request may have to wait. */
  predicate MayWait(r: Request) {
    !r.flags.noWait && !r.flags.copy && !r.flags.other && ToInt(r.size) >= 0
  }

  /** Any two requests that may wait ask for the same message types, or have none in common. */
  ghost predicate Separated(requests: iset<Request>) {
    forall r, s | r in requests && s in requests && MayWait(r) && MayWait(s) :: Same(r, s) || Apart(r, s)
  }

  // ----- Runs -----

  /** One step of a run where receivers only wait with these requests, no queue is removed under a
      woken receiver, and a retry is neither given a message too big for it nor a faulty buffer. */
  ghost predicate Calm(w: World, op: Op, requests: iset<Request>) {
    && Enabled(w, op) && Patient(w, op)
    && (op.OpReceive? && MayWait(op.request) ==> op.request in requests)
    && (op.OpRetry? && Step(w, op).Done? ==> Step(w, op).status != -E2BIG && Step(w, op).status != -EFAULT)
  }

  ghost predicate CalmRun(w: World, ops: seq<Op>, requests: iset<Request>)
    decreases |ops|
  {
    ops != [] ==>
      && Calm(w, ops[0], requests)
      && (Step(w, ops[0]).Done? ==> CalmRun(Step(w, ops[0]).world, ops[1..], requests))
  }

  /** Before the first call. */
  ghost predicate Quiet(w: World) {
    w.queues == [] && forall p :: p in w.receivers ==> w.receivers[p].Idle?
  }

  /** A receiver is asleep although a message it asks for is queued, and nobody that was woken up in
      this queue is still to try again. */
  ghost predicate Stranded(w: World, p: Pid) {
    && p in w.receivers && w.receivers[p].Blocked? && w.receivers[p].index < |w.queues|
    && (exists item :: item in w.queues[w.receivers[p].index].items && Matches(item, w.receivers[p].request))
    && NobodyWoken(w, w.receivers[p].index)
  }

  ghost predicate NobodyWoken(w: World, index: nat) {
    forall q :: q in w.receivers && Awaits(w.receivers[q]) ==> w.receivers[q].index != index
  }

  // ----- The invariant -----

  /** How many of the items a request asks for. */
  function Wanted(items: seq<Item>, r: Request): nat {
    if items == [] then 0 else Wanted(items[..|items| - 1], r) + (if Matches(items[|items| - 1], r) then 1 else 0)
  }

  /** The receivers that were woken up in a queue for the types of a request. */
  ghost function Alike(receivers: map<Pid, Receiver>, index: nat, r: Request): set<Pid> {
    set p | p in receivers && Awaits(receivers[p]) && receivers[p].index == index && Same(receivers[p].request, r)
  }

  /** Receivers that are asleep while more of their messages are queued than others were woken up. */
  ghost function Overdue(w: World): set<Pid> {
    set p | p in w.receivers && w.receivers[p].Blocked? && w.receivers[p].index < |w.queues|
            && Wanted(w.queues[w.receivers[p].index].items, w.receivers[p].request)
               > |Alike(w.receivers, w.receivers[p].index, w.receivers[p].request)|
  }

  ghost function Foreign(w: World, requests: iset<Request>): set<Pid> {
    set p | p in w.receivers && (w.receivers[p].Blocked? || Awaits(w.receivers[p]))
            && !(w.receivers[p].request in requests && MayWait(w.receivers[p].request))
  }

  ghost predicate Served(w: World, requests: iset<Request>) {
    Valid(w) && Betrayed(w) == {} && Foreign(w, requests) == {} && Overdue(w) == {}
  }

  // ----- Counting -----

  lemma {:induction false} WantedJoin(a: seq<Item>, b: seq<Item>, r: Request)
    ensures Wanted(a + b, r) == Wanted(a, r) + Wanted(b, r)
    decreases |b|
  {
    if b == [] {
      assert a + b == a;
    } else {
      assert (a + b)[..|a + b| - 1] == a + b[..|b| - 1];
      WantedJoin(a, b[..|b| - 1], r);
    }
  }

  lemma {:induction false} WantedOne(item: Item, r: Request)
    ensures Wanted([item], r) == if Matches(item, r) then 1 else 0
  {
    assert [item][..0] == [];
  }

  lemma {:induction false} WantedAfter(items: seq<Item>, item: Item, r: Request)
    ensures Wanted(items + [item], r) == Wanted(items, r) + (if Matches(item, r) then 1 else 0)
  {
    WantedJoin(items, [item], r);
    WantedOne(item, r);
  }

  lemma {:induction false} WantedWithout(items: seq<Item>, k: nat, r: Request)
    requires k < |items|
    ensures Wanted(items, r) == Wanted(Without(items, k), r) + (if Matches(items[k], r) then 1 else 0)
  {
    assert items == items[..k] + [items[k]] + items[k + 1..];
    WantedJoin(items[..k] + [items[k]], items[k + 1..], r);
    WantedAfter(items[..k], items[k], r);
    WantedJoin(items[..k], items[k + 1..], r);
  }

  lemma {:induction false} NoneWanted(items: seq<Item>, r: Request)
    requires forall i :: 0 <= i < |items| ==> !Matches(items[i], r)
    ensures Wanted(items, r) == 0
  {
    if items != [] {
      NoneWanted(items[..|items| - 1], r);
    }
  }

  lemma {:induction false} SomeWanted(items: seq<Item>, item: Item, r: Request)
    requires item in items && Matches(item, r)
    ensures Wanted(items, r) > 0
  {
    var k :| 0 <= k < |items| && items[k] == item;
    WantedWithout(items, k, r);
  }

  lemma {:induction false} SameWanted(items: seq<Item>, r: Request, s: Request)
    requires Same(r, s)
    ensures Wanted(items, r) == Wanted(items, s)
  {
    if items != [] {
      SameWanted(items[..|items| - 1], r, s);
      MatchesTakes(items[|items| - 1], r);
      MatchesTakes(items[|items| - 1], s);
    }
  }

  lemma MatchesTakes(item: Item, r: Request)
    ensures Int32(ToInt(item.mtype)) && (Matches(item, r) <==> Takes(r, ToInt(item.mtype)))
  {
  }

  /** Two separated requests that match one message ask for the same types. */
  lemma MeetSame(requests: iset<Request>, r: Request, s: Request, item: Item)
    requires Separated(requests) && r in requests && s in requests && MayWait(r) && MayWait(s)
    requires Matches(item, r) && Matches(item, s)
    ensures Same(r, s)
  {
    MatchesTakes(item, r);
    MatchesTakes(item, s);
  }

  // ----- Every step -----

  lemma NotOverdue(w: World, p: Pid)
    requires Valid(w) && Overdue(w) == {} && p in w.receivers && w.receivers[p].Blocked?
    ensures var Blocked(index, r) := w.receivers[p];
            NamesQueue(w, index) && Wanted(w.queues[index].items, r) <= |Alike(w.receivers, index, r)|
  {
    assert p !in Misled(w) && p !in Overdue(w);
  }

  lemma NotForeign(w: World, requests: iset<Request>, p: Pid)
    requires Foreign(w, requests) == {} && p in w.receivers && (w.receivers[p].Blocked? || Awaits(w.receivers[p]))
    ensures w.receivers[p].request in requests && MayWait(w.receivers[p].request)
  {
    assert p !in Foreign(w, requests);
  }

  /** Nothing that concerns a sleeping receiver changed, or its messages became fewer. */
  lemma StillServed(w: World, w': World, p: Pid)
    requires Valid(w) && Overdue(w) == {} && p in w.receivers && p in w'.receivers
    requires w.receivers[p].Blocked? && w'.receivers[p] == w.receivers[p] && w.receivers[p].index < |w'.queues|
    requires var Blocked(index, r) := w.receivers[p];
             && index < |w.queues|
             && Wanted(w'.queues[index].items, r) <= Wanted(w.queues[index].items, r)
             && Alike(w.receivers, index, r) <= Alike(w'.receivers, index, r)
    ensures p !in Overdue(w')
  {
    NotOverdue(w, p);
    var Blocked(index, r) := w.receivers[p];
    SmallerSet(Alike(w.receivers, index, r), Alike(w'.receivers, index, r));
  }

  lemma SmallerSet(a: set<Pid>, b: set<Pid>)
    requires a <= b
    ensures |a| <= |b|
  {
    assert b == a + (b - a);
  }

  lemma SendServes(w: World, requests: iset<Request>, index: nat, item: Item, woken: Option<Pid>)
    requires Served(w, requests) && Separated(requests) && NamesQueue(w, index)
    requires match woken
             case None => forall p :: p in w.receivers ==> !WaitsFor(w.receivers[p], index, item)
             case Some(p) => p in w.receivers && WaitsFor(w.receivers[p], index, item)
    ensures var w' := SendIn(w, index, item, woken); Foreign(w', requests) == {} && Overdue(w') == {}
  {
    var w' := SendIn(w, index, item, woken);
    forall p | p in w'.receivers && (w'.receivers[p].Blocked? || Awaits(w'.receivers[p])) ensures p !in Foreign(w', requests) {
      NotForeign(w, requests, p);
    }
    forall p | p in w'.receivers && w'.receivers[p].Blocked? ensures p !in Overdue(w') {
      NotOverdue(w, p);
      SendServesOne(w, requests, index, item, woken, p);
    }
  }

  lemma SendServesOne(w: World, requests: iset<Request>, index: nat, item: Item, woken: Option<Pid>, p: Pid)
    requires Served(w, requests) && Separated(requests) && NamesQueue(w, index)
    requires match woken
             case None => forall p :: p in w.receivers ==> !WaitsFor(w.receivers[p], index, item)
             case Some(p) => p in w.receivers && WaitsFor(w.receivers[p], index, item)
    requires var w' := SendIn(w, index, item, woken); p in w'.receivers && w'.receivers[p].Blocked?
    ensures p !in Overdue(SendIn(w, index, item, woken))
  {
    var w' := SendIn(w, index, item, woken);
    var r := w.receivers[p].request;
    NotOverdue(w, p);
    WantedAfter(w.queues[index].items, item, r);
    if w.receivers[p].index == index && Matches(item, r) {
      var q := woken.value;
      NotForeign(w, requests, p);
      NotForeign(w, requests, q);
      MeetSame(requests, w.receivers[q].request, r, item);
      SmallerSet(Alike(w.receivers, index, r) + {q}, Alike(w'.receivers, index, r));
    } else {
      StillServed(w, w', p);
    }
  }

  lemma ReceiveServes(w: World, requests: iset<Request>, pid: Pid, index: nat, request: Request, faults: bool)
    requires Served(w, requests) && NamesQueue(w, index) && pid in w.receivers && w.receivers[pid].Idle?
    requires MayWait(request) ==> request in requests
    ensures var w' := ReceiveIn(w, pid, index, request, faults, Blocked(index, request));
            Foreign(w', requests) == {} && Overdue(w') == {}
  {
    var items, w' := w.queues[index].items, ReceiveIn(w, pid, index, request, faults, Blocked(index, request));
    FirstMatchIsFirst(items, request);
    forall p | p in w'.receivers && (w'.receivers[p].Blocked? || Awaits(w'.receivers[p])) ensures p !in Foreign(w', requests) {
      if p != pid {
        NotForeign(w, requests, p);
      }
    }
    forall p | p in w'.receivers && w'.receivers[p].Blocked? ensures p !in Overdue(w') {
      if p == pid {
        NoneWanted(items, request);
      } else {
        NotOverdue(w, p);
        FewerWanted(w.queues[index], request, faults, w.receivers[p].request);
        StillServed(w, w', p);
      }
    }
  }

  lemma {:induction false} FewerWanted(q: Queue, request: Request, faults: bool, r: Request)
    ensures Wanted(AfterReceive(q, request, faults).items, r) <= Wanted(q.items, r)
  {
    var o := Receive(q, request, faults);
    if o.Got? && !request.flags.copy && o.k < |q.items| {
      WantedWithout(q.items, o.k, r);
    }
  }

  /** A retry for other types takes no message a sleeping receiver asks for, and is not counted for it. */
  lemma RetryServesOther(w: World, pid: Pid, faults: bool, p: Pid)
    requires Valid(w) && Overdue(w) == {}
    requires pid in w.receivers && Awaits(w.receivers[pid]) && NamesQueue(w, w.receivers[pid].index)
    requires p in w.receivers && w.receivers[p].Blocked?
    requires w.receivers[p].index != w.receivers[pid].index || !Same(w.receivers[pid].request, w.receivers[p].request)
    ensures p !in Overdue(Step(w, OpRetry(pid, faults)).world)
  {
    NotOverdue(w, p);
    FewerWanted(w.queues[w.receivers[pid].index], w.receivers[pid].request, faults, w.receivers[p].request);
    StillServed(w, Step(w, OpRetry(pid, faults)).world, p);
  }

  lemma OneAlikeLess(receivers: map<Pid, Receiver>, receivers': map<Pid, Receiver>, pid: Pid, index: nat, r: Request)
    requires pid in receivers && receivers' == receivers[pid := Idle]
    requires Awaits(receivers[pid]) && receivers[pid].index == index && Same(receivers[pid].request, r)
    ensures |Alike(receivers', index, r)| == |Alike(receivers, index, r)| - 1
  {
    assert pid in Alike(receivers, index, r);
    assert Alike(receivers', index, r) == Alike(receivers, index, r) - {pid};
  }

  /** A retry for the same types takes one of their messages, unless there is none. */
  lemma {:induction false} OneWantedLess(q: Queue, request: Request, faults: bool, r: Request)
    requires Same(request, r) && MayWait(request)
    requires Receive(q, request, faults).MustWait? || Receive(q, request, faults).Got?
    ensures var n := Wanted(q.items, r);
            Wanted(AfterReceive(q, request, faults).items, r) == if n == 0 then 0 else n - 1
  {
    FirstMatchIsFirst(q.items, request);
    SameWanted(q.items, request, r);
    var k := FirstMatch(q.items, request);
    if k == |q.items| {
      NoneWanted(q.items, request);
    } else {
      MatchesTakes(q.items[k], request);
      MatchesTakes(q.items[k], r);
      WantedWithout(q.items, k, r);
    }
  }

  lemma RetryServesOne(w: World, requests: iset<Request>, pid: Pid, faults: bool, p: Pid)
    requires Served(w, requests)
    requires pid in w.receivers && Awaits(w.receivers[pid]) && NamesQueue(w, w.receivers[pid].index)
    requires Calm(w, OpRetry(pid, faults), requests)
    requires p in w.receivers && w.receivers[p].Blocked?
    ensures p !in Overdue(Step(w, OpRetry(pid, faults)).world)
  {
    var index, request, r := w.receivers[pid].index, w.receivers[pid].request, w.receivers[p].request;
    if w.receivers[p].index == index && Same(request, r) {
      NotOverdue(w, p);
      NotForeign(w, requests, pid);
      OneWantedLess(w.queues[index], request, faults, r);
      OneAlikeLess(w.receivers, Step(w, OpRetry(pid, faults)).world.receivers, pid, index, r);
    } else {
      RetryServesOther(w, pid, faults, p);
    }
  }

  lemma RetryServes(w: World, requests: iset<Request>, pid: Pid, faults: bool)
    requires Served(w, requests)
    requires pid in w.receivers && Awaits(w.receivers[pid]) && NamesQueue(w, w.receivers[pid].index)
    requires Calm(w, OpRetry(pid, faults), requests)
    ensures var w' := Step(w, OpRetry(pid, faults)).world; Foreign(w', requests) == {} && Overdue(w') == {}
  {
    var w' := Step(w, OpRetry(pid, faults)).world;
    forall p | p in w'.receivers && (w'.receivers[p].Blocked? || Awaits(w'.receivers[p])) ensures p !in Foreign(w', requests) {
      NotForeign(w, requests, p);
    }
    forall p | p in w'.receivers && w'.receivers[p].Blocked? ensures p !in Overdue(w') {
      RetryServesOne(w, requests, pid, faults, p);
    }
  }

  /** The steps that only touch receivers or queues nobody sleeps for. */
  lemma QuietStepServes(w: World, requests: iset<Request>, op: Op)
    requires Served(w, requests) && Calm(w, op, requests) && Step(w, op).Done?
    requires op.OpGet? || op.OpInterrupt? || op.OpRemove? || (op.OpRetry? && !Awaits(w.receivers[op.pid]))
    ensures var w' := Step(w, op).world; Foreign(w', requests) == {} && Overdue(w') == {}
  {
    var w' := Step(w, op).world;
    if op.OpGet? {
      GetKeeps(w.queues, op.key, op.create, op.exclusive);
    }
    forall p | p in w'.receivers && (w'.receivers[p].Blocked? || Awaits(w'.receivers[p])) ensures p !in Foreign(w', requests) {
      NotForeign(w, requests, p);
    }
    forall p | p in w'.receivers && w'.receivers[p].Blocked? ensures p !in Overdue(w') {
      NotOverdue(w, p);
      StillServed(w, w', p);
    }
  }

  /** Every calm step keeps, for each sleeping receiver, at least as many receivers woken up for its
      types as messages of these types are queued. */
  lemma StepServes(w: World, requests: iset<Request>, op: Op)
    requires Served(w, requests) && Separated(requests) && Calm(w, op, requests)
    ensures Step(w, op).Done? && Served(Step(w, op).world, requests)
  {
    StepValid(w, op);
    StepPatient(w, op);
    match op
    case OpSend(id, size, mtype, text, woken) =>
      if Step(w, op).status == 0 {
        LookupGood(w, id);
        SendServes(w, requests, Lookup(w.queues, id).value, Item(mtype.value, text.value), woken);
      }
    case OpReceive(pid, id, request, faults) =>
      if Lookup(w.queues, id).Some? {
        LookupGood(w, id);
        ReceiveServes(w, requests, pid, Lookup(w.queues, id).value, request, faults);
      }
    case OpRetry(pid, faults) =>
      if Awaits(w.receivers[pid]) {
        assert pid !in Betrayed(w);
        RetryServes(w, requests, pid, faults);
      } else {
        QuietStepServes(w, requests, op);
      }
    case _ =>
      QuietStepServes(w, requests, op);
  }

  lemma {:induction false} RunServes(w: World, requests: iset<Request>, ops: seq<Op>)
    requires Served(w, requests) && Separated(requests) && CalmRun(w, ops, requests)
    ensures Run(w, ops).Some? && Served(Run(w, ops).value, requests)
    decreases |ops|
  {
    if ops != [] {
      StepServes(w, requests, ops[0]);
      RunServes(Step(w, ops[0]).world, requests, ops[1..]);
    }
  }

  lemma QuietIsServed(w: World, requests: iset<Request>)
    requires Quiet(w)
    ensures Served(w, requests)
  {
  }

  lemma ServedNotStranded(w: World, requests: iset<Request>, p: Pid)
    requires Served(w, requests)
    ensures !Stranded(w, p)
  {
    if p in w.receivers && w.receivers[p].Blocked? {
      NotOverdue(w, p);
      var Blocked(index, r) := w.receivers[p];
      forall item | item in w.queues[index].items && Matches(item, r)
        ensures exists q :: q in w.receivers && Awaits(w.receivers[q]) && w.receivers[q].index == index
      {
        SomeWanted(w.queues[index].items, item, r);
        var q :| q in Alike(w.receivers, index, r);
      }
    }
  }

  // ----- Requests that overlap -----

  lemma {:induction false} Prepend(w: World, op: Op, rest: seq<Op>, requests: iset<Request>)
    requires Calm(w, op, requests) && Step(w, op).Done? && CalmRun(Step(w, op).world, rest, requests)
    ensures CalmRun(w, [op] + rest, requests) && Run(w, [op] + rest) == Run(Step(w, op).world, rest)
  {
    assert ([op] + rest)[1..] == rest;
  }

  /** A message type msgsnd accepts that msgrcv compares as `t`. */
  function TypeFor(t: int): (mtype: int)
    requires Int32(t)
    ensures mtype >= 1 && ToInt(mtype) == t
  {
    if t >= 1 then t else t + 0x1_0000_0000
  }

  const FIRST: Pid := 1
  const SECOND: Pid := 2
  const THIRD: Pid := 3

  /** Three receivers of a new queue, asleep with a narrow and twice a wide request. */
  function Sleepers(narrow: Request, wide: Request): map<Pid, Receiver> {
    map[FIRST := Blocked(0, narrow), SECOND := Blocked(0, wide), THIRD := Blocked(0, wide)]
  }

  function Awake(): map<Pid, Receiver> {
    map[FIRST := Idle, SECOND := Idle, THIRD := Idle]
  }

  function Empty(): Queue {
    NewQueue(0, 0)
  }

  /** From the first call to three sleeping receivers. */
  lemma FallAsleep(narrow: Request, wide: Request, requests: iset<Request>, rest: seq<Op>) returns (ops: seq<Op>)
    requires MayWait(narrow) && MayWait(wide) && narrow in requests && wide in requests
    requires CalmRun(World([Empty()], Sleepers(narrow, wide)), rest, requests)
    ensures CalmRun(World([], Awake()), ops, requests)
    ensures Run(World([], Awake()), ops) == Run(World([Empty()], Sleepers(narrow, wide)), rest)
  {
    var w0 := World([], Awake());
    var w1 := World([Empty()], Awake());
    var w2 := w1.(receivers := w1.receivers[FIRST := Blocked(0, narrow)]);
    var w3 := w2.(receivers := w2.receivers[SECOND := Blocked(0, wide)]);
    assert w3.receivers[THIRD := Blocked(0, wide)] == Sleepers(narrow, wide);
    ops := OneSleeps(w3, THIRD, wide, requests, rest);
    ops := OneSleeps(w2, SECOND, wide, requests, ops);
    ops := OneSleeps(w1, FIRST, narrow, requests, ops);
    assert Step(w0, OpGet(0, true, false)).world == w1;
    Prepend(w0, OpGet(0, true, false), ops, requests);
    ops := [OpGet(0, true, false)] + ops;
  }

  /** A receiver of the new queue finds nothing. */
  lemma OneSleeps(w: World, p: Pid, request: Request, requests: iset<Request>, rest: seq<Op>) returns (ops: seq<Op>)
    requires w.queues == [Empty()] && p in w.receivers && w.receivers[p] == Idle
    requires MayWait(request) && request in requests
    requires CalmRun(w.(receivers := w.receivers[p := Blocked(0, request)]), rest, requests)
    ensures CalmRun(w, ops, requests)
    ensures Run(w, ops) == Run(w.(receivers := w.receivers[p := Blocked(0, request)]), rest)
  {
    var id := IdOf(0, 0);
    IdParts(0, 0);
    assert [Empty()][0 := Empty()] == [Empty()];
    assert Step(w, OpReceive(p, id, request, false)).world == w.(receivers := w.receivers[p := Blocked(0, request)]);
    Prepend(w, OpReceive(p, id, request, false), rest, requests);
    ops := [OpReceive(p, id, request, false)] + rest;
  }

  /** The second woken receiver tries again first and takes the message of the first one, which then
      finds nothing for it: the second message stays with the third receiver asleep. */
  lemma LateRetry(narrow: Request, wide: Request, t: int, u: int, requests: iset<Request>) returns (ops: seq<Op>)
    requires MayWait(narrow) && MayWait(wide) && Int32(t) && Int32(u)
    requires Takes(narrow, t) && Takes(wide, t) && Takes(wide, u) && !Takes(narrow, u)
    ensures var w := World([Empty()], Sleepers(narrow, wide));
            CalmRun(w, ops, requests) && Run(w, ops).Some? && Stranded(Run(w, ops).value, THIRD)
  {
    var id, one, two := IdOf(0, 0), Item(TypeFor(t), []), Item(TypeFor(u), []);
    IdParts(0, 0);
    MatchesTakes(one, narrow);
    MatchesTakes(one, wide);
    MatchesTakes(two, narrow);
    MatchesTakes(two, wide);
    var w4 := World([Empty()], Sleepers(narrow, wide));
    var w5 := SendIn(w4, 0, one, Some(FIRST));
    var w6 := SendIn(w5, 0, two, Some(SECOND));
    assert w6.queues[0].items == [one, two];
    FirstMatchFound([one, two], wide, 0);
    var w7 := Step(w6, OpRetry(SECOND, false)).world;
    assert w7.queues[0].items == [two];
    FirstMatchFound([two], narrow, 1);
    var w8 := Step(w7, OpRetry(FIRST, false)).world;
    assert w8.queues[0].items == [two] && two in w8.queues[0].items;
    ops := [];
    Prepend(w7, OpRetry(FIRST, false), ops, requests);
    ops := [OpRetry(FIRST, false)] + ops;
    Prepend(w6, OpRetry(SECOND, false), ops, requests);
    ops := [OpRetry(SECOND, false)] + ops;
    Prepend(w5, OpSend(id, 0, Some(two.mtype), Some([]), Some(SECOND)), ops, requests);
    ops := [OpSend(id, 0, Some(two.mtype), Some([]), Some(SECOND))] + ops;
    Prepend(w4, OpSend(id, 0, Some(one.mtype), Some([]), Some(FIRST)), ops, requests);
    ops := [OpSend(id, 0, Some(one.mtype), Some([]), Some(FIRST))] + ops;
  }

  /** Two requests that may wait and overlap without being the same: a run that strands a receiver. */
  lemma OverlapStrands(r: Request, s: Request, requests: iset<Request>) returns (w: World, ops: seq<Op>)
    requires MayWait(r) && MayWait(s) && r in requests && s in requests && !Same(r, s) && !Apart(r, s)
    ensures Quiet(w) && CalmRun(w, ops, requests) && Run(w, ops).Some? && Stranded(Run(w, ops).value, THIRD)
  {
    var t :| Int32(t) && Takes(r, t) && Takes(s, t);
    var u :| Int32(u) && Takes(r, u) != Takes(s, u);
    var narrow, wide := if Takes(r, u) then s else r, if Takes(r, u) then r else s;
    var rest := LateRetry(narrow, wide, t, u, requests);
    w := World([], Awake());
    ops := FallAsleep(narrow, wide, requests, rest);
  }

  /** The state a run leads to, where nobody is stranded. */
  ghost predicate LeadsToService(w: World, ops: seq<Op>) {
    Run(w, ops).Some? && forall p :: !Stranded(Run(w, ops).value, p)
  }

  ghost predicate NeverStranded(requests: iset<Request>) {
    forall w, ops | Quiet(w) && CalmRun(w, ops, requests) :: LeadsToService(w, ops)
  }

  /** Main theorem: however calls and retries follow each other, no receiver sleeps on a message it
      asks for with nobody woken up, if and only if any two requests that may wait ask for the same
      types or for none in common. */
  lemma NeverStrandedIff(requests: iset<Request>)
    ensures NeverStranded(requests) <==> Separated(requests)
  {
    if Separated(requests) {
      forall w, ops | Quiet(w) && CalmRun(w, ops, requests) ensures LeadsToService(w, ops) {
        QuietIsServed(w, requests);
        RunServes(w, requests, ops);
        forall p ensures !Stranded(Run(w, ops).value, p) {
          ServedNotStranded(Run(w, ops).value, requests, p);
        }
      }
    } else {
      var r, s :| r in requests && s in requests && MayWait(r) && MayWait(s) && !Same(r, s) && !Apart(r, s);
      var w, ops := OverlapStrands(r, s, requests);
      assert !LeadsToService(w, ops);
    }
  }

  /** For instance a request for type 1 and one for any type. */
  lemma AnyTypeStrands(size: nat) returns (w: World, ops: seq<Op>)
    requires size < 0x8000_0000
    ensures var plain := Flags(false, false, false, false, false);
            var requests := iset{Request(size, 1, plain), Request(size, 0, plain)};
            Quiet(w) && CalmRun(w, ops, requests) && Run(w, ops).Some? && Stranded(Run(w, ops).value, THIRD)
  {
    var plain := Flags(false, false, false, false, false);
    var one, any := Request(size, 1, plain), Request(size, 0, plain);
    assert Takes(one, 1) && Takes(any, 1) && !Takes(one, 2) && Takes(any, 2);
    w, ops := OverlapStrands(one, any, iset{one, any});
  }

  // ----- Retries that fail -----

  /** The only receiver woken up for a message leaves it behind, and another one that asks for it
      asleep, if and only if its retry fails: the message is too big for it, or its buffer faulty. */
  lemma FailedRetryStrands(w: World, index: nat, a: Pid, b: Pid, item: Item, faults: bool)
    requires Valid(w) && NamesQueue(w, index) && w.queues[index].items == []
    requires a in w.receivers && b in w.receivers && a != b
    requires WaitsFor(w.receivers[a], index, item) && WaitsFor(w.receivers[b], index, item) && MayWait(w.receivers[a].request)
    ensures var w1 := SendIn(w, index, item, Some(a));
            var r := Step(w1, OpRetry(a, faults));
            var tooBig := |item.text| > w.receivers[a].request.size && !w.receivers[a].request.flags.noError;
            && r.Done?
            && b in r.world.receivers && r.world.receivers[b] == w.receivers[b]
            && (item in r.world.queues[index].items <==> tooBig || faults)
            && (NobodyWoken(w, index) ==> (Stranded(r.world, b) <==> tooBig || faults))
            && (r.status == -E2BIG <==> tooBig) && (r.status == -EFAULT <==> faults && !tooBig)
  {
    var w1 := SendIn(w, index, item, Some(a));
    var request := w.receivers[a].request;
    assert w1.queues[index].items == [item];
    FirstMatchFound([item], request, 0);
    var r := Step(w1, OpRetry(a, faults));
    if Receive(w1.queues[index], request, faults).Got? {
      assert r.world.queues[index].items == [];
    } else {
      assert item in r.world.queues[index].items;
      assert r.world.receivers[b] == w.receivers[b];
    }
  }

  /** So it is when the only receiver woken up for a message is killed before it tries again: nobody
      else is woken up in its place. */
  lemma KilledStrands(w: World, index: nat, a: Pid, b: Pid, item: Item)
    requires Valid(w) && NamesQueue(w, index) && NobodyWoken(w, index)
    requires a in w.receivers && b in w.receivers && a != b
    requires WaitsFor(w.receivers[a], index, item) && WaitsFor(w.receivers[b], index, item)
    ensures var w1 := SendIn(w, index, item, Some(a)); Stranded(w1.(receivers := w1.receivers - {a}), b)
  {
    var w1 := SendIn(w, index, item, Some(a));
    assert item in w1.queues[index].items;
    assert w1.receivers[b] == w.receivers[b];
  }
}
