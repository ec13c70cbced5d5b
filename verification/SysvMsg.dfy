/** System V message queues (src/extension/sysvipc/sysvipc_msg.c) with the wait states a blocked
    msgrcv(2) goes through (src/extension/sysvipc/sysvipc.c). */
module SysvMsg {
  import opened Common
  import opened Bits

  const ENOENT: int := 2
  const EINTR: int := 4
  const E2BIG: int := 7
  const EAGAIN: int := 11
  const EFAULT: int := 14
  const EEXIST: int := 17
  const EINVAL: int := 22
  const ENOMSG: int := 42
  const EIDRM: int := 43
  const MAX_MSG_SIZE: nat := 0xFFFF

  /** Conversion to int, and to int16_t. */
  function ToInt(x: int): (r: int)
    ensures -0x8000_0000 <= r < 0x8000_0000
  {
    (x + 0x8000_0000) % 0x1_0000_0000 - 0x8000_0000
  }

  function ToInt16(x: int): (r: int)
    ensures -0x8000 <= r < 0x8000
  {
    (x + 0x8000) % 0x1_0000 - 0x8000
  }

  type Text = seq<int>
  datatype Item = Item(mtype: int, text: Text)

  /** A queue; `sent` and `received` remember what went through it since it was created. */
  datatype Queue = Queue(key: int, generation: int, valid: bool, items: seq<Item>, qnum: int, cbytes: int,
                         sent: seq<Item>, received: seq<Item>)

  /** IPC_NOWAIT, MSG_NOERROR, MSG_COPY, MSG_EXCEPT, and whether any other flag is set. */
  datatype Flags = Flags(noWait: bool, noError: bool, copy: bool, except: bool, other: bool)

  /** The arguments of msgrcv(2) that are kept for a retry. */
  datatype Request = Request(size: nat, mtype: int, flags: Flags)

  datatype Receiver = Idle | Blocked(index: nat, request: Request) | Woken(index: nat, request: Request, status: int)

  type Pid = nat
  datatype World = World(queues: seq<Queue>, receivers: map<Pid, Receiver>)

  // ----- Identifiers, as 32-bit patterns -----

  function Pattern(x: int): nat {
    x % 0x1_0000_0000
  }

  /** The identifier of a queue. */
  function IdOf(index: nat, generation: int): int {
    ToInt(Or(Pattern(index + 1), Pattern(generation * 4096)))
  }

  function IdIndex(id: int): (r: nat)
    ensures r < 4096
  {
    Pattern(id) % 4096
  }

  function IdGeneration(id: int): nat {
    Pattern(id) / 4096 % 0x1_0000
  }

  /** The place of the queue an identifier names; its generation has to be the current one. */
  function Lookup(queues: seq<Queue>, id: int): Option<nat> {
    var objectIndex := IdIndex(id);
    if objectIndex == 0 || objectIndex > |queues| then None
    else
      var queue := queues[objectIndex - 1];
      if !queue.valid || queue.generation != IdGeneration(id) then None
      else Some(objectIndex - 1)
  }

  // ----- Matching -----

  predicate TypeMatches(senderType: int, filter: int) {
    filter == 0 || senderType == filter || (filter < 0 && senderType <= -filter)
  }

  /** sysvipc_msg_match: both types are ints. */
  predicate Matches(item: Item, request: Request) {
    TypeMatches(ToInt(item.mtype), request.mtype) != request.flags.except
  }

  function FirstMatch(items: seq<Item>, request: Request): (k: nat)
    ensures k <= |items|
  {
    if items == [] || Matches(items[0], request) then 0 else 1 + FirstMatch(items[1..], request)
  }

  lemma {:induction false} FirstMatchIsFirst(items: seq<Item>, request: Request)
    ensures var k := FirstMatch(items, request);
            && (k < |items| ==> Matches(items[k], request))
            && forall i :: 0 <= i < k ==> !Matches(items[i], request)
    decreases |items|
  {
    if items != [] && !Matches(items[0], request) {
      FirstMatchIsFirst(items[1..], request);
      var k := FirstMatch(items[1..], request);
      assert forall i :: 0 < i < 1 + k ==> items[i] == items[1..][i - 1];
    }
  }

  lemma {:induction false} FirstMatchFound(items: seq<Item>, request: Request, k: nat)
    requires k <= |items| && (forall i :: 0 <= i < k ==> !Matches(items[i], request)) && (k < |items| ==> Matches(items[k], request))
    ensures FirstMatch(items, request) == k
  {
    FirstMatchIsFirst(items, request);
  }

  // ----- Identifiers name their queue -----

  lemma PatternOfInt(x: int)
    ensures Pattern(ToInt(x)) == Pattern(x)
  {
  }

  lemma PatternShifted(g: int)
    ensures Pattern(g * 4096) == g % 0x10_0000 * 4096
  {
    var q, r := g / 0x10_0000, g % 0x10_0000;
    assert g == q * 0x10_0000 + r;
  }

  lemma SumParts(a: nat, b: nat)
    requires a < 4096 && b < 0x10_0000
    ensures var p := a + b * 4096; p < 0x1_0000_0000 && p % 4096 == a && p / 4096 == b
  {
  }

  lemma GenerationPart(g: int)
    ensures g % 0x10_0000 % 0x1_0000 == g % 0x1_0000
  {
    var q, r := g / 0x10_0000, g % 0x10_0000;
    assert g == q * 16 * 0x1_0000 + r;
  }

  lemma SmallPattern(x: nat)
    requires x < 0x1_0000_0000
    ensures Pattern(x) == x
  {
  }

  lemma {:induction false} OrPattern(a: nat, b: nat)
    requires a < 4096
    ensures Or(a, b * 4096) == a + b * 4096
  {
    Pow2Of12();
    OrShifted(a, b, 12);
  }

  /** Below 4096, the two parts of an identifier are apart. */
  lemma IdPattern(index: nat, generation: int, b: nat)
    requires index + 1 < 4096 && b == generation % 0x10_0000
    ensures Pattern(IdOf(index, generation)) == index + 1 + b * 4096
  {
    SmallPattern(index + 1);
    PatternShifted(generation);
    OrPattern(index + 1, b);
    SumParts(index + 1, b);
    PatternOfInt(index + 1 + b * 4096);
    SmallPattern(index + 1 + b * 4096);
  }

  lemma IdParts(index: nat, generation: int)
    requires index + 1 < 4096
    ensures IdIndex(IdOf(index, generation)) == index + 1 && IdGeneration(IdOf(index, generation)) == generation % 0x1_0000
  {
    IdPattern(index, generation, generation % 0x10_0000);
    SumParts(index + 1, generation % 0x10_0000);
    GenerationPart(generation);
  }

  lemma GenerationOf(g: int)
    requires -0x8000 <= g < 0x8000
    ensures g % 0x1_0000 == g <==> g >= 0
  {
  }

  /** The identifier of a queue names it if and only if it is one of the first 4095 and its generation
      did not wrap around. */
  lemma IdNamesQueue(queues: seq<Queue>, index: nat)
    requires index < |queues| && queues[index].valid && -0x8000 <= queues[index].generation < 0x8000
    ensures Lookup(queues, IdOf(index, queues[index].generation)) == Some(index) <==>
            index + 1 < 4096 && queues[index].generation >= 0
  {
    var g := queues[index].generation;
    GenerationOf(g);
    if index + 1 < 4096 {
      IdParts(index, g);
    } else {
      LookupIndex(queues, IdOf(index, g));
    }
  }

  lemma LookupIndex(queues: seq<Queue>, id: int)
    ensures Lookup(queues, id).Some? ==> Lookup(queues, id).value + 1 < 4096
  {
  }

  /** The identifier of a queue that was removed, fewer than 32768 times since, is rejected. */
  lemma StaleIdRejected(queues: seq<Queue>, index: nat, generation: int)
    requires index < |queues| && index + 1 < 4096 && 0 <= generation < 0x8000
    requires queues[index].generation != generation
    ensures Lookup(queues, IdOf(index, generation)) == None
  {
    IdParts(index, generation);
    GenerationOf(generation);
  }

  // ----- What a queue keeps -----

  function TotalSize(items: seq<Item>): nat {
    if items == [] then 0 else |items[0].text| + TotalSize(items[1..])
  }

  /** The items whose type is `t`, as msgrcv compares it. */
  function OfType(items: seq<Item>, t: int): seq<Item> {
    if items == [] then []
    else (if ToInt(items[0].mtype) == t then [items[0]] else []) + OfType(items[1..], t)
  }

  lemma {:induction false} OfTypeAppend(a: seq<Item>, b: seq<Item>, t: int)
    ensures OfType(a + b, t) == OfType(a, t) + OfType(b, t)
  {
    if a == [] {
      assert a + b == b;
    } else {
      assert (a + b)[1..] == a[1..] + b && (a + b)[0] == a[0];
      OfTypeAppend(a[1..], b, t);
      AppendAssoc(if ToInt(a[0].mtype) == t then [a[0]] else [], OfType(a[1..], t), OfType(b, t));
    }
  }

  lemma AppendAssoc(a: seq<Item>, b: seq<Item>, c: seq<Item>)
    ensures a + (b + c) == a + b + c
  {
  }

  lemma {:induction false} TotalSizeAppend(a: seq<Item>, b: seq<Item>)
    ensures TotalSize(a + b) == TotalSize(a) + TotalSize(b)
  {
    if a == [] {
      assert a + b == b;
    } else {
      assert (a + b)[1..] == a[1..] + b;
      TotalSizeAppend(a[1..], b);
    }
  }

  lemma {:induction false} NoneOfType(items: seq<Item>, t: int)
    requires forall i :: 0 <= i < |items| ==> ToInt(items[i].mtype) != t
    ensures OfType(items, t) == []
  {
    if items != [] {
      assert forall i :: 0 <= i < |items| - 1 ==> items[1..][i] == items[i + 1];
      NoneOfType(items[1..], t);
    }
  }

  lemma {:induction false} OfTypeParts(front: seq<Item>, item: seq<Item>, back: seq<Item>, t: int)
    ensures OfType(front + (item + back), t) == OfType(front, t) + OfType(item, t) + OfType(back, t)
    ensures OfType(front + back, t) == OfType(front, t) + OfType(back, t)
  {
    OfTypeAppend(front, item + back, t);
    OfTypeAppend(item, back, t);
    OfTypeAppend(front, back, t);
    assert OfType(front, t) + (OfType(item, t) + OfType(back, t)) == OfType(front, t) + OfType(item, t) + OfType(back, t);
  }

  lemma SplitAt(items: seq<Item>, k: nat)
    requires k < |items|
    ensures items == items[..k] + ([items[k]] + items[k + 1..])
  {
  }

  lemma {:induction false} OneOfType(item: Item, t: int)
    ensures OfType([item], t) == if ToInt(item.mtype) == t then [item] else []
  {
    assert [item][1..] == [];
  }

  /** Taking the first match takes the oldest item of its type. */
  lemma {:induction false} TakeFirst(items: seq<Item>, request: Request, t: int)
    requires FirstMatch(items, request) < |items|
    ensures var k := FirstMatch(items, request);
            OfType(items, t) == OfType([items[k]], t) + OfType(Without(items, k), t)
  {
    var k := FirstMatch(items, request);
    FirstMatchIsFirst(items, request);
    SplitAt(items, k);
    OfTypeParts(items[..k], [items[k]], items[k + 1..], t);
    OneOfType(items[k], t);
    if ToInt(items[k].mtype) == t {
      NoneOfType(items[..k], t);
    }
  }

  lemma {:induction false} WithoutSize(items: seq<Item>, k: nat)
    requires k < |items|
    ensures TotalSize(items) == |items[k].text| + TotalSize(Without(items, k))
  {
    SplitAt(items, k);
    TotalSizeAppend(items[..k], [items[k]] + items[k + 1..]);
    TotalSizeAppend([items[k]], items[k + 1..]);
    TotalSizeAppend(items[..k], items[k + 1..]);
    assert [items[k]][1..] == [];
  }

  /** For each type, what was sent is what was received and then what is queued, in that order. */
  ghost predicate InOrder(q: Queue, t: int) {
    OfType(q.sent, t) == OfType(q.received, t) + OfType(q.items, t)
  }

  ghost predicate Good(q: Queue) {
    && -0x8000 <= q.generation < 0x8000
    && (if q.valid then q.qnum == |q.items| && q.cbytes == TotalSize(q.items) && forall t :: InOrder(q, t)
        else q.items == [])
  }

  // ----- One queue -----

  function Sent(q: Queue, item: Item): Queue {
    q.(items := q.items + [item], qnum := q.qnum + 1, cbytes := q.cbytes + |item.text|, sent := q.sent + [item])
  }

  function Taken(q: Queue, k: nat): Queue
    requires k < |q.items|
  {
    q.(items := Without(q.items, k), qnum := q.qnum - 1, cbytes := q.cbytes - |q.items[k].text|,
       received := q.received + [q.items[k]])
  }

  /** What msgrcv comes to: an error, a wait, or `length` bytes of item `k`. */
  datatype Outcome = Failed(errno: int) | MustWait | Got(k: nat, length: nat)

  /** sysvipc_do_msgrcv; `faults` tells that the message cannot be written in the tracee. */
  function Receive(q: Queue, request: Request, faults: bool): Outcome {
    if ToInt(request.size) < 0 || request.flags.other then Failed(EINVAL)
    else if request.flags.copy && (!request.flags.noWait || request.flags.except) then Failed(EINVAL)
    else
      var k := if !request.flags.copy then FirstMatch(q.items, request)
               else if 0 <= request.mtype < |q.items| then request.mtype
               else |q.items|;
      if k == |q.items| then
        if request.flags.noWait then Failed(ENOMSG) else MustWait
      else if |q.items[k].text| > request.size && !request.flags.noError then Failed(E2BIG)
      else if faults then Failed(EFAULT)
      else Got(k, if |q.items[k].text| > request.size then request.size else |q.items[k].text|)
  }

  /** The queue afterwards: only a message that is not copied goes. */
  function AfterReceive(q: Queue, request: Request, faults: bool): Queue {
    match Receive(q, request, faults)
    case Got(k, _) => if request.flags.copy || k >= |q.items| then q else Taken(q, k)
    case _ => q
  }

  lemma SentGood(q: Queue, item: Item)
    requires Good(q) && q.valid
    ensures Good(Sent(q, item))
  {
    TotalSizeAppend(q.items, [item]);
    assert [item][1..] == [];
    forall t ensures InOrder(Sent(q, item), t) {
      assert InOrder(q, t);
      OfTypeAppend(q.sent, [item], t);
      OfTypeAppend(q.items, [item], t);
    }
  }

  /** A receive takes the first match and keeps the order of the rest. */
  lemma ReceiveGood(q: Queue, request: Request, faults: bool)
    requires Good(q) && q.valid
    ensures Good(AfterReceive(q, request, faults))
  {
    var r := Receive(q, request, faults);
    if r.Got? && !request.flags.copy && r.k < |q.items| {
      TakenGood(q, request, r.k);
    }
  }

  lemma {:induction false} TakenGood(q: Queue, request: Request, k: nat)
    requires Good(q) && q.valid && k < |q.items| && k == FirstMatch(q.items, request)
    ensures Good(Taken(q, k))
  {
    WithoutSize(q.items, k);
    forall t ensures InOrder(Taken(q, k), t) {
      assert InOrder(q, t);
      TakeFirst(q.items, request, t);
      OfTypeAppend(q.received, [q.items[k]], t);
    }
  }

  // ----- What a receive does -----

  /** A message that is not copied is the first one that matches; the others keep their order, and
      what is delivered fits the buffer. */
  lemma ReceiveMeaning(q: Queue, request: Request, faults: bool)
    requires Receive(q, request, faults).Got?
    ensures var Got(k, length) := Receive(q, request, faults);
            && k < |q.items| && length <= request.size && length <= |q.items[k].text|
            && (length < |q.items[k].text| ==> request.flags.noError && length == request.size)
            && if request.flags.copy then k == request.mtype && AfterReceive(q, request, faults) == q
               else
                 && Matches(q.items[k], request) && (forall i :: 0 <= i < k ==> !Matches(q.items[i], request))
                 && AfterReceive(q, request, faults).items == q.items[..k] + q.items[k + 1..]
                 && AfterReceive(q, request, faults).received == q.received + [q.items[k]]
  {
    FirstMatchIsFirst(q.items, request);
  }

  lemma {:induction false} CountOfType(items: seq<Item>, x: Item)
    ensures multiset(items)[x] == multiset(OfType(items, ToInt(x.mtype)))[x]
  {
    if items != [] {
      var t := ToInt(x.mtype);
      CountOfType(items[1..], x);
      assert items == [items[0]] + items[1..];
      OfTypeAppend([items[0]], items[1..], t);
      OneOfType(items[0], t);
    }
  }

  /** Every message sent to a queue was received once or is still queued. */
  lemma Conserved(q: Queue)
    requires Good(q) && q.valid
    ensures multiset(q.sent) == multiset(q.received) + multiset(q.items)
  {
    forall x: Item ensures multiset(q.sent)[x] == (multiset(q.received) + multiset(q.items))[x] {
      var t := ToInt(x.mtype);
      assert InOrder(q, t);
      CountOfType(q.sent, x);
      CountOfType(q.received, x);
      CountOfType(q.items, x);
    }
  }

  // ----- All the queues and receivers -----

  ghost function Broken(queues: seq<Queue>): set<nat> {
    set i | 0 <= i < |queues| && !Good(queues[i])
  }

  /** Pairs of queues with the same key, other than that of private ones. */
  ghost function Twins(queues: seq<Queue>): set<(nat, nat)> {
    set i, j | 0 <= i < j < |queues| && queues[i].valid && queues[j].valid && queues[i].key == queues[j].key != 0 :: (i, j)
  }

  predicate NamesQueue(w: World, index: nat) {
    index < |w.queues| && w.queues[index].valid
  }

  /** Blocked receivers of a queue that is gone. */
  ghost function Misled(w: World): set<Pid> {
    set p | p in w.receivers && w.receivers[p].Blocked? && !NamesQueue(w, w.receivers[p].index)
  }

  ghost predicate Valid(w: World) {
    Broken(w.queues) == {} && Twins(w.queues) == {} && Misled(w) == {}
  }

  /** Receivers that were woken up to try again, in a queue that is gone. */
  ghost function Betrayed(w: World): set<Pid> {
    set p | p in w.receivers && Awaits(w.receivers[p]) && !NamesQueue(w, w.receivers[p].index)
  }

  predicate Awaits(r: Receiver) {
    r.Woken? && r.status == -EAGAIN
  }

  lemma GoodAt(queues: seq<Queue>, i: nat)
    requires Broken(queues) == {} && i < |queues|
    ensures Good(queues[i])
  {
    assert i !in Broken(queues);
  }

  /** A good queue in the place of another one. */
  lemma ReplacedQueue(queues: seq<Queue>, i: nat, q: Queue)
    requires Broken(queues) == {} && i < |queues| && Good(q)
    ensures Broken(queues[i := q]) == {}
  {
    var qs := queues[i := q];
    forall k: nat | k < |qs| ensures Good(qs[k]) {
      GoodAt(queues, k);
    }
  }

  lemma SameKeys(queues: seq<Queue>, i: nat, q: Queue)
    requires Twins(queues) == {} && i < |queues| && (q.valid ==> queues[i].valid && q.key == queues[i].key)
    ensures Twins(queues[i := q]) == {}
  {
    var qs := queues[i := q];
    forall j: nat, k: nat | j < k < |qs| ensures !(qs[j].valid && qs[k].valid && qs[j].key == qs[k].key != 0) {
      assert (j, k) !in Twins(queues);
    }
  }

  // ----- msgget -----

  function FindKey(queues: seq<Queue>, key: int, from: nat): (i: nat)
    requires from <= |queues|
    ensures from <= i <= |queues|
    ensures i < |queues| ==> queues[i].valid && queues[i].key == key
    ensures forall k :: from <= k < i ==> !(queues[k].valid && queues[k].key == key)
    decreases |queues| - from
  {
    if from == |queues| || (queues[from].valid && queues[from].key == key) then from else FindKey(queues, key, from + 1)
  }

  function FindUnused(queues: seq<Queue>, from: nat): (i: nat)
    requires from <= |queues|
    ensures from <= i <= |queues|
    ensures i < |queues| ==> !queues[i].valid
    ensures forall k :: from <= k < i ==> queues[k].valid
    decreases |queues| - from
  {
    if from == |queues| || !queues[from].valid then from else FindUnused(queues, from + 1)
  }

  function NewQueue(key: int, generation: int): Queue {
    Queue(key, generation, true, [], 0, 0, [], [])
  }

  datatype Opened = Opened(status: int, queues: seq<Queue>)

  /** IPC_PRIVATE is 0; other keys are compared, and kept, as 32-bit integers. */
  function Get(queues: seq<Queue>, id: int, create: bool, exclusive: bool): Opened {
    var found := if id == 0 then |queues| else FindKey(queues, ToInt(id), 0);
    if found < |queues| then
      if create && exclusive then Opened(-EEXIST, queues) else Opened(IdOf(found, queues[found].generation), queues)
    else if !create then Opened(-ENOENT, queues)
    else
      var unused := FindUnused(queues, 0);
      if unused < |queues| then
        Opened(IdOf(unused, queues[unused].generation), queues[unused := NewQueue(ToInt(id), queues[unused].generation)])
      else Opened(IdOf(unused, 0), queues + [NewQueue(ToInt(id), 0)])
  }

  lemma NewQueueGood(key: int, generation: int)
    requires -0x8000 <= generation < 0x8000
    ensures Good(NewQueue(key, generation))
  {
  }

  /** A new queue does not take a key that is used, and leaves the others alone. */
  lemma GetKeeps(queues: seq<Queue>, id: int, create: bool, exclusive: bool)
    requires Broken(queues) == {} && Twins(queues) == {}
    ensures var g := Get(queues, id, create, exclusive);
            && Broken(g.queues) == {} && Twins(g.queues) == {} && |queues| <= |g.queues|
            && forall i :: 0 <= i < |queues| && queues[i].valid ==> g.queues[i] == queues[i]
  {
    var found := if id == 0 then |queues| else FindKey(queues, ToInt(id), 0);
    if found == |queues| && create {
      var unused := FindUnused(queues, 0);
      var generation := if unused < |queues| then queues[unused].generation else 0;
      if unused < |queues| {
        GoodAt(queues, unused);
      }
      var q := NewQueue(ToInt(id), generation);
      NewQueueGood(ToInt(id), generation);
      var qs := if unused < |queues| then queues[unused := q] else queues + [q];
      forall k: nat | k < |qs| ensures Good(qs[k]) {
        if k != unused {
          GoodAt(queues, k);
        }
      }
      NewKey(queues, qs, unused, q, id);
    }
  }

  /** msgget(2): the queue of a key that has one, unless it has to be new; and otherwise a new queue, in
      the first place that is free, if it may be made. No queue has the key IPC_PRIVATE. */
  lemma GetAnswers(queues: seq<Queue>, id: int, create: bool, exclusive: bool) returns (k: nat)
    requires -0x8000_0000 <= id < 0x8000_0000
    ensures k <= |queues|
    ensures var g := Get(queues, id, create, exclusive);
            if exists i :: 0 <= i < |queues| && HasKey(queues[i], id) then
              && g.queues == queues && k < |queues| && HasKey(queues[k], id)
              && g.status == if create && exclusive then -EEXIST else IdOf(k, queues[k].generation)
            else if !create then g == Opened(-ENOENT, queues)
            else
              && k < |g.queues| && g.status == IdOf(k, g.queues[k].generation)
              && g.queues[k].valid && g.queues[k].key == id && g.queues[k].items == []
              && (k < |queues| ==> !queues[k].valid && g.queues[k].generation == queues[k].generation)
              && (forall i :: 0 <= i < k ==> queues[i].valid)
              && forall i :: 0 <= i < |queues| && i != k ==> i < |g.queues| && g.queues[i] == queues[i]
  {
    var found := if id == 0 then |queues| else FindKey(queues, ToInt(id), 0);
    assert ToInt(id) == id;
    k := if found < |queues| then found else FindUnused(queues, 0);
  }

  predicate HasKey(q: Queue, id: int) {
    id != 0 && q.valid && q.key == id
  }

  /** msgrcv(2): any type, this one, or with a negative number, one that is not above its magnitude; all
      the others with MSG_EXCEPT. */
  lemma TypeMeaning(item: Item, request: Request)
    requires 1 <= item.mtype < 0x8000_0000
    ensures request.mtype == 0 ==> (Matches(item, request) <==> !request.flags.except)
    ensures request.mtype > 0 ==> (Matches(item, request) <==> (item.mtype == request.mtype) != request.flags.except)
    ensures request.mtype < 0 ==> (Matches(item, request) <==> (item.mtype + request.mtype <= 0) != request.flags.except)
  {
    assert ToInt(item.mtype) == item.mtype;
  }

  /** A negative number asks for the first message of the lowest type; the first one that matches is taken
      instead, which is that one if and only if no later one that matches has a lower type. */
  lemma {:induction false} LowestTypeIff(items: seq<Item>, request: Request)
    requires request.mtype < 0 && !request.flags.except && FirstMatch(items, request) < |items|
    ensures IsLowest(items, request, FirstMatch(items, request)) <==>
            forall j :: FirstMatch(items, request) < j < |items| && Matches(items[j], request) ==>
              ToInt(items[FirstMatch(items, request)].mtype) <= ToInt(items[j].mtype)
  {
    FirstMatchIsFirst(items, request);
  }

  /** The first of the messages of the lowest type among those that match. */
  ghost predicate IsLowest(items: seq<Item>, request: Request, k: nat)
    requires k < |items|
  {
    && Matches(items[k], request)
    && (forall j :: 0 <= j < |items| && Matches(items[j], request) ==> ToInt(items[k].mtype) <= ToInt(items[j].mtype))
    && forall j :: 0 <= j < k && Matches(items[j], request) ==> ToInt(items[k].mtype) < ToInt(items[j].mtype)
  }

  /** A message of type 2 before one of type 1, and a receive of the lowest type up to 2. */
  lemma LowestTypePassedOver(size: nat, flags: Flags)
    requires !flags.except
    ensures var items, request := [Item(2, []), Item(1, [])], Request(size, -2, flags);
            FirstMatch(items, request) == 0 && !IsLowest(items, request, 0) && IsLowest(items, request, 1)
  {
    var items, request := [Item(2, []), Item(1, [])], Request(size, -2, flags);
    assert ToInt(2) == 2 && ToInt(1) == 1;
    assert Matches(items[0], request) && Matches(items[1], request);
  }

  lemma {:induction false} NewKey(queues: seq<Queue>, qs: seq<Queue>, unused: nat, q: Queue, id: int)
    requires Twins(queues) == {} && unused <= |queues|
    requires qs == if unused < |queues| then queues[unused := q] else queues + [q]
    requires q.key == ToInt(id) && (id == 0 || FindKey(queues, ToInt(id), 0) == |queues|)
    ensures Twins(qs) == {}
  {
    forall j: nat, k: nat | j < k < |qs| ensures !(qs[j].valid && qs[k].valid && qs[j].key == qs[k].key != 0) {
      if j != unused && k != unused {
        assert (j, k) !in Twins(queues);
      }
    }
  }

  // ----- The operations -----

  /** `size` is the one msgsnd asks for; None stands for what cannot be read in the tracee.  `woken`
      is the first receiver in the list of tracees that waits for the message. */
  datatype Op =
    | OpGet(key: int, create: bool, exclusive: bool)
    | OpSend(id: int, size: nat, mtype: Option<int>, text: Option<Text>, woken: Option<Pid>)
    | OpReceive(pid: Pid, id: int, request: Request, faults: bool)
    | OpRetry(pid: Pid, faults: bool)
    | OpInterrupt(pid: Pid)
    | OpRemove(id: int)

  /** A status, or an assertion that fails. */
  datatype Result = Crash | Done(status: int, world: World)

  predicate WaitsFor(r: Receiver, index: nat, item: Item) {
    r.Blocked? && r.index == index && Matches(item, r.request)
  }

  function SendIn(w: World, index: nat, item: Item, woken: Option<Pid>): World
    requires index < |w.queues|
  {
    var queues := w.queues[index := Sent(w.queues[index], item)];
    if woken.Some? && woken.value in w.receivers && WaitsFor(w.receivers[woken.value], index, item)
    then World(queues, w.receivers[woken.value := Woken(index, w.receivers[woken.value].request, -EAGAIN)])
    else World(queues, w.receivers)
  }

  function Send(w: World, id: int, size: nat, mtype: Option<int>, text: Option<Text>, woken: Option<Pid>): Result {
    var index := Lookup(w.queues, id);
    if index.None? || size > MAX_MSG_SIZE then Done(-EINVAL, w)
    else if mtype.None? then Done(-EFAULT, w)
    else if mtype.value < 1 then Done(-EINVAL, w)
    else if text.None? then Done(-EFAULT, w)
    else Done(0, SendIn(w, index.value, Item(mtype.value, text.value), woken))
  }

  function StatusOf(o: Outcome): int {
    match o case Failed(e) => -e case MustWait => 0 case Got(_, length) => length
  }

  /** sysvipc_do_msgrcv for a tracee: the receiver is left as `waiting` if it has to wait. */
  function ReceiveIn(w: World, pid: Pid, index: nat, request: Request, faults: bool, waiting: Receiver): World
    requires index < |w.queues|
  {
    var q := w.queues[index];
    World(w.queues[index := AfterReceive(q, request, faults)],
          w.receivers[pid := if Receive(q, request, faults).MustWait? then waiting else Idle])
  }

  function Removed(q: Queue): Queue {
    q.(valid := false, generation := ToInt16(q.generation + 1), items := [])
  }

  function Expelled(receivers: map<Pid, Receiver>, index: nat): map<Pid, Receiver> {
    map p | p in receivers ::
      if receivers[p].Blocked? && receivers[p].index == index then Woken(index, receivers[p].request, -EIDRM) else receivers[p]
  }

  function Step(w: World, op: Op): Result {
    match op
    case OpGet(key, create, exclusive) =>
      var g := Get(w.queues, key, create, exclusive);
      Done(g.status, w.(queues := g.queues))
    case OpSend(id, size, mtype, text, woken) => Send(w, id, size, mtype, text, woken)
    case OpReceive(pid, id, request, faults) =>
      var index := Lookup(w.queues, id);
      if index.None? then Done(-EINVAL, w)
      else
        Done(StatusOf(Receive(w.queues[index.value], request, faults)),
             ReceiveIn(w, pid, index.value, request, faults, Blocked(index.value, request)))
    case OpRetry(pid, faults) =>
      if pid !in w.receivers || !w.receivers[pid].Woken? then Done(0, w)
      else
        var Woken(index, request, status) := w.receivers[pid];
        if status != -EAGAIN then Done(status, w.(receivers := w.receivers[pid := Idle]))
        else if !NamesQueue(w, index) then Crash
        else
          var o := Receive(w.queues[index], request, faults);
          Done(if o.MustWait? then -EINTR else StatusOf(o), ReceiveIn(w, pid, index, request, faults, Idle))
    case OpInterrupt(pid) =>
      if pid in w.receivers && w.receivers[pid].Blocked?
      then Done(-EINTR, w.(receivers := w.receivers[pid := Idle]))
      else Done(0, w)
    case OpRemove(id) =>
      var index := Lookup(w.queues, id);
      if index.None? then Done(-EINVAL, w)
      else Done(0, World(w.queues[index.value := Removed(w.queues[index.value])], Expelled(w.receivers, index.value)))
  }

  /** A tracee that waits makes no call, and msgsnd wakes a receiver up if there is one. */
  ghost predicate Enabled(w: World, op: Op) {
    match op
    case OpSend(id, size, mtype, text, woken) =>
      && (text.Some? ==> |text.value| == size)
      && (Lookup(w.queues, id).Some? && mtype.Some? && text.Some? ==>
            var index, item := Lookup(w.queues, id).value, Item(mtype.value, text.value);
            match woken
            case None => forall p :: p in w.receivers ==> !WaitsFor(w.receivers[p], index, item)
            case Some(p) => p in w.receivers && WaitsFor(w.receivers[p], index, item))
    case OpReceive(pid, _, _, _) => pid in w.receivers && w.receivers[pid].Idle?
    case OpRetry(pid, _) => pid in w.receivers && w.receivers[pid].Woken?
    case OpInterrupt(pid) => pid in w.receivers && w.receivers[pid].Blocked?
    case _ => true
  }

  // ----- Every operation -----

  lemma LookupGood(w: World, id: int)
    requires Valid(w) && Lookup(w.queues, id).Some?
    ensures var i := Lookup(w.queues, id).value; NamesQueue(w, i) && Good(w.queues[i])
  {
    GoodAt(w.queues, Lookup(w.queues, id).value);
  }

  /** Valid queues stay so, and receivers only wait for valid ones. */
  lemma NobodyMisled(w: World, w': World)
    requires Misled(w) == {} && |w.queues| <= |w'.queues|
    requires forall p :: p in w'.receivers && w'.receivers[p].Blocked? ==>
               NamesQueue(w', w'.receivers[p].index) || (p in w.receivers && w.receivers[p] == w'.receivers[p])
    requires forall i :: 0 <= i < |w.queues| && w.queues[i].valid ==> w'.queues[i].valid
    ensures Misled(w') == {}
  {
    forall p | p in w'.receivers && w'.receivers[p].Blocked? ensures NamesQueue(w', w'.receivers[p].index) {
      assert p !in Misled(w);
    }
  }

  lemma AfterReceiveKey(q: Queue, request: Request, faults: bool)
    ensures var q' := AfterReceive(q, request, faults); q'.valid == q.valid && q'.key == q.key && q'.generation == q.generation
  {
  }

  lemma ReceiveInValid(w: World, pid: Pid, index: nat, request: Request, faults: bool, waiting: Receiver)
    requires Valid(w) && NamesQueue(w, index) && (waiting.Blocked? ==> waiting.index == index)
    ensures Valid(ReceiveIn(w, pid, index, request, faults, waiting))
  {
    var q, w' := w.queues[index], ReceiveIn(w, pid, index, request, faults, waiting);
    GoodAt(w.queues, index);
    ReceiveGood(q, request, faults);
    AfterReceiveKey(q, request, faults);
    ReplacedQueue(w.queues, index, AfterReceive(q, request, faults));
    SameKeys(w.queues, index, AfterReceive(q, request, faults));
    NobodyMisled(w, w');
  }

  lemma SendInValid(w: World, index: nat, item: Item, woken: Option<Pid>)
    requires Valid(w) && NamesQueue(w, index)
    ensures Valid(SendIn(w, index, item, woken))
  {
    var q := w.queues[index];
    GoodAt(w.queues, index);
    SentGood(q, item);
    ReplacedQueue(w.queues, index, Sent(q, item));
    SameKeys(w.queues, index, Sent(q, item));
    NobodyMisled(w, SendIn(w, index, item, woken));
  }

  lemma RemovedGood(q: Queue)
    ensures Good(Removed(q))
  {
  }

  lemma RemoveValid(w: World, index: nat)
    requires Valid(w) && NamesQueue(w, index)
    ensures Valid(World(w.queues[index := Removed(w.queues[index])], Expelled(w.receivers, index)))
  {
    var q := Removed(w.queues[index]);
    var w' := World(w.queues[index := q], Expelled(w.receivers, index));
    RemovedGood(w.queues[index]);
    ReplacedQueue(w.queues, index, q);
    SameKeys(w.queues, index, q);
    forall p | p in w'.receivers && w'.receivers[p].Blocked? ensures NamesQueue(w', w'.receivers[p].index) {
      assert p !in Misled(w);
      assert w'.receivers[p] == w.receivers[p];
    }
  }

  /** The operations keep the world valid; the only assertion that can fail is that of a retry, when
      the queue was removed after the receiver was woken up. */
  lemma StepValid(w: World, op: Op)
    requires Valid(w) && Enabled(w, op)
    ensures Step(w, op).Done? ==> Valid(Step(w, op).world)
    ensures Step(w, op).Crash? <==> op.OpRetry? && op.pid in Betrayed(w)
  {
    match op
    case OpGet(key, create, exclusive) =>
      GetKeeps(w.queues, key, create, exclusive);
      NobodyMisled(w, Step(w, op).world);
    case OpSend(id, size, mtype, text, woken) =>
      if Step(w, op).status == 0 {
        LookupGood(w, id);
        SendInValid(w, Lookup(w.queues, id).value, Item(mtype.value, text.value), woken);
      }
    case OpReceive(pid, id, request, faults) =>
      if Lookup(w.queues, id).Some? {
        var index := Lookup(w.queues, id).value;
        LookupGood(w, id);
        ReceiveInValid(w, pid, index, request, faults, Blocked(index, request));
      }
    case OpRetry(pid, faults) =>
      var Woken(index, request, status) := w.receivers[pid];
      if status != -EAGAIN {
        NobodyMisled(w, Step(w, op).world);
      } else if NamesQueue(w, index) {
        ReceiveInValid(w, pid, index, request, faults, Idle);
      }
    case OpInterrupt(pid) =>
      NobodyMisled(w, Step(w, op).world);
    case OpRemove(id) =>
      if Lookup(w.queues, id).Some? {
        LookupGood(w, id);
        RemoveValid(w, Lookup(w.queues, id).value);
      }
  }

  /** A queue is not removed between the wake-up of a receiver and its retry. */
  predicate Patient(w: World, op: Op) {
    op.OpRemove? && Lookup(w.queues, op.id).Some? ==>
      forall p :: p in w.receivers && Awaits(w.receivers[p]) ==> w.receivers[p].index != Lookup(w.queues, op.id).value
  }

  lemma StepPatient(w: World, op: Op)
    requires Valid(w) && Enabled(w, op) && Betrayed(w) == {} && Patient(w, op)
    ensures Step(w, op).Done? && Betrayed(Step(w, op).world) == {}
  {
    StepValid(w, op);
    var w' := Step(w, op).world;
    if op.OpGet? {
      GetKeeps(w.queues, op.key, op.create, op.exclusive);
    }
    forall p | p in w'.receivers && Awaits(w'.receivers[p]) ensures NamesQueue(w', w'.receivers[p].index) {
      assert p !in Betrayed(w);
      StillNamed(w, op, p);
    }
  }

  lemma StillNamed(w: World, op: Op, p: Pid)
    requires Valid(w) && Enabled(w, op) && Patient(w, op) && Step(w, op).Done?
    requires p in Step(w, op).world.receivers && Awaits(Step(w, op).world.receivers[p])
    requires p in w.receivers && Awaits(w.receivers[p]) ==> NamesQueue(w, w.receivers[p].index)
    ensures NamesQueue(Step(w, op).world, Step(w, op).world.receivers[p].index)
  {
    if op.OpGet? {
      GetKeeps(w.queues, op.key, op.create, op.exclusive);
    }
    if op.OpReceive? && Lookup(w.queues, op.id).Some? {
      AfterReceiveKey(w.queues[Lookup(w.queues, op.id).value], op.request, op.faults);
    }
    if op.OpRetry? && NamesQueue(w, w.receivers[op.pid].index) {
      AfterReceiveKey(w.queues[w.receivers[op.pid].index], w.receivers[op.pid].request, op.faults);
    }
  }

  ghost predicate PatientRun(w: World, ops: seq<Op>)
    decreases |ops|
  {
    ops != [] ==>
      && Enabled(w, ops[0]) && Patient(w, ops[0])
      && (Step(w, ops[0]).Done? ==> PatientRun(Step(w, ops[0]).world, ops[1..]))
  }

  function Run(w: World, ops: seq<Op>): Option<World>
    decreases |ops|
  {
    if ops == [] then Some(w)
    else match Step(w, ops[0]) case Crash => None case Done(_, w') => Run(w', ops[1..])
  }

  /** In every run where no queue is removed under a woken receiver, no assertion fails, the counts are
      those of the items, messages of a type come in the order they were sent, keys are unique, and
      blocked receivers wait for queues that are there. */
  lemma {:induction false} RunValid(w: World, ops: seq<Op>)
    requires Valid(w) && Betrayed(w) == {} && PatientRun(w, ops)
    ensures Run(w, ops).Some? && Valid(Run(w, ops).value)
    decreases |ops|
  {
    if ops != [] {
      StepValid(w, ops[0]);
      StepPatient(w, ops[0]);
      RunValid(Step(w, ops[0]).world, ops[1..]);
    }
  }

  /** A queue that is removed under a woken receiver makes the assertion of its retry fail. */
  lemma RetryAfterRemove(w: World, id: int, pid: Pid, faults: bool)
    requires Lookup(w.queues, id).Some? && pid in w.receivers
    requires Awaits(w.receivers[pid]) && w.receivers[pid].index == Lookup(w.queues, id).value
    ensures Step(w, OpRemove(id)).Done? && Step(Step(w, OpRemove(id)).world, OpRetry(pid, faults)) == Crash
  {
  }
}
