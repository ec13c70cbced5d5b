/** The system calls of src/extension/sysvipc/sysvipc_msg.c on the queues of a namespace. */
module SysvNamespace {
  import opened Common
  import opened SysvMsg

  class Namespace {
    var queues: seq<Queue>
    var receivers: map<Pid, Receiver>

    constructor (tracees: set<Pid>)
      ensures World(queues, receivers) == World([], map p | p in tracees :: Idle)
    {
      queues, receivers := [], map p | p in tracees :: Idle;
    }

    ghost function State(): World
      reads this
    {
      World(queues, receivers)
    }

    method MsgGet(key: int, create: bool, exclusive: bool) returns (status: int)
      modifies this
      ensures Done(status, State()) == Step(old(State()), OpGet(key, create, exclusive))
    {
      var unusedSlot, foundUnusedSlot, foundQueue := 0, false, false;
      var queueIndex := 0;
      var keyInt := ToInt(key);
      while queueIndex < |queues|
        invariant queueIndex <= |queues| && queues == old(queues) && !foundQueue
        invariant key != 0 ==> FindKey(queues, keyInt, 0) == FindKey(queues, keyInt, queueIndex)
        invariant FindUnused(queues, 0) == if foundUnusedSlot then unusedSlot else FindUnused(queues, queueIndex)
        invariant foundUnusedSlot ==> unusedSlot < |queues|
      {
        if queues[queueIndex].valid {
          if key != 0 && queues[queueIndex].key == keyInt {
            foundQueue := true;
            break;
          }
        } else if !foundUnusedSlot {
          unusedSlot := queueIndex;
          foundUnusedSlot := true;
        }
        queueIndex := queueIndex + 1;
      }
      if !foundQueue {
        if !create {
          return -ENOENT;
        }
        if foundUnusedSlot {
          queueIndex := unusedSlot;
          queues := queues[queueIndex := NewQueue(keyInt, queues[queueIndex].generation)];
        } else {
          queueIndex := |queues|;
          queues := queues + [NewQueue(keyInt, 0)];
        }
      } else if create && exclusive {
        return -EEXIST;
      }
      status := IdOf(queueIndex, queues[queueIndex].generation);
    }

    /** The first receiver in the list of tracees that waits for the message. */
    method FindReceiver(index: nat, item: Item) returns (found: Option<Pid>)
      ensures match found
              case None => forall p :: p in receivers ==> !WaitsFor(receivers[p], index, item)
              case Some(p) => p in receivers && WaitsFor(receivers[p], index, item)
    {
      var left := receivers.Keys;
      while left != {}
        invariant left <= receivers.Keys
        invariant forall p :: p in receivers.Keys - left ==> !WaitsFor(receivers[p], index, item)
      {
        var p :| p in left;
        if WaitsFor(receivers[p], index, item) {
          return Some(p);
        }
        left := left - {p};
      }
      found := None;
    }

    method MsgSnd(id: int, size: nat, mtype: Option<int>, text: Option<Text>) returns (status: int, ghost woken: Option<Pid>)
      requires text.Some? ==> |text.value| == size
      modifies this
      ensures Enabled(old(State()), OpSend(id, size, mtype, text, woken))
      ensures Done(status, State()) == Step(old(State()), OpSend(id, size, mtype, text, woken))
    {
      var found: Option<Pid> := None;
      woken := None;
      var index := Lookup(queues, id);
      if index.Some? && mtype.Some? && text.Some? {
        found := FindReceiver(index.value, Item(mtype.value, text.value));
        woken := found;
      }
      if index.None? || size > MAX_MSG_SIZE {
        return -EINVAL, woken;
      }
      if mtype.None? {
        return -EFAULT, woken;
      }
      if mtype.value < 1 {
        return -EINVAL, woken;
      }
      if text.None? {
        return -EFAULT, woken;
      }
      if found.Some? {
        receivers := receivers[found.value := Woken(index.value, receivers[found.value].request, -EAGAIN)];
      }
      queues := queues[index.value := Sent(queues[index.value], Item(mtype.value, text.value))];
      status := 0;
    }

    /** The message a receive takes, or the number of items if there is none. */
    method FindItem(items: seq<Item>, request: Request) returns (k: nat)
      ensures k == if !request.flags.copy then FirstMatch(items, request)
                   else if 0 <= request.mtype < |items| then request.mtype
                   else |items|
    {
      k := 0;
      if request.flags.copy {
        while k < |items|
          invariant k <= |items| && (0 <= request.mtype < |items| ==> k <= request.mtype)
        {
          if k == request.mtype {
            return;
          }
          k := k + 1;
        }
      } else {
        while k < |items|
          invariant k <= |items| && forall i :: 0 <= i < k ==> !Matches(items[i], request)
        {
          if Matches(items[k], request) {
            FirstMatchFound(items, request, k);
            return;
          }
          k := k + 1;
        }
        FirstMatchFound(items, request, k);
      }
    }

    /** `mustWait` tells that the receiver has to wait for a message. */
    method DoMsgRcv(index: nat, request: Request, faults: bool) returns (status: int, mustWait: bool)
      requires index < |queues|
      modifies this
      ensures var o := Receive(old(queues)[index], request, faults);
              && status == StatusOf(o) && mustWait == o.MustWait?
              && queues == old(queues)[index := AfterReceive(old(queues)[index], request, faults)]
              && receivers == old(receivers)
    {
      mustWait := false;
      var queue := queues[index];
      if ToInt(request.size) < 0 || request.flags.other {
        return -EINVAL, false;
      }
      if request.flags.copy && (!request.flags.noWait || request.flags.except) {
        return -EINVAL, false;
      }
      var k := FindItem(queue.items, request);
      if k == |queue.items| {
        if request.flags.noWait {
          return -ENOMSG, false;
        }
        return 0, true;
      }
      var length := request.size;
      if |queue.items[k].text| > length {
        if !request.flags.noError {
          return -E2BIG, false;
        }
      } else {
        length := |queue.items[k].text|;
      }
      if faults {
        return -EFAULT, false;
      }
      if !request.flags.copy {
        queues := queues[index := Taken(queue, k)];
      }
      status := length;
    }

    method MsgRcv(pid: Pid, id: int, request: Request, faults: bool) returns (status: int)
      modifies this
      ensures pid in old(receivers) && old(receivers)[pid].Idle? ==>
                Done(status, State()) == Step(old(State()), OpReceive(pid, id, request, faults))
    {
      var index := Lookup(queues, id);
      if index.None? {
        return -EINVAL;
      }
      var mustWait;
      status, mustWait := DoMsgRcv(index.value, request, faults);
      receivers := receivers[pid := if mustWait then Blocked(index.value, request) else Idle];
    }

    method MsgRcvRetry(pid: Pid, faults: bool) returns (status: int)
      requires pid in receivers && receivers[pid].Woken? && pid !in Betrayed(State())
      modifies this
      ensures Done(status, State()) == Step(old(State()), OpRetry(pid, faults))
    {
      var Woken(index, request, afterWait) := receivers[pid];
      status := afterWait;
      if status == -EAGAIN {
        assert index < |queues| && queues[index].valid;
        var mustWait;
        status, mustWait := DoMsgRcv(index, request, faults);
        if mustWait {
          status := -EINTR;
        }
      }
      receivers := receivers[pid := Idle];
    }

    method MsgCtlRemove(id: int) returns (status: int)
      modifies this
      ensures Done(status, State()) == Step(old(State()), OpRemove(id))
    {
      var index := Lookup(queues, id);
      if index.None? {
        return -EINVAL;
      }
      ghost var before := receivers;
      var left := receivers.Keys;
      while left != {}
        invariant left <= receivers.Keys && receivers.Keys == before.Keys && queues == old(queues)
        invariant forall p :: p in before ==> receivers[p] == if p in left then before[p] else Expelled(before, index.value)[p]
      {
        var p :| p in left;
        if receivers[p].Blocked? && receivers[p].index == index.value {
          receivers := receivers[p := Woken(index.value, receivers[p].request, -EIDRM)];
        }
        left := left - {p};
      }
      assert receivers == Expelled(before, index.value);
      queues := queues[index.value := Removed(queues[index.value])];
      status := 0;
    }
  }
}
