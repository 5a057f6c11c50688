/** The BLE operation queue itself: its fields and its linked list, against the transition
    system. */
module OpQueue {
  import opened Readers
  import opened NodeList
  import opened OpSpec

  lemma DropFirst<X>(x: X, s: seq<X>)
    ensures ([x] + s)[1..] == s
  {
  }

  class Queue {
    var currentState: BitState
    var running: Option<Op>
    const opList: List<Op>
    /** Everything the queue did, and the outside world: what its runners answer. */
    var log: seq<Event>
    const answers: Answers

    ghost predicate Valid()
      reads this, opList, opList.elems
    {
      opList.Valid()
    }

    ghost function View(): State
      reads this, opList, opList.elems
    {
      State(currentState, running, opList.Contents(), log)
    }

    /** ble_opq_init */
    constructor (state: BitState, answers: Answers)
      ensures Valid() && fresh(opList) && opList.elems == []
      ensures View() == Initial(state) && this.answers == answers
    {
      currentState, running, log, this.answers := state, None, [], answers;
      opList := new List();
    }

    method PerformCommand(op: Op) returns (wait: bool)
      requires Valid()
      modifies this
      ensures Valid() && (View(), wait) == Perform(old(View()), op, answers)
    {
      wait := false;
      ghost var before := View();
      var disposal;
      if !Match(currentState, op.target) {
        if Match(currentState, op.precondition) {
          if op.runner.Some? {
            var ret := answers(|log|);
            disposal := Invoked(ret);
            log := log + [Event(op, disposal, currentState, running)];
            if ret == RET_OK {
              running := Some(op);
              wait := true;
            }
          } else {
            disposal := Entered;
            log := log + [Event(op, disposal, currentState, running)];
            currentState := op.target;
          }
        } else {
          disposal := Refused;
          log := log + [Event(op, disposal, currentState, running)];
          if running.Some? {
            wait := true;
          }
        }
      } else {
        disposal := Matched;
        log := log + [Event(op, disposal, currentState, running)];
      }
      assert disposal == Dispose(before, op, answers);
    }

    /** linked_list_pop */
    method Pop() returns (r: Option<Op>)
      requires Valid()
      modifies opList, opList.elems
      ensures Valid() && opList.elems == if old(opList.elems) == [] then [] else old(opList.elems)[1..]
      ensures r.None? ==> old(View()).queue == [] && View() == old(View())
      ensures r.Some? ==> old(View()).queue != [] && r.value == old(View()).queue[0]
                          && View() == old(View()).(queue := old(View()).queue[1..])
    {
      hide List.Valid, List.Contents;
      var node := opList.RemoveHead();
      if node == null {
        return None;
      }
      DropFirst(node.data, opList.Contents());
      return Some(node.data);
    }

    method Process()
      requires Valid()
      modifies this, opList, opList.elems
      ensures Valid() && View() == Step(old(View()), Call.Process, answers)
      ensures forall i :: 0 <= i < |opList.elems| ==> opList.elems[i] in old(opList.elems)
    {
      hide Processed, Perform, List.Valid;
      while true
        invariant Valid() && (forall i :: 0 <= i < |opList.elems| ==> opList.elems[i] in old(opList.elems))
        invariant Processed(View(), answers) == Processed(old(View()), answers)
        decreases |opList.elems|
      {
        ProcessStep(View(), answers);
        var op := Pop();
        if op.None? {
          break;
        }
        var wait := PerformCommand(op.value);
        if wait {
          break;
        }
      }
    }

    method Start(op: Op)
      requires Valid()
      modifies this, opList, opList.tail
      ensures Valid() && View() == Step(old(View()), Call.Start(op), answers)
      ensures forall i :: 0 <= i < |opList.elems| ==> opList.elems[i] in old(opList.elems) || fresh(opList.elems[i])
    {
      if running.None? && opList.count == 0 {
        var _ := PerformCommand(op);
      } else {
        var node := new Node(op);
        var _ := opList.InsertTail(node);
      }
    }

    method Complete(op: Op)
      requires Valid()
      modifies this
      ensures Valid() && View() == Step(old(View()), Call.Complete(op), answers)
    {
      currentState := op.target;
      running := None;
    }

    method SetState(state: BitState)
      requires Valid()
      modifies this
      ensures Valid() && View() == Step(old(View()), Call.SetState(state), answers)
    {
      currentState := state;
    }
  }

  /** A whole run of calls on a fresh queue is a run of the transition system. */
  method Execute(state: BitState, calls: seq<Call>, answers: Answers) returns (queue: Queue)
    ensures queue.Valid() && queue.View() == Run(Initial(state), calls, answers)
  {
    hide Run, Step, Processed;
    queue := new Queue(state, answers);
    RunNone(Initial(state), answers);
    var i := 0;
    while i < |calls|
      invariant 0 <= i <= |calls| && queue.answers == answers
      invariant fresh(queue) && fresh(queue.opList)
      invariant forall i :: 0 <= i < |queue.opList.elems| ==> fresh(queue.opList.elems[i])
      invariant queue.Valid() && queue.View() == Run(Initial(state), calls[..i], answers)
    {
      match calls[i] {
        case Start(op) => queue.Start(op);
        case Process => queue.Process();
        case Complete(op) => queue.Complete(op);
        case SetState(s) => queue.SetState(s);
      }
      RunNext(Initial(state), calls, i, answers);
      i := i + 1;
    }
    assert calls[..i] == calls;
  }

  lemma RunNone(s: State, answers: Answers)
    ensures Run(s, [], answers) == s
  {
  }

  lemma RunNext(s: State, calls: seq<Call>, i: nat, answers: Answers)
    requires i < |calls|
    ensures Run(s, calls[..i + 1], answers) == Step(Run(s, calls[..i], answers), calls[i], answers)
  {
    assert calls[..i + 1][..i] == calls[..i];
  }
}
