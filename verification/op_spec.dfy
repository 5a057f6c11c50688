/** The BLE operation queue as a transition system on values, and its laws over whole runs. */
module OpSpec {
  import opened Readers

  /** bit_state_t */
  type BitState = bv16

  /** bit_state_match */
  predicate Match(state: BitState, mask: BitState) { state & mask != 0 }

  const RET_OK: nat := 0

  /** ble_op_t; `runner` is None for a null callback. */
  datatype Op = Op(id: nat, target: BitState, precondition: BitState, param: nat, runner: Option<nat>)

  /** How perform_command disposes of an operation. */
  datatype Disposal = Matched | Invoked(ret: nat) | Entered | Refused

  /** An operation disposed of, and the state and the running operation it found. */
  datatype Event = Event(op: Op, disposal: Disposal, state: BitState, running: Option<Op>)

  /** ble_op_queue_t; `log` lists the operations disposed of so far. */
  datatype State = State(current: BitState, running: Option<Op>, queue: seq<Op>, log: seq<Event>)

  /** What runners return: the answer to the operation disposed of as number `n`. */
  type Answers = nat -> nat

  // ----- one command

  function Dispose(s: State, op: Op, answers: Answers): Disposal
  {
    if Match(s.current, op.target) then Matched
    else if !Match(s.current, op.precondition) then Refused
    else if op.runner.None? then Entered
    else Invoked(answers(|s.log|))
  }

  /** perform_command, and whether it asks to wait for an event. */
  function Perform(s: State, op: Op, answers: Answers): (State, bool)
  {
    var d := Dispose(s, op, answers);
    var t := s.(log := s.log + [Event(op, d, s.current, s.running)]);
    match d
    case Matched => (t, false)
    case Refused => (t, s.running.Some?)
    case Entered => (t.(current := op.target), false)
    case Invoked(ret) => if ret == RET_OK then (t.(running := Some(op)), true) else (t, false)
  }

  /** ble_opq_process */
  function Processed(s: State, answers: Answers): (t: State)
    decreases |s.queue|
  {
    if s.queue == [] then s
    else
      var (t, wait) := Perform(s.(queue := s.queue[1..]), s.queue[0], answers);
      if wait then t else Processed(t, answers)
  }

  lemma ProcessStep(s: State, answers: Answers)
    ensures s.queue == [] ==> Processed(s, answers) == s
    ensures s.queue != [] ==>
              var (t, wait) := Perform(s.(queue := s.queue[1..]), s.queue[0], answers);
              Processed(s, answers) == (if wait then t else Processed(t, answers))
  {
  }

  // ----- the gate in bits

  /** Bit `k` of a state: BIT_STATE_CODE of `k`. */
  predicate BitSet(s: BitState, k: nat)
    requires k < 16
  {
    s & (1 << k) != 0
  }

  /** A state and a mask have a bit in common. */
  predicate CommonBit(s: BitState, mask: BitState)
  {
    exists k :: 0 <= k < 16 && BitSet(s, k) && BitSet(mask, k)
  }

  /** A word that is not zero has a bit. */
  lemma SomeBit(s: BitState) returns (k: nat)
    requires s != 0
    ensures k < 16 && BitSet(s, k)
  {
    k := 0;
    while k < 15 && !BitSet(s, k)
      invariant k <= 15 && forall i :: 0 <= i < k ==> !BitSet(s, i)
    {
      k := k + 1;
    }
    if k == 15 && !BitSet(s, 15) {
      NoBits(s);
    }
  }

  lemma NoBits(s: BitState)
    requires forall i :: 0 <= i < 16 ==> !BitSet(s, i)
    ensures s == 0
  {
    assert !BitSet(s, 0) && !BitSet(s, 1) && !BitSet(s, 2) && !BitSet(s, 3);
    assert !BitSet(s, 4) && !BitSet(s, 5) && !BitSet(s, 6) && !BitSet(s, 7);
    assert !BitSet(s, 8) && !BitSet(s, 9) && !BitSet(s, 10) && !BitSet(s, 11);
    assert !BitSet(s, 12) && !BitSet(s, 13) && !BitSet(s, 14) && !BitSet(s, 15);
  }

  /** The test on words is about single bits. */
  lemma MatchIsCommonBit(state: BitState, mask: BitState)
    ensures Match(state, mask) <==> CommonBit(state, mask)
  {
    if Match(state, mask) {
      var k := SomeBit(state & mask);
      assert BitSet(state, k) && BitSet(mask, k);
    }
    if k :| 0 <= k < 16 && BitSet(state, k) && BitSet(mask, k) {
      BitInBoth(state, mask, k);
    }
  }

  lemma BitInBoth(state: BitState, mask: BitState, k: nat)
    requires k < 16 && BitSet(state, k) && BitSet(mask, k)
    ensures state & mask != 0
  {
  }

  // ----- runs

  /** The calls made on a queue. */
  datatype Call = Start(op: Op) | Process | Complete(op: Op) | SetState(state: BitState)

  /** ble_opq_start, ble_opq_process, ble_opq_complete and ble_opq_set_state. */
  function Step(s: State, call: Call, answers: Answers): State
  {
    match call
    case Start(op) =>
      if s.running.None? && s.queue == [] then Perform(s, op, answers).0 else s.(queue := s.queue + [op])
    case Process => Processed(s, answers)
    case Complete(op) => s.(current := op.target, running := None)
    case SetState(state) => s.(current := state)
  }

  /** ble_opq_init */
  function Initial(state: BitState): State { State(state, None, [], []) }

  function Run(s: State, calls: seq<Call>, answers: Answers): State
  {
    if calls == [] then s else Step(Run(s, calls[..|calls| - 1], answers), calls[|calls| - 1], answers)
  }

  // ----- what single calls do

  /** How an operation is disposed of, bit by bit: dropped in a target state, refused where no
      bit of the precondition is set, and else left to its runner, if it has one. */
  predicate Gated(e: Event, answer: nat)
  {
    if CommonBit(e.state, e.op.target) then e.disposal == Matched
    else if !CommonBit(e.state, e.op.precondition) then e.disposal == Refused
    else if e.op.runner.Some? then e.disposal == Invoked(answer)
    else e.disposal == Entered
  }

  lemma DisposalIsGated(s: State, op: Op, answers: Answers)
    ensures Gated(Event(op, Dispose(s, op, answers), s.current, s.running), answers(|s.log|))
  {
    hide Match, CommonBit;
    MatchIsCommonBit(s.current, op.target);
    MatchIsCommonBit(s.current, op.precondition);
  }

  /** `t` is what becomes of an idle queue with this log when `op` is submitted in `state`
      and its runner would give `answer`: it runs if that is 0, its target is entered if there
      is no runner, and nothing changes otherwise. */
  predicate Submits(state: BitState, log: seq<Event>, op: Op, answer: nat, t: State)
  {
    && |t.log| == |log| + 1 && t.log[..|log|] == log && t.queue == []
    && var e := t.log[|log|];
    && e.op == op && e.state == state && e.running == None && Gated(e, answer)
    && t.running == (if e.disposal == Invoked(0) then Some(op) else None)
    && t.current == (if e.disposal.Entered? then op.target else state)
  }

  lemma StartWhenIdle(s: State, op: Op, answers: Answers)
    requires s.running.None? && s.queue == []
    ensures Submits(s.current, s.log, op, answers(|s.log|), Step(s, Call.Start(op), answers))
  {
    hide Gated, Dispose;
    DisposalIsGated(s, op, answers);
  }

  /** With work pending an operation is only queued, as the last one. */
  lemma StartWhenBusy(s: State, op: Op, answers: Answers)
    requires s.running.Some? || s.queue != []
    ensures var t := Step(s, Call.Start(op), answers);
            && |t.queue| == |s.queue| + 1 && t.queue[..|s.queue|] == s.queue && t.queue[|s.queue|] == op
            && t.current == s.current && t.running == s.running && t.log == s.log
  {
  }

  /** Completion makes the target of the operation the state that counts next; so does
      ble_opq_set_state with its argument. */
  lemma StateCounts(s: State, done: Op, state: BitState, op: Op, answers: Answers)
    requires s.queue == []
    ensures Submits(done.target, s.log, op, answers(|s.log|),
                    Step(Step(s, Call.Complete(done), answers), Call.Start(op), answers))
    ensures s.running.None? ==>
              Submits(state, s.log, op, answers(|s.log|),
                      Step(Step(s, Call.SetState(state), answers), Call.Start(op), answers))
  {
    hide Submits;
    StartWhenIdle(Step(s, Call.Complete(done), answers), op, answers);
    if s.running.None? {
      StartWhenIdle(Step(s, Call.SetState(state), answers), op, answers);
    }
  }

  predicate AllGated(log: seq<Event>, answers: Answers)
  {
    forall i :: 0 <= i < |log| ==> Gated(log[i], answers(i))
  }

  lemma PerformIsGated(s: State, op: Op, answers: Answers)
    requires AllGated(s.log, answers)
    ensures AllGated(Perform(s, op, answers).0.log, answers)
  {
    hide Gated, Dispose;
    DisposalIsGated(s, op, answers);
  }

  lemma {:induction false} ProcessIsGated(s: State, answers: Answers)
    requires AllGated(s.log, answers)
    ensures AllGated(Processed(s, answers).log, answers)
    decreases |s.queue|
  {
    hide AllGated, Perform;
    ProcessStep(s, answers);
    if s.queue != [] {
      PerformIsGated(s.(queue := s.queue[1..]), s.queue[0], answers);
      PopsOne(s, answers);
      ProcessIsGated(Perform(s.(queue := s.queue[1..]), s.queue[0], answers).0, answers);
    }
  }

  lemma PopsOne(s: State, answers: Answers)
    requires s.queue != []
    ensures |Perform(s.(queue := s.queue[1..]), s.queue[0], answers).0.queue| < |s.queue|
  {
  }

  /** Over every run, at once or from the queue, every operation is disposed of by the bits it
      shares with the state it finds and by the answer of its runner. */
  lemma {:induction false} RunsAreGated(state: BitState, calls: seq<Call>, answers: Answers)
    ensures AllGated(Run(Initial(state), calls, answers).log, answers)
  {
    hide AllGated, Processed, Perform;
    if calls == [] {
      NoneGated(answers);
    } else {
      var n := |calls| - 1;
      RunsAreGated(state, calls[..n], answers);
      var s := Run(Initial(state), calls[..n], answers);
      match calls[n]
      case Start(op) => PerformIsGated(s, op, answers);
      case Process => ProcessIsGated(s, answers);
      case _ =>
    }
  }

  lemma NoneGated(answers: Answers)
    ensures AllGated([], answers)
  {
  }

  // ----- conservation

  function Ops(log: seq<Event>): (ops: seq<Op>)
    ensures |ops| == |log| && forall i :: 0 <= i < |log| ==> ops[i] == log[i].op
  {
    seq(|log|, i requires 0 <= i < |log| => log[i].op)
  }

  function Submitted(calls: seq<Call>): seq<Op>
  {
    if calls == [] then []
    else Submitted(calls[..|calls| - 1]) + match calls[|calls| - 1] case Start(op) => [op] case _ => []
  }

  /** The operations disposed of, then those still queued. */
  function Accounted(s: State): seq<Op> { Ops(s.log) + s.queue }

  lemma {:induction false} ProcessConserves(s: State, answers: Answers)
    ensures Accounted(Processed(s, answers)) == Accounted(s)
    decreases |s.queue|
  {
    if s.queue != [] {
      var (t, wait) := Perform(s.(queue := s.queue[1..]), s.queue[0], answers);
      assert Ops(t.log) == Ops(s.log) + [s.queue[0]];
      assert Accounted(t) == Accounted(s);
      if !wait {
        ProcessConserves(t, answers);
      }
    }
  }

  /** Over every run the operations disposed of and those still queued are the submitted
      ones, each once and in order. */
  lemma {:induction false} FirstInFirstOut(state: BitState, calls: seq<Call>, answers: Answers)
    ensures Accounted(Run(Initial(state), calls, answers)) == Submitted(calls)
  {
    if calls != [] {
      var n := |calls| - 1;
      FirstInFirstOut(state, calls[..n], answers);
      var s := Run(Initial(state), calls[..n], answers);
      if calls[n].Process? {
        ProcessConserves(s, answers);
      } else if calls[n].Start? {
        var t := Step(s, calls[n], answers);
        assert Accounted(t) == Accounted(s) + [calls[n].op];
      }
    }
  }

  // ----- safety

  /** A runner starts only when no operation runs, from a state that meets the precondition
      and is not yet a target state. */
  predicate Safe(e: Event)
  {
    e.disposal.Invoked? ==>
      e.running.None? && Match(e.state, e.op.precondition) && !Match(e.state, e.op.target)
  }

  predicate AllSafe(log: seq<Event>) { forall e :: e in log ==> Safe(e) }

  /** ble_opq_process is called only while no operation runs. */
  predicate IdleProcessing(s: State, calls: seq<Call>, answers: Answers)
  {
    forall i :: 0 <= i < |calls| && calls[i].Process? ==> Run(s, calls[..i], answers).running.None?
  }

  lemma {:induction false} IdleProcessIsSafe(s: State, answers: Answers)
    requires AllSafe(s.log) && s.running.None?
    ensures AllSafe(Processed(s, answers).log)
    decreases |s.queue|
  {
    if s.queue != [] {
      var (t, wait) := Perform(s.(queue := s.queue[1..]), s.queue[0], answers);
      if !wait {
        IdleProcessIsSafe(t, answers);
      }
    }
  }

  /** Operations disposed of without a runner and without waiting. */
  predicate Passes(state: BitState, op: Op)
  {
    Match(state, op.target) || (Match(state, op.precondition) && op.runner.None?)
  }

  predicate Ready(state: BitState, op: Op)
  {
    !Match(state, op.target) && Match(state, op.precondition) && op.runner.Some?
  }

  /** The state after passing over an operation. */
  function Passed(state: BitState, op: Op): BitState
  {
    if Match(state, op.target) then state else op.target
  }

  /** The state after passing over the operations `ops`. */
  function Reached(state: BitState, ops: seq<Op>): BitState
    decreases |ops|
  {
    if ops == [] then state
    else Reached(Passed(state, ops[0]), ops[1..])
  }

  /** The queue holds an operation ready to start behind operations that are passed over. */
  predicate ReadyBehind(state: BitState, queue: seq<Op>)
  {
    exists i :: 0 <= i < |queue| && ReadyAt(state, queue, i)
  }

  predicate ReadyAt(state: BitState, queue: seq<Op>, i: nat)
    requires i < |queue|
  {
    && (forall j :: 0 <= j < i ==> Passes(Reached(state, queue[..j]), queue[j]))
    && Ready(Reached(state, queue[..i]), queue[i])
  }

  lemma ReadyStep(state: BitState, queue: seq<Op>, i: nat)
    requires i + 1 < |queue| && Passes(state, queue[0])
    ensures ReadyAt(state, queue, i + 1) <==> ReadyAt(Passed(state, queue[0]), queue[1..], i)
  {
    var next, rest := Passed(state, queue[0]), queue[1..];
    forall j | 0 <= j < |rest|
      ensures Reached(state, queue[..j + 1]) == Reached(next, rest[..j])
    {
      assert queue[..j + 1][1..] == rest[..j];
    }
    if ReadyAt(state, queue, i + 1) {
      forall j | 0 <= j < i
        ensures Passes(Reached(next, rest[..j]), rest[j])
      {
        assert Passes(Reached(state, queue[..j + 1]), queue[j + 1]);
      }
    }
    if ReadyAt(next, rest, i) {
      forall j | 0 <= j < i + 1
        ensures Passes(Reached(state, queue[..j]), queue[j])
      {
        if j == 0 {
          assert queue[..0] == [];
        } else {
          assert Passes(Reached(next, rest[..j - 1]), rest[j - 1]);
        }
      }
    }
  }

  lemma ReadyBehindStep(state: BitState, queue: seq<Op>)
    requires queue != []
    ensures ReadyBehind(state, queue) <==>
              Ready(state, queue[0])
              || (Passes(state, queue[0]) && ReadyBehind(Passed(state, queue[0]), queue[1..]))
  {
    assert queue[..0] == [];
    if ReadyBehind(state, queue) {
      var i :| 0 <= i < |queue| && ReadyAt(state, queue, i);
      if i > 0 {
        assert Passes(Reached(state, queue[..0]), queue[0]);
        ReadyStep(state, queue, i - 1);
      }
    }
    if Ready(state, queue[0]) {
      assert ReadyAt(state, queue, 0);
    }
    if Passes(state, queue[0]) && ReadyBehind(Passed(state, queue[0]), queue[1..]) {
      var i :| 0 <= i < |queue| - 1 && ReadyAt(Passed(state, queue[0]), queue[1..], i);
      ReadyStep(state, queue, i);
    }
  }

  /** Called while an operation runs, ble_opq_process starts a second one exactly when the
      queue holds an operation ready to start behind operations that are passed over. */
  lemma {:induction false} BusyProcessIsSafe(s: State, answers: Answers)
    requires AllSafe(s.log) && s.running.Some?
    ensures AllSafe(Processed(s, answers).log) <==> !ReadyBehind(s.current, s.queue)
    decreases |s.queue|
  {
    if s.queue != [] {
      ReadyBehindStep(s.current, s.queue);
      var op := s.queue[0];
      var (t, wait) := Perform(s.(queue := s.queue[1..]), op, answers);
      assert t.log == s.log + [Event(op, Dispose(s, op, answers), s.current, s.running)];
      if Ready(s.current, op) {
        assert !Safe(t.log[|s.log|]);
        LogGrows(t, answers);
      } else if !wait {
        assert t.current == Passed(s.current, op);
        BusyProcessIsSafe(t, answers);
      }
    }
  }

  lemma {:induction false} LogGrows(s: State, answers: Answers)
    ensures s.log <= Processed(s, answers).log
    decreases |s.queue|
  {
    if s.queue != [] {
      var (t, wait) := Perform(s.(queue := s.queue[1..]), s.queue[0], answers);
      if !wait {
        LogGrows(t, answers);
      }
    }
  }

  /** While an operation runs, ble_opq_process is called only with no operation ready behind
      ones that are passed over. */
  predicate CarefulProcessing(s: State, calls: seq<Call>, answers: Answers)
  {
    forall i :: 0 <= i < |calls| && calls[i].Process? ==> Careful(Run(s, calls[..i], answers))
  }

  predicate Careful(s: State) { s.running.None? || !ReadyBehind(s.current, s.queue) }

  lemma ProcessIsSafe(s: State, answers: Answers)
    ensures AllSafe(Processed(s, answers).log) <==> AllSafe(s.log) && Careful(s)
  {
    hide ReadyBehind, Processed;
    LogGrows(s, answers);
    if AllSafe(s.log) {
      if s.running.None? {
        IdleProcessIsSafe(s, answers);
      } else {
        BusyProcessIsSafe(s, answers);
      }
    } else {
      var e :| e in s.log && !Safe(e);
      assert e in Processed(s, answers).log;
    }
  }

  /** Calls other than ble_opq_process never start a runner at the wrong moment. */
  lemma OtherCallsAreSafe(s: State, call: Call, answers: Answers)
    requires !call.Process?
    ensures AllSafe(Step(s, call, answers).log) <==> AllSafe(s.log)
  {
    if call.Start? {
      var t := Step(s, call, answers);
      assert s.log <= t.log && forall i :: |s.log| <= i < |t.log| ==> Safe(t.log[i]);
      assert forall e :: e in s.log ==> e in t.log;
    }
  }

  /** Over every run: runners start only when nothing runs, from a state that meets the
      precondition and not a target, exactly when processing was careful. */
  lemma {:induction false} RunsAreSafe(state: BitState, calls: seq<Call>, answers: Answers)
    ensures AllSafe(Run(Initial(state), calls, answers).log) <==> CarefulProcessing(Initial(state), calls, answers)
  {
    hide Processed, AllSafe, Careful, Step;
    if calls == [] {
      NothingUnsafe();
    } else {
      var n := |calls| - 1;
      var t := Run(Initial(state), calls[..n], answers);
      RunsAreSafe(state, calls[..n], answers);
      CarefulLast(Initial(state), calls, answers);
      if calls[n].Process? {
        ProcessIsSafe(t, answers);
        ProcessStepIs(t, answers);
      } else {
        OtherCallsAreSafe(t, calls[n], answers);
      }
    }
  }

  lemma NothingUnsafe()
    ensures AllSafe([])
  {
  }

  lemma ProcessStepIs(s: State, answers: Answers)
    ensures Step(s, Call.Process, answers) == Processed(s, answers)
  {
  }

  lemma CarefulLast(s: State, calls: seq<Call>, answers: Answers)
    requires calls != []
    ensures var n := |calls| - 1;
            CarefulProcessing(s, calls, answers)
            <==> CarefulProcessing(s, calls[..n], answers)
                 && (calls[n].Process? ==> Careful(Run(s, calls[..n], answers)))
  {
    hide Careful, Run;
    var n := |calls| - 1;
    assert forall i :: 0 <= i < n ==> calls[..n][..i] == calls[..i];
    if CarefulProcessing(s, calls, answers) {
      forall i | 0 <= i < n && calls[..n][i].Process?
        ensures Careful(Run(s, calls[..n][..i], answers))
      {
        assert calls[i].Process?;
      }
    }
  }

  /** In particular when it is called only while no operation runs. */
  lemma IdleRunsAreSafe(state: BitState, calls: seq<Call>, answers: Answers)
    requires IdleProcessing(Initial(state), calls, answers)
    ensures AllSafe(Run(Initial(state), calls, answers).log)
  {
    hide Run, ReadyBehind;
    RunsAreSafe(state, calls, answers);
  }

  // ----- progress

  predicate PendingMeansRunning(s: State) { s.queue != [] ==> s.running.Some? }

  /** Processing stops only when the queue is empty or an operation runs. */
  lemma {:induction false} ProcessDrains(s: State, answers: Answers)
    ensures PendingMeansRunning(Processed(s, answers))
    decreases |s.queue|
  {
    if s.queue != [] {
      var (t, wait) := Perform(s.(queue := s.queue[1..]), s.queue[0], answers);
      if !wait {
        ProcessDrains(t, answers);
      }
    }
  }

  /** The events of the stack: a new operation, the end of one, which is completed and
      followed by ble_opq_process, or a new state. */
  datatype Action = Submit(op: Op) | Finish(op: Op) | Change(state: BitState)

  function CallsOf(action: Action): seq<Call>
  {
    match action
    case Submit(op) => [Call.Start(op)]
    case Finish(op) => [Call.Complete(op), Call.Process]
    case Change(state) => [Call.SetState(state)]
  }

  function Calls(actions: seq<Action>): seq<Call>
  {
    if actions == [] then [] else Calls(actions[..|actions| - 1]) + CallsOf(actions[|actions| - 1])
  }

  lemma {:induction false} RunAppends(s: State, calls: seq<Call>, more: seq<Call>, answers: Answers)
    ensures Run(s, calls + more, answers) == Run(Run(s, calls, answers), more, answers)
    decreases |more|
  {
    if more == [] {
      assert calls + more == calls;
    } else {
      var n := |more| - 1;
      RunAppends(s, calls, more[..n], answers);
      assert (calls + more)[..|calls| + n] == calls + more[..n];
    }
  }

  lemma RunOne(s: State, call: Call, answers: Answers)
    ensures Run(s, [call], answers) == Step(s, call, answers)
  {
    assert [call][..0] == [];
  }

  lemma RunTwo(s: State, a: Call, b: Call, answers: Answers)
    ensures Run(s, [a, b], answers) == Step(Step(s, a, answers), b, answers)
  {
    assert [a, b][..1] == [a];
    RunOne(s, a, answers);
  }

  lemma ActionKeeps(s: State, action: Action, answers: Answers)
    requires PendingMeansRunning(s) && AllSafe(s.log)
    ensures var t := Run(s, CallsOf(action), answers); PendingMeansRunning(t) && AllSafe(t.log)
  {
    hide Run, Processed;
    match action
    case Submit(op) => RunOne(s, Call.Start(op), answers);
    case Finish(op) =>
      RunTwo(s, Call.Complete(op), Call.Process, answers);
      ProcessDrains(Step(s, Call.Complete(op), answers), answers);
      IdleProcessIsSafe(Step(s, Call.Complete(op), answers), answers);
    case Change(bits) => RunOne(s, Call.SetState(bits), answers);
  }

  /** With every completion followed by ble_opq_process, work is pending only while an
      operation runs, and no two operations ever run at once. */
  lemma {:induction false} WorkNeverStalls(state: BitState, actions: seq<Action>, answers: Answers)
    ensures var s := Run(Initial(state), Calls(actions), answers);
            PendingMeansRunning(s) && AllSafe(s.log)
  {
    hide Processed, Step;
    if actions != [] {
      var n := |actions| - 1;
      WorkNeverStalls(state, actions[..n], answers);
      RunAppends(Initial(state), Calls(actions[..n]), CallsOf(actions[n]), answers);
      ActionKeeps(Run(Initial(state), Calls(actions[..n]), answers), actions[n], answers);
    }
  }

  /** The `i`-th call completed an operation while others were queued, and ble_opq_process
      was not called since. */
  predicate LeftWaiting(s: State, calls: seq<Call>, answers: Answers, i: nat)
  {
    && i < |calls| && calls[i].Complete? && Run(s, calls[..i], answers).queue != []
    && forall j :: i < j < |calls| ==> !calls[j].Process?
  }

  /** Over every run work is stalled, pending with nothing running, exactly when some
      completion found work queued and no processing followed. */
  lemma {:induction false} StalledExactly(state: BitState, calls: seq<Call>, answers: Answers)
    ensures !PendingMeansRunning(Run(Initial(state), calls, answers))
            <==> exists i: nat :: LeftWaiting(Initial(state), calls, answers, i)
  {
    hide Processed;
    if calls != [] {
      var n, s0 := |calls| - 1, Initial(state);
      var t := Run(s0, calls[..n], answers);
      StalledExactly(state, calls[..n], answers);
      LeftNext(s0, calls, answers);
      if calls[n].Process? {
        ProcessDrains(t, answers);
      }
      if calls[n].Complete? && t.queue != [] {
        assert LeftWaiting(s0, calls, answers, n);
      }
      if i: nat :| LeftWaiting(s0, calls[..n], answers, i) && !calls[n].Process? {
        assert LeftWaiting(s0, calls, answers, i);
      }
    }
  }

  lemma LeftNext(s: State, calls: seq<Call>, answers: Answers)
    requires calls != []
    ensures var n := |calls| - 1;
            forall i: nat :: i < n ==>
              (LeftWaiting(s, calls, answers, i) <==> LeftWaiting(s, calls[..n], answers, i) && !calls[n].Process?)
  {
    hide Run;
    var n := |calls| - 1;
    assert forall i :: 0 <= i < n ==> calls[..n][..i] == calls[..i];
    forall i: nat | i < n
      ensures LeftWaiting(s, calls, answers, i) <==> LeftWaiting(s, calls[..n], answers, i) && !calls[n].Process?
    {
      if LeftWaiting(s, calls, answers, i) {
        assert forall j :: i < j < n ==> calls[..n][j] == calls[j];
      }
      if LeftWaiting(s, calls[..n], answers, i) && !calls[n].Process? {
        forall j | i < j < |calls|
          ensures !calls[j].Process?
        {
          if j < n {
            assert calls[..n][j] == calls[j];
          }
        }
      }
    }
  }

  /** An operation submitted again after its completion finds its target reached: it is
      dropped, and no runner starts. */
  lemma RepeatIsDropped(s: State, op: Op, answers: Answers)
    requires s.queue == [] && op.target != 0
    ensures Run(s, [Call.Complete(op), Call.Start(op)], answers)
            == State(op.target, None, [], s.log + [Event(op, Matched, op.target, None)])
  {
    RunTwo(s, Call.Complete(op), Call.Start(op), answers);
    assert op.target & op.target == op.target;
  }

  // ----- starts and completions

  predicate Started(e: Event) { e.disposal == Invoked(RET_OK) }

  function Starts(log: seq<Event>): nat
  {
    if log == [] then 0 else Starts(log[..|log| - 1]) + if Started(log[|log| - 1]) then 1 else 0
  }

  function Completions(calls: seq<Call>): nat
  {
    if calls == [] then 0
    else Completions(calls[..|calls| - 1]) + if calls[|calls| - 1].Complete? then 1 else 0
  }

  /** Completions are reported only for an operation that runs, processing happens only
      while none does. */
  predicate Disciplined(s: State, calls: seq<Call>, answers: Answers)
  {
    forall i :: 0 <= i < |calls| ==>
      (calls[i].Process? ==> Run(s, calls[..i], answers).running.None?)
      && (calls[i].Complete? ==> Run(s, calls[..i], answers).running.Some?)
  }

  function Busy(s: State): nat { if s.running.Some? then 1 else 0 }

  lemma NoStarts()
    ensures Starts([]) == 0
  {
  }

  lemma StartsNext(log: seq<Event>, e: Event)
    ensures Starts(log + [e]) == Starts(log) + if Started(e) then 1 else 0
  {
    assert (log + [e])[..|log|] == log;
  }

  lemma {:induction false} ProcessStarts(s: State, answers: Answers)
    requires s.running.None?
    ensures var t := Processed(s, answers); Starts(t.log) - Busy(t) == Starts(s.log)
    decreases |s.queue|
  {
    if s.queue != [] {
      var op := s.queue[0];
      var (t, wait) := Perform(s.(queue := s.queue[1..]), op, answers);
      StartsNext(s.log, t.log[|s.log|]);
      if !wait {
        ProcessStarts(t, answers);
      }
    }
  }

  /** Every operation started was completed since, but for the one running. */
  lemma {:induction false} StartsAreCompleted(state: BitState, calls: seq<Call>, answers: Answers)
    requires Disciplined(Initial(state), calls, answers)
    ensures var s := Run(Initial(state), calls, answers);
            Starts(s.log) == Completions(calls) + Busy(s)
  {
    hide Processed, Starts;
    if calls == [] {
      NoStarts();
    } else {
      var n := |calls| - 1;
      assert forall i :: 0 <= i < n ==> calls[..n][..i] == calls[..i];
      StartsAreCompleted(state, calls[..n], answers);
      var s := Run(Initial(state), calls[..n], answers);
      match calls[n]
      case Process => ProcessStarts(s, answers);
      case Start(op) =>
        var t := Step(s, calls[n], answers);
        if s.running.None? && s.queue == [] {
          StartsNext(s.log, t.log[|s.log|]);
        }
      case _ =>
    }
  }
}
