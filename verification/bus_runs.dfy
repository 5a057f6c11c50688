/** Whole runs of the message bus: the topic lists and the linked list together behave as the
    transition system. */
module BusRuns {
  import opened BusSpec
  import opened MsgBus

  /** The messages queued after the calls. */
  function Pending(queue: seq<Msg>, calls: seq<Call>): seq<Msg>
  {
    if calls == [] then queue
    else
      var q := Pending(queue, calls[..|calls| - 1]);
      match calls[|calls| - 1]
      case Produce(msg, stored) => if stored then q + [msg] else q
      case Consume => []
      case _ => q
  }

  /** The channels named exist: when topics are registered, and when messages are consumed. */
  predicate AllowedRun(channels: nat, queue: seq<Msg>, calls: seq<Call>)
  {
    forall i :: 0 <= i < |calls| ==> AllowedCall(channels, Pending(queue, calls[..i]), calls[i])
  }

  predicate AllowedCall(channels: nat, queue: seq<Msg>, call: Call)
  {
    match call
    case Register(chann, _) => chann < channels
    case Consume => forall m :: m in queue ==> Addressed(m, channels)
    case _ => true
  }

  lemma AllowedNow(s: State, call: Call)
    requires AllowedCall(|s.topics|, s.queue, call)
    ensures Allowed(s, call)
  {
  }

  lemma PendingNext(queue: seq<Msg>, calls: seq<Call>, i: nat, s: State, t: State)
    requires i < |calls| && s.Shaped() && s.queue == Pending(queue, calls[..i]) && Next(s, calls[i], t)
    ensures t.queue == Pending(queue, calls[..i + 1]) && |t.topics| == |s.topics|
  {
    assert calls[..i + 1][..i] == calls[..i];
  }

  /** One call is one step of the transition system. */
  method Perform(bus: Bus, call: Call)
    requires bus.Valid() && Allowed(bus.View(), call)
    modifies bus, bus.queue, bus.queue.elems, bus.channels
    modifies set c | c in bus.channels :: c.nodes
    modifies set c | c in bus.channels :: c.data
    ensures bus.Valid() && Next(old(bus.View()), call, bus.View())
    ensures forall i :: 0 <= i < |bus.queue.elems| ==>
              bus.queue.elems[i] in old(bus.queue.elems) || fresh(bus.queue.elems[i])
  {
    hide Bus.Valid, Next;
    TailInside(bus);
    match call
    case Register(chann, topic) =>
      bus.RegisterTopic(chann, topic);
    case Sort =>
      bus.SortTopic();
    case Produce(msg, stored) =>
      if msg.chann == MBUS_CALL_GROUP_ID {
        bus.ProduceCall(msg.word, msg.data, msg.value, stored);
      } else {
        bus.ProduceMessage(msg.chann, msg.word, msg.data, msg.value, stored);
      }
    case Consume =>
      bus.ConsumeCall();
  }

  lemma TailInside(bus: Bus)
    requires bus.Valid()
    ensures bus.queue.tail == null || bus.queue.tail in bus.queue.elems
  {
  }

  lemma TraceShown(bus: Bus)
    requires bus.Valid()
    ensures bus.trace == Invocations(bus.View().log)
  {
  }

  /** A run of calls on a bus is a run of the transition system, and the callbacks saw exactly
      its invocations: the same as without the sorts, where topics under one id agree. */
  method Execute(bus: Bus, calls: seq<Call>) returns (ghost states: seq<State>)
    requires bus.Valid() && AllowedRun(|bus.channels|, bus.View().queue, calls)
    modifies bus, bus.queue, bus.queue.elems, bus.channels
    modifies set c | c in bus.channels :: c.nodes
    modifies set c | c in bus.channels :: c.data
    ensures bus.Valid() && Behaviour(states, calls)
    ensures states[0] == old(bus.View()) && states[|calls|] == bus.View()
    ensures bus.trace == Invocations(states[|calls|].log)
    ensures Consistent(bus.View()) ==>
              forall others: seq<State> :: Behaviour(others, WithoutSorts(calls)) && others[0] == states[0] ==>
                bus.trace == Invocations(others[|WithoutSorts(calls)|].log)
    ensures Consistent(bus.View()) ==>
              exists others: seq<State> :: Behaviour(others, WithoutSorts(calls)) && others[0] == states[0]
  {
    hide Bus.Valid, Bus.View, Pending, AllowedCall, Allowed, Next, Consistent;
    ghost var queue := bus.View().queue;
    states := [bus.View()];
    PendingNone(queue);
    var i := 0;
    while i < |calls|
      invariant 0 <= i <= |calls| && |states| == i + 1
      invariant bus.Valid() && states[0] == old(bus.View()) && states[i] == bus.View()
      invariant bus.View().queue == Pending(queue, calls[..i]) && |bus.View().topics| == |bus.channels|
      invariant Behaviour(states, calls[..i])
      invariant forall i :: 0 <= i < |bus.queue.elems| ==>
                  bus.queue.elems[i] in old(bus.queue.elems) || fresh(bus.queue.elems[i])
    {
      AllowedNow(bus.View(), calls[i]);
      Perform(bus, calls[i]);
      PendingNext(queue, calls, i, states[i], bus.View());
      BehaviourNext(states, calls, i, bus.View());
      states := states + [bus.View()];
      i := i + 1;
    }
    assert calls[..i] == calls;
    TraceShown(bus);
    if Consistent(bus.View()) {
      WithoutSortsToo(states, calls);
      ghost var others := SortsCanBeDropped(states, calls);
    }
  }

  lemma PendingNone(queue: seq<Msg>)
    ensures Pending(queue, []) == queue
  {
  }

  lemma BehaviourNext(states: seq<State>, calls: seq<Call>, i: nat, t: State)
    requires i < |calls| && Behaviour(states, calls[..i]) && t.Shaped()
    requires Allowed(states[i], calls[i]) && Next(states[i], calls[i], t)
    ensures Behaviour(states + [t], calls[..i + 1])
  {
    hide Next, Allowed;
    assert forall j :: 0 <= j < i ==> calls[..i + 1][j] == calls[..i][j];
  }

  lemma WithoutSortsToo(states: seq<State>, calls: seq<Call>)
    requires Behaviour(states, calls) && Consistent(states[|calls|])
    ensures forall others: seq<State> :: Behaviour(others, WithoutSorts(calls)) && others[0] == states[0] ==>
              others[|WithoutSorts(calls)|].log == states[|calls|].log
  {
    hide Next, Allowed, Consistent, WithoutSorts;
    forall others: seq<State> | Behaviour(others, WithoutSorts(calls)) && others[0] == states[0]
      ensures others[|WithoutSorts(calls)|].log == states[|calls|].log
    {
      AlikeItself(states[0]);
      SortsAreInvisible(states, calls, others);
      AlikeShaped(states[|calls|], others[|WithoutSorts(calls)|]);
    }
  }
}
