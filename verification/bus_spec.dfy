/** The message bus on values: how messages are delivered, and its laws over whole runs. What
    sorting does to topics with the same id, and which of them bsearch returns, is open, so
    that the runs are those of a relation. */
module BusSpec {
  import opened Readers
  import opened KvNodes

  /** mbus_topic_t; callbacks are numbered and 0 is the null callback. */
  datatype Topic = Topic(id: nat, callback: nat)

  /** mbus_msg_t; `word` is the union of the topic id and the callback. */
  datatype Msg = Msg(chann: nat, word: nat, data: nat, value: nat)

  /** One invocation of a callback. */
  datatype Dispatch = Dispatch(callback: nat, data: nat, value: nat)

  /** A message consumed and the invocations it led to. */
  datatype Entry = Entry(msg: Msg, calls: seq<Dispatch>)

  const MBUS_CALL_GROUP_ID: nat := 0xFF

  /** The topics registered in a channel, each under its id, in the order of the slots. */
  type Topics = seq<(nat, Topic)>

  function Invoke(callback: nat, msg: Msg): seq<Dispatch>
  {
    if callback == 0 then [] else [Dispatch(callback, msg.data, msg.value)]
  }

  function Outcome(found: Option<Topic>, msg: Msg): seq<Dispatch>
  {
    if found.None? then [] else Invoke(found.value.callback, msg)
  }

  // ----- one message

  /** What looking up the topic of a message may lead to. */
  ghost predicate MayFind(ts: Topics, sorted: bool, msg: Msg, calls: seq<Dispatch>)
  {
    exists r :: Finds(ts, sorted, msg.word, r) && calls == Outcome(r, msg)
  }

  /** All topics under an id have the same callback. */
  ghost predicate Agree(ts: Topics, id: nat)
  {
    forall t, u :: t in ts && u in ts && t.0 == u.0 == id ==> t.1.callback == u.1.callback
  }

  lemma Found(ts: Topics, sorted: bool, msg: Msg, t: (nat, Topic))
    requires t in ts && t.0 == msg.word && sorted
    ensures MayFind(ts, sorted, msg, Invoke(t.1.callback, msg))
  {
    assert Finds(ts, sorted, msg.word, Some(t.1));
    assert Outcome(Some(t.1), msg) == Invoke(t.1.callback, msg);
  }

  /** A list that is not sorted delivers to one topic only, the first one under the id; a
      sorted one exactly when all topics under the id have the same callback. */
  lemma DeliveryIsDetermined(ts: Topics, sorted: bool, msg: Msg)
    ensures (forall a, b :: MayFind(ts, sorted, msg, a) && MayFind(ts, sorted, msg, b) ==> a == b)
            <==> !sorted || Agree(ts, msg.word)
  {
    if sorted {
      if t, u :| t in ts && u in ts && t.0 == u.0 == msg.word && t.1.callback != u.1.callback {
        Found(ts, sorted, msg, t);
        Found(ts, sorted, msg, u);
        assert Invoke(t.1.callback, msg) != Invoke(u.1.callback, msg);
      }
    }
  }

  /** Where all topics under the id agree, neither the order nor the search matters. */
  lemma SameDelivery(ts: Topics, s: bool, us: Topics, z: bool, msg: Msg, a: seq<Dispatch>, b: seq<Dispatch>)
    requires multiset(ts) == multiset(us) && Agree(ts, msg.word)
    requires MayFind(ts, s, msg, a) && MayFind(us, z, msg, b)
    ensures a == b
  {
    forall t: (nat, Topic)
      ensures t in ts <==> t in us
    {
      assert t in ts <==> t in multiset(ts);
    }
  }

  /** Something is always found, or found missing. */
  lemma SomeDelivery(ts: Topics, sorted: bool, msg: Msg)
    ensures exists calls :: MayFind(ts, sorted, msg, calls)
  {
    var r := FirstWith(ts, msg.word);
    assert Finds(ts, sorted, msg.word, r);
    assert MayFind(ts, sorted, msg, Outcome(r, msg));
  }

  // ----- the transition system

  /** For each channel its topics, whether they were sorted last, and how many fit. */
  datatype State = State(topics: seq<Topics>, sorted: seq<bool>, room: seq<nat>, queue: seq<Msg>, log: seq<Entry>)
  {
    predicate Shaped() { |topics| == |sorted| == |room| }
  }

  /** Messages may fail to be stored when memory runs out. */
  datatype Call =
    | Register(chann: nat, topic: Topic)
    | Sort
    | Produce(msg: Msg, stored: bool)
    | Consume

  /** mbus_produce_call */
  function ProduceCall(callback: nat, data: nat, value: nat, stored: bool): Call
  {
    Produce(Msg(MBUS_CALL_GROUP_ID, callback, data, value), stored)
  }

  /** What consuming a message may lead to. */
  ghost predicate MayDeliver(s: State, msg: Msg, calls: seq<Dispatch>)
    requires s.Shaped()
  {
    if msg.chann == MBUS_CALL_GROUP_ID then calls == Invoke(msg.word, msg)
    else msg.chann < |s.topics| && MayFind(s.topics[msg.chann], s.sorted[msg.chann], msg, calls)
  }

  /** The channels a message may name when it is consumed. */
  predicate Addressed(m: Msg, channels: nat)
  {
    m.chann == MBUS_CALL_GROUP_ID || m.chann < channels
  }

  /** Channels named exist. */
  predicate Allowed(s: State, call: Call)
  {
    match call
    case Register(chann, _) => chann < |s.topics|
    case Consume => forall m :: m in s.queue ==> Addressed(m, |s.topics|)
    case _ => true
  }

  /** The same topics in the order of their ids. */
  ghost predicate Rearranged(ts: Topics, us: Topics)
  {
    multiset(ts) == multiset(us) && Ordered(us)
  }

  ghost predicate AllDelivered(s: State, ms: seq<Msg>, es: seq<Entry>)
    requires s.Shaped()
  {
    |es| == |ms| && forall i :: 0 <= i < |es| ==> es[i].msg == ms[i] && MayDeliver(s, ms[i], es[i].calls)
  }

  function Registered(s: State, chann: nat, topic: Topic): State
    requires s.Shaped() && chann < |s.topics|
  {
    s.(topics := s.topics[chann := s.topics[chann] + [(topic.id, topic)]], sorted := s.sorted[chann := false])
  }

  ghost predicate SortStep(s: State, t: State)
  {
    && t == s.(topics := t.topics, sorted := t.sorted) && |t.topics| == |s.topics| && |t.sorted| == |s.sorted|
    && (forall i :: 0 <= i < |s.topics| ==> Rearranged(s.topics[i], t.topics[i]))
    && (forall i :: 0 <= i < |t.sorted| ==> t.sorted[i])
  }

  ghost predicate ConsumeStep(s: State, t: State)
    requires s.Shaped()
  {
    exists es :: t == s.(queue := [], log := s.log + es) && AllDelivered(s, s.queue, es)
  }

  ghost predicate Next(s: State, call: Call, t: State)
    requires s.Shaped()
  {
    match call
    case Register(chann, topic) =>
      if chann < |s.topics| && |s.topics[chann]| < s.room[chann] then t == Registered(s, chann, topic) else t == s
    case Sort => SortStep(s, t)
    case Produce(msg, stored) => t == if stored then s.(queue := s.queue + [msg]) else s
    case Consume => ConsumeStep(s, t)
  }

  /** A run: the states before, between and after the calls. */
  ghost predicate Behaviour(states: seq<State>, calls: seq<Call>)
  {
    && |states| == |calls| + 1
    && (forall i :: 0 <= i < |states| ==> states[i].Shaped())
    && (forall i :: 0 <= i < |calls| ==> Allowed(states[i], calls[i]) && Next(states[i], calls[i], states[i + 1]))
  }

  /** Nothing queued and nothing consumed yet. */
  predicate Fresh(s: State) { s.queue == [] && s.log == [] }

  lemma BehaviourSize(states: seq<State>, calls: seq<Call>)
    requires Behaviour(states, calls)
    ensures |states| == |calls| + 1 && forall i :: 0 <= i < |states| ==> states[i].Shaped()
  {
  }

  lemma BehaviourPrefix(states: seq<State>, calls: seq<Call>, n: nat)
    requires Behaviour(states, calls) && n <= |calls|
    ensures Behaviour(states[..n + 1], calls[..n])
  {
    hide Next, Allowed;
    forall i | 0 <= i < n
      ensures Allowed(states[..n + 1][i], calls[..n][i])
              && Next(states[..n + 1][i], calls[..n][i], states[..n + 1][i + 1])
    {
      assert Allowed(states[i], calls[i]) && Next(states[i], calls[i], states[i + 1]);
    }
  }

  // ----- every message once, in order

  function Messages(log: seq<Entry>): (ms: seq<Msg>)
    ensures |ms| == |log| && forall i :: 0 <= i < |log| ==> ms[i] == log[i].msg
  {
    seq(|log|, i requires 0 <= i < |log| => log[i].msg)
  }

  predicate Stored(call: Call) { call.Produce? && call.stored }

  function Produced(calls: seq<Call>): seq<Msg>
  {
    if calls == [] then []
    else Produced(calls[..|calls| - 1]) + (if Stored(calls[|calls| - 1]) then [calls[|calls| - 1].msg] else [])
  }

  lemma NextConserves(s: State, call: Call, t: State)
    requires s.Shaped() && Next(s, call, t)
    ensures Messages(t.log) + t.queue == Messages(s.log) + s.queue + if Stored(call) then [call.msg] else []
    ensures s.log <= t.log
  {
    if call.Consume? {
      var es :| t == s.(queue := [], log := s.log + es) && AllDelivered(s, s.queue, es);
      assert Messages(s.log + es) == Messages(s.log) + s.queue;
    }
  }

  /** Over every run each message is consumed once, in the order of production; the rest is
      still queued. */
  lemma {:induction false} ConsumedInOrder(states: seq<State>, calls: seq<Call>)
    requires Behaviour(states, calls) && Fresh(states[0])
    ensures var t := states[|calls|]; Messages(t.log) + t.queue == Produced(calls)
    decreases |calls|
  {
    hide Next, Allowed;
    if calls == [] {
      assert Messages(states[0].log) + states[0].queue == [];
    } else {
      var n := |calls| - 1;
      BehaviourPrefix(states, calls, n);
      ConsumedInOrder(states[..n + 1], calls[..n]);
      NextConserves(states[n], calls[n], states[n + 1]);
    }
  }

  // ----- to the callback of its topic

  /** Topics once registered stay. */
  lemma TopicsStay(s: State, call: Call, t: State, c: nat)
    requires s.Shaped() && Next(s, call, t) && c < |s.topics|
    ensures |t.topics| == |s.topics| && multiset(s.topics[c]) <= multiset(t.topics[c])
  {
    if call.Sort? {
      assert Rearranged(s.topics[c], t.topics[c]);
    }
  }

  lemma {:induction false} TopicsStayOn(states: seq<State>, calls: seq<Call>, i: nat, j: nat, c: nat)
    requires Behaviour(states, calls) && i <= j <= |calls| && c < |states[i].topics|
    ensures |states[j].topics| == |states[i].topics| && multiset(states[i].topics[c]) <= multiset(states[j].topics[c])
    decreases j
  {
    hide Next, Allowed;
    if i < j {
      TopicsStayOn(states, calls, i, j - 1, c);
      TopicsStay(states[j - 1], calls[j - 1], states[j], c);
    }
  }

  lemma Members(ts: Topics, us: Topics, t: (nat, Topic))
    requires multiset(ts) <= multiset(us) && t in ts
    ensures t in us
  {
    assert t in multiset(ts);
    assert t in multiset(us);
  }

  /** A topic is registered under the id of the message, and all registered under it by the
      end of the run have the callback `cb`; or the message brings its own callback `cb`. */
  ghost predicate GoesTo(now: State, end: State, msg: Msg, cb: nat)
  {
    if msg.chann == MBUS_CALL_GROUP_ID then cb == msg.word
    else
      && msg.chann < |now.topics| && msg.chann < |end.topics|
      && (exists t :: t in now.topics[msg.chann] && t.0 == msg.word)
      && (forall t :: t in end.topics[msg.chann] && t.0 == msg.word ==> t.1.callback == cb)
  }

  /** Whenever such a message is consumed it goes to that callback. */
  lemma Goes(states: seq<State>, calls: seq<Call>, i: nat, j: nat, msg: Msg, cb: nat, ds: seq<Dispatch>)
    requires Behaviour(states, calls) && i <= j <= |calls| && GoesTo(states[i], states[|calls|], msg, cb)
    requires MayDeliver(states[j], msg, ds)
    ensures ds == Invoke(cb, msg)
  {
    hide Behaviour;
    BehaviourSize(states, calls);
    if msg.chann != MBUS_CALL_GROUP_ID {
      var c := msg.chann;
      TopicsStayOn(states, calls, i, j, c);
      TopicsStayOn(states, calls, j, |calls|, c);
      var t :| t in states[i].topics[c] && t.0 == msg.word;
      Members(states[i].topics[c], states[j].topics[c], t);
      var r :| Finds(states[j].topics[c], states[j].sorted[c], msg.word, r) && ds == Outcome(r, msg);
      assert r.Some?;
      Members(states[j].topics[c], states[|calls|].topics[c], (msg.word, r.value));
    }
  }

  lemma {:induction false} ProducedAt(calls: seq<Call>, i: nat)
    requires i < |calls| && Stored(calls[i])
    ensures |Produced(calls[..i])| < |Produced(calls)|
    ensures Produced(calls)[|Produced(calls[..i])|] == calls[i].msg
    decreases |calls|
  {
    var n := |calls| - 1;
    if i < n {
      assert calls[..n][..i] == calls[..i];
      ProducedAt(calls[..n], i);
    }
  }

  /** Where an entry of the log comes from: it was consumed in one of the states. */
  lemma {:induction false} LoggedFrom(states: seq<State>, calls: seq<Call>, k: nat) returns (j: nat)
    requires Behaviour(states, calls) && states[0].log == [] && k < |states[|calls|].log|
    ensures j < |calls| && |states[j].log| <= k < |states[j + 1].log|
    ensures var e := states[|calls|].log[k]; MayDeliver(states[j], e.msg, e.calls)
    decreases |calls|
  {
    hide Next, Allowed, MayDeliver;
    var n := |calls| - 1;
    NextConserves(states[n], calls[n], states[n + 1]);
    if k < |states[n].log| {
      BehaviourPrefix(states, calls, n);
      j := LoggedFrom(states[..n + 1], calls[..n], k);
    } else {
      j := n;
      LoggedNow(states[n], calls[n], states[n + 1], k);
    }
  }

  lemma LoggedNow(s: State, call: Call, t: State, k: nat)
    requires s.Shaped() && Next(s, call, t) && |s.log| <= k < |t.log|
    ensures MayDeliver(s, t.log[k].msg, t.log[k].calls)
  {
    hide MayDeliver;
    assert call.Consume?;
    var es :| t == s.(queue := [], log := s.log + es) && AllDelivered(s, s.queue, es);
    assert t.log[k] == es[k - |s.log|];
  }

  lemma {:induction false} LogGrows(states: seq<State>, calls: seq<Call>, i: nat)
    requires Behaviour(states, calls) && i <= |calls|
    ensures states[i].log <= states[|calls|].log
    decreases |calls| - i
  {
    hide Next, Allowed;
    if i < |calls| {
      NextConserves(states[i], calls[i], states[i + 1]);
      LogGrows(states, calls, i + 1);
    }
  }

  /** A message is not consumed before it is produced. */
  lemma NotBefore(states: seq<State>, calls: seq<Call>, i: nat, j: nat)
    requires Behaviour(states, calls) && Fresh(states[0]) && i < |calls| && j < |calls|
    requires |states[j + 1].log| > |Produced(calls[..i])|
    ensures i <= j
  {
    hide Next, Allowed;
    if j < i {
      BehaviourPrefix(states, calls, i);
      ConsumedInOrder(states[..i + 1], calls[..i]);
      LogGrows(states[..i + 1], calls[..i], j + 1);
    }
  }

  /** Over every run the message stored by the `i`-th call, if a topic is registered under its
      id by then and all ever registered under it have one callback, invokes that callback,
      once and with its own data, when its turn to be consumed comes; topics registered or
      sorted meanwhile do not matter. */
  lemma HandledByItsTopic(states: seq<State>, calls: seq<Call>, i: nat, cb: nat)
    requires Behaviour(states, calls) && Fresh(states[0])
    requires i < |calls| && Stored(calls[i]) && GoesTo(states[i], states[|calls|], calls[i].msg, cb)
    ensures var log, k := states[|calls|].log, |Produced(calls[..i])|;
            k < |log| ==> log[k] == Entry(calls[i].msg, Invoke(cb, calls[i].msg))
  {
    hide Next, Allowed, MayDeliver, GoesTo, Produced, Behaviour;
    BehaviourSize(states, calls);
    var log, k := states[|calls|].log, |Produced(calls[..i])|;
    if k < |log| {
      ConsumedInOrder(states, calls);
      ProducedAt(calls, i);
      assert log[k].msg == Messages(log)[k] == calls[i].msg;
      var j := LoggedFrom(states, calls, k);
      NotBefore(states, calls, i, j);
      Goes(states, calls, i, j, calls[i].msg, cb, log[k].calls);
    }
  }

  // ----- the same in terms of the calls alone

  /** The invocations of one callback with these arguments: exactly one, or none of the null
      callback. */
  predicate CalledOnce(ds: seq<Dispatch>, callback: nat, data: nat, value: nat)
  {
    if callback == 0 then |ds| == 0
    else |ds| == 1 && ds[0].callback == callback && ds[0].data == data && ds[0].value == value
  }

  /** How often a topic is registered in a channel. */
  function Registrations(calls: seq<Call>, c: nat): nat
  {
    if calls == [] then 0
    else
      var last := calls[|calls| - 1];
      Registrations(calls[..|calls| - 1], c) + if last.Register? && last.chann == c then 1 else 0
  }

  lemma {:induction false} RegistrationsGrow(calls: seq<Call>, n: nat, c: nat)
    requires n <= |calls|
    ensures Registrations(calls[..n], c) <= Registrations(calls, c)
    decreases |calls|
  {
    if n < |calls| {
      assert calls[..|calls| - 1][..n] == calls[..n];
      RegistrationsGrow(calls[..|calls| - 1], n, c);
    } else {
      assert calls[..n] == calls;
    }
  }

  lemma OneStep(s: State, call: Call, t: State, c: nat)
    requires s.Shaped() && Next(s, call, t) && c < |s.topics|
    ensures |t.topics| == |s.topics| && t.room == s.room
    ensures |t.topics[c]| <= |s.topics[c]| + if call.Register? && call.chann == c then 1 else 0
    ensures forall e :: e in t.topics[c] && e !in s.topics[c] ==> call == Register(c, e.1) && e.0 == e.1.id
    ensures call.Register? && call.chann == c && |s.topics[c]| < s.room[c] ==>
              (call.topic.id, call.topic) in t.topics[c]
  {
    if call.Sort? {
      assert Rearranged(s.topics[c], t.topics[c]);
      SameMembers(t.topics[c], s.topics[c]);
      assert |multiset(s.topics[c])| == |s.topics[c]| && |multiset(t.topics[c])| == |t.topics[c]|;
    } else if call.Register? && call.chann == c && |s.topics[c]| < s.room[c] {
      var e := (call.topic.id, call.topic);
      assert t.topics[c] == s.topics[c] + [e];
      assert t.topics[c][|s.topics[c]|] == e;
    }
  }

  /** What is found in a channel was registered there, and no more than that. */
  lemma {:induction false} TopicsWereRegistered(states: seq<State>, calls: seq<Call>, n: nat, c: nat)
    requires Behaviour(states, calls) && n <= |calls| && c < |states[0].topics| && states[0].topics[c] == []
    ensures |states[n].topics| == |states[0].topics| && states[n].room == states[0].room
    ensures |states[n].topics[c]| <= Registrations(calls[..n], c)
    ensures forall e :: e in states[n].topics[c] ==>
              e.0 == e.1.id && exists a :: 0 <= a < n && calls[a] == Register(c, e.1)
    decreases n
  {
    hide Next, Allowed;
    if n > 0 {
      TopicsWereRegistered(states, calls, n - 1, c);
      OneStep(states[n - 1], calls[n - 1], states[n], c);
      assert calls[..n][..n - 1] == calls[..n - 1];
    }
  }

  /** A topic registered while there is room is in place from then on. */
  lemma RegisteredIsThere(states: seq<State>, calls: seq<Call>, a: nat, i: nat, c: nat, topic: Topic)
    requires Behaviour(states, calls) && a < i <= |calls| && calls[a] == Register(c, topic)
    requires c < |states[0].topics| && states[0].topics[c] == [] && Registrations(calls, c) <= states[0].room[c]
    ensures c < |states[i].topics| && (topic.id, topic) in states[i].topics[c]
  {
    hide Next, Allowed;
    TopicsWereRegistered(states, calls, a, c);
    RegistrationsGrow(calls, a + 1, c);
    assert calls[..a + 1][..a] == calls[..a];
    OneStep(states[a], calls[a], states[a + 1], c);
    TopicsStayOn(states, calls, a + 1, i, c);
    Members(states[a + 1].topics[c], states[i].topics[c], (topic.id, topic));
  }

  /** Two registrations under one id in one channel. */
  predicate SameTopic(a: Call, b: Call)
  {
    a.Register? && b.Register? && a.chann == b.chann && a.topic.id == b.topic.id
  }

  /** Over every run from a bus without topics, by the calls alone: a message stored for a
      topic that was registered before, all registrations of which name one callback and have
      room, invokes that callback exactly once, with the data and the value of the message, when
      its turn comes. */
  lemma DeliveredAsCalled(states: seq<State>, calls: seq<Call>, a: nat, i: nat)
    requires Behaviour(states, calls) && Fresh(states[0])
    requires a < i < |calls| && Stored(calls[i]) && calls[a].Register? && calls[i].msg.chann != MBUS_CALL_GROUP_ID
    requires calls[a].chann == calls[i].msg.chann && calls[a].topic.id == calls[i].msg.word
    requires forall b :: 0 <= b < |calls| && SameTopic(calls[a], calls[b]) ==>
               calls[b].topic.callback == calls[a].topic.callback
    requires var c := calls[a].chann;
             c < |states[0].topics| && states[0].topics[c] == [] && Registrations(calls, c) <= states[0].room[c]
    ensures var log, k, msg := states[|calls|].log, |Produced(calls[..i])|, calls[i].msg;
            k < |log| ==> log[k].msg == msg && CalledOnce(log[k].calls, calls[a].topic.callback, msg.data, msg.value)
  {
    hide Next, Allowed, Produced, Behaviour, Registrations;
    var c, topic := calls[a].chann, calls[a].topic;
    BehaviourSize(states, calls);
    RegisteredIsThere(states, calls, a, i, c, topic);
    TopicsWereRegistered(states, calls, |calls|, c);
    HandledByItsTopic(states, calls, i, topic.callback);
  }

  /** The same of mbus_produce_call: the callback it names, once, with its own arguments. */
  lemma CallDelivered(states: seq<State>, calls: seq<Call>, i: nat, callback: nat, data: nat, value: nat)
    requires Behaviour(states, calls) && Fresh(states[0])
    requires i < |calls| && calls[i] == ProduceCall(callback, data, value, true)
    ensures var log, k := states[|calls|].log, |Produced(calls[..i])|;
            k < |log| ==> CalledOnce(log[k].calls, callback, data, value)
  {
    hide Next, Allowed, Produced, Behaviour;
    BehaviourSize(states, calls);
    HandledByItsTopic(states, calls, i, callback);
  }

  /** A message invoked the callback registered by `call`, with its own data. */
  predicate InvokedBy(call: Call, e: Entry)
  {
    && call.Register? && call.chann == e.msg.chann && call.topic.id == e.msg.word
    && CalledOnce(e.calls, call.topic.callback, e.msg.data, e.msg.value)
  }

  /** Whatever is registered and sorted: every message consumed in a run from a bus without
      topics invoked either nothing or one callback registered under its id, and a call the
      callback it named; always with its own data. */
  lemma InvokedAsRegistered(states: seq<State>, calls: seq<Call>, k: nat)
    requires Behaviour(states, calls) && Fresh(states[0])
    requires forall c :: 0 <= c < |states[0].topics| ==> states[0].topics[c] == []
    requires k < |states[|calls|].log|
    ensures var e := states[|calls|].log[k];
            if e.msg.chann == MBUS_CALL_GROUP_ID then CalledOnce(e.calls, e.msg.word, e.msg.data, e.msg.value)
            else |e.calls| == 0 || exists b :: 0 <= b < |calls| && InvokedBy(calls[b], e)
  {
    hide Next, Allowed, Behaviour, Registrations;
    BehaviourSize(states, calls);
    var e := states[|calls|].log[k];
    var j := LoggedFrom(states, calls, k);
    TopicCounts(states, calls, j);
    if e.msg.chann != MBUS_CALL_GROUP_ID && |e.calls| > 0 {
      var c := e.msg.chann;
      TopicsWereRegistered(states, calls, j, c);
      var r :| Finds(states[j].topics[c], states[j].sorted[c], e.msg.word, r) && e.calls == Outcome(r, e.msg);
      assert (e.msg.word, r.value) in states[j].topics[c];
      var b :| 0 <= b < j && calls[b] == Register(c, r.value);
      assert InvokedBy(calls[b], e);
    }
  }

  lemma {:induction false} TopicCounts(states: seq<State>, calls: seq<Call>, n: nat)
    requires Behaviour(states, calls) && n <= |calls|
    ensures |states[n].topics| == |states[0].topics|
    decreases n
  {
    hide Next, Allowed;
    if n > 0 {
      TopicCounts(states, calls, n - 1);
      SameChannels(states[n - 1], calls[n - 1], states[n]);
    }
  }

  // ----- what sorting changes

  function Inserted(e: (nat, Topic), ts: Topics): Topics
  {
    if ts == [] then [e] else if e.0 <= ts[0].0 then [e] + ts else [ts[0]] + Inserted(e, ts[1..])
  }

  function InOrder(ts: Topics): Topics
  {
    if ts == [] then [] else Inserted(ts[0], InOrder(ts[1..]))
  }

  lemma InFront(t: (nat, Topic), ts: Topics)
    requires Ordered(ts) && forall u :: u in ts ==> t.0 <= u.0
    ensures Ordered([t] + ts)
  {
    var all := [t] + ts;
    forall i, j | 0 <= i < j < |all|
      ensures all[i].0 <= all[j].0
    {
      assert all[j] == ts[j - 1] && all[j] in ts;
    }
  }

  lemma SameMembers(ts: Topics, us: Topics)
    requires multiset(ts) == multiset(us)
    ensures forall u :: u in ts ==> u in us
  {
    forall u | u in ts
      ensures u in us
    {
      assert u in multiset(us);
    }
  }

  lemma HeadAndTail(ts: Topics)
    requires ts != []
    ensures multiset(ts) == multiset{ts[0]} + multiset(ts[1..])
    ensures Ordered(ts) ==> Ordered(ts[1..]) && forall u :: u in ts ==> ts[0].0 <= u.0
  {
    assert ts == [ts[0]] + ts[1..];
  }

  lemma {:induction false} InsertedOrdered(e: (nat, Topic), ts: Topics)
    requires Ordered(ts)
    ensures Ordered(Inserted(e, ts)) && multiset(Inserted(e, ts)) == multiset{e} + multiset(ts)
  {
    hide Ordered;
    if ts == [] {
      InFront(e, ts);
      assert [e] + ts == [e];
    } else {
      HeadAndTail(ts);
      if e.0 <= ts[0].0 {
        InFront(e, ts);
      } else {
        InsertedOrdered(e, ts[1..]);
        SameMembers(Inserted(e, ts[1..]), [e] + ts[1..]);
        InFront(ts[0], Inserted(e, ts[1..]));
      }
    }
  }

  /** Topics can be put in the order of their ids. */
  lemma {:induction false} CanBeRearranged(ts: Topics)
    ensures Rearranged(ts, InOrder(ts))
  {
    if ts != [] {
      CanBeRearranged(ts[1..]);
      InsertedOrdered(ts[0], InOrder(ts[1..]));
      HeadAndTail(ts);
    } else {
      assert Ordered(ts);
    }
  }

  /** Delivered as `a` in state `s`, and as something else, `b`, after the sort that leads to
      state `t`. */
  ghost predicate Elsewhere(s: State, t: State, msg: Msg, a: seq<Dispatch>, b: seq<Dispatch>)
    requires s.Shaped()
  {
    SortStep(s, t) && MayDeliver(s, msg, a) && MayDeliver(t, msg, b) && a != b
  }

  /** A message for a list that is not sorted may go elsewhere after a sort exactly when two
      topics with different callbacks are registered under its id. */
  lemma SortChangesDelivery(s: State, msg: Msg)
    requires s.Shaped() && msg.chann != MBUS_CALL_GROUP_ID && msg.chann < |s.topics| && !s.sorted[msg.chann]
    ensures (exists t, a, b :: Elsewhere(s, t, msg, a, b))
            <==> !Agree(s.topics[msg.chann], msg.word)
  {
    hide SortStep, MayDeliver, Agree;
    if t, a, b :| Elsewhere(s, t, msg, a, b) {
      SameAfterSort(s, t, msg, a, b);
    }
    if !Agree(s.topics[msg.chann], msg.word) {
      var t, a, b := MayGoElsewhere(s, msg);
    }
  }

  lemma SameAfterSort(s: State, t: State, msg: Msg, a: seq<Dispatch>, b: seq<Dispatch>)
    requires s.Shaped() && msg.chann != MBUS_CALL_GROUP_ID && msg.chann < |s.topics|
    requires Elsewhere(s, t, msg, a, b)
    ensures !Agree(s.topics[msg.chann], msg.word)
  {
    var c := msg.chann;
    assert Rearranged(s.topics[c], t.topics[c]);
    if Agree(s.topics[c], msg.word) {
      SameDelivery(s.topics[c], s.sorted[c], t.topics[c], t.sorted[c], msg, a, b);
    }
  }

  lemma MayGoElsewhere(s: State, msg: Msg) returns (t: State, a: seq<Dispatch>, b: seq<Dispatch>)
    requires s.Shaped() && msg.chann != MBUS_CALL_GROUP_ID && msg.chann < |s.topics| && !s.sorted[msg.chann]
    requires !Agree(s.topics[msg.chann], msg.word)
    ensures Elsewhere(s, t, msg, a, b)
  {
    hide InOrder, Agree;
    var ts := s.topics[msg.chann];
    var first := FirstWith(ts, msg.word);
    var u := OtherCallback(ts, msg.word);
    t := SortedState(s);
    CanBeRearranged(ts);
    SameMembers(ts, InOrder(ts));
    Found(t.topics[msg.chann], true, msg, u);
    a, b := Outcome(first, msg), Invoke(u.1.callback, msg);
    assert Finds(ts, false, msg.word, first);
  }

  /** One of two disagreeing topics differs from the first one under the id. */
  lemma OtherCallback(ts: Topics, id: nat) returns (u: (nat, Topic))
    requires !Agree(ts, id)
    ensures FirstWith(ts, id).Some? && u in ts && u.0 == id
    ensures u.1.callback != FirstWith(ts, id).value.callback
  {
    var t, v :| t in ts && v in ts && t.0 == v.0 == id && t.1.callback != v.1.callback;
    u := if t.1.callback != FirstWith(ts, id).value.callback then t else v;
  }

  lemma SortedState(s: State) returns (t: State)
    requires s.Shaped()
    ensures t.Shaped() && SortStep(s, t)
    ensures forall i :: 0 <= i < |s.topics| ==> t.topics[i] == InOrder(s.topics[i])
  {
    t := s.(topics := seq(|s.topics|, i requires 0 <= i < |s.topics| => InOrder(s.topics[i])),
            sorted := seq(|s.topics|, _ => true));
    forall i | 0 <= i < |s.topics|
      ensures Rearranged(s.topics[i], t.topics[i])
    {
      CanBeRearranged(s.topics[i]);
    }
  }

  /** In no channel have two topics under one id different callbacks. */
  ghost predicate Consistent(s: State)
  {
    forall c :: 0 <= c < |s.topics| ==> AllAgree(s.topics[c])
  }

  ghost predicate AllAgree(ts: Topics)
  {
    forall t, u :: t in ts && u in ts && t.0 == u.0 ==> t.1.callback == u.1.callback
  }

  /** The same up to the order of the topics. */
  ghost predicate Alike(s: State, t: State)
  {
    && s.Shaped() && t.Shaped() && |s.topics| == |t.topics|
    && s.room == t.room && s.queue == t.queue && s.log == t.log
    && forall c :: 0 <= c < |s.topics| ==> multiset(s.topics[c]) == multiset(t.topics[c])
  }

  lemma DeliversAlike(s: State, t: State, msg: Msg, a: seq<Dispatch>)
    requires Alike(s, t) && Consistent(s) && MayDeliver(s, msg, a)
    ensures MayDeliver(t, msg, a)
    ensures forall b :: MayDeliver(t, msg, b) ==> a == b
  {
    if msg.chann != MBUS_CALL_GROUP_ID {
      var c := msg.chann;
      SomeDelivery(t.topics[c], t.sorted[c], msg);
      forall b | MayFind(t.topics[c], t.sorted[c], msg, b)
        ensures a == b
      {
        SameDelivery(s.topics[c], s.sorted[c], t.topics[c], t.sorted[c], msg, a, b);
      }
    }
  }

  lemma AllDeliveredAlike(s: State, t: State, ms: seq<Msg>, es: seq<Entry>)
    requires Alike(s, t) && Consistent(s) && AllDelivered(s, ms, es)
    ensures AllDelivered(t, ms, es)
    ensures forall fs :: AllDelivered(t, ms, fs) ==> es == fs
  {
    hide MayDeliver, Alike, Consistent;
    AlikeShaped(s, t);
    forall i | 0 <= i < |es|
      ensures MayDeliver(t, ms[i], es[i].calls)
      ensures forall b :: MayDeliver(t, ms[i], b) ==> es[i].calls == b
    {
      DeliversAlike(s, t, ms[i], es[i].calls);
    }
    forall fs | AllDelivered(t, ms, fs)
      ensures es == fs
    {
      assert forall i :: 0 <= i < |es| ==> es[i] == fs[i];
    }
  }

  lemma AlikeShaped(s: State, t: State)
    requires Alike(s, t)
    ensures s.Shaped() && t.Shaped() && s.queue == t.queue && s.log == t.log
  {
  }

  lemma SortIsAlike(s: State, t: State, u: State)
    requires Alike(s, t) && SortStep(s, u)
    ensures Alike(u, t)
  {
    forall c | 0 <= c < |s.topics|
      ensures multiset(u.topics[c]) == multiset(t.topics[c])
    {
      assert Rearranged(s.topics[c], u.topics[c]);
    }
  }

  lemma RegisterAlike(s: State, t: State, call: Call, u: State, v: State)
    requires Alike(s, t) && call.Register? && Next(s, call, u) && Next(t, call, v)
    ensures Alike(u, v)
  {
    if call.chann < |s.topics| {
      assert |multiset(s.topics[call.chann])| == |s.topics[call.chann]|;
      assert |multiset(t.topics[call.chann])| == |t.topics[call.chann]|;
    }
  }

  lemma NextAlike(s: State, t: State, call: Call, u: State, v: State)
    requires Alike(s, t) && Consistent(s) && !call.Sort? && Next(s, call, u) && Next(t, call, v)
    ensures Alike(u, v)
  {
    match call
    case Register(_, _) => RegisterAlike(s, t, call, u, v);
    case Produce(_, _) =>
    case Consume =>
      hide AllDelivered, Consistent;
      var es :| u == s.(queue := [], log := s.log + es) && AllDelivered(s, s.queue, es);
      var fs :| v == t.(queue := [], log := t.log + fs) && AllDelivered(t, t.queue, fs);
      AllDeliveredAlike(s, t, s.queue, es);
  }

  /** A step that one of two alike states can take, the other can take as well. */
  lemma StepAlike(s: State, t: State, call: Call, u: State) returns (v: State)
    requires Alike(s, t) && Consistent(s) && !call.Sort? && Next(s, call, u) && Allowed(s, call)
    ensures Next(t, call, v) && Allowed(t, call) && v.Shaped()
  {
    hide AllDelivered, Consistent;
    match call
    case Register(c, topic) => v := if |t.topics[c]| < t.room[c] then Registered(t, c, topic) else t;
    case Produce(msg, stored) => v := if stored then t.(queue := t.queue + [msg]) else t;
    case Consume =>
      var es :| u == s.(queue := [], log := s.log + es) && AllDelivered(s, s.queue, es);
      AllDeliveredAlike(s, t, s.queue, es);
      v := t.(queue := [], log := t.log + es);
  }

  /** Topics that agree in the end agreed before. */
  lemma ConsistentBefore(s: State, call: Call, t: State)
    requires s.Shaped() && Next(s, call, t) && Consistent(t) && |t.topics| == |s.topics|
    ensures Consistent(s)
  {
    hide Next;
    forall c | 0 <= c < |s.topics|
      ensures AllAgree(s.topics[c])
    {
      TopicsStay(s, call, t, c);
      assert AllAgree(t.topics[c]);
      forall e | e in s.topics[c]
        ensures e in t.topics[c]
      {
        Members(s.topics[c], t.topics[c], e);
      }
    }
  }

  lemma SameChannels(s: State, call: Call, t: State)
    requires s.Shaped() && Next(s, call, t)
    ensures |t.topics| == |s.topics|
  {
  }

  function WithoutSorts(calls: seq<Call>): seq<Call>
  {
    if calls == [] then []
    else if calls[|calls| - 1].Sort? then WithoutSorts(calls[..|calls| - 1])
    else WithoutSorts(calls[..|calls| - 1]) + [calls[|calls| - 1]]
  }

  /** Sorting the topic lists, however often and whenever, changes no delivery, as long as
      topics registered under one id agree: every run of the calls without the sorts, from the
      same state, makes the same deliveries. */
  lemma {:induction false} SortsAreInvisible(states: seq<State>, calls: seq<Call>, others: seq<State>)
    requires Behaviour(states, calls) && Behaviour(others, WithoutSorts(calls)) && Alike(states[0], others[0])
    requires Consistent(states[|calls|])
    ensures Alike(states[|calls|], others[|WithoutSorts(calls)|])
    decreases |calls|
  {
    hide Next, Allowed, Alike, Consistent;
    if calls != [] {
      var n, m := |calls| - 1, |WithoutSorts(calls)|;
      BehaviourPrefix(states, calls, n);
      SameChannels(states[n], calls[n], states[n + 1]);
      ConsistentBefore(states[n], calls[n], states[n + 1]);
      if calls[n].Sort? {
        SortsAreInvisible(states[..n + 1], calls[..n], others);
        SortStepIs(states[n], states[n + 1]);
        SortIsAlike(states[n], others[m], states[n + 1]);
      } else {
        BehaviourPrefix(others, WithoutSorts(calls), m - 1);
        assert WithoutSorts(calls)[..m - 1] == WithoutSorts(calls[..n]);
        SortsAreInvisible(states[..n + 1], calls[..n], others[..m]);
        NextAlike(states[n], others[m - 1], calls[n], states[n + 1], others[m]);
      }
    }
  }

  lemma SortStepIs(s: State, t: State)
    requires s.Shaped() && Next(s, Call.Sort, t)
    ensures SortStep(s, t)
  {
  }

  /** And there is such a run. */
  lemma {:induction false} SortsCanBeDropped(states: seq<State>, calls: seq<Call>) returns (others: seq<State>)
    requires Behaviour(states, calls) && Consistent(states[|calls|])
    ensures Behaviour(others, WithoutSorts(calls)) && others[0] == states[0]
    ensures Alike(states[|calls|], others[|WithoutSorts(calls)|])
    decreases |calls|
  {
    hide Next, Allowed, Alike, Consistent;
    if calls == [] {
      others := states;
      AlikeItself(states[0]);
    } else {
      var n := |calls| - 1;
      BehaviourPrefix(states, calls, n);
      SameChannels(states[n], calls[n], states[n + 1]);
      ConsistentBefore(states[n], calls[n], states[n + 1]);
      others := SortsCanBeDropped(states[..n + 1], calls[..n]);
      var m := |WithoutSorts(calls[..n])|;
      if calls[n].Sort? {
        SortStepIs(states[n], states[n + 1]);
        SortIsAlike(states[n], others[m], states[n + 1]);
      } else {
        var v := StepAlike(states[n], others[m], calls[n], states[n + 1]);
        NextAlike(states[n], others[m], calls[n], states[n + 1], v);
        others := others + [v];
      }
    }
  }

  lemma AlikeItself(s: State)
    requires s.Shaped()
    ensures Alike(s, s)
  {
  }
}
