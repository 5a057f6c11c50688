/** The message bus itself: a topic list for each channel and a linked list of messages. */
module MsgBus {
  import opened Readers
  import opened KvNodes
  import opened KvList
  import opened NodeList
  import opened BusSpec

  /** The log after invoking everything in it. */
  function Invocations(log: seq<Entry>): seq<Dispatch>
  {
    if log == [] then [] else Invocations(log[..|log| - 1]) + log[|log| - 1].calls
  }

  lemma InvocationsNext(log: seq<Entry>, e: Entry)
    ensures Invocations(log + [e]) == Invocations(log) + e.calls
  {
    assert (log + [e])[..|log|] == log;
  }

  lemma Reassociate<X>(a: seq<X>, b: seq<X>, c: seq<X>)
    ensures a + b + c == a + (b + c) && a + [] == a
  {
  }

  lemma NothingDelivered(s: State)
    requires s.Shaped()
    ensures AllDelivered(s, [], [])
  {
  }

  lemma DeliveredNext(s: State, ms: seq<Msg>, es: seq<Entry>, e: Entry)
    requires s.Shaped() && AllDelivered(s, ms, es) && MayDeliver(s, e.msg, e.calls)
    ensures AllDelivered(s, ms + [e.msg], es + [e])
  {
    hide MayDeliver;
  }

  /** Lists that share no storage. */
  ghost predicate Apart(lists: seq<KvList<Topic>>)
  {
    forall i, j :: 0 <= i < |lists| && 0 <= j < |lists| && i != j ==>
      lists[i] != lists[j] && lists[i].nodes != lists[j].nodes && lists[i].data != lists[j].data
  }

  /** The loop of mbus_init. */
  method InitTopicLists(lists: seq<KvList<Topic>>)
    requires Apart(lists) && forall i :: 0 <= i < |lists| ==> lists[i].Unused()
    modifies lists
    modifies set c | c in lists :: c.nodes
    ensures forall i :: 0 <= i < |lists| ==> lists[i].Compact() && lists[i].Entries() == []
  {
    hide KvList.Compact, KvList.Valid, KvList.Unused, KvList.Live, KvList.WellBound, KvList.Entries;
    var i := 0;
    while i < |lists|
      invariant 0 <= i <= |lists|
      invariant forall j :: i <= j < |lists| ==> lists[j].Unused()
      invariant forall j :: 0 <= j < i ==> lists[j].Compact() && lists[j].Entries() == []
    {
      lists[i].Init();
      i := i + 1;
    }
  }

  class Bus {
    const channels: seq<KvList<Topic>>
    const queue: List<Msg>
    /** What the callbacks are invoked with. */
    var trace: seq<Dispatch>
    ghost var log: seq<Entry>

    ghost predicate Valid()
      reads this, queue, queue.elems, channels
      reads set c | c in channels :: c.nodes
      reads set c | c in channels :: c.data
    {
      && Apart(channels) && queue.Valid()
      && (forall i :: 0 <= i < |channels| ==> channels[i].Compact())
      && trace == Invocations(log)
    }

    /** The topics of each channel. */
    ghost function TopicLists(): (ts: seq<Topics>)
      requires forall i :: 0 <= i < |channels| ==> channels[i].WellBound()
      reads channels
      reads set c | c in channels :: c.nodes
      reads set c | c in channels :: c.data
      ensures |ts| == |channels| && forall i :: 0 <= i < |channels| ==> ts[i] == channels[i].Entries()
    {
      seq(|channels|, i requires 0 <= i < |channels| && channels[i].WellBound()
                      reads channels, set c | c in channels :: c.nodes, set c | c in channels :: c.data
                      => channels[i].Entries())
    }

    ghost function SortedMarks(): (ms: seq<bool>)
      reads channels
      ensures |ms| == |channels| && forall i :: 0 <= i < |channels| ==> ms[i] == channels[i].sorted
    {
      seq(|channels|, i requires 0 <= i < |channels| reads channels => channels[i].sorted)
    }

    ghost function Rooms(): (rs: seq<nat>)
      ensures |rs| == |channels| && forall i :: 0 <= i < |channels| ==> rs[i] == channels[i].nodes.Length
    {
      seq(|channels|, i requires 0 <= i < |channels| => channels[i].nodes.Length)
    }

    /** The topic lists, the queue and the log as a state of the transition system. */
    ghost function View(): (s: State)
      requires Valid()
      reads this, queue, queue.elems, channels
      reads set c | c in channels :: c.nodes
      reads set c | c in channels :: c.data
      ensures s.Shaped() && |s.topics| == |channels| && s.queue == queue.Contents() && s.log == log
      ensures forall i :: 0 <= i < |channels| ==>
                && s.topics[i] == channels[i].Entries() && s.sorted[i] == channels[i].sorted
                && s.room[i] == channels[i].nodes.Length
    {
      State(TopicLists(), SortedMarks(), Rooms(), queue.Contents(), log)
    }

    /** mbus_init, which initialises the topic lists; the channels themselves are given. */
    constructor (channels: seq<KvList<Topic>>)
      requires forall i :: 0 <= i < |channels| ==>
                 channels[i].Unused()
      requires Apart(channels)
      modifies channels
      modifies set c | c in channels :: c.nodes
      ensures Valid() && this.channels == channels && fresh(queue) && queue.elems == [] && Fresh(View())
      ensures forall i :: 0 <= i < |channels| ==> View().topics[i] == []
    {
      this.channels, trace, log := channels, [], [];
      queue := new List();
      new;
      hide KvList.Compact, KvList.Valid, KvList.Unused, KvList.Live, KvList.WellBound, KvList.Entries;
      InitTopicLists(channels);
    }

    method RegisterTopic(chann: nat, topic: Topic)
      requires Valid() && chann < |channels|
      modifies channels[chann], channels[chann].nodes, channels[chann].data
      ensures Valid() && trace == old(trace) && Next(old(View()), Call.Register(chann, topic), View())
    {
      hide KvList.Compact, KvList.Valid, KvList.Live, KvList.WellBound, KvList.Entries, List.Valid, List.Contents,
           Invocations, Next;
      RoomLeft(channels[chann]);
      var r := channels[chann].Add(topic.id, topic);
      RegisterStep(old(View()), View(), chann, topic);
    }

    /** One round of the sorting loop. */
    method SortList(i: nat)
      requires Valid() && i < |channels|
      modifies channels[i], channels[i].nodes
      ensures Valid() && trace == old(trace)
      ensures var s, t := old(View()), View();
              && t == s.(topics := s.topics[i := t.topics[i]], sorted := s.sorted[i := true])
              && Rearranged(s.topics[i], t.topics[i])
    {
      hide KvList.Compact, KvList.Valid, KvList.Live, KvList.WellBound, KvList.Entries, List.Valid, List.Contents,
           Invocations, Ordered;
      channels[i].Sort();
      OneChanged(old(View()), View(), i);
    }

    method SortTopic()
      requires Valid()
      modifies channels
      modifies set c | c in channels :: c.nodes
      ensures Valid() && trace == old(trace) && Next(old(View()), Call.Sort, View())
    {
      hide Valid, View, Rearranged;
      ghost var s := View();
      var i := 0;
      while i < |channels|
        invariant 0 <= i <= |channels|
        invariant Valid() && trace == old(trace)
        invariant View() == s.(topics := View().topics, sorted := View().sorted)
        invariant |View().topics| == |s.topics| == |channels| && |View().sorted| == |s.sorted|
        invariant forall j :: 0 <= j < i ==> Rearranged(s.topics[j], View().topics[j]) && View().sorted[j]
        invariant forall j :: i <= j < |channels| ==> View().topics[j] == s.topics[j]
      {
        SortList(i);
        i := i + 1;
      }
    }

    /** What happens to the queue does not concern the topic lists. */
    twostate lemma Untouched()
      requires old(Valid())
      requires forall i :: 0 <= i < |channels| ==>
                 unchanged(channels[i]) && unchanged(channels[i].nodes) && unchanged(channels[i].data)
      ensures forall i :: 0 <= i < |channels| ==>
                channels[i].Compact() && channels[i].Entries() == old(channels[i].Entries())
    {
      hide KvList.Compact, KvList.Valid, KvList.Live, KvList.WellBound, KvList.Entries, List.Valid, List.Contents,
           Invocations;
    }

    /** push_message_to_queue; nothing is queued when no memory is left. */
    method Push(msg: Msg, stored: bool)
      requires Valid()
      modifies queue, queue.tail
      ensures Valid() && trace == old(trace) && Next(old(View()), Call.Produce(msg, stored), View())
      ensures forall i :: 0 <= i < |queue.elems| ==> queue.elems[i] in old(queue.elems) || fresh(queue.elems[i])
    {
      hide KvList.Compact, KvList.Valid, KvList.Live, KvList.WellBound, KvList.Entries, List.Valid, List.Contents,
           Invocations;
      if !stored {
        return;
      }
      var node := new Node(msg);
      var _ := queue.InsertTail(node);
      Untouched();
      SameTopics(old(View()), View());
    }

    method ProduceMessage(chann: nat, topic: nat, data: nat, value: nat, stored: bool)
      requires Valid()
      modifies queue, queue.tail
      ensures Valid() && trace == old(trace)
      ensures Next(old(View()), Call.Produce(Msg(chann, topic, data, value), stored), View())
      ensures forall i :: 0 <= i < |queue.elems| ==> queue.elems[i] in old(queue.elems) || fresh(queue.elems[i])
    {
      Push(Msg(chann, topic, data, value), stored);
    }

    method ProduceCall(callback: nat, data: nat, value: nat, stored: bool)
      requires Valid()
      modifies queue, queue.tail
      ensures Valid() && trace == old(trace)
      ensures Next(old(View()), BusSpec.ProduceCall(callback, data, value, stored), View())
      ensures forall i :: 0 <= i < |queue.elems| ==> queue.elems[i] in old(queue.elems) || fresh(queue.elems[i])
    {
      Push(Msg(MBUS_CALL_GROUP_ID, callback, data, value), stored);
    }

    /** The callback a message is for, or 0. */
    method CallbackOf(msg: Msg) returns (callback: nat)
      requires Valid() && Addressed(msg, |channels|)
      ensures MayDeliver(View(), msg, Invoke(callback, msg))
    {
      hide KvList.Compact, KvList.Valid, KvList.Live, KvList.WellBound, KvList.Entries, List.Valid, List.Contents,
           Invocations, Finds;
      if msg.chann == MBUS_CALL_GROUP_ID {
        return msg.word;
      }
      callback := 0;
      var topic := channels[msg.chann].Get(msg.word);
      if topic.Some? {
        callback := topic.value.callback;
      }
      OutcomeIs(View().topics[msg.chann], View().sorted[msg.chann], msg, topic);
    }

    method ConsumeMessage(msg: Msg) returns (ghost e: Entry)
      requires Valid() && Addressed(msg, |channels|)
      modifies `trace, `log
      ensures Valid() && View() == old(View()).(log := log)
      ensures log == old(log) + [e] && e.msg == msg && MayDeliver(old(View()), msg, e.calls)
    {
      hide KvList.Compact, KvList.Valid, KvList.Live, KvList.WellBound, KvList.Entries, List.Valid, List.Contents,
           Invocations, MayDeliver;
      var callback := CallbackOf(msg);
      if callback != 0 {
        trace := trace + [Dispatch(callback, msg.data, msg.value)];
      }
      e := Entry(msg, Invoke(callback, msg));
      log := log + [e];
      InvocationsNext(old(log), e);
      assert trace == old(trace) + Invoke(callback, msg);
      Untouched();
      SameTopics(old(View()), View());
    }

    /** linked_list_pop */
    method Pop() returns (msg: Option<Msg>)
      requires Valid()
      modifies queue, queue.elems
      ensures Valid() && View() == old(View()).(queue := queue.Contents()) && log == old(log)
      ensures msg.None? ==> queue.elems == old(queue.elems) == [] && old(queue.Contents()) == []
      ensures msg.Some? ==> old(queue.elems) != [] && queue.elems == old(queue.elems)[1..]
                            && old(queue.Contents()) == [msg.value] + queue.Contents()
    {
      hide KvList.Compact, KvList.Valid, KvList.Live, KvList.WellBound, KvList.Entries, List.Valid, List.Contents,
           Invocations;
      var node := queue.RemoveHead();
      Untouched();
      SameTopics(old(View()), View());
      msg := if node == null then None else Some(node.data);
    }

    /** One round of the draining loop. */
    method ConsumeNext() returns (found: bool, ghost e: Entry)
      requires Valid() && forall m :: m in queue.Contents() ==> Addressed(m, |channels|)
      modifies this, queue, queue.elems
      ensures Valid() && View() == old(View()).(queue := queue.Contents(), log := log)
      ensures !found ==> queue.elems == old(queue.elems) == [] && old(queue.Contents()) == [] && log == old(log)
      ensures found ==> old(queue.elems) != [] && queue.elems == old(queue.elems)[1..]
                        && old(queue.Contents()) == [e.msg] + queue.Contents()
                        && log == old(log) + [e] && MayDeliver(old(View()), e.msg, e.calls)
    {
      hide Valid, View, MayDeliver, List.Contents, List.Valid;
      var msg := Pop();
      found, e := msg.Some?, *;
      if found {
        assert msg.value in old(queue.Contents());
        ghost var s := View();
        e := ConsumeMessage(msg.value);
        QueueAndLogDoNotMatter(s, old(View()), msg.value, e.calls);
      }
    }

    /** The draining loop of mbus_consume_call, once the event has arrived. */
    method ConsumeCall()
      requires Valid() && forall m :: m in queue.Contents() ==> Addressed(m, |channels|)
      modifies this, queue, queue.elems
      ensures Valid() && queue.elems == [] && Next(old(View()), Call.Consume, View())
    {
      hide Valid, View, MayDeliver, AllDelivered, Addressed, Next, List.Contents, List.Valid;
      ghost var before, done, es: seq<Entry> := View(), [], [];
      NothingDelivered(before);
      while true
        invariant Valid() && View() == before.(queue := queue.Contents(), log := log)
        invariant forall i :: 0 <= i < |queue.elems| ==> queue.elems[i] in old(queue.elems)
        invariant log == before.log + es && AllDelivered(before, done, es)
        invariant before.queue == done + queue.Contents()
        decreases |queue.elems|
      {
        var found;
        ghost var e;
        ghost var s := View();
        RestAddressed(done, queue.Contents(), |channels|);
        found, e := ConsumeNext();
        if !found {
          Reassociate(done, [], []);
          break;
        }
        QueueAndLogDoNotMatter(s, before, e.msg, e.calls);
        DeliveredNext(before, done, es, e);
        Reassociate(before.log, es, [e]);
        Reassociate(done, [e.msg], queue.Contents());
        done, es := done + [e.msg], es + [e];
      }
      Consumed(before, View(), es);
    }
  }

  lemma Consumed(s: State, t: State, es: seq<Entry>)
    requires s.Shaped() && t == s.(queue := [], log := s.log + es) && AllDelivered(s, s.queue, es)
    ensures Next(s, Call.Consume, t)
  {
  }

  lemma SameTopics(s: State, t: State)
    requires s.Shaped() && t.Shaped() && |s.topics| == |t.topics|
    requires forall i :: 0 <= i < |s.topics| ==>
               s.topics[i] == t.topics[i] && s.sorted[i] == t.sorted[i] && s.room[i] == t.room[i]
    ensures t == s.(queue := t.queue, log := t.log)
  {
  }

  lemma OutcomeIs(ts: Topics, sorted: bool, msg: Msg, found: Option<Topic>)
    requires Finds(ts, sorted, msg.word, found)
    ensures MayFind(ts, sorted, msg, Outcome(found, msg))
  {
  }

  lemma QueueAndLogDoNotMatter(s: State, t: State, msg: Msg, calls: seq<Dispatch>)
    requires s.Shaped() && t == s.(queue := t.queue, log := t.log) && MayDeliver(s, msg, calls)
    ensures MayDeliver(t, msg, calls)
  {
  }

  lemma RestAddressed(done: seq<Msg>, rest: seq<Msg>, channels: nat)
    requires forall m :: m in done + rest ==> Addressed(m, channels)
    ensures forall m :: m in rest ==> Addressed(m, channels)
  {
    forall m | m in rest
      ensures m in done + rest
    {
    }
  }

  lemma OneChanged(s: State, t: State, i: nat)
    requires s.Shaped() && t.Shaped() && |s.topics| == |t.topics| && i < |s.topics|
    requires s.queue == t.queue && s.log == t.log && forall j :: 0 <= j < |s.room| ==> s.room[j] == t.room[j]
    requires forall j :: 0 <= j < |s.topics| && j != i ==> s.topics[j] == t.topics[j] && s.sorted[j] == t.sorted[j]
    ensures t == s.(topics := s.topics[i := t.topics[i]], sorted := s.sorted[i := t.sorted[i]])
  {
    assert s.room == t.room && t.topics == s.topics[i := t.topics[i]] && t.sorted == s.sorted[i := t.sorted[i]];
  }

  lemma RegisterStep(s: State, t: State, chann: nat, topic: Topic)
    requires s.Shaped() && t.Shaped() && |s.topics| == |t.topics| && chann < |s.topics|
    requires s.room == t.room && s.queue == t.queue && s.log == t.log
    requires forall i :: 0 <= i < |s.topics| && i != chann ==>
               s.topics[i] == t.topics[i] && s.sorted[i] == t.sorted[i]
    requires if |s.topics[chann]| < s.room[chann]
             then t.topics[chann] == s.topics[chann] + [(topic.id, topic)] && !t.sorted[chann]
             else t.topics[chann] == s.topics[chann] && s.sorted[chann] == t.sorted[chann]
    ensures Next(s, Call.Register(chann, topic), t)
  {
    if |s.topics[chann]| < s.room[chann] {
      assert t.topics == s.topics[chann := s.topics[chann] + [(topic.id, topic)]];
      assert t.sorted == s.sorted[chann := false];
    } else {
      assert t.topics == s.topics && t.sorted == s.sorted;
    }
  }

  /** A list is full when it has as many entries as slots. */
  lemma RoomLeft(list: KvList<Topic>)
    requires list.Valid()
    ensures list.count == |list.Entries()|
  {
    EntriesCount(list.nodes[..], list.data[..], list.home);
  }
}
