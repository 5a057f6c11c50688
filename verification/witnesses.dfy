/** Concrete calls for which the code misses what one would expect of it; the general laws
    say exactly which calls those are. */
module Witnesses {
  import opened Text
  import opened Numerals
  import opened FormatFlags
  import opened Readers
  import opened IntegerFields
  import opened Rounding
  import opened DecimalFields
  import opened DecimalLaws
  import opened FormatSpec
  import opened FormatLaws
  import opened Gadget
  import opened LogFormat
  import opened KvNodes
  import opened KvList
  import opened NodeList
  import opened OpSpec
  import BusSpec
  import BusRuns

  /** `%.32d` of -1 prints no sign. */
  lemma SignLost()
    ensures ReadInteger(Job(1, true, 10, 32, 0, NO_FLAGS.(precision := true)).Field(), 10) != Some(-1)
  {
    ReadsBackWithinLimits(Job(1, true, 10, 32, 0, NO_FLAGS.(precision := true)));
  }

  /** `%033d` of -1 loses its sign too. */
  lemma SignLostToZeros()
    ensures ReadInteger(Job(1, true, 10, 0, 33, NO_FLAGS.(zeropad := true)).Field(), 10) != Some(-1)
  {
    ReadsBackWithinLimits(Job(1, true, 10, 0, 33, NO_FLAGS.(zeropad := true)));
  }

  /** `%#.31x` of 1 prints `x` where `0x` belongs. */
  lemma PrefixBroken()
    ensures ReadInteger(Job(1, false, 16, 31, 0, NO_FLAGS.(hash := true, precision := true)).Field(), 16) != Some(1)
  {
    ReadsBackWithinLimits(Job(1, false, 16, 31, 0, NO_FLAGS.(hash := true, precision := true)));
  }

  /** `%b` of 2 to the 32 loses its only one. */
  lemma BinaryLost()
    ensures ReadInteger(Job(0x1_0000_0000, false, 2, 0, 0, NO_FLAGS).Field(), 2) != Some(0x1_0000_0000)
  {
    ReadsBackWithinLimits(Job(0x1_0000_0000, false, 2, 0, 0, NO_FLAGS));
  }

  /** `%#b` of 2 to the 30 leaves room for `b` only. */
  lemma BinaryPrefixBroken()
    ensures ReadInteger(Job(0x4000_0000, false, 2, 0, 0, NO_FLAGS.(hash := true)).Field(), 2) != Some(0x4000_0000)
  {
    ReadsBackWithinLimits(Job(0x4000_0000, false, 2, 0, 0, NO_FLAGS.(hash := true)));
  }

  /** `%033d` of 0 is narrower than its width. */
  lemma WidthMissed()
    ensures |Job(0, false, 10, 0, 33, NO_FLAGS.(zeropad := true)).Field()| == 32
  {
    var j := Job(0, false, 10, 0, 33, NO_FLAGS.(zeropad := true));
    IntegerFields.FieldLength(j.Plan());
  }

  /** `%010s` of a null pointer is narrower than its width. */
  lemma NullNotPadded()
    ensures |NullField(10, NO_FLAGS.(zeropad := true))| == 6
  {
  }

  /** `%.31f` of 0 has no room for its only digit before the point. */
  lemma DecimalCut()
    ensures var d := PrintedJob(Float(false, 0.0), 31, 0, NO_FLAGS.(precision := true));
            ReadDecimal(d.Field()) != Some(Decimal(false, Shift(Rounded(Float(false, 0.0), 17), 14), 31))
  {
    hide DigitChars, PaddedDigits, ReadDecimal;
    DecimalReadsBack(Float(false, 0.0), 31, 0, NO_FLAGS.(precision := true));
  }

  /** 5 in adaptive mode, with three zeros written beforehand and 16 digits of precision left,
      does not read as 5. */
  lemma AdaptiveMultiplies()
    ensures var d := DecimalJob(Components(5, 0, false), 3, 16, 0, NO_FLAGS.(precision := true, adapt := true));
            && d.Valid() && ReadDecimal(d.Field()).Some?
            && !Denotes(ReadDecimal(d.Field()).value, Shift(5, 16), 16)
  {
    hide ReadDecimal, Denotes, Pow, Shift;
    var d := DecimalJob(Components(5, 0, false), 3, 16, 0, NO_FLAGS.(precision := true, adapt := true));
    PowPositive(10, 16);
    assert |d.NumberChars()| == 4;
    AdaptiveThatFits(d);
  }

  /** 0.3333333333333333 in adaptive mode, with 23 zeros written beforehand as `%.40g` has it,
      loses its point. */
  lemma AdaptiveCut()
    ensures var d := DecimalJob(Components(0, 3333333333333333, false), 23, 16, 0,
                                NO_FLAGS.(precision := true, adapt := true));
            d.Valid() && !ReadsAsPrinted(d)
  {
    hide ReadsAsPrinted;
    var d := DecimalJob(Components(0, 3333333333333333, false), 23, 16, 0,
                        NO_FLAGS.(precision := true, adapt := true));
    PowerOfTen10();
    PowSplit(10, 10, 5);
    PowSplit(10, 15, 1);
    assert Pow(10, 4) == 10000;
    PowSplit(10, 4, 1);
    FitsWhen(d);
    AdaptiveReadsBack(d);
  }

  /** A slot marked used before kv_list_init stays so. */
  method StaleSlot() returns (list: KvList<int>)
    ensures !list.Valid()
  {
    var nodes := new KvNode[1](_ => KvNode(true, 0, 0));
    var data := new int[1];
    list := new KvList(nodes, data);
    assert list.nodes[0].valid;
    list.Init();
  }

  /** Removing the last of two nodes leaves the first one pointing at it. */
  method TailStillLinked() returns (list: List<int>)
    ensures !list.Valid()
  {
    list := new List();
    var first := new Node(1);
    var last := new Node(2);
    var _ := list.InsertTail(first);
    var _ := list.InsertTail(last);
    var _ := list.RemoveNode(last, 1);
  }

  /** A log text of LOG_CONTENT_SIZE_MAX characters is cut by the engine, not by the copy. */
  lemma LongLogDiffers(cells: string)
    requires |cells| >= CONTENT_SIZE_MAX
    ensures var f := seq(CONTENT_SIZE_MAX, _ => 'x');
            Copied(cells, 0, Truncated(f, CONTENT_SIZE_MAX))[..|f|] != Copied(cells, 0, f)[..|f|]
  {
    var f := seq(CONTENT_SIZE_MAX, _ => 'x');
    FastPathAgrees(f, [], cells, 0);
    assert f[..U16(|f|)] == f;
  }

  /** Two submissions of an operation and a call of ble_opq_process before its completion: a
      second runner starts beside the first. */
  lemma StartsASecond(answers: Answers)
    requires answers(0) == RET_OK
    ensures var op := Op(1, 2, 1, 0, Some(0));
            !AllSafe(Run(Initial(1), [Call.Start(op), Call.Start(op), Call.Process], answers).log)
  {
    var op := Op(1, 2, 1, 0, Some(0));
    var calls := [Call.Start(op), Call.Start(op), Call.Process];
    hide Run, Processed, AllSafe;
    RunsAreSafe(1, calls, answers);
    RunTwo(Initial(1), Call.Start(op), Call.Start(op), answers);
    assert calls[..2] == [Call.Start(op), Call.Start(op)];
    var s := Run(Initial(1), calls[..2], answers);
    assert s.running == Some(op) && s.current == 1 && s.queue == [op];
    assert s.queue[..0] == [];
    assert ReadyAt(s.current, s.queue, 0);
    assert calls[2].Process? && !Careful(s);
  }

  const FIRST := BusSpec.Topic(7, 1)
  const SECOND := BusSpec.Topic(7, 2)
  const TOPICS := [(7, FIRST), (7, SECOND)]
  const MESSAGE := BusSpec.Msg(0, 7, 10, 20)

  /** Two topics registered under one id, and a message for it before and after a sort. */
  function RedirectCalls(): seq<BusSpec.Call>
  {
    [BusSpec.Register(0, FIRST), BusSpec.Register(0, SECOND), BusSpec.Produce(MESSAGE, true), BusSpec.Consume,
     BusSpec.Call.Sort, BusSpec.Produce(MESSAGE, true), BusSpec.Consume]
  }

  function DeliveredTo(callback: nat): BusSpec.Entry
  {
    BusSpec.Entry(MESSAGE, [BusSpec.Dispatch(callback, 10, 20)])
  }

  /** Before a sort the first topic registered gets the message, after it the second one may. */
  lemma SortRedirects() returns (states: seq<BusSpec.State>)
    ensures BusSpec.Behaviour(states, RedirectCalls()) && BusSpec.Fresh(states[0])
    ensures states[7].log == [DeliveredTo(1), DeliveredTo(2)]
  {
    hide BusSpec.Behaviour, BusSpec.MayDeliver;
    states := ToTheFirst();
    var s, calls := states[4], RedirectCalls();
    assert BusSpec.Rearranged(TOPICS, TOPICS);
    states := Extended(states, calls, 4, s.(sorted := [true]));
    states := Extended(states, calls, 5, s.(sorted := [true], queue := [MESSAGE]));
    BusSpec.Found(TOPICS, true, MESSAGE, (7, SECOND));
    InChannel(states[6], MESSAGE, DeliveredTo(2).calls);
    ConsumedOne(states[6], MESSAGE, DeliveredTo(2));
    states := Extended(states, calls, 6, s.(sorted := [true], log := s.log + [DeliveredTo(2)]));
    assert calls[..7] == calls;
  }

  lemma ToTheFirst() returns (states: seq<BusSpec.State>)
    ensures |states| == 5 && BusSpec.Behaviour(states, RedirectCalls()[..4]) && BusSpec.Fresh(states[0])
    ensures states[4] == BusSpec.State([TOPICS], [false], [2], [], [DeliveredTo(1)])
  {
    hide BusSpec.Behaviour, BusSpec.MayDeliver;
    var s, calls := BusSpec.State([[]], [false], [2], [], []), RedirectCalls();
    Alone(s);
    states := [s];
    RegisteredOne(s, [], FIRST);
    states := Extended(states, calls, 0, s.(topics := [[] + [(7, FIRST)]]));
    RegisteredOne(states[1], [] + [(7, FIRST)], SECOND);
    assert [] + [(7, FIRST)] + [(7, SECOND)] == TOPICS;
    states := Extended(states, calls, 1, s.(topics := [TOPICS]));
    states := Extended(states, calls, 2, s.(topics := [TOPICS], queue := [MESSAGE]));
    Delivered(states[3], MESSAGE, (7, FIRST));
    ConsumedOne(states[3], MESSAGE, DeliveredTo(1));
    states := Extended(states, calls, 3, s.(topics := [TOPICS], log := [] + [DeliveredTo(1)]));
  }

  lemma InChannel(s: BusSpec.State, msg: BusSpec.Msg, calls: seq<BusSpec.Dispatch>)
    requires s.Shaped() && msg.chann == 0 < |s.topics| && BusSpec.MayFind(s.topics[0], s.sorted[0], msg, calls)
    ensures BusSpec.MayDeliver(s, msg, calls)
  {
  }

  lemma Alone(s: BusSpec.State)
    requires s.Shaped()
    ensures BusSpec.Behaviour([s], [])
  {
  }

  lemma Extended(states: seq<BusSpec.State>, calls: seq<BusSpec.Call>, i: nat, t: BusSpec.State)
    returns (more: seq<BusSpec.State>)
    requires i < |calls| && |states| == i + 1 && BusSpec.Behaviour(states, calls[..i]) && t.Shaped()
    requires BusSpec.Allowed(states[i], calls[i]) && BusSpec.Next(states[i], calls[i], t)
    ensures more == states + [t] && BusSpec.Behaviour(more, calls[..i + 1])
  {
    BusRuns.BehaviourNext(states, calls, i, t);
    more := states + [t];
  }

  lemma RegisteredOne(s: BusSpec.State, ts: BusSpec.Topics, topic: BusSpec.Topic)
    requires s.topics == [ts] && s.sorted == [false] && s.room == [2] && |ts| < 2
    ensures BusSpec.Next(s, BusSpec.Register(0, topic), s.(topics := [ts + [(topic.id, topic)]]))
  {
    assert s.topics[0 := ts + [(topic.id, topic)]] == [ts + [(topic.id, topic)]];
    assert s.sorted[0 := false] == s.sorted;
  }

  lemma ConsumedOne(s: BusSpec.State, msg: BusSpec.Msg, e: BusSpec.Entry)
    requires s.Shaped() && s.queue == [msg] && e.msg == msg && BusSpec.MayDeliver(s, msg, e.calls)
    ensures BusSpec.Next(s, BusSpec.Consume, s.(queue := [], log := s.log + [e]))
  {
    assert BusSpec.AllDelivered(s, [msg], [e]);
  }

  lemma Delivered(s: BusSpec.State, msg: BusSpec.Msg, t: (nat, BusSpec.Topic))
    requires s.Shaped() && msg.chann == 0 < |s.topics| && !s.sorted[0]
    requires s.topics[0] != [] && s.topics[0][0] == t && t.0 == msg.word
    ensures BusSpec.MayDeliver(s, msg, BusSpec.Invoke(t.1.callback, msg))
  {
    var found := Some(t.1);
    assert Finds(s.topics[0], s.sorted[0], msg.word, found);
    assert BusSpec.Outcome(found, msg) == BusSpec.Invoke(t.1.callback, msg);
  }
}
