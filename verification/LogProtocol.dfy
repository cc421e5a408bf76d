// The asynchronous logger as atomic steps of many producer threads, the consumer thread
// and one thread that calls stop, over one epoch in which the writer is running.
module LogProtocol {
  import opened Logger

  /** Where the consumer stands in its polling loop. */
  datatype Consumer = CheckRunning | CheckEmpty | AboutToDequeue | AboutToWrite(msg: Message) | Exited

  /** Where stop stands; observed is how many messages had been enqueued when it found the queue empty. */
  datatype Stopper =
    | NotCalled
    | Waiting
    | SawEmpty(observed: nat)
    | FlushingSink(observed: nat)
    | Joining(observed: nat)
    | Returned(observed: nat)

  datatype Flush = Idle | Flushing(next: nat)

  /** One thread: its buffer, how far a flush has got, and every message it ever logged. */
  datatype Producer = Producer(buffer: seq<Message>, flush: Flush, logged: seq<Message>)

  datatype Entry = Entry(thread: nat, msg: Message)

  /** history records every enqueue and written every write to the sink. */
  datatype State = State(
    running: bool,
    queue: seq<Message>,
    consumer: Consumer,
    stopper: Stopper,
    producers: seq<Producer>,
    history: seq<Entry>,
    written: seq<Message>)

  datatype Step =
    | Log(thread: nat, msg: Message)
    | BeginFlush(thread: nat)
    | EnqueueNext(thread: nat)
    | EndFlush(thread: nat)
    | Consume
    | Stop

  datatype Next = Disabled | To(state: State)

  function Initial(threads: nat): State {
    State(true, [], CheckRunning, NotCalled, seq(threads, _ => Producer([], Idle, [])), [], [])
  }

  /** One pass through a statement of the consumer loop. */
  function ConsumerStep(s: State): Next {
    match s.consumer
    case CheckRunning => To(s.(consumer := if s.running then CheckEmpty else Exited))
    case CheckEmpty => To(s.(consumer := if s.queue == [] then CheckRunning else AboutToDequeue))
    case AboutToDequeue =>
      var (msg, rest) := Dequeued(s.queue);
      To(s.(queue := rest, consumer := AboutToWrite(msg)))
    case AboutToWrite(msg) => To(s.(written := s.written + [msg], consumer := CheckRunning))
    case Exited => Disabled
  }

  /** stop: wait for an empty queue, clear the flag, flush the sink, join the consumer. */
  function StopStep(s: State): Next {
    match s.stopper
    case NotCalled => if s.running then To(s.(stopper := Waiting)) else Disabled
    case Waiting => To(s.(stopper := if s.queue == [] then SawEmpty(|s.history|) else Waiting))
    case SawEmpty(n) => To(s.(running := false, stopper := FlushingSink(n)))
    case FlushingSink(n) => To(s.(stopper := Joining(n)))
    case Joining(n) => if s.consumer.Exited? then To(s.(stopper := Returned(n))) else Disabled
    case Returned(_) => Disabled
  }

  datatype Advanced = Stuck | Moved(producer: Producer, out: seq<Message>)

  /** What one step does to its thread, and which message it enqueues, if any. */
  function Advance(p: Producer, step: Step): Advanced {
    match (step, p.flush)
    case (Log(_, msg), Idle) => Moved(Producer(p.buffer + [msg], Idle, p.logged + [msg]), [])
    case (BeginFlush(_), Idle) => Moved(p.(flush := Flushing(0)), [])
    case (EnqueueNext(_), Flushing(i)) =>
      if i < |p.buffer| then Moved(p.(flush := Flushing(i + 1)), [p.buffer[i]]) else Stuck
    case (EndFlush(_), Flushing(i)) =>
      if i < |p.buffer| then Stuck else Moved(p.(buffer := [], flush := Idle), [])
    case _ => Stuck
  }

  function ProducerStep(s: State, step: Step): Next
    requires !step.Consume? && !step.Stop?
  {
    var t := step.thread;
    if t >= |s.producers| then Disabled
    else
      match Advance(s.producers[t], step)
      case Stuck => Disabled
      case Moved(p, out) =>
        var s' := s.(producers := s.producers[t := p]);
        To(if out == [] then s'
           else s'.(queue := Enqueued(s.queue, out[0]), history := s.history + [Entry(t, out[0])]))
  }

  function Take(s: State, step: Step): Next {
    match step
    case Consume => ConsumerStep(s)
    case Stop => StopStep(s)
    case _ => ProducerStep(s, step)
  }

  /** A run, step by step; a disabled step ends it. */
  function Run(s: State, steps: seq<Step>): Next
    decreases |steps|
  {
    if steps == [] then To(s)
    else
      var n := Take(s, steps[0]);
      if n.Disabled? then n else Run(n.state, steps[1..])
  }

  ghost predicate Reachable(s: State) {
    exists threads, steps :: Run(Initial(threads), steps) == To(s)
  }

  // ----- invariants -----

  function Messages(history: seq<Entry>): (r: seq<Message>)
    ensures |r| == |history|
  {
    seq(|history|, i requires 0 <= i < |history| => history[i].msg)
  }

  function InFlight(c: Consumer): seq<Message> {
    if c.AboutToWrite? then [c.msg] else []
  }

  /** The messages thread t enqueued, in order. */
  function ByThread(history: seq<Entry>, t: nat): seq<Message> {
    if history == [] then []
    else
      ByThread(history[..|history| - 1], t)
      + if history[|history| - 1].thread == t then [history[|history| - 1].msg] else []
  }

  /** The part of a buffer that has not been enqueued. */
  function Pending(p: Producer): seq<Message> {
    match p.flush
    case Idle => p.buffer
    case Flushing(i) => if i <= |p.buffer| then p.buffer[i..] else []
  }

  /** Nothing is lost, duplicated or reordered between the enqueues and the sink. */
  ghost predicate Conserved(s: State) {
    s.written + InFlight(s.consumer) + s.queue == Messages(s.history)
  }

  /** A consumer that has found the queue non-empty will find it non-empty when it dequeues. */
  ghost predicate NoSentinel(s: State) {
    s.consumer.AboutToDequeue? ==> s.queue != []
  }

  /** What thread t enqueued, then what it still buffers, is what it logged. */
  ghost predicate InOrder(history: seq<Entry>, p: Producer, t: nat) {
    && (p.flush.Flushing? ==> p.flush.next <= |p.buffer|)
    && ByThread(history, t) + Pending(p) == p.logged
  }

  ghost predicate ThreadOrder(s: State) {
    forall t :: 0 <= t < |s.producers| ==> InOrder(s.history, s.producers[t], t)
  }

  ghost predicate StopOrder(s: State) {
    && (s.running <==> s.stopper.NotCalled? || s.stopper.Waiting? || s.stopper.SawEmpty?)
    && (s.consumer.Exited? ==> !s.running)
    && (s.stopper.Returned? ==> s.consumer.Exited?)
    && (!s.stopper.NotCalled? && !s.stopper.Waiting? ==>
          s.stopper.observed <= |s.written| + |InFlight(s.consumer)|)
  }

  ghost predicate Inv(s: State) {
    Conserved(s) && NoSentinel(s) && ThreadOrder(s) && StopOrder(s)
  }

  lemma InitialInv(threads: nat)
    ensures Inv(Initial(threads))
  {
  }

  lemma MessagesAppend(history: seq<Entry>, e: Entry)
    ensures Messages(history + [e]) == Messages(history) + [e.msg]
  {
  }

  lemma ConsumerKeepsInv(s: State)
    requires Inv(s) && ConsumerStep(s).To?
    ensures Inv(ConsumerStep(s).state)
  {
    var s' := ConsumerStep(s).state;
    assert s'.written + InFlight(s'.consumer) + s'.queue == s.written + InFlight(s.consumer) + s.queue;
  }

  lemma StopKeepsInv(s: State)
    requires Inv(s) && StopStep(s).To?
    ensures Inv(StopStep(s).state)
  {
    if s.stopper.Waiting? && s.queue == [] {
      assert |s.written + InFlight(s.consumer) + s.queue| == |s.history|;
    }
  }

  lemma EnqueueKeepsConserved(s: State, s': State, e: Entry)
    requires Conserved(s) && s'.written == s.written && s'.consumer == s.consumer
    requires s'.queue == s.queue + [e.msg] && s'.history == s.history + [e]
    ensures Conserved(s')
  {
    MessagesAppend(s.history, e);
    assert s.written + InFlight(s.consumer) + (s.queue + [e.msg])
        == s.written + InFlight(s.consumer) + s.queue + [e.msg];
  }

  lemma ByThreadAppend(history: seq<Entry>, e: Entry, t: nat)
    ensures ByThread(history + [e], t) == ByThread(history, t) + if e.thread == t then [e.msg] else []
  {
    assert (history + [e])[..|history|] == history;
  }

  lemma AdvanceKeepsInOrder(history: seq<Entry>, p: Producer, t: nat, step: Step)
    requires InOrder(history, p, t) && Advance(p, step).Moved?
    ensures var Moved(p', out) := Advance(p, step);
            |out| <= 1 && InOrder(if out == [] then history else history + [Entry(t, out[0])], p', t)
  {
    var Moved(p', out) := Advance(p, step);
    var before := ByThread(history, t);
    if out != [] {
      ByThreadAppend(history, Entry(t, out[0]), t);
      assert Pending(p) == out + Pending(p');
      assert before + (out + Pending(p')) == before + out + Pending(p');
    } else if step.Log? {
      assert before + (p.buffer + [step.msg]) == before + p.buffer + [step.msg];
    } else {
      assert Pending(p') == Pending(p);
    }
  }

  lemma OthersStayInOrder(history: seq<Entry>, p: Producer, t: nat, e: Entry)
    requires InOrder(history, p, t) && e.thread != t
    ensures InOrder(history + [e], p, t)
  {
    ByThreadAppend(history, e, t);
  }

  /** One thread advances, possibly enqueueing: the order of every thread is kept. */
  lemma OrderAfterAdvance(history: seq<Entry>, producers: seq<Producer>, t: nat, step: Step, u: nat)
    requires t < |producers| && u < |producers|
    requires InOrder(history, producers[u], u) && Advance(producers[t], step).Moved?
    ensures var Moved(p', out) := Advance(producers[t], step);
            |out| <= 1 &&
            InOrder(if out == [] then history else history + [Entry(t, out[0])], producers[t := p'][u], u)
  {
    var Moved(p', out) := Advance(producers[t], step);
    if u == t {
      AdvanceKeepsInOrder(history, producers[t], t, step);
    } else if out != [] {
      OthersStayInOrder(history, producers[u], u, Entry(t, out[0]));
    }
  }

  lemma ProducerKeepsThreadOrder(s: State, step: Step)
    requires ThreadOrder(s) && !step.Consume? && !step.Stop? && ProducerStep(s, step).To?
    ensures ThreadOrder(ProducerStep(s, step).state)
  {
    var s' := ProducerStep(s, step).state;
    forall u | 0 <= u < |s.producers|
      ensures InOrder(s'.history, s'.producers[u], u)
    {
      OrderAfterAdvance(s.history, s.producers, step.thread, step, u);
    }
  }

  lemma ProducerKeepsInv(s: State, step: Step)
    requires Inv(s) && !step.Consume? && !step.Stop? && ProducerStep(s, step).To?
    ensures Inv(ProducerStep(s, step).state)
  {
    var s' := ProducerStep(s, step).state;
    ProducerKeepsThreadOrder(s, step);
    if s'.history != s.history {
      EnqueueKeepsConserved(s, s', s'.history[|s.history|]);
    }
  }

  /** Every step keeps the invariant. */
  lemma StepKeepsInv(s: State, step: Step)
    requires Inv(s) && Take(s, step).To?
    ensures Inv(Take(s, step).state)
  {
    if step.Consume? {
      ConsumerKeepsInv(s);
    } else if step.Stop? {
      StopKeepsInv(s);
    } else {
      ProducerKeepsInv(s, step);
    }
  }

  lemma {:induction false} RunKeepsInv(s: State, steps: seq<Step>)
    requires Inv(s) && Run(s, steps).To?
    ensures Inv(Run(s, steps).state)
    decreases |steps|
  {
    if steps != [] {
      StepKeepsInv(s, steps[0]);
      RunKeepsInv(Take(s, steps[0]).state, steps[1..]);
    }
  }

  lemma ReachableInv(s: State)
    requires Reachable(s)
    ensures Inv(s)
  {
    var threads, steps :| Run(Initial(threads), steps) == To(s);
    InitialInv(threads);
    RunKeepsInv(Initial(threads), steps);
  }

  // ----- what every run guarantees -----

  /** In every interleaving, the sink has received the enqueued messages from the first on, each once and in
      order; the rest is in flight or queued; and a dequeue never meets an empty queue. */
  lemma WrittenIsPrefix(s: State)
    requires Reachable(s)
    ensures |s.written| <= |s.history| && s.written == Messages(s.history[..|s.written|])
    ensures s.written + InFlight(s.consumer) + s.queue == Messages(s.history)
    ensures s.consumer.AboutToDequeue? ==> s.queue != []
  {
    ReachableInv(s);
    assert |s.written + InFlight(s.consumer) + s.queue| == |s.history|;
    assert s.written == (s.written + InFlight(s.consumer) + s.queue)[..|s.written|];
    assert Messages(s.history)[..|s.written|] == Messages(s.history[..|s.written|]);
  }

  /** When stop returns, everything enqueued before it found the queue empty has been written, in order; and
      everything has been written exactly when the queue is empty, as it is if nothing was enqueued after that. */
  lemma StopDrains(s: State)
    requires Reachable(s) && s.stopper.Returned?
    ensures s.stopper.observed <= |s.written| <= |s.history|
    ensures s.written[..s.stopper.observed] == Messages(s.history[..s.stopper.observed])
    ensures |s.history| == s.stopper.observed ==> s.queue == []
    ensures s.written == Messages(s.history) <==> s.queue == []
    ensures s.consumer.Exited? && !s.running
  {
    ReachableInv(s);
    WrittenIsPrefix(s);
    var n := s.stopper.observed;
    assert s.history[..|s.written|][..n] == s.history[..n];
    assert Messages(s.history[..|s.written|])[..n] == Messages(s.history[..n]);
    assert |s.written + s.queue| == |s.history|;
  }

  ghost predicate PastWaiting(stopper: Stopper) {
    !stopper.NotCalled? && !stopper.Waiting?
  }

  lemma StepExtends(s: State, step: Step)
    requires Take(s, step).To? && PastWaiting(s.stopper)
    ensures var s' := Take(s, step).state;
            s.history <= s'.history && PastWaiting(s'.stopper) && s'.stopper.observed == s.stopper.observed
  {
  }

  lemma {:induction false} RunExtends(s: State, steps: seq<Step>)
    requires Run(s, steps).To? && PastWaiting(s.stopper)
    ensures var s' := Run(s, steps).state;
            s.history <= s'.history && PastWaiting(s'.stopper) && s'.stopper.observed == s.stopper.observed
    decreases |steps|
  {
    if steps != [] {
      StepExtends(s, steps[0]);
      RunExtends(Take(s, steps[0]).state, steps[1..]);
    }
  }

  /** Along a run: what had been enqueued when stop looked and found the queue empty is at the head of what the
      sink has when stop returns. */
  lemma StopDrainsRun(before: seq<Step>, s0: State, threads: nat, after: seq<Step>, s: State)
    requires Run(Initial(threads), before) == To(s0) && s0.stopper.Waiting? && s0.queue == []
    requires Run(Initial(threads), before + ([Stop] + after)) == To(s) && s.stopper.Returned?
    ensures Messages(s0.history) <= s.written
  {
    RunConcat(Initial(threads), before, [Stop] + after);
    RunOne(s0, Stop, after);
    RunExtends(Take(s0, Stop).state, after);
    assert Reachable(s);
    StopDrains(s);
    var n := |s0.history|;
    assert s.history[..n] == s0.history;
    assert s.written[..n] == Messages(s0.history);
  }

  /** One thread that flushes one message, as stop finds the queue empty. */
  function AboutToEnqueue(msg: Message, stopper: Stopper): State {
    State(stopper == NotCalled, [], CheckRunning, stopper, [Producer([msg], Flushing(0), [msg])], [], [])
  }

  /** The same, after stop has returned without the message. */
  function LeftBehind(msg: Message): State {
    State(false, [msg], Exited, Returned(0), [Producer([msg], Flushing(1), [msg])], [Entry(0, msg)], [])
  }

  lemma LogOne(msg: Message)
    ensures Run(Initial(1), [Log(0, msg), BeginFlush(0)]) == To(AboutToEnqueue(msg, NotCalled))
  {
    assert Initial(1).producers == [Producer([], Idle, [])];
    RunTwo(Initial(1), Log(0, msg), BeginFlush(0));
    var s := Take(Initial(1), Log(0, msg)).state;
    assert s.producers[0].buffer == [msg] && s.producers[0].logged == [msg];
    assert Take(s, BeginFlush(0)).state.producers == [Producer([msg], Flushing(0), [msg])];
  }

  lemma StopSeesEmpty(msg: Message)
    ensures Run(AboutToEnqueue(msg, NotCalled), [Stop, Stop] + [Stop]) == To(AboutToEnqueue(msg, FlushingSink(0)))
  {
    var s := AboutToEnqueue(msg, NotCalled);
    RunTwo(s, Stop, Stop);
    RunConcat(s, [Stop, Stop], [Stop]);
    RunOne(Run(s, [Stop, Stop]).state, Stop, []);
    assert [Stop] + [] == [Stop];
  }

  lemma LateEnqueue(msg: Message)
    ensures Run(AboutToEnqueue(msg, FlushingSink(0)), [EnqueueNext(0), Stop] + [Consume, Stop]) == To(LeftBehind(msg))
  {
    var s := AboutToEnqueue(msg, FlushingSink(0));
    RunTwo(s, EnqueueNext(0), Stop);
    RunConcat(s, [EnqueueNext(0), Stop], [Consume, Stop]);
    RunTwo(Run(s, [EnqueueNext(0), Stop]).state, Consume, Stop);
  }

  /** A message enqueued after stop found the queue empty can stay unwritten when stop returns. */
  lemma LateMessageStays(msg: Message) returns (s: State)
    ensures Reachable(s) && s.stopper.Returned? && s.history == [Entry(0, msg)]
    ensures s.queue == [msg] && s.written == []
  {
    var log, stop := [Log(0, msg), BeginFlush(0)], [Stop, Stop] + [Stop];
    var late := [EnqueueNext(0), Stop] + [Consume, Stop];
    LogOne(msg);
    StopSeesEmpty(msg);
    LateEnqueue(msg);
    RunConcat(Initial(1), log, stop);
    RunConcat(Initial(1), log + stop, late);
    s := LeftBehind(msg);
    assert Run(Initial(1), log + stop + late) == To(s);
  }

  /** The message is in flight while stop stands past the flush of the sink. */
  function InFlightAtJoin(msg: Message): State {
    State(false, [], AboutToWrite(msg), Joining(1), [Producer([msg], Flushing(1), [msg])], [Entry(0, msg)], [])
  }

  lemma TakenInFlight(msg: Message)
    ensures var s := AboutToEnqueue(msg, NotCalled);
            Run(s, [EnqueueNext(0), Consume] + ([Consume, Consume] + [Stop]))
            == To(InFlightAtJoin(msg).(running := true, stopper := Waiting))
  {
    var s := AboutToEnqueue(msg, NotCalled);
    RunTwo(s, EnqueueNext(0), Consume);
    RunConcat(s, [EnqueueNext(0), Consume], [Consume, Consume] + [Stop]);
    var s1 := Run(s, [EnqueueNext(0), Consume]).state;
    RunTwo(s1, Consume, Consume);
    RunConcat(s1, [Consume, Consume], [Stop]);
    RunOne(Run(s1, [Consume, Consume]).state, Stop, []);
    assert [Stop] + [] == [Stop];
  }

  lemma StopPassesFlush(msg: Message)
    ensures Run(InFlightAtJoin(msg).(running := true, stopper := Waiting), [Stop, Stop] + [Stop])
            == To(InFlightAtJoin(msg))
  {
    var s := InFlightAtJoin(msg).(running := true, stopper := Waiting);
    RunTwo(s, Stop, Stop);
    RunConcat(s, [Stop, Stop], [Stop]);
    RunOne(Run(s, [Stop, Stop]).state, Stop, []);
    assert [Stop] + [] == [Stop];
  }

  /** stop flushes the sink before it joins: a message enqueued before stop was called can still be in flight, to be
      written after the flush. */
  lemma FlushCanMissMessage(msg: Message) returns (s: State)
    ensures Reachable(s) && s.stopper.Joining? && s.history == [Entry(0, msg)]
    ensures s.consumer == AboutToWrite(msg) && s.written == []
  {
    var log, take := [Log(0, msg), BeginFlush(0)], [EnqueueNext(0), Consume] + ([Consume, Consume] + [Stop]);
    var stop := [Stop, Stop] + [Stop];
    LogOne(msg);
    TakenInFlight(msg);
    StopPassesFlush(msg);
    RunConcat(Initial(1), log, take);
    RunConcat(Initial(1), log + take, stop);
    s := InFlightAtJoin(msg);
    assert Run(Initial(1), log + take + stop) == To(s);
  }

  lemma {:induction false} ByThreadPrefix(history: seq<Entry>, n: nat, t: nat)
    requires n <= |history|
    ensures ByThread(history[..n], t) <= ByThread(history, t)
  {
    if n == |history| {
      assert history[..n] == history;
    } else {
      ByThreadPrefix(history[..|history| - 1], n, t);
      assert history[..|history| - 1][..n] == history[..n];
    }
  }

  /** The messages that thread t logs in the course of a run, in order. */
  function LoggedIn(steps: seq<Step>, t: nat): seq<Message> {
    if steps == [] then []
    else (if steps[0].Log? && steps[0].thread == t then [steps[0].msg] else []) + LoggedIn(steps[1..], t)
  }

  /** A thread that is not flushing can log any message. */
  lemma LogEnabled(s: State, t: nat, msg: Message)
    requires t < |s.producers| && s.producers[t].flush.Idle?
    ensures Take(s, Log(t, msg)).To?
    ensures Take(s, Log(t, msg)).state.producers[t].buffer == s.producers[t].buffer + [msg]
  {
  }

  lemma StepLogs(s: State, step: Step, t: nat)
    requires Take(s, step).To? && t < |s.producers|
    ensures var s' := Take(s, step).state;
            && |s'.producers| == |s.producers|
            && s'.producers[t].logged == s.producers[t].logged + LoggedIn([step], t)
  {
    assert [step][1..] == [] && LoggedIn([], t) == [];
  }

  lemma {:induction false} RunLogs(s: State, steps: seq<Step>, t: nat)
    requires Run(s, steps).To? && t < |s.producers|
    ensures var s' := Run(s, steps).state;
            && |s'.producers| == |s.producers|
            && s'.producers[t].logged == s.producers[t].logged + LoggedIn(steps, t)
    decreases |steps|
  {
    if steps != [] {
      var s1 := Take(s, steps[0]).state;
      StepLogs(s, steps[0], t);
      RunLogs(s1, steps[1..], t);
      assert [steps[0]][1..] == [] && LoggedIn([], t) == [];
      assert LoggedIn(steps, t) == LoggedIn([steps[0]], t) + LoggedIn(steps[1..], t);
    }
  }

  /** Per thread, what it enqueued followed by what it still buffers is what it logged in the course of the run, in
      order and once; what the sink has of it is a prefix, and all of it when nothing is buffered, queued or in
      flight. */
  lemma ThreadMessagesInOrder(threads: nat, steps: seq<Step>, s: State, t: nat)
    requires Run(Initial(threads), steps) == To(s) && t < threads
    ensures |s.producers| == threads && |s.written| <= |s.history|
    ensures ByThread(s.history, t) + Pending(s.producers[t]) == LoggedIn(steps, t)
    ensures ByThread(s.history[..|s.written|], t) <= LoggedIn(steps, t)
    ensures Pending(s.producers[t]) == [] && s.queue == [] && !s.consumer.AboutToWrite? ==>
              ByThread(s.history[..|s.written|], t) == LoggedIn(steps, t)
  {
    assert Reachable(s);
    ReachableInv(s);
    RunLogs(Initial(threads), steps, t);
    assert s.producers[t].logged == [] + LoggedIn(steps, t) == LoggedIn(steps, t);
    assert InOrder(s.history, s.producers[t], t);
    WrittenIsPrefix(s);
    ByThreadPrefix(s.history, |s.written|, t);
    if s.queue == [] && !s.consumer.AboutToWrite? {
      assert |s.written + InFlight(s.consumer) + s.queue| == |s.history|;
      assert s.history[..|s.written|] == s.history;
    }
  }

  // ----- progress -----

  lemma {:induction false} RunConcat(s: State, a: seq<Step>, b: seq<Step>)
    requires Run(s, a).To?
    ensures Run(s, a + b) == Run(Run(s, a).state, b)
    decreases |a|
  {
    if a == [] {
      assert a + b == b;
    } else {
      assert (a + b)[1..] == a[1..] + b;
      RunConcat(Take(s, a[0]).state, a[1..], b);
    }
  }

  lemma RunOne(s: State, step: Step, rest: seq<Step>)
    requires Take(s, step).To?
    ensures Run(s, [step] + rest) == Run(Take(s, step).state, rest)
  {
    assert ([step] + rest)[1..] == rest;
  }

  lemma RunTwo(s: State, first: Step, second: Step)
    requires Take(s, first).To? && Take(Take(s, first).state, second).To?
    ensures Run(s, [first, second]) == Take(Take(s, first).state, second)
  {
    RunOne(s, first, [second]);
    RunOne(Take(s, first).state, second, []);
    assert [first] + [second] == [first, second];
  }

  /** How many consumer steps it takes at most until the queue is empty. */
  function DrainSteps(s: State): nat {
    5 * |s.queue|
    + match s.consumer
      case AboutToDequeue => 0
      case CheckEmpty => 1
      case CheckRunning => 2
      case AboutToWrite(_) => 3
      case Exited => 0
  }

  /** While the writer runs, the consumer alone empties the queue. */
  lemma {:induction false} ConsumerDrains(s: State) returns (steps: seq<Step>)
    requires Inv(s) && s.running
    ensures Run(s, steps).To?
    ensures var s' := Run(s, steps).state;
            Inv(s') && s'.queue == [] && s' == s.(queue := [], consumer := s'.consumer, written := s'.written)
    decreases DrainSteps(s)
  {
    if s.queue == [] {
      steps := [];
    } else {
      ConsumerKeepsInv(s);
      var rest := ConsumerDrains(ConsumerStep(s).state);
      steps := [Consume] + rest;
      RunOne(s, Consume, rest);
    }
  }

  function ExitSteps(c: Consumer): nat {
    match c
    case Exited => 0
    case CheckRunning => 1
    case AboutToWrite(_) => 2
    case AboutToDequeue => 3
    case CheckEmpty => 4
  }

  /** After the flag is cleared, the consumer finishes its iteration and exits, whatever is queued. */
  lemma {:induction false} ConsumerExits(s: State) returns (steps: seq<Step>)
    requires Inv(s) && !s.running
    ensures Run(s, steps).To?
    ensures var s' := Run(s, steps).state;
            && Inv(s') && s'.consumer.Exited?
            && s' == s.(queue := s'.queue, consumer := s'.consumer, written := s'.written)
    decreases ExitSteps(s.consumer)
  {
    if s.consumer.Exited? {
      steps := [];
    } else {
      ConsumerKeepsInv(s);
      var rest := ConsumerExits(ConsumerStep(s).state);
      steps := [Consume] + rest;
      RunOne(s, Consume, rest);
    }
  }

  /** s' is what stop returns in after a run from s in which no producer took a step. */
  ghost predicate ReturnedFrom(s: State, s': State) {
    Inv(s') && s'.stopper.Returned? && s'.history == s.history && s'.producers == s.producers
  }

  /** Once stop has cleared the flag, it can return. */
  lemma JoinReturns(s: State) returns (steps: seq<Step>)
    requires Inv(s) && s.stopper.Joining?
    ensures Run(s, steps).To? && ReturnedFrom(s, Run(s, steps).state)
    ensures Run(s, steps).state.stopper.observed == s.stopper.observed
  {
    var exit := ConsumerExits(s);
    var s1 := Run(s, exit).state;
    StopKeepsInv(s1);
    RunConcat(s, exit, [Stop]);
    RunOne(s1, Stop, []);
    steps := exit + [Stop];
  }

  /** Once stop has seen an empty queue, it can return, even with later messages queued. */
  lemma {:induction false} StopReturnsFromHere(s: State) returns (steps: seq<Step>)
    requires Inv(s) && !s.stopper.NotCalled? && !s.stopper.Waiting?
    ensures Run(s, steps).To? && ReturnedFrom(s, Run(s, steps).state)
    ensures Run(s, steps).state.stopper.observed == s.stopper.observed
    decreases s.stopper.SawEmpty?, s.stopper.FlushingSink?
  {
    if s.stopper.Returned? {
      steps := [];
    } else if s.stopper.Joining? {
      steps := JoinReturns(s);
    } else {
      StopKeepsInv(s);
      var rest := StopReturnsFromHere(StopStep(s).state);
      RunOne(s, Stop, rest);
      steps := [Stop] + rest;
    }
  }

  /** stop never gets stuck: from every reachable state after its call, the consumer and stop alone can finish;
      and if stop still waits for an empty queue, then everything enqueued has been written. */
  lemma StopCanFinish(s: State) returns (steps: seq<Step>)
    requires Reachable(s) && !s.stopper.NotCalled?
    ensures Run(s, steps).To? && ReturnedFrom(s, Run(s, steps).state)
    ensures s.stopper.Waiting? ==> Run(s, steps).state.written == Messages(s.history)
  {
    ReachableInv(s);
    if s.stopper.Waiting? {
      steps := WaitingFinishes(s);
    } else {
      steps := StopReturnsFromHere(s);
    }
  }

  lemma WaitingFinishes(s: State) returns (steps: seq<Step>)
    requires Inv(s) && s.stopper.Waiting?
    ensures Run(s, steps).To? && ReturnedFrom(s, Run(s, steps).state)
    ensures Run(s, steps).state.written == Messages(s.history)
  {
    var drain := ConsumerDrains(s);
    var s1 := Run(s, drain).state;
    StopKeepsInv(s1);
    var s2 := StopStep(s1).state;
    var rest := StopReturnsFromHere(s2);
    RunOne(s1, Stop, rest);
    RunConcat(s, drain, [Stop] + rest);
    steps := drain + ([Stop] + rest);
    var s3 := Run(s2, rest).state;
    assert |s3.written + InFlight(s3.consumer) + s3.queue| == |s.history|;
    assert s3.queue == [] && s3.written + [] + [] == s3.written;
  }

  // ----- the uninterrupted flush -----

  function EnqueueAll(t: nat, n: nat): seq<Step> {
    if n == 0 then [] else [EnqueueNext(t)] + EnqueueAll(t, n - 1)
  }

  lemma {:induction false} EnqueueAllRun(s: State, t: nat)
    requires t < |s.producers| && s.producers[t].flush.Flushing? && s.producers[t].flush.next <= |s.producers[t].buffer|
    ensures var p := s.producers[t];
            var n := Run(s, EnqueueAll(t, |p.buffer| - p.flush.next));
            && n.To? && n.state.queue == s.queue + p.buffer[p.flush.next..]
            && n.state.producers == s.producers[t := p.(flush := Flushing(|p.buffer|))]
    decreases |s.producers[t].buffer| - s.producers[t].flush.next
  {
    var p := s.producers[t];
    if p.flush.next < |p.buffer| {
      var s' := Take(s, EnqueueNext(t)).state;
      EnqueueAllRun(s', t);
      RunOne(s, EnqueueNext(t), EnqueueAll(t, |p.buffer| - p.flush.next - 1));
    }
  }

  /** The steps of one flush, taken without interruption, do what the method Flush does. */
  lemma FlushUninterrupted(s: State, t: nat)
    requires t < |s.producers| && s.producers[t].flush.Idle?
    ensures var n := Run(s, [BeginFlush(t)] + (EnqueueAll(t, |s.producers[t].buffer|) + [EndFlush(t)]));
            && n.To? && n.state.queue == s.queue + s.producers[t].buffer
            && n.state.producers == s.producers[t := s.producers[t].(buffer := [], flush := Idle)]
  {
    var n := |s.producers[t].buffer|;
    RunOne(s, BeginFlush(t), EnqueueAll(t, n) + [EndFlush(t)]);
    var s1 := Take(s, BeginFlush(t)).state;
    EnqueueAllRun(s1, t);
    RunConcat(s1, EnqueueAll(t, n), [EndFlush(t)]);
    RunOne(Run(s1, EnqueueAll(t, n)).state, EndFlush(t), []);
  }
}
