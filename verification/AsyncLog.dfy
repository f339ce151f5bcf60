/**
  The asynchronous logger of `core/logs/log.go`: senders, the consumer goroutine of
  `startLogger`, and `Flush` and `Close`, which signal the consumer and wait for it on one
  shared wait group.  Calls of `Flush` and `Close` do not overlap.
 */
module AsyncLog {

  datatype Msg = Msg(text: string)

  datatype Call = Flush | Close

  /** Where the consumer goroutine stands. */
  datatype Consumer =
    | Selecting
    | Writing(m: Msg, k: nat)                        // message of the select loop, next output k
    | Draining(call: Call)                           // about to test len(msgChan) in flush
    | DrainWriting(m: Msg, k: nat, call: Call)
    | Signalling(call: Call)                         // queue found empty, before wg.Done
    | Exited

  /** Where the caller of `Flush` or `Close` stands; `mark` is the number of messages whose send
      had finished when it gave its signal. */
  datatype Caller =
    | NoCall
    | Waiting(call: Call, mark: nat)                 // in wg.Wait
    | Returning(mark: nat)                           // Flush, between Wait and Add(1)
    | LoggerClosed(mark: nat)

  datatype State = State(
    capacity: nat,
    queue: seq<Msg>,                                 // msgChan
    sent: seq<Msg>,                                  // every finished send, in queue order
    written: seq<seq<Msg>>,                          // what each output has been given
    flushSignal: nat,                                // messages in flushChan
    closeSignal: nat,
    wg: int,
    consumer: Consumer,
    caller: Caller)

  datatype Action =
    | Send(m: Msg)
    | TakeMessage
    | TakeFlush
    | TakeClose
    | WriteOutput
    | Drain
    | DrainEmpty
    | Done
    | CallFlush
    | CallClose
    | WaitReturns
    | AddOne

  /** After `Async`. */
  ghost predicate Init(s: State) {
    && s.queue == [] && s.sent == [] && (forall k :: 0 <= k < |s.written| ==> s.written[k] == [])
    && s.flushSignal == 0 && s.closeSignal == 0 && s.wg == 1 && s.consumer == Selecting && s.caller == NoCall
  }

  ghost predicate Step(s: State, a: Action, s': State) {
    match a
    case Send(m) =>
      && |s.queue| < s.capacity && !s.caller.LoggerClosed?
      && s' == s.(queue := s.queue + [m], sent := s.sent + [m])
    case TakeMessage =>
      s.consumer.Selecting? && s.queue != [] && s' == s.(queue := s.queue[1..], consumer := Writing(s.queue[0], 0))
    case TakeFlush =>
      s.consumer.Selecting? && s.flushSignal > 0 && s' == s.(flushSignal := s.flushSignal - 1, consumer := Draining(Flush))
    case TakeClose =>
      s.consumer.Selecting? && s.closeSignal > 0 && s' == s.(closeSignal := s.closeSignal - 1, consumer := Draining(Close))
    case WriteOutput =>
      && (s.consumer.Writing? || s.consumer.DrainWriting?)
      && var k := s.consumer.k;
         if k < |s.written| then
           s' == s.(written := s.written[k := s.written[k] + [s.consumer.m]], consumer := s.consumer.(k := k + 1))
         else
           s' == s.(consumer := if s.consumer.Writing? then Selecting else Draining(s.consumer.call))
    case Drain =>
      s.consumer.Draining? && s.queue != [] &&
      s' == s.(queue := s.queue[1..], consumer := DrainWriting(s.queue[0], 0, s.consumer.call))
    case DrainEmpty => s.consumer.Draining? && s.queue == [] && s' == s.(consumer := Signalling(s.consumer.call))
    case Done =>
      s.consumer.Signalling? &&
      s' == s.(wg := s.wg - 1, consumer := if s.consumer.call.Flush? then Selecting else Exited)
    case CallFlush =>
      s.caller.NoCall? && s.flushSignal < 1 &&
      s' == s.(flushSignal := s.flushSignal + 1, caller := Waiting(Flush, |s.sent|))
    case CallClose =>
      s.caller.NoCall? && s.closeSignal < 1 &&
      s' == s.(closeSignal := s.closeSignal + 1, caller := Waiting(Close, |s.sent|))
    case WaitReturns =>
      s.caller.Waiting? && s.wg == 0 &&
      s' == s.(caller := if s.caller.call.Flush? then Returning(s.caller.mark) else LoggerClosed(s.caller.mark))
    case AddOne => s.caller.Returning? && s' == s.(wg := s.wg + 1, caller := NoCall)
  }

  ghost predicate IsRun(states: seq<State>, actions: seq<Action>) {
    && |states| == |actions| + 1 && Init(states[0])
    && forall i :: 0 <= i < |actions| ==> Step(states[i], actions[i], states[i + 1])
  }

  // ---- the invariant ----

  predicate Busy(c: Consumer) { c.Writing? || c.DrainWriting? }

  /** How many messages have left the queue and been handed to all outputs. */
  ghost function Handled(s: State): int { |s.sent| - |s.queue| - if Busy(s.consumer) then 1 else 0 }

  /** The queue is the tail of what was sent; the message in hand comes right before it; every
      output has been given the messages before that, and the ones served first the message in
      hand as well. */
  ghost predicate InOrder(s: State) {
    var h := Handled(s);
    && 0 <= h && s.queue == s.sent[|s.sent| - |s.queue|..]
    && (Busy(s.consumer) ==> s.sent[h] == s.consumer.m && s.consumer.k <= |s.written|)
    && forall k :: 0 <= k < |s.written| ==>
         s.written[k] == s.sent[..if Busy(s.consumer) && k < s.consumer.k then h + 1 else h]
  }

  predicate Free(c: Consumer) { c.Selecting? || c.Writing? }

  predicate Serves(c: Consumer, call: Call) {
    || (c.Draining? && c.call == call)
    || (c.DrainWriting? && c.call == call)
  }

  /** The protocol between the caller and the consumer, phase by phase. */
  ghost predicate Protocol(s: State) {
    match s.caller
    case NoCall => s.wg == 1 && s.flushSignal == 0 && s.closeSignal == 0 && Free(s.consumer)
    case Waiting(call, mark) =>
      && mark <= |s.sent|
      && (if call.Flush? then s.closeSignal == 0 else s.flushSignal == 0)
      && var signal := if call.Flush? then s.flushSignal else s.closeSignal;
         || (signal == 1 && s.wg == 1 && Free(s.consumer))
         || (signal == 0 && s.wg == 1 && Serves(s.consumer, call))
         || (signal == 0 && s.wg == 1 && s.consumer == Signalling(call) && mark <= Handled(s))
         || (signal == 0 && s.wg == 0 && mark <= Handled(s) && if call.Flush? then Free(s.consumer) else s.consumer.Exited?)
    case Returning(mark) => s.wg == 0 && s.flushSignal == 0 && s.closeSignal == 0 && Free(s.consumer) && mark <= Handled(s)
    case LoggerClosed(mark) => s.wg == 0 && s.flushSignal == 0 && s.closeSignal == 0 && s.consumer.Exited? && mark <= Handled(s)
  }

  lemma SendKeepsOrder(s: State, m: Msg)
    requires InOrder(s)
    ensures var s' := s.(queue := s.queue + [m], sent := s.sent + [m]);
            InOrder(s') && Handled(s') == Handled(s)
  {
    var s' := s.(queue := s.queue + [m], sent := s.sent + [m]);
    var h := Handled(s);
    assert s'.sent[|s'.sent| - |s'.queue|..] == s'.queue;
    assert s'.sent[..h] == s.sent[..h];
    if Busy(s.consumer) {
      assert s'.sent[..h + 1] == s.sent[..h + 1];
    }
  }

  lemma TakeKeepsOrder(s: State, c: Consumer)
    requires InOrder(s) && !Busy(s.consumer) && s.queue != [] && Busy(c) && c.m == s.queue[0] && c.k == 0
    ensures var s' := s.(queue := s.queue[1..], consumer := c);
            InOrder(s') && Handled(s') == Handled(s)
  {
  }

  lemma WriteKeepsOrder(s: State)
    requires InOrder(s) && Busy(s.consumer) && s.consumer.k < |s.written|
    ensures var k := s.consumer.k;
      var s' := s.(written := s.written[k := s.written[k] + [s.consumer.m]], consumer := s.consumer.(k := k + 1));
      InOrder(s') && Handled(s') == Handled(s)
  {
    var h := Handled(s);
    assert s.sent[..h + 1] == s.sent[..h] + [s.sent[h]];
  }

  lemma WrittenKeepsOrder(s: State, c: Consumer)
    requires InOrder(s) && Busy(s.consumer) && s.consumer.k == |s.written| && !Busy(c)
    ensures var s' := s.(consumer := c);
            InOrder(s') && Handled(s') == Handled(s) + 1
  {
  }

  lemma Untouched(s: State, s': State)
    requires InOrder(s) && s'.queue == s.queue && s'.sent == s.sent && s'.written == s.written
    requires Busy(s.consumer) || Busy(s'.consumer) ==> s'.consumer == s.consumer
    ensures InOrder(s') && Handled(s') == Handled(s)
  {
  }

  lemma OtherKeepsOrder(s: State, a: Action, s': State)
    requires InOrder(s) && Step(s, a, s')
    requires !a.Send? && !a.TakeMessage? && !a.Drain? && !a.WriteOutput?
    ensures InOrder(s') && Handled(s) <= Handled(s')
  {
    Untouched(s, s');
  }

  lemma StepKeepsOrder(s: State, a: Action, s': State)
    requires InOrder(s) && Step(s, a, s')
    ensures InOrder(s') && Handled(s) <= Handled(s')
  {
    match a
    case Send(m) => SendKeepsOrder(s, m);
    case TakeMessage => TakeKeepsOrder(s, s'.consumer);
    case Drain => TakeKeepsOrder(s, s'.consumer);
    case WriteOutput =>
      if s.consumer.k < |s.written| {
        WriteKeepsOrder(s);
      } else {
        WrittenKeepsOrder(s, s'.consumer);
      }
    case _ => OtherKeepsOrder(s, a, s');
  }

  lemma StepKeepsProtocol(s: State, a: Action, s': State)
    requires Protocol(s) && Step(s, a, s') && Handled(s) <= Handled(s')
    requires !Busy(s.consumer) && s.queue == [] ==> Handled(s) == |s.sent|
    ensures Protocol(s')
  {
  }

  lemma InitHasInv(s: State)
    requires Init(s)
    ensures InOrder(s) && Protocol(s)
  {
    assert Handled(s) == 0;
    assert s.sent[0..] == [] && s.sent[..0] == [];
  }

  lemma StepKeepsInv(s: State, a: Action, s': State)
    requires InOrder(s) && Protocol(s) && Step(s, a, s')
    ensures InOrder(s') && Protocol(s')
  {
    StepKeepsOrder(s, a, s');
    StepKeepsProtocol(s, a, s');
  }

  lemma {:induction false} RunsKeepInv(states: seq<State>, actions: seq<Action>, n: nat)
    requires IsRun(states, actions) && n < |states|
    ensures InOrder(states[n]) && Protocol(states[n])
    decreases n
  {
    if n == 0 {
      InitHasInv(states[0]);
    } else {
      RunsKeepInv(states, actions, n - 1);
      StepKeepsInv(states[n - 1], actions[n - 1], states[n]);
    }
  }

  /** In every run: the wait counter stays 0 or 1, and each output has been given a prefix of
      the messages in queue order, so none of them twice. */
  lemma RunsAreOrderly(states: seq<State>, actions: seq<Action>, n: nat)
    requires IsRun(states, actions) && n < |states|
    ensures var s := states[n];
      && 0 <= s.wg <= 1
      && forall k :: 0 <= k < |s.written| ==> s.written[k] <= s.sent
  {
    RunsKeepInv(states, actions, n);
  }

  /** When `Flush` or `Close` returns from its wait, every output has been given every message
      whose send had finished before the call, each exactly once and in queue order. */
  lemma WaitReturnsAfterDelivery(states: seq<State>, actions: seq<Action>, n: nat)
    requires IsRun(states, actions) && n < |actions| && actions[n].WaitReturns?
    ensures states[n].caller.Waiting?
    ensures var s := states[n + 1];
      var mark := states[n].caller.mark;
      && mark <= |s.sent|
      && forall k :: 0 <= k < |s.written| ==> s.sent[..mark] <= s.written[k] <= s.sent
  {
    RunsKeepInv(states, actions, n);
    assert Step(states[n], actions[n], states[n + 1]);
  }

  lemma {:induction false} StillWaiting(states: seq<State>, actions: seq<Action>, i: nat, n: nat)
    requires IsRun(states, actions) && i < n <= |actions| && (actions[i].CallFlush? || actions[i].CallClose?)
    requires forall j :: i < j < n ==> !actions[j].WaitReturns?
    ensures states[n].caller == Waiting(if actions[i].CallFlush? then Flush else Close, |states[i].sent|)
    ensures states[i].sent <= states[n].sent
    decreases n
  {
    assert Step(states[n - 1], actions[n - 1], states[n]);
    if i + 1 < n {
      StillWaiting(states, actions, i, n - 1);
    }
  }

  /** From the call to the return of its wait: every message whose send had finished when
      `Flush` or `Close` was called has been given to every output, exactly once and in queue
      order, whatever was sent and written in between. */
  lemma CallDelivers(states: seq<State>, actions: seq<Action>, i: nat, n: nat)
    requires IsRun(states, actions) && i < n < |actions| && (actions[i].CallFlush? || actions[i].CallClose?)
    requires actions[n].WaitReturns? && forall j :: i < j < n ==> !actions[j].WaitReturns?
    ensures var before, s := states[i].sent, states[n + 1];
            forall k :: 0 <= k < |s.written| ==> before <= s.written[k] <= s.sent
  {
    StillWaiting(states, actions, i, n);
    WaitReturnsAfterDelivery(states, actions, n);
    assert Step(states[n], actions[n], states[n + 1]);
    assert states[n + 1].sent[..|states[i].sent|] == states[i].sent;
  }

  /** A waiting caller never depends on a further message: the consumer or the caller itself
      can always take a step. */
  lemma WaitNeverStuck(states: seq<State>, actions: seq<Action>, n: nat) returns (a: Action, s': State)
    requires IsRun(states, actions) && n < |states| && states[n].caller.Waiting?
    ensures Step(states[n], a, s') && !a.Send?
  {
    RunsKeepInv(states, actions, n);
    var s := states[n];
    var call := s.caller.call;
    if s.wg == 0 {
      a, s' := WaitReturns, s.(caller := if call.Flush? then Returning(s.caller.mark) else LoggerClosed(s.caller.mark));
    } else if Busy(s.consumer) {
      a, s' := WriteOne(s);
    } else if s.consumer.Signalling? {
      a, s' := Done, s.(wg := s.wg - 1, consumer := if s.consumer.call.Flush? then Selecting else Exited);
    } else if s.consumer.Selecting? {
      a := if call.Flush? then TakeFlush else TakeClose;
      s' := if call.Flush? then s.(flushSignal := s.flushSignal - 1, consumer := Draining(Flush))
            else s.(closeSignal := s.closeSignal - 1, consumer := Draining(Close));
    } else if s.queue == [] {
      a, s' := DrainEmpty, s.(consumer := Signalling(s.consumer.call));
    } else {
      a, s' := Drain, s.(queue := s.queue[1..], consumer := DrainWriting(s.queue[0], 0, s.consumer.call));
    }
  }

  lemma WriteOne(s: State) returns (a: Action, s': State)
    requires Busy(s.consumer)
    ensures Step(s, a, s') && !a.Send?
  {
    var k := s.consumer.k;
    a := WriteOutput;
    if k < |s.written| {
      s' := s.(written := s.written[k := s.written[k] + [s.consumer.m]], consumer := s.consumer.(k := k + 1));
    } else {
      s' := s.(consumer := if s.consumer.Writing? then Selecting else Draining(s.consumer.call));
    }
  }
}
