/** The task manager of `task/task.go`: the wake-up routine, and every run of the manager loop. */
module TaskManager {
  import opened Text
  import opened Calendar
  import opened CronSchedule

  // ---- tasks and the wake-up routine, as the source updates them ----

  class Task {
    const spec: Schedule
    var prev: Option<int>
    var next: Option<int>   // None is the zero time

    constructor (spec: Schedule)
      ensures this.spec == spec && prev == None && next == None
    {
      this.spec, prev, next := spec, None, None;
    }

    method SetNext(sec: int, nano: nat)
      requires nano < 1_000_000_000
      modifies this`next
      ensures next == NextOf(spec, sec)
    {
      next := Next(spec, sec, nano);
    }

    method SetPrev(now: Option<int>)
      modifies this`prev
      ensures prev == now
    {
      prev := now;
    }
  }

  function NextsOf(vals: seq<Task>): seq<Option<int>>
    reads vals
  {
    seq(|vals|, i requires 0 <= i < |vals| reads vals => vals[i].next)
  }

  /** `n` ends the longest prefix of a list that is due, by the next times of its entries, and
      repeats no entry. */
  ghost predicate DuePrefix<T>(list: seq<T>, nexts: seq<Option<int>>, effective: int, n: nat)
    requires |nexts| == |list|
  {
    && n <= |list|
    && (forall i, j :: 0 <= i < j < n ==> list[i] != list[j])
    && (forall i :: 0 <= i < n ==> nexts[i] == Some(effective))
    && (n < |list| ==> list[n] in list[..n] || nexts[n] != Some(effective))
  }

  /** It depends only on which entries are the same. */
  lemma OneDuePrefix<T, U>(a: seq<T>, b: seq<U>, nexts: seq<Option<int>>, effective: int, n: nat, m: nat)
    requires |a| == |b| == |nexts| && forall i, j :: 0 <= i < j < |a| ==> (a[i] == a[j] <==> b[i] == b[j])
    requires DuePrefix(a, nexts, effective, n) && DuePrefix(b, nexts, effective, m)
    ensures n == m
  {
  }

  /** `runNextTasks`: walks the sorted snapshot and fires while the next time is `effective`. */
  method RunNextTasks(vals: seq<Task>, effective: int) returns (fired: seq<Task>)
    modifies vals
    ensures fired <= vals && DuePrefix(vals, old(NextsOf(vals)), effective, |fired|)
    ensures forall t <- fired :: t.prev == Some(effective) && t.next == NextOf(t.spec, effective)
    ensures forall t <- vals :: t !in fired ==> t.prev == old(t.prev) && t.next == old(t.next)
  {
    fired := [];
    for i := 0 to |vals|
      invariant fired == vals[..i]
      invariant forall j, k :: 0 <= j < k < |fired| ==> fired[j] != fired[k]
      invariant forall t <- fired :: old(t.next) == Some(effective)
      invariant forall t <- fired :: t.prev == Some(effective) && t.next == NextOf(t.spec, effective)
      invariant forall t <- vals :: t !in fired ==> t.prev == old(t.prev) && t.next == old(t.next)
    {
      var e := vals[i];
      if e.next != Some(effective) {
        break;
      }
      NextIsLater(e.spec, effective);
      e.SetPrev(e.next);
      e.SetNext(effective, 0);
      fired := fired + [e];
    }
  }

  lemma NextIsLater(spec: Schedule, sec: int)
    ensures NextOf(spec, sec).Some? ==> NextOf(spec, sec).value > sec && Matches(spec, NextOf(spec, sec).value)
  {
    ScanIsNext(spec, sec + 1, Year(sec + 1) + 5);
  }

  // ---- the whole manager, as a transition system ----

  type Id = nat

  datatype TaskState = TaskState(spec: Schedule, next: Option<int>)

  /** What the history of a run records: a call of `Tasker.Run` for the instant `at`, and that
      tasks were given their next times from the clock. */
  datatype Event =
    | Fired(id: Id, at: int)
    | Started(ids: set<Id>, at: int)

  /** Where `run` stands: about to take a snapshot, or waiting on its timer.  `seen` records
      the next times the snapshot was sorted by. */
  datatype Phase =
    | Looping
    | Waiting(list: seq<Id>, effective: int, seen: map<Id, Option<int>>)

  datatype State = State(
    clock: int,                  // whole seconds
    tasks: map<Id, TaskState>,   // every task object ever made
    names: map<string, Id>,      // adminTaskList
    phase: Phase,
    events: seq<Event>)          // in order

  datatype Action =
    | Pass(to: int)
    | Snapshot(keys: seq<string>, list: seq<Id>)
    | Wake
    | Reset
    | AddTask(name: string, id: Id, spec: Schedule)
    | DeleteTask(name: string)
    | ClearTask

  /** `MapSorter.Less`: the zero time sorts last. */
  predicate Less(a: Option<int>, b: Option<int>) {
    if a.None? then false else if b.None? then true else a.value < b.value
  }

  function NextTime(s: State, id: Id): Option<int> { if id in s.tasks then s.tasks[id].next else None }

  /** A sorted `MapSorter`: the names and tasks of the registry side by side, every name once,
      and no task before a smaller one. */
  ghost predicate SortedSnapshot(s: State, keys: seq<string>, list: seq<Id>) {
    && |keys| == |list| && Distinct(keys) && (forall k :: k in keys <==> k in s.names)
    && (forall i :: 0 <= i < |keys| ==> list[i] == s.names[keys[i]])
    && (forall i, j :: 0 <= i < j < |list| ==> !Less(NextTime(s, list[j]), NextTime(s, list[i])))
  }

  ghost predicate Distinct<T>(list: seq<T>) { forall i, j :: 0 <= i < j < |list| ==> list[i] != list[j] }

  /** Every task is registered under one name. */
  ghost predicate RegisteredOnce(s: State) {
    forall a, b :: a in s.names && b in s.names && s.names[a] == s.names[b] ==> a == b
  }

  /** The tasks of a snapshot are the registered ones, each once when it is registered once. */
  lemma SnapshotTasks(s: State, keys: seq<string>, list: seq<Id>)
    requires SortedSnapshot(s, keys, list)
    ensures forall id :: id in list <==> id in s.names.Values
    ensures RegisteredOnce(s) <==> Distinct(list)
  {
    forall id | id in s.names.Values
      ensures id in list
    {
      var k :| k in s.names && s.names[k] == id;
      var i :| 0 <= i < |keys| && keys[i] == k;
      assert list[i] == id;
    }
    if Distinct(list) {
      forall a, b | a in s.names && b in s.names && s.names[a] == s.names[b]
        ensures a == b
      {
        var i :| 0 <= i < |keys| && keys[i] == a;
        var j :| 0 <= j < |keys| && keys[j] == b;
        assert list[i] == list[j];
      }
    }
  }

  /** Every task has its next time set from the clock. */
  ghost function Restarted(s: State): map<Id, TaskState> {
    map id | id in s.tasks ::
      if id in s.names.Values then s.tasks[id].(next := NextOf(s.tasks[id].spec, s.clock)) else s.tasks[id]
  }

  ghost function RegisteredIds(s: State): set<Id> { set id | id in s.tasks && id in s.names.Values }

  ghost function FireOne(s: State, id: Id, effective: int): State
    requires id in s.tasks
  {
    s.(tasks := s.tasks[id := s.tasks[id].(next := NextOf(s.tasks[id].spec, effective))],
       events := s.events + [Fired(id, effective)])
  }

  /** `runNextTasks` on states. */
  ghost function RunDue(s: State, list: seq<Id>, effective: int): State
    decreases |list|
  {
    if list == [] || NextTime(s, list[0]) != Some(effective) then s
    else RunDue(FireOne(s, list[0], effective), list[1..], effective)
  }

  ghost predicate Init(s: State) {
    && s.names == map[] && s.events == [] && s.phase == Looping
    && forall id <- s.tasks :: s.tasks[id].next == None
  }

  ghost predicate Step(s: State, a: Action, s': State) {
    match a
    case Pass(to) => s.clock <= to && s' == s.(clock := to)
    case Snapshot(keys, list) =>
      && s.phase.Looping? && SortedSnapshot(s, keys, list)
      && var effective := if list == [] || NextTime(s, list[0]).None? then AddDate(s.clock, 10, 0, 0)
                          else NextTime(s, list[0]).value;
         s' == s.(phase := Waiting(list, effective, map id | id in list :: NextTime(s, id)))
    case Wake =>
      && s.phase.Waiting? && s.phase.effective <= s.clock
      && s' == RunDue(s, s.phase.list, s.phase.effective).(phase := Looping)
    case Reset =>
      s' == s.(tasks := Restarted(s), phase := Looping, events := s.events + [Started(RegisteredIds(s), s.clock)])
    case AddTask(name, id, spec) =>
      && (id in s.tasks ==> s.tasks[id].spec == spec)
      && s' == s.(tasks := s.tasks[id := TaskState(spec, NextOf(spec, s.clock))], names := s.names[name := id],
                  events := s.events + [Started({id}, s.clock)])
    case DeleteTask(name) => s' == s.(names := s.names - {name})
    case ClearTask => s' == s.(names := map[])
  }

  ghost predicate IsRun(states: seq<State>, actions: seq<Action>) {
    && |states| == |actions| + 1 && Init(states[0])
    && forall i :: 0 <= i < |actions| ==> Step(states[i], actions[i], states[i + 1])
  }

  // ---- what every run keeps ----

  ghost predicate Concerns(e: Event, id: Id) {
    match e
    case Fired(x, _) => x == id
    case Started(ids, _) => id in ids
  }

  /** `r` is the first firing instant after `u`, searched as far as `Next` does. */
  ghost predicate NextAfter(spec: Schedule, u: int, r: Option<int>) { IsNext(spec, u + 1, Year(u + 1) + 5, r) }

  ghost predicate Last(events: seq<Event>, id: Id, j: int) {
    && 0 <= j < |events| && Concerns(events[j], id)
    && forall i :: j < i < |events| ==> !Concerns(events[i], id)
  }

  /** Events `j` and `k` concern a task and none between them does. */
  ghost predicate Consecutive(events: seq<Event>, id: Id, j: int, k: int) {
    0 <= k < |events| && Concerns(events[k], id) && Last(events[..k], id, j)
  }

  /** A fire matches the schedule, and no event lies in the future. */
  ghost predicate Sound(s: State, e: Event) {
    && e.at <= s.clock
    && match e
       case Fired(id, at) => id in s.tasks && Matches(s.tasks[id].spec, at)
       case Started(ids, _) => ids <= s.tasks.Keys
  }

  /** The events of one task are in order, and a fire lies beyond all of them. */
  ghost predicate Ordered(events: seq<Event>) {
    forall j, k, id :: 0 <= j < k < |events| && Concerns(events[j], id) && Concerns(events[k], id)
      ==> if events[k].Fired? then events[j].at < events[k].at else events[j].at <= events[k].at
  }

  /** A fire comes after another event of its task, at the first firing instant after it. */
  ghost predicate NothingSkipped(s: State, k: int)
    requires 0 <= k < |s.events|
  {
    s.events[k].Fired? ==>
      && s.events[k].id in s.tasks
      && (exists j :: Consecutive(s.events, s.events[k].id, j, k))
      && forall j :: Consecutive(s.events, s.events[k].id, j, k) ==>
           NextAfter(s.tasks[s.events[k].id].spec, s.events[j].at, Some(s.events[k].at))
  }

  /** The time a task has pending is the first firing instant after its last event. */
  ghost predicate Timely(s: State, id: Id)
    requires id in s.tasks
  {
    && (forall j :: Last(s.events, id, j) ==> NextAfter(s.tasks[id].spec, s.events[j].at, s.tasks[id].next))
    && ((forall e <- s.events :: !Concerns(e, id)) ==> s.tasks[id].next.None?)
  }

  ghost predicate Inv(s: State) {
    && (forall e <- s.events :: Sound(s, e))
    && Ordered(s.events)
    && (forall k :: 0 <= k < |s.events| ==> NothingSkipped(s, k))
    && (forall id <- s.tasks :: Timely(s, id))
  }

  lemma {:induction false} LastOf(events: seq<Event>, id: Id) returns (j: int)
    requires exists e <- events :: Concerns(e, id)
    ensures Last(events, id, j)
  {
    var n := |events| - 1;
    if Concerns(events[n], id) {
      j := n;
    } else {
      var e :| e in events && Concerns(e, id);
      assert events == events[..n] + [events[n]];
      assert e in events[..n];
      j := LastOf(events[..n], id);
    }
  }

  /** The instant a task waits for lies beyond all its events. */
  lemma PendingIsLater(s: State, id: Id) returns (j: int)
    requires Inv(s) && id in s.tasks && s.tasks[id].next.Some?
    ensures Last(s.events, id, j) && NextAfter(s.tasks[id].spec, s.events[j].at, s.tasks[id].next)
    ensures forall i :: 0 <= i < |s.events| && Concerns(s.events[i], id) ==> s.events[i].at < s.tasks[id].next.value
  {
    assert Timely(s, id);
    j := LastOf(s.events, id);
  }

  /** The step adds one event; the tasks it concerns wait for their first firing instant after
      it, the others wait for what they did. */
  ghost predicate Adds(s: State, e: Event, s': State) {
    && s'.events == s.events + [e] && s'.clock == s.clock
    && s.tasks.Keys <= s'.tasks.Keys
    && (forall id <- s.tasks :: s'.tasks[id].spec == s.tasks[id].spec)
    && (forall id <- s'.tasks :: Concerns(e, id) ==> NextAfter(s'.tasks[id].spec, e.at, s'.tasks[id].next))
    && (forall id <- s'.tasks :: !Concerns(e, id) ==> id in s.tasks && s'.tasks[id].next == s.tasks[id].next)
    && (e.Fired? ==> NextTime(s, e.id) == Some(e.at))
    && (e.Started? ==> e.at == s.clock)
    && Sound(s', e)
  }

  lemma AddsOrdered(s: State, e: Event, s': State)
    requires Inv(s) && Adds(s, e, s')
    ensures Ordered(s'.events)
  {
    forall i, id | 0 <= i < |s.events| && Concerns(s.events[i], id) && Concerns(e, id)
      ensures if e.Fired? then s.events[i].at < e.at else s.events[i].at <= e.at
    {
      assert Sound(s, s.events[i]);
      if e.Fired? {
        var j := PendingIsLater(s, id);
      }
    }
  }

  lemma AddsSound(s: State, e: Event, s': State, x: Event)
    requires Inv(s) && Adds(s, e, s') && x in s'.events
    ensures Sound(s', x)
  {
    if x in s.events {
      assert Sound(s, x);
    }
  }

  lemma LastAdded(events: seq<Event>, e: Event, id: Id, j: int)
    requires Last(events + [e], id, j)
    ensures if Concerns(e, id) then j == |events| else j < |events| && Last(events, id, j)
  {
    var all := events + [e];
    assert all[|events|] == e;
    assert forall i :: 0 <= i < |events| ==> all[i] == events[i];
  }

  lemma AddsTimely(s: State, e: Event, s': State, id: Id)
    requires Inv(s) && Adds(s, e, s') && id in s'.tasks
    ensures Timely(s', id)
  {
    assert Concerns(e, id) ==> e in s'.events;
    assert !Concerns(e, id) ==> Timely(s, id) && forall x <- s.events :: x in s'.events;
    forall j | Last(s'.events, id, j)
      ensures NextAfter(s'.tasks[id].spec, s'.events[j].at, s'.tasks[id].next)
    {
      LastAdded(s.events, e, id, j);
    }
  }

  lemma AddsNoSkip(s: State, e: Event, s': State, k: int)
    requires Inv(s) && Adds(s, e, s') && 0 <= k < |s'.events|
    ensures NothingSkipped(s', k)
  {
    if k < |s.events| {
      assert s'.events[..k] == s.events[..k];
      OldFire(s, s', k);
    } else if e.Fired? {
      assert s'.events[..k] == s.events;
      var j := PendingIsLater(s, e.id);
      assert Consecutive(s'.events, e.id, j, k);
    }
  }

  lemma OldFire(s: State, s': State, k: int)
    requires 0 <= k < |s.events| <= |s'.events| && s'.events[..k + 1] == s.events[..k + 1]
    requires NothingSkipped(s, k)
    requires s.tasks.Keys <= s'.tasks.Keys && forall id <- s.tasks :: s'.tasks[id].spec == s.tasks[id].spec
    ensures NothingSkipped(s', k)
  {
    var e := s.events[k];
    assert s'.events[k] == s'.events[..k + 1][k] == e;
    assert s'.events[..k] == s'.events[..k + 1][..k] == s.events[..k];
    if e.Fired? {
      var i :| Consecutive(s.events, e.id, i, k);
      assert Consecutive(s'.events, e.id, i, k);
      forall j | Consecutive(s'.events, e.id, j, k)
        ensures NextAfter(s'.tasks[e.id].spec, s'.events[j].at, Some(e.at))
      {
        assert s'.events[j] == s'.events[..k][j];
        assert Consecutive(s.events, e.id, j, k);
      }
    }
  }

  lemma AddsKeeps(s: State, e: Event, s': State)
    requires Inv(s) && Adds(s, e, s')
    ensures Inv(s')
  {
    AddsOrdered(s, e, s');
    forall x | x in s'.events
      ensures Sound(s', x)
    {
      AddsSound(s, e, s', x);
    }
    forall k | 0 <= k < |s'.events|
      ensures NothingSkipped(s', k)
    {
      AddsNoSkip(s, e, s', k);
    }
    forall id | id in s'.tasks
      ensures Timely(s', id)
    {
      AddsTimely(s, e, s', id);
    }
  }

  lemma NextOfIsNext(spec: Schedule, sec: int)
    ensures NextAfter(spec, sec, NextOf(spec, sec))
  {
    ScanIsNext(spec, sec + 1, Year(sec + 1) + 5);
  }

  lemma FireOneKeeps(s: State, id: Id, effective: int)
    requires Inv(s) && effective <= s.clock && NextTime(s, id) == Some(effective)
    ensures Inv(FireOne(s, id, effective))
  {
    var s' := FireOne(s, id, effective);
    NextOfIsNext(s.tasks[id].spec, effective);
    var j := PendingIsLater(s, id);
    AddsKeeps(s, Fired(id, effective), s');
  }

  lemma {:induction false} RunDueKeeps(s: State, list: seq<Id>, effective: int)
    requires Inv(s) && effective <= s.clock
    ensures Inv(RunDue(s, list, effective))
    decreases |list|
  {
    if list != [] && NextTime(s, list[0]) == Some(effective) {
      FireOneKeeps(s, list[0], effective);
      RunDueKeeps(FireOne(s, list[0], effective), list[1..], effective);
    }
  }

  lemma ResetKeeps(s: State, a: Action, s': State)
    requires Inv(s) && a.Reset? && Step(s, a, s')
    ensures Inv(s')
  {
    var e := Started(RegisteredIds(s), s.clock);
    forall id | id in s'.tasks && Concerns(e, id)
      ensures NextAfter(s'.tasks[id].spec, e.at, s'.tasks[id].next)
    {
      NextOfIsNext(s.tasks[id].spec, s.clock);
    }
    AddsKeeps(s, e, s');
  }

  lemma AddKeeps(s: State, a: Action, s': State)
    requires Inv(s) && a.AddTask? && Step(s, a, s')
    ensures Inv(s')
  {
    NextOfIsNext(a.spec, s.clock);
    AddsKeeps(s, Started({a.id}, s.clock), s');
  }

  /** The clock moves on, the registry and the phase change; tasks and events do not. */
  lemma OthersKeep(s: State, s': State)
    requires Inv(s) && s'.events == s.events && s'.tasks == s.tasks && s.clock <= s'.clock
    ensures Inv(s')
  {
    forall x | x in s'.events
      ensures Sound(s', x)
    {
      assert Sound(s, x);
    }
    forall k | 0 <= k < |s'.events|
      ensures NothingSkipped(s', k)
    {
      OldFire(s, s', k);
    }
    forall id | id in s'.tasks
      ensures Timely(s', id)
    {
      assert Timely(s, id);
    }
  }

  lemma StepKeepsInv(s: State, a: Action, s': State)
    requires Inv(s) && Step(s, a, s')
    ensures Inv(s')
  {
    match a
    case Wake =>
      RunDueKeeps(s, s.phase.list, s.phase.effective);
      OthersKeep(RunDue(s, s.phase.list, s.phase.effective), s');
    case Reset => ResetKeeps(s, a, s');
    case AddTask(_, _, _) => AddKeeps(s, a, s');
    case _ => OthersKeep(s, s');
  }

  /** In every state of every run, the events of a task are in order and its fires match its
      schedule; what it has pending is its first firing instant after the last event. */
  lemma {:induction false} RunsFireInOrder(states: seq<State>, actions: seq<Action>, n: nat)
    requires IsRun(states, actions) && n < |states|
    ensures Inv(states[n])
    decreases n
  {
    if n > 0 {
      RunsFireInOrder(states, actions, n - 1);
      StepKeepsInv(states[n - 1], actions[n - 1], states[n]);
    }
  }

  /** No run passes over an instant: between a fire and the event of its task before it, which
      there is, no instant fires. */
  lemma RunsSkipNothing(states: seq<State>, actions: seq<Action>, n: nat, k: nat) returns (j: int)
    requires IsRun(states, actions) && n < |states| && k < |states[n].events| && states[n].events[k].Fired?
    ensures var s, e := states[n], states[n].events[k];
      && e.id in s.tasks && Fires(s.tasks[e.id].spec, e.at)
      && Consecutive(s.events, e.id, j, k) && s.events[j].at < e.at
      && forall u :: s.events[j].at < u < e.at ==> !Fires(s.tasks[e.id].spec, u)
  {
    RunsFireInOrder(states, actions, n);
    var s, e := states[n], states[n].events[k];
    assert NothingSkipped(s, k);
    j :| Consecutive(s.events, e.id, j, k);
    assert NextAfter(s.tasks[e.id].spec, s.events[j].at, Some(e.at));
    forall u | s.events[j].at < u <= e.at
      ensures Matches(s.tasks[e.id].spec, u) <==> Fires(s.tasks[e.id].spec, u)
    {
      MatchesIsFires(s.tasks[e.id].spec, u);
    }
  }

  lemma StepHistory(s: State, a: Action, s': State)
    requires Step(s, a, s')
    ensures s.events <= s'.events
    ensures a.AddTask? ==> s'.events == s.events + [Started({a.id}, s.clock)]
    ensures a.Reset? ==> s'.events == s.events + [Started(RegisteredIds(s), s.clock)]
  {
    if a.Wake? {
      var n := RunDueFires(s, s.phase.list, s.phase.effective);
    }
  }

  lemma {:induction false} HistoryGrows(states: seq<State>, actions: seq<Action>, i: nat, n: nat)
    requires IsRun(states, actions) && i <= n < |states|
    ensures states[i].events <= states[n].events
    decreases n
  {
    if i < n {
      HistoryGrows(states, actions, i, n - 1);
      StepHistory(states[n - 1], actions[n - 1], states[n]);
    }
  }

  /** The action gives task `id` its next time from the clock. */
  ghost predicate Starts(s: State, a: Action, id: Id) {
    || (a.AddTask? && a.id == id)
    || (a.Reset? && id in s.tasks && id in s.names.Values)
  }

  /** A task that was registered or restarted at clock time `c` fires next, if it does before the
      next start, at its first firing instant after `c`. */
  lemma FirstFireAfterStart(states: seq<State>, actions: seq<Action>, i: nat, n: nat, k: nat, id: Id)
    requires IsRun(states, actions) && i < n < |states| && Starts(states[i], actions[i], id)
    requires |states[i].events| < k < |states[n].events| && states[n].events[k].Fired? && states[n].events[k].id == id
    requires forall x :: |states[i].events| < x < k ==> !Concerns(states[n].events[x], id)
    ensures id in states[n].tasks
    ensures var c, spec, t := states[i].clock, states[n].tasks[id].spec, states[n].events[k].at;
      c < t && Fires(spec, t) && forall u :: c < u < t ==> !Fires(spec, u)
  {
    var b := |states[i].events|;
    StepHistory(states[i], actions[i], states[i + 1]);
    HistoryGrows(states, actions, i + 1, n);
    var e := states[n].events[b];
    assert e == states[i + 1].events[b] && Concerns(e, id) && e.at == states[i].clock;
    var j := RunsSkipNothing(states, actions, n, k);
    assert Last(states[n].events[..k], id, j) && Last(states[n].events[..k], id, b);
  }

  // ---- what one wake-up fires ----

  ghost function FiredAs(ids: seq<Id>, at: int): seq<Event> {
    seq(|ids|, i requires 0 <= i < |ids| => Fired(ids[i], at))
  }

  ghost function NextTimes(s: State, list: seq<Id>): seq<Option<int>> {
    seq(|list|, i requires 0 <= i < |list| => NextTime(s, list[i]))
  }

  /** Exactly the tasks `ids` have new next times, their first firing instants after `effective`. */
  ghost predicate Advanced(s: State, ids: seq<Id>, effective: int, s': State) {
    && s'.tasks.Keys == s.tasks.Keys && s'.names == s.names && s'.clock == s.clock
    && (forall id <- s.tasks :: s'.tasks[id].spec == s.tasks[id].spec)
    && (forall id <- s.tasks :: id in ids ==> s'.tasks[id].next == NextOf(s.tasks[id].spec, effective))
    && (forall id <- s.tasks :: id !in ids ==> s'.tasks[id].next == s.tasks[id].next)
  }

  /** A wake-up fires the longest prefix of the snapshot that is due and names no task twice. */
  lemma {:induction false} RunDueFires(s: State, list: seq<Id>, effective: int) returns (n: nat)
    ensures n <= |list|
    ensures RunDue(s, list, effective).events == s.events + FiredAs(list[..n], effective)
    ensures Distinct(list[..n]) && forall id <- list[..n] :: NextTime(s, id) == Some(effective)
    ensures n < |list| ==> list[n] in list[..n] || NextTime(s, list[n]) != Some(effective)
    decreases |list|
  {
    if list == [] || NextTime(s, list[0]) != Some(effective) {
      n := 0;
    } else {
      var s1 := FireOne(s, list[0], effective);
      NextIsLater(s.tasks[list[0]].spec, effective);
      var m := RunDueFires(s1, list[1..], effective);
      n := m + 1;
      assert list[0] !in list[1..][..m];
      assert list[..n] == [list[0]] + list[1..][..m];
      assert s1.events + FiredAs(list[1..][..m], effective) == s.events + FiredAs(list[..n], effective);
    }
  }

  lemma {:induction false} RunDueAdvances(s: State, list: seq<Id>, effective: int, n: nat)
    requires n <= |list| && RunDue(s, list, effective).events == s.events + FiredAs(list[..n], effective)
    ensures Advanced(s, list[..n], effective, RunDue(s, list, effective))
    decreases |list|
  {
    if list == [] || NextTime(s, list[0]) != Some(effective) {
      assert |FiredAs(list[..n], effective)| == n == 0;
    } else {
      var s1 := FireOne(s, list[0], effective);
      var m := RunDueFires(s1, list[1..], effective);
      assert |FiredAs(list[..n], effective)| == n && |FiredAs(list[1..][..m], effective)| == m;
      RunDueAdvances(s1, list[1..], effective, m);
      assert list[..n] == [list[0]] + list[1..][..m];
      AdvanceOneMore(s, list[0], list[1..][..m], effective, RunDue(s1, list[1..], effective));
    }
  }

  lemma AdvanceOneMore(s: State, id: Id, rest: seq<Id>, effective: int, s': State)
    requires id in s.tasks && Advanced(FireOne(s, id, effective), rest, effective, s')
    ensures Advanced(s, [id] + rest, effective, s')
  {
  }

  lemma FiredIsDuePrefix(s: State, list: seq<Id>, effective: int, n: nat)
    requires n <= |list| && Distinct(list[..n]) && forall id <- list[..n] :: NextTime(s, id) == Some(effective)
    requires n < |list| ==> list[n] in list[..n] || NextTime(s, list[n]) != Some(effective)
    ensures DuePrefix(list, NextTimes(s, list), effective, n)
  {
    assert forall i :: 0 <= i < n ==> list[..n][i] == list[i] && list[i] in list[..n];
  }

  /** `runNextTasks` on the task objects of a snapshot fires as many of them as the transition
      fires of their identities, and the next times it leaves behind are the same. */
  lemma SameWakeUp<T>(vals: seq<T>, s: State, list: seq<Id>, effective: int, n: nat)
    requires |vals| == |list| && forall i, j :: 0 <= i < j < |vals| ==> (vals[i] == vals[j] <==> list[i] == list[j])
    requires DuePrefix(vals, NextTimes(s, list), effective, n)
    ensures RunDue(s, list, effective).events == s.events + FiredAs(list[..n], effective)
    ensures Advanced(s, list[..n], effective, RunDue(s, list, effective))
  {
    var m := RunDueFires(s, list, effective);
    FiredIsDuePrefix(s, list, effective, m);
    OneDuePrefix(vals, list, NextTimes(s, list), effective, n, m);
    RunDueAdvances(s, list, effective, n);
  }

  /** The task objects of a snapshot and their identities. */
  ghost predicate Represents(vals: seq<Task>, s: State, list: seq<Id>)
    reads vals
  {
    && |vals| == |list| && (forall i, j :: 0 <= i < j < |vals| ==> (vals[i] == vals[j] <==> list[i] == list[j]))
    && forall i :: 0 <= i < |vals| ==> list[i] in s.tasks && s.tasks[list[i]] == TaskState(vals[i].spec, vals[i].next)
  }

  /** The routine on task objects is the transition on their identities. */
  method WakeUp(vals: seq<Task>, effective: int, ghost s: State, ghost list: seq<Id>) returns (fired: seq<Task>)
    requires Represents(vals, s, list)
    modifies vals
    ensures fired <= vals && RunDue(s, list, effective).events == s.events + FiredAs(list[..|fired|], effective)
    ensures Represents(vals, RunDue(s, list, effective), list)
  {
    assert NextTimes(s, list) == NextsOf(vals);
    fired := RunNextTasks(vals, effective);
    ghost var n := |fired|;
    SameWakeUp(vals, s, list, effective, n);
    forall i | 0 <= i < |vals|
      ensures vals[i] in fired <==> list[i] in list[..n]
    {
      SameMember(vals, list, n, i);
    }
  }

  lemma SameMember<T, U>(a: seq<T>, b: seq<U>, n: nat, i: nat)
    requires |a| == |b| && forall i, j :: 0 <= i < j < |a| ==> (a[i] == a[j] <==> b[i] == b[j])
    requires n <= |a| && i < |a|
    ensures a[i] in a[..n] <==> b[i] in b[..n]
  {
    if a[i] in a[..n] {
      var j :| 0 <= j < n && a[..n][j] == a[i];
      assert b[..n][j] == b[i];
    }
    if b[i] in b[..n] {
      var j :| 0 <= j < n && b[..n][j] == b[i];
      assert a[..n][j] == a[i];
    }
  }

  /** The earliest non-zero next time among the registered tasks. */
  ghost predicate Earliest(s: State, at: int) {
    && (exists id <- s.names.Values :: NextTime(s, id) == Some(at))
    && (forall id <- s.names.Values :: NextTime(s, id).Some? ==> at <= NextTime(s, id).value)
  }

  lemma SnapshotIsEarliest(s: State, keys: seq<string>, list: seq<Id>)
    requires SortedSnapshot(s, keys, list) && list != [] && NextTime(s, list[0]).Some?
    ensures Earliest(s, NextTime(s, list[0]).value)
  {
    SnapshotTasks(s, keys, list);
    assert list[0] in list;
    forall id | id in s.names.Values && NextTime(s, id).Some?
      ensures NextTime(s, list[0]).value <= NextTime(s, id).value
    {
      var i :| 0 <= i < |list| && list[i] == id;
    }
  }

  ghost predicate SortedBy(next: Id -> Option<int>, list: seq<Id>) {
    forall i, j :: 0 <= i < j < |list| ==> !Less(next(list[j]), next(list[i]))
  }

  /** In a sorted list the entries that share the least next time come first, in one block. */
  lemma DueComeFirst(next: Id -> Option<int>, list: seq<Id>, effective: int, n: nat, i: nat)
    requires SortedBy(next, list) && n <= i < |list|
    requires next(list[0]).Some? ==> next(list[0]) == Some(effective)
    requires next(list[n]) != Some(effective)
    ensures next(list[i]) != Some(effective)
  {
    assert n < i ==> !Less(next(list[i]), next(list[n]));
    assert 0 < n ==> !Less(next(list[n]), next(list[0]));
  }

  /** A snapshot of `s0`, a wake-up in `s` with the next times of the snapshot unchanged:
      when every task is registered once, exactly the tasks due at the earliest non-zero
      next time fire, once each, and nothing fires when no next time is set. */
  lemma WakeFiresExactlyTheDue(s0: State, keys: seq<string>, list: seq<Id>, s1: State, s: State, s': State) returns (due: seq<Id>)
    requires Step(s0, Snapshot(keys, list), s1)
    requires s.phase == s1.phase && Step(s, Wake, s')
    requires forall id <- list :: NextTime(s, id) == s.phase.seen[id]
    requires RegisteredOnce(s0)
    ensures s'.events == s.events + FiredAs(due, s.phase.effective) && Distinct(due)
    ensures forall id :: id in due <==> id in s0.names.Values && NextTime(s0, id) == Some(s.phase.effective)
    ensures due == [] || Earliest(s0, s.phase.effective)
    ensures due == [] <==> forall id <- s0.names.Values :: NextTime(s0, id).None?
  {
    TakenSnapshot(s0, keys, list, s1);
    forall id | id in list
      ensures NextTime(s, id) == NextTime(s0, id)
    {
      assert s1.phase.seen[id] == NextTime(s0, id);
    }
    due := WakeFiresListed(s0, s, list, s.phase.effective);
    if due != [] {
      assert due[0] in list[..|due|];
      SnapshotIsEarliest(s0, keys, list);
    }
  }

  /** What a snapshot step leaves for the wake-up. */
  lemma TakenSnapshot(s0: State, keys: seq<string>, list: seq<Id>, s1: State)
    requires Step(s0, Snapshot(keys, list), s1) && RegisteredOnce(s0)
    ensures SortedSnapshot(s0, keys, list) && Distinct(list) && (forall id :: id in list <==> id in s0.names.Values)
    ensures s1.phase.Waiting? && s1.phase.list == list && (forall id <- list :: id in s1.phase.seen && s1.phase.seen[id] == NextTime(s0, id))
    ensures list != [] && NextTime(s0, list[0]).Some? ==> NextTime(s0, list[0]) == Some(s1.phase.effective)
  {
    SnapshotTasks(s0, keys, list);
  }

  lemma WakeFiresListed(s0: State, s: State, list: seq<Id>, effective: int) returns (due: seq<Id>)
    requires SortedBy((id: Id) => NextTime(s0, id), list) && Distinct(list)
    requires forall id <- list :: NextTime(s, id) == NextTime(s0, id)
    requires list != [] && NextTime(s0, list[0]).Some? ==> NextTime(s0, list[0]) == Some(effective)
    ensures RunDue(s, list, effective).events == s.events + FiredAs(due, effective) && Distinct(due) && due <= list
    ensures forall id :: id in due <==> id in list && NextTime(s0, id) == Some(effective)
    ensures due == [] <==> forall id <- list :: NextTime(s0, id).None?
    ensures due != [] ==> NextTime(s0, list[0]) == Some(effective)
  {
    var n := RunDueFires(s, list, effective);
    due := list[..n];
    FrontIsDue((id: Id) => NextTime(s0, id), list, effective, n);
    if due != [] {
      assert list[0] in list[..n];
    }
  }

  /** Of a sorted list without repeats, a wake-up at the time of its head, if that is set, stops
      exactly where the due entries end. */
  lemma FrontIsDue(next: Id -> Option<int>, list: seq<Id>, effective: int, n: nat)
    requires SortedBy(next, list) && Distinct(list) && n <= |list|
    requires list != [] && next(list[0]).Some? ==> next(list[0]) == Some(effective)
    requires (forall id <- list[..n] :: next(id) == Some(effective))
    requires n < |list| ==> list[n] in list[..n] || next(list[n]) != Some(effective)
    ensures forall id <- list :: id in list[..n] <==> next(id) == Some(effective)
    ensures n == 0 <==> forall id <- list :: next(id).None?
  {
    forall i | 0 <= i < |list|
      ensures i < n <==> next(list[i]) == Some(effective)
      ensures next(list[0]).None? ==> next(list[i]).None?
    {
      assert i < n ==> list[..n][i] == list[i];
      assert 0 < i ==> !Less(next(list[i]), next(list[0]));
      if n <= i {
        assert list[n] !in list[..n];
        if next(list[0]).Some? {
          DueComeFirst(next, list, effective, n, i);
        }
      }
    }
    assert list != [] ==> list[0] in list;
  }

  /** Registering one task under two names can cut a wake-up short: the second entry is no
      longer due when the walk reaches it, and the walk stops there. */
  lemma RepeatedTaskCutsWakeShort(s: State, a: Id, b: Id, effective: int)
    requires a != b && NextTime(s, a) == Some(effective) && NextTime(s, b) == Some(effective)
    ensures RunDue(s, [a, a, b], effective).events == s.events + [Fired(a, effective)]
  {
    NextIsLater(s.tasks[a].spec, effective);
    var s1 := FireOne(s, a, effective);
    assert [a, a, b][1..] == [a, b];
    assert RunDue(s1, [a, b], effective) == s1;
  }

  lemma PrefixCoversIff(next: Id -> Option<int>, list: seq<Id>, effective: int, n: nat)
    requires SortedBy(next, list) && list != [] && next(list[0]) == Some(effective)
    requires n <= |list| && Distinct(list[..n]) && forall id <- list[..n] :: next(id) == Some(effective)
    requires n < |list| ==> list[n] in list[..n] || next(list[n]) != Some(effective)
    ensures (forall q :: 0 <= q < |list| && next(list[q]) == Some(effective) ==> list[q] in list[..n])
       <==> (forall p, q :: 0 <= p < q < |list| && list[p] in list[..p] && next(list[q]) == Some(effective)
               ==> list[q] in list[..p])
  {
    forall p | 0 <= p < n
      ensures list[p] !in list[..p]
    {
      assert forall i :: 0 <= i < p ==> list[..n][i] != list[..n][p];
    }
    forall p | n <= p < |list|
      ensures forall id <- list[..n] :: id in list[..p]
    {
      assert list[..p][..n] == list[..n];
    }
    if n < |list| && list[n] !in list[..n] {
      forall i | n <= i < |list|
        ensures next(list[i]) != Some(effective)
      {
        DueComeFirst(next, list, effective, n, i);
      }
    }
    forall q | 0 <= q < n
      ensures list[q] in list[..n]
    {
      assert list[..n][q] == list[q];
    }
  }

  /** Whatever the registration, all due tasks of a sorted snapshot fire in one wake-up if
      and only if nothing new that is due follows a repeated entry. */
  lemma AllDueFireIff(s: State, list: seq<Id>, effective: int) returns (fired: seq<Id>)
    requires SortedBy((id: Id) => NextTime(s, id), list)
    requires list != [] && NextTime(s, list[0]) == Some(effective)
    ensures RunDue(s, list, effective).events == s.events + FiredAs(fired, effective)
    ensures (forall q :: 0 <= q < |list| && NextTime(s, list[q]) == Some(effective) ==> list[q] in fired)
       <==> (forall p, q :: 0 <= p < q < |list| && list[p] in list[..p] && NextTime(s, list[q]) == Some(effective)
               ==> list[q] in list[..p])
  {
    var n := RunDueFires(s, list, effective);
    fired := list[..n];
    PrefixCoversIff((id: Id) => NextTime(s, id), list, effective, n);
  }
}
