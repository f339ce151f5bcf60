/**
  The file log writer of `core/logs/file.go`: `WriteMsg` with its double-checked rotation,
  `doRotate` and `initFd`, under any number of concurrent writers and rotation timers.
 */
module FileRotation {
  import opened Text

  /** The live log file, or an archive named after a time stamp and a number. */
  datatype Name = Live | Archive(stamp: string, num: nat)

  type Inode = nat

  datatype Msg = Msg(text: string)

  datatype Config = Config(maxLines: nat, maxSize: nat, maxFiles: nat, daily: bool, hourly: bool)
  {
    predicate Splits() { maxLines > 0 || maxSize > 0 }
  }

  /** A point in time as the writer looks at it. */
  datatype Moment = Moment(day: int, hour: int, stamp: string)

  datatype Pc =
    | Idle
    | Started(m: Msg, at: Moment)
    | WantsHourly(m: Msg, at: Moment)   // the first check asked for a rotation
    | WantsDaily(m: Msg, at: Moment)
    | Ready(m: Msg)                     // about to take the lock and write

  datatype State = State(
    pcs: map<nat, Pc>,
    names: map<Name, Inode>,
    content: map<Inode, seq<Msg>>,
    initial: map<Inode, seq<Msg>>,      // what the files held when the writer was started
    curLines: nat,
    curSize: nat,
    curFiles: nat,
    since: Moment,                      // when the live file was opened
    fromRotation: set<Inode>,           // files opened by a successful rotation
    log: seq<(Inode, Msg)>)             // every accepted message, with the file it went to

  // ---- the search for a free archive name ----

  ghost predicate Free(taken: set<Name>, stamp: string, num: nat) { Archive(stamp, num) !in taken }

  /** The loop of `doRotate`: the least free number from `start` up to `maxFiles`. */
  method FindFree(taken: set<Name>, stamp: string, start: nat, maxFiles: nat) returns (r: Option<nat>)
    ensures r.Some? ==> start <= r.value <= maxFiles && Free(taken, stamp, r.value)
    ensures r.Some? ==> forall n: nat :: start <= n < r.value ==> !Free(taken, stamp, n)
    ensures r.None? <==> forall n: nat :: start <= n <= maxFiles ==> !Free(taken, stamp, n)
  {
    var num := start;
    while num <= maxFiles
      invariant start <= num
      invariant forall n: nat :: start <= n < num ==> !Free(taken, stamp, n)
    {
      if Archive(stamp, num) !in taken {
        assert Free(taken, stamp, num);
        return Some(num);
      }
      num := num + 1;
    }
    return None;
  }

  // ---- one step of one goroutine ----

  predicate NeedRotate(c: Config, s: State, timeIsUp: bool) {
    || (c.maxLines > 0 && s.curLines >= c.maxLines)
    || (c.maxSize > 0 && s.curSize >= c.maxSize)
    || timeIsUp
  }

  predicate NeedRotateHourly(c: Config, s: State, at: Moment) { NeedRotate(c, s, c.hourly && at.hour != s.since.hour) }

  predicate NeedRotateDaily(c: Config, s: State, at: Moment) { NeedRotate(c, s, c.daily && at.day != s.since.day) }

  /** Renames the live file and opens a new one in its place; a rename replaces its target. */
  function Rotated(s: State, target: Name, now: Moment, inode: Inode): State
    requires Live in s.names
  {
    s.(names := s.names[target := s.names[Live]][Live := inode],
       content := s.content[inode := []],
       curLines := 0, curSize := 0, since := now,
       fromRotation := s.fromRotation + {inode})
  }

  /** How a rotation ends: without a free number, with the file renamed, or with a rename that
      failed and the live file reopened, its lines counted and its size read. */
  datatype Rotation = NoFree | Renamed(num: nat) | RenameFailed(num: nat, lines: nat, size: nat)

  /** `num` is the least free number `doRotate` may use. */
  ghost predicate LeastFree(c: Config, s: State, stamp: string, num: nat) {
    && s.curFiles + 1 <= num <= LastNumber(c, s) && Free(s.names.Keys, stamp, num)
    && forall k: nat :: s.curFiles + 1 <= k < num ==> !Free(s.names.Keys, stamp, k)
  }

  function Stamp(c: Config, s: State, at: Moment): string { if c.Splits() then at.stamp else s.since.stamp }

  function LastNumber(c: Config, s: State): nat { if c.Splits() then c.maxFiles else s.curFiles + 1 }

  /** The state with the number counted, when the file is not split by lines or size. */
  function Numbered(c: Config, s: State): State { if c.Splits() then s else s.(curFiles := s.curFiles + 1) }

  /** Bytes of a file that holds these messages. */
  ghost function SizeOf(ms: seq<Msg>): nat {
    if ms == [] then 0 else SizeOf(ms[..|ms| - 1]) + |ms[|ms| - 1].text|
  }

  /** `startLogger` on the file that is there; every message ends its line, so there are at least
      as many lines as messages. */
  function Reopened(c: Config, s: State, now: Moment, lines: nat, size: nat): State {
    s.(curLines := if c.maxLines > 0 then lines else 0, curSize := size, since := now)
  }

  /** `doRotate`. */
  ghost predicate DoRotate(c: Config, s: State, at: Moment, now: Moment, inode: Inode, res: Rotation, s': State) {
    && Live in s.names && inode !in s.content
    && match res
       case NoFree =>
         && (forall n: nat :: s.curFiles + 1 <= n <= LastNumber(c, s) ==> !Free(s.names.Keys, Stamp(c, s, at), n))
         && s' == Numbered(c, s)
       case Renamed(n) =>
         LeastFree(c, s, Stamp(c, s, at), n) && s' == Rotated(Numbered(c, s), Archive(Stamp(c, s, at), n), now, inode)
       case RenameFailed(n, lines, size) =>
         && LeastFree(c, s, Stamp(c, s, at), n)
         && s.names[Live] in s.content && lines >= |s.content[s.names[Live]]| && size == SizeOf(s.content[s.names[Live]])
         && s' == Reopened(c, Numbered(c, s), now, lines, size)
  }

  /** `doRotate` as it searches; `renamed`, `lines` and `size` are what the file system answers. */
  method Rotate(c: Config, s: State, at: Moment, now: Moment, inode: Inode, renamed: bool, lines: nat, size: nat)
    returns (res: Rotation, s': State)
    requires Live in s.names && s.names[Live] in s.content && inode !in s.content
    requires lines >= |s.content[s.names[Live]]| && size == SizeOf(s.content[s.names[Live]])
    ensures DoRotate(c, s, at, now, inode, res, s')
    ensures res.NoFree? || res.Renamed? == renamed
  {
    var num: Option<nat>;
    s' := s;
    if c.maxLines > 0 || c.maxSize > 0 {
      num := FindFree(s.names.Keys, at.stamp, s.curFiles + 1, c.maxFiles);
    } else {
      var n := s.curFiles + 1;
      num := if Archive(s.since.stamp, n) in s.names then None else Some(n);
      s' := s'.(curFiles := n);
    }
    if num.None? {
      res := NoFree;
    } else if renamed {
      res, s' := Renamed(num.value), Rotated(s', Archive(Stamp(c, s, at), num.value), now, inode);
    } else {
      res, s' := RenameFailed(num.value, lines, size), Reopened(c, s', now, lines, size);
    }
  }

  datatype Action =
    | Begin(w: nat, m: Msg, at: Moment)
    | FirstCheck(w: nat)
    | SecondCheck(w: nat, now: Moment, inode: Inode, res: Rotation)
    | Write(w: nat)
    | WriteFails(w: nat)
    | Timer(byHour: bool, at: Moment, now: Moment, inode: Inode, res: Rotation)

  function At(s: State, w: nat, pc: Pc): State { s.(pcs := s.pcs[w := pc]) }

  /** The check of `WriteMsg` under the read lock. */
  function Checked(c: Config, s: State, pc: Pc): Pc
    requires pc.Started?
  {
    if NeedRotateHourly(c, s, pc.at) then WantsHourly(pc.m, pc.at)
    else if NeedRotateDaily(c, s, pc.at) then WantsDaily(pc.m, pc.at)
    else Ready(pc.m)
  }

  function Written(s: State, w: nat, m: Msg): State
    requires Live in s.names && s.names[Live] in s.content
  {
    var file := s.names[Live];
    At(s, w, Idle).(content := s.content[file := s.content[file] + [m]],
                    curLines := s.curLines + 1, curSize := s.curSize + |m.text|,
                    log := s.log + [(file, m)])
  }

  ghost predicate Step(c: Config, s: State, a: Action, s': State) {
    match a
    case Begin(w, m, at) => w in s.pcs && s.pcs[w].Idle? && s' == At(s, w, Started(m, at))
    case FirstCheck(w) => w in s.pcs && s.pcs[w].Started? && s' == At(s, w, Checked(c, s, s.pcs[w]))
    case SecondCheck(w, now, inode, res) =>
      && w in s.pcs && (s.pcs[w].WantsHourly? || s.pcs[w].WantsDaily?)
      && var pc := s.pcs[w];
         var need := if pc.WantsHourly? then NeedRotateHourly(c, s, pc.at) else NeedRotateDaily(c, s, pc.at);
         if need then exists s1 :: DoRotate(c, s, pc.at, now, inode, res, s1) && s' == At(s1, w, Ready(pc.m))
         else res.NoFree? && s' == At(s, w, Ready(pc.m))
    case Write(w) =>
      && w in s.pcs && s.pcs[w].Ready? && Live in s.names && s.names[Live] in s.content
      && s' == Written(s, w, s.pcs[w].m)
    case WriteFails(w) => w in s.pcs && s.pcs[w].Ready? && s' == At(s, w, Idle)
    case Timer(byHour, at, now, inode, res) =>
      if (if byHour then NeedRotateHourly(c, s, at) else NeedRotateDaily(c, s, at))
      then DoRotate(c, s, at, now, inode, res, s')
      else s' == s
  }

  /** A writer's rotation was due and did not take place. */
  ghost predicate RotationFails(c: Config, s: State, a: Action) {
    match a
    case SecondCheck(w, now, inode, res) =>
      && w in s.pcs && (s.pcs[w].WantsHourly? || s.pcs[w].WantsDaily?) && !res.Renamed?
      && if s.pcs[w].WantsHourly? then NeedRotateHourly(c, s, s.pcs[w].at) else NeedRotateDaily(c, s, s.pcs[w].at)
    case _ => false
  }

  /** Any archives and any live file may be there already. */
  ghost predicate Init(s: State) {
    && OneName(s.names, s.content.Keys) && s.initial == s.content && s.curSize == SizeOf(s.content[s.names[Live]])
    && s.fromRotation == {} && s.log == []
    && forall w <- s.pcs :: s.pcs[w].Idle?
  }

  ghost predicate IsRun(c: Config, states: seq<State>, actions: seq<Action>) {
    && |states| == |actions| + 1 && Init(states[0])
    && forall i :: 0 <= i < |actions| ==> Step(c, states[i], actions[i], states[i + 1])
  }

  // ---- no message is lost or moved between files ----

  /** The messages the log says went to a file, in order. */
  ghost function InFile(log: seq<(Inode, Msg)>, file: Inode): seq<Msg> {
    if log == [] then []
    else
      var n := |log| - 1;
      InFile(log[..n], file) + if log[n].0 == file then [log[n].1] else []
  }

  /** Every file is under exactly one name. */
  ghost predicate OneName(names: map<Name, Inode>, files: set<Inode>) {
    && Live in names && names.Values == files
    && forall a, b :: a in names && b in names && names[a] == names[b] ==> a == b
  }

  /** A file holds what it held at the start and then exactly the messages written to it. */
  ghost predicate Complete(s: State, file: Inode)
    requires file in s.content
  {
    s.content[file] == (if file in s.initial then s.initial[file] else []) + InFile(s.log, file)
  }

  /** Every file has exactly one name, and nothing written to it is missing. */
  ghost predicate Kept(s: State) {
    && OneName(s.names, s.content.Keys) && s.initial.Keys <= s.content.Keys
    && (forall file <- s.content :: Complete(s, file))
    && (forall entry <- s.log :: entry.0 in s.content)
    && s.fromRotation <= s.content.Keys
  }

  lemma SameFiles(s: State, s': State)
    requires Kept(s) && s'.names == s.names && s'.content == s.content && s'.initial == s.initial
    requires s'.log == s.log && s'.fromRotation == s.fromRotation
    ensures Kept(s')
  {
    forall file | file in s'.content
      ensures Complete(s', file)
    {
      assert Complete(s, file);
    }
  }

  lemma {:induction false} NothingInNewFile(log: seq<(Inode, Msg)>, file: Inode)
    requires forall entry <- log :: entry.0 != file
    ensures InFile(log, file) == []
  {
    if log != [] {
      NothingInNewFile(log[..|log| - 1], file);
    }
  }

  /** Renaming to a free name keeps every file under exactly one name. */
  lemma RenameKeepsNames(names: map<Name, Inode>, files: set<Inode>, target: Name, inode: Inode)
    requires OneName(names, files) && target != Live && target !in names && inode !in files
    ensures OneName(names[target := names[Live]][Live := inode], files + {inode})
  {
    var r := names[target := names[Live]][Live := inode];
    forall file | file in files + {inode}
      ensures file in r.Values
    {
      if file == inode {
        assert r[Live] == file;
      } else {
        var n :| n in names && names[n] == file;
        assert r[if n == Live then target else n] == file;
      }
    }
    forall a, b | a in r && b in r && r[a] == r[b]
      ensures a == b
    {
      assert a != Live ==> r[a] in names.Values;
      assert b != Live ==> r[b] in names.Values;
    }
  }

  lemma RotatedKept(s: State, target: Name, now: Moment, inode: Inode)
    requires Kept(s) && target != Live && target !in s.names && inode !in s.content
    ensures Kept(Rotated(s, target, now, inode))
  {
    RenameKeepsNames(s.names, s.content.Keys, target, inode);
    NothingInNewFile(s.log, inode);
    var s' := Rotated(s, target, now, inode);
    assert s'.content.Keys == s.content.Keys + {inode};
    forall file | file in s'.content
      ensures Complete(s', file)
    {
      if file != inode {
        assert Complete(s, file);
      }
    }
  }

  lemma RotateKeeps(c: Config, s: State, at: Moment, now: Moment, inode: Inode, res: Rotation, s': State)
    requires Kept(s) && DoRotate(c, s, at, now, inode, res, s')
    ensures Kept(s')
  {
    if res.Renamed? {
      var s1, target := Numbered(c, s), Archive(Stamp(c, s, at), res.num);
      NumberedKept(c, s);
      assert Free(s.names.Keys, Stamp(c, s, at), res.num);
      RotatedKept(s1, target, now, inode);
    } else {
      SameFiles(s, s');
    }
  }

  lemma NumberedKept(c: Config, s: State)
    requires Kept(s)
    ensures Kept(Numbered(c, s)) && Numbered(c, s).names == s.names && Numbered(c, s).content == s.content
  {
    SameFiles(s, Numbered(c, s));
  }

  lemma RotateFrame(c: Config, s: State, at: Moment, now: Moment, inode: Inode, res: Rotation, s': State)
    requires Kept(s) && DoRotate(c, s, at, now, inode, res, s')
    ensures Live in s'.names && s'.log == s.log && s'.pcs == s.pcs
    ensures res.Renamed? ==>
              && s'.curLines == 0 && s'.curSize == 0 && s'.since == now && s'.names[Live] == inode
              && s'.content == s.content[inode := []] && s'.fromRotation == s.fromRotation + {inode}
    ensures !res.Renamed? ==> s'.names == s.names && s'.content == s.content && s'.fromRotation == s.fromRotation
    ensures res.NoFree? ==> s'.curLines == s.curLines && s'.curSize == s.curSize && s'.since == s.since
    ensures res.RenameFailed? ==> s'.curSize == SizeOf(s.content[s.names[Live]])
    ensures res.RenameFailed? && c.maxLines > 0 ==> s'.curLines >= |s.content[s.names[Live]]|
  {
  }

  lemma WriteKeeps(s: State, w: nat)
    requires Kept(s) && w in s.pcs && s.pcs[w].Ready?
    ensures Kept(Written(s, w, s.pcs[w].m))
  {
    var s' := Written(s, w, s.pcs[w].m);
    assert s'.log[..|s.log|] == s.log;
    assert s'.content.Keys == s.content.Keys;
    forall file | file in s'.content
      ensures Complete(s', file)
    {
      AppendsToOne(s, w, s.pcs[w].m, file);
    }
  }

  lemma AppendsToOne(s: State, w: nat, m: Msg, file: Inode)
    requires Live in s.names && s.names[Live] in s.content && file in s.content && Complete(s, file)
    ensures file in Written(s, w, m).content && Complete(Written(s, w, m), file)
  {
    var live := s.names[Live];
    var log := s.log + [(live, m)];
    assert log[..|log| - 1] == s.log;
    assert InFile(log, file) == InFile(s.log, file) + if live == file then [m] else [];
  }

  lemma StepKeeps(c: Config, s: State, a: Action, s': State)
    requires Kept(s) && Step(c, s, a, s')
    ensures Kept(s')
  {
    match a
    case SecondCheck(w, now, inode, res) =>
      var pc := s.pcs[w];
      if (if pc.WantsHourly? then NeedRotateHourly(c, s, pc.at) else NeedRotateDaily(c, s, pc.at)) {
        var s1 :| DoRotate(c, s, pc.at, now, inode, res, s1) && s' == At(s1, w, Ready(pc.m));
        RotateKeeps(c, s, pc.at, now, inode, res, s1);
        SameFiles(s1, s');
      } else {
        SameFiles(s, s');
      }
    case Timer(byHour, at, now, inode, res) =>
      if (if byHour then NeedRotateHourly(c, s, at) else NeedRotateDaily(c, s, at)) {
        RotateKeeps(c, s, at, now, inode, res, s');
      }
    case Write(w) => WriteKeeps(s, w);
    case _ => SameFiles(s, s');
  }

  /** In every run, whatever was there before and whichever renames fail, every accepted message
      is in exactly one file, under exactly one name, once for each time it was accepted and in
      the order of acceptance, behind what the file held at the start. */
  lemma {:induction false} EveryMessageIsKept(c: Config, states: seq<State>, actions: seq<Action>, n: nat)
    requires IsRun(c, states, actions) && n < |states|
    ensures Kept(states[n])
    decreases n
  {
    if n > 0 {
      EveryMessageIsKept(c, states, actions, n - 1);
      StepKeeps(c, states[n - 1], actions[n - 1], states[n]);
    }
  }

  // ---- how many messages a file can get ----

  ghost function Waiting(s: State): set<nat> { set w | w in s.pcs && s.pcs[w].Ready? }

  /** Messages in the live file and writers about to add to it stay within the bound, and so
      does every file that a rotation opened. */
  ghost predicate Bounded(c: Config, s: State) {
    && Kept(s)
    && (s.names[Live] in s.fromRotation ==>
          && |s.content[s.names[Live]]| <= s.curLines
          && |s.content[s.names[Live]]| + |Waiting(s)| <= c.maxLines + |s.pcs| - 1)
    && (forall file <- s.fromRotation :: |s.content[file]| <= c.maxLines + |s.pcs| - 1)
  }

  lemma WaitingMoves(s: State, w: nat, pc: Pc)
    requires w in s.pcs
    ensures |Waiting(At(s, w, pc))| == |Waiting(s)| + (if pc.Ready? then 1 else 0) - (if s.pcs[w].Ready? then 1 else 0)
    ensures |At(s, w, pc).pcs| == |s.pcs| && |Waiting(s)| <= |s.pcs|
  {
    var a, b := Waiting(s), Waiting(At(s, w, pc));
    assert b == if pc.Ready? then a + {w} else a - {w};
    assert At(s, w, pc).pcs.Keys == s.pcs.Keys;
    assert |s.pcs| == |s.pcs.Keys| && |At(s, w, pc).pcs| == |At(s, w, pc).pcs.Keys|;
    Subset(a, s.pcs.Keys);
  }

  lemma Subset(a: set<nat>, b: set<nat>)
    requires a <= b
    ensures |a| <= |b|
  {
    assert b == a + (b - a);
  }

  lemma RotateBounded(c: Config, s: State, at: Moment, now: Moment, inode: Inode, res: Rotation, s': State)
    requires c.maxLines >= 1 && Bounded(c, s) && DoRotate(c, s, at, now, inode, res, s')
    ensures Bounded(c, s')
    ensures res.Renamed? ==> s'.curLines == 0
  {
    RotateKeeps(c, s, at, now, inode, res, s');
    RotateFrame(c, s, at, now, inode, res, s');
    assert Waiting(s') == Waiting(s);
    Subset(Waiting(s), s.pcs.Keys);
  }

  /** A writer may join those about to write when the file still has room, or is not a rotated one. */
  lemma JoinBounded(c: Config, s: State, w: nat, pc: Pc)
    requires c.maxLines >= 1 && Bounded(c, s) && w in s.pcs && !s.pcs[w].Ready?
    requires pc.Ready? ==> s.curLines < c.maxLines
    ensures Bounded(c, At(s, w, pc))
  {
    WaitingMoves(s, w, pc);
    var s' := At(s, w, pc);
    SameFiles(s, s');
    Subset(Waiting(s'), s'.pcs.Keys);
  }

  lemma WriteBounded(c: Config, s: State, w: nat)
    requires Bounded(c, s) && w in s.pcs && s.pcs[w].Ready?
    ensures Bounded(c, Written(s, w, s.pcs[w].m))
  {
    WriteKeeps(s, w);
    var s' := Written(s, w, s.pcs[w].m);
    WaitingMoves(s, w, Idle);
    assert Waiting(s') == Waiting(At(s, w, Idle));
  }

  lemma SecondCheckBounded(c: Config, s: State, a: Action, s': State)
    requires c.maxLines >= 1 && Bounded(c, s) && a.SecondCheck? && Step(c, s, a, s') && !RotationFails(c, s, a)
    ensures Bounded(c, s')
  {
    var pc := s.pcs[a.w];
    if (if pc.WantsHourly? then NeedRotateHourly(c, s, pc.at) else NeedRotateDaily(c, s, pc.at)) {
      var s1 :| DoRotate(c, s, pc.at, a.now, a.inode, a.res, s1) && s' == At(s1, a.w, Ready(pc.m));
      RotateBounded(c, s, pc.at, a.now, a.inode, a.res, s1);
      RotateFrame(c, s, pc.at, a.now, a.inode, a.res, s1);
      JoinBounded(c, s1, a.w, Ready(pc.m));
    } else {
      JoinBounded(c, s, a.w, Ready(pc.m));
    }
  }

  lemma StepBounded(c: Config, s: State, a: Action, s': State)
    requires c.maxLines >= 1 && Bounded(c, s) && Step(c, s, a, s') && !RotationFails(c, s, a)
    ensures Bounded(c, s')
  {
    match a
    case Begin(w, m, at) => JoinBounded(c, s, w, Started(m, at));
    case FirstCheck(w) => JoinBounded(c, s, w, Checked(c, s, s.pcs[w]));
    case SecondCheck(_, _, _, _) => SecondCheckBounded(c, s, a, s');
    case Write(w) => WriteBounded(c, s, w);
    case WriteFails(w) =>
      WaitingMoves(s, w, Idle);
      SameFiles(s, s');
    case Timer(byHour, at, now, inode, res) =>
      if (if byHour then NeedRotateHourly(c, s, at) else NeedRotateDaily(c, s, at)) {
        RotateBounded(c, s, at, now, inode, res, s');
      }
  }

  /** With W writers and a line limit, as long as due rotations take place, a file
      opened by a rotation never gets more than MaxLines + W - 1 messages. */
  lemma {:induction false} RotatedFilesAreBounded(c: Config, states: seq<State>, actions: seq<Action>, n: nat)
    requires c.maxLines >= 1 && IsRun(c, states, actions) && n < |states|
    requires forall i :: 0 <= i < n ==> !RotationFails(c, states[i], actions[i])
    ensures Bounded(c, states[n])
    decreases n
  {
    if n > 0 {
      RotatedFilesAreBounded(c, states, actions, n - 1);
      StepBounded(c, states[n - 1], actions[n - 1], states[n]);
    }
  }

  // ---- the size the writer counts ----

  ghost function LiveFile(s: State): seq<Msg>
    requires Live in s.names && s.names[Live] in s.content
  {
    s.content[s.names[Live]]
  }

  /** The size the writer counts is the size of its file. */
  ghost predicate Measured(s: State) { Kept(s) && s.curSize == SizeOf(LiveFile(s)) }

  lemma SizeOfAppend(ms: seq<Msg>, m: Msg)
    ensures SizeOf(ms + [m]) == SizeOf(ms) + |m.text|
  {
    assert (ms + [m])[..|ms|] == ms;
  }

  /** A rotation ends with the counters of the file that is live then. */
  lemma RotateMeasured(c: Config, s: State, at: Moment, now: Moment, inode: Inode, res: Rotation, s': State)
    requires Measured(s) && DoRotate(c, s, at, now, inode, res, s')
    ensures Measured(s')
  {
    RotateKeeps(c, s, at, now, inode, res, s');
    RotateFrame(c, s, at, now, inode, res, s');
  }

  /** What a step can do to the files and counters: nothing, write one message, or rotate. */
  datatype Effect = Nothing | Wrote(w: nat) | Rotates(at: Moment, now: Moment, inode: Inode, res: Rotation)

  /** The moment a rotation is decided by, and whether the hour or the day is compared. */
  ghost predicate Due(c: Config, s: State, byHour: bool, at: Moment) {
    if byHour then NeedRotateHourly(c, s, at) else NeedRotateDaily(c, s, at)
  }

  ghost function EffectOf(c: Config, s: State, a: Action): Effect {
    match a
    case SecondCheck(w, now, inode, res) =>
      if w in s.pcs && (s.pcs[w].WantsHourly? || s.pcs[w].WantsDaily?) && Due(c, s, s.pcs[w].WantsHourly?, s.pcs[w].at)
      then Rotates(s.pcs[w].at, now, inode, res) else Nothing
    case Timer(byHour, at, now, inode, res) => if Due(c, s, byHour, at) then Rotates(at, now, inode, res) else Nothing
    case Write(w) => Wrote(w)
    case _ => Nothing
  }

  /** The step renames the live file and opens a new one. */
  ghost predicate Opens(c: Config, s: State, a: Action) {
    var e := EffectOf(c, s, a);
    e.Rotates? && e.res.Renamed?
  }

  /** The state but for where the writers stand. */
  ghost predicate SameDisk(s: State, s': State) { s' == s.(pcs := s'.pcs) }

  lemma StepEffect(c: Config, s: State, a: Action, s': State) returns (s1: State)
    requires Step(c, s, a, s')
    ensures match EffectOf(c, s, a)
      case Nothing => s1 == s && SameDisk(s, s')
      case Wrote(w) => w in s.pcs && s.pcs[w].Ready? && s1 == s && Live in s.names && s.names[Live] in s.content && s' == Written(s, w, s.pcs[w].m)
      case Rotates(at, now, inode, res) => DoRotate(c, s, at, now, inode, res, s1) && SameDisk(s1, s')
  {
    s1 := s;
    match a
    case SecondCheck(w, now, inode, res) =>
      var pc := s.pcs[w];
      if Due(c, s, pc.WantsHourly?, pc.at) {
        s1 :| DoRotate(c, s, pc.at, now, inode, res, s1) && s' == At(s1, w, Ready(pc.m));
      }
    case Timer(byHour, at, _, _, _) =>
      if Due(c, s, byHour, at) {
        s1 := s';
      }
    case _ =>
  }

  lemma StepMeasured(c: Config, s: State, a: Action, s': State)
    requires Measured(s) && Step(c, s, a, s')
    ensures Measured(s')
  {
    StepKeeps(c, s, a, s');
    var s1 := StepEffect(c, s, a, s');
    match EffectOf(c, s, a)
    case Rotates(at, now, inode, res) => RotateMeasured(c, s, at, now, inode, res, s1);
    case Wrote(w) => SizeOfAppend(LiveFile(s), s.pcs[w].m);
    case Nothing =>
  }

  /** In every state of every run. */
  lemma {:induction false} SizeIsCounted(c: Config, states: seq<State>, actions: seq<Action>, n: nat)
    requires IsRun(c, states, actions) && n < |states|
    ensures Measured(states[n])
    decreases n
  {
    if n > 0 {
      SizeIsCounted(c, states, actions, n - 1);
      StepMeasured(c, states[n - 1], actions[n - 1], states[n]);
    } else {
      EveryMessageIsKept(c, states, actions, 0);
    }
  }

  // ---- when a rotation takes place ----

  /** A limit is reached, or the file was opened in another day or hour. */
  ghost predicate Asked(c: Config, s: State, at: Moment)
    requires Live in s.names && s.names[Live] in s.content
  {
    || (c.maxLines > 0 && s.curLines >= c.maxLines)
    || (c.maxSize > 0 && SizeOf(LiveFile(s)) >= c.maxSize)
    || (c.daily && at.day != s.since.day)
    || (c.hourly && at.hour != s.since.hour)
  }

  /** The first check lets a writer go on exactly when nothing asks for a rotation. */
  lemma CheckAsks(c: Config, s: State, w: nat)
    requires Measured(s) && w in s.pcs && s.pcs[w].Started?
    ensures Checked(c, s, s.pcs[w]).Ready? <==> !Asked(c, s, s.pcs[w].at)
  {
  }

  /** In every run the live file changes its name only when that is asked for. */
  lemma RotatesOnlyWhenAsked(c: Config, states: seq<State>, actions: seq<Action>, i: nat)
    requires IsRun(c, states, actions) && i < |actions| && states[i + 1].names != states[i].names
    ensures Opens(c, states[i], actions[i])
    ensures Live in states[i].names && states[i].names[Live] in states[i].content
    ensures Asked(c, states[i], EffectOf(c, states[i], actions[i]).at)
  {
    var s, a := states[i], actions[i];
    SizeIsCounted(c, states, actions, i);
    var s1 := StepEffect(c, s, a, states[i + 1]);
    match EffectOf(c, s, a)
    case Rotates(at, now, inode, res) => RotateFrame(c, s, at, now, inode, res, s1);
    case Wrote(_) =>
    case Nothing =>
  }

  /** A rotation was due and did not take place: a writer found no free number, or a rename
      failed. */
  ghost predicate Disturbed(c: Config, s: State, a: Action) {
    match EffectOf(c, s, a)
    case Rotates(_, _, _, res) => res.RenameFailed? || (res.NoFree? && a.SecondCheck?)
    case _ => false
  }

  /** No disturbance in the steps from `i` up to `n`. */
  ghost predicate Calm(c: Config, states: seq<State>, actions: seq<Action>, i: nat, n: nat)
    requires n <= |actions| <= |states|
  {
    forall k :: i <= k < n ==> !Disturbed(c, states[k], actions[k])
  }

  lemma LastStep(c: Config, states: seq<State>, actions: seq<Action>, i: nat, n: nat)
    requires n <= |actions| <= |states| && i < n && Calm(c, states, actions, i, n)
    ensures Calm(c, states, actions, i, n - 1) && !Disturbed(c, states[n - 1], actions[n - 1])
  {
  }

  lemma StepOf(c: Config, states: seq<State>, actions: seq<Action>, i: nat)
    requires IsRun(c, states, actions) && i < |actions|
    ensures Step(c, states[i], actions[i], states[i + 1]) && Kept(states[i])
  {
    EveryMessageIsKept(c, states, actions, i);
  }

  lemma CalmWithin(c: Config, states: seq<State>, actions: seq<Action>, i: nat, n: nat, j: nat, m: nat)
    requires n <= |actions| <= |states| && Calm(c, states, actions, i, n) && i <= j && m <= n
    ensures Calm(c, states, actions, j, m)
  {
  }

  /** The live file is not `seen`, or writer `w` is about to rotate it. */
  ghost predicate Turned(c: Config, s: State, w: nat, seen: Inode) {
    && seen in s.content && Live in s.names && w in s.pcs
    && (s.names[Live] == seen ==>
          && (s.pcs[w].WantsHourly? || s.pcs[w].WantsDaily?)
          && Due(c, s, s.pcs[w].WantsHourly?, s.pcs[w].at))
  }

  /** Without disturbance, what is due for a file stays due while it is the live one. */
  lemma StaysDue(c: Config, s: State, a: Action, s': State, byHour: bool, at: Moment)
    requires Kept(s) && Step(c, s, a, s') && !Disturbed(c, s, a)
    requires Due(c, s, byHour, at)
    ensures Live in s'.names && (s'.names[Live] == s.names[Live] ==> Due(c, s', byHour, at))
  {
    var s1 := StepEffect(c, s, a, s');
    match EffectOf(c, s, a)
    case Rotates(at, now, inode, res) => RotateFrame(c, s, at, now, inode, res, s1);
    case Wrote(_) =>
    case Nothing =>
  }

  /** A file that is no longer live does not come back. */
  lemma NeverBack(c: Config, s: State, a: Action, s': State, seen: Inode)
    requires Kept(s) && Step(c, s, a, s') && seen in s.content
    ensures seen in s'.content && Live in s'.names
    ensures s.names[Live] != seen ==> s'.names[Live] != seen
  {
    var s1 := StepEffect(c, s, a, s');
    match EffectOf(c, s, a)
    case Rotates(at, now, inode, res) => RotateFrame(c, s, at, now, inode, res, s1);
    case Wrote(_) =>
    case Nothing =>
  }

  /** The writer itself leaves the file it was to rotate. */
  lemma RotatesItself(c: Config, s: State, a: Action, s': State, w: nat, seen: Inode)
    requires Kept(s) && Step(c, s, a, s') && !Disturbed(c, s, a) && a.SecondCheck? && a.w == w
    requires Turned(c, s, w, seen) && s.names[Live] == seen
    ensures Live in s'.names && s'.names[Live] != seen
  {
    var s1 := StepEffect(c, s, a, s');
    RotateFrame(c, s, s.pcs[w].at, a.now, a.inode, a.res, s1);
  }

  lemma RotatePcs(c: Config, s: State, at: Moment, now: Moment, inode: Inode, res: Rotation, s': State)
    requires DoRotate(c, s, at, now, inode, res, s')
    ensures s'.pcs == s.pcs
  {
  }

  lemma CheckMoves(c: Config, s: State, a: Action, s': State)
    requires Step(c, s, a, s') && a.SecondCheck?
    ensures a.w in s.pcs && s'.pcs == s.pcs[a.w := Ready(s.pcs[a.w].m)]
  {
    var pc := s.pcs[a.w];
    if Due(c, s, pc.WantsHourly?, pc.at) {
      var s1 :| DoRotate(c, s, pc.at, a.now, a.inode, a.res, s1) && s' == At(s1, a.w, Ready(pc.m));
      RotatePcs(c, s, pc.at, a.now, a.inode, a.res, s1);
    }
  }

  /** A step moves at most the writer that takes it. */
  lemma OnlyOwnMoves(c: Config, s: State, a: Action, s': State)
    requires Step(c, s, a, s')
    ensures !a.Timer? ==> a.w in s.pcs && a.w in s'.pcs && s'.pcs == s.pcs[a.w := s'.pcs[a.w]]
    ensures a.Timer? ==> s'.pcs == s.pcs
  {
    match a
    case SecondCheck(_, _, _, _) => CheckMoves(c, s, a, s');
    case Begin(_, _, _) =>
    case FirstCheck(_) =>
    case Write(_) =>
    case WriteFails(_) =>
    case Timer(_, _, _, _, _) =>
  }

  lemma OwnSteps(c: Config, s: State, a: Action, s': State, w: nat)
    requires Step(c, s, a, s') && w in s.pcs && (s.pcs[w].WantsHourly? || s.pcs[w].WantsDaily?)
    ensures w in s'.pcs && (s'.pcs[w] == s.pcs[w] || (a.SecondCheck? && a.w == w))
  {
    OnlyOwnMoves(c, s, a, s');
  }

  lemma StaysTurned(c: Config, s: State, a: Action, s': State, w: nat, seen: Inode)
    requires Kept(s) && Step(c, s, a, s') && !Disturbed(c, s, a) && Turned(c, s, w, seen)
    ensures Turned(c, s', w, seen)
  {
    NeverBack(c, s, a, s', seen);
    OnlyOwnMoves(c, s, a, s');
    if s.names[Live] == seen {
      OwnSteps(c, s, a, s', w);
      if a.SecondCheck? && a.w == w {
        RotatesItself(c, s, a, s', w, seen);
      } else {
        StaysDue(c, s, a, s', s.pcs[w].WantsHourly?, s.pcs[w].at);
      }
    }
  }

  lemma TurnedNext(c: Config, states: seq<State>, actions: seq<Action>, k: nat, w: nat, seen: Inode)
    requires IsRun(c, states, actions) && k < |actions| && !Disturbed(c, states[k], actions[k])
    requires Turned(c, states[k], w, seen)
    ensures Turned(c, states[k + 1], w, seen)
  {
    StepOf(c, states, actions, k);
    StaysTurned(c, states[k], actions[k], states[k + 1], w, seen);
  }

  lemma {:induction false} KeepsTurned(c: Config, states: seq<State>, actions: seq<Action>, i: nat, n: nat, w: nat, seen: Inode)
    requires IsRun(c, states, actions) && i <= n < |states| && Turned(c, states[i], w, seen)
    requires Calm(c, states, actions, i, n)
    ensures Turned(c, states[n], w, seen)
    decreases n
  {
    if i < n {
      LastStep(c, states, actions, i, n);
      KeepsTurned(c, states, actions, i, n - 1, w, seen);
      TurnedNext(c, states, actions, n - 1, w, seen);
    }
  }

  /** A writer whose first check found a limit reached, or another day or hour than that of the
      opening, never writes to the file it saw. */
  lemma AskedWriterGoesElsewhere(c: Config, states: seq<State>, actions: seq<Action>, i: nat, n: nat, w: nat)
    requires IsRun(c, states, actions) && i < n < |actions| && actions[i] == FirstCheck(w) && actions[n] == Write(w)
    requires Calm(c, states, actions, i, n)
    requires Live in states[i].names && states[i].names[Live] in states[i].content && w in states[i].pcs && states[i].pcs[w].Started?
    requires Asked(c, states[i], states[i].pcs[w].at)
    ensures var seen := states[i].names[Live];
      && seen in states[n].content && seen in states[n + 1].content
      && states[n + 1].content[seen] == states[n].content[seen]
      && states[n + 1].log != [] && states[n + 1].log[|states[n + 1].log| - 1].0 != seen
  {
    SizeIsCounted(c, states, actions, i);
    CheckAsks(c, states[i], w);
    assert Step(c, states[i], actions[i], states[i + 1]) && Step(c, states[n], actions[n], states[n + 1]);
    CalmWithin(c, states, actions, i, n, i + 1, n);
    KeepsTurned(c, states, actions, i + 1, n, w, states[i].names[Live]);
  }

  // ---- when the live file was opened ----

  lemma KeepsSince(c: Config, s: State, a: Action, s': State)
    requires Kept(s) && Step(c, s, a, s') && !Disturbed(c, s, a) && Live in s'.names && s'.names[Live] == s.names[Live]
    ensures s'.since == s.since
  {
    var s1 := StepEffect(c, s, a, s');
    match EffectOf(c, s, a)
    case Rotates(at, now, inode, res) => RotateFrame(c, s, at, now, inode, res, s1);
    case Wrote(_) =>
    case Nothing =>
  }

  lemma OpensNow(c: Config, s: State, a: Action, s': State)
    requires Kept(s) && Step(c, s, a, s') && Opens(c, s, a)
    ensures Live in s'.names && s'.names[Live] in s'.content && s'.since == EffectOf(c, s, a).now
  {
    var s1 := StepEffect(c, s, a, s');
    var e := EffectOf(c, s, a);
    RotateFrame(c, s, e.at, e.now, e.inode, e.res, s1);
  }

  ghost predicate OpenedAt(s: State, file: Inode, now: Moment) {
    Live in s.names && file in s.content && (s.names[Live] == file ==> s.since == now)
  }

  lemma OpenedNext(c: Config, s: State, a: Action, s': State, file: Inode, now: Moment)
    requires Kept(s) && Step(c, s, a, s') && !Disturbed(c, s, a) && OpenedAt(s, file, now)
    ensures OpenedAt(s', file, now)
  {
    NeverBack(c, s, a, s', file);
    if s'.names[Live] == file {
      KeepsSince(c, s, a, s');
    }
  }

  lemma OpensAt(c: Config, states: seq<State>, actions: seq<Action>, r: nat)
    requires IsRun(c, states, actions) && r < |actions| && Opens(c, states[r], actions[r])
    ensures Live in states[r + 1].names
    ensures OpenedAt(states[r + 1], states[r + 1].names[Live], EffectOf(c, states[r], actions[r]).now)
  {
    StepOf(c, states, actions, r);
    OpensNow(c, states[r], actions[r], states[r + 1]);
  }

  lemma StaysOpened(c: Config, states: seq<State>, actions: seq<Action>, k: nat, file: Inode, now: Moment)
    requires IsRun(c, states, actions) && k < |actions| && !Disturbed(c, states[k], actions[k]) && OpenedAt(states[k], file, now)
    ensures OpenedAt(states[k + 1], file, now)
  {
    StepOf(c, states, actions, k);
    OpenedNext(c, states[k], actions[k], states[k + 1], file, now);
  }

  /** The moment compared with is the one at which the rotation opened the live file. */
  lemma {:induction false} SinceIsOpening(c: Config, states: seq<State>, actions: seq<Action>, r: nat, n: nat)
    requires IsRun(c, states, actions) && r < n < |states| && Calm(c, states, actions, r + 1, n)
    requires Opens(c, states[r], actions[r])
    ensures Live in states[r + 1].names
    ensures OpenedAt(states[n], states[r + 1].names[Live], EffectOf(c, states[r], actions[r]).now)
    decreases n
  {
    OpensAt(c, states, actions, r);
    if r + 1 < n {
      LastStep(c, states, actions, r + 1, n);
      SinceIsOpening(c, states, actions, r, n - 1);
      StaysOpened(c, states, actions, n - 1, states[r + 1].names[Live], EffectOf(c, states[r], actions[r]).now);
    }
  }

  /** A message of another day (with `daily`) or hour (with `hourly`) than that in which a rotation
      opened the live file does not go to that file. */
  lemma LateMessageGoesElsewhere(c: Config, states: seq<State>, actions: seq<Action>, r: nat, i: nat, n: nat, w: nat)
    requires IsRun(c, states, actions) && r < i < n < |actions| && Calm(c, states, actions, r + 1, n)
    requires Opens(c, states[r], actions[r]) && actions[i] == FirstCheck(w) && actions[n] == Write(w)
    requires w in states[i].pcs && states[i].pcs[w].Started?
    requires var at, now := states[i].pcs[w].at, EffectOf(c, states[r], actions[r]).now;
      (c.daily && at.day != now.day) || (c.hourly && at.hour != now.hour)
    ensures Live in states[r + 1].names && states[n + 1].log != []
    ensures states[n + 1].log[|states[n + 1].log| - 1].0 != states[r + 1].names[Live]
  {
    CalmWithin(c, states, actions, r + 1, n, r + 1, i);
    SinceIsOpening(c, states, actions, r, i);
    var file := states[r + 1].names[Live];
    EveryMessageIsKept(c, states, actions, i);
    CalmWithin(c, states, actions, r + 1, n, i, n);
    if states[i].names[Live] == file {
      AskedWriterGoesElsewhere(c, states, actions, i, n, w);
    } else {
      assert Turned(c, states[i], w, file);
      KeepsTurned(c, states, actions, i, n, w, file);
      StepOf(c, states, actions, n);
    }
  }

  // ---- the lines the writer counts ----

  /** For a file that a rotation opened, the lines the writer counts are the messages in it. */
  ghost predicate Counted(s: State) { Kept(s) && (s.names[Live] in s.fromRotation ==> s.curLines == |LiveFile(s)|) }

  lemma StepCounted(c: Config, s: State, a: Action, s': State)
    requires Counted(s) && Step(c, s, a, s') && !Disturbed(c, s, a)
    ensures Counted(s')
  {
    StepKeeps(c, s, a, s');
    var s1 := StepEffect(c, s, a, s');
    match EffectOf(c, s, a)
    case Rotates(at, now, inode, res) => RotateFrame(c, s, at, now, inode, res, s1);
    case Wrote(_) =>
    case Nothing =>
  }

  lemma {:induction false} LinesAreCounted(c: Config, states: seq<State>, actions: seq<Action>, n: nat)
    requires IsRun(c, states, actions) && n < |states|
    requires Calm(c, states, actions, 0, n)
    ensures Counted(states[n])
    decreases n
  {
    if n > 0 {
      LastStep(c, states, actions, 0, n);
      LinesAreCounted(c, states, actions, n - 1);
      StepCounted(c, states[n - 1], actions[n - 1], states[n]);
    } else {
      EveryMessageIsKept(c, states, actions, 0);
    }
  }

  /** A file that a rotation opened is left only with MaxLines messages or MaxSize bytes in it, or
      in another day or hour than it was opened in. */
  lemma FileIsLeftWhenDue(c: Config, states: seq<State>, actions: seq<Action>, r: nat, i: nat)
    requires IsRun(c, states, actions) && r < i < |actions| && states[i + 1].names != states[i].names
    requires Calm(c, states, actions, 0, i)
    requires Opens(c, states[r], actions[r])
    requires Live in states[r + 1].names && Live in states[i].names && states[i].names[Live] == states[r + 1].names[Live]
    ensures EffectOf(c, states[i], actions[i]).Rotates? && states[i].names[Live] in states[i].content
    ensures var since, at := EffectOf(c, states[r], actions[r]).now, EffectOf(c, states[i], actions[i]).at;
      || (c.maxLines > 0 && |LiveFile(states[i])| >= c.maxLines)
      || (c.maxSize > 0 && SizeOf(LiveFile(states[i])) >= c.maxSize)
      || (c.daily && at.day != since.day)
      || (c.hourly && at.hour != since.hour)
  {
    RotatesOnlyWhenAsked(c, states, actions, i);
    CalmWithin(c, states, actions, 0, i, r + 1, i);
    SinceIsOpening(c, states, actions, r, i);
    LinesAreCounted(c, states, actions, i);
    OpenedByRotation(c, states, actions, r, i);
  }

  lemma RotatedStay(c: Config, s: State, a: Action, s': State)
    requires Kept(s) && Step(c, s, a, s')
    ensures s.fromRotation <= s'.fromRotation
    ensures Opens(c, s, a) ==> Live in s'.names && s'.names[Live] in s'.fromRotation
  {
    var s1 := StepEffect(c, s, a, s');
    match EffectOf(c, s, a)
    case Rotates(at, now, inode, res) => RotateFrame(c, s, at, now, inode, res, s1);
    case Wrote(_) =>
    case Nothing =>
  }

  lemma RotatedStayAt(c: Config, states: seq<State>, actions: seq<Action>, k: nat)
    requires IsRun(c, states, actions) && k < |actions|
    ensures states[k].fromRotation <= states[k + 1].fromRotation
    ensures Opens(c, states[k], actions[k]) ==> Live in states[k + 1].names && states[k + 1].names[Live] in states[k + 1].fromRotation
  {
    StepOf(c, states, actions, k);
    RotatedStay(c, states[k], actions[k], states[k + 1]);
  }

  lemma {:induction false} StaysRotated(states: seq<State>, k: nat, n: nat, file: Inode)
    requires k <= n < |states| && file in states[k].fromRotation
    requires forall i :: k <= i < n ==> states[i].fromRotation <= states[i + 1].fromRotation
    ensures file in states[n].fromRotation
    decreases n
  {
    if k < n {
      StaysRotated(states, k, n - 1, file);
    }
  }

  lemma OpenedByRotation(c: Config, states: seq<State>, actions: seq<Action>, r: nat, n: nat)
    requires IsRun(c, states, actions) && r < n < |states| && Opens(c, states[r], actions[r])
    ensures Live in states[r + 1].names && states[r + 1].names[Live] in states[n].fromRotation
  {
    RotatedStayAt(c, states, actions, r);
    forall i | r < i < n
      ensures states[i].fromRotation <= states[i + 1].fromRotation
    {
      RotatedStayAt(c, states, actions, i);
    }
    StaysRotated(states, r + 1, n, states[r + 1].names[Live]);
  }

  lemma MovesToArchive(c: Config, s: State, a: Action, s': State)
    requires Kept(s) && Step(c, s, a, s') && Opens(c, s, a)
    ensures var e := EffectOf(c, s, a);
      var name := Archive(Stamp(c, s, e.at), e.res.num);
      name !in s.names && name in s'.names && s'.names[name] == s.names[Live]
  {
    var s1 := StepEffect(c, s, a, s');
    var e := EffectOf(c, s, a);
    assert Free(s.names.Keys, Stamp(c, s, e.at), e.res.num);
  }

  /** A file that a rotation opened is archived under the stamp of its opening when it is not
      split by lines or size; else under that of the message or timer that asked for the
      rotation, which is one of another day when the day has changed. */
  lemma ArchivedUnder(c: Config, states: seq<State>, actions: seq<Action>, r: nat, i: nat)
    requires IsRun(c, states, actions) && r < i < |actions| && Calm(c, states, actions, r + 1, i)
    requires Opens(c, states[r], actions[r]) && Opens(c, states[i], actions[i])
    requires Live in states[r + 1].names && Live in states[i].names && states[i].names[Live] == states[r + 1].names[Live]
    ensures var opening, asking := EffectOf(c, states[r], actions[r]).now, EffectOf(c, states[i], actions[i]).at;
      var name := Archive(if c.maxLines > 0 || c.maxSize > 0 then asking.stamp else opening.stamp, EffectOf(c, states[i], actions[i]).res.num);
      name !in states[i].names && name in states[i + 1].names && states[i + 1].names[name] == states[r + 1].names[Live]
  {
    SinceIsOpening(c, states, actions, r, i);
    StepOf(c, states, actions, i);
    MovesToArchive(c, states[i], actions[i], states[i + 1]);
  }

  // ---- how large a file can get ----

  /** No message in the hands of a writer is longer than `max`. */
  ghost predicate Short(s: State, max: nat) {
    forall w <- s.pcs :: s.pcs[w].Idle? || |s.pcs[w].m.text| <= max
  }

  /** The live file with the messages about to be added to it stays within the bound, and so does
      every file that a rotation opened. */
  ghost predicate Room(c: Config, s: State, pending: nat, all: nat)
    requires Kept(s)
  {
    && (s.names[Live] in s.fromRotation ==> SizeOf(LiveFile(s)) + pending < c.maxSize + all)
    && (forall file <- s.fromRotation :: SizeOf(s.content[file]) < c.maxSize + all)
  }

  ghost predicate Fits(c: Config, s: State, max: nat) {
    Measured(s) && Short(s, max) && Room(c, s, Load(|Waiting(s)|, max), Load(|s.pcs|, max))
  }

  /** Bytes of `n` messages of the greatest size. */
  ghost function Load(n: nat, max: nat): nat { if n == 0 then 0 else Load(n - 1, max) + max }

  lemma {:induction false} LoadGrows(a: nat, b: nat, max: nat)
    requires a <= b
    ensures Load(a, max) <= Load(b, max)
    decreases b
  {
    if a < b {
      LoadGrows(a, b - 1, max);
    }
  }

  lemma {:induction false} LoadIs(n: nat, max: nat)
    ensures Load(n, max) == n * max
  {
    if n > 0 {
      LoadIs(n - 1, max);
      assert n * max == (n - 1) * max + max;
    }
  }

  lemma RotateRoom(c: Config, s: State, s': State, pending: nat, all: nat, inode: Inode, renamed: bool)
    requires c.maxSize >= 1 && Kept(s) && Kept(s') && inode !in s.content && Room(c, s, pending, all) && pending <= all
    requires if renamed then s'.names[Live] == inode && s'.content == s.content[inode := []] && s'.fromRotation == s.fromRotation + {inode}
             else s'.names == s.names && s'.content == s.content && s'.fromRotation == s.fromRotation
    ensures Room(c, s', pending, all)
  {
  }

  lemma RotateFits(c: Config, s: State, at: Moment, now: Moment, inode: Inode, res: Rotation, s': State, max: nat)
    requires c.maxSize >= 1 && Fits(c, s, max) && DoRotate(c, s, at, now, inode, res, s')
    ensures Fits(c, s', max)
    ensures res.Renamed? ==> s'.curSize == 0
  {
    RotateMeasured(c, s, at, now, inode, res, s');
    RotateFrame(c, s, at, now, inode, res, s');
    assert Waiting(s') == Waiting(s);
    Subset(Waiting(s), s.pcs.Keys);
    LoadGrows(|Waiting(s)|, |s.pcs|, max);
    RotateRoom(c, s, s', Load(|Waiting(s)|, max), Load(|s.pcs|, max), inode, res.Renamed?);
  }

  lemma JoinFits(c: Config, s: State, w: nat, pc: Pc, max: nat)
    requires c.maxSize >= 1 && Fits(c, s, max) && w in s.pcs && !s.pcs[w].Ready?
    requires pc.Ready? ==> s.curSize < c.maxSize
    requires pc.Idle? || |pc.m.text| <= max
    ensures Fits(c, At(s, w, pc), max)
  {
    WaitingMoves(s, w, pc);
    var s' := At(s, w, pc);
    SameFiles(s, s');
    Subset(Waiting(s'), s'.pcs.Keys);
    LoadGrows(|Waiting(s')|, |s'.pcs|, max);
  }

  lemma LeaveFits(c: Config, s: State, w: nat, max: nat)
    requires Fits(c, s, max) && w in s.pcs && s.pcs[w].Ready?
    ensures Fits(c, At(s, w, Idle), max)
    ensures Room(c, s, Load(|Waiting(At(s, w, Idle))|, max) + max, Load(|s.pcs|, max))
  {
    WaitingMoves(s, w, Idle);
    SameFiles(s, At(s, w, Idle));
  }

  lemma WriteRoom(c: Config, s: State, w: nat, max: nat, pending: nat, all: nat)
    requires Kept(s) && w in s.pcs && s.pcs[w].Ready? && |s.pcs[w].m.text| <= max
    requires Room(c, s, pending + max, all) && Kept(Written(s, w, s.pcs[w].m))
    ensures Room(c, Written(s, w, s.pcs[w].m), pending, all)
  {
    SizeOfAppend(LiveFile(s), s.pcs[w].m);
  }

  lemma WriteMeasured(s: State, w: nat)
    requires Measured(s) && w in s.pcs && s.pcs[w].Ready?
    ensures Measured(Written(s, w, s.pcs[w].m))
  {
    WriteKeeps(s, w);
    SizeOfAppend(LiveFile(s), s.pcs[w].m);
  }

  lemma WriteFits(c: Config, s: State, w: nat, max: nat)
    requires Fits(c, s, max) && w in s.pcs && s.pcs[w].Ready?
    ensures Fits(c, Written(s, w, s.pcs[w].m), max)
  {
    WriteMeasured(s, w);
    LeaveFits(c, s, w, max);
    var s', left := Written(s, w, s.pcs[w].m), At(s, w, Idle);
    assert Waiting(s') == Waiting(left) && s'.pcs == left.pcs;
    WaitingMoves(s, w, Idle);
    WriteRoom(c, s, w, max, Load(|Waiting(left)|, max), Load(|s.pcs|, max));
  }

  lemma SecondCheckFits(c: Config, s: State, a: Action, s': State, max: nat)
    requires c.maxSize >= 1 && Fits(c, s, max) && a.SecondCheck? && Step(c, s, a, s') && !RotationFails(c, s, a)
    ensures Fits(c, s', max)
  {
    var pc := s.pcs[a.w];
    if Due(c, s, pc.WantsHourly?, pc.at) {
      var s1 :| DoRotate(c, s, pc.at, a.now, a.inode, a.res, s1) && s' == At(s1, a.w, Ready(pc.m));
      RotateFits(c, s, pc.at, a.now, a.inode, a.res, s1, max);
      RotateFrame(c, s, pc.at, a.now, a.inode, a.res, s1);
      JoinFits(c, s1, a.w, Ready(pc.m), max);
    } else {
      JoinFits(c, s, a.w, Ready(pc.m), max);
    }
  }

  lemma StepFits(c: Config, s: State, a: Action, s': State, max: nat)
    requires c.maxSize >= 1 && Fits(c, s, max) && Step(c, s, a, s') && !RotationFails(c, s, a)
    requires a.Begin? ==> |a.m.text| <= max
    ensures Fits(c, s', max)
  {
    match a
    case Begin(w, m, at) => JoinFits(c, s, w, Started(m, at), max);
    case FirstCheck(w) => JoinFits(c, s, w, Checked(c, s, s.pcs[w]), max);
    case SecondCheck(_, _, _, _) => SecondCheckFits(c, s, a, s', max);
    case Write(w) => WriteFits(c, s, w, max);
    case WriteFails(w) => LeaveFits(c, s, w, max);
    case Timer(byHour, at, now, inode, res) =>
      if Due(c, s, byHour, at) {
        RotateFits(c, s, at, now, inode, res, s', max);
      }
  }

  /** With W writers, a size limit and messages of at most `max` bytes, as long as due rotations
      take place, a file opened by a rotation stays below MaxSize + W * max bytes. */
  lemma {:induction false} RotatedFilesFit(c: Config, states: seq<State>, actions: seq<Action>, n: nat, max: nat)
    requires c.maxSize >= 1 && IsRun(c, states, actions) && n < |states|
    requires forall i :: 0 <= i < n ==> !RotationFails(c, states[i], actions[i])
    requires forall i :: 0 <= i < n && actions[i].Begin? ==> |actions[i].m.text| <= max
    ensures Fits(c, states[n], max)
    ensures forall file <- states[n].fromRotation :: SizeOf(states[n].content[file]) < c.maxSize + |states[n].pcs| * max
    decreases n
  {
    LoadIs(|states[n].pcs|, max);
    if n > 0 {
      RotatedFilesFit(c, states, actions, n - 1, max);
      StepFits(c, states[n - 1], actions[n - 1], states[n], max);
    } else {
      EveryMessageIsKept(c, states, actions, 0);
    }
  }
}
