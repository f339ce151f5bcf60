/**
  The prepared-statement cache of `client/orm/db_alias.go`: `DB.getStmtDecorator`, the
  reference count of `stmtDecorator`, and the eviction callback of the LRU cache, as atomic
  steps of any number of callers and of the goroutines that close evicted statements.
 */
module StmtCache {
  import opened Text

  type Query = string
  type Stmt = int      // one prepared statement with its decorator
  type Caller = int

  /** Where a caller of `ExecContext`, `QueryContext` or `QueryRowContext` stands. */
  datatype Pc =
    | Idle
    | Reading(q: Query)                    // read lock held, before the first lookup
    | ReadFound(q: Query, stmt: Stmt)      // read lock held, hit, before acquire
    | ReadAcquired(q: Query, stmt: Stmt)   // read lock held, acquired, before RUnlock
    | Missed(q: Query)                     // no lock held, between RUnlock and Lock
    | Writing(q: Query)                    // write lock held, before the second lookup
    | WriteFound(q: Query, stmt: Stmt)     // write lock held, hit, before acquire
    | Prepared(q: Query, stmt: Stmt)       // write lock held, new statement, before acquire
    | PreparedAcquired(q: Query, stmt: Stmt)
    | WriteAcquired(q: Query, stmt: Stmt)  // write lock held, before Unlock
    | Using(q: Query, stmt: Stmt)          // no lock held, release still to come
  {
    predicate Reads() { Reading? || ReadFound? || ReadAcquired? }

    predicate Writes() { Writing? || WriteFound? || Prepared? || PreparedAcquired? || WriteAcquired? }

    /** The statement this caller has acquired and not released. */
    function Ref(): Option<Stmt> {
      if ReadAcquired? || PreparedAcquired? || WriteAcquired? || Using? then Some(stmt) else None
    }
  }

  datatype State = State(
    capacity: nat,
    pcs: map<Caller, Pc>,
    cache: map<Query, Stmt>,
    made: set<Stmt>,           // every statement ever prepared
    source: map<Stmt, Query>,  // the query each was prepared from
    count: map<Stmt, int>,     // the wait group of its decorator
    evicted: set<Stmt>,        // destroy was called
    waited: set<Stmt>,         // its goroutine returned from Wait
    closed: set<Stmt>)

  datatype Action =
    | RLock(q: Query)
    | ReadLookup
    | ReadAcquire
    | RUnlock
    | Lock
    | WriteLookup
    | WriteAcquire
    | Prepare(stmt: Stmt)
    | PrepareFails
    | AcquireNew
    | Add(victim: Option<Query>)
    | Unlock
    | Release
    | WaitReturns(stmt: Stmt)
    | Close(stmt: Stmt)

  ghost predicate Init(s: State) {
    && s.capacity >= 1 && s.cache == map[] && s.made == {} && s.source == map[] && s.count == map[]
    && s.evicted == {} && s.waited == {} && s.closed == {}
    && forall t <- s.pcs :: s.pcs[t] == Idle
  }

  ghost predicate NoWriter(s: State) { forall t <- s.pcs :: !s.pcs[t].Writes() }

  ghost predicate NoReader(s: State) { forall t <- s.pcs :: !s.pcs[t].Reads() }

  function Count(s: State, stmt: Stmt): int { if stmt in s.count then s.count[stmt] else 0 }

  function At(s: State, t: Caller, pc: Pc): State { s.(pcs := s.pcs[t := pc]) }

  function Added(s: State, stmt: Stmt, d: int): State { s.(count := s.count[stmt := Count(s, stmt) + d]) }

  /** The cache after `Add`, and the statement handed to the eviction callback. */
  ghost predicate LruAdd(s: State, q: Query, stmt: Stmt, victim: Option<Query>, s': State) {
    if q in s.cache then
      // an existing key is overwritten, without calling back
      victim.None? && s' == s.(cache := s.cache[q := stmt])
    else if |s.cache| < s.capacity then
      victim.None? && s' == s.(cache := s.cache[q := stmt])
    else
      && victim.Some? && victim.value in s.cache
      && s' == s.(cache := (s.cache - {victim.value})[q := stmt], evicted := s.evicted + {s.cache[victim.value]})
  }

  ghost predicate Step(s: State, t: Caller, a: Action, s': State) {
    t in s.pcs &&
    var pc := s.pcs[t];
    match a
    case RLock(q) => pc.Idle? && NoWriter(s) && s' == At(s, t, Reading(q))
    case ReadLookup =>
      && pc.Reading?
      && s' == At(s, t, if pc.q in s.cache then ReadFound(pc.q, s.cache[pc.q]) else Missed(pc.q))
    case ReadAcquire => pc.ReadFound? && s' == At(Added(s, pc.stmt, 1), t, ReadAcquired(pc.q, pc.stmt))
    case RUnlock => pc.ReadAcquired? && s' == At(s, t, Using(pc.q, pc.stmt))
    case Lock => pc.Missed? && NoWriter(s) && NoReader(s) && s' == At(s, t, Writing(pc.q))
    case WriteLookup => pc.Writing? && pc.q in s.cache && s' == At(s, t, WriteFound(pc.q, s.cache[pc.q]))
    case WriteAcquire => pc.WriteFound? && s' == At(Added(s, pc.stmt, 1), t, WriteAcquired(pc.q, pc.stmt))
    case Prepare(stmt) =>
      && pc.Writing? && pc.q !in s.cache && stmt !in s.made
      && s' == At(s.(made := s.made + {stmt}, source := s.source[stmt := pc.q]), t, Prepared(pc.q, stmt))
    case PrepareFails => pc.Writing? && pc.q !in s.cache && s' == At(s, t, Idle)
    case AcquireNew => pc.Prepared? && s' == At(Added(s, pc.stmt, 1), t, PreparedAcquired(pc.q, pc.stmt))
    case Add(victim) =>
      && pc.PreparedAcquired?
      && exists s1 :: LruAdd(s, pc.q, pc.stmt, victim, s1) && s' == At(s1, t, WriteAcquired(pc.q, pc.stmt))
    case Unlock => pc.WriteAcquired? && s' == At(s, t, Using(pc.q, pc.stmt))
    case Release => pc.Using? && s' == At(Added(s, pc.stmt, -1), t, Idle)
    case WaitReturns(stmt) => stmt in s.evicted && Count(s, stmt) == 0 && s' == s.(waited := s.waited + {stmt})
    case Close(stmt) => stmt in s.waited && s' == s.(closed := s.closed + {stmt})
  }

  ghost predicate IsRun(states: seq<State>, callers: seq<Caller>, actions: seq<Action>) {
    && |states| == |actions| + 1 == |callers| + 1 && Init(states[0])
    && forall i :: 0 <= i < |actions| ==> Step(states[i], callers[i], actions[i], states[i + 1])
  }

  // ---- the invariant ----

  ghost function Refs(s: State, stmt: Stmt): set<Caller> {
    set t | t in s.pcs && s.pcs[t].Ref() == Some(stmt)
  }

  ghost predicate Exclusion(s: State) {
    forall t, u :: t in s.pcs && u in s.pcs && t != u && s.pcs[t].Writes() ==> !s.pcs[u].Writes() && !s.pcs[u].Reads()
  }

  ghost predicate CountsRefs(s: State) {
    forall stmt :: Count(s, stmt) == |Refs(s, stmt)|
  }

  ghost predicate CacheLive(s: State) {
    && (forall q <- s.cache :: s.cache[q] in s.made && s.cache[q] !in s.evicted)
    && (forall q, r :: q in s.cache && r in s.cache && s.cache[q] == s.cache[r] ==> q == r)
    && |s.cache| <= s.capacity && s.capacity >= 1
  }

  /** What a caller knows about the statement it is about to acquire or add. */
  ghost predicate PcOk(s: State, t: Caller)
    requires t in s.pcs
  {
    match s.pcs[t]
    case ReadFound(q, stmt) => q in s.cache && s.cache[q] == stmt
    case WriteFound(q, stmt) => q in s.cache && s.cache[q] == stmt
    case Prepared(q, stmt) => New(s, q, stmt)
    case PreparedAcquired(q, stmt) => New(s, q, stmt)
    case _ => s.pcs[t].Ref().Some? ==> s.pcs[t].Ref().value in s.made
  }

  ghost predicate New(s: State, q: Query, stmt: Stmt) {
    && q !in s.cache && stmt in s.made && stmt !in s.evicted
    && forall r <- s.cache :: s.cache[r] != stmt
  }

  ghost predicate Closing(s: State) {
    && s.evicted <= s.made && s.waited <= s.evicted && s.closed <= s.waited
    && forall stmt <- s.waited :: Count(s, stmt) == 0
  }

  /** Every statement ever opened is cached, handed to its closing goroutine, or about to be added. */
  ghost predicate NoLeak(s: State) {
    forall stmt <- s.made :: stmt in s.evicted || stmt in s.cache.Values || BeingAdded(s, stmt)
  }

  ghost predicate BeingAdded(s: State, stmt: Stmt) {
    exists t :: t in s.pcs && (s.pcs[t].Prepared? || s.pcs[t].PreparedAcquired?) && s.pcs[t].stmt == stmt
  }

  ghost predicate Inv(s: State) {
    && Exclusion(s) && CountsRefs(s) && CacheLive(s) && (forall t <- s.pcs :: PcOk(s, t)) && Closing(s) && NoLeak(s)
  }

  /** A caller moves: only its own reference can appear or disappear. */
  lemma RefsMove(s: State, t: Caller, pc: Pc, stmt: Stmt)
    requires t in s.pcs
    ensures Refs(At(s, t, pc), stmt) == if pc.Ref() == Some(stmt) then Refs(s, stmt) + {t} else Refs(s, stmt) - {t}
  {
  }

  lemma RefsSize(s: State, t: Caller, pc: Pc, stmt: Stmt)
    requires t in s.pcs
    ensures |Refs(At(s, t, pc), stmt)| == |Refs(s, stmt)| +
            (if pc.Ref() == Some(stmt) then 1 else 0) - (if s.pcs[t].Ref() == Some(stmt) then 1 else 0)
  {
    RefsMove(s, t, pc, stmt);
    assert t in Refs(s, stmt) <==> s.pcs[t].Ref() == Some(stmt);
  }

  lemma CountsSame(s: State, t: Caller, pc: Pc)
    requires t in s.pcs && CountsRefs(s) && pc.Ref() == s.pcs[t].Ref()
    ensures CountsRefs(At(s, t, pc))
  {
    forall stmt
      ensures Count(At(s, t, pc), stmt) == |Refs(At(s, t, pc), stmt)|
    {
      RefsSize(s, t, pc, stmt);
    }
  }

  lemma CountsUp(s: State, t: Caller, pc: Pc)
    requires t in s.pcs && CountsRefs(s) && s.pcs[t].Ref().None? && pc.Ref().Some?
    ensures CountsRefs(At(Added(s, pc.Ref().value, 1), t, pc))
  {
    var s' := At(Added(s, pc.Ref().value, 1), t, pc);
    forall stmt
      ensures Count(s', stmt) == |Refs(s', stmt)|
    {
      RefsSize(s, t, pc, stmt);
      assert Refs(s', stmt) == Refs(At(s, t, pc), stmt);
    }
  }

  lemma CountsDown(s: State, t: Caller, pc: Pc)
    requires t in s.pcs && CountsRefs(s) && s.pcs[t].Ref().Some? && pc.Ref().None?
    ensures CountsRefs(At(Added(s, s.pcs[t].Ref().value, -1), t, pc))
  {
    var s' := At(Added(s, s.pcs[t].Ref().value, -1), t, pc);
    forall stmt
      ensures Count(s', stmt) == |Refs(s', stmt)|
    {
      RefsSize(s, t, pc, stmt);
      assert Refs(s', stmt) == Refs(At(s, t, pc), stmt);
    }
  }

  lemma CountsFrame(s: State, s': State)
    requires CountsRefs(s) && s'.pcs == s.pcs && s'.count == s.count
    ensures CountsRefs(s')
  {
    forall stmt
      ensures Count(s', stmt) == |Refs(s', stmt)|
    {
      assert Count(s, stmt) == |Refs(s, stmt)|;
      assert Refs(s', stmt) == Refs(s, stmt);
    }
  }

  lemma StepKeepsCounts(s: State, t: Caller, a: Action, s': State)
    requires CountsRefs(s) && Step(s, t, a, s')
    ensures CountsRefs(s')
  {
    match a
    case ReadAcquire => CountsUp(s, t, s'.pcs[t]);
    case WriteAcquire => CountsUp(s, t, s'.pcs[t]);
    case AcquireNew => CountsUp(s, t, s'.pcs[t]);
    case Release => CountsDown(s, t, s'.pcs[t]);
    case WaitReturns(_) => CountsFrame(s, s');
    case Close(_) => CountsFrame(s, s');
    case Add(victim) =>
      CountsSame(s, t, s'.pcs[t]);
      CountsFrame(At(s, t, s'.pcs[t]), s');
    case Prepare(_) =>
      CountsSame(s, t, s'.pcs[t]);
      CountsFrame(At(s, t, s'.pcs[t]), s');
    case _ => CountsSame(s, t, s'.pcs[t]);
  }

  lemma StepKeepsExclusion(s: State, t: Caller, a: Action, s': State)
    requires Exclusion(s) && Step(s, t, a, s')
    ensures Exclusion(s')
  {
    forall u, v | u in s'.pcs && v in s'.pcs && u != v && s'.pcs[u].Writes()
      ensures !s'.pcs[v].Writes() && !s'.pcs[v].Reads()
    {
      PairExcluded(s, t, a, s', u, v);
    }
  }

  /** A step moves only its caller, and into a lock only as the lock allows. */
  lemma OnlyOwnMoves(s: State, t: Caller, a: Action, s': State)
    requires Step(s, t, a, s')
    ensures t in s'.pcs && s'.pcs == s.pcs[t := s'.pcs[t]]
    ensures s'.pcs[t].Writes() && !s.pcs[t].Writes() ==> NoWriter(s) && NoReader(s)
    ensures s'.pcs[t].Reads() && !s.pcs[t].Reads() ==> NoWriter(s)
  {
    if a.Add? {
      assert s'.pcs[t].WriteAcquired?;
    }
  }

  lemma PairExcluded(s: State, t: Caller, a: Action, s': State, u: Caller, v: Caller)
    requires Exclusion(s) && Step(s, t, a, s') && u in s'.pcs && v in s'.pcs && u != v && s'.pcs[u].Writes()
    ensures !s'.pcs[v].Writes() && !s'.pcs[v].Reads()
  {
    OnlyOwnMoves(s, t, a, s');
  }

  lemma AddKeepsPc(s: State, t: Caller, a: Action, s': State, u: Caller)
    requires Inv(s) && Step(s, t, a, s') && a.Add? && u in s'.pcs
    ensures PcOk(s', u)
  {
    assert PcOk(s, u) && PcOk(s, t);
    OnlyOwnMoves(s, t, a, s');
    assert s'.made == s.made;
    assert u != t ==> s'.pcs[u] == s.pcs[u] && !s.pcs[u].Writes() && !s.pcs[u].Reads();
  }

  lemma MoveKeepsPc(s: State, t: Caller, a: Action, s': State, u: Caller)
    requires Inv(s) && Step(s, t, a, s') && !a.Add? && u in s'.pcs
    ensures PcOk(s', u)
  {
    assert PcOk(s, u) && PcOk(s, t);
    if u == t {
      OwnPc(s, t, a, s');
    } else {
      OtherPc(s, t, a, s', u);
    }
  }

  lemma OwnPc(s: State, t: Caller, a: Action, s': State)
    requires Step(s, t, a, s') && !a.Add? && PcOk(s, t) && CacheLive(s) && s.evicted <= s.made
    ensures t in s'.pcs && PcOk(s', t)
  {
    if a.ReadLookup? || a.WriteLookup? || a.Prepare? {
      assert s'.cache == s.cache && s'.evicted == s.evicted;
    } else {
      OwnPcMoves(s, t, a, s');
    }
  }

  lemma OwnPcMoves(s: State, t: Caller, a: Action, s': State)
    requires Step(s, t, a, s') && !a.Add? && !a.ReadLookup? && !a.WriteLookup? && !a.Prepare? && PcOk(s, t) && CacheLive(s)
    ensures t in s'.pcs && PcOk(s', t)
  {
    assert s'.cache == s.cache && s'.evicted == s.evicted && s'.made == s.made;
  }

  lemma OtherPc(s: State, t: Caller, a: Action, s': State, u: Caller)
    requires Step(s, t, a, s') && !a.Add? && u != t && u in s.pcs && PcOk(s, u)
    ensures u in s'.pcs && PcOk(s', u)
  {
    assert s'.cache == s.cache && s'.evicted == s.evicted && s.made <= s'.made && s'.pcs[u] == s.pcs[u];
  }

  /** With a writer inside, what a caller knows about the cache stays true for the others. */
  lemma StepKeepsPcs(s: State, t: Caller, a: Action, s': State)
    requires Inv(s) && Step(s, t, a, s')
    ensures forall u <- s'.pcs :: PcOk(s', u)
  {
    forall u | u in s'.pcs
      ensures PcOk(s', u)
    {
      if a.Add? {
        AddKeepsPc(s, t, a, s', u);
      } else {
        MoveKeepsPc(s, t, a, s', u);
      }
    }
  }

  lemma ExtendedSize(cache: map<Query, Stmt>, q: Query, stmt: Stmt)
    requires q !in cache
    ensures |cache[q := stmt]| == |cache| + 1
  {
    assert cache[q := stmt].Keys == cache.Keys + {q};
    assert |cache| == |cache.Keys| && |cache[q := stmt]| == |cache[q := stmt].Keys|;
  }

  lemma ReducedSize(cache: map<Query, Stmt>, q: Query)
    requires q in cache
    ensures |cache - {q}| == |cache| - 1
  {
    assert (cache - {q}).Keys == cache.Keys - {q};
    assert |cache| == |cache.Keys| && |cache - {q}| == |(cache - {q}).Keys|;
  }

  lemma LruAddSize(s: State, q: Query, stmt: Stmt, victim: Option<Query>, s1: State)
    requires |s.cache| <= s.capacity && s.capacity >= 1 && q !in s.cache && LruAdd(s, q, stmt, victim, s1)
    ensures |s1.cache| <= s1.capacity
  {
    if victim.Some? {
      ReducedSize(s.cache, victim.value);
      ExtendedSize(s.cache - {victim.value}, q, stmt);
    } else {
      ExtendedSize(s.cache, q, stmt);
    }
  }

  lemma LruAddLive(s: State, q: Query, stmt: Stmt, victim: Option<Query>, s1: State)
    requires CacheLive(s) && New(s, q, stmt) && LruAdd(s, q, stmt, victim, s1)
    ensures CacheLive(s1)
  {
    LruAddSize(s, q, stmt, victim, s1);
    forall r | r in s1.cache
      ensures s1.cache[r] in s1.made && s1.cache[r] !in s1.evicted
      ensures s1.cache[r] == stmt || (r in s.cache && s1.cache[r] == s.cache[r])
      ensures s1.cache[r] == stmt ==> r == q
    {
      if r != q {
        assert r in s.cache && (victim.Some? ==> r != victim.value);
        assert s1.cache[r] == s.cache[r];
      }
    }
  }

  lemma StepKeepsCache(s: State, t: Caller, a: Action, s': State)
    requires Inv(s) && Step(s, t, a, s')
    ensures CacheLive(s')
  {
    assert PcOk(s, t);
    if a.Add? {
      var pc := s.pcs[t];
      var s1 :| LruAdd(s, pc.q, pc.stmt, a.victim, s1) && s' == At(s1, t, WriteAcquired(pc.q, pc.stmt));
      LruAddLive(s, pc.q, pc.stmt, a.victim, s1);
    }
  }

  lemma EvictedCountStep(s: State, t: Caller, a: Action, s': State, stmt: Stmt)
    requires Inv(s) && Step(s, t, a, s') && stmt in s.evicted
    ensures stmt in s'.evicted && Count(s', stmt) <= Count(s, stmt)
  {
    assert PcOk(s, t);
  }

  lemma ClosingSets(s: State, t: Caller, a: Action, s': State)
    requires Inv(s) && Step(s, t, a, s')
    ensures s'.evicted <= s'.made && s'.waited <= s'.evicted && s'.closed <= s'.waited
  {
    assert s.made <= s'.made && s.evicted <= s'.evicted;
  }

  /** A statement about to be acquired is not waited for, and one that is held cannot be. */
  lemma StepKeepsClosing(s: State, t: Caller, a: Action, s': State)
    requires Inv(s) && Step(s, t, a, s')
    ensures Closing(s')
  {
    ClosingSets(s, t, a, s');
    StepKeepsCounts(s, t, a, s');
    forall stmt | stmt in s'.waited
      ensures Count(s', stmt) == 0
    {
      WaitedIsFree(s, t, a, s', stmt);
    }
  }

  lemma WaitedIsFree(s: State, t: Caller, a: Action, s': State, stmt: Stmt)
    requires Inv(s) && Step(s, t, a, s') && CountsRefs(s') && stmt in s'.waited
    ensures Count(s', stmt) == 0
  {
    if stmt in s.waited {
      EvictedCountStep(s, t, a, s', stmt);
      assert Count(s', stmt) == |Refs(s', stmt)|;
    }
  }

  lemma HeldIsCounted(s: State, t: Caller)
    requires CountsRefs(s) && t in s.pcs && s.pcs[t].Ref().Some?
    ensures Count(s, s.pcs[t].Ref().value) >= 1
  {
    assert t in Refs(s, s.pcs[t].Ref().value);
  }

  lemma StepKeepsNoLeak(s: State, t: Caller, a: Action, s': State)
    requires Inv(s) && Step(s, t, a, s')
    ensures NoLeak(s')
  {
    forall stmt | stmt in s'.made
      ensures stmt in s'.evicted || stmt in s'.cache.Values || BeingAdded(s', stmt)
    {
      if stmt in s.cache.Values {
        CachedIsNotLost(s, t, a, s', stmt);
      } else if stmt in s.made && stmt !in s.evicted {
        AddedIsNotLost(s, t, a, s', stmt);
      } else if stmt !in s.made {
        assert s'.pcs[t].Prepared?;
      }
    }
  }

  lemma LruKeeps(s: State, q: Query, stmt: Stmt, victim: Option<Query>, s1: State, r: Query)
    requires q !in s.cache && LruAdd(s, q, stmt, victim, s1) && r in s.cache
    ensures s.cache[r] in s1.evicted || (r in s1.cache && s1.cache[r] == s.cache[r])
  {
  }

  lemma CachedIsNotLost(s: State, t: Caller, a: Action, s': State, stmt: Stmt)
    requires Inv(s) && Step(s, t, a, s') && stmt in s.cache.Values
    ensures stmt in s'.evicted || stmt in s'.cache.Values
  {
    var q :| q in s.cache && s.cache[q] == stmt;
    if a.Add? {
      var pc := s.pcs[t];
      assert PcOk(s, t);
      var s1 :| LruAdd(s, pc.q, pc.stmt, a.victim, s1) && s' == At(s1, t, WriteAcquired(pc.q, pc.stmt));
      LruKeeps(s, pc.q, pc.stmt, a.victim, s1, q);
    } else {
      assert s'.cache == s.cache;
    }
  }

  lemma AddedIsNotLost(s: State, t: Caller, a: Action, s': State, stmt: Stmt)
    requires Inv(s) && Step(s, t, a, s') && BeingAdded(s, stmt)
    ensures stmt in s'.cache.Values || BeingAdded(s', stmt)
  {
    var u :| u in s.pcs && (s.pcs[u].Prepared? || s.pcs[u].PreparedAcquired?) && s.pcs[u].stmt == stmt;
    if u != t {
      OnlyOwnMoves(s, t, a, s');
      assert u in s'.pcs && s'.pcs[u] == s.pcs[u];
    } else if a.Add? {
      assert s'.cache[s.pcs[t].q] == stmt;
    } else {
      assert s'.pcs[t].PreparedAcquired? || s'.pcs[t] == s.pcs[t];
    }
  }

  lemma StepKeepsInv(s: State, t: Caller, a: Action, s': State)
    requires Inv(s) && Step(s, t, a, s')
    ensures Inv(s')
  {
    StepKeepsExclusion(s, t, a, s');
    StepKeepsCounts(s, t, a, s');
    StepKeepsPcs(s, t, a, s');
    StepKeepsCache(s, t, a, s');
    StepKeepsClosing(s, t, a, s');
    StepKeepsNoLeak(s, t, a, s');
  }

  // ---- what holds in every run ----

  lemma InitHasInv(s: State)
    requires Init(s)
    ensures Inv(s)
  {
    forall stmt
      ensures Refs(s, stmt) == {}
    {
      IdleHoldsNothing(s, stmt);
    }
  }

  lemma IdleHoldsNothing(s: State, stmt: Stmt)
    requires forall t <- s.pcs :: s.pcs[t].Idle?
    ensures Refs(s, stmt) == {}
  {
    assert forall t <- s.pcs :: s.pcs[t].Ref() != Some(stmt);
  }

  lemma {:induction false} RunsKeepInv(states: seq<State>, callers: seq<Caller>, actions: seq<Action>, n: nat)
    requires IsRun(states, callers, actions) && n < |states|
    ensures Inv(states[n])
    decreases n
  {
    if n == 0 {
      InitHasInv(states[0]);
    } else {
      RunsKeepInv(states, callers, actions, n - 1);
      StepKeepsInv(states[n - 1], callers[n - 1], actions[n - 1], states[n]);
    }
  }

  /** In every interleaving: no caller holds a closed statement, a statement is closed only
      with count zero, the cache holds distinct live statements within its capacity, and every
      statement ever prepared is cached, being added, or on its way to be closed. */
  lemma RunsAreSafe(states: seq<State>, callers: seq<Caller>, actions: seq<Action>, n: nat)
    requires IsRun(states, callers, actions) && n < |states|
    ensures var s := states[n];
      && (forall t <- s.pcs :: s.pcs[t].Ref().Some? ==> s.pcs[t].Ref().value !in s.closed)
      && (forall stmt <- s.closed :: Count(s, stmt) == 0)
      && (forall stmt :: Count(s, stmt) == |Refs(s, stmt)|)
      && CacheLive(s) && NoLeak(s)
  {
    RunsKeepInv(states, callers, actions, n);
    var s := states[n];
    forall t | t in s.pcs && s.pcs[t].Ref().Some?
      ensures s.pcs[t].Ref().value !in s.closed
    {
      HeldIsCounted(s, t);
    }
  }

  /** Once evicted, a statement is never acquired again. */
  lemma {:induction false} EvictedCountNeverRises(states: seq<State>, callers: seq<Caller>, actions: seq<Action>, i: nat, j: nat, stmt: Stmt)
    requires IsRun(states, callers, actions) && i <= j < |states| && stmt in states[i].evicted
    ensures stmt in states[j].evicted && Count(states[j], stmt) <= Count(states[i], stmt)
    decreases j - i
  {
    if i < j {
      EvictedCountNeverRises(states, callers, actions, i, j - 1, stmt);
      EvictedInRun(states, callers, actions, j - 1, stmt);
    }
  }

  lemma EvictedInRun(states: seq<State>, callers: seq<Caller>, actions: seq<Action>, j: nat, stmt: Stmt)
    requires IsRun(states, callers, actions) && j < |actions| && stmt in states[j].evicted
    ensures stmt in states[j + 1].evicted && Count(states[j + 1], stmt) <= Count(states[j], stmt)
  {
    RunsKeepInv(states, callers, actions, j);
    var s, t, a, s' := states[j], callers[j], actions[j], states[j + 1];
    assert Step(s, t, a, s');
    EvictedCountStep(s, t, a, s', stmt);
  }

  /** `Add` never overwrites an entry, so the callback sees every statement that leaves the cache. */
  lemma AddNeverOverwrites(states: seq<State>, callers: seq<Caller>, actions: seq<Action>, n: nat)
    requires IsRun(states, callers, actions) && n < |actions| && actions[n].Add?
    ensures callers[n] in states[n].pcs && states[n].pcs[callers[n]].PreparedAcquired?
    ensures states[n].pcs[callers[n]].q !in states[n].cache
    ensures forall q <- states[n].cache :: states[n].cache[q] in states[n + 1].cache.Values + states[n + 1].evicted
  {
    RunsKeepInv(states, callers, actions, n);
    var s, s', t := states[n], states[n + 1], callers[n];
    assert Step(s, t, actions[n], s');
    assert PcOk(s, t);
    forall q | q in s.cache
      ensures s.cache[q] in s'.cache.Values + s'.evicted
    {
      assert s.cache[q] in s'.evicted || (q in s'.cache && s'.cache[q] == s.cache[q]);
    }
  }

  /** When all callers are idle, every statement outside the cache can be closed. */
  lemma IdleStatementsCanClose(states: seq<State>, callers: seq<Caller>, actions: seq<Action>, n: nat, stmt: Stmt, t: Caller)
    requires IsRun(states, callers, actions) && n < |states| && t in states[n].pcs
    requires forall u <- states[n].pcs :: states[n].pcs[u].Idle?
    requires stmt in states[n].made && stmt !in states[n].cache.Values
    ensures var s := states[n];
      var s1 := s.(waited := s.waited + {stmt});
      Step(s, t, WaitReturns(stmt), s1) && Step(s1, t, Close(stmt), s1.(closed := s.closed + {stmt}))
  {
    RunsKeepInv(states, callers, actions, n);
    var s := states[n];
    IdleHoldsNothing(s, stmt);
    assert !BeingAdded(s, stmt);
  }

  // ---- every caller uses a statement of its own query ----

  ghost predicate FromQuery(s: State, q: Query, stmt: Stmt) {
    stmt in s.made && stmt in s.source && s.source[stmt] == q
  }

  predicate HasStmt(pc: Pc) {
    pc.ReadFound? || pc.ReadAcquired? || pc.WriteFound? || pc.Prepared? || pc.PreparedAcquired? || pc.WriteAcquired? || pc.Using?
  }

  ghost predicate OwnQueries(s: State) {
    && (forall q <- s.cache :: FromQuery(s, q, s.cache[q]))
    && (forall t <- s.pcs :: HasStmt(s.pcs[t]) ==> FromQuery(s, s.pcs[t].q, s.pcs[t].stmt))
  }

  lemma SourceStays(s: State, t: Caller, a: Action, s': State, q: Query, stmt: Stmt)
    requires Step(s, t, a, s') && FromQuery(s, q, stmt)
    ensures FromQuery(s', q, stmt)
  {
  }

  lemma CachedFrom(s: State, t: Caller, a: Action, s': State, q: Query)
    requires OwnQueries(s) && Step(s, t, a, s') && q in s'.cache
    ensures FromQuery(s, q, s'.cache[q])
  {
    assert (q in s.cache && s'.cache[q] == s.cache[q]) || (a.Add? && q == s.pcs[t].q && s'.cache[q] == s.pcs[t].stmt);
  }

  lemma OwnStmtFrom(s: State, t: Caller, a: Action, s': State)
    requires OwnQueries(s) && Step(s, t, a, s') && t in s'.pcs && HasStmt(s'.pcs[t])
    ensures FromQuery(s', s'.pcs[t].q, s'.pcs[t].stmt)
  {
    if !a.Prepare? {
      assert FromQuery(s, s'.pcs[t].q, s'.pcs[t].stmt);
    }
  }

  lemma StepKeepsQueries(s: State, t: Caller, a: Action, s': State)
    requires OwnQueries(s) && Step(s, t, a, s')
    ensures OwnQueries(s')
  {
    forall q | q in s'.cache
      ensures FromQuery(s', q, s'.cache[q])
    {
      CachedFrom(s, t, a, s', q);
      SourceStays(s, t, a, s', q, s'.cache[q]);
    }
    forall u | u in s'.pcs && HasStmt(s'.pcs[u])
      ensures FromQuery(s', s'.pcs[u].q, s'.pcs[u].stmt)
    {
      if u == t {
        OwnStmtFrom(s, t, a, s');
      } else {
        assert s'.pcs[u] == s.pcs[u];
        SourceStays(s, t, a, s', s.pcs[u].q, s.pcs[u].stmt);
      }
    }
  }

  /** In every run, a statement in use was prepared from the query of the call that uses it, and
      so was every cached one from its key. */
  lemma {:induction false} RunsUseOwnQuery(states: seq<State>, callers: seq<Caller>, actions: seq<Action>, n: nat)
    requires IsRun(states, callers, actions) && n < |states|
    ensures OwnQueries(states[n])
    decreases n
  {
    if n > 0 {
      RunsUseOwnQuery(states, callers, actions, n - 1);
      StepKeepsQueries(states[n - 1], callers[n - 1], actions[n - 1], states[n]);
    }
  }

  /** A call keeps its query from its first step to its release. */
  lemma CallKeepsQuery(s: State, t: Caller, a: Action, s': State)
    requires Step(s, t, a, s')
    ensures a.RLock? ==> s'.pcs[t] == Reading(a.q)
    ensures !s.pcs[t].Idle? && !s'.pcs[t].Idle? ==> s'.pcs[t].q == s.pcs[t].q
  {
  }
}
