/**
  The signing-key cache shared by any number of threads: every atomic step that `signing_key` can take
  under the read/write lock, in every interleaving.
 */
module CacheProtocol {
  import opened Wrappers
  import opened ByteStrings
  import opened Crypto
  import opened SigningCache

  type Thread = int

  /** Where a thread is inside `signing_key`; `before` is the cache its write section started from. */
  datatype Phase =
    | Idle
    | Called(s: Scope)
    | Reading(s: Scope)
    | Missed(s: Scope)
    | Writing(s: Scope, before: seq<Entry>)
    | Reinserting(s: Scope, found: Entry, before: seq<Entry>)
    | Trimming(s: Scope, key: Digest, before: seq<Entry>)
    | Leaving(s: Scope, key: Digest, before: seq<Entry>)
    | Returned(s: Scope, key: Digest)
  {
    predicate HoldsWriteLock() { Writing? || Reinserting? || Trimming? || Leaving? }
  }

  /** The shared cache, the lock, and the threads that have ever called. */
  datatype System = System(
    entries: seq<Entry>,
    readers: set<Thread>,
    writer: Option<Thread>,
    phases: map<Thread, Phase>)
  {
    function PhaseOf(t: Thread): Phase { if t in phases then phases[t] else Idle }

    function Move(t: Thread, p: Phase): System { this.(phases := phases[t := p]) }
  }

  datatype Action =
    | Call(s: Scope)
    | LockRead
    | ScanHit
    | ScanMiss
    | LockWrite
    | TakeFound
    | PushFound
    | PushNew
    | PopOldest
    | StopTrimming
    | Unlock

  const START: System := System([], {}, None, map[])

  /** One step of thread `t`; `None` when the step is not enabled. */
  function Step(crypto: Primitives, seed: Bytes, y: System, t: Thread, a: Action): Option<System> {
    var p := y.PhaseOf(t);
    match a
    case Call(s) =>
      if p.Idle? || p.Returned? then Some(y.Move(t, Called(s))) else None
    case LockRead =>
      if p.Called? && y.writer == None then Some(y.(readers := y.readers + {t}).Move(t, Reading(p.s))) else None
    case ScanHit =>
      if p.Reading? && Cached(y.entries, p.s)
      then Some(y.(readers := y.readers - {t}).Move(t, Returned(p.s, y.entries[Position(y.entries, p.s)].key)))
      else None
    case ScanMiss =>
      if p.Reading? && !Cached(y.entries, p.s) then Some(y.(readers := y.readers - {t}).Move(t, Missed(p.s))) else None
    case LockWrite =>
      if p.Missed? && y.writer == None && y.readers == {}
      then Some(y.(writer := Some(t)).Move(t, Writing(p.s, y.entries)))
      else None
    case TakeFound =>
      if p.Writing? && Cached(y.entries, p.s)
      then
        var i := Position(y.entries, p.s);
        Some(y.(entries := WithoutAt(y.entries, i)).Move(t, Reinserting(p.s, y.entries[i], p.before)))
      else None
    case PushFound =>
      if p.Reinserting?
      then Some(y.(entries := [p.found] + y.entries).Move(t, Leaving(p.s, p.found.key, p.before)))
      else None
    case PushNew =>
      if p.Writing? && !Cached(y.entries, p.s)
      then
        var e := NewEntry(crypto, seed, p.s);
        Some(y.(entries := [e] + y.entries).Move(t, Trimming(p.s, e.key, p.before)))
      else None
    case PopOldest =>
      if p.Trimming? && |y.entries| > CAPACITY
      then Some(y.(entries := y.entries[..|y.entries| - 1]).Move(t, p))
      else None
    case StopTrimming =>
      if p.Trimming? && |y.entries| <= CAPACITY then Some(y.Move(t, Leaving(p.s, p.key, p.before))) else None
    case Unlock =>
      if p.Leaving? then Some(y.(writer := None).Move(t, Returned(p.s, p.key))) else None
  }

  /** What the cache looks like while one thread is inside its write section. */
  predicate WriteProgress(crypto: Primitives, seed: Bytes, entries: seq<Entry>, p: Phase) {
    match p
    case Writing(s, before) =>
      Good(crypto, seed, before) && entries == before
    case Reinserting(s, found, before) =>
      && Good(crypto, seed, before) && Cached(before, s)
      && found == before[Position(before, s)] && entries == WithoutAt(before, Position(before, s))
    case Trimming(s, key, before) =>
      && Good(crypto, seed, before) && !Cached(before, s) && key == DeriveKey(crypto, seed, s)
      && var pushed := [NewEntry(crypto, seed, s)] + before;
         entries <= pushed && |entries| >= |Bounded(pushed)|
    case Leaving(s, key, before) =>
      && Good(crypto, seed, before) && key == DeriveKey(crypto, seed, s)
      && entries == AfterWrite(crypto, seed, before, s)
    case _ => false
  }

  ghost predicate LockDiscipline(y: System) {
    && (y.writer.Some? ==> y.readers == {})
    && (forall t :: t in y.readers <==> y.PhaseOf(t).Reading?)
    && (forall t :: y.writer == Some(t) <==> y.PhaseOf(t).HoldsWriteLock())
  }

  ghost predicate AnswersDerived(crypto: Primitives, seed: Bytes, y: System) {
    forall t :: y.PhaseOf(t).Returned? ==> y.PhaseOf(t).key == DeriveKey(crypto, seed, y.PhaseOf(t).s)
  }

  predicate CacheState(crypto: Primitives, seed: Bytes, y: System) {
    match y.writer
    case None => Good(crypto, seed, y.entries)
    case Some(w) => WriteProgress(crypto, seed, y.entries, y.PhaseOf(w))
  }

  ghost predicate Invariant(crypto: Primitives, seed: Bytes, y: System) {
    LockDiscipline(y) && AnswersDerived(crypto, seed, y) && CacheState(crypto, seed, y)
  }

  lemma StepKeepsLocks(crypto: Primitives, seed: Bytes, y: System, t: Thread, a: Action)
    requires LockDiscipline(y) && Step(crypto, seed, y, t, a).Some?
    ensures LockDiscipline(Step(crypto, seed, y, t, a).value)
  {
    var y' := Step(crypto, seed, y, t, a).value;
    assert forall u :: u != t ==> y'.PhaseOf(u) == y.PhaseOf(u);
    assert y.PhaseOf(t).Reading? <==> t in y.readers;
    assert y.PhaseOf(t).HoldsWriteLock() <==> y.writer == Some(t);
  }

  lemma StepKeepsAnswers(crypto: Primitives, seed: Bytes, y: System, t: Thread, a: Action)
    requires Invariant(crypto, seed, y) && Step(crypto, seed, y, t, a).Some?
    ensures AnswersDerived(crypto, seed, Step(crypto, seed, y, t, a).value)
  {
    var y' := Step(crypto, seed, y, t, a).value;
    assert forall u :: u != t ==> y'.PhaseOf(u) == y.PhaseOf(u);
    assert t in y.readers <==> y.PhaseOf(t).Reading?;
    assert y.writer == Some(t) <==> y.PhaseOf(t).HoldsWriteLock();
  }

  lemma TrimmedIsAfterWrite(crypto: Primitives, seed: Bytes, entries: seq<Entry>, p: Phase)
    requires p.Trimming? && WriteProgress(crypto, seed, entries, p) && |entries| <= CAPACITY
    ensures entries == AfterWrite(crypto, seed, p.before, p.s)
  {
  }

  lemma StepKeepsCache(crypto: Primitives, seed: Bytes, y: System, t: Thread, a: Action)
    requires Invariant(crypto, seed, y) && Step(crypto, seed, y, t, a).Some?
    ensures CacheState(crypto, seed, Step(crypto, seed, y, t, a).value)
  {
    var p := y.PhaseOf(t);
    assert y.writer == Some(t) <==> p.HoldsWriteLock();
    if p.HoldsWriteLock() {
      WriteKeepsGood(crypto, seed, p.before, p.s);
      if a.StopTrimming? { TrimmedIsAfterWrite(crypto, seed, y.entries, p); }
    }
  }

  lemma StepKeepsInvariant(crypto: Primitives, seed: Bytes, y: System, t: Thread, a: Action)
    requires Invariant(crypto, seed, y) && Step(crypto, seed, y, t, a).Some?
    ensures Invariant(crypto, seed, Step(crypto, seed, y, t, a).value)
  {
    StepKeepsLocks(crypto, seed, y, t, a);
    StepKeepsAnswers(crypto, seed, y, t, a);
    StepKeepsCache(crypto, seed, y, t, a);
  }

  /** The state after a schedule: a list of which thread takes which step; `None` if some step was not enabled. */
  function Run(crypto: Primitives, seed: Bytes, y: System, schedule: seq<(Thread, Action)>): Option<System>
    decreases |schedule|
  {
    if schedule == [] then Some(y)
    else
      match Step(crypto, seed, y, schedule[0].0, schedule[0].1)
      case None => None
      case Some(next) => Run(crypto, seed, next, schedule[1..])
  }

  lemma {:induction false} RunKeepsInvariant(crypto: Primitives, seed: Bytes, y: System,
                                             schedule: seq<(Thread, Action)>)
    requires Invariant(crypto, seed, y) && Run(crypto, seed, y, schedule).Some?
    ensures Invariant(crypto, seed, Run(crypto, seed, y, schedule).value)
    decreases |schedule|
  {
    if schedule == [] {
    } else {
      var (t, a) := schedule[0];
      StepKeepsInvariant(crypto, seed, y, t, a);
      RunKeepsInvariant(crypto, seed, Step(crypto, seed, y, t, a).value, schedule[1..]);
    }
  }

  /** Inside a write section as well, no scope occurs twice and every key is derived. */
  lemma EntriesStaySound(crypto: Primitives, seed: Bytes, y: System)
    requires Invariant(crypto, seed, y)
    ensures Distinct(y.entries) && Derived(crypto, seed, y.entries)
  {
    if y.writer.Some? {
      var p := y.PhaseOf(y.writer.value);
      match p
      case Reinserting(s, _, before) => assert y.entries == WithoutAt(before, Position(before, s));
      case Trimming(s, _, before) => PushedIsSound(crypto, seed, before, s);
      case Leaving(s, _, before) => WriteKeepsGood(crypto, seed, before, s);
      case _ =>
    }
  }

  lemma PushedIsSound(crypto: Primitives, seed: Bytes, before: seq<Entry>, s: Scope)
    requires Good(crypto, seed, before) && !Cached(before, s)
    ensures var pushed := [NewEntry(crypto, seed, s)] + before; Distinct(pushed) && Derived(crypto, seed, pushed)
  {
  }

  /** The scope of the last call a thread makes in a schedule. */
  function LastCall(schedule: seq<(Thread, Action)>, t: Thread): Option<Scope>
    decreases |schedule|
  {
    if schedule == [] then None
    else
      var (u, a) := schedule[0];
      match LastCall(schedule[1..], t)
      case Some(s) => Some(s)
      case None => if u == t && a.Call? then Some(a.s) else None
  }

  function ScopeIn(p: Phase): Option<Scope> { if p.Idle? then None else Some(p.s) }

  /** A step changes what a thread works on only when that thread makes a call. */
  lemma StepKeepsScopes(crypto: Primitives, seed: Bytes, y: System, t: Thread, a: Action, u: Thread)
    requires Step(crypto, seed, y, t, a).Some?
    ensures ScopeIn(Step(crypto, seed, y, t, a).value.PhaseOf(u))
         == if u == t && a.Call? then Some(a.s) else ScopeIn(y.PhaseOf(u))
  {
  }

  /** In every run a thread works on, and is answered for, the scope of its own last call. */
  lemma {:induction false} PhaseIsLastCall(crypto: Primitives, seed: Bytes, y: System,
                                           schedule: seq<(Thread, Action)>, t: Thread)
    requires Run(crypto, seed, y, schedule).Some?
    ensures ScopeIn(Run(crypto, seed, y, schedule).value.PhaseOf(t))
         == match LastCall(schedule, t) case Some(s) => Some(s) case None => ScopeIn(y.PhaseOf(t))
    decreases |schedule|
  {
    if schedule == [] {
    } else {
      var (u, a) := schedule[0];
      StepKeepsScopes(crypto, seed, y, u, a, t);
      PhaseIsLastCall(crypto, seed, Step(crypto, seed, y, u, a).value, schedule[1..], t);
    }
  }

  /** A call that has returned has returned the derived key of the scope that its thread last called with. */
  ghost predicate AnswersOwnCall(crypto: Primitives, seed: Bytes, schedule: seq<(Thread, Action)>, p: Phase,
                                 t: Thread) {
    p.Returned? ==> LastCall(schedule, t) == Some(p.s) && p.key == DeriveKey(crypto, seed, p.s)
  }

  /**
    In every interleaving of any number of calls: each answer is the derived key of the scope its thread
    called with, a writer excludes all others, no scope is ever cached twice, every cached key is the derived
    one, and the cache is within its bound except for one entry inside a write section.
   */
  lemma ConcurrentCacheIsTransparent(crypto: Primitives, seed: Bytes, schedule: seq<(Thread, Action)>)
    requires Run(crypto, seed, START, schedule).Some?
    ensures var y := Run(crypto, seed, START, schedule).value;
            && (forall t :: AnswersOwnCall(crypto, seed, schedule, y.PhaseOf(t), t))
            && (forall t, u ::
                  y.PhaseOf(t).HoldsWriteLock() && (y.PhaseOf(u).Reading? || y.PhaseOf(u).HoldsWriteLock()) ==> t == u)
            && Distinct(y.entries) && Derived(crypto, seed, y.entries)
            && |y.entries| <= 32 + (if y.writer == None then 0 else 1)
  {
    RunKeepsInvariant(crypto, seed, START, schedule);
    var y := Run(crypto, seed, START, schedule).value;
    EntriesStaySound(crypto, seed, y);
    forall t ensures AnswersOwnCall(crypto, seed, schedule, y.PhaseOf(t), t) {
      PhaseIsLastCall(crypto, seed, START, schedule, t);
    }
    forall t, u | y.PhaseOf(t).HoldsWriteLock() && (y.PhaseOf(u).Reading? || y.PhaseOf(u).HoldsWriteLock())
      ensures t == u
    {
      assert y.writer == Some(t);
      assert u in y.readers <==> y.PhaseOf(u).Reading?;
      assert y.writer == Some(u) <==> y.PhaseOf(u).HoldsWriteLock();
    }
  }

  /** A write section, whatever its steps, ends with the cache that the sequential method would leave. */
  lemma WriteSectionIsAtomic(crypto: Primitives, seed: Bytes, y: System, t: Thread)
    requires Invariant(crypto, seed, y) && Step(crypto, seed, y, t, Unlock).Some?
    ensures var y' := Step(crypto, seed, y, t, Unlock).value;
            y'.entries == AfterWrite(crypto, seed, y.PhaseOf(t).before, y.PhaseOf(t).s)
  {
    assert y.writer == Some(t) <==> y.PhaseOf(t).HoldsWriteLock();
  }

  ghost predicate Enabled(crypto: Primitives, seed: Bytes, y: System, t: Thread) {
    exists a :: Step(crypto, seed, y, t, a).Some?
  }

  lemma SomeMember<T>(s: set<T>) returns (x: T)
    requires s != {}
    ensures x in s
  {
    x :| x in s;
  }

  /** No deadlock: while some call is unfinished, some unfinished call can take its next step. */
  lemma UnfinishedCallsProgress(crypto: Primitives, seed: Bytes, y: System, t: Thread)
    requires Invariant(crypto, seed, y) && !y.PhaseOf(t).Idle? && !y.PhaseOf(t).Returned?
    ensures exists u :: !y.PhaseOf(u).Idle? && !y.PhaseOf(u).Returned? && Enabled(crypto, seed, y, u)
  {
    if y.writer.Some? {
      var w := y.writer.value;
      var p := y.PhaseOf(w);
      assert p.HoldsWriteLock();
      var a := match p
        case Writing(s, _) => if Cached(y.entries, s) then TakeFound else PushNew
        case Reinserting(_, _, _) => PushFound
        case Trimming(_, _, _) => if |y.entries| > CAPACITY then PopOldest else StopTrimming
        case _ => Unlock;
      assert Step(crypto, seed, y, w, a).Some?;
      assert Enabled(crypto, seed, y, w);
    } else if y.readers != {} {
      var r := SomeMember(y.readers);
      assert y.PhaseOf(r).Reading?;
      assert Step(crypto, seed, y, r, if Cached(y.entries, y.PhaseOf(r).s) then ScanHit else ScanMiss).Some?;
      assert Enabled(crypto, seed, y, r);
    } else {
      assert !y.PhaseOf(t).HoldsWriteLock() && !y.PhaseOf(t).Reading?;
      assert Step(crypto, seed, y, t, if y.PhaseOf(t).Called? then LockRead else LockWrite).Some?;
      assert Enabled(crypto, seed, y, t);
    }
  }
}
