/** Any number of threads inside `verify` at once, sharing one key cache per credential. */
module ConcurrentVerify {
  import opened Wrappers
  import opened ByteStrings
  import opened Timestamps
  import opened Queries
  import opened Crypto
  import opened CacheProtocol
  import opened Compile
  import opened VerifierCore

  // ---------- what a thread does without the cache ----------

  /** A call either ends before it needs a key, or waits for the key of its scope. */
  datatype Prepared = Settled(result: VerifyResult) | NeedsKey(policy: Policy, target: Target, claims: Claims)

  function PrepareClaimed(crypto: Primitives, cfg: Config, t: Target, claimed: Claimed, now: int): Prepared {
    match claimed
    case Refuse(result) => Settled(result)
    case Accept(c) =>
      match Admit(crypto, cfg, t.verb, t.host, t.path, c)
      case Rejected(result) => Settled(result)
      case Admitted(p) =>
        if IsFutureDated(c.epoch, now, cfg.skew) then Settled(Deny(FutureDated, t.path, p.accessKeyHash))
        else if IsExpired(c.epoch, now, c.expires) then Settled(Deny(Expired, t.path, p.accessKeyHash))
        else NeedsKey(p, t, c)
  }

  function Prepare(crypto: Primitives, cfg: Config, r: Request): Prepared {
    match OpenRequest(cfg, r)
    case Closed(result) => Settled(result)
    case Open(verb, host, path, query) =>
      if !Accepted(query) then Settled(Deny(InvalidUri, path, []))
      else
        var t := Target(verb, host, path, Params(query));
        PrepareClaimed(crypto, cfg, t, ClaimsOf(crypto, cfg, path, t.params), r.now)
  }

  /** The comparison at the end, with whatever key the cache gave. */
  function Compare(crypto: Primitives, p: Policy, t: Target, c: Claims, key: Digest): VerifyResult {
    var expected := crypto.hmac(key, StringToSign(c.amzDate, c.scope.scope, RequestHash(crypto, t)));
    if DecodedSignature(c.signature) != Some(expected) then Deny(SignatureMismatch, t.path, p.accessKeyHash)
    else VerifyResult(true, Ok, t.path, Some(p.accessKey), p.accessKeyHash)
  }

  /** How a call must end. */
  function Outcome(crypto: Primitives, prepared: Prepared): VerifyResult {
    match prepared
    case Settled(result) => result
    case NeedsKey(p, t, c) => Compare(crypto, p, t, c, DeriveKey(crypto, p.secretSeed, ScopeOf(c.scope)))
  }

  predicate OfConfig(cfg: Config, prepared: Prepared) {
    prepared.NeedsKey? ==>
      && prepared.claims.scope.accessKey in cfg.credentials
      && prepared.policy == cfg.credentials[prepared.claims.scope.accessKey]
  }

  lemma ClaimedOutcome(crypto: Primitives, cfg: Config, t: Target, claimed: Claimed, now: int)
    ensures Outcome(crypto, PrepareClaimed(crypto, cfg, t, claimed, now)) == Conclude(crypto, cfg, t, claimed, now)
    ensures OfConfig(cfg, PrepareClaimed(crypto, cfg, t, claimed, now))
  {
  }

  /** The outcome of a call is the sequential decision. */
  lemma OutcomeIsDecision(crypto: Primitives, cfg: Config, r: Request)
    ensures Outcome(crypto, Prepare(crypto, cfg, r)) == Decide(crypto, cfg, r)
    ensures OfConfig(cfg, Prepare(crypto, cfg, r))
  {
    match OpenRequest(cfg, r)
    case Closed(_) =>
    case Open(verb, host, path, query) =>
      var params := Params(query);
      ClaimedOutcome(crypto, cfg, Target(verb, host, path, params), ClaimsOf(crypto, cfg, path, params), r.now);
  }

  // ---------- the threads and the caches ----------

  /** What a thread is doing: nothing yet, waiting for a key, or done. */
  datatype Task =
    | Resting
    | Signing(request: Request, policy: Policy, target: Target, claims: Claims)
    | Answered(request: Request, result: VerifyResult)
  {
    predicate SignsWith(key: Bytes) { Signing? && claims.scope.accessKey == key }
  }

  /** One lock-protected cache per access key, and the threads. */
  datatype World = World(caches: map<Bytes, System>, tasks: map<Thread, Task>)
  {
    function TaskOf(t: Thread): Task { if t in tasks then tasks[t] else Resting }

    function SetTask(t: Thread, task: Task): World { this.(tasks := tasks[t := task]) }
  }

  /** A request arrives, the thread takes a step inside its cache, or it compares the signature and answers. */
  datatype Move = Arrive(r: Request) | Touch(a: Action) | Finish

  function Begin(cfg: Config): World { World(map k | k in cfg.credentials :: START, map[]) }

  /** One move of thread `t`; `prepare` is the part of `verify` that shares nothing. */
  function Advance(crypto: Primitives, prepare: Request -> Prepared, w: World, t: Thread, m: Move): Option<World> {
    match m
    case Arrive(r) =>
      if w.TaskOf(t).Signing? then None
      else
        (match prepare(r)
         case Settled(result) => Some(w.SetTask(t, Answered(r, result)))
         case NeedsKey(p, target, c) => InCache(crypto, w, t, Call(ScopeOf(c.scope)), Signing(r, p, target, c)))
    case Touch(a) =>
      if !w.TaskOf(t).Signing? || a.Call? then None else InCache(crypto, w, t, a, w.TaskOf(t))
    case Finish =>
      var task := w.TaskOf(t);
      if task.Signing? && task.claims.scope.accessKey in w.caches
         && w.caches[task.claims.scope.accessKey].PhaseOf(t).Returned?
      then
        var key := w.caches[task.claims.scope.accessKey].PhaseOf(t).key;
        Some(w.SetTask(t, Answered(task.request, Compare(crypto, task.policy, task.target, task.claims, key))))
      else None
  }

  /** A step of thread `t` in the cache of the credential that `task` signs with. */
  function InCache(crypto: Primitives, w: World, t: Thread, a: Action, task: Task): Option<World>
    requires task.Signing?
  {
    var key := task.claims.scope.accessKey;
    if key !in w.caches then None
    else
      match Step(crypto, task.policy.secretSeed, w.caches[key], t, a)
      case None => None
      case Some(y) => Some(World(w.caches[key := y], w.tasks[t := task]))
  }

  function Play(crypto: Primitives, prepare: Request -> Prepared, w: World, moves: seq<(Thread, Move)>): Option<World>
    decreases |moves|
  {
    if moves == [] then Some(w)
    else
      match Advance(crypto, prepare, w, moves[0].0, moves[0].1)
      case None => None
      case Some(next) => Play(crypto, prepare, next, moves[1..])
  }

  // ---------- what every move keeps ----------

  predicate TaskSound(crypto: Primitives, cfg: Config, prepare: Request -> Prepared, w: World, t: Thread) {
    match w.TaskOf(t)
    case Resting => true
    case Signing(r, p, target, c) =>
      && prepare(r) == NeedsKey(p, target, c)
      && c.scope.accessKey in w.caches
      && ScopeIn(w.caches[c.scope.accessKey].PhaseOf(t)) == Some(ScopeOf(c.scope))
    case Answered(r, result) => result == Outcome(crypto, prepare(r))
  }

  /** A thread is inside a cache only while it waits for a key of that cache. */
  predicate Outside(w: World, t: Thread, key: Bytes)
    requires key in w.caches
  {
    w.TaskOf(t).SignsWith(key) || w.caches[key].PhaseOf(t).Idle? || w.caches[key].PhaseOf(t).Returned?
  }

  ghost predicate CachesSound(crypto: Primitives, cfg: Config, w: World) {
    && w.caches.Keys == cfg.credentials.Keys
    && forall k :: k in w.caches ==> Invariant(crypto, cfg.credentials[k].secretSeed, w.caches[k])
  }

  ghost predicate Sound(crypto: Primitives, cfg: Config, prepare: Request -> Prepared, w: World) {
    && CachesSound(crypto, cfg, w)
    && (forall t :: TaskSound(crypto, cfg, prepare, w, t))
    && (forall t, k :: k in w.caches ==> Outside(w, t, k))
  }

  ghost predicate PreparesFrom(cfg: Config, prepare: Request -> Prepared) { forall r :: OfConfig(cfg, prepare(r)) }

  lemma StepTouchesOne(crypto: Primitives, seed: Bytes, y: System, t: Thread, a: Action, u: Thread)
    requires Step(crypto, seed, y, t, a).Some? && u != t
    ensures Step(crypto, seed, y, t, a).value.PhaseOf(u) == y.PhaseOf(u)
  {
  }

  /** A thread may step in a cache: with a call for its new task's scope, or further inside its own task. */
  predicate MayStep(cfg: Config, prepare: Request -> Prepared, w: World, t: Thread, a: Action, task: Task) {
    && task.Signing? && prepare(task.request) == NeedsKey(task.policy, task.target, task.claims)
    && OfConfig(cfg, prepare(task.request))
    && if a.Call? then !w.TaskOf(t).Signing? && a.s == ScopeOf(task.claims.scope) else w.TaskOf(t) == task
  }

  lemma InCacheKeepsTask(crypto: Primitives, cfg: Config, prepare: Request -> Prepared, w: World, t: Thread,
                         a: Action, task: Task, u: Thread)
    requires MayStep(cfg, prepare, w, t, a, task) && InCache(crypto, w, t, a, task).Some?
    requires TaskSound(crypto, cfg, prepare, w, t) && TaskSound(crypto, cfg, prepare, w, u)
    ensures TaskSound(crypto, cfg, prepare, InCache(crypto, w, t, a, task).value, u)
  {
    StepKeepsScopes(crypto, task.policy.secretSeed, w.caches[task.claims.scope.accessKey], t, a, u);
  }

  lemma InCacheKeepsOutside(crypto: Primitives, cfg: Config, prepare: Request -> Prepared, w: World, t: Thread,
                            a: Action, task: Task, u: Thread, k: Bytes)
    requires MayStep(cfg, prepare, w, t, a, task) && InCache(crypto, w, t, a, task).Some?
    requires k in w.caches && Outside(w, u, k)
    ensures Outside(InCache(crypto, w, t, a, task).value, u, k)
  {
    if u != t { StepTouchesOne(crypto, task.policy.secretSeed, w.caches[task.claims.scope.accessKey], t, a, u); }
  }

  lemma InCacheKeeps(crypto: Primitives, cfg: Config, prepare: Request -> Prepared, w: World, t: Thread, a: Action,
                     task: Task)
    requires Sound(crypto, cfg, prepare, w) && MayStep(cfg, prepare, w, t, a, task)
    requires InCache(crypto, w, t, a, task).Some?
    ensures Sound(crypto, cfg, prepare, InCache(crypto, w, t, a, task).value)
  {
    var w' := InCache(crypto, w, t, a, task).value;
    var key := task.claims.scope.accessKey;
    StepKeepsInvariant(crypto, task.policy.secretSeed, w.caches[key], t, a);
    assert TaskSound(crypto, cfg, prepare, w, t);
    forall u ensures TaskSound(crypto, cfg, prepare, w', u) {
      assert TaskSound(crypto, cfg, prepare, w, u);
      InCacheKeepsTask(crypto, cfg, prepare, w, t, a, task, u);
    }
    forall u, k | k in w'.caches ensures Outside(w', u, k) {
      assert Outside(w, u, k);
      InCacheKeepsOutside(crypto, cfg, prepare, w, t, a, task, u, k);
    }
  }

  lemma AnswerKeeps(crypto: Primitives, cfg: Config, prepare: Request -> Prepared, w: World, t: Thread, r: Request,
                    result: VerifyResult)
    requires Sound(crypto, cfg, prepare, w) && result == Outcome(crypto, prepare(r))
    requires forall k :: k in w.caches ==> w.caches[k].PhaseOf(t).Idle? || w.caches[k].PhaseOf(t).Returned?
    ensures Sound(crypto, cfg, prepare, w.SetTask(t, Answered(r, result)))
  {
    var w' := w.SetTask(t, Answered(r, result));
    forall u ensures TaskSound(crypto, cfg, prepare, w', u) { assert TaskSound(crypto, cfg, prepare, w, u); }
    forall u, k | k in w'.caches ensures Outside(w', u, k) { assert Outside(w, u, k); }
  }

  lemma FinishKeeps(crypto: Primitives, cfg: Config, prepare: Request -> Prepared, w: World, t: Thread)
    requires Sound(crypto, cfg, prepare, w) && PreparesFrom(cfg, prepare)
    requires Advance(crypto, prepare, w, t, Finish).Some?
    ensures Sound(crypto, cfg, prepare, Advance(crypto, prepare, w, t, Finish).value)
  {
    var task := w.TaskOf(t);
    var key := task.claims.scope.accessKey;
    assert TaskSound(crypto, cfg, prepare, w, t) && OfConfig(cfg, prepare(task.request));
    assert Invariant(crypto, cfg.credentials[key].secretSeed, w.caches[key]);
    assert w.caches[key].PhaseOf(t).key == DeriveKey(crypto, task.policy.secretSeed, ScopeOf(task.claims.scope));
    forall k | k in w.caches
      ensures w.caches[k].PhaseOf(t).Idle? || w.caches[k].PhaseOf(t).Returned?
    {
      assert Outside(w, t, k);
    }
    AnswerKeeps(crypto, cfg, prepare, w, t, task.request,
                Compare(crypto, task.policy, task.target, task.claims, w.caches[key].PhaseOf(t).key));
  }

  lemma AdvanceKeeps(crypto: Primitives, cfg: Config, prepare: Request -> Prepared, w: World, t: Thread, m: Move)
    requires Sound(crypto, cfg, prepare, w) && PreparesFrom(cfg, prepare)
    requires Advance(crypto, prepare, w, t, m).Some?
    ensures Sound(crypto, cfg, prepare, Advance(crypto, prepare, w, t, m).value)
  {
    match m
    case Arrive(r) =>
      assert OfConfig(cfg, prepare(r));
      match prepare(r) {
       case Settled(result) =>
         forall k | k in w.caches
           ensures w.caches[k].PhaseOf(t).Idle? || w.caches[k].PhaseOf(t).Returned?
         {
           assert Outside(w, t, k);
         }
         AnswerKeeps(crypto, cfg, prepare, w, t, r, result);
       case NeedsKey(p, target, c) =>
         InCacheKeeps(crypto, cfg, prepare, w, t, Call(ScopeOf(c.scope)), Signing(r, p, target, c));
      }
    case Touch(a) =>
      assert TaskSound(crypto, cfg, prepare, w, t) && OfConfig(cfg, prepare(w.TaskOf(t).request));
      InCacheKeeps(crypto, cfg, prepare, w, t, a, w.TaskOf(t));
    case Finish => FinishKeeps(crypto, cfg, prepare, w, t);
  }

  // ---------- whole runs ----------

  lemma {:induction false} PlayKeeps(crypto: Primitives, cfg: Config, prepare: Request -> Prepared, w: World,
                                     moves: seq<(Thread, Move)>)
    requires Sound(crypto, cfg, prepare, w) && PreparesFrom(cfg, prepare)
    requires Play(crypto, prepare, w, moves).Some?
    ensures Sound(crypto, cfg, prepare, Play(crypto, prepare, w, moves).value)
    decreases |moves|
  {
    if moves == [] {
    } else {
      var (t, m) := moves[0];
      AdvanceKeeps(crypto, cfg, prepare, w, t, m);
      PlayKeeps(crypto, cfg, prepare, Advance(crypto, prepare, w, t, m).value, moves[1..]);
    }
  }

  /** The last request that arrived at a thread. */
  function LastArrival(moves: seq<(Thread, Move)>, t: Thread): Option<Request>
    decreases |moves|
  {
    if moves == [] then None
    else
      var (u, m) := moves[0];
      match LastArrival(moves[1..], t)
      case Some(r) => Some(r)
      case None => if u == t && m.Arrive? then Some(m.r) else None
  }

  function RequestIn(task: Task): Option<Request> { if task.Resting? then None else Some(task.request) }

  lemma AdvanceKeepsRequests(crypto: Primitives, prepare: Request -> Prepared, w: World, t: Thread, m: Move, u: Thread)
    requires Advance(crypto, prepare, w, t, m).Some?
    ensures RequestIn(Advance(crypto, prepare, w, t, m).value.TaskOf(u))
         == if u == t && m.Arrive? then Some(m.r) else RequestIn(w.TaskOf(u))
  {
  }

  lemma {:induction false} TaskIsLastArrival(crypto: Primitives, prepare: Request -> Prepared, w: World,
                                             moves: seq<(Thread, Move)>, t: Thread)
    requires Play(crypto, prepare, w, moves).Some?
    ensures RequestIn(Play(crypto, prepare, w, moves).value.TaskOf(t))
         == match LastArrival(moves, t) case Some(r) => Some(r) case None => RequestIn(w.TaskOf(t))
    decreases |moves|
  {
    if moves == [] {
    } else {
      var (u, m) := moves[0];
      AdvanceKeepsRequests(crypto, prepare, w, u, m, t);
      TaskIsLastArrival(crypto, prepare, Advance(crypto, prepare, w, u, m).value, moves[1..], t);
    }
  }

  lemma BeginIsSound(crypto: Primitives, cfg: Config, prepare: Request -> Prepared)
    ensures Sound(crypto, cfg, prepare, Begin(cfg))
  {
  }

  function Preparation(crypto: Primitives, cfg: Config): Request -> Prepared { r => Prepare(crypto, cfg, r) }

  /**
    In every interleaving of any number of concurrent calls, every call that has ended has the result that
    `Decide` gives for the request that last arrived at its thread.
   */
  lemma ConcurrentVerdicts(crypto: Primitives, cfg: Config, moves: seq<(Thread, Move)>, t: Thread)
    requires Play(crypto, Preparation(crypto, cfg), Begin(cfg), moves).Some?
    ensures var task := Play(crypto, Preparation(crypto, cfg), Begin(cfg), moves).value.TaskOf(t);
            task.Answered? ==>
              LastArrival(moves, t) == Some(task.request) && task.result == Decide(crypto, cfg, task.request)
  {
    var prepare := Preparation(crypto, cfg);
    forall r ensures OfConfig(cfg, prepare(r)) { OutcomeIsDecision(crypto, cfg, r); }
    BeginIsSound(crypto, cfg, prepare);
    PlayKeeps(crypto, cfg, prepare, Begin(cfg), moves);
    TaskIsLastArrival(crypto, prepare, Begin(cfg), moves, t);
    var w := Play(crypto, prepare, Begin(cfg), moves).value;
    assert TaskSound(crypto, cfg, prepare, w, t);
    if w.TaskOf(t).Answered? { OutcomeIsDecision(crypto, cfg, w.TaskOf(t).request); }
  }

  /** No deadlock: while a call waits for a key, some waiting call can make its next move. */
  lemma WaitingCallsProgress(crypto: Primitives, cfg: Config, prepare: Request -> Prepared, w: World, t: Thread)
    requires Sound(crypto, cfg, prepare, w) && PreparesFrom(cfg, prepare) && w.TaskOf(t).Signing?
    ensures exists u, m :: w.TaskOf(u).Signing? && Advance(crypto, prepare, w, u, m).Some?
  {
    var task := w.TaskOf(t);
    var key := task.claims.scope.accessKey;
    assert TaskSound(crypto, cfg, prepare, w, t);
    var y, seed := w.caches[key], cfg.credentials[key].secretSeed;
    if y.PhaseOf(t).Returned? {
      assert Advance(crypto, prepare, w, t, Finish).Some?;
    } else {
      assert Invariant(crypto, seed, y);
      UnfinishedCallsProgress(crypto, seed, y, t);
      var u :| !y.PhaseOf(u).Idle? && !y.PhaseOf(u).Returned? && Enabled(crypto, seed, y, u);
      var a :| Step(crypto, seed, y, u, a).Some?;
      assert Outside(w, u, key) && TaskSound(crypto, cfg, prepare, w, u);
      assert OfConfig(cfg, prepare(w.TaskOf(u).request));
      assert Advance(crypto, prepare, w, u, Touch(a)).Some?;
    }
  }
}
