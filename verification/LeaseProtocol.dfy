/** Any number of decorated calls sharing one key, interleaved with a clock, crashes and lost
    requests and replies: what every reachable state keeps. */
module LeaseProtocol {
  import opened Prelude
  import opened RedisLeases

  type CallId = nat

  /** Where one call is. Every phase remembers the token the call drew. */
  datatype Phase =
    | Running(token: string, until: int)
    | Finishing(token: string)
    | Ended(token: string, released: bool)
    | SkippedCall(token: string)
    | AbortedCall(token: string)
    | Crashed(token: string)

  /** limit, the ttl in milliseconds, as given to the decorator. */
  datatype Config = Config(limit: int, ttlMs: int)

  /** issued remembers which call drew each token. */
  datatype State = State(now: int, leases: Leases, calls: map<CallId, Phase>, issued: map<string, CallId>)

  datatype Step =
    | Tick(ms: nat)
    | Acquire(c: CallId, token: string)
    | AcquireFails(c: CallId, token: string, applied: bool)
    | EndBody(c: CallId)
    | Release(c: CallId)
    | ReleaseFails(c: CallId, applied: bool)
    | Crash(c: CallId)

  predicate Enabled(cfg: Config, s: State, step: Step) {
    match step
    case Tick(_) => true
    case Acquire(c, token) => c !in s.calls && token !in s.issued && (cfg.limit == 1 ==> cfg.ttlMs > 0)
    case AcquireFails(c, token, applied) =>
      c !in s.calls && token !in s.issued && (applied && cfg.limit == 1 ==> cfg.ttlMs > 0)
    case EndBody(c) => c in s.calls && s.calls[c].Running?
    case Release(c) => c in s.calls && s.calls[c].Finishing?
    case ReleaseFails(c, _) => c in s.calls && s.calls[c].Finishing?
    case Crash(c) => c in s.calls && (s.calls[c].Running? || s.calls[c].Finishing?)
  }

  function Apply(cfg: Config, s: State, step: Step): State
    requires Enabled(cfg, s, step)
  {
    match step
    case Tick(ms) => s.(now := s.now + ms)
    case Acquire(c, token) =>
      s.(leases := AfterAcquire(cfg.limit, s.leases, s.now, token, cfg.ttlMs),
         calls := s.calls[c := if CanAcquire(cfg.limit, s.leases, s.now)
                               then Running(token, s.now + cfg.ttlMs) else SkippedCall(token)],
         issued := s.issued[token := c])
    case AcquireFails(c, token, applied) =>
      s.(leases := if applied then AfterAcquire(cfg.limit, s.leases, s.now, token, cfg.ttlMs) else s.leases,
         calls := s.calls[c := AbortedCall(token)],
         issued := s.issued[token := c])
    case EndBody(c) => s.(calls := s.calls[c := Finishing(s.calls[c].token)])
    case Release(c) =>
      s.(leases := AfterRelease(cfg.limit, s.leases, s.now, s.calls[c].token),
         calls := s.calls[c := Ended(s.calls[c].token, true)])
    case ReleaseFails(c, applied) =>
      s.(leases := if applied then AfterRelease(cfg.limit, s.leases, s.now, s.calls[c].token) else s.leases,
         calls := s.calls[c := Ended(s.calls[c].token, false)])
    case Crash(c) => s.(calls := s.calls[c := Crashed(s.calls[c].token)])
  }

  function Init(now: int): State {
    State(now, map[], map[], map[])
  }

  /** The state after the steps, if they can be taken one after the other from the start. */
  function Exec(cfg: Config, start: int, steps: seq<Step>): Option<State> {
    if steps == [] then Some(Init(start))
    else
      var before := Exec(cfg, start, steps[..|steps| - 1]);
      var step := steps[|steps| - 1];
      if before.Some? && Enabled(cfg, before.value, step) then Some(Apply(cfg, before.value, step)) else None
  }

  // ---------- the steps are those of the decorated call ----------

  function WorldOf(s: State): World {
    World(s.leases, s.now)
  }

  /** The step a decorated call takes before its body; an expiry that is refused is a failure. */
  function FirstStep(cfg: Config, c: CallId, token: string, fault: Fault): Step {
    if fault == RequestLost || (cfg.limit == 1 && cfg.ttlMs <= 0) then AcquireFails(c, token, false)
    else if fault == ReplyLost then AcquireFails(c, token, true)
    else Acquire(c, token)
  }

  /** The step it takes after its body. */
  function LastStep(c: CallId, fault: Fault): Step {
    match fault
    case NoFault => Release(c)
    case RequestLost => ReleaseFails(c, false)
    case ReplyLost => ReleaseFails(c, true)
  }

  /** A new call can begin in every state and under every fault. It runs its body exactly when Redis
      answers and there is room. */
  lemma CallBegins(cfg: Config, s: State, c: CallId, token: string, fault: Fault)
    requires c !in s.calls && token !in s.issued
    ensures Enabled(cfg, s, FirstStep(cfg, c, token, fault))
    ensures var s' := Apply(cfg, s, FirstStep(cfg, c, token, fault));
            var answered := fault == NoFault && !(cfg.limit == 1 && cfg.ttlMs <= 0);
            && s'.calls == s.calls[c := s'.calls[c]] && s'.issued == s.issued[token := c] && s'.calls[c].token == token
            && (s'.calls[c].Running? <==> answered && CanAcquire(cfg.limit, s.leases, s.now))
            && (s'.calls[c].SkippedCall? <==> answered && !CanAcquire(cfg.limit, s.leases, s.now))
            && WorldOf(s') == if fault == RequestLost then WorldOf(s)
                              else AfterOther(cfg.limit, WorldOf(s), OtherAcquire(token, cfg.ttlMs))
  {
    hide AfterAcquire, CanAcquire, AfterRelease;
  }

  /** A running call can crash at any time, or end its body and release under every fault. */
  lemma CallEnds(cfg: Config, s: State, c: CallId, fault: Fault)
    requires c in s.calls && s.calls[c].Running?
    ensures Enabled(cfg, s, Crash(c)) && WorldOf(Apply(cfg, s, Crash(c))) == WorldOf(s)
    ensures Enabled(cfg, s, EndBody(c)) && WorldOf(Apply(cfg, s, EndBody(c))) == WorldOf(s)
    ensures var s' := Apply(cfg, s, EndBody(c));
            && Enabled(cfg, s', Crash(c)) && Enabled(cfg, s', LastStep(c, fault))
            && WorldOf(Apply(cfg, s', LastStep(c, fault))) ==
               if fault == RequestLost then WorldOf(s)
               else AfterOther(cfg.limit, WorldOf(s), OtherRelease(s.calls[c].token))
  {
    hide AfterAcquire, CanAcquire, AfterRelease;
  }

  lemma TimePasses(cfg: Config, s: State, ms: nat)
    ensures Enabled(cfg, s, Tick(ms)) && WorldOf(Apply(cfg, s, Tick(ms))) == AfterOther(cfg.limit, WorldOf(s), Elapse(ms))
  {
  }

  // ---------- the invariant linking calls to Redis ----------

  /** The lease that a call's phase says it should have is the one Redis holds. */
  ghost predicate CallMatchesLeases(limit: int, now: int, leases: Leases, p: Phase) {
    match p
    case Running(token, until) => Holds(limit, until, now) ==> token in leases && leases[token] == until
    case Ended(token, released) => released ==> token !in leases
    case SkippedCall(token) => token !in leases
    case _ => true
  }

  /** Redis holds at most limit leases, each with a token that was drawn, none beyond one ttl. */
  predicate StoreFits(cfg: Config, now: int, leases: Leases, issued: map<string, CallId>) {
    && |leases| <= cfg.limit
    && leases.Keys <= issued.Keys
    && (forall t :: t in leases ==> leases[t] <= now + cfg.ttlMs)
  }

  /** Tokens and calls belong to each other one to one. */
  predicate TokensFit(calls: map<CallId, Phase>, issued: map<string, CallId>) {
    && (forall t :: t in issued ==> issued[t] in calls && calls[issued[t]].token == t)
    && (forall c :: c in calls ==> calls[c].token in issued && issued[calls[c].token] == c)
  }

  ghost predicate CallsMatch(limit: int, now: int, leases: Leases, calls: map<CallId, Phase>) {
    forall c :: c in calls ==> CallMatchesLeases(limit, now, leases, calls[c])
  }

  ghost predicate Inv(cfg: Config, s: State) {
    && StoreFits(cfg, s.now, s.leases, s.issued)
    && TokensFit(s.calls, s.issued)
    && CallsMatch(cfg.limit, s.now, s.leases, s.calls)
  }

  lemma SubsetSize<T>(a: set<T>, b: set<T>)
    requires a <= b
    ensures |a| <= |b|
  {
    assert b == a + (b - a);
  }

  lemma AcquireKeepsLimit(cfg: Config, leases: Leases, now: int, token: string)
    requires cfg.limit >= 1 && |leases| <= cfg.limit
    ensures |AfterAcquire(cfg.limit, leases, now, token, cfg.ttlMs)| <= cfg.limit
  {
    var held := StillHeld(cfg.limit, leases, now);
    SubsetSize(held.Keys, leases.Keys);
    assert |held.Keys| == |held| && |leases.Keys| == |leases|;
    if |held| < cfg.limit {
      var after := held[token := now + cfg.ttlMs];
      assert after.Keys <= held.Keys + {token};
      SubsetSize(after.Keys, held.Keys + {token});
    }
  }

  lemma ReleaseKeepsLimit(cfg: Config, leases: Leases, now: int, token: string)
    requires |leases| <= cfg.limit
    ensures |AfterRelease(cfg.limit, leases, now, token)| <= cfg.limit
  {
    var after := AfterRelease(cfg.limit, leases, now, token);
    SubsetSize(after.Keys, leases.Keys);
    assert |after.Keys| == |after| && |leases.Keys| == |leases|;
  }

  /** An acquire drops at most what has lapsed, and adds the token exactly when there is room. */
  lemma AcquireEffect(limit: int, leases: Leases, now: int, token: string, ttlMs: int)
    requires token !in leases
    ensures var after := AfterAcquire(limit, leases, now, token, ttlMs);
            && after.Keys <= leases.Keys + {token}
            && (forall t :: t in after && t != token ==> after[t] == leases[t])
            && (forall t :: t in leases && Holds(limit, leases[t], now) ==> t in after && after[t] == leases[t])
            && (token in after <==> CanAcquire(limit, leases, now))
            && (token in after ==> after[token] == now + ttlMs)
  {
  }

  lemma AcquireKeepsMatch(cfg: Config, now: int, leases: Leases, calls: map<CallId, Phase>, c: CallId, p: Phase)
    requires CallsMatch(cfg.limit, now, leases, calls) && c !in calls && p.token !in leases
    requires forall d :: d in calls ==> calls[d].token != p.token
    requires p.AbortedCall?
             || p == (if CanAcquire(cfg.limit, leases, now) then Running(p.token, now + cfg.ttlMs) else SkippedCall(p.token))
    ensures CallsMatch(cfg.limit, now, AfterAcquire(cfg.limit, leases, now, p.token, cfg.ttlMs), calls[c := p])
  {
    AcquireEffect(cfg.limit, leases, now, p.token, cfg.ttlMs);
    hide AfterAcquire, CanAcquire, Holds;
    var after := AfterAcquire(cfg.limit, leases, now, p.token, cfg.ttlMs);
    assert CallMatchesLeases(cfg.limit, now, after, p);
    forall d | d in calls ensures CallMatchesLeases(cfg.limit, now, after, calls[d]) {
      assert CallMatchesLeases(cfg.limit, now, leases, calls[d]);
    }
  }

  lemma AcquireKeepsStore(cfg: Config, now: int, leases: Leases, issued: map<string, CallId>, token: string, c: CallId)
    requires cfg.limit >= 1 && StoreFits(cfg, now, leases, issued) && token !in issued
    ensures StoreFits(cfg, now, AfterAcquire(cfg.limit, leases, now, token, cfg.ttlMs), issued[token := c])
  {
    AcquireKeepsLimit(cfg, leases, now, token);
    AcquireEffect(cfg.limit, leases, now, token, cfg.ttlMs);
    hide AfterAcquire, CanAcquire, Holds;
  }

  lemma AcquireKeepsInv(cfg: Config, s: State, c: CallId, token: string, p: Phase)
    requires cfg.limit >= 1 && Inv(cfg, s) && c !in s.calls && token !in s.issued && p.token == token
    requires p.AbortedCall?
             || p == (if CanAcquire(cfg.limit, s.leases, s.now) then Running(token, s.now + cfg.ttlMs) else SkippedCall(token))
    ensures Inv(cfg, s.(leases := AfterAcquire(cfg.limit, s.leases, s.now, token, cfg.ttlMs),
                        calls := s.calls[c := p], issued := s.issued[token := c]))
  {
    assert token !in s.leases;
    hide AfterAcquire, CanAcquire, StoreFits, TokensFit, CallsMatch;
    TokensGrow(s.calls, s.issued, c, p);
    AcquireKeepsStore(cfg, s.now, s.leases, s.issued, token, c);
    AcquireKeepsMatch(cfg, s.now, s.leases, s.calls, c, p);
  }

  lemma TokensGrow(calls: map<CallId, Phase>, issued: map<string, CallId>, c: CallId, p: Phase)
    requires TokensFit(calls, issued) && c !in calls && p.token !in issued
    ensures TokensFit(calls[c := p], issued[p.token := c])
    ensures forall d :: d in calls ==> calls[d].token != p.token
  {
  }

  /** A release takes away the caller's token and, of the rest, at most what has lapsed. */
  lemma ReleaseEffect(limit: int, leases: Leases, now: int, token: string)
    ensures var after := AfterRelease(limit, leases, now, token);
            && token !in after && after.Keys <= leases.Keys
            && (forall t :: t in after ==> after[t] == leases[t])
            && (forall t :: t in leases && t != token && Holds(limit, leases[t], now) ==> t in after)
  {
  }

  lemma ReleaseKeepsMatch(cfg: Config, now: int, leases: Leases, calls: map<CallId, Phase>, c: CallId, p: Phase)
    requires CallsMatch(cfg.limit, now, leases, calls) && c in calls && p.Ended?
    requires forall d :: d in calls && d != c ==> calls[d].token != p.token
    ensures CallsMatch(cfg.limit, now, AfterRelease(cfg.limit, leases, now, p.token), calls[c := p])
  {
    ReleaseEffect(cfg.limit, leases, now, p.token);
    hide AfterRelease, Holds;
    var after := AfterRelease(cfg.limit, leases, now, p.token);
    forall d | d in calls && d != c ensures CallMatchesLeases(cfg.limit, now, after, calls[d]) {
      assert CallMatchesLeases(cfg.limit, now, leases, calls[d]);
    }
  }

  lemma ReleaseKeepsStore(cfg: Config, now: int, leases: Leases, issued: map<string, CallId>, token: string)
    requires StoreFits(cfg, now, leases, issued)
    ensures StoreFits(cfg, now, AfterRelease(cfg.limit, leases, now, token), issued)
  {
    ReleaseKeepsLimit(cfg, leases, now, token);
    ReleaseEffect(cfg.limit, leases, now, token);
    hide AfterRelease, Holds;
  }

  lemma ReleaseKeepsInv(cfg: Config, s: State, c: CallId, released: bool)
    requires cfg.limit >= 1 && Inv(cfg, s) && c in s.calls && s.calls[c].Finishing?
    ensures Inv(cfg, s.(leases := AfterRelease(cfg.limit, s.leases, s.now, s.calls[c].token),
                        calls := s.calls[c := Ended(s.calls[c].token, released)]))
  {
    hide AfterRelease, StoreFits, TokensFit, CallsMatch;
    var p := Ended(s.calls[c].token, released);
    TokensStay(s.calls, s.issued, c, p);
    ReleaseKeepsStore(cfg, s.now, s.leases, s.issued, p.token);
    ReleaseKeepsMatch(cfg, s.now, s.leases, s.calls, c, p);
  }

  lemma TokensStay(calls: map<CallId, Phase>, issued: map<string, CallId>, c: CallId, p: Phase)
    requires TokensFit(calls, issued) && c in calls && p.token == calls[c].token
    ensures TokensFit(calls[c := p], issued)
    ensures forall d :: d in calls && d != c ==> calls[d].token != p.token
  {
  }

  /** The other steps leave the store alone; they only end a call or let time pass. */
  lemma QuietStepKeepsInv(cfg: Config, s: State, step: Step)
    requires Inv(cfg, s) && Enabled(cfg, s, step)
    requires step.Tick? || step.EndBody? || step.Crash? || (step.ReleaseFails? && !step.applied)
    ensures Inv(cfg, Apply(cfg, s, step))
  {
    var s' := Apply(cfg, s, step);
    forall d | d in s'.calls
      ensures CallMatchesLeases(cfg.limit, s'.now, s'.leases, s'.calls[d])
    {
      assert CallMatchesLeases(cfg.limit, s.now, s.leases, s.calls[d]);
    }
  }

  lemma StepKeepsInv(cfg: Config, s: State, step: Step)
    requires cfg.limit >= 1 && Inv(cfg, s) && Enabled(cfg, s, step)
    ensures Inv(cfg, Apply(cfg, s, step))
  {
    hide Inv;
    match step {
      case Acquire(c, token) =>
        AcquireKeepsInv(cfg, s, c, token,
                        if CanAcquire(cfg.limit, s.leases, s.now) then Running(token, s.now + cfg.ttlMs) else SkippedCall(token));
      case AcquireFails(c, token, applied) =>
        if applied { AcquireKeepsInv(cfg, s, c, token, AbortedCall(token)); } else { AbortKeepsInv(cfg, s, c, token); }
      case Release(c) => ReleaseKeepsInv(cfg, s, c, true);
      case ReleaseFails(c, applied) =>
        if applied { ReleaseKeepsInv(cfg, s, c, false); } else { QuietStepKeepsInv(cfg, s, step); }
      case _ => QuietStepKeepsInv(cfg, s, step);
    }
  }

  lemma AbortKeepsInv(cfg: Config, s: State, c: CallId, token: string)
    requires Inv(cfg, s) && c !in s.calls && token !in s.issued
    ensures Inv(cfg, s.(calls := s.calls[c := AbortedCall(token)], issued := s.issued[token := c]))
  {
  }

  lemma {:induction false} RunKeepsInv(cfg: Config, start: int, steps: seq<Step>, s: State)
    requires cfg.limit >= 1 && Exec(cfg, start, steps) == Some(s)
    ensures Inv(cfg, s)
  {
    if steps == [] {
    } else {
      var before := Exec(cfg, start, steps[..|steps| - 1]).value;
      RunKeepsInv(cfg, start, steps[..|steps| - 1], before);
      StepKeepsInv(cfg, before, steps[|steps| - 1]);
    }
  }

  // ---------- safety ----------

  /** The calls whose body is running inside its lease. */
  ghost function RunningInLease(limit: int, s: State): set<CallId> {
    set c | c in s.calls && s.calls[c].Running? && Holds(limit, s.calls[c].until, s.now)
  }

  ghost function RunningBodies(s: State): set<CallId> {
    set c | c in s.calls && s.calls[c].Running?
  }

  /** Calls with distinct tokens in the store are no more than the leases there. */
  lemma DistinctTokens(s: State, cs: set<CallId>)
    requires forall c :: c in cs ==> c in s.calls && s.calls[c].token in s.leases
    requires forall c, d :: c in cs && d in cs && s.calls[c].token == s.calls[d].token ==> c == d
    ensures |cs| <= |set c | c in cs :: s.calls[c].token|
    ensures (set c | c in cs :: s.calls[c].token) <= s.leases.Keys
  {
    if cs == {} {
    } else {
      var c :| c in cs;
      DistinctTokens(s, cs - {c});
      var rest := set d | d in cs - {c} :: s.calls[d].token;
      var all := set d | d in cs :: s.calls[d].token;
      assert all == rest + {s.calls[c].token};
    }
  }

  /** In every state of every run the store holds at most limit leases, and at most limit bodies
      are running inside their leases. */
  lemma AtMostLimitBodiesInLease(cfg: Config, start: int, steps: seq<Step>, s: State)
    requires cfg.limit >= 1 && Exec(cfg, start, steps) == Some(s)
    ensures |s.leases| <= cfg.limit
    ensures |RunningInLease(cfg.limit, s)| <= cfg.limit
  {
    RunKeepsInv(cfg, start, steps, s);
    var cs := RunningInLease(cfg.limit, s);
    assert forall c :: c in cs ==> CallMatchesLeases(cfg.limit, s.now, s.leases, s.calls[c]);
    DistinctTokens(s, cs);
    SubsetSize(set c | c in cs :: s.calls[c].token, s.leases.Keys);
    assert |s.leases.Keys| == |s.leases|;
  }

  /** While every running body is still inside its lease, at most limit bodies run at once. */
  lemma AtMostLimitBodies(cfg: Config, start: int, steps: seq<Step>, s: State)
    requires cfg.limit >= 1 && Exec(cfg, start, steps) == Some(s)
    requires forall c :: c in s.calls && s.calls[c].Running? ==> Holds(cfg.limit, s.calls[c].until, s.now)
    ensures |RunningBodies(s)| <= cfg.limit
  {
    AtMostLimitBodiesInLease(cfg, start, steps, s);
    assert RunningBodies(s) == RunningInLease(cfg.limit, s);
  }

  // ---------- how long a body may last ----------

  /** No body has been running for more than duration; its lease began when it did. */
  predicate BodiesAreYoung(cfg: Config, s: State, duration: nat) {
    forall c :: c in s.calls && s.calls[c].Running? ==> s.now - (s.calls[c].until - cfg.ttlMs) <= duration
  }

  /** A run in which no body, at any moment, has lasted longer than duration. */
  ghost predicate IsRunOfBodies(cfg: Config, start: int, steps: seq<Step>, duration: nat) {
    forall k :: 0 <= k <= |steps| ==>
      Exec(cfg, start, steps[..k]).Some? && BodiesAreYoung(cfg, Exec(cfg, start, steps[..k]).value, duration)
  }

  /** The limit holds at the end of every run whose bodies last at most duration. */
  ghost predicate LimitHolds(cfg: Config, duration: nat) {
    forall start, steps :: IsRunOfBodies(cfg, start, steps, duration) ==>
      Exec(cfg, start, steps).Some? && |RunningBodies(Exec(cfg, start, steps).value)| <= cfg.limit
  }

  /** What the ttl has to exceed: at most limit bodies run at once, in every run, exactly when no body
      outlasts its lease. A mutex key lives through the instant it expires; with a ttl that is not
      positive a mutex never starts a body. */
  lemma LimitHoldsIff(cfg: Config, duration: nat)
    requires cfg.limit >= 1
    ensures LimitHolds(cfg, duration)
       <==> duration < cfg.ttlMs || (cfg.limit == 1 && (duration == cfg.ttlMs || cfg.ttlMs <= 0))
  {
    hide Exec, RunningBodies;
    if duration < cfg.ttlMs || (cfg.limit == 1 && (duration == cfg.ttlMs || cfg.ttlMs <= 0)) {
      forall start, steps | IsRunOfBodies(cfg, start, steps, duration)
        ensures Exec(cfg, start, steps).Some? && |RunningBodies(Exec(cfg, start, steps).value)| <= cfg.limit
      {
        assert steps[..|steps|] == steps;
        ShortBodiesKeepTheLimit(cfg, start, steps, Exec(cfg, start, steps).value, duration);
      }
    } else {
      OverrunIsRunOfBodies(cfg, duration);
    }
  }

  lemma ShortBodiesKeepTheLimit(cfg: Config, start: int, steps: seq<Step>, s: State, duration: nat)
    requires cfg.limit >= 1 && Exec(cfg, start, steps) == Some(s) && BodiesAreYoung(cfg, s, duration)
    requires duration < cfg.ttlMs || (cfg.limit == 1 && (duration == cfg.ttlMs || cfg.ttlMs <= 0))
    ensures |RunningBodies(s)| <= cfg.limit
  {
    if duration <= cfg.ttlMs {
      hide Exec, RunningBodies;
      AtMostLimitBodies(cfg, start, steps, s);
    } else {
      NoBodyWithoutTtl(cfg, start, steps, s);
      assert RunningBodies(s) == {};
    }
  }

  lemma {:induction false} NoBodyWithoutTtl(cfg: Config, start: int, steps: seq<Step>, s: State)
    requires cfg.limit == 1 && cfg.ttlMs <= 0 && Exec(cfg, start, steps) == Some(s)
    ensures forall c :: c in s.calls ==> !s.calls[c].Running?
  {
    if steps == [] {
    } else {
      NoBodyWithoutTtl(cfg, start, steps[..|steps| - 1], Exec(cfg, start, steps[..|steps| - 1]).value);
    }
  }

  /** Tokens of different lengths. */
  function TokenOf(i: nat): (token: string)
    ensures |token| == i
  {
    if i == 0 then "" else "x" + TokenOf(i - 1)
  }

  /** How long the first body of the overrun lasts: just long enough for its lease to lapse. */
  function Lapse(cfg: Config): nat
    requires cfg.limit >= 1 && (cfg.limit == 1 ==> cfg.ttlMs > 0)
  {
    if cfg.limit == 1 then cfg.ttlMs + 1 else if cfg.ttlMs > 0 then cfg.ttlMs else 0
  }

  /** One call starts, its lease lapses while its body runs on, and n more calls start. */
  function Overrun(cfg: Config, n: nat): seq<Step>
    requires cfg.limit >= 1 && (cfg.limit == 1 ==> cfg.ttlMs > 0)
  {
    if n == 0 then [Acquire(0, TokenOf(0)), Tick(Lapse(cfg))] else Overrun(cfg, n - 1) + [Acquire(n, TokenOf(n))]
  }

  /** Calls 0 to n are running; only the first one's lease has lapsed. */
  function OverrunCalls(cfg: Config, n: nat): (calls: map<CallId, Phase>)
    requires cfg.limit >= 1 && (cfg.limit == 1 ==> cfg.ttlMs > 0)
    ensures forall c :: c in calls <==> 0 <= c <= n
    ensures forall c :: c in calls ==> calls[c].Running? && calls[c].until >= cfg.ttlMs
  {
    if n == 0 then map[0 := Running(TokenOf(0), cfg.ttlMs)]
    else OverrunCalls(cfg, n - 1)[n := Running(TokenOf(n), Lapse(cfg) + cfg.ttlMs)]
  }

  predicate AfterOverrun(cfg: Config, n: nat, s: State)
    requires cfg.limit >= 1 && (cfg.limit == 1 ==> cfg.ttlMs > 0)
  {
    && s.now == Lapse(cfg) && s.calls == OverrunCalls(cfg, n)
    && (forall t :: t in s.issued ==> |t| <= n)
    && |StillHeld(cfg.limit, s.leases, s.now)| <= n
  }

  lemma OverrunStarts(cfg: Config)
    requires 1 <= cfg.limit && (cfg.limit == 1 ==> cfg.ttlMs > 0)
    ensures var first := Exec(cfg, 0, Overrun(cfg, 0)[..1]);
            first == Some(State(0, map[TokenOf(0) := cfg.ttlMs], map[0 := Running(TokenOf(0), cfg.ttlMs)], map[TokenOf(0) := 0]))
            && Exec(cfg, 0, Overrun(cfg, 0)) == Some(first.value.(now := Lapse(cfg)))
  {
    var steps := Overrun(cfg, 0);
    var before := steps[..1];
    assert before == [Acquire(0, TokenOf(0))] && before[..0] == [] && steps == before + [Tick(Lapse(cfg))];
    assert StillHeld(cfg.limit, map[], 0) == map[];
    assert Exec(cfg, 0, before[..0]) == Some(Init(0));
  }

  lemma {:induction false} OverrunRuns(cfg: Config, n: nat)
    requires 1 <= cfg.limit && (cfg.limit == 1 ==> cfg.ttlMs > 0) && n <= cfg.limit
    ensures Exec(cfg, 0, Overrun(cfg, n)).Some? && AfterOverrun(cfg, n, Exec(cfg, 0, Overrun(cfg, n)).value)
  {
    if n == 0 {
      OverrunStarts(cfg);
      hide Exec, Overrun;
      assert StillHeld(cfg.limit, map[TokenOf(0) := cfg.ttlMs], Lapse(cfg)) == map[];
    } else {
      OverrunRuns(cfg, n - 1);
      var s := Exec(cfg, 0, Overrun(cfg, n - 1)).value;
      hide AfterOverrun;
      AcquireAfterOverrun(cfg, n, s);
      OverrunGrows(cfg, n);
    }
  }

  lemma OverrunGrows(cfg: Config, n: nat)
    requires 1 <= n <= cfg.limit && (cfg.limit == 1 ==> cfg.ttlMs > 0)
    requires Exec(cfg, 0, Overrun(cfg, n - 1)).Some?
    requires Enabled(cfg, Exec(cfg, 0, Overrun(cfg, n - 1)).value, Acquire(n, TokenOf(n)))
    ensures Exec(cfg, 0, Overrun(cfg, n))
         == Some(Apply(cfg, Exec(cfg, 0, Overrun(cfg, n - 1)).value, Acquire(n, TokenOf(n))))
  {
    hide Apply, Enabled, TokenOf;
    assert Overrun(cfg, n)[..|Overrun(cfg, n)| - 1] == Overrun(cfg, n - 1);
  }

  lemma AcquireIsEnabled(cfg: Config, n: nat, s: State)
    requires 1 <= n <= cfg.limit && (cfg.limit == 1 ==> cfg.ttlMs > 0) && AfterOverrun(cfg, n - 1, s)
    ensures Enabled(cfg, s, Acquire(n, TokenOf(n))) && CanAcquire(cfg.limit, s.leases, s.now)
  {
    hide StillHeld, Lapse, TokenOf;
  }

  lemma AcquireAfterOverrun(cfg: Config, n: nat, s: State)
    requires 1 <= n <= cfg.limit && (cfg.limit == 1 ==> cfg.ttlMs > 0) && AfterOverrun(cfg, n - 1, s)
    ensures Enabled(cfg, s, Acquire(n, TokenOf(n)))
    ensures AfterOverrun(cfg, n, Apply(cfg, s, Acquire(n, TokenOf(n))))
  {
    hide StillHeld, AfterAcquire, CanAcquire, Lapse, TokenOf, OverrunCalls, Enabled, Apply;
    AcquireIsEnabled(cfg, n, s);
    OverrunCallsGrow(cfg, n);
    AcquireStarts(cfg, s, n, TokenOf(n));
    HeldAfterAcquire(cfg, s.leases, s.now, TokenOf(n));
  }

  lemma OverrunCallsGrow(cfg: Config, n: nat)
    requires 1 <= n && cfg.limit >= 1 && (cfg.limit == 1 ==> cfg.ttlMs > 0)
    ensures OverrunCalls(cfg, n) == OverrunCalls(cfg, n - 1)[n := Running(TokenOf(n), Lapse(cfg) + cfg.ttlMs)]
  {
  }

  lemma AcquireStarts(cfg: Config, s: State, c: CallId, token: string)
    requires Enabled(cfg, s, Acquire(c, token)) && CanAcquire(cfg.limit, s.leases, s.now)
    ensures Apply(cfg, s, Acquire(c, token)) ==
            State(s.now, AfterAcquire(cfg.limit, s.leases, s.now, token, cfg.ttlMs),
                  s.calls[c := Running(token, s.now + cfg.ttlMs)], s.issued[token := c])
  {
    hide AfterAcquire, CanAcquire;
  }

  lemma HeldAfterAcquire(cfg: Config, leases: Leases, now: int, token: string)
    requires CanAcquire(cfg.limit, leases, now)
    ensures |StillHeld(cfg.limit, AfterAcquire(cfg.limit, leases, now, token, cfg.ttlMs), now)|
         <= |StillHeld(cfg.limit, leases, now)| + 1
  {
    var held, after := StillHeld(cfg.limit, leases, now), AfterAcquire(cfg.limit, leases, now, token, cfg.ttlMs);
    var heldAfter := StillHeld(cfg.limit, after, now);
    assert heldAfter.Keys <= held.Keys + {token};
    SubsetSize(heldAfter.Keys, held.Keys + {token});
    assert |heldAfter.Keys| == |heldAfter| && |held.Keys| == |held|;
  }

  lemma {:induction false} OverrunBodiesAreYoung(cfg: Config, n: nat, k: nat, duration: nat)
    requires 1 <= cfg.limit && (cfg.limit == 1 ==> cfg.ttlMs > 0) && n <= cfg.limit
    requires Lapse(cfg) <= duration && k <= |Overrun(cfg, n)|
    ensures Exec(cfg, 0, Overrun(cfg, n)[..k]).Some?
    ensures BodiesAreYoung(cfg, Exec(cfg, 0, Overrun(cfg, n)[..k]).value, duration)
  {
    var steps := Overrun(cfg, n);
    if k == |steps| {
      OverrunRuns(cfg, n);
      assert steps[..k] == steps;
    } else if n == 0 {
      assert steps[..0] == [];
      OverrunStarts(cfg);
    } else {
      OverrunBodiesAreYoung(cfg, n - 1, k, duration);
      assert steps[..k] == Overrun(cfg, n - 1)[..k];
    }
  }

  lemma {:induction false} RangeSize(n: nat) returns (range: set<CallId>)
    ensures forall c :: c in range <==> 0 <= c < n
    ensures |range| == n
  {
    if n == 0 {
      range := {};
    } else {
      var less := RangeSize(n - 1);
      range := less + {n - 1};
    }
  }

  /** As soon as bodies may last until their leases lapse, limit + 1 of them can run at once. */
  lemma OverrunIsRunOfBodies(cfg: Config, duration: nat)
    requires 1 <= cfg.limit && (cfg.limit == 1 ==> cfg.ttlMs > 0) && Lapse(cfg) <= duration
    ensures IsRunOfBodies(cfg, 0, Overrun(cfg, cfg.limit), duration)
    ensures Exec(cfg, 0, Overrun(cfg, cfg.limit)).Some?
    ensures |RunningBodies(Exec(cfg, 0, Overrun(cfg, cfg.limit)).value)| == cfg.limit + 1
  {
    hide Exec, Overrun, Lapse, BodiesAreYoung;
    var steps := Overrun(cfg, cfg.limit);
    forall k | 0 <= k <= |steps|
      ensures Exec(cfg, 0, steps[..k]).Some? && BodiesAreYoung(cfg, Exec(cfg, 0, steps[..k]).value, duration)
    {
      OverrunBodiesAreYoung(cfg, cfg.limit, k, duration);
    }
    OverrunRuns(cfg, cfg.limit);
    var range := RangeSize(cfg.limit + 1);
    assert RunningBodies(Exec(cfg, 0, steps).value) == range;
  }

  /** For example, a mutex with a ttl of one second and a body that goes on a millisecond longer. */
  lemma OverrunBreaksExclusion()
    ensures var cfg, steps := Config(1, 1000), [Acquire(1, "a"), Tick(1001), Acquire(2, "b")];
            Exec(cfg, 0, steps).Some? && RunningBodies(Exec(cfg, 0, steps).value) == {1, 2}
  {
    var cfg, steps := Config(1, 1000), [Acquire(1, "a"), Tick(1001), Acquire(2, "b")];
    assert steps[..2] == [Acquire(1, "a"), Tick(1001)] && steps[..2][..1] == [Acquire(1, "a")];
    assert steps[..2][..1][..0] == [];
    assert StillHeld(1, map[], 0) == map[];
    var s1 := State(0, map["a" := 1000], map[1 := Running("a", 1000)], map["a" := 1]);
    assert Exec(cfg, 0, [Acquire(1, "a")]) == Some(s1);
    assert Exec(cfg, 0, steps[..2]) == Some(s1.(now := 1001));
    assert StillHeld(1, s1.leases, 1001) == map[];
  }

  // ---------- lease hygiene ----------

  /** A lease leaves the store only because it has lapsed or because its own call releases it;
      releasing an expired token never takes another holder's lease. */
  lemma LeaseLeavesOnlyByLapseOrOwner(cfg: Config, start: int, steps: seq<Step>, s: State, step: Step, t: string)
    requires cfg.limit >= 1 && Exec(cfg, start, steps) == Some(s) && Enabled(cfg, s, step)
    requires t in s.leases
    requires t !in Apply(cfg, s, step).leases || Apply(cfg, s, step).leases[t] != s.leases[t]
    ensures t in s.issued
    ensures !Holds(cfg.limit, s.leases[t], s.now)
            || ((step.Release? || step.ReleaseFails?) && step.c == s.issued[t])
  {
    RunKeepsInv(cfg, start, steps, s);
  }

  /** A call that was skipped, or that released without a Redis failure, has no lease. */
  lemma FinishedCallsHoldNothing(cfg: Config, start: int, steps: seq<Step>, s: State, c: CallId)
    requires cfg.limit >= 1 && Exec(cfg, start, steps) == Some(s)
    requires c in s.calls && (s.calls[c].SkippedCall? || s.calls[c] == Ended(s.calls[c].token, true))
    ensures s.calls[c].token !in s.leases
  {
    RunKeepsInv(cfg, start, steps, s);
    assert CallMatchesLeases(cfg.limit, s.now, s.leases, s.calls[c]);
  }

  /** Does step k start the body of call c? */
  predicate StartsBody(cfg: Config, start: int, steps: seq<Step>, k: int, c: CallId)
    requires 0 <= k < |steps|
  {
    var before, after := Exec(cfg, start, steps[..k]), Exec(cfg, start, steps[..k + 1]);
    && before.Some? && after.Some?
    && !(c in before.value.calls && before.value.calls[c].Running?)
    && c in after.value.calls && after.value.calls[c].Running?
  }

  lemma {:induction false} CallsStay(cfg: Config, start: int, steps: seq<Step>, j: int, k: int, c: CallId)
    requires 0 <= j <= k <= |steps|
    requires Exec(cfg, start, steps[..j]).Some? && c in Exec(cfg, start, steps[..j]).value.calls
    requires Exec(cfg, start, steps[..k]).Some?
    ensures c in Exec(cfg, start, steps[..k]).value.calls
    decreases k - j
  {
    if j < k {
      assert steps[..k][..k - 1] == steps[..k - 1];
      CallsStay(cfg, start, steps, j, k - 1, c);
    }
  }

  /** No call ever starts its body twice. */
  lemma BodyStartsAtMostOnce(cfg: Config, start: int, steps: seq<Step>, j: int, k: int, c: CallId)
    requires 0 <= j < k < |steps| && StartsBody(cfg, start, steps, j, c)
    ensures !StartsBody(cfg, start, steps, k, c)
  {
    if StartsBody(cfg, start, steps, k, c) {
      assert steps[..k + 1][..k] == steps[..k];
      CallsStay(cfg, start, steps, j + 1, k, c);
    }
  }

  /** From any reachable state, once the clock has moved past every lease, which takes no longer
      than one ttl, the next acquire succeeds. */
  lemma AcquireSucceedsAfterTtl(cfg: Config, start: int, steps: seq<Step>, s: State, ms: nat, c: CallId, token: string)
    requires cfg.limit >= 1 && Exec(cfg, start, steps) == Some(s) && ms > cfg.ttlMs
    requires Enabled(cfg, s.(now := s.now + ms), Acquire(c, token))
    ensures var later := Apply(cfg, s, Tick(ms));
            Apply(cfg, later, Acquire(c, token)).calls[c] == Running(token, later.now + cfg.ttlMs)
  {
    RunKeepsInv(cfg, start, steps, s);
    assert StillHeld(cfg.limit, s.leases, s.now + ms) == map[];
  }
}
