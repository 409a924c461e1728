/**
 The syncer in a concurrent world: any number of callers of `ensure_fresh`, the sync threads they start, and an
 outside world that commits, edits, switches branches, pushes and rewinds between any two steps.
 Lock-protected regions are atomic, and so is a git command together with what its thread stores of the reply (branch,
 commits and counters): no other thread writes those fields while a sync is active, and `ensure_fresh` never reads them.
 The writes of a result and of the in-flight event are steps of their own.
 */
module GitProtocol {
  import opened GitRepo
  import opened GitSyncer

  /** A caller is away, blocked on an event, about to read `_last_error`, or answered. */
  datatype Caller = Away | Waiting(event: nat) | Checking | Answered(stale: bool)

  /** What happened so far: start stamps, recorded results, and how merges ended. */
  datatype Log = Log(
    attempts: seq<real>, recorded: seq<bool>, mergesMoving: nat, mergesUpToDate: nat, mergesKilled: nat, readsLost: nat)

  /** Thread k is the one that owns event k; the event is set once the thread is finished. */
  datatype Sys = Sys(sh: Shared, repo: Repo, threads: seq<Thread>, callers: map<nat, Caller>, clock: real, log: Log)

  datatype Action =
    | Enter(caller: nat, now: real, stamp: real)
    | GiveUp(caller: nat)
    | Wake(caller: nat)
    | Read(caller: nat)
    | Run(thread: nat, reply: Reply, repo': Repo)
    | Write(thread: nat)
    | Outside(world: Repo)
    | Tick(time: real)

  ghost predicate Init(cfg: Config, s: Sys) {
    && cfg.Valid() && RepoOk(s.repo)
    && s.sh == Initial(cfg) && s.threads == [] && s.callers == map[]
    && s.log == Log([], [], 0, 0, 0, 0)
  }

  function CallerOf(s: Sys, c: nat): Caller {
    if c in s.callers then s.callers[c] else Away
  }

  ghost predicate Enabled(cfg: Config, s: Sys, a: Action) {
    match a
    case Enter(c, now, stamp) => (CallerOf(s, c).Away? || CallerOf(s, c).Answered?) && s.clock <= now <= stamp
    case GiveUp(c) => CallerOf(s, c).Waiting? && CallerOf(s, c).event < |s.threads| && s.threads[CallerOf(s, c).event].pc != Finished
    case Wake(c) => CallerOf(s, c).Waiting? && CallerOf(s, c).event < |s.threads| && s.threads[CallerOf(s, c).event].pc == Finished
    case Read(c) => CallerOf(s, c).Checking?
    case Run(k, reply, repo') =>
      k < |s.threads| && s.threads[k].pc.At? && Fits(CommandOf(s.threads[k]), reply)
      && GitRuns(s.repo, CommandOf(s.threads[k]), reply, repo')
    case Write(k) => k < |s.threads| && !s.threads[k].pc.At? && s.threads[k].pc != Finished
    case Outside(world) => Interferes(s.repo, world)
    case Tick(time) => s.clock <= time
  }

  function Entered(cfg: Config, s: Sys, c: nat, now: real, stamp: real): Sys {
    if s.sh.inFlight.Some? then s.(callers := s.callers[c := Waiting(s.sh.inFlight.value)], clock := stamp)
    else if Due(cfg, s.sh, now) then
      s.(sh := Started(s.sh, |s.threads|, stamp),
         threads := s.threads + [NewThread(|s.threads|, s.sh.rootKnown)],
         callers := s.callers[c := Waiting(|s.threads|)],
         clock := stamp,
         log := s.log.(attempts := s.log.attempts + [stamp]))
    else s.(callers := s.callers[c := Checking], clock := stamp)
  }

  /** The locked part of `ensure_fresh`, run on the fields of this state, leaves the fields and the answer of this step. */
  method EnterSyncer(cfg: Config, syncer: Syncer, ghost s: Sys, c: nat, now: real, stamp: real, token: nat)
    returns (event: Option<nat>, started: bool)
    requires syncer.cfg == cfg && syncer.Contents() == s.sh && token == |s.threads|
    modifies syncer
    ensures var s' := Entered(cfg, s, c, now, stamp);
            && syncer.Contents() == s'.sh
            && s'.threads == (if started then s.threads + [NewThread(token, s.sh.rootKnown)] else s.threads)
            && CallerOf(s', c) == (if event.Some? then Waiting(event.value) else Checking)
            && s'.log == (if started then s.log.(attempts := s.log.attempts + [stamp]) else s.log)
  {
    event, started := syncer.EnterLocked(now, stamp, token);
  }

  function Merged(log: Log, stage: Stage, reply: Reply, moved: bool): Log {
    if stage == Merge && reply.Exit0? then
      if moved then log.(mergesMoving := log.mergesMoving + 1) else log.(mergesUpToDate := log.mergesUpToDate + 1)
    else if stage == Merge && moved then log.(mergesKilled := log.mergesKilled + 1)
    else if stage == ReadNewHead && !reply.Exit0? then log.(readsLost := log.readsLost + 1)
    else log
  }

  function Ran(cfg: Config, s: Sys, k: nat, reply: Reply, repo': Repo): Sys
    requires k < |s.threads| && s.threads[k].pc.At? && Fits(CommandOf(s.threads[k]), reply)
  {
    var t := s.threads[k];
    var moved := repo'.head != s.repo.head;
    var next := Receive(cfg, s.sh, t, reply);
    s.(sh := next.0, repo := repo',
       threads := s.threads[k := next.1.(movedHead := t.movedHead || moved)],
       log := Merged(s.log, t.pc.stage, reply, moved))
  }

  function Recorded(log: Log, pc: Pc): Log {
    match pc
    case WriteNoError(_) => log.(recorded := log.recorded + [true])
    case WriteError(_) => log.(recorded := log.recorded + [false])
    case _ => log
  }

  function Wrote(s: Sys, k: nat): Sys
    requires k < |s.threads| && !s.threads[k].pc.At? && s.threads[k].pc != Finished
  {
    var next := Proceed(s.sh, s.threads[k]);
    s.(sh := next.0, threads := s.threads[k := next.1], log := Recorded(s.log, s.threads[k].pc))
  }

  function Apply(cfg: Config, s: Sys, a: Action): Sys
    requires Enabled(cfg, s, a)
  {
    match a
    case Enter(c, now, stamp) => Entered(cfg, s, c, now, stamp)
    case GiveUp(c) => s.(callers := s.callers[c := Answered(true)])
    case Wake(c) => s.(callers := s.callers[c := Checking])
    case Read(c) => s.(callers := s.callers[c := Answered(s.sh.lastError.Some?)])
    case Run(k, reply, repo') => Ran(cfg, s, k, reply, repo')
    case Write(k) => Wrote(s, k)
    case Outside(world) => s.(repo := world)
    case Tick(time) => s.(clock := time)
  }

  // ---------------------------------------------------------------- invariants

  /** Between the start of `_run_sync` and the moment it clears the in-flight event. */
  predicate Active(pc: Pc) { pc != SetEvent && pc != Finished }

  predicate Unrecorded(pc: Pc) { pc.At? || pc.WriteNoError? || pc.WriteError? }

  predicate BeforeFetch(pc: Pc) { pc.At? && (pc.stage == Root || pc.stage == Branch || pc.stage == Upstream) }

  predicate Fetching(pc: Pc) { pc.At? && !BeforeFetch(pc) }

  function One(b: bool): nat { if b then 1 else 0 }

  /** Where the thread in flight is; Finished if there is none. */
  function Flight(s: Sys): Pc {
    if s.sh.inFlight.Some? && s.sh.inFlight.value < |s.threads| then s.threads[s.sh.inFlight.value].pc else Finished
  }

  /** Single flight: the in-flight event is the event of the only active thread. */
  ghost predicate SingleFlight(s: Sys) {
    && |s.threads| == |s.log.attempts|
    && (forall k :: 0 <= k < |s.threads| ==> s.threads[k].event == k)
    && (forall k :: 0 <= k < |s.threads| ==> (Active(s.threads[k].pc) <==> s.sh.inFlight == Some(k)))
    && (s.sh.inFlight.Some? ==> s.sh.inFlight.value < |s.threads|)
    && (forall c :: c in s.callers && s.callers[c].Waiting? ==> s.callers[c].event < |s.threads|)
  }

  predicate Agree(sh: Shared) {
    && (sh.lastError.None? <==> sh.state == Idle || sh.state == Synced || sh.state == Updated)
    && (sh.lastError.Some? ==> sh.state == StateOf(sh.lastError.value))
  }

  /** `_last_error` tells the last recorded result, and agrees with `_state` except between the two writes. */
  ghost predicate Results(s: Sys) {
    && |s.log.recorded| + One(Unrecorded(Flight(s))) == |s.threads|
    && (s.sh.lastError.None? <==> s.log.recorded == [] || s.log.recorded[|s.log.recorded| - 1])
    && (forall c :: c in s.callers && s.callers[c].Checking? ==> s.log.recorded != [])
    && (match Flight(s)
        case WriteGoodState(_) => s.sh.lastError == None
        case WriteBadState(f) => s.sh.lastError == Some(f)
        case _ => Agree(s.sh))
  }

  /** Consecutive start stamps are at least a cooldown apart. */
  ghost predicate Spaced(attempts: seq<real>, cooldown: real) {
    forall i :: 0 <= i < |attempts| - 1 ==> attempts[i + 1] - attempts[i] >= cooldown
  }

  ghost predicate Cooldown(cfg: Config, s: Sys) {
    && Spaced(s.log.attempts, cfg.cooldown)
    && (if s.log.attempts == [] then s.sh.lastAttempt == None
        else s.sh.lastAttempt == Some(s.log.attempts[|s.log.attempts| - 1]) && s.log.attempts[|s.log.attempts| - 1] <= s.clock)
  }

  ghost predicate Counters(s: Sys) {
    && s.sh.fetchCount + One(BeforeFetch(Flight(s))) <= |s.threads|
    && s.sh.generation + One(Fetching(Flight(s))) <= s.sh.fetchCount
    && s.sh.generation + s.log.readsLost + One(Flight(s) == At(ReadNewHead)) == s.log.mergesMoving + s.log.mergesUpToDate
  }

  /** What a thread knows and did, given the commit graph. */
  ghost predicate ThreadOk(dag: Dag, t: Thread) {
    && (t.pc.At? <==> t.outcome.None?)
    && (t.pc.At? && t.movedHead ==> t.pc.stage == ReadNewHead)
    && (t.outcome.Some? && t.movedHead ==> MayHaveMoved(t.outcome.value))
    && (t.pc.At? && t.pc.stage in {ReadHead, CheckStatus, CheckBehind, CheckAhead, Merge} ==> t.remoteSha in dag)
    && (t.pc.At? && t.pc.stage in {CheckStatus, CheckBehind, CheckAhead, Merge} ==> t.headSha in dag && t.headSha != t.remoteSha)
    && (t.pc == At(Merge) ==> Ancestor(dag, t.headSha, t.remoteSha))
  }

  /** The only results after which HEAD may have been moved by the sync. */
  predicate MayHaveMoved(outcome: Outcome) {
    match outcome
    case Changed(changed) => changed
    case Failed(f) =>
      !f.Blocked? && (f.stage == ReadNewHead || (f.stage == Merge && !f.CommandFailed?))
  }

  ghost predicate Heads(s: Sys) {
    RepoOk(s.repo) && forall k :: 0 <= k < |s.threads| ==> ThreadOk(s.repo.dag, s.threads[k])
  }

  ghost predicate Inv(cfg: Config, s: Sys) {
    cfg.Valid() && SingleFlight(s) && Results(s) && Cooldown(cfg, s) && Counters(s) && Heads(s)
  }

  lemma InitInv(cfg: Config, s: Sys)
    requires Init(cfg, s)
    ensures Inv(cfg, s)
  {
  }

  // ---------------------------------------------------------------- every step keeps the invariants

  lemma ReceiveStaysActive(cfg: Config, sh: Shared, t: Thread, reply: Reply)
    requires t.pc.At? && Fits(CommandOf(t), reply)
    ensures var next := Receive(cfg, sh, t, reply);
            && Unrecorded(next.1.pc) && next.1.event == t.event && next.1.movedHead == t.movedHead
            && next.0.inFlight == sh.inFlight && next.0.lastAttempt == sh.lastAttempt
            && next.0.lastError == sh.lastError && next.0.state == sh.state
  {
    hide CommandOf, Fits;
  }

  lemma SingleFlightAfterCommand(cfg: Config, s: Sys, k: nat, reply: Reply, repo': Repo)
    requires SingleFlight(s)
    requires k < |s.threads| && s.threads[k].pc.At? && Fits(CommandOf(s.threads[k]), reply)
    ensures SingleFlight(Ran(cfg, s, k, reply, repo'))
  {
    hide Receive, Fits;
    ReceiveStaysActive(cfg, s.sh, s.threads[k], reply);
  }

  lemma SingleFlightAfterWrite(s: Sys, k: nat)
    requires SingleFlight(s)
    requires k < |s.threads| && !s.threads[k].pc.At? && s.threads[k].pc != Finished
    ensures SingleFlight(Wrote(s, k))
  {
  }

  lemma SingleFlightKept(cfg: Config, s: Sys, a: Action)
    requires Inv(cfg, s) && Enabled(cfg, s, a)
    ensures SingleFlight(Apply(cfg, s, a))
  {
    hide Results, Cooldown, Counters, Heads, GitRuns, Interferes, Ran, Wrote, Due;
    match a {
      case Run(k, reply, repo') => SingleFlightAfterCommand(cfg, s, k, reply, repo');
      case Write(k) => SingleFlightAfterWrite(s, k);
      case _ =>
    }
  }

  lemma ResultsAfterEnter(cfg: Config, s: Sys, c: nat, now: real, stamp: real)
    requires SingleFlight(s) && Results(s) && Cooldown(cfg, s)
    ensures Results(Entered(cfg, s, c, now, stamp))
  {
    hide Spaced;
  }

  lemma ResultsAfterWrite(s: Sys, k: nat)
    requires SingleFlight(s) && Results(s)
    requires k < |s.threads| && !s.threads[k].pc.At? && s.threads[k].pc != Finished
    ensures Results(Wrote(s, k))
  {
  }

  lemma ResultsAfterCommand(cfg: Config, s: Sys, k: nat, reply: Reply, repo': Repo)
    requires SingleFlight(s) && Results(s)
    requires k < |s.threads| && s.threads[k].pc.At? && Fits(CommandOf(s.threads[k]), reply)
    ensures Results(Ran(cfg, s, k, reply, repo'))
  {
    hide Receive, Fits;
    ReceiveStaysActive(cfg, s.sh, s.threads[k], reply);
  }

  /** A caller whose event is set, or that found neither an event nor a due sync, reads a recorded result. */
  lemma ResultsAfterWake(s: Sys, c: nat)
    requires SingleFlight(s) && Results(s)
    requires CallerOf(s, c).Waiting? && CallerOf(s, c).event < |s.threads| && s.threads[CallerOf(s, c).event].pc == Finished
    ensures s.log.recorded != []
  {
  }

  lemma ResultsKept(cfg: Config, s: Sys, a: Action)
    requires Inv(cfg, s) && Enabled(cfg, s, a)
    ensures Results(Apply(cfg, s, a))
  {
    match a {
      case Enter(c, now, stamp) => ResultsAfterEnter(cfg, s, c, now, stamp);
      case Run(k, reply, repo') => ResultsAfterCommand(cfg, s, k, reply, repo');
      case Write(k) => ResultsAfterWrite(s, k);
      case Wake(c) => ResultsAfterWake(s, c);
      case _ =>
    }
    hide Counters, Heads, Cooldown, SingleFlight, GitRuns, Interferes, Ran, Wrote, Entered;
  }

  lemma CooldownKept(cfg: Config, s: Sys, a: Action)
    requires Inv(cfg, s) && Enabled(cfg, s, a)
    ensures Cooldown(cfg, Apply(cfg, s, a))
  {
    hide Counters, Heads, GitRuns, Interferes, Results, SingleFlight, Receive;
    if a.Run? {
      ReceiveStaysActive(cfg, s.sh, s.threads[a.thread], a.reply);
    }
  }

  /** How one command moves the counters, and with it the place in the sync. */
  lemma ReceiveCounts(cfg: Config, sh: Shared, t: Thread, reply: Reply)
    requires t.pc.At? && Fits(CommandOf(t), reply)
    ensures var next := Receive(cfg, sh, t, reply);
            && next.0.fetchCount + One(BeforeFetch(next.1.pc)) <= sh.fetchCount + One(BeforeFetch(t.pc))
            && next.0.generation + One(Fetching(next.1.pc)) <= sh.generation + One(Fetching(t.pc)) + (next.0.fetchCount - sh.fetchCount)
            && (next.1.pc == At(ReadNewHead) <==> t.pc == At(Merge) && reply.Exit0?)
            && next.0.generation == sh.generation + One(t.pc == At(ReadNewHead) && reply.Exit0?)
            && next.0.inFlight == sh.inFlight
  {
    hide CommandOf, Fits;
  }

  lemma CountersKept(cfg: Config, s: Sys, a: Action)
    requires Inv(cfg, s) && Enabled(cfg, s, a)
    ensures Counters(Apply(cfg, s, a))
  {
    hide Cooldown, Heads, GitRuns, Interferes, Results, Receive, Fits;
    if a.Run? {
      ReceiveCounts(cfg, s.sh, s.threads[a.thread], a.reply);
    }
  }

  lemma ThreadOkLater(dag: Dag, dag': Dag, t: Thread)
    requires DagOk(dag) && Grows(dag, dag') && ThreadOk(dag, t)
    ensures ThreadOk(dag', t)
  {
    hide Ancestor, DagOk;
    if t.pc == At(Merge) {
      AncestorStable(dag, dag', t.headSha, t.remoteSha);
    }
  }

  lemma ThreadOkAfterCommand(cfg: Config, sh: Shared, t: Thread, repo: Repo, reply: Reply, repo': Repo)
    requires RepoOk(repo) && ThreadOk(repo.dag, t) && t.pc.At? && Fits(CommandOf(t), reply)
    requires GitRuns(repo, CommandOf(t), reply, repo')
    ensures ThreadOk(repo.dag, Receive(cfg, sh, t, reply).1.(movedHead := t.movedHead || repo'.head != repo.head))
  {
    hide Ancestor, DagOk, RepoOk, GitRuns;
    CommandKeepsHead(repo, CommandOf(t), reply, repo');
    if reply.Exit0? {
      CommandTells(repo, CommandOf(t), reply, repo');
    }
  }

  /** What a reply tells about the commit graph. */
  lemma CommandTells(repo: Repo, cmd: Command, reply: Reply, repo': Repo)
    requires RepoOk(repo) && GitRuns(repo, cmd, reply, repo') && reply.Exit0?
    ensures reply.out.Sha? ==> reply.out.commit in repo.dag
    ensures cmd.IsAncestor? ==> Ancestor(repo.dag, cmd.a, cmd.c)
  {
    hide Ancestor;
  }

  lemma HeadsKept(cfg: Config, s: Sys, a: Action)
    requires Inv(cfg, s) && Enabled(cfg, s, a)
    ensures Heads(Apply(cfg, s, a))
  {
    hide Cooldown, Results, Counters, SingleFlight, Receive, Fits, ThreadOk, RepoOk, GitRuns;
    match a {
      case Run(k, reply, repo') =>
        CommandKeepsHead(s.repo, CommandOf(s.threads[k]), reply, repo');
        ThreadOkAfterCommand(cfg, s.sh, s.threads[k], s.repo, reply, repo');
      case Write(k) => ThreadOkAfterWrite(s, k);
      case Outside(world) =>
        forall k | 0 <= k < |s.threads| ensures ThreadOk(world.dag, s.threads[k]) {
          RepoDagOk(s.repo);
          ThreadOkLater(s.repo.dag, world.dag, s.threads[k]);
        }
      case Enter(c, now, stamp) => ThreadOkAtStart(s.repo.dag, |s.threads|, s.sh.rootKnown);
      case _ =>
    }
  }

  lemma RepoDagOk(repo: Repo)
    requires RepoOk(repo)
    ensures DagOk(repo.dag)
  {
  }

  lemma ThreadOkAtStart(dag: Dag, event: nat, rootKnown: bool)
    ensures ThreadOk(dag, NewThread(event, rootKnown))
  {
  }

  lemma ThreadOkAfterWrite(s: Sys, k: nat)
    requires k < |s.threads| && !s.threads[k].pc.At? && s.threads[k].pc != Finished && ThreadOk(s.repo.dag, s.threads[k])
    ensures ThreadOk(s.repo.dag, Proceed(s.sh, s.threads[k]).1)
  {
  }

  lemma StepInv(cfg: Config, s: Sys, a: Action)
    requires Inv(cfg, s) && Enabled(cfg, s, a)
    ensures Inv(cfg, Apply(cfg, s, a))
  {
    hide Apply, Enabled, SingleFlight, Results, Cooldown, Counters, Heads;
    SingleFlightKept(cfg, s, a);
    ResultsKept(cfg, s, a);
    CooldownKept(cfg, s, a);
    CountersKept(cfg, s, a);
    HeadsKept(cfg, s, a);
  }
}
