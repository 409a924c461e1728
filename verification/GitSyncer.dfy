/**
 The syncer itself: the fields of GitSyncer, the step machine of one sync thread, and the class whose methods
 are written in the order of the source and are proved to do what the step machine does.
 */
module GitSyncer {
  import opened GitRepo

  datatype Config = Config(cooldown: real, branch: Option<string>) {
    ghost predicate Valid() { cooldown >= 0.0 }
  }

  datatype BlockReason = WrongBranch | LocalChanges | Ahead | Diverged

  /** The commands of one sync, in order. */
  datatype Stage =
    Root | Branch | Upstream | FetchRemote | ReadRemote | ReadHead | CheckStatus | CheckBehind | CheckAhead | Merge | ReadNewHead

  datatype Failure =
    | Blocked(reason: BlockReason)
    | CommandFailed(stage: Stage)
    | CommandTimedOut(stage: Stage)
    | Unexpected(stage: Stage)

  datatype SyncState = Idle | Synced | Updated | BlockedState | ErrorState

  function StateOf(f: Failure): SyncState {
    if f.Blocked? then BlockedState else ErrorState
  }

  /** The fields that sync threads and callers share. An event is named by the number of the attempt that made it. */
  datatype Shared = Shared(
    inFlight: Option<nat>, lastAttempt: Option<real>, lastError: Option<Failure>, state: SyncState,
    branch: Option<string>, headSha: Option<Commit>, remoteSha: Option<Commit>,
    rootKnown: bool, fetchCount: nat, generation: nat)

  function Initial(cfg: Config): Shared {
    Shared(None, None, None, Idle, cfg.branch, None, None, false, 0, 0)
  }

  // ---------------------------------------------------------------- one sync thread, step by step

  /**
   Where a sync thread is: at a git command, writing its result (two separate writes), clearing the in-flight
   event under the lock, setting the event, or done.
   */
  datatype Pc =
    | At(stage: Stage)
    | WriteNoError(changed: bool)
    | WriteGoodState(changed: bool)
    | WriteError(failure: Failure)
    | WriteBadState(failure: Failure)
    | ClearInFlight
    | SetEvent
    | Finished

  /** `movedHead` and `outcome` record what the thread did to HEAD and how `_sync_once` ended. */
  datatype Thread = Thread(
    event: nat, pc: Pc, current: string, remoteBranch: string, remoteSha: Commit, headSha: Commit,
    movedHead: bool, outcome: Option<Outcome>)

  datatype Outcome = Changed(changed: bool) | Failed(failure: Failure)

  function NewThread(event: nat, rootKnown: bool): Thread {
    Thread(event, At(if rootKnown then Branch else Root), "", "", 0, 0, false, None)
  }

  function CommandOf(t: Thread): Command
    requires t.pc.At?
  {
    match t.pc.stage
    case Root => ShowToplevel
    case Branch => SymbolicRef
    case Upstream => UpstreamConfig(t.current)
    case FetchRemote => Fetch(t.remoteBranch)
    case ReadRemote => RevParseTracking(t.remoteBranch)
    case ReadHead => RevParseHead
    case CheckStatus => StatusTracked
    case CheckBehind => IsAncestor(t.headSha, t.remoteSha)
    case CheckAhead => IsAncestor(t.remoteSha, t.headSha)
    case Merge => MergeFfOnly(t.remoteSha)
    case ReadNewHead => RevParseHead
  }

  function Fail(t: Thread, f: Failure): Thread {
    t.(pc := WriteError(f), outcome := Some(Failed(f)))
  }

  function Succeed(t: Thread, changed: bool): Thread {
    t.(pc := WriteNoError(changed), outcome := Some(Changed(changed)))
  }

  /** The reply fits the command; anything else is output git cannot produce. */
  predicate Fits(cmd: Command, reply: Reply) {
    reply.Exit0? ==>
      match cmd
      case ShowToplevel | Fetch(_) | IsAncestor(_, _) | MergeFfOnly(_) => reply.out.Nothing?
      case SymbolicRef => reply.out.Name?
      case UpstreamConfig(_) => reply.out.Name? || reply.out.Nothing?
      case RevParseTracking(_) | RevParseHead => reply.out.Sha?
      case StatusTracked => reply.out.Changes?
  }

  /** What the thread does with the reply to its current command. */
  function Receive(cfg: Config, sh: Shared, t: Thread, reply: Reply): (Shared, Thread)
    requires t.pc.At? && Fits(CommandOf(t), reply)
  {
    var stage := t.pc.stage;
    if reply.TimedOut? && stage != Root then (sh, Fail(t, CommandTimedOut(stage)))
    else if reply.Broke? || (stage == Root && !reply.Exit0?) then (sh, Fail(t, Unexpected(stage)))
    else if reply.NonZero? && stage != Upstream && stage != CheckBehind && stage != CheckAhead then (sh, Fail(t, CommandFailed(stage)))
    else
      match stage
      case Root => (sh.(rootKnown := true), t.(pc := At(Branch)))
      case Branch =>
        var current := reply.out.name;
        if cfg.branch.Some? && current != cfg.branch.value then (sh, Fail(t, Blocked(WrongBranch)))
        else (sh.(branch := Some(current)), t.(pc := At(Upstream), current := current))
      case Upstream =>
        var remoteBranch := if reply.Exit0? && reply.out.Name? then reply.out.name else t.current;
        (sh.(fetchCount := sh.fetchCount + 1), t.(pc := At(FetchRemote), remoteBranch := remoteBranch))
      case FetchRemote => (sh, t.(pc := At(ReadRemote)))
      case ReadRemote => (sh, t.(pc := At(ReadHead), remoteSha := reply.out.commit))
      case ReadHead =>
        var head := reply.out.commit;
        var sh' := sh.(remoteSha := Some(t.remoteSha), headSha := Some(head));
        if head == t.remoteSha then (sh', Succeed(t.(headSha := head), false))
        else (sh', t.(pc := At(CheckStatus), headSha := head))
      case CheckStatus =>
        if reply.out.present then (sh, Fail(t, Blocked(LocalChanges))) else (sh, t.(pc := At(CheckBehind)))
      case CheckBehind => (sh, t.(pc := At(if reply.Exit0? then Merge else CheckAhead)))
      case CheckAhead => (sh, Fail(t, Blocked(if reply.Exit0? then Ahead else Diverged)))
      case Merge => (sh, t.(pc := At(ReadNewHead)))
      case ReadNewHead => (sh.(headSha := Some(reply.out.commit), generation := sh.generation + 1), Succeed(t, true))
  }

  /** The writes after `_sync_once` has returned or raised. */
  function Proceed(sh: Shared, t: Thread): (Shared, Thread)
    requires !t.pc.At? && t.pc != Finished
  {
    match t.pc
    case WriteNoError(c) => (sh.(lastError := None), t.(pc := WriteGoodState(c)))
    case WriteGoodState(c) => (sh.(state := if c then Updated else Synced), t.(pc := ClearInFlight))
    case WriteError(f) => (sh.(lastError := Some(f)), t.(pc := WriteBadState(f)))
    case WriteBadState(f) => (sh.(state := StateOf(f)), t.(pc := ClearInFlight))
    case ClearInFlight => (sh.(inFlight := None), t.(pc := SetEvent))
    case SetEvent => (sh, t.(pc := Finished))
  }

  /** Steps left until the thread is finished, at most. */
  function Rank(pc: Pc): nat {
    match pc
    case At(Root) => 16
    case At(Branch) => 15
    case At(Upstream) => 14
    case At(FetchRemote) => 13
    case At(ReadRemote) => 12
    case At(ReadHead) => 11
    case At(CheckStatus) => 10
    case At(CheckBehind) => 9
    case At(CheckAhead) => 8
    case At(Merge) => 8
    case At(ReadNewHead) => 7
    case WriteNoError(_) => 4
    case WriteGoodState(_) => 3
    case WriteError(_) => 4
    case WriteBadState(_) => 3
    case ClearInFlight => 2
    case SetEvent => 1
    case Finished => 0
  }

  lemma ReceiveLowersRank(cfg: Config, sh: Shared, t: Thread, reply: Reply)
    requires t.pc.At? && Fits(CommandOf(t), reply)
    ensures Rank(Receive(cfg, sh, t, reply).1.pc) < Rank(t.pc)
  {
    hide CommandOf, Fits;
  }

  /** The k-th reply of the runner; when there is none, or it makes no sense for the command, the runner raised. */
  function Reading(replies: seq<Reply>, k: nat, cmd: Command): Reply {
    if k < |replies| && Fits(cmd, replies[k]) then replies[k] else Broke
  }

  /** A whole sync thread fed with the replies to its commands, from its (k+1)-th command on. */
  function RunThread(cfg: Config, sh: Shared, t: Thread, replies: seq<Reply>, k: nat): (Shared, Thread)
    decreases Rank(t.pc)
  {
    match t.pc
    case Finished => (sh, t)
    case At(_) =>
      var reply := Reading(replies, k, CommandOf(t));
      ReceiveLowersRank(cfg, sh, t, reply);
      var next := Receive(cfg, sh, t, reply);
      RunThread(cfg, next.0, next.1, replies, k + 1)
    case _ =>
      var next := Proceed(sh, t);
      RunThread(cfg, next.0, next.1, replies, k)
  }

  // ---------------------------------------------------------------- the class

  class Syncer {
    const cfg: Config
    var inFlight: Option<nat>
    var lastAttempt: Option<real>
    var lastError: Option<Failure>
    var state: SyncState
    var branch: Option<string>
    var headSha: Option<Commit>
    var remoteSha: Option<Commit>
    var rootKnown: bool
    var fetchCount: nat
    var generation: nat

    ghost function Contents(): Shared
      reads this
    {
      Shared(inFlight, lastAttempt, lastError, state, branch, headSha, remoteSha, rootKnown, fetchCount, generation)
    }

    constructor (cfg: Config)
      ensures this.cfg == cfg && Contents() == Initial(cfg)
      ensures inFlight == None && lastAttempt == None && lastError == None && state == Idle
      ensures branch == cfg.branch && headSha == None && remoteSha == None && !rootKnown && fetchCount == 0 && generation == 0
    {
      this.cfg := cfg;
      inFlight, lastAttempt, lastError, state := None, None, None, Idle;
      branch, headSha, remoteSha := cfg.branch, None, None;
      rootKnown, fetchCount, generation := false, 0, 0;
    }

    /** `_is_due` reads the clock only if there was an attempt before. */
    method IsDue(now: real) returns (due: bool)
      ensures due == Due(cfg, Contents(), now)
    {
      due := lastAttempt.None? || now - lastAttempt.value >= cfg.cooldown;
    }

    /** The locked part of `ensure_fresh`: join the sync in flight, start a due one, or neither. */
    method EnterLocked(now: real, stamp: real, token: nat) returns (event: Option<nat>, started: bool)
      modifies this`inFlight, this`lastAttempt
      ensures started == (old(inFlight).None? && Due(cfg, old(Contents()), now))
      ensures event == if started then Some(token) else old(inFlight)
      ensures Contents() == if started then Started(old(Contents()), token, stamp) else old(Contents())
    {
      event, started := inFlight, false;
      if event.None? {
        var due := IsDue(now);
        if due {
          event, started := Some(token), true;
          inFlight := event;
          lastAttempt := Some(stamp);
        }
      }
    }

    /** The thread with this number has used n replies, and the machine would go on from these fields exactly so. */
    ghost predicate OnTrack(ended: (Shared, Thread), t: Thread, replies: seq<Reply>, n: nat)
      reads this
    {
      ended == RunThread(cfg, Contents(), t, replies, n)
    }

    /** `resolve_git_repo_root`, skipped when the root is cached; any failure is an unexpected one. */
    method ResolveRoot(replies: seq<Reply>, ghost event: nat, ghost ended: (Shared, Thread))
      returns (found: bool, n: nat, ghost t: Thread)
      requires OnTrack(ended, NewThread(event, rootKnown), replies, 0)
      modifies this`rootKnown
      ensures OnTrack(ended, t, replies, n) && t.event == event
      ensures if found then t.pc == At(Branch) else AtResult(t, event, Failed(Unexpected(Root)))
      ensures found == rootKnown == (old(rootKnown) || Reading(replies, 0, ShowToplevel).Exit0?)
    {
      hide RunThread, Reading;
      t, n, found := NewThread(event, rootKnown), 0, true;
      if !rootKnown {
        var r := Reading(replies, n, ShowToplevel);
        RunOneCommand(cfg, Contents(), t, replies, n);
        t, n, found := Receive(cfg, Contents(), t, r).1, n + 1, r.Exit0?;
        if found {
          rootKnown := true;
        }
      }
    }

    /** The checked-out branch must be the configured one, if one is configured. */
    method CheckBranch(
        replies: seq<Reply>, ghost event: nat, n0: nat, ghost t0: Thread, ghost ended: (Shared, Thread))
      returns (failure: Option<Failure>, current: string, n: nat, ghost t: Thread)
      requires OnTrack(ended, t0, replies, n0) && t0.event == event && t0.pc == At(Branch)
      modifies this`branch
      ensures OnTrack(ended, t, replies, n)
      ensures failure.Some? ==> AtResult(t, event, Failed(failure.value))
      ensures failure.None? ==> t.event == event && t.pc == At(Upstream) && t.current == current
      ensures var r := Reading(replies, n0, SymbolicRef);
              && (failure.None? <==> r.Exit0? && (cfg.branch.None? || cfg.branch == Some(r.out.name)))
              && (failure == Some(Blocked(WrongBranch)) <==> r.Exit0? && cfg.branch.Some? && cfg.branch != Some(r.out.name))
              && branch == (if failure.None? then Some(r.out.name) else old(branch))
              && (failure.None? ==> current == r.out.name)
    {
      hide RunThread, Reading;
      var r := Reading(replies, n0, SymbolicRef);
      RunOneCommand(cfg, Contents(), t0, replies, n0);
      t, n, current := Receive(cfg, Contents(), t0, r).1, n0 + 1, "";
      if !r.Exit0? {
        return Some(Raised(Branch, r)), current, n, t;
      }
      current := r.out.name;
      if cfg.branch.Some? && current != cfg.branch.value {
        return Some(Blocked(WrongBranch)), current, n, t;
      }
      branch := Some(current);
      failure := None;
    }

    /** `_upstream_branch`, and the fetch counter that is raised before the fetch runs. */
    method UpstreamBranch(
        replies: seq<Reply>, ghost event: nat, current: string, n0: nat, ghost t0: Thread, ghost ended: (Shared, Thread))
      returns (failure: Option<Failure>, remoteBranch: string, n: nat, ghost t: Thread)
      requires OnTrack(ended, t0, replies, n0) && t0.event == event && t0.pc == At(Upstream) && t0.current == current
      modifies this`fetchCount
      ensures OnTrack(ended, t, replies, n)
      ensures failure.Some? ==> AtResult(t, event, Failed(failure.value))
      ensures failure.None? ==> t.event == event && t.pc == At(FetchRemote) && t.remoteBranch == remoteBranch
      ensures var r := Reading(replies, n0, UpstreamConfig(current));
              && (failure.None? <==> r.Exit0? || r.NonZero?)
              && fetchCount == old(fetchCount) + (if failure.None? then 1 else 0)
              && (failure.None? ==> remoteBranch == if r.Exit0? && r.out.Name? then r.out.name else current)
    {
      hide RunThread, Reading;
      var r := Reading(replies, n0, UpstreamConfig(current));
      RunOneCommand(cfg, Contents(), t0, replies, n0);
      t, n := Receive(cfg, Contents(), t0, r).1, n0 + 1;
      if r.TimedOut? || r.Broke? {
        return Some(Raised(Upstream, r)), current, n, t;
      }
      remoteBranch := if r.Exit0? && r.out.Name? then r.out.name else current;
      fetchCount := fetchCount + 1;
      failure := None;
    }

    /** Fetch, then read the fetched commit and HEAD; equal commits end the sync. */
    method FetchHeads(
        replies: seq<Reply>, ghost event: nat, remoteBranch: string, n0: nat, ghost t0: Thread, ghost ended: (Shared, Thread))
      returns (outcome: Option<Outcome>, head: Commit, target: Commit, n: nat, ghost t: Thread)
      requires OnTrack(ended, t0, replies, n0) && t0.event == event && t0.pc == At(FetchRemote) && t0.remoteBranch == remoteBranch
      modifies this`headSha, this`remoteSha
      ensures OnTrack(ended, t, replies, n)
      ensures outcome.Some? ==> AtResult(t, event, outcome.value)
      ensures outcome.None? ==> t.event == event && t.pc == At(CheckStatus) && t.headSha == head && t.remoteSha == target
      ensures var fetched, read, at := Reading(replies, n0, Fetch(remoteBranch)), Reading(replies, n0 + 1, RevParseTracking(remoteBranch)), Reading(replies, n0 + 2, RevParseHead);
              if fetched.Exit0? && read.Exit0? && at.Exit0? then
                && outcome == (if at == read then Some(Changed(false)) else None)
                && target == read.out.commit && head == at.out.commit && remoteSha == Some(target) && headSha == Some(head)
              else
                && remoteSha == old(remoteSha) && headSha == old(headSha)
                && outcome == Some(Failed(if !fetched.Exit0? then Raised(FetchRemote, fetched)
                                          else if !read.Exit0? then Raised(ReadRemote, read) else Raised(ReadHead, at)))
    {
      hide RunThread, Reading;
      t, n, head, target := t0, n0, 0, 0;
      var r := Reading(replies, n, Fetch(remoteBranch));
      RunOneCommand(cfg, Contents(), t, replies, n);
      t, n := Receive(cfg, Contents(), t, r).1, n + 1;
      if !r.Exit0? {
        return Some(Failed(Raised(FetchRemote, r))), head, target, n, t;
      }
      r := Reading(replies, n, RevParseTracking(remoteBranch));
      RunOneCommand(cfg, Contents(), t, replies, n);
      t, n := Receive(cfg, Contents(), t, r).1, n + 1;
      if !r.Exit0? {
        return Some(Failed(Raised(ReadRemote, r))), head, target, n, t;
      }
      target := r.out.commit;
      r := Reading(replies, n, RevParseHead);
      RunOneCommand(cfg, Contents(), t, replies, n);
      t, n := Receive(cfg, Contents(), t, r).1, n + 1;
      if !r.Exit0? {
        return Some(Failed(Raised(ReadHead, r))), head, target, n, t;
      }
      head := r.out.commit;
      remoteSha, headSha := Some(target), Some(head);
      outcome := if head == target then Some(Changed(false)) else None;
    }

    /** Refuse a dirty, ahead or diverged checkout, each exactly when git says so. */
    method CheckFastForward(
        replies: seq<Reply>, ghost event: nat, head: Commit, target: Commit, n0: nat, ghost t0: Thread, ghost ended: (Shared, Thread))
      returns (failure: Option<Failure>, n: nat, ghost t: Thread)
      requires OnTrack(ended, t0, replies, n0)
      requires t0.event == event && t0.pc == At(CheckStatus) && t0.headSha == head && t0.remoteSha == target
      ensures OnTrack(ended, t, replies, n)
      ensures failure.Some? ==> AtResult(t, event, Failed(failure.value))
      ensures failure.None? ==> t.event == event && t.pc == At(Merge) && t.remoteSha == target
      ensures var status := Reading(replies, n0, StatusTracked);
              var behind := Reading(replies, n0 + 1, IsAncestor(head, target));
              var ahead := Reading(replies, n0 + 2, IsAncestor(target, head));
              && (failure == Some(Blocked(LocalChanges)) <==> status == Exit0(Changes(true)))
              && (failure == None <==> status == Exit0(Changes(false)) && behind.Exit0?)
              && (failure == Some(Blocked(Ahead)) <==> status == Exit0(Changes(false)) && behind.NonZero? && ahead.Exit0?)
              && (failure == Some(Blocked(Diverged)) <==> status == Exit0(Changes(false)) && behind.NonZero? && ahead.NonZero?)
    {
      hide RunThread, Reading;
      t, n := t0, n0;
      var r := Reading(replies, n, StatusTracked);
      RunOneCommand(cfg, Contents(), t, replies, n);
      t, n := Receive(cfg, Contents(), t, r).1, n + 1;
      if !r.Exit0? {
        return Some(Raised(CheckStatus, r)), n, t;
      }
      if r.out.present {
        return Some(Blocked(LocalChanges)), n, t;
      }
      r := Reading(replies, n, IsAncestor(head, target));
      RunOneCommand(cfg, Contents(), t, replies, n);
      t, n := Receive(cfg, Contents(), t, r).1, n + 1;
      if r.TimedOut? || r.Broke? {
        return Some(Raised(CheckBehind, r)), n, t;
      }
      if !r.Exit0? {
        r := Reading(replies, n, IsAncestor(target, head));
        RunOneCommand(cfg, Contents(), t, replies, n);
        t, n := Receive(cfg, Contents(), t, r).1, n + 1;
        if r.TimedOut? || r.Broke? {
          return Some(Raised(CheckAhead, r)), n, t;
        }
        return Some(Blocked(if r.Exit0? then Ahead else Diverged)), n, t;
      }
      failure := None;
    }

    /** Fast-forward and read the new HEAD. */
    method FastForward(replies: seq<Reply>, ghost event: nat, target: Commit, n0: nat, ghost t0: Thread, ghost ended: (Shared, Thread))
      returns (outcome: Outcome, n: nat, ghost t: Thread)
      requires OnTrack(ended, t0, replies, n0) && t0.event == event && t0.pc == At(Merge) && t0.remoteSha == target
      modifies this`headSha, this`generation
      ensures OnTrack(ended, t, replies, n) && AtResult(t, event, outcome)
      ensures var merged, read := Reading(replies, n0, MergeFfOnly(target)), Reading(replies, n0 + 1, RevParseHead);
              if merged.Exit0? && read.Exit0? then
                outcome == Changed(true) && headSha == Some(read.out.commit) && generation == old(generation) + 1
              else
                && headSha == old(headSha) && generation == old(generation)
                && outcome == Failed(if merged.Exit0? then Raised(ReadNewHead, read) else Raised(Merge, merged))
    {
      hide RunThread, Reading;
      t, n := t0, n0;
      var r := Reading(replies, n, MergeFfOnly(target));
      RunOneCommand(cfg, Contents(), t, replies, n);
      t, n := Receive(cfg, Contents(), t, r).1, n + 1;
      if !r.Exit0? {
        return Failed(Raised(Merge, r)), n, t;
      }
      r := Reading(replies, n, RevParseHead);
      RunOneCommand(cfg, Contents(), t, replies, n);
      t, n := Receive(cfg, Contents(), t, r).1, n + 1;
      if !r.Exit0? {
        return Failed(Raised(ReadNewHead, r)), n, t;
      }
      headSha := Some(r.out.commit);
      generation := generation + 1;
      outcome := Changed(true);
    }

    /** `_sync_once`, fed with the replies of the git runner. */
    method SyncOnce(replies: seq<Reply>, ghost event: nat, ghost ended: (Shared, Thread))
      returns (outcome: Outcome, n: nat, ghost t: Thread)
      requires OnTrack(ended, NewThread(event, rootKnown), replies, 0)
      modifies this`branch, this`headSha, this`remoteSha, this`rootKnown, this`fetchCount, this`generation
      ensures OnTrack(ended, t, replies, n) && AtResult(t, event, outcome)
    {
      hide RunThread, Reading, Receive, OnTrack, AtResult;
      var found, current, remoteBranch, failure, early, head, target;
      found, n, t := ResolveRoot(replies, event, ended);
      if !found {
        return Failed(Unexpected(Root)), n, t;
      }
      failure, current, n, t := CheckBranch(replies, event, n, t, ended);
      if failure.Some? {
        return Failed(failure.value), n, t;
      }
      failure, remoteBranch, n, t := UpstreamBranch(replies, event, current, n, t, ended);
      if failure.Some? {
        return Failed(failure.value), n, t;
      }
      early, head, target, n, t := FetchHeads(replies, event, remoteBranch, n, t, ended);
      if early.Some? {
        return early.value, n, t;
      }
      failure, n, t := CheckFastForward(replies, event, head, target, n, t, ended);
      if failure.Some? {
        return Failed(failure.value), n, t;
      }
      outcome, n, t := FastForward(replies, event, target, n, t, ended);
    }

    /**
     `_run_sync`: however `_sync_once` ends, the result is written and the in-flight event is cleared,
     exactly as the step machine of a sync thread does with the same replies.
     */
    method RunSync(replies: seq<Reply>, event: nat)
      modifies this`branch, this`headSha, this`remoteSha, this`rootKnown, this`fetchCount, this`generation,
               this`lastError, this`state, this`inFlight
      ensures Contents() == RunThread(cfg, old(Contents()), NewThread(event, old(rootKnown)), replies, 0).0
      ensures RunThread(cfg, old(Contents()), NewThread(event, old(rootKnown)), replies, 0).1.pc == Finished
      ensures inFlight == None
      ensures lastError.None? <==> state == Synced || state == Updated
    {
      hide RunThread, Reading, Receive;
      ghost var ended := RunThread(cfg, Contents(), NewThread(event, rootKnown), replies, 0);
      var outcome, n, t := SyncOnce(replies, event, ended);
      RunResult(cfg, Contents(), t, replies, n, event, outcome);
      match outcome {
        case Changed(changed) =>
          lastError := None;
          state := if changed then Updated else Synced;
        case Failed(failure) =>
          lastError := Some(failure);
          state := StateOf(failure);
      }
      inFlight := None;
    }
  }

  ghost predicate AtResult(t: Thread, event: nat, outcome: Outcome) {
    && t.event == event && t.outcome == Some(outcome)
    && t.pc == (match outcome case Changed(c) => WriteNoError(c) case Failed(f) => WriteError(f))
  }

  /** The exception a command raises: GitSyncError, TimeoutExpired or anything else. */
  function Raised(stage: Stage, reply: Reply): Failure {
    if reply.TimedOut? then CommandTimedOut(stage)
    else if reply.NonZero? then CommandFailed(stage)
    else Unexpected(stage)
  }

  lemma RunOneCommand(cfg: Config, sh: Shared, t: Thread, replies: seq<Reply>, n: nat)
    requires t.pc.At?
    ensures var reply := Reading(replies, n, CommandOf(t));
            Fits(CommandOf(t), reply)
            && RunThread(cfg, sh, t, replies, n) ==
               RunThread(cfg, Receive(cfg, sh, t, reply).0, Receive(cfg, sh, t, reply).1, replies, n + 1)
  {
  }

  lemma RunOneWrite(cfg: Config, sh: Shared, t: Thread, replies: seq<Reply>, n: nat)
    requires !t.pc.At?
    ensures t.pc != Finished ==> RunThread(cfg, sh, t, replies, n) == RunThread(cfg, Proceed(sh, t).0, Proceed(sh, t).1, replies, n)
    ensures t.pc == Finished ==> RunThread(cfg, sh, t, replies, n) == (sh, t)
  {
  }

  /** From its result to its end a thread makes exactly the writes of `_run_sync`. */
  lemma RunResult(cfg: Config, sh: Shared, t: Thread, replies: seq<Reply>, n: nat, event: nat, outcome: Outcome)
    requires AtResult(t, event, outcome)
    ensures RunThread(cfg, sh, t, replies, n) ==
            (sh.(inFlight := None,
                 lastError := if outcome.Changed? then None else Some(outcome.failure),
                 state := if outcome.Changed? then (if outcome.changed then Updated else Synced) else StateOf(outcome.failure)),
             t.(pc := Finished))
  {
    hide RunThread;
    var a := Proceed(sh, t);
    var b := Proceed(a.0, a.1);
    var c := Proceed(b.0, b.1);
    RunOneWrite(cfg, sh, t, replies, n);
    RunOneWrite(cfg, a.0, a.1, replies, n);
    RunOneWrite(cfg, b.0, b.1, replies, n);
    RunOneWrite(cfg, c.0, c.1, replies, n);
    RunOneWrite(cfg, Proceed(c.0, c.1).0, Proceed(c.0, c.1).1, replies, n);
  }

  predicate Due(cfg: Config, sh: Shared, now: real) {
    sh.lastAttempt.None? || now - sh.lastAttempt.value >= cfg.cooldown
  }

  function Started(sh: Shared, event: nat, stamp: real): Shared {
    sh.(inFlight := Some(event), lastAttempt := Some(stamp))
  }
}
