/** One sync that nobody interferes with: how its result is decided by the repository alone. */
module GitSolo {
  import opened GitRepo
  import opened GitSyncer
  import opened GitProtocol
  import opened GitTheorems

  datatype End = End(sh: Shared, repo: Repo, t: Thread)

  /** How a command goes wrong: with a nonzero exit, or by a timeout or another exception before or after it took effect. */
  datatype Fault = ExitsNonZero | Expires(tookEffect: bool) | Raises(tookEffect: bool) {
    predicate TookEffect() { !ExitsNonZero? && tookEffect }

    function AsReply(): Reply {
      match this
      case ExitsNonZero => NonZero
      case Expires(_) => TimedOut
      case Raises(_) => Broke
    }
  }

  /** The commands of a sync that go wrong, if it gets to them. */
  type Faults = map<Stage, Fault>

  /** The reply of an undisturbed command, unless it goes wrong. */
  ghost function ReplyTo(repo: Repo, t: Thread, faults: Faults): (r: Reply)
    requires t.pc.At?
    ensures Fits(CommandOf(t), r)
  {
    AnswerIsPossible(repo, CommandOf(t));
    PossibleRepliesFit(repo, CommandOf(t), Answer(repo, CommandOf(t)), After(repo, CommandOf(t)));
    if t.pc.stage in faults then faults[t.pc.stage].AsReply() else Answer(repo, CommandOf(t))
  }

  ghost function RepoAfter(repo: Repo, t: Thread, faults: Faults): Repo
    requires t.pc.At?
  {
    if t.pc.stage in faults && !faults[t.pc.stage].TookEffect() then repo else After(repo, CommandOf(t))
  }

  /** A sync thread run to its end without interference. */
  ghost function Solo(cfg: Config, sh: Shared, repo: Repo, t: Thread, faults: Faults): End
    decreases Rank(t.pc)
  {
    match t.pc
    case Finished => End(sh, repo, t)
    case At(_) =>
      var reply := ReplyTo(repo, t, faults);
      ReceiveLowersRank(cfg, sh, t, reply);
      var next := Receive(cfg, sh, t, reply);
      Solo(cfg, next.0, RepoAfter(repo, t, faults), next.1, faults)
    case _ =>
      var next := Proceed(sh, t);
      Solo(cfg, next.0, repo, next.1, faults)
  }

  /** Each command of an undisturbed sync, with its reply, is a step the concurrent system can take. */
  lemma SoloCommandIsStep(cfg: Config, s: Sys, k: nat, faults: Faults)
    requires k < |s.threads| && s.threads[k].pc.At?
    ensures Enabled(cfg, s, Run(k, ReplyTo(s.repo, s.threads[k], faults), RepoAfter(s.repo, s.threads[k], faults)))
  {
    hide Answer, After, GitRuns, Fits;
    var cmd, reply := CommandOf(s.threads[k]), ReplyTo(s.repo, s.threads[k], faults);
    AnswerIsPossible(s.repo, cmd);
    if reply.TimedOut? || reply.Broke? {
      CutOffIsPossible(s.repo, cmd, reply);
    }
  }

  /** The record of moves plays no part in what a sync does. */
  lemma {:induction false} SoloIgnoresRecord(cfg: Config, sh: Shared, repo: Repo, t: Thread, moved: bool, faults: Faults)
    ensures var end := Solo(cfg, sh, repo, t, faults);
            Solo(cfg, sh, repo, t.(movedHead := moved), faults) == end.(t := end.t.(movedHead := moved))
    decreases Rank(t.pc)
  {
    hide Solo, ReplyTo, RepoAfter, Receive, Rank;
    var t' := t.(movedHead := moved);
    if t.pc.At? {
      var reply := ReplyTo(repo, t, faults);
      SameReply(cfg, sh, repo, t, moved, faults);
      SoloCommand(cfg, sh, repo, t, faults);
      SoloCommand(cfg, sh, repo, t', faults);
      ReceiveLowersRank(cfg, sh, t, reply);
      var next := Receive(cfg, sh, t, reply);
      SoloIgnoresRecord(cfg, next.0, RepoAfter(repo, t, faults), next.1, moved, faults);
    } else if t.pc != Finished {
      SoloWrite(cfg, sh, repo, t, faults);
      SoloWrite(cfg, sh, repo, t', faults);
      SoloIgnoresRecord(cfg, Proceed(sh, t).0, repo, Proceed(sh, t).1, moved, faults);
    } else {
      SoloWrite(cfg, sh, repo, t, faults);
      SoloWrite(cfg, sh, repo, t', faults);
    }
  }

  lemma SameReply(cfg: Config, sh: Shared, repo: Repo, t: Thread, moved: bool, faults: Faults)
    requires t.pc.At?
    ensures CommandOf(t.(movedHead := moved)) == CommandOf(t)
    ensures ReplyTo(repo, t.(movedHead := moved), faults) == ReplyTo(repo, t, faults)
    ensures RepoAfter(repo, t.(movedHead := moved), faults) == RepoAfter(repo, t, faults)
    ensures var next := Receive(cfg, sh, t, ReplyTo(repo, t, faults));
            Receive(cfg, sh, t.(movedHead := moved), ReplyTo(repo, t, faults)) == (next.0, next.1.(movedHead := moved))
  {
    hide Answer, After, Fits;
  }

  /**
   An undisturbed sync is a run: from every reachable state the concurrent system can go on so that thread k ends
   exactly as it does alone, with the same fields and the same repository.
   */
  lemma {:induction false} SoloIsRun(cfg: Config, s: Sys, k: nat, faults: Faults) returns (s': Sys)
    requires Reached(cfg, s) && k < |s.threads|
    ensures Reached(cfg, s') && k < |s'.threads|
    ensures var end := Solo(cfg, s.sh, s.repo, s.threads[k], faults);
            s'.sh == end.sh && s'.repo == end.repo && s'.threads[k] == end.t.(movedHead := s'.threads[k].movedHead)
    decreases Rank(s.threads[k].pc)
  {
    hide Solo, Reached, ReplyTo, RepoAfter, Receive, Fits, GitRuns, Rank;
    var t := s.threads[k];
    if t.pc.At? {
      var a := Run(k, ReplyTo(s.repo, t, faults), RepoAfter(s.repo, t, faults));
      SoloCommandIsStep(cfg, s, k, faults);
      var next := Apply(cfg, s, a);
      ReachedStep(cfg, s, a, next);
      SoloCommand(cfg, s.sh, s.repo, t, faults);
      ReceiveLowersRank(cfg, s.sh, t, a.reply);
      var received := Receive(cfg, s.sh, t, a.reply);
      SoloIgnoresRecord(cfg, received.0, a.repo', received.1, next.threads[k].movedHead, faults);
      s' := SoloIsRun(cfg, next, k, faults);
    } else if t.pc != Finished {
      var next := Apply(cfg, s, Write(k));
      ReachedStep(cfg, s, Write(k), next);
      SoloWrite(cfg, s.sh, s.repo, t, faults);
      s' := SoloIsRun(cfg, next, k, faults);
    } else {
      SoloWrite(cfg, s.sh, s.repo, t, faults);
      s' := s;
    }
  }

  lemma SoloCommand(cfg: Config, sh: Shared, repo: Repo, t: Thread, faults: Faults)
    requires t.pc.At?
    ensures var next := Receive(cfg, sh, t, ReplyTo(repo, t, faults));
            Solo(cfg, sh, repo, t, faults) == Solo(cfg, next.0, RepoAfter(repo, t, faults), next.1, faults)
  {
  }

  // ---------------------------------------------------------------- the verdict

  function RemoteBranchOf(repo: Repo, current: string): string {
    if current in repo.upstream then repo.upstream[current] else current
  }

  predicate OnBranch(cfg: Config, repo: Repo) {
    repo.headBranch.Some? && (cfg.branch.None? || cfg.branch.value == repo.headBranch.value)
  }

  /** The branch is checked out, is the configured one, and its upstream exists at the remote. */
  predicate Reachable(cfg: Config, repo: Repo) {
    && OnBranch(cfg, repo)
    && RemoteBranchOf(repo, repo.headBranch.value) in repo.remote
  }

  function Target(cfg: Config, repo: Repo): Commit
    requires Reachable(cfg, repo)
  {
    repo.remote[RemoteBranchOf(repo, repo.headBranch.value)]
  }

  /** How an undisturbed sync must end. */
  ghost function Verdict(cfg: Config, repo: Repo): Outcome {
    if repo.headBranch.None? then Failed(CommandFailed(Branch))
    else if cfg.branch.Some? && cfg.branch.value != repo.headBranch.value then Failed(Blocked(WrongBranch))
    else if !Reachable(cfg, repo) then Failed(CommandFailed(FetchRemote))
    else if repo.head == Target(cfg, repo) then Changed(false)
    else if repo.dirty then Failed(Blocked(LocalChanges))
    else if Ancestor(repo.dag, repo.head, Target(cfg, repo)) then Changed(true)
    else if Ancestor(repo.dag, Target(cfg, repo), repo.head) then Failed(Blocked(Ahead))
    else Failed(Blocked(Diverged))
  }

  function FetchedUpstream(cfg: Config, repo: Repo): Repo
    requires Reachable(cfg, repo)
  {
    Fetched(repo, RemoteBranchOf(repo, repo.headBranch.value))
  }

  /** The fields after a result has been written and the in-flight event cleared. */
  function Written(sh: Shared, outcome: Outcome): Shared {
    sh.(inFlight := None,
        lastError := if outcome.Changed? then None else Some(outcome.failure),
        state := if outcome.Changed? then (if outcome.changed then Updated else Synced) else StateOf(outcome.failure))
  }

  lemma SoloResult(cfg: Config, sh: Shared, repo: Repo, t: Thread, faults: Faults, event: nat, outcome: Outcome)
    requires AtResult(t, event, outcome)
    ensures Solo(cfg, sh, repo, t, faults) == End(Written(sh, outcome), repo, t.(pc := Finished))
  {
    hide ReplyTo, Receive, RepoAfter;
    var a := Proceed(sh, t);
    var b := Proceed(a.0, a.1);
    var c := Proceed(b.0, b.1);
    SoloWrite(cfg, sh, repo, t, faults);
    SoloWrite(cfg, a.0, repo, a.1, faults);
    SoloWrite(cfg, b.0, repo, b.1, faults);
    SoloWrite(cfg, c.0, repo, c.1, faults);
    assert Proceed(c.0, c.1).1.pc == Finished;
  }

  lemma SoloWrite(cfg: Config, sh: Shared, repo: Repo, t: Thread, faults: Faults)
    requires !t.pc.At?
    ensures t.pc != Finished ==>
              && Solo(cfg, sh, repo, t, faults) == Solo(cfg, Proceed(sh, t).0, repo, Proceed(sh, t).1, faults)
              && Rank(Proceed(sh, t).1.pc) < Rank(t.pc)
    ensures t.pc == Finished ==> Solo(cfg, sh, repo, t, faults) == End(sh, repo, t)
  {
  }

  /** Nothing goes wrong before the merge. */
  predicate Late(faults: Faults) {
    faults.Keys <= {Merge, ReadNewHead}
  }

  predicate MergeTakesEffect(faults: Faults) {
    Merge in faults ==> faults[Merge].TookEffect()
  }

  /** The result of a sync that gets to its merge. */
  function LateOutcome(faults: Faults): Outcome {
    if Merge in faults then Failed(Raised(Merge, faults[Merge].AsReply()))
    else if ReadNewHead in faults then Failed(Raised(ReadNewHead, faults[ReadNewHead].AsReply()))
    else Changed(true)
  }

  /** Once both commits are read, the verdict is carried out. */
  lemma SoloIntegrates(cfg: Config, sh: Shared, repo: Repo, t: Thread, faults: Faults)
    requires RepoOk(repo) && t.pc == At(CheckStatus) && t.headSha == repo.head && t.remoteSha != repo.head && t.remoteSha in repo.dag
    requires Late(faults)
    ensures var behind := !repo.dirty && Ancestor(repo.dag, repo.head, t.remoteSha);
            var outcome := if repo.dirty then Failed(Blocked(LocalChanges))
                           else if behind then LateOutcome(faults)
                           else if Ancestor(repo.dag, t.remoteSha, repo.head) then Failed(Blocked(Ahead))
                           else Failed(Blocked(Diverged));
            var end := Solo(cfg, sh, repo, t, faults);
            && end.t.outcome == Some(outcome) && end.t.pc == Finished
            && end.repo == (if behind && MergeTakesEffect(faults) then repo.(head := t.remoteSha) else repo)
            && end.sh == Written(if outcome == Changed(true) then sh.(headSha := Some(t.remoteSha), generation := sh.generation + 1) else sh, outcome)
  {
    hide Solo, RepoOk, Ancestor, ReplyTo, RepoAfter;
    SoloAsks(cfg, sh, repo, t, faults);
    if repo.dirty {
      SoloResult(cfg, sh, repo, Fail(t, Blocked(LocalChanges)), faults, t.event, Failed(Blocked(LocalChanges)));
    } else if Ancestor(repo.dag, repo.head, t.remoteSha) {
      SoloMerges(cfg, sh, repo, t.(pc := At(Merge)), faults);
    } else {
      var reason := if Ancestor(repo.dag, t.remoteSha, repo.head) then Ahead else Diverged;
      SoloResult(cfg, sh, repo, Fail(t.(pc := At(CheckAhead)), Blocked(reason)), faults, t.event, Failed(Blocked(reason)));
    }
  }

  /** The status and ancestor questions change nothing and lead to the merge or to a refusal. */
  lemma SoloAsks(cfg: Config, sh: Shared, repo: Repo, t: Thread, faults: Faults)
    requires t.pc == At(CheckStatus) && t.headSha == repo.head && Late(faults)
    ensures Solo(cfg, sh, repo, t, faults) == Solo(cfg, sh, repo,
              if repo.dirty then Fail(t, Blocked(LocalChanges))
              else if Ancestor(repo.dag, repo.head, t.remoteSha) then t.(pc := At(Merge))
              else Fail(t.(pc := At(CheckAhead)), Blocked(if Ancestor(repo.dag, t.remoteSha, repo.head) then Ahead else Diverged)),
              faults)
  {
    hide Solo, Ancestor;
    SoloCommand(cfg, sh, repo, t, faults);
    if !repo.dirty {
      SoloAsksAncestor(cfg, sh, repo, t.(pc := At(CheckBehind)), faults);
    }
  }

  lemma SoloAsksAncestor(cfg: Config, sh: Shared, repo: Repo, t: Thread, faults: Faults)
    requires t.pc == At(CheckBehind) && t.headSha == repo.head && Late(faults)
    ensures Solo(cfg, sh, repo, t, faults) == Solo(cfg, sh, repo,
              if Ancestor(repo.dag, repo.head, t.remoteSha) then t.(pc := At(Merge))
              else Fail(t.(pc := At(CheckAhead)), Blocked(if Ancestor(repo.dag, t.remoteSha, repo.head) then Ahead else Diverged)),
              faults)
  {
    hide Solo, Ancestor;
    SoloCommand(cfg, sh, repo, t, faults);
    if !Ancestor(repo.dag, repo.head, t.remoteSha) {
      SoloCommand(cfg, sh, repo, t.(pc := At(CheckAhead)), faults);
    }
  }

  lemma SoloMerges(cfg: Config, sh: Shared, repo: Repo, t: Thread, faults: Faults)
    requires t.pc == At(Merge) && t.remoteSha in repo.dag && Ancestor(repo.dag, repo.head, t.remoteSha)
    requires Late(faults)
    ensures var outcome := LateOutcome(faults);
            var end := Solo(cfg, sh, repo, t, faults);
            && end.t.outcome == Some(outcome) && end.t.pc == Finished
            && end.repo == (if MergeTakesEffect(faults) then repo.(head := t.remoteSha) else repo)
            && end.sh == Written(if outcome.Failed? then sh else sh.(headSha := Some(t.remoteSha), generation := sh.generation + 1), outcome)
  {
    hide Solo, Ancestor, RepoAfter, Receive, ReplyTo;
    var moved := if MergeTakesEffect(faults) then repo.(head := t.remoteSha) else repo;
    MergeReceived(cfg, sh, repo, t, faults);
    SoloCommand(cfg, sh, repo, t, faults);
    if Merge in faults {
      var failure := LateOutcome(faults).failure;
      SoloResult(cfg, sh, moved, Fail(t, failure), faults, t.event, Failed(failure));
    } else {
      var t1 := t.(pc := At(ReadNewHead));
      ReadReceived(cfg, sh, moved, t1, faults);
      SoloCommand(cfg, sh, moved, t1, faults);
      if ReadNewHead in faults {
        var failure := LateOutcome(faults).failure;
        SoloResult(cfg, sh, moved, Fail(t1, failure), faults, t.event, Failed(failure));
      } else {
        var counted := sh.(headSha := Some(t.remoteSha), generation := sh.generation + 1);
        SoloResult(cfg, counted, moved, Succeed(t1, true), faults, t.event, Changed(true));
      }
    }
  }

  lemma MergeReceived(cfg: Config, sh: Shared, repo: Repo, t: Thread, faults: Faults)
    requires t.pc == At(Merge) && t.remoteSha in repo.dag && Ancestor(repo.dag, repo.head, t.remoteSha)
    ensures Receive(cfg, sh, t, ReplyTo(repo, t, faults))
            == (sh, if Merge in faults then Fail(t, LateOutcome(faults).failure) else t.(pc := At(ReadNewHead)))
    ensures RepoAfter(repo, t, faults) == if MergeTakesEffect(faults) then repo.(head := t.remoteSha) else repo
  {
    hide Ancestor;
  }

  lemma ReadReceived(cfg: Config, sh: Shared, repo: Repo, t: Thread, faults: Faults)
    requires t.pc == At(ReadNewHead) && Merge !in faults
    ensures Receive(cfg, sh, t, ReplyTo(repo, t, faults))
            == if ReadNewHead in faults then (sh, Fail(t, LateOutcome(faults).failure))
               else (sh.(headSha := Some(repo.head), generation := sh.generation + 1), Succeed(t, true))
    ensures RepoAfter(repo, t, faults) == repo
  {
    hide Ancestor;
  }

  /** From the fetch to the comparison of the two commits. */
  lemma SoloFetches(cfg: Config, sh: Shared, repo: Repo, t: Thread, faults: Faults)
    requires t.pc == At(FetchRemote) && t.remoteBranch in repo.remote && Late(faults)
    ensures var target := repo.remote[t.remoteBranch];
            var sh' := sh.(remoteSha := Some(target), headSha := Some(repo.head));
            var t' := t.(remoteSha := target, headSha := repo.head);
            Solo(cfg, sh, repo, t, faults) ==
            Solo(cfg, sh', Fetched(repo, t.remoteBranch), if repo.head == target then Succeed(t', false) else t'.(pc := At(CheckStatus)), faults)
  {
    hide Solo, Ancestor;
    SoloCommand(cfg, sh, repo, t, faults);
    var fetched := Fetched(repo, t.remoteBranch);
    SoloCommand(cfg, sh, fetched, t.(pc := At(ReadRemote)), faults);
    SoloCommand(cfg, sh, fetched, t.(pc := At(ReadHead), remoteSha := repo.remote[t.remoteBranch]), faults);
  }

  /** From the start to the fetch, for a checkout whose upstream can be reached. */
  lemma SoloStarts(cfg: Config, sh: Shared, repo: Repo, event: nat, faults: Faults)
    requires Reachable(cfg, repo) && Late(faults)
    ensures var current := repo.headBranch.value;
            var t := NewThread(event, true).(pc := At(FetchRemote), current := current, remoteBranch := RemoteBranchOf(repo, current));
            Solo(cfg, sh, repo, NewThread(event, sh.rootKnown), faults) ==
            Solo(cfg, sh.(rootKnown := true, branch := Some(current), fetchCount := sh.fetchCount + 1), repo, t, faults)
  {
    hide Solo, Ancestor;
    if !sh.rootKnown {
      SoloCommand(cfg, sh, repo, NewThread(event, false), faults);
    }
    var sh1, t1 := sh.(rootKnown := true), NewThread(event, true);
    SoloCommand(cfg, sh1, repo, t1, faults);
    var current := repo.headBranch.value;
    SoloCommand(cfg, sh1.(branch := Some(current)), repo, t1.(pc := At(Upstream), current := current), faults);
  }

  /**
   The result of an undisturbed sync is the verdict: it fast-forwards exactly a clean checkout that is behind,
   calls it ahead or diverged exactly as the commit graph says, and changes nothing else.
   */
  lemma SoloFollowsVerdict(cfg: Config, sh: Shared, repo: Repo, event: nat)
    requires RepoOk(repo) && Reachable(cfg, repo)
    ensures var end := Solo(cfg, sh, repo, NewThread(event, sh.rootKnown), map[]);
            var outcome := Verdict(cfg, repo);
            && end.t.outcome == Some(outcome) && end.t.pc == Finished
            && end.repo == (if outcome == Changed(true) then FetchedUpstream(cfg, repo).(head := Target(cfg, repo)) else FetchedUpstream(cfg, repo))
            && end.sh.generation == sh.generation + (if outcome == Changed(true) then 1 else 0)
            && end.sh.fetchCount == sh.fetchCount + 1 && end.sh.rootKnown
            && end.sh.remoteSha == Some(Target(cfg, repo)) && end.sh.headSha == Some(end.repo.head)
            && (end.sh.lastError.None? <==> outcome.Changed?)
            && end.sh.state == (match outcome case Changed(c) => if c then Updated else Synced
                                case Failed(f) => if f.Blocked? then BlockedState else ErrorState)
  {
    hide Solo, Ancestor, RepoOk;
    SoloUpTo(cfg, sh, repo, event, map[]);
  }

  /** A detached HEAD, a branch other than the configured one, or a missing upstream ends the sync before the repository is changed; only the last counts a fetch. */
  lemma SoloStopsEarly(cfg: Config, sh: Shared, repo: Repo, event: nat, faults: Faults)
    requires !Reachable(cfg, repo) && Late(faults)
    ensures var end := Solo(cfg, sh, repo, NewThread(event, sh.rootKnown), faults);
            && end.t.outcome == Some(Verdict(cfg, repo)) && end.repo == repo
            && end.sh == Written(
                 if OnBranch(cfg, repo) then sh.(rootKnown := true, branch := repo.headBranch, fetchCount := sh.fetchCount + 1)
                 else sh.(rootKnown := true),
                 Verdict(cfg, repo))
  {
    hide Solo, Ancestor;
    if !sh.rootKnown {
      SoloCommand(cfg, sh, repo, NewThread(event, false), faults);
    }
    var sh1, t1 := sh.(rootKnown := true), NewThread(event, true);
    SoloCommand(cfg, sh1, repo, t1, faults);
    if repo.headBranch.None? {
      SoloResult(cfg, sh1, repo, Fail(t1, CommandFailed(Branch)), faults, event, Failed(CommandFailed(Branch)));
    } else if cfg.branch.Some? && cfg.branch.value != repo.headBranch.value {
      SoloResult(cfg, sh1, repo, Fail(t1, Blocked(WrongBranch)), faults, event, Failed(Blocked(WrongBranch)));
    } else {
      var current := repo.headBranch.value;
      SoloFindsNoUpstream(cfg, sh1.(branch := Some(current)), repo, t1.(pc := At(Upstream), current := current), faults);
    }
  }

  lemma SoloFindsNoUpstream(cfg: Config, sh: Shared, repo: Repo, t: Thread, faults: Faults)
    requires Late(faults)
    requires t.pc == At(Upstream) && RemoteBranchOf(repo, t.current) !in repo.remote
    ensures var end := Solo(cfg, sh, repo, t, faults);
            && end.repo == repo && end.t.outcome == Some(Failed(CommandFailed(FetchRemote)))
            && end.sh == Written(sh.(fetchCount := sh.fetchCount + 1), Failed(CommandFailed(FetchRemote)))
  {
    hide Solo, Ancestor;
    SoloCommand(cfg, sh, repo, t, faults);
    var sh', t' := sh.(fetchCount := sh.fetchCount + 1), t.(pc := At(FetchRemote), remoteBranch := RemoteBranchOf(repo, t.current));
    SoloCommand(cfg, sh', repo, t', faults);
    SoloResult(cfg, sh', repo, Fail(t', CommandFailed(FetchRemote)), faults, t.event, Failed(CommandFailed(FetchRemote)));
  }

  lemma SoloUpTo(cfg: Config, sh: Shared, repo: Repo, event: nat, faults: Faults)
    requires RepoOk(repo) && Reachable(cfg, repo) && Late(faults)
    ensures var end := Solo(cfg, sh, repo, NewThread(event, sh.rootKnown), faults);
            var target := Target(cfg, repo);
            var verdict := Verdict(cfg, repo);
            var outcome := if verdict == Changed(true) then LateOutcome(faults) else verdict;
            var read := sh.(rootKnown := true, branch := Some(repo.headBranch.value), fetchCount := sh.fetchCount + 1,
                            remoteSha := Some(target), headSha := Some(repo.head));
            && end.t.outcome == Some(outcome) && end.t.pc == Finished
            && end.repo == (if verdict == Changed(true) && MergeTakesEffect(faults) then FetchedUpstream(cfg, repo).(head := target)
                            else FetchedUpstream(cfg, repo))
            && end.sh == Written(if outcome == Changed(true) then read.(headSha := Some(target), generation := sh.generation + 1) else read, outcome)
  {
    hide Solo, Ancestor;
    var current := repo.headBranch.value;
    var target := Target(cfg, repo);
    var fetched := FetchedUpstream(cfg, repo);
    var sh1 := sh.(rootKnown := true, branch := Some(current), fetchCount := sh.fetchCount + 1);
    var t := NewThread(event, true).(pc := At(FetchRemote), current := current, remoteBranch := RemoteBranchOf(repo, current));
    SoloStarts(cfg, sh, repo, event, faults);
    SoloFetches(cfg, sh1, repo, t, faults);
    var sh2 := sh1.(remoteSha := Some(target), headSha := Some(repo.head));
    var t' := t.(remoteSha := target, headSha := repo.head);
    if repo.head == target {
      SoloResult(cfg, sh2, fetched, Succeed(t', false), faults, event, Changed(false));
    } else {
      SoloIntegrates(cfg, sh2, fetched, t'.(pc := At(CheckStatus)), faults);
    }
  }

  /** A clean checkout that is behind catches up, and a second sync answers False and changes nothing. */
  lemma SecondSyncChangesNothing(cfg: Config, sh: Shared, repo: Repo, event: nat)
    requires RepoOk(repo) && Reachable(cfg, repo) && Verdict(cfg, repo) == Changed(true)
    ensures var first := Solo(cfg, sh, repo, NewThread(event, sh.rootKnown), map[]);
            var second := Solo(cfg, first.sh, first.repo, NewThread(event + 1, first.sh.rootKnown), map[]);
            && first.repo.head == Target(cfg, repo) && first.t.outcome == Some(Changed(true))
            && second.t.outcome == Some(Changed(false))
            && second.repo == first.repo
            && second.sh == first.sh.(state := Synced, fetchCount := first.sh.fetchCount + 1)
  {
    hide Solo, Ancestor;
    SoloUpTo(cfg, sh, repo, event, map[]);
    var first := Solo(cfg, sh, repo, NewThread(event, sh.rootKnown), map[]);
    SoloUpTo(cfg, first.sh, first.repo, event + 1, map[]);
    assert Fetched(first.repo, RemoteBranchOf(repo, repo.headBranch.value)).tracking == first.repo.tracking;
  }

  // ---------------------------------------------------------------- failing with HEAD moved, exactly

  /**
   A sync can fail after it has moved HEAD, so a reported failure does not mean that the served files are unchanged:
   every clean checkout that is behind does so when the merge is cut off after it took effect, or the new HEAD cannot be read.
   */
  lemma FailureAfterMergeMovesHead(cfg: Config, sh: Shared, repo: Repo, event: nat, faults: Faults)
    requires RepoOk(repo) && Reachable(cfg, repo) && Verdict(cfg, repo) == Changed(true)
    requires Late(faults) && faults != map[] && MergeTakesEffect(faults)
    ensures var end := Solo(cfg, sh, repo, NewThread(event, sh.rootKnown), faults);
            && end.t.outcome == Some(LateOutcome(faults)) && LateOutcome(faults).Failed? && end.sh.state == ErrorState
            && end.repo.head == Target(cfg, repo) != repo.head
            && end.sh.generation == sh.generation
  {
    hide Solo, Ancestor;
    SoloUpTo(cfg, sh, repo, event, faults);
    assert exists stage :: stage in faults;
  }

  /** In particular when the merge has moved HEAD and is then killed by its timeout. */
  lemma KilledMergeMovesHead(cfg: Config, sh: Shared, repo: Repo, event: nat)
    requires RepoOk(repo) && Reachable(cfg, repo) && Verdict(cfg, repo) == Changed(true)
    ensures var end := Solo(cfg, sh, repo, NewThread(event, sh.rootKnown), map[Merge := Expires(true)]);
            && end.t.outcome == Some(Failed(CommandTimedOut(Merge))) && end.sh.state == ErrorState
            && end.repo.head == Target(cfg, repo) != repo.head
  {
    hide Solo, Ancestor, RepoOk, Verdict, Reachable;
    var faults: Faults := map[Merge := Expires(true)];
    assert Merge in faults;
    FailureAfterMergeMovesHead(cfg, sh, repo, event, faults);
  }

  /** The sync of this thread ends with a failure and with HEAD elsewhere. */
  ghost predicate FailsMoved(cfg: Config, sh: Shared, repo: Repo, t: Thread, faults: Faults) {
    var end := Solo(cfg, sh, repo, t, faults);
    end.t.outcome.Some? && end.t.outcome.value.Failed? && end.repo.head != repo.head
  }

  /** Once a result is there, the repository is left alone. */
  lemma {:induction false} SoloAfterResult(cfg: Config, sh: Shared, repo: Repo, t: Thread, faults: Faults)
    requires !t.pc.At?
    ensures Solo(cfg, sh, repo, t, faults).repo == repo && Solo(cfg, sh, repo, t, faults).t.outcome == t.outcome
    decreases Rank(t.pc)
  {
    hide Solo, Rank;
    SoloWrite(cfg, sh, repo, t, faults);
    if t.pc != Finished {
      SoloAfterResult(cfg, Proceed(sh, t).0, repo, Proceed(sh, t).1, faults);
    }
  }

  /** A command that leaves HEAD alone passes the question on to the rest of the sync. */
  lemma FailsMovedLater(cfg: Config, sh: Shared, repo: Repo, t: Thread, faults: Faults)
    requires t.pc.At? && RepoAfter(repo, t, faults).head == repo.head
    ensures var next := Receive(cfg, sh, t, ReplyTo(repo, t, faults));
            && FailsMoved(cfg, sh, repo, t, faults) == FailsMoved(cfg, next.0, RepoAfter(repo, t, faults), next.1, faults)
            && (!next.1.pc.At? ==> !FailsMoved(cfg, sh, repo, t, faults))
  {
    hide Solo, ReplyTo, RepoAfter, Receive;
    SoloCommand(cfg, sh, repo, t, faults);
    var next := Receive(cfg, sh, t, ReplyTo(repo, t, faults));
    if !next.1.pc.At? {
      SoloAfterResult(cfg, next.0, RepoAfter(repo, t, faults), next.1, faults);
    }
  }

  /** The merge moves HEAD, but the sync does not get to its end. */
  ghost predicate MovesAndFails(repo: Repo, target: Commit, faults: Faults) {
    && target != repo.head && target in repo.dag && Ancestor(repo.dag, repo.head, target)
    && MergeTakesEffect(faults) && LateOutcome(faults).Failed?
  }

  lemma FailsMovedFromMerge(cfg: Config, sh: Shared, repo: Repo, t: Thread, faults: Faults)
    requires t.pc == At(Merge)
    ensures FailsMoved(cfg, sh, repo, t, faults) <==> MovesAndFails(repo, t.remoteSha, faults)
  {
    hide Solo, Ancestor, ReplyTo, Receive;
    var after := RepoAfter(repo, t, faults);
    var next := Receive(cfg, sh, t, ReplyTo(repo, t, faults));
    if after.head == repo.head {
      FailsMovedLater(cfg, sh, repo, t, faults);
      MergeAnswered(cfg, sh, repo, t, faults);
      if next.1.pc.At? {
        FailsMovedLater(cfg, next.0, after, next.1, faults);
        ReadAnswered(cfg, next.0, after, next.1, faults);
      }
    } else {
      SoloCommand(cfg, sh, repo, t, faults);
      MergeReceived(cfg, sh, repo, t, faults);
      if next.1.pc.At? {
        ReadReceived(cfg, sh, after, next.1, faults);
        SoloCommand(cfg, sh, after, next.1, faults);
        var read := Receive(cfg, sh, next.1, ReplyTo(after, next.1, faults));
        SoloAfterResult(cfg, read.0, after, read.1, faults);
      } else {
        SoloAfterResult(cfg, next.0, after, next.1, faults);
      }
    }
  }

  lemma MergeAnswered(cfg: Config, sh: Shared, repo: Repo, t: Thread, faults: Faults)
    requires t.pc == At(Merge)
    ensures var next := Receive(cfg, sh, t, ReplyTo(repo, t, faults)).1; next.pc.At? ==> next.pc == At(ReadNewHead)
  {
    hide Ancestor;
  }

  lemma ReadAnswered(cfg: Config, sh: Shared, repo: Repo, t: Thread, faults: Faults)
    requires t.pc == At(ReadNewHead)
    ensures !Receive(cfg, sh, t, ReplyTo(repo, t, faults)).1.pc.At? && RepoAfter(repo, t, faults) == repo
  {
    hide Ancestor;
  }

  lemma FailsMovedFromAncestorCheck(cfg: Config, sh: Shared, repo: Repo, t: Thread, faults: Faults)
    requires t.pc == At(CheckBehind) && t.headSha == repo.head
    ensures FailsMoved(cfg, sh, repo, t, faults) <==> CheckBehind !in faults && MovesAndFails(repo, t.remoteSha, faults)
  {
    hide FailsMoved, Ancestor, LateOutcome, MergeTakesEffect;
    FailsMovedLater(cfg, sh, repo, t, faults);
    if CheckBehind !in faults && Ancestor(repo.dag, repo.head, t.remoteSha) {
      FailsMovedFromMerge(cfg, sh, repo, t.(pc := At(Merge)), faults);
    } else if CheckBehind !in faults || faults[CheckBehind].ExitsNonZero? {
      FailsMovedLater(cfg, sh, repo, t.(pc := At(CheckAhead)), faults);
    }
  }

  /** With HEAD read and the checks to come. */
  lemma FailsMovedFromChecks(cfg: Config, sh: Shared, repo: Repo, t: Thread, faults: Faults)
    requires t.pc == At(CheckStatus) && t.headSha == repo.head
    ensures FailsMoved(cfg, sh, repo, t, faults)
            <==> CheckStatus !in faults && !repo.dirty && CheckBehind !in faults && MovesAndFails(repo, t.remoteSha, faults)
  {
    hide FailsMoved, MovesAndFails, Ancestor;
    FailsMovedLater(cfg, sh, repo, t, faults);
    if CheckStatus !in faults && !repo.dirty {
      FailsMovedFromAncestorCheck(cfg, sh, repo, t.(pc := At(CheckBehind)), faults);
    }
  }

  lemma FailsMovedFromReads(cfg: Config, sh: Shared, repo: Repo, t: Thread, faults: Faults)
    requires t.pc == At(ReadRemote) && t.remoteBranch in repo.tracking
    ensures FailsMoved(cfg, sh, repo, t, faults)
            <==> && ReadRemote !in faults && ReadHead !in faults && CheckStatus !in faults && !repo.dirty
                 && CheckBehind !in faults && MovesAndFails(repo, repo.tracking[t.remoteBranch], faults)
  {
    hide FailsMoved, Ancestor, LateOutcome, MergeTakesEffect;
    FailsMovedLater(cfg, sh, repo, t, faults);
    if ReadRemote !in faults {
      var target := repo.tracking[t.remoteBranch];
      var t1 := t.(pc := At(ReadHead), remoteSha := target);
      FailsMovedLater(cfg, sh, repo, t1, faults);
      if ReadHead !in faults && repo.head != target {
        FailsMovedFromChecks(cfg, sh.(remoteSha := Some(target), headSha := Some(repo.head)), repo,
                             t1.(pc := At(CheckStatus), headSha := repo.head), faults);
      }
    }
  }

  lemma FailsMovedFromFetch(cfg: Config, sh: Shared, repo: Repo, t: Thread, faults: Faults)
    requires t.pc == At(FetchRemote)
    ensures FailsMoved(cfg, sh, repo, t, faults)
            <==> && t.remoteBranch in repo.remote && !repo.dirty
                 && FetchRemote !in faults && ReadRemote !in faults && ReadHead !in faults
                 && CheckStatus !in faults && CheckBehind !in faults
                 && MovesAndFails(repo, repo.remote[t.remoteBranch], faults)
  {
    hide FailsMoved, Ancestor, LateOutcome, MergeTakesEffect;
    FailsMovedLater(cfg, sh, repo, t, faults);
    if FetchRemote !in faults && t.remoteBranch in repo.remote {
      FailsMovedFromReads(cfg, sh, Fetched(repo, t.remoteBranch), t.(pc := At(ReadRemote)), faults);
    }
  }

  lemma FailsMovedFromUpstream(cfg: Config, sh: Shared, repo: Repo, t: Thread, faults: Faults)
    requires t.pc == At(Upstream)
    ensures FailsMoved(cfg, sh, repo, t, faults)
            <==> var branch := RemoteBranchOf(Asked(repo, faults), t.current);
                 && (Upstream in faults ==> faults[Upstream].ExitsNonZero?)
                 && branch in repo.remote && !repo.dirty
                 && FetchRemote !in faults && ReadRemote !in faults && ReadHead !in faults
                 && CheckStatus !in faults && CheckBehind !in faults
                 && MovesAndFails(repo, repo.remote[branch], faults)
  {
    hide FailsMoved, Ancestor, MovesAndFails;
    FailsMovedLater(cfg, sh, repo, t, faults);
    if Upstream !in faults || faults[Upstream].ExitsNonZero? {
      FailsMovedFromFetch(cfg, sh.(fetchCount := sh.fetchCount + 1), repo,
                          t.(pc := At(FetchRemote), remoteBranch := RemoteBranchOf(Asked(repo, faults), t.current)), faults);
    }
  }

  /** The repository as the sync learns of it: when the upstream cannot be read, it is taken for missing. */
  function Asked(repo: Repo, faults: Faults): Repo {
    if Upstream in faults then repo.(upstream := map[]) else repo
  }

  /** No fault keeps the sync from its merge: the only earlier one is an upstream that cannot be read. */
  predicate GetsToMerge(faults: Faults, rootKnown: bool) {
    forall stage :: stage in faults ==>
      || stage in {CheckAhead, Merge, ReadNewHead}
      || (stage == Root && rootKnown)
      || (stage == Upstream && faults[stage].ExitsNonZero?)
  }

  lemma FailsMovedFromStart(cfg: Config, sh: Shared, repo: Repo, event: nat, faults: Faults)
    ensures FailsMoved(cfg, sh, repo, NewThread(event, sh.rootKnown), faults)
            <==> && (Root in faults ==> sh.rootKnown) && Branch !in faults
                 && repo.headBranch.Some? && (cfg.branch.None? || cfg.branch.value == repo.headBranch.value)
                 && FailsMoved(cfg, sh.(rootKnown := true, branch := repo.headBranch), repo,
                               NewThread(event, true).(pc := At(Upstream), current := repo.headBranch.value), faults)
  {
    hide FailsMoved, Ancestor;
    if !sh.rootKnown {
      FailsMovedLater(cfg, sh, repo, NewThread(event, false), faults);
    }
    if Root in faults ==> sh.rootKnown {
      FailsMovedLater(cfg, sh.(rootKnown := true), repo, NewThread(event, true), faults);
    }
  }

  /**
   Whatever goes wrong, and in whichever commands: an undisturbed sync fails with HEAD moved exactly when nothing keeps
   it from its merge, the checkout is clean and behind, and either the merge is cut off after it took effect, or it
   succeeds and the read of the new HEAD goes wrong.
   */
  lemma FailedAndMoved(cfg: Config, sh: Shared, repo: Repo, event: nat, faults: Faults)
    requires RepoOk(repo)
    ensures var end := Solo(cfg, sh, repo, NewThread(event, sh.rootKnown), faults);
            end.t.outcome.Some? && end.t.outcome.value.Failed? && end.repo.head != repo.head
            <==> && GetsToMerge(faults, sh.rootKnown)
                 && Reachable(cfg, Asked(repo, faults)) && Verdict(cfg, Asked(repo, faults)) == Changed(true)
                 && (if Merge in faults then faults[Merge].TookEffect() else ReadNewHead in faults)
  {
    hide Solo, Ancestor, DagOk;
    FailsMovedFromStart(cfg, sh, repo, event, faults);
    if repo.headBranch.Some? {
      FailsMovedFromUpstream(cfg, sh.(rootKnown := true, branch := repo.headBranch), repo,
                             NewThread(event, true).(pc := At(Upstream), current := repo.headBranch.value), faults);
    }
  }

  /** When one command goes wrong, it is the merge, after it took effect, or the read of the new HEAD, in whichever way. */
  lemma OneFaultMovesHead(cfg: Config, sh: Shared, repo: Repo, event: nat, stage: Stage, fault: Fault)
    requires RepoOk(repo)
    ensures var end := Solo(cfg, sh, repo, NewThread(event, sh.rootKnown), map[stage := fault]);
            end.t.outcome.Some? && end.t.outcome.value.Failed? && end.repo.head != repo.head
            <==> && Reachable(cfg, repo) && Verdict(cfg, repo) == Changed(true)
                 && (stage == ReadNewHead || (stage == Merge && fault.TookEffect()))
  {
    hide Solo, Ancestor, RepoOk, Verdict, Reachable;
    FailedAndMoved(cfg, sh, repo, event, map[stage := fault]);
  }

  // ---------------------------------------------------------------- what is reported when a command goes wrong

  /**
   The report of a sync that would fast-forward if its command at this stage did not go wrong. The root counts as an
   unexpected failure however it goes wrong; a question about ancestors that exits nonzero is taken for a no.
   */
  function ReportOf(stage: Stage, fault: Fault): Failure {
    if stage == Root then Unexpected(Root)
    else match fault
      case ExitsNonZero => if stage == CheckBehind then Blocked(Diverged) else CommandFailed(stage)
      case Expires(_) => CommandTimedOut(stage)
      case Raises(_) => Unexpected(stage)
  }

  /** The sync gets to this stage, and does not take a nonzero exit for an answer that lets it go on. */
  predicate Noticed(stage: Stage, fault: Fault, rootKnown: bool) {
    && stage != CheckAhead && (stage == Root ==> !rootKnown) && (stage == Upstream ==> !fault.ExitsNonZero?)
  }

  /** What a thread knows on its way to a fast-forward. */
  ghost predicate OnItsWay(cfg: Config, repo: Repo, t: Thread) {
    t.pc.At? && t.pc.stage != CheckAhead && (t.pc.stage != ReadNewHead ==> Goes(cfg, repo, t))
  }

  ghost predicate Goes(cfg: Config, repo: Repo, t: Thread)
    requires t.pc.At?
  {
    && Reachable(cfg, repo) && !repo.dirty && repo.head != Target(cfg, repo) && Target(cfg, repo) in repo.dag
    && Ancestor(repo.dag, repo.head, Target(cfg, repo)) && !Ancestor(repo.dag, Target(cfg, repo), repo.head)
    && (t.pc.stage == Upstream ==> t.current == repo.headBranch.value)
    && (t.pc.stage in {FetchRemote, ReadRemote} ==> t.remoteBranch == RemoteBranchOf(repo, repo.headBranch.value))
    && (t.pc.stage == ReadRemote ==> t.remoteBranch in repo.tracking && repo.tracking[t.remoteBranch] == Target(cfg, repo))
    && (t.pc.stage in {ReadHead, CheckStatus, CheckBehind, Merge} ==> t.remoteSha == Target(cfg, repo))
    && (t.pc.stage in {CheckStatus, CheckBehind, Merge} ==> t.headSha == repo.head)
  }

  /** A command that does not go wrong leads to the next one. */
  lemma StaysOnItsWay(cfg: Config, sh: Shared, repo: Repo, t: Thread, faults: Faults)
    requires OnItsWay(cfg, repo, t) && t.pc.stage !in faults && t.pc.stage != ReadNewHead
    ensures var next := Receive(cfg, sh, t, ReplyTo(repo, t, faults));
            && OnItsWay(cfg, RepoAfter(repo, t, faults), next.1)
            && next.1.pc == At(NextStage(t.pc.stage)) && next.1.event == t.event
  {
    hide Ancestor, Solo;
  }

  function NextStage(stage: Stage): Stage {
    match stage
    case Root => Branch
    case Branch => Upstream
    case Upstream => FetchRemote
    case FetchRemote => ReadRemote
    case ReadRemote => ReadHead
    case ReadHead => CheckStatus
    case CheckStatus => CheckBehind
    case CheckBehind => Merge
    case _ => ReadNewHead
  }

  lemma CountsOnItsWay(cfg: Config, sh: Shared, t: Thread, reply: Reply)
    requires t.pc.At? && Fits(CommandOf(t), reply) && t.pc.stage != ReadNewHead
    requires Receive(cfg, sh, t, reply).1.pc.At?
    ensures var next := Receive(cfg, sh, t, reply);
            && next.0.generation == sh.generation
            && next.0.fetchCount == sh.fetchCount + (if t.pc.stage == Upstream then 1 else 0)
  {
    hide CommandOf, Fits;
  }

  lemma GoesWrong(cfg: Config, sh: Shared, repo: Repo, t: Thread, stage: Stage, fault: Fault)
    requires OnItsWay(cfg, repo, t) && t.pc.stage == stage && Noticed(stage, fault, false)
    ensures var end := Solo(cfg, sh, repo, t, map[stage := fault]);
            end.t.outcome == Some(Failed(ReportOf(stage, fault))) && end.sh == Written(sh, Failed(ReportOf(stage, fault)))
  {
    hide Ancestor, Solo, Written;
    var faults: Faults := map[stage := fault];
    SoloCommand(cfg, sh, repo, t, faults);
    var after := RepoAfter(repo, t, faults);
    if stage == CheckBehind && fault.ExitsNonZero? {
      var t1 := t.(pc := At(CheckAhead));
      SoloCommand(cfg, sh, repo, t1, faults);
      SoloResult(cfg, sh, repo, Fail(t1, Blocked(Diverged)), faults, t.event, Failed(Blocked(Diverged)));
    } else {
      SoloResult(cfg, sh, after, Fail(t, ReportOf(stage, fault)), faults, t.event, Failed(ReportOf(stage, fault)));
    }
  }

  lemma {:induction false} FaultOnTheWay(cfg: Config, sh: Shared, repo: Repo, t: Thread, stage: Stage, fault: Fault)
    requires OnItsWay(cfg, repo, t) && Rank(At(stage)) <= Rank(t.pc) && Noticed(stage, fault, false)
    ensures var end, report := Solo(cfg, sh, repo, t, map[stage := fault]), ReportOf(stage, fault);
            && end.t.outcome == Some(Failed(report)) && end.sh.lastError == Some(report) && end.sh.state == (if report.Blocked? then BlockedState else ErrorState)
            && end.sh.generation == sh.generation
            && end.sh.fetchCount == sh.fetchCount + (if Rank(At(stage)) < Rank(At(Upstream)) <= Rank(t.pc) then 1 else 0)
    decreases Rank(t.pc)
  {
    hide Solo, Receive, ReplyTo, RepoAfter, Goes, ReportOf;
    var faults: Faults := map[stage := fault];
    if t.pc.stage == stage {
      GoesWrong(cfg, sh, repo, t, stage, fault);
    } else {
      StaysOnItsWay(cfg, sh, repo, t, faults);
      CountsOnItsWay(cfg, sh, t, ReplyTo(repo, t, faults));
      SoloCommand(cfg, sh, repo, t, faults);
      var next := Receive(cfg, sh, t, ReplyTo(repo, t, faults));
      FaultOnTheWay(cfg, next.0, RepoAfter(repo, t, faults), next.1, stage, fault);
    }
  }

  /**
   Where a clean checkout that is behind would be fast-forwarded, one command that goes wrong is reported with its own
   stage and kind, and no generation is counted; a fetch is counted exactly when that command comes after the upstream
   was found.
   */
  lemma OneFaultReported(cfg: Config, sh: Shared, repo: Repo, event: nat, stage: Stage, fault: Fault)
    requires RepoOk(repo) && Reachable(cfg, repo) && Verdict(cfg, repo) == Changed(true) && Noticed(stage, fault, sh.rootKnown)
    ensures var end, report := Solo(cfg, sh, repo, NewThread(event, sh.rootKnown), map[stage := fault]), ReportOf(stage, fault);
            && end.t.outcome == Some(Failed(report)) && end.sh.lastError == Some(report) && end.sh.state == (if report.Blocked? then BlockedState else ErrorState)
            && end.sh.generation == sh.generation
            && end.sh.fetchCount == sh.fetchCount + (if stage in {Root, Branch, Upstream} then 0 else 1)
  {
    hide Solo, Ancestor, ReportOf;
    if Ancestor(repo.dag, Target(cfg, repo), repo.head) {
      AncestorNotLater(repo.dag, Target(cfg, repo), repo.head);
      AncestorNotLater(repo.dag, repo.head, Target(cfg, repo));
    }
    FaultOnTheWay(cfg, sh, repo, NewThread(event, sh.rootKnown), stage, fault);
  }
}
