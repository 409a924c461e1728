/** What every run of the concurrent syncer guarantees. */
module GitTheorems {
  import opened Sequences
  import opened Quotients
  import opened GitRepo
  import opened GitSyncer
  import opened GitProtocol

  /** A run: any interleaving of callers, sync threads and the outside world. */
  ghost predicate IsRun(cfg: Config, states: seq<Sys>, actions: seq<Action>) {
    && |states| == |actions| + 1
    && Init(cfg, states[0])
    && forall i :: 0 <= i < |actions| ==> Steps(cfg, states[i], actions[i], states[i + 1])
  }

  ghost predicate Steps(cfg: Config, s: Sys, a: Action, s': Sys) {
    Enabled(cfg, s, a) && s' == Apply(cfg, s, a)
  }

  lemma {:induction false} RunInv(cfg: Config, states: seq<Sys>, actions: seq<Action>, i: nat)
    requires IsRun(cfg, states, actions) && i < |states|
    ensures Inv(cfg, states[i])
    decreases i
  {
    hide Inv, Init;
    if i == 0 {
      InitInv(cfg, states[0]);
    } else {
      RunInv(cfg, states, actions, i - 1);
      assert Steps(cfg, states[i - 1], actions[i - 1], states[i]);
      StepInv(cfg, states[i - 1], actions[i - 1]);
    }
  }

  /** Replies that git can give always make sense for their command, so no step is ruled out by the model. */
  lemma PossibleRepliesFit(repo: Repo, cmd: Command, reply: Reply, repo': Repo)
    requires GitRuns(repo, cmd, reply, repo')
    ensures Fits(cmd, reply)
  {
    hide Ancestor;
  }

  // ---------------------------------------------------------------- single flight, no lost wakeup

  /** At most one thread is inside the sync body, and it owns the in-flight event. */
  lemma AtMostOneSync(cfg: Config, states: seq<Sys>, actions: seq<Action>, i: nat, j: nat, k: nat)
    requires IsRun(cfg, states, actions) && i < |states|
    requires j < |states[i].threads| && Active(states[i].threads[j].pc)
    requires k < |states[i].threads| && Active(states[i].threads[k].pc)
    ensures j == k && states[i].sh.inFlight == Some(j)
  {
    hide IsRun, Results, Cooldown, Counters, Heads;
    RunInv(cfg, states, actions, i);
  }

  predicate ActsFor(a: Action, k: nat) {
    (a.Run? && a.thread == k) || (a.Write? && a.thread == k)
  }

  /** How many of the steps were taken by thread k. */
  function OwnSteps(actions: seq<Action>, k: nat): nat {
    if actions == [] then 0
    else OwnSteps(actions[..|actions| - 1], k) + One(ActsFor(actions[|actions| - 1], k))
  }

  lemma ThreadStays(cfg: Config, s: Sys, a: Action, k: nat)
    requires Enabled(cfg, s, a) && k < |s.threads|
    ensures var s' := Apply(cfg, s, a);
            && k < |s'.threads|
            && Rank(s'.threads[k].pc) + One(ActsFor(a, k)) <= Rank(s.threads[k].pc)
            && (s.threads[k].movedHead ==> s'.threads[k].movedHead)
            && (ActsFor(a, k) && s'.repo.head != s.repo.head ==> s'.threads[k].movedHead)
  {
    hide GitRuns, Interferes, Fits, Receive;
    if a.Run? {
      ReceiveLowersRank(cfg, s.sh, s.threads[a.thread], a.reply);
      ReceiveStaysActive(cfg, s.sh, s.threads[a.thread], a.reply);
    }
  }

  /** Every step of its own brings a thread nearer to setting its event, whatever happens in between. */
  lemma {:induction false} OwnStepsBounded(cfg: Config, states: seq<Sys>, actions: seq<Action>, i: nat, j: nat, k: nat)
    requires IsRun(cfg, states, actions) && i <= j < |states| && k < |states[i].threads|
    ensures k < |states[j].threads|
    ensures OwnSteps(actions[i..j], k) + Rank(states[j].threads[k].pc) <= Rank(states[i].threads[k].pc)
    decreases j
  {
    hide Init, Enabled, Apply, Rank, ActsFor;
    if i < j {
      OwnStepsBounded(cfg, states, actions, i, j - 1, k);
      assert Steps(cfg, states[j - 1], actions[j - 1], states[j]);
      ThreadStays(cfg, states[j - 1], actions[j - 1], k);
      assert actions[i..j][..j - 1 - i] == actions[i..j - 1];
    }
  }

  /** A thread that is not finished can always take a step: a command may fail, a write just happens. */
  lemma ThreadCanStep(cfg: Config, s: Sys, k: nat)
    requires k < |s.threads| && s.threads[k].pc != Finished
    ensures exists a :: ActsFor(a, k) && Enabled(cfg, s, a)
  {
    if s.threads[k].pc.At? {
      var a := Run(k, NonZero, s.repo);
      assert ActsFor(a, k) && Enabled(cfg, s, a);
    } else {
      var a := Write(k);
      assert ActsFor(a, k) && Enabled(cfg, s, a);
    }
  }

  /**
   No lost wakeup: a blocked caller waits on an event that is set, or whose thread can go on; and once that thread
   has taken 16 steps of its own, successful or not, the event is set.
   */
  lemma NoLostWakeup(cfg: Config, states: seq<Sys>, actions: seq<Action>, i: nat, j: nat, c: nat)
    requires IsRun(cfg, states, actions) && i <= j < |states|
    requires CallerOf(states[i], c).Waiting?
    ensures var e := CallerOf(states[i], c).event;
            && e < |states[i].threads| && e < |states[j].threads|
            && (states[j].threads[e].pc == Finished || exists a :: ActsFor(a, e) && Enabled(cfg, states[j], a))
            && (OwnSteps(actions[i..j], e) >= 16 ==> states[j].threads[e].pc == Finished)
  {
    hide IsRun, Results, Cooldown, Counters, Heads, Enabled;
    RunInv(cfg, states, actions, i);
    var e := CallerOf(states[i], c).event;
    OwnStepsBounded(cfg, states, actions, i, j, e);
    if states[j].threads[e].pc != Finished {
      ThreadCanStep(cfg, states[j], e);
    }
  }

  // ---------------------------------------------------------------- fast-forward safety

  /** Whatever the syncer does, HEAD only moves forward, and no commit reachable from HEAD is lost. */
  lemma SyncerNeverLosesCommits(cfg: Config, states: seq<Sys>, actions: seq<Action>, i: nat, c: Commit)
    requires IsRun(cfg, states, actions) && i < |actions| && !actions[i].Outside?
    ensures Ancestor(states[i + 1].repo.dag, states[i].repo.head, states[i + 1].repo.head)
    ensures Ancestor(states[i].repo.dag, c, states[i].repo.head) ==> Ancestor(states[i + 1].repo.dag, c, states[i + 1].repo.head)
  {
    hide Ancestor, Init, GitRuns, Results, Cooldown, Counters, SingleFlight, RepoOk, ThreadOk, Receive;
    RunInv(cfg, states, actions, i);
    var s, a := states[i], actions[i];
    assert Steps(cfg, s, a, states[i + 1]);
    AncestorReflexive(s.repo.dag, s.repo.head);
    if a.Run? {
      CommandKeepsHead(s.repo, CommandOf(s.threads[a.thread]), a.reply, a.repo');
    }
    if Ancestor(s.repo.dag, c, s.repo.head) {
      AncestorTransitive(s.repo.dag, c, s.repo.head, states[i + 1].repo.head);
    }
  }

  lemma AncestorReflexive(dag: Dag, c: Commit)
    ensures Ancestor(dag, c, c)
  {
  }

  /** A step of thread k that moves HEAD stays on record. */
  lemma {:induction false} MovesAreRecorded(cfg: Config, states: seq<Sys>, actions: seq<Action>, i: nat, j: nat, k: nat)
    requires IsRun(cfg, states, actions) && i < j < |states|
    requires k < |states[i].threads| && ActsFor(actions[i], k) && states[i + 1].repo.head != states[i].repo.head
    ensures k < |states[j].threads| && states[j].threads[k].movedHead
    decreases j
  {
    hide Init, Enabled, Apply, Rank, ActsFor;
    assert Steps(cfg, states[j - 1], actions[j - 1], states[j]);
    if i + 1 < j {
      MovesAreRecorded(cfg, states, actions, i, j - 1, k);
    }
    ThreadStays(cfg, states[j - 1], actions[j - 1], k);
  }

  /**
   A sync that ends blocked has not moved HEAD, nor has a failing one, unless it failed reading HEAD after the merge
   or its merge was cut off by a timeout or another exception.
   */
  lemma FailedSyncsLeaveHead(cfg: Config, states: seq<Sys>, actions: seq<Action>, i: nat, j: nat, k: nat)
    requires IsRun(cfg, states, actions) && i < j < |states|
    requires k < |states[i].threads| && k < |states[j].threads| && ActsFor(actions[i], k)
    requires states[j].threads[k].outcome.Some? && !MayHaveMoved(states[j].threads[k].outcome.value)
    ensures states[i + 1].repo.head == states[i].repo.head
  {
    hide IsRun, Results, Cooldown, Counters, SingleFlight, RepoOk;
    if states[i + 1].repo.head != states[i].repo.head {
      MovesAreRecorded(cfg, states, actions, i, j, k);
      RunInv(cfg, states, actions, j);
    }
  }

  // ---------------------------------------------------------------- error and state

  /** With no sync in flight, an error is stored exactly when the state is not idle, synced or updated. */
  lemma IdleStateAgrees(cfg: Config, states: seq<Sys>, actions: seq<Action>, i: nat)
    requires IsRun(cfg, states, actions) && i < |states| && states[i].sh.inFlight == None
    ensures states[i].sh.lastError == None <==> states[i].sh.state in {Idle, Synced, Updated}
    ensures states[i].sh.lastError == None <==> states[i].log.recorded == [] || states[i].log.recorded[|states[i].log.recorded| - 1]
    ensures |states[i].log.recorded| == |states[i].log.attempts|
  {
    hide IsRun, Cooldown, Counters, Heads;
    RunInv(cfg, states, actions, i);
  }

  // ---------------------------------------------------------------- counters

  /** generation <= fetch_count <= attempts started. */
  lemma CountersOrdered(cfg: Config, states: seq<Sys>, actions: seq<Action>, i: nat)
    requires IsRun(cfg, states, actions) && i < |states|
    ensures states[i].sh.generation <= states[i].sh.fetchCount <= |states[i].log.attempts|
  {
    hide IsRun, Cooldown, Results, Heads;
    RunInv(cfg, states, actions, i);
  }

  /**
   A successful merge moves HEAD exactly when HEAD does not contain the fetched commit yet; in particular it does
   when HEAD is still the commit the sync has read.
   */
  lemma MergeMovesHead(cfg: Config, states: seq<Sys>, actions: seq<Action>, i: nat)
    requires IsRun(cfg, states, actions) && i < |actions| && actions[i].Run? && actions[i].reply.Exit0?
    requires actions[i].thread < |states[i].threads| && states[i].threads[actions[i].thread].pc == At(Merge)
    ensures var t := states[i].threads[actions[i].thread];
            && (states[i + 1].repo.head != states[i].repo.head <==> !Ancestor(states[i].repo.dag, t.remoteSha, states[i].repo.head))
            && (states[i].repo.head == t.headSha ==> states[i + 1].repo.head == t.remoteSha != states[i].repo.head)
  {
    hide Init, Results, Cooldown, Counters, SingleFlight, RepoOk, Receive, Ancestor;
    RunInv(cfg, states, actions, i);
    assert Steps(cfg, states[i], actions[i], states[i + 1]);
    var t, repo := states[i].threads[actions[i].thread], states[i].repo;
    assert ThreadOk(repo.dag, t);
    AncestorReflexive(repo.dag, repo.head);
    if Ancestor(repo.dag, t.remoteSha, repo.head) {
      AncestorNotLater(repo.dag, t.remoteSha, repo.head);
      if Ancestor(repo.dag, repo.head, t.remoteSha) {
        AncestorNotLater(repo.dag, repo.head, t.remoteSha);
      }
      if Ancestor(repo.dag, t.headSha, t.remoteSha) {
        AncestorNotLater(repo.dag, t.headSha, t.remoteSha);
      }
    }
  }

  // ---------------------------------------------------------------- a generation without a move

  ghost predicate Reached(cfg: Config, s: Sys) {
    exists states, actions :: IsRun(cfg, states, actions) && states[|actions|] == s
  }

  lemma ReachedStep(cfg: Config, s: Sys, a: Action, s': Sys)
    requires Reached(cfg, s) && Steps(cfg, s, a, s')
    ensures Reached(cfg, s')
  {
    hide Init, Steps;
    var states, actions :| IsRun(cfg, states, actions) && states[|actions|] == s;
    var longer, more := states + [s'], actions + [a];
    forall i | 0 <= i < |more| ensures Steps(cfg, longer[i], more[i], longer[i + 1]) {
      if i < |actions| {
        assert Steps(cfg, states[i], actions[i], states[i + 1]);
      }
    }
    assert IsRun(cfg, longer, more) && longer[|more|] == s';
  }

  /** One commit behind; the user pulls between the ancestor check and the merge. */
  function Behind(tracked: bool, head: Commit): Repo {
    Repo(map[0 := {}, 1 := {0}], Some("main"), head, false, if tracked then map["main" := 1] else map[], map["main" := 1], map[])
  }

  function Scene(sh: Shared, repo: Repo, t: Thread, upToDate: nat): Sys {
    Sys(sh, repo, [t], map[0 := Waiting(0)], 0.0, Log([0.0], [], 0, upToDate, 0, 0))
  }

  lemma SceneRuns(cfg: Config, sh: Shared, repo: Repo, t: Thread, upToDate: nat, reply: Reply, repo': Repo, sh': Shared, t': Thread)
    requires Reached(cfg, Scene(sh, repo, t, upToDate)) && t.pc.At? && !t.movedHead && repo'.head == repo.head
    requires GitRuns(repo, CommandOf(t), reply, repo') && Fits(CommandOf(t), reply)
    requires t.pc == At(ReadNewHead) ==> reply.Exit0?
    requires Receive(cfg, sh, t, reply) == (sh', t')
    ensures Reached(cfg, Scene(sh', repo', t', upToDate + One(t.pc == At(Merge) && reply.Exit0?)))
  {
    hide Reached, GitRuns, Receive, Fits, CommandOf;
    ReceiveStaysActive(cfg, sh, t, reply);
    var s, a := Scene(sh, repo, t, upToDate), Run(0, reply, repo');
    ReachedStep(cfg, s, a, Apply(cfg, s, a));
    assert Apply(cfg, s, a) == Scene(sh', repo', t', upToDate + One(t.pc == At(Merge) && reply.Exit0?));
  }

  lemma ReachedAtStart(cfg: Config, s: Sys)
    requires Init(cfg, s)
    ensures Reached(cfg, s)
  {
    var none: seq<Action> := [];
    assert IsRun(cfg, [s], none);
  }

  /** The counter example up to the fetch. */
  lemma PullRaceStarts(cfg: Config, sh: Shared, t: Thread)
    requires cfg == Config(0.0, None)
    requires sh == Initial(cfg).(inFlight := Some(0), lastAttempt := Some(0.0), rootKnown := true, branch := Some("main"), fetchCount := 1)
    requires t == NewThread(0, true).(pc := At(FetchRemote), current := "main", remoteBranch := "main")
    ensures Reached(cfg, Scene(sh, Behind(false, 0), t, 0))
  {
    hide Reached, Ancestor;
    var repo := Behind(false, 0);
    var sh1 := Initial(cfg).(inFlight := Some(0), lastAttempt := Some(0.0));
    var sh2 := sh1.(rootKnown := true);
    var sh3 := sh2.(branch := Some("main"));
    var start := Sys(Initial(cfg), repo, [], map[], 0.0, Log([], [], 0, 0, 0, 0));
    ReachedAtStart(cfg, start);
    ReachedStep(cfg, start, Enter(0, 0.0, 0.0), Scene(sh1, repo, NewThread(0, false), 0));
    hide Scene;
    SceneRuns(cfg, sh1, repo, NewThread(0, false), 0, Exit0(Nothing), repo, sh2, NewThread(0, true));
    SceneRuns(cfg, sh2, repo, NewThread(0, true), 0, Exit0(Name("main")), repo, sh3, t.(pc := At(Upstream), remoteBranch := ""));
    SceneRuns(cfg, sh3, repo, t.(pc := At(Upstream), remoteBranch := ""), 0, NonZero, repo, sh, t);
  }

  /** From the fetch to the ancestor check. */
  lemma PullRaceChecks(cfg: Config, sh: Shared, t: Thread, sh': Shared, t': Thread)
    requires t.event == 0 && t.pc == At(FetchRemote) && t.remoteBranch == "main" && !t.movedHead
    requires Reached(cfg, Scene(sh, Behind(false, 0), t, 0))
    requires sh' == sh.(remoteSha := Some(1), headSha := Some(0))
    requires t' == t.(pc := At(CheckBehind), remoteSha := 1, headSha := 0)
    ensures Reached(cfg, Scene(sh', Behind(true, 0), t', 0))
  {
    hide Reached, Ancestor, Scene;
    var repo := Behind(true, 0);
    var t2 := t.(pc := At(ReadHead), remoteSha := 1);
    SceneRuns(cfg, sh, Behind(false, 0), t, 0, Exit0(Nothing), repo, sh, t.(pc := At(ReadRemote)));
    SceneRuns(cfg, sh, repo, t.(pc := At(ReadRemote)), 0, Exit0(Sha(1)), repo, sh, t2);
    SceneRuns(cfg, sh, repo, t2, 0, Exit0(Sha(0)), repo, sh', t'.(pc := At(CheckStatus)));
    SceneRuns(cfg, sh', repo, t'.(pc := At(CheckStatus)), 0, Exit0(Changes(false)), repo, sh', t');
  }

  /** The user pulls after the ancestor check. */
  lemma PullRaceMerges(cfg: Config, sh: Shared, t: Thread, sh': Shared, t': Thread)
    requires t.event == 0 && t.pc == At(CheckBehind) && t.remoteSha == 1 && t.headSha == 0 && !t.movedHead
    requires Reached(cfg, Scene(sh, Behind(true, 0), t, 0))
    requires sh' == sh.(headSha := Some(1), generation := sh.generation + 1)
    requires t' == Succeed(t, true)
    ensures Reached(cfg, Scene(sh', Behind(true, 1), t', 1))
  {
    hide Reached, Ancestor, Scene, Steps, Interferes;
    SmallGraph();
    SceneRuns(cfg, sh, Behind(true, 0), t, 0, Exit0(Nothing), Behind(true, 0), sh, t.(pc := At(Merge)));
    var t1, t2 := t.(pc := At(Merge)), t.(pc := At(ReadNewHead));
    UserPulls(cfg, sh, t1);
    ReachedStep(cfg, Scene(sh, Behind(true, 0), t1, 0), Outside(Behind(true, 1)), Scene(sh, Behind(true, 1), t1, 0));
    SceneRuns(cfg, sh, Behind(true, 1), t1, 0, Exit0(Nothing), Behind(true, 1), sh, t2);
    SceneRuns(cfg, sh, Behind(true, 1), t2, 1, Exit0(Sha(1)), Behind(true, 1), sh', t');
  }

  lemma UserPulls(cfg: Config, sh: Shared, t: Thread)
    ensures Steps(cfg, Scene(sh, Behind(true, 0), t, 0), Outside(Behind(true, 1)), Scene(sh, Behind(true, 1), t, 0))
  {
  }

  lemma SmallGraph()
    ensures var dag := Behind(true, 0).dag; Ancestor(dag, 0, 1) && Ancestor(dag, 1, 1)
    ensures Behind(true, 1).dag == Behind(true, 0).dag
  {
    var dag := Behind(true, 0).dag;
    assert Ancestor(dag, 0, 0) && 0 in dag[1];
  }

  /**
   The generation can exceed the number of merges that moved HEAD: after the ancestor check the user pulls, the
   merge finds nothing to do and succeeds, and the sync still counts an update.
   */
  lemma GenerationWithoutMove()
    ensures exists cfg, s :: Reached(cfg, s) && s.sh.generation == 1 && s.log.mergesMoving == 0
  {
    hide Reached;
    var cfg := Config(0.0, None);
    var sh := Initial(cfg).(inFlight := Some(0), lastAttempt := Some(0.0), rootKnown := true, branch := Some("main"), fetchCount := 1);
    var t := NewThread(0, true).(pc := At(FetchRemote), current := "main", remoteBranch := "main");
    var sh1, t1 := sh.(remoteSha := Some(1), headSha := Some(0)), t.(pc := At(CheckBehind), remoteSha := 1, headSha := 0);
    PullRaceStarts(cfg, sh, t);
    PullRaceChecks(cfg, sh, t, sh1, t1);
    PullRaceMerges(cfg, sh1, t1, sh1.(headSha := Some(1), generation := 1), Succeed(t1, true));
  }

  // ---------------------------------------------------------------- cooldown

  lemma {:induction false} SpacedApart(attempts: seq<real>, cooldown: real, i: nat, j: nat)
    requires Spaced(attempts, cooldown) && cooldown >= 0.0 && i <= j < |attempts|
    ensures attempts[j] - attempts[i] >= (j - i) as real * cooldown && attempts[i] <= attempts[j]
    decreases j
  {
    if i < j {
      SpacedApart(attempts, cooldown, i, j - 1);
      assert attempts[j - 1 + 1] - attempts[j - 1] >= cooldown;
      assert (j - i) as real == (j - 1 - i) as real + 1.0;
    }
  }

  /**
   A caller that enters starts a sync exactly when no thread is inside the sync body and no sync was started less than
   a cooldown ago; and a caller that does not start one is not told anything but the fate of a sync in flight or the
   last recorded result.
   */
  lemma StartsExactlyWhenDue(cfg: Config, states: seq<Sys>, actions: seq<Action>, i: nat)
    requires IsRun(cfg, states, actions) && i < |actions| && actions[i].Enter?
    ensures var s, s', a := states[i], states[i + 1], actions[i];
            var starts := |s'.log.attempts| > |s.log.attempts|;
            var busy := exists k :: 0 <= k < |s.threads| && Active(s.threads[k].pc);
            && (starts <==> !busy && forall j :: 0 <= j < |s.log.attempts| ==> a.now - s.log.attempts[j] >= cfg.cooldown)
            && (starts ==> s'.log.attempts == s.log.attempts + [a.stamp] && CallerOf(s', a.caller) == Waiting(|s.threads|))
            && (!starts && busy ==> exists k :: 0 <= k < |s.threads| && Active(s.threads[k].pc) && CallerOf(s', a.caller) == Waiting(k))
            && (!starts && !busy ==> CallerOf(s', a.caller) == Checking && s.log.recorded != [])
  {
    hide Init, Counters, Heads;
    RunInv(cfg, states, actions, i);
    var s, a := states[i], actions[i];
    assert Steps(cfg, s, a, states[i + 1]);
    if s.sh.inFlight.Some? {
      assert Active(s.threads[s.sh.inFlight.value].pc);
    }
    var n := |s.log.attempts|;
    forall j | 0 <= j < n ensures s.log.attempts[j] <= s.log.attempts[n - 1] {
      SpacedApart(s.log.attempts, cfg.cooldown, j, n - 1);
    }
  }

  /** Consecutive attempts are a cooldown apart, although the clock is read twice per start. */
  lemma AttemptsSpaced(cfg: Config, states: seq<Sys>, actions: seq<Action>, i: nat, a: nat, b: nat)
    requires IsRun(cfg, states, actions) && i < |states| && a < b < |states[i].log.attempts|
    ensures states[i].log.attempts[b] - states[i].log.attempts[a] >= (b - a) as real * cfg.cooldown
  {
    hide IsRun, Results, Counters, Heads, SingleFlight;
    RunInv(cfg, states, actions, i);
    SpacedApart(states[i].log.attempts, cfg.cooldown, a, b);
  }

  /** In any window of the given width at most floor(width / cooldown) + 1 syncs start. */
  lemma AttemptsInWindow(cfg: Config, states: seq<Sys>, actions: seq<Action>, i: nat, from: real, width: real)
    requires IsRun(cfg, states, actions) && i < |states| && cfg.cooldown > 0.0 && width >= 0.0
    ensures |set k: nat | k < |states[i].log.attempts| && from <= states[i].log.attempts[k] <= from + width|
            <= (width / cfg.cooldown).Floor + 1
  {
    hide IsRun, Results, Counters, Heads, SingleFlight;
    RunInv(cfg, states, actions, i);
    WindowCount(states[i].log.attempts, cfg.cooldown, from, width);
  }

  lemma SpreadInWindow(attempts: seq<real>, cooldown: real, lo: nat, hi: nat, width: real)
    requires Spaced(attempts, cooldown) && cooldown > 0.0 && lo <= hi < |attempts|
    requires attempts[hi] - attempts[lo] <= width
    ensures (hi - lo) as real * cooldown <= width
  {
    hide Spaced;
    SpacedApart(attempts, cooldown, lo, hi);
  }

  lemma WindowCount(attempts: seq<real>, cooldown: real, from: real, width: real)
    requires Spaced(attempts, cooldown) && cooldown > 0.0 && width >= 0.0
    ensures |set k: nat | k < |attempts| && from <= attempts[k] <= from + width| <= (width / cooldown).Floor + 1
  {
    var inside := set k: nat | k < |attempts| && from <= attempts[k] <= from + width;
    if inside != {} {
      var lo, hi := Ends(inside);
      assert lo in inside && hi in inside;
      assert from <= attempts[lo] && attempts[hi] <= from + width;
      SpreadInWindow(attempts, cooldown, lo, hi, width);
      QuotientBound(width, (hi - lo) as real, cooldown);
      IntervalSize(inside, lo, hi);
    } else {
      QuotientBound(width, 0.0, cooldown);
    }
  }

  lemma {:induction false} Ends(s: set<nat>) returns (lo: nat, hi: nat)
    requires s != {}
    ensures lo in s && hi in s && forall k :: k in s ==> lo <= k <= hi
    decreases |s|
  {
    var x :| x in s;
    lo, hi := x, x;
    if s != {x} {
      var l, h := Ends(s - {x});
      lo, hi := if l < x then l else x, if h > x then h else x;
      assert forall k :: k in s ==> k == x || k in s - {x};
    }
  }

  lemma {:induction false} IntervalSize(s: set<nat>, lo: nat, hi: nat)
    requires lo <= hi && forall k :: k in s ==> lo <= k <= hi
    ensures |s| <= hi - lo + 1
    decreases hi - lo
  {
    if lo == hi {
      assert s <= {lo};
      SubsetSize(s, {lo});
    } else {
      IntervalSize(s - {hi}, lo, hi - 1);
    }
  }
}
