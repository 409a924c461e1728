/** When the generation counter is right: merges that find nothing to do, and what has to happen for one to occur. */
module GitGeneration {
  import opened GitRepo
  import opened GitSyncer
  import opened GitProtocol
  import opened GitTheorems

  // ---------------------------------------------------------------- counting the steps of a run

  /** The step is a `merge --ff-only` that exits with code zero. */
  predicate MergeSucceeds(s: Sys, a: Action) {
    a.Run? && a.thread < |s.threads| && s.threads[a.thread].pc == At(Merge) && a.reply.Exit0?
  }

  /** HEAD already contains the commit the thread of this step wants to merge. */
  ghost predicate TargetInHead(s: Sys, a: Action) {
    a.Run? && a.thread < |s.threads| && Ancestor(s.repo.dag, s.threads[a.thread].remoteSha, s.repo.head)
  }

  /** The step reads HEAD after a merge, and fails. */
  predicate LosesRead(s: Sys, a: Action) {
    a.Run? && a.thread < |s.threads| && s.threads[a.thread].pc == At(ReadNewHead) && !a.reply.Exit0?
  }

  /** Successful merges that moved HEAD. */
  function MovingMerges(states: seq<Sys>, actions: seq<Action>, n: nat): nat
    requires n <= |actions| < |states|
  {
    if n == 0 then 0
    else
      MovingMerges(states, actions, n - 1)
      + One(MergeSucceeds(states[n - 1], actions[n - 1]) && states[n].repo.head != states[n - 1].repo.head)
  }

  /** Successful merges into a HEAD that already contained the target. */
  ghost function IdleMerges(states: seq<Sys>, actions: seq<Action>, n: nat): nat
    requires n <= |actions| < |states|
  {
    if n == 0 then 0
    else
      IdleMerges(states, actions, n - 1)
      + One(MergeSucceeds(states[n - 1], actions[n - 1]) && TargetInHead(states[n - 1], actions[n - 1]))
  }

  function LostReads(states: seq<Sys>, actions: seq<Action>, n: nat): nat
    requires n <= |actions| < |states|
  {
    if n == 0 then 0 else LostReads(states, actions, n - 1) + One(LosesRead(states[n - 1], actions[n - 1]))
  }

  /** A sync has merged and not read the new HEAD yet. */
  predicate ReadPending(s: Sys) {
    Flight(s) == At(ReadNewHead)
  }

  /** One step adds to the log what it is counted as here. */
  lemma StepIsLogged(cfg: Config, states: seq<Sys>, actions: seq<Action>, i: nat)
    requires IsRun(cfg, states, actions) && i < |actions|
    ensures var s, a, s' := states[i], actions[i], states[i + 1];
            && s'.log.mergesMoving == s.log.mergesMoving + One(MergeSucceeds(s, a) && s'.repo.head != s.repo.head)
            && s'.log.mergesUpToDate == s.log.mergesUpToDate + One(MergeSucceeds(s, a) && TargetInHead(s, a))
            && s'.log.readsLost == s.log.readsLost + One(LosesRead(s, a))
  {
    hide Init, Receive, GitRuns, Fits, Interferes, Ancestor;
    var s, a := states[i], actions[i];
    assert Steps(cfg, s, a, states[i + 1]);
    if MergeSucceeds(s, a) {
      MergeMovesHead(cfg, states, actions, i);
    }
  }

  lemma {:induction false} CountsAreLogged(cfg: Config, states: seq<Sys>, actions: seq<Action>, n: nat)
    requires IsRun(cfg, states, actions) && n <= |actions|
    ensures states[n].log.mergesMoving == MovingMerges(states, actions, n)
    ensures states[n].log.mergesUpToDate == IdleMerges(states, actions, n)
    ensures states[n].log.readsLost == LostReads(states, actions, n)
    decreases n
  {
    hide Steps, MergeSucceeds, TargetInHead, LosesRead;
    if n > 0 {
      CountsAreLogged(cfg, states, actions, n - 1);
      StepIsLogged(cfg, states, actions, n - 1);
    }
  }

  // ---------------------------------------------------------------- runs without idle merges

  /** No merge of the first n steps succeeds while HEAD already contains its target. */
  ghost predicate NoIdleMerge(states: seq<Sys>, actions: seq<Action>, n: nat)
    requires n <= |actions| < |states|
  {
    forall i :: 0 <= i < n && MergeSucceeds(states[i], actions[i]) ==> !TargetInHead(states[i], actions[i])
  }

  lemma {:induction false} IdleZero(states: seq<Sys>, actions: seq<Action>, n: nat)
    requires n <= |actions| < |states|
    ensures IdleMerges(states, actions, n) == 0 <==> NoIdleMerge(states, actions, n)
    decreases n
  {
    hide MergeSucceeds, TargetInHead;
    if n > 0 {
      IdleZero(states, actions, n - 1);
    }
  }

  // ---------------------------------------------------------------- what the generation counts

  /**
   In every state of every run: each successful merge has been counted, or its read was lost, or the read is pending.
   So the generation exceeds the merges that moved HEAD exactly when merges into a HEAD that already contained the
   target outnumber the lost and pending reads. Without such merges it never exceeds the moves, and equals them exactly
   when no read is lost or pending.
   */
  lemma GenerationCountsMerges(cfg: Config, states: seq<Sys>, actions: seq<Action>, n: nat)
    requires IsRun(cfg, states, actions) && n <= |actions|
    ensures states[n].sh.generation + LostReads(states, actions, n) + One(ReadPending(states[n]))
            == MovingMerges(states, actions, n) + IdleMerges(states, actions, n)
    ensures states[n].sh.generation > MovingMerges(states, actions, n)
            <==> IdleMerges(states, actions, n) > LostReads(states, actions, n) + One(ReadPending(states[n]))
    ensures NoIdleMerge(states, actions, n) ==>
              && states[n].sh.generation <= MovingMerges(states, actions, n)
              && (states[n].sh.generation == MovingMerges(states, actions, n)
                  <==> LostReads(states, actions, n) == 0 && !ReadPending(states[n]))
  {
    hide Init, Steps, Cooldown, Results, Heads, SingleFlight, MovingMerges, IdleMerges, LostReads, NoIdleMerge;
    RunInv(cfg, states, actions, n);
    CountsAreLogged(cfg, states, actions, n);
    IdleZero(states, actions, n);
  }

  // ---------------------------------------------------------------- what it takes for a merge to be idle

  predicate BeforeMerge(pc: Pc) {
    pc == At(CheckStatus) || pc == At(CheckBehind) || pc == At(Merge)
  }

  /** The outside world moves HEAD onto a commit that contains the target of a sync, after that sync has read HEAD. */
  ghost predicate Overtakes(s: Sys, a: Action) {
    && a.Outside? && a.world.head != s.repo.head
    && exists k :: 0 <= k < |s.threads| && BeforeMerge(s.threads[k].pc) && Ancestor(a.world.dag, s.threads[k].remoteSha, a.world.head)
  }

  /** A thread between its read of HEAD and its merge: HEAD is still what it read, or at least lacks the target. */
  ghost predicate NotOvertaken(repo: Repo, t: Thread) {
    BeforeMerge(t.pc) ==> !Ancestor(repo.dag, t.remoteSha, repo.head) || (t.pc != At(Merge) && repo.head == t.headSha)
  }

  ghost predicate NoneOvertaken(s: Sys) {
    forall k :: 0 <= k < |s.threads| ==> NotOvertaken(s.repo, s.threads[k])
  }

  /** A thread's own command leaves it not overtaken. */
  lemma CommandNotOvertaken(cfg: Config, sh: Shared, t: Thread, repo: Repo, reply: Reply, repo': Repo, moved: bool)
    requires RepoOk(repo) && ThreadOk(repo.dag, t) && NotOvertaken(repo, t) && t.pc.At?
    requires Fits(CommandOf(t), reply) && GitRuns(repo, CommandOf(t), reply, repo')
    ensures NotOvertaken(repo', Receive(cfg, sh, t, reply).1.(movedHead := moved))
  {
    hide Ancestor, RepoOk;
    CommandKeepsHead(repo, CommandOf(t), reply, repo');
    if t.pc == At(CheckBehind) && reply.Exit0? && repo.head == t.headSha && Ancestor(repo.dag, t.remoteSha, t.headSha) {
      AncestorNotLater(repo.dag, t.headSha, t.remoteSha);
      AncestorNotLater(repo.dag, t.remoteSha, t.headSha);
    }
  }

  lemma OutsideNotOvertaken(s: Sys, world: Repo, k: nat)
    requires RepoOk(s.repo) && k < |s.threads| && NotOvertaken(s.repo, s.threads[k])
    requires Interferes(s.repo, world) && !Overtakes(s, Outside(world))
    ensures NotOvertaken(world, s.threads[k])
  {
    hide Ancestor;
    if BeforeMerge(s.threads[k].pc) && world.head == s.repo.head {
      AncestorStable(s.repo.dag, world.dag, s.threads[k].remoteSha, s.repo.head);
    }
  }

  lemma StepNotOvertaken(cfg: Config, s: Sys, a: Action)
    requires Inv(cfg, s) && Enabled(cfg, s, a) && NoneOvertaken(s) && !Overtakes(s, a)
    ensures NoneOvertaken(Apply(cfg, s, a))
  {
    hide Ancestor, RepoOk, ThreadOk, Results, Cooldown, Counters, SingleFlight, Receive, GitRuns, Fits, Interferes, Overtakes, NotOvertaken;
    var s' := Apply(cfg, s, a);
    forall k | 0 <= k < |s'.threads| ensures NotOvertaken(s'.repo, s'.threads[k]) {
      if a.Run? {
        if k == a.thread {
          CommandNotOvertaken(cfg, s.sh, s.threads[k], s.repo, a.reply, a.repo', s'.threads[k].movedHead);
        } else {
          OthersAreAway(s, a.thread, k);
          AwayNotOvertaken(s'.repo, s.threads[k]);
        }
      } else if a.Write? && k == a.thread {
        AwayNotOvertaken(s'.repo, s'.threads[k]);
      } else if a.Outside? {
        OutsideNotOvertaken(s, a.world, k);
      } else if k >= |s.threads| {
        AwayNotOvertaken(s'.repo, s'.threads[k]);
      }
    }
  }

  lemma AwayNotOvertaken(repo: Repo, t: Thread)
    requires !BeforeMerge(t.pc)
    ensures NotOvertaken(repo, t)
  {
  }

  lemma OthersAreAway(s: Sys, j: nat, k: nat)
    requires SingleFlight(s) && j < |s.threads| && k < |s.threads| && j != k && s.threads[j].pc.At?
    ensures !BeforeMerge(s.threads[k].pc)
  {
    assert Active(s.threads[j].pc);
  }

  lemma {:induction false} RunNotOvertaken(cfg: Config, states: seq<Sys>, actions: seq<Action>, n: nat)
    requires IsRun(cfg, states, actions) && n <= |actions|
    requires forall i :: 0 <= i < n ==> !Overtakes(states[i], actions[i])
    ensures NoneOvertaken(states[n])
    decreases n
  {
    hide Inv, Enabled, Apply, Overtakes, NotOvertaken;
    if n > 0 {
      RunNotOvertaken(cfg, states, actions, n - 1);
      RunInv(cfg, states, actions, n - 1);
      assert Steps(cfg, states[n - 1], actions[n - 1], states[n]);
      StepNotOvertaken(cfg, states[n - 1], actions[n - 1]);
    }
  }

  /**
   If nobody moves HEAD onto a commit containing the target between a sync's read of HEAD and its merge, no merge is
   idle, and the generation counts the moves, up to reads that are lost or pending.
   */
  lemma GenerationWithoutOvertaking(cfg: Config, states: seq<Sys>, actions: seq<Action>, n: nat)
    requires IsRun(cfg, states, actions) && n <= |actions|
    requires forall i :: 0 <= i < n ==> !Overtakes(states[i], actions[i])
    ensures NoIdleMerge(states, actions, n)
    ensures states[n].sh.generation <= MovingMerges(states, actions, n)
    ensures states[n].sh.generation == MovingMerges(states, actions, n)
            <==> LostReads(states, actions, n) == 0 && !ReadPending(states[n])
  {
    hide Init, Steps, Overtakes, Ancestor, MovingMerges, IdleMerges, LostReads, ReadPending;
    forall i | 0 <= i < n && MergeSucceeds(states[i], actions[i]) ensures !TargetInHead(states[i], actions[i]) {
      RunNotOvertaken(cfg, states, actions, i);
    }
    GenerationCountsMerges(cfg, states, actions, n);
  }
}
