/** Which merge moved HEAD, and on which branch. */
module GitMoves {
  import opened GitRepo
  import opened GitSyncer
  import opened GitProtocol
  import opened GitTheorems
  import opened GitGeneration

  // ---------------------------------------------------------------- a sync that got past its merge

  /** The thread is about to read the new HEAD, failed to read it, or reported an update. */
  predicate PastMerge(t: Thread) {
    || t.pc == At(ReadNewHead)
    || (t.outcome.Some? && match t.outcome.value
                           case Changed(changed) => changed
                           case Failed(f) => !f.Blocked? && f.stage == ReadNewHead)
  }

  predicate MergesFor(s: Sys, a: Action, k: nat) {
    MergeSucceeds(s, a) && a.thread == k
  }

  /** Some step of thread k before the n-th moved HEAD. */
  ghost predicate MovedBy(states: seq<Sys>, actions: seq<Action>, k: nat, n: nat)
    requires n <= |actions| < |states|
  {
    exists i :: 0 <= i < n && k < |states[i].threads| && ActsFor(actions[i], k) && states[i + 1].repo.head != states[i].repo.head
  }

  lemma PastMergeCommand(cfg: Config, sh: Shared, t: Thread, repo: Repo, reply: Reply, repo': Repo)
    requires RepoOk(repo) && ThreadOk(repo.dag, t) && t.pc.At? && Fits(CommandOf(t), reply)
    requires GitRuns(repo, CommandOf(t), reply, repo') && PastMerge(Receive(cfg, sh, t, reply).1)
    ensures if t.pc == At(Merge) && reply.Exit0? then !t.movedHead else PastMerge(t) && repo'.head == repo.head
  {
    hide Ancestor, RepoOk, Fits, GitRuns;
    CommandKeepsHead(repo, CommandOf(t), reply, repo');
  }

  lemma PastMergeStep(cfg: Config, s: Sys, a: Action, k: nat)
    requires Inv(cfg, s) && Enabled(cfg, s, a)
    requires k < |Apply(cfg, s, a).threads| && PastMerge(Apply(cfg, s, a).threads[k])
    ensures var s' := Apply(cfg, s, a);
            && k < |s.threads|
            && if MergesFor(s, a, k) then s'.threads[k].movedHead <==> s'.repo.head != s.repo.head
               else PastMerge(s.threads[k]) && s'.threads[k].movedHead == s.threads[k].movedHead
  {
    hide RepoOk, ThreadOk, Results, Cooldown, Counters, SingleFlight, Interferes, Fits, GitRuns, Receive;
    if a.Run? && a.thread == k {
      PastMergeCommand(cfg, s.sh, s.threads[k], s.repo, a.reply, a.repo');
    }
  }

  /** A thread past its merge has merged, and its record tells whether that moved HEAD. */
  lemma {:induction false} MergeBefore(cfg: Config, states: seq<Sys>, actions: seq<Action>, n: nat, k: nat)
    requires IsRun(cfg, states, actions) && n <= |actions| && k < |states[n].threads| && PastMerge(states[n].threads[k])
    ensures exists i :: 0 <= i < n && MergesFor(states[i], actions[i], k)
                        && (states[n].threads[k].movedHead <==> states[i + 1].repo.head != states[i].repo.head)
    decreases n
  {
    hide Inv, Enabled, Apply, PastMerge, MergesFor;
    if n > 0 {
      var m := n - 1;
      RunInv(cfg, states, actions, m);
      assert Steps(cfg, states[m], actions[m], states[m + 1]);
      PastMergeStep(cfg, states[m], actions[m], k);
      if !MergesFor(states[m], actions[m], k) {
        MergeBefore(cfg, states, actions, m, k);
      }
    }
  }

  /**
   In every run: a thread that reports an update, or that fails at the read of the new HEAD, has merged; and it has
   moved HEAD exactly when HEAD did not contain its target yet at that merge.
   */
  lemma MovedExactlyWhenLacking(cfg: Config, states: seq<Sys>, actions: seq<Action>, n: nat, k: nat)
    requires IsRun(cfg, states, actions) && n <= |actions| && k < |states[n].threads| && PastMerge(states[n].threads[k])
    ensures exists i :: 0 <= i < n && MergesFor(states[i], actions[i], k)
                        && (MovedBy(states, actions, k, n) <==> !TargetInHead(states[i], actions[i]))
  {
    hide Inv, Steps, Init, PastMerge, Ancestor;
    MergeBefore(cfg, states, actions, n, k);
    var i :| 0 <= i < n && MergesFor(states[i], actions[i], k)
             && (states[n].threads[k].movedHead <==> states[i + 1].repo.head != states[i].repo.head);
    MergeMovesHead(cfg, states, actions, i);
    if j :| 0 <= j < n && k < |states[j].threads| && ActsFor(actions[j], k) && states[j + 1].repo.head != states[j].repo.head {
      MovesAreRecorded(cfg, states, actions, j, n, k);
    }
  }

  // ---------------------------------------------------------------- the branch that is merged

  /** Thread k learns that branch b is checked out, and goes on. */
  predicate Checks(cfg: Config, s: Sys, a: Action, k: nat, b: string) {
    && a.Run? && a.thread == k && k < |s.threads| && s.threads[k].pc == At(Branch) && a.reply == Exit0(Name(b))
    && s.repo.headBranch == Some(b) && (cfg.branch.Some? ==> cfg.branch.value == b)
  }

  /** The outside world checks out another branch, or detaches HEAD. */
  predicate Switches(s: Sys, a: Action) {
    a.Outside? && a.world.headBranch != s.repo.headBranch
  }

  predicate SwitchedBetween(states: seq<Sys>, actions: seq<Action>, i: nat, n: nat)
    requires n <= |actions| <= |states|
  {
    exists m :: i < m < n && Switches(states[m], actions[m])
  }

  predicate KnowsBranch(t: Thread) {
    t.pc.At? && t.pc.stage != Root && t.pc.stage != Branch
  }

  lemma KnowsBranchCommand(cfg: Config, sh: Shared, t: Thread, repo: Repo, reply: Reply, repo': Repo)
    requires t.pc.At? && Fits(CommandOf(t), reply) && GitRuns(repo, CommandOf(t), reply, repo')
    requires KnowsBranch(Receive(cfg, sh, t, reply).1)
    ensures var b := Receive(cfg, sh, t, reply).1.current;
            if t.pc == At(Branch) then
              reply == Exit0(Name(b)) && repo.headBranch == Some(b) && (cfg.branch.Some? ==> cfg.branch.value == b)
            else KnowsBranch(t) && t.current == b
  {
    hide Ancestor;
  }

  lemma KnowsBranchStep(cfg: Config, s: Sys, a: Action, k: nat)
    requires Enabled(cfg, s, a) && k < |Apply(cfg, s, a).threads| && KnowsBranch(Apply(cfg, s, a).threads[k])
    ensures var t := Apply(cfg, s, a).threads[k];
            && k < |s.threads|
            && (Checks(cfg, s, a, k, t.current) || (KnowsBranch(s.threads[k]) && s.threads[k].current == t.current))
  {
    hide Interferes, Receive, Fits, GitRuns;
    if a.Run? && a.thread == k {
      KnowsBranchCommand(cfg, s.sh, s.threads[k], s.repo, a.reply, a.repo');
    }
  }

  lemma BranchStep(cfg: Config, s: Sys, a: Action)
    requires Enabled(cfg, s, a) && !Switches(s, a)
    ensures Apply(cfg, s, a).repo.headBranch == s.repo.headBranch
  {
    hide Interferes, Receive, Fits, Ancestor;
  }

  /** A thread past its branch check has checked the branch it remembers, which is still checked out unless it was switched. */
  lemma {:induction false} CheckedBefore(cfg: Config, states: seq<Sys>, actions: seq<Action>, n: nat, k: nat)
    requires IsRun(cfg, states, actions) && n <= |actions| && k < |states[n].threads| && KnowsBranch(states[n].threads[k])
    ensures var b := states[n].threads[k].current;
            exists i :: 0 <= i < n && Checks(cfg, states[i], actions[i], k, b)
                        && (states[n].repo.headBranch == Some(b) || SwitchedBetween(states, actions, i, n))
    decreases n
  {
    hide Enabled, Apply, KnowsBranch, Switches;
    if n > 0 {
      var m, b := n - 1, states[n].threads[k].current;
      assert Steps(cfg, states[m], actions[m], states[m + 1]);
      KnowsBranchStep(cfg, states[m], actions[m], k);
      if !Switches(states[m], actions[m]) {
        BranchStep(cfg, states[m], actions[m]);
      }
      if Checks(cfg, states[m], actions[m], k, b) {
        RunsDoNotSwitch(states[m], actions[m]);
      } else {
        CheckedBefore(cfg, states, actions, m, k);
      }
    }
  }

  lemma RunsDoNotSwitch(s: Sys, a: Action)
    requires a.Run?
    ensures !Switches(s, a)
  {
  }

  /**
   A merge acts on the branch the thread has checked, which is the configured one if there is one, unless somebody
   outside has checked out another branch since that check.
   */
  lemma MergeOnCheckedBranch(cfg: Config, states: seq<Sys>, actions: seq<Action>, n: nat, k: nat)
    requires IsRun(cfg, states, actions) && n < |actions| && ActsFor(actions[n], k)
    requires k < |states[n].threads| && states[n].threads[k].pc == At(Merge)
    ensures states[n + 1].repo.headBranch == states[n].repo.headBranch
    ensures exists i, b :: 0 <= i < n && Checks(cfg, states[i], actions[i], k, b)
                           && (states[n].repo.headBranch == Some(b) || SwitchedBetween(states, actions, i, n))
  {
    hide Enabled, Apply, Checks, SwitchedBetween;
    CheckedBefore(cfg, states, actions, n, k);
    assert Steps(cfg, states[n], actions[n], states[n + 1]);
    BranchStep(cfg, states[n], actions[n]);
  }

  /** Such a switch is possible up to the merge, and then the other branch is fast-forwarded. */
  lemma SwitchedBranchIsMerged(cfg: Config, s: Sys, k: nat, b: string) returns (s': Sys)
    requires Reached(cfg, s) && k < |s.threads| && s.threads[k].pc == At(Merge) && s.repo.head == s.threads[k].headSha
    ensures Reached(cfg, s') && s'.repo == s.repo.(headBranch := Some(b), head := s.threads[k].remoteSha)
    ensures s'.repo.head != s.repo.head
    ensures |s'.threads| == |s.threads| && s'.threads[k] == s.threads[k].(pc := At(ReadNewHead), movedHead := true)
  {
    hide Reached, Ancestor, Results, Cooldown, Counters, SingleFlight;
    ReachedInv(cfg, s);
    var t, world := s.threads[k], s.repo.(headBranch := Some(b));
    assert ThreadOk(s.repo.dag, t);
    var switched := Apply(cfg, s, Outside(world));
    ReachedStep(cfg, s, Outside(world), switched);
    var a := Run(k, Exit0(Nothing), world.(head := t.remoteSha));
    s' := Apply(cfg, switched, a);
    ReachedStep(cfg, switched, a, s');
  }

  lemma ReachedInv(cfg: Config, s: Sys)
    requires Reached(cfg, s)
    ensures Inv(cfg, s)
  {
    hide Inv;
    var states, actions :| IsRun(cfg, states, actions) && states[|actions|] == s;
    RunInv(cfg, states, actions, |actions|);
  }
}
