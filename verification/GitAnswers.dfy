/** What `ensure_fresh` answers: the fate of the latest sync that has recorded a result, or that the wait was given up. */
module GitAnswers {
  import opened GitRepo
  import opened GitSyncer
  import opened GitProtocol
  import opened GitTheorems

  // ---------------------------------------------------------------- recorded results are outcomes

  /** Only the thread started last can be inside the sync body. */
  ghost predicate LastIsActive(s: Sys) {
    forall k :: 0 <= k < |s.threads| && Active(s.threads[k].pc) ==> k == |s.threads| - 1
  }

  predicate AboutToRecord(t: Thread) {
    && (t.pc.WriteNoError? ==> t.outcome == Some(Changed(t.pc.changed)))
    && (t.pc.WriteError? ==> t.outcome == Some(Failed(t.pc.failure)))
  }

  /** The n-th recorded result is how the n-th sync ended. */
  ghost predicate IsRecorded(s: Sys, n: nat) {
    n < |s.threads| && n < |s.log.recorded| && s.threads[n].outcome.Some? && (s.log.recorded[n] <==> s.threads[n].outcome.value.Changed?)
  }

  ghost predicate RecordsOk(s: Sys) {
    && LastIsActive(s)
    && (forall k :: 0 <= k < |s.threads| ==> AboutToRecord(s.threads[k]))
    && (forall n: nat :: n < |s.log.recorded| ==> IsRecorded(s, n))
  }

  lemma RecordsAfterCommand(cfg: Config, s: Sys, k: nat, reply: Reply, repo': Repo)
    requires Inv(cfg, s) && RecordsOk(s) && k < |s.threads| && s.threads[k].pc.At? && Fits(CommandOf(s.threads[k]), reply)
    ensures RecordsOk(Ran(cfg, s, k, reply, repo'))
  {
    hide Cooldown, Counters, Heads, Fits, CommandOf, Receive;
    var s' := Ran(cfg, s, k, reply, repo');
    ReceiveStaysActive(cfg, s.sh, s.threads[k], reply);
    ReceivedOutcome(cfg, s.sh, s.threads[k], reply);
    UnrecordedIsLast(cfg, s, k);
    forall n: nat | n < |s'.log.recorded| ensures IsRecorded(s', n) {
      assert IsRecorded(s, n);
    }
  }

  lemma ReceivedOutcome(cfg: Config, sh: Shared, t: Thread, reply: Reply)
    requires t.pc.At? && Fits(CommandOf(t), reply)
    ensures AboutToRecord(Receive(cfg, sh, t, reply).1)
  {
    hide CommandOf, Fits;
  }

  /** A sync that has not recorded its result is the last one, and all others have recorded theirs. */
  lemma UnrecordedIsLast(cfg: Config, s: Sys, k: nat)
    requires Inv(cfg, s) && RecordsOk(s) && k < |s.threads|
    ensures Unrecorded(s.threads[k].pc) <==> k == |s.log.recorded|
    ensures |s.log.recorded| <= |s.threads|
  {
    hide Cooldown, Counters, Heads;
    if s.sh.inFlight.Some? {
      assert Active(s.threads[s.sh.inFlight.value].pc);
    }
  }

  lemma RecordsAfterWrite(cfg: Config, s: Sys, k: nat)
    requires Inv(cfg, s) && RecordsOk(s) && k < |s.threads| && !s.threads[k].pc.At? && s.threads[k].pc != Finished
    ensures RecordsOk(Wrote(s, k))
  {
    hide Cooldown, Counters, Heads, Results, SingleFlight;
    var s' := Wrote(s, k);
    UnrecordedIsLast(cfg, s, k);
    forall n: nat | n < |s'.log.recorded| ensures IsRecorded(s', n) {
      assert n < |s.log.recorded| ==> IsRecorded(s, n);
    }
  }

  lemma RecordsAfterEnter(cfg: Config, s: Sys, c: nat, now: real, stamp: real)
    requires Inv(cfg, s) && RecordsOk(s)
    ensures RecordsOk(Entered(cfg, s, c, now, stamp))
  {
    hide Cooldown, Counters, Heads, Results, Due;
    var s' := Entered(cfg, s, c, now, stamp);
    forall n: nat | n < |s'.log.recorded| ensures IsRecorded(s', n) {
      assert IsRecorded(s, n);
    }
  }

  lemma RecordsKept(cfg: Config, s: Sys, a: Action)
    requires Inv(cfg, s) && RecordsOk(s) && Enabled(cfg, s, a)
    ensures RecordsOk(Apply(cfg, s, a))
  {
    hide Inv, Interferes, GitRuns, Fits;
    match a {
      case Enter(c, now, stamp) => RecordsAfterEnter(cfg, s, c, now, stamp);
      case Run(k, reply, repo') => RecordsAfterCommand(cfg, s, k, reply, repo');
      case Write(k) => RecordsAfterWrite(cfg, s, k);
      case _ =>
        var s' := Apply(cfg, s, a);
        forall n: nat | n < |s'.log.recorded| ensures IsRecorded(s', n) {
          assert IsRecorded(s, n);
        }
    }
  }

  /** In every state of every run the recorded results are how the syncs ended, in the order in which they were started. */
  lemma {:induction false} RunRecords(cfg: Config, states: seq<Sys>, actions: seq<Action>, i: nat)
    requires IsRun(cfg, states, actions) && i < |states|
    ensures RecordsOk(states[i])
    decreases i
  {
    hide Inv, Enabled, Apply, RecordsOk;
    if i == 0 {
      NoRecords(cfg, states[0]);
    } else {
      RunRecords(cfg, states, actions, i - 1);
      RunInv(cfg, states, actions, i - 1);
      assert Steps(cfg, states[i - 1], actions[i - 1], states[i]);
      RecordsKept(cfg, states[i - 1], actions[i - 1]);
    }
  }

  lemma NoRecords(cfg: Config, s: Sys)
    requires Init(cfg, s)
    ensures RecordsOk(s)
  {
  }

  // ---------------------------------------------------------------- the answers

  /** The latest sync that has recorded a result. */
  ghost predicate LatestFailed(s: Sys, failed: bool) {
    && 0 < |s.log.recorded| <= |s.threads|
    && var latest := s.threads[|s.log.recorded| - 1];
    && latest.outcome.Some? && (failed <==> latest.outcome.value.Failed?)
  }

  /**
   A caller is answered in two ways only. It gives up waiting for an event that is not set, and is told that the files
   may be stale; or it reads, and is told so exactly when the latest sync that has recorded a result failed.
   */
  lemma AnswersTellLatestResult(cfg: Config, states: seq<Sys>, actions: seq<Action>, i: nat, c: nat, stale: bool)
    requires IsRun(cfg, states, actions) && i < |actions|
    requires CallerOf(states[i + 1], c) == Answered(stale) != CallerOf(states[i], c)
    ensures var s, caller := states[i], CallerOf(states[i], c);
            || (&& actions[i] == GiveUp(c) && stale
                && caller.Waiting? && caller.event < |s.threads| && s.threads[caller.event].pc != Finished)
            || (actions[i] == Read(c) && caller == Checking && LatestFailed(s, stale))
  {
    hide Init, Cooldown, Counters, Heads, RecordsOk;
    var s := states[i];
    assert Steps(cfg, s, actions[i], states[i + 1]);
    RunInv(cfg, states, actions, i);
    RunRecords(cfg, states, actions, i);
    if actions[i].Read? {
      LatestRecorded(s);
    }
  }

  lemma LatestRecorded(s: Sys)
    requires RecordsOk(s) && s.log.recorded != []
    ensures LatestFailed(s, !s.log.recorded[|s.log.recorded| - 1])
  {
    assert IsRecorded(s, |s.log.recorded| - 1);
  }

  /** A caller that waited for the e-th sync and is woken finds that sync over and recorded, and no longer in flight. */
  lemma WokenAfterResult(cfg: Config, states: seq<Sys>, actions: seq<Action>, i: nat, c: nat)
    requires IsRun(cfg, states, actions) && i < |actions| && actions[i] == Wake(c)
    ensures var caller := CallerOf(states[i], c);
            && caller.Waiting? && caller.event < |states[i].threads|
            && caller.event < |states[i].log.recorded| && states[i].sh.inFlight != Some(caller.event)
            && states[i].threads[caller.event].pc == Finished
            && CallerOf(states[i + 1], c) == Checking
  {
    hide Init, Cooldown, Counters, Heads, RecordsOk;
    var s := states[i];
    assert Steps(cfg, s, actions[i], states[i + 1]);
    RunInv(cfg, states, actions, i);
    RunRecords(cfg, states, actions, i);
    FinishedIsRecorded(cfg, s, CallerOf(s, c).event);
  }

  lemma FinishedIsRecorded(cfg: Config, s: Sys, e: nat)
    requires Inv(cfg, s) && RecordsOk(s) && e < |s.threads| && s.threads[e].pc == Finished
    ensures e < |s.log.recorded| && s.sh.inFlight != Some(e)
  {
    hide Cooldown, Counters, Heads;
    UnrecordedIsLast(cfg, s, e);
  }

  lemma {:induction false} RecordsGrow(cfg: Config, states: seq<Sys>, actions: seq<Action>, i: nat, j: nat)
    requires IsRun(cfg, states, actions) && i <= j < |states|
    ensures states[i].log.recorded <= states[j].log.recorded
    decreases j
  {
    hide Init, GitRuns, Interferes, Fits, Receive;
    if i < j {
      RecordsGrow(cfg, states, actions, i, j - 1);
      assert Steps(cfg, states[j - 1], actions[j - 1], states[j]);
    }
  }

  /**
   A caller that was woken by the e-th sync and then reads is told the result of that sync or of a later one, not of an
   earlier one.
   */
  lemma WokenReadsOwnOrLater(cfg: Config, states: seq<Sys>, actions: seq<Action>, i: nat, j: nat, c: nat, e: nat, stale: bool)
    requires IsRun(cfg, states, actions) && i < j < |actions|
    requires actions[i] == Wake(c) && CallerOf(states[i], c) == Waiting(e) && actions[j] == Read(c)
    requires CallerOf(states[j + 1], c) == Answered(stale)
    ensures e < |states[j].log.recorded| && LatestFailed(states[j], stale)
  {
    hide Init, Results, Cooldown, Counters, Heads, SingleFlight, RecordsOk, LatestFailed;
    WokenAfterResult(cfg, states, actions, i, c);
    RecordsGrow(cfg, states, actions, i, j);
    assert Steps(cfg, states[j], actions[j], states[j + 1]);
    AnswersTellLatestResult(cfg, states, actions, j, c, stale);
  }
}
