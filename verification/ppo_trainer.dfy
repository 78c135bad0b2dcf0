/** The PPO trainer's update cadence: every interaction step advances the
    rollout counter, and the agent's network update fires whenever the counter
    reaches a multiple of the rollout length once enough environment steps
    have been taken. The agent update, the logger and the base trainer's own
    bookkeeping are recorded as events rather than modelled. */
module PpoTrainer {
  import opened Numeric

  /** The counters `post_interaction` reads and writes. `step` is advanced by
      the training loop, not here. */
  datatype Trainer = Trainer(rollout: int, step: int, rollouts: int, startLearningSteps: int, updateTimes: int)

  /** What a call does besides changing the counters, in order. */
  datatype Event =
    | UpdateNet              // `agent.update_net()`
    | LoggedUpdate(times: int)  // the "Update n times." info line
    | BasePostInteraction    // `super().post_interaction()`

  datatype TrainerError =
    | ZeroDivision  // `_rollout % rollouts` with `rollouts == 0`

  /** A call either returns, having produced its events, or raises with the
      counter already incremented. */
  datatype PostOutcome =
    | Returned(trainer: Trainer, events: seq<Event>)
    | Raised(trainer: Trainer, error: TrainerError)

  /** Whether the gate opens for the counter value `rollout`: a multiple of the
      rollout length and past the warm-up steps. Python's `%` and Dafny's
      agree on whether the remainder is zero, whatever the signs. */
  predicate UpdateDue(t: Trainer, rollout: int)
    requires t.rollouts != 0
  {
    rollout % t.rollouts == 0 && t.step >= t.startLearningSteps
  }

  /** `PPOTrainer.post_interaction`. */
  function PostInteraction(t: Trainer): (r: PostOutcome)
    ensures r.trainer.rollout == t.rollout + 1
    ensures r.trainer.step == t.step && r.trainer.rollouts == t.rollouts
    ensures r.trainer.startLearningSteps == t.startLearningSteps
    ensures r.Raised? <==> t.rollouts == 0
    ensures r.Raised? ==> r.trainer.updateTimes == t.updateTimes
    ensures r.Returned? ==> |r.events| > 0 && r.events[|r.events| - 1] == BasePostInteraction
    ensures r.Returned? ==>
      (UpdateNet in r.events <==> (t.rollout + 1) % t.rollouts == 0 && t.step >= t.startLearningSteps)
    ensures r.Returned? ==>
      r.trainer.updateTimes == t.updateTimes + (if UpdateNet in r.events then 1 else 0)
    ensures r.Returned? && UpdateNet in r.events ==> r.events == [UpdateNet, LoggedUpdate(r.trainer.updateTimes), BasePostInteraction]
    ensures r.Returned? && UpdateNet !in r.events ==> r.events == [BasePostInteraction]
  {
    var counted := t.(rollout := t.rollout + 1);
    if counted.rollouts == 0 then Raised(counted, ZeroDivision)
    else if UpdateDue(counted, counted.rollout) then
      var updated := counted.(updateTimes := counted.updateTimes + 1);
      Returned(updated, [UpdateNet, LoggedUpdate(updated.updateTimes), BasePostInteraction])
    else Returned(counted, [BasePostInteraction])
  }

  /** `n` successive calls, stopping at the first that raises. */
  function Interact(t: Trainer, n: nat): (r: PostOutcome)
    ensures r.trainer.step == t.step && r.trainer.rollouts == t.rollouts
    ensures r.trainer.startLearningSteps == t.startLearningSteps
  {
    if n == 0 then Returned(t, [])
    else
      match Interact(t, n - 1)
      case Raised(s, e) => Raised(s, e)
      case Returned(s, events) =>
        match PostInteraction(s)
        case Raised(s', e) => Raised(s', e)
        case Returned(s', more) => Returned(s', events + more)
  }

  /** Stepping the counter by one crosses a multiple of `m` exactly when the
      new value is one. */
  lemma QuotientStep(x: int, m: int)
    requires m > 0
    ensures (x + 1) / m == x / m + (if (x + 1) % m == 0 then 1 else 0)
  {
    var q, s := x / m, x % m;
    DivModUnique(x, q, s, m);
    if s + 1 == m {
      DivModUnique(x + 1, q + 1, 0, m);
    } else {
      DivModUnique(x + 1, q, s + 1, m);
    }
  }

  /** With a positive rollout length and the warm-up over, `n` interactions
      run one update for every multiple of the rollout length the counter
      passes, and each call advances the counter by one. */
  lemma {:induction false} UpdatesPerRollouts(t: Trainer, n: nat)
    requires t.rollouts > 0 && t.step >= t.startLearningSteps
    ensures Interact(t, n).Returned?
    ensures Interact(t, n).trainer.rollout == t.rollout + n
    ensures Interact(t, n).trainer.updateTimes == t.updateTimes + (t.rollout + n) / t.rollouts - t.rollout / t.rollouts
  {
    if n > 0 {
      UpdatesPerRollouts(t, n - 1);
      var s := Interact(t, n - 1).trainer;
      QuotientStep(t.rollout + n - 1, t.rollouts);
      assert PostInteraction(s).Returned?;
    }
  }

  /** Before the warm-up is over no call updates the agent, and every call
      still reaches the base trainer. */
  lemma {:induction false} NoUpdateBeforeLearningStarts(t: Trainer, n: nat)
    requires t.rollouts != 0 && t.step < t.startLearningSteps
    ensures Interact(t, n).Returned?
    ensures Interact(t, n).trainer.updateTimes == t.updateTimes
    ensures Interact(t, n).events == seq(n, _ => BasePostInteraction)
  {
    if n > 0 {
      NoUpdateBeforeLearningStarts(t, n - 1);
      var s := Interact(t, n - 1).trainer;
      assert PostInteraction(s) == Returned(s.(rollout := s.rollout + 1), [BasePostInteraction]);
      assert seq(n - 1, _ => BasePostInteraction) + [BasePostInteraction] == seq(n, _ => BasePostInteraction);
    }
  }
}
