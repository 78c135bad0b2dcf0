/** Rollout arithmetic of the hierarchical ASE agent: the least-squares style
    reward and the combined reward, the GAE(λ) backward recursion (Schulman et
    al., "High-Dimensional Continuous Control Using Generalized Advantage
    Estimation") and its return targets, the PPO clipped surrogate and value
    clipping, the least-squares discriminator loss, and the bootstrap masking
    and reward shaping done when a transition is stored.

    Every memory tensor is shaped `[horizon, num_envs, 1]` and every operation
    here acts on each environment's column independently, so one column is
    modelled: a `seq<real>` indexed by timestep. Network outputs (values,
    discriminator logits, probability ratios) are inputs. */
module AseRollout {
  import opened Numeric
  import opened Results
  import EpisodeTracker

  /** The lower clamp `torch.maximum` puts on the style reward. */
  const StyleRewardFloor: real := 0.0001

  /** The factor of the default reward shaper `lambda rewards: rewards * 0.01`. */
  const DefaultShapingFactor: real := 0.01

  // ---------------------------------------------------------------------
  // Style and combined rewards

  /** Least-squares style reward of one discriminator logit, before scaling:
      `max(1 - 0.25 * (1 - logit)^2, 0.0001)`. */
  function LeastSquaresStyleReward(logit: real): (r: real)
    ensures StyleRewardFloor <= r <= 1.0
    ensures logit == 1.0 ==> r == 1.0
  {
    var raw := 1.0 - 0.25 * Square(1.0 - logit);
    if raw >= StyleRewardFloor then raw else StyleRewardFloor
  }

  /** Up to the logit the discriminator is trained to give real motion, a
      more real-looking logit never earns less style reward. */
  lemma StyleRewardMonotone(a: real, b: real)
    requires a <= b <= 1.0
    ensures LeastSquaresStyleReward(a) <= LeastSquaresStyleReward(b)
  {
    var da, db := 1.0 - a, 1.0 - b;
    assert 0.0 <= db <= da;
    assert db * db <= da * db by {
      MultiplyRight(db, da, db);
    }
    assert da * db <= da * da by {
      MultiplyRight(db, da, da);
      assert db * da == da * db;
    }
    assert Square(db) <= Square(da);
  }

  /** Multiplying both sides by a non-negative factor keeps the order. */
  lemma MultiplyRight(x: real, y: real, c: real)
    requires x <= y && c >= 0.0
    ensures x * c <= y * c
  {
    assert y * c - x * c == (y - x) * c;
    if c > 0.0 && y > x {
      assert (y - x) * c > 0.0;
    }
  }

  /** Style reward of every logit, scaled by the discriminator reward scale. */
  function StyleRewards(logits: seq<real>, rewardScale: real): (r: seq<real>)
    ensures |r| == |logits|
    ensures rewardScale >= 0.0 ==> forall i :: 0 <= i < |r| ==> StyleRewardFloor * rewardScale <= r[i] <= rewardScale
  {
    seq(|logits|, i requires 0 <= i < |logits| =>
      var s := LeastSquaresStyleReward(logits[i]);
      if rewardScale >= 0.0 then
        MultiplyRight(StyleRewardFloor, s, rewardScale);
        MultiplyRight(s, 1.0, rewardScale);
        s * rewardScale
      else s * rewardScale)
  }

  /** `task_reward_weight * rewards + style_reward_weight * style_reward`. */
  function CombinedRewards(taskWeight: real, rewards: seq<real>, styleWeight: real, style: seq<real>): (r: seq<real>)
    requires |style| == |rewards|
    ensures |r| == |rewards|
    ensures forall i :: 0 <= i < |r| ==> r[i] - taskWeight * rewards[i] == styleWeight * style[i]
  {
    seq(|rewards|, i requires 0 <= i < |rewards| => taskWeight * rewards[i] + styleWeight * style[i])
  }

  /** With non-negative weights and scale the least-squares style term only
      ever adds reward: the combined reward is at least the weighted task
      reward plus the floored style bonus. */
  lemma StyleTermNeverPenalises(taskWeight: real, rewards: seq<real>, styleWeight: real, logits: seq<real>, rewardScale: real)
    requires |logits| == |rewards|
    requires styleWeight >= 0.0 && rewardScale >= 0.0
    ensures var c := CombinedRewards(taskWeight, rewards, styleWeight, StyleRewards(logits, rewardScale));
      forall i :: 0 <= i < |c| ==> c[i] >= taskWeight * rewards[i] + styleWeight * (StyleRewardFloor * rewardScale)
  {
    var style := StyleRewards(logits, rewardScale);
    forall i | 0 <= i < |rewards|
      ensures styleWeight * style[i] >= styleWeight * (StyleRewardFloor * rewardScale)
    {
      MultiplyRight(StyleRewardFloor * rewardScale, style[i], styleWeight);
    }
  }

  // ---------------------------------------------------------------------
  // Generalised advantage estimation

  /** One environment's rollout as the advantage loop reads it: combined
      rewards, value estimates, (already masked) next-state values and the
      `terminated` flags, all indexed by timestep. */
  datatype Rollout = Rollout(rewards: seq<real>, values: seq<real>, nextValues: seq<real>, terminated: seq<bool>)
  {
    predicate WellFormed() {
      |values| == |rewards| && |nextValues| == |rewards| && |terminated| == |rewards|
    }

    function Length(): nat {
      |rewards|
    }

    /** The rollout from timestep `k` on. */
    function Drop(k: nat): (r: Rollout)
      requires WellFormed() && k <= Length()
      ensures r.WellFormed() && r.Length() == Length() - k
    {
      Rollout(rewards[k..], values[k..], nextValues[k..], terminated[k..])
    }
  }

  /** `not_dones`, as the 0/1 factor the source multiplies by. */
  function NotDone(terminated: bool): real
  {
    if terminated then 0.0 else 1.0
  }

  /** One step of the advantage recursion: the TD error `R - V + γ NV` plus
      the discounted, λ-weighted advantage of the next timestep unless this
      one terminated. */
  function GaeStep(reward: real, value: real, nextValue: real, terminated: bool, gamma: real, tdLambda: real, next: real): real
  {
    reward - value + gamma * (nextValue + tdLambda * NotDone(terminated) * next)
  }

  /** The advantage at timestep `i`, by the GAE(λ) recursion
      `A[i] = R[i] - V[i] + γ (NV[i] + λ notdone[i] A[i+1])`, with the
      advantage past the last timestep taken as zero. */
  function AdvantageAt(ro: Rollout, gamma: real, tdLambda: real, i: nat): real
    requires ro.WellFormed()
    decreases ro.Length() - i
  {
    if i >= ro.Length() then 0.0
    else GaeStep(ro.rewards[i], ro.values[i], ro.nextValues[i], ro.terminated[i], gamma, tdLambda, AdvantageAt(ro, gamma, tdLambda, i + 1))
  }

  /** The advantage sequence the recursion defines. */
  function Advantages(ro: Rollout, gamma: real, tdLambda: real): (r: seq<real>)
    requires ro.WellFormed()
    ensures |r| == ro.Length()
  {
    seq(ro.Length(), i requires 0 <= i < ro.Length() => AdvantageAt(ro, gamma, tdLambda, i))
  }

  /** The backward loop of `update_net`: a running `advantage` starting at 0,
      stored into a zero-initialised sequence from the last timestep down. */
  method ComputeAdvantages(ro: Rollout, gamma: real, tdLambda: real) returns (advantages: seq<real>)
    requires ro.WellFormed()
    ensures |advantages| == ro.Length()
    ensures forall i :: 0 <= i < |advantages| ==>
      advantages[i] == GaeStep(ro.rewards[i], ro.values[i], ro.nextValues[i], ro.terminated[i], gamma, tdLambda,
                               if i + 1 < |advantages| then advantages[i + 1] else 0.0)
    ensures advantages == Advantages(ro, gamma, tdLambda)
  {
    var memorySize := ro.Length();
    var advantage := 0.0;
    advantages := seq(memorySize, _ => 0.0);
    var i := memorySize;
    while i > 0
      invariant 0 <= i <= memorySize
      invariant |advantages| == memorySize
      invariant advantage == AdvantageAt(ro, gamma, tdLambda, i)
      invariant forall k :: i <= k < memorySize ==> advantages[k] == AdvantageAt(ro, gamma, tdLambda, k)
    {
      i := i - 1;
      advantage := ro.rewards[i] - ro.values[i] + gamma * (ro.nextValues[i] + tdLambda * NotDone(ro.terminated[i]) * advantage);
      assert advantage == AdvantageAt(ro, gamma, tdLambda, i);
      advantages := advantages[i := advantage];
    }
    forall i | 0 <= i < |advantages|
      ensures advantages[i] == GaeStep(ro.rewards[i], ro.values[i], ro.nextValues[i], ro.terminated[i], gamma, tdLambda,
                                       if i + 1 < |advantages| then advantages[i + 1] else 0.0)
    {
      var next := if i + 1 < |advantages| then advantages[i + 1] else 0.0;
      assert next == AdvantageAt(ro, gamma, tdLambda, i + 1);
      assert advantages[i] == AdvantageAt(ro, gamma, tdLambda, i);
    }
  }

  /** `values_target = advantages + values`: the value network's regression targets. */
  function ReturnTargets(advantages: seq<real>, values: seq<real>): (r: seq<real>)
    requires |values| == |advantages|
    ensures |r| == |advantages|
    ensures forall i :: 0 <= i < |r| ==> r[i] - values[i] == advantages[i]
  {
    seq(|advantages|, i requires 0 <= i < |advantages| => advantages[i] + values[i])
  }

  /** Without discounting nothing is bootstrapped: every advantage is the
      reward minus the value estimate. */
  lemma NoDiscountNoBootstrap(ro: Rollout, tdLambda: real, i: nat)
    requires ro.WellFormed() && i < ro.Length()
    ensures AdvantageAt(ro, 0.0, tdLambda, i) == ro.rewards[i] - ro.values[i]
  {
  }

  /** At a terminated timestep the advantage is the one-step TD error
      `R - V + γ NV`, whatever any later timestep holds: two rollouts that
      agree at `i` agree on its advantage. */
  lemma TerminatedStepIsolated(ro: Rollout, other: Rollout, gamma: real, tdLambda: real, i: nat)
    requires ro.WellFormed() && other.WellFormed()
    requires i < ro.Length() && i < other.Length()
    requires ro.terminated[i]
    requires other.rewards[i] == ro.rewards[i] && other.values[i] == ro.values[i]
    requires other.nextValues[i] == ro.nextValues[i] && other.terminated[i]
    ensures AdvantageAt(ro, gamma, tdLambda, i) == ro.rewards[i] - ro.values[i] + gamma * ro.nextValues[i]
    ensures AdvantageAt(other, gamma, tdLambda, i) == AdvantageAt(ro, gamma, tdLambda, i)
  {
  }

  /** An advantage depends only on its own and later timesteps. */
  lemma {:induction false} AdvantageDependsOnSuffix(ro: Rollout, gamma: real, tdLambda: real, k: nat, j: nat)
    requires ro.WellFormed() && k <= ro.Length()
    ensures AdvantageAt(ro, gamma, tdLambda, k + j) == AdvantageAt(ro.Drop(k), gamma, tdLambda, j)
    decreases ro.Length() - (k + j)
  {
    if k + j < ro.Length() {
      AdvantageDependsOnSuffix(ro, gamma, tdLambda, k, j + 1);
      var d := ro.Drop(k);
      assert d.rewards[j] == ro.rewards[k + j] && d.values[j] == ro.values[k + j];
      assert d.nextValues[j] == ro.nextValues[k + j] && d.terminated[j] == ro.terminated[k + j];
    }
  }

  /** The discounted return of a rollout that bootstraps from the last
      next-state value: `R[i] + γ R[i+1] + ... + γ^(T-i) NV[T-1]`. */
  function DiscountedReturn(ro: Rollout, gamma: real, i: nat): real
    requires ro.WellFormed() && i < ro.Length()
    decreases ro.Length() - i
  {
    if i + 1 < ro.Length() then ro.rewards[i] + gamma * DiscountedReturn(ro, gamma, i + 1)
    else ro.rewards[i] + gamma * ro.nextValues[i]
  }

  /** With λ = 1, no termination inside the rollout and each next-state value
      equal to the following state's value, the return target telescopes to
      the discounted Monte-Carlo return. */
  lemma {:induction false} LambdaOneGivesDiscountedReturn(ro: Rollout, gamma: real, i: nat)
    requires ro.WellFormed() && i < ro.Length()
    requires forall k :: 0 <= k < ro.Length() ==> !ro.terminated[k]
    requires forall k :: 0 <= k < ro.Length() - 1 ==> ro.nextValues[k] == ro.values[k + 1]
    ensures AdvantageAt(ro, gamma, 1.0, i) + ro.values[i] == DiscountedReturn(ro, gamma, i)
    decreases ro.Length() - i
  {
    if i + 1 < ro.Length() {
      LambdaOneGivesDiscountedReturn(ro, gamma, i + 1);
      var next := AdvantageAt(ro, gamma, 1.0, i + 1);
      assert ro.nextValues[i] + 1.0 * NotDone(ro.terminated[i]) * next == DiscountedReturn(ro, gamma, i + 1);
    } else {
      assert AdvantageAt(ro, gamma, 1.0, i + 1) == 0.0;
    }
  }

  /** The horizon-4 regression fixture: constant reward 1, γ = 0.99,
      λ = 0.95, zero values, next values [0, 0, 0, 1], nothing terminated. */
  lemma HorizonFourFixture()
    ensures var ro := Rollout([1.0, 1.0, 1.0, 1.0], [0.0, 0.0, 0.0, 0.0], [0.0, 0.0, 0.0, 1.0], [false, false, false, false]);
      Advantages(ro, 0.99, 0.95) == [4.48054135919875, 3.7007350975, 2.871595, 1.99]
  {
    var ro := Rollout([1.0, 1.0, 1.0, 1.0], [0.0, 0.0, 0.0, 0.0], [0.0, 0.0, 0.0, 1.0], [false, false, false, false]);
    assert AdvantageAt(ro, 0.99, 0.95, 4) == 0.0;
    assert AdvantageAt(ro, 0.99, 0.95, 3) == 1.99;
    assert AdvantageAt(ro, 0.99, 0.95, 2) == 2.871595;
    assert AdvantageAt(ro, 0.99, 0.95, 1) == 3.7007350975;
    assert AdvantageAt(ro, 0.99, 0.95, 0) == 4.48054135919875;
  }

  /** The advantage and return-target half of `update_net`: style rewards from
      the discriminator logits, the combined reward, the backward advantage
      loop, and return targets from the un-standardised advantages. */
  method EstimateRollout(taskRewards: seq<real>, logits: seq<real>, values: seq<real>, nextValues: seq<real>,
                         terminated: seq<bool>, taskWeight: real, styleWeight: real, rewardScale: real,
                         gamma: real, tdLambda: real)
    returns (combined: seq<real>, advantages: seq<real>, targets: seq<real>)
    requires |logits| == |taskRewards| && |values| == |taskRewards|
    requires |nextValues| == |taskRewards| && |terminated| == |taskRewards|
    ensures |combined| == |taskRewards| && |advantages| == |taskRewards| && |targets| == |taskRewards|
    ensures combined == CombinedRewards(taskWeight, taskRewards, styleWeight, StyleRewards(logits, rewardScale))
    ensures advantages == Advantages(Rollout(combined, values, nextValues, terminated), gamma, tdLambda)
    ensures forall i :: 0 <= i < |targets| ==> targets[i] - values[i] == advantages[i]
  {
    var style := StyleRewards(logits, rewardScale);
    combined := CombinedRewards(taskWeight, taskRewards, styleWeight, style);
    advantages := ComputeAdvantages(Rollout(combined, values, nextValues, terminated), gamma, tdLambda);
    targets := ReturnTargets(advantages, values);
  }

  // ---------------------------------------------------------------------
  // Policy and value losses

  /** `min(ratio * A, clip(ratio, 1 - ε, 1 + ε) * A)` for one sample. */
  function ClippedSurrogate(ratio: real, advantage: real, ratioClip: real): (r: real)
    ensures r <= advantage * ratio
    ensures 1.0 - ratioClip <= ratio <= 1.0 + ratioClip ==> r == advantage * ratio
    ensures r <= advantage * Clip(ratio, 1.0 - ratioClip, 1.0 + ratioClip)
  {
    var surrogate := advantage * ratio;
    var clipped := advantage * Clip(ratio, 1.0 - ratioClip, 1.0 + ratioClip);
    if surrogate <= clipped then surrogate else clipped
  }

  /** With a non-negative clip range the surrogate never credits a sample
      with more than a `1 + ε` (positive advantage) or `1 - ε` (negative
      advantage) change of its probability. */
  lemma SurrogateGainBounded(ratio: real, advantage: real, ratioClip: real)
    requires ratioClip >= 0.0
    ensures advantage >= 0.0 ==> ClippedSurrogate(ratio, advantage, ratioClip) <= advantage * (1.0 + ratioClip)
    ensures advantage < 0.0 ==> ClippedSurrogate(ratio, advantage, ratioClip) <= advantage * (1.0 - ratioClip)
  {
    var c := Clip(ratio, 1.0 - ratioClip, 1.0 + ratioClip);
    if advantage >= 0.0 {
      MultiplyRight(c, 1.0 + ratioClip, advantage);
      assert advantage * c == c * advantage;
    } else {
      MultiplyRight(1.0 - ratioClip, c, -advantage);
      assert advantage * c == -(c * -advantage);
    }
  }

  /** `-mean(min(surrogate, surrogate_clipped))` over a mini-batch. The
      clipped objective is pessimistic: its loss is never below the loss of
      the unclipped surrogate, and equals it when every ratio lies within
      the clip range. */
  function PolicyLoss(ratios: seq<real>, advantages: seq<real>, ratioClip: real): (r: real)
    requires |ratios| == |advantages| > 0
    ensures r >= -Mean(seq(|ratios|, i requires 0 <= i < |ratios| => advantages[i] * ratios[i]))
    ensures (forall i :: 0 <= i < |ratios| ==> 1.0 - ratioClip <= ratios[i] <= 1.0 + ratioClip) ==>
      r == -Mean(seq(|ratios|, i requires 0 <= i < |ratios| => advantages[i] * ratios[i]))
  {
    var clipped := seq(|ratios|, i requires 0 <= i < |ratios| => ClippedSurrogate(ratios[i], advantages[i], ratioClip));
    var plain := seq(|ratios|, i requires 0 <= i < |ratios| => advantages[i] * ratios[i]);
    MeanMonotone(clipped, plain);
    assert (forall i :: 0 <= i < |ratios| ==> 1.0 - ratioClip <= ratios[i] <= 1.0 + ratioClip) ==> clipped == plain;
    -Mean(clipped)
  }

  /** `sampled_values + clip(predicted - sampled_values, -value_clip, value_clip)`. */
  function ClipPredictedValue(predicted: real, sampled: real, valueClip: real): (r: real)
    ensures valueClip >= 0.0 ==> sampled - valueClip <= r <= sampled + valueClip
    ensures -valueClip <= predicted - sampled <= valueClip ==> r == predicted
  {
    sampled + Clip(predicted - sampled, -valueClip, valueClip)
  }

  /** The predicted values the value loss uses: clipped around the sampled values
      when `clip_predicted_values` is set, as predicted otherwise. */
  function PredictedValuesForLoss(predicted: seq<real>, sampled: seq<real>, clipPredicted: bool, valueClip: real): (r: seq<real>)
    requires |sampled| == |predicted|
    ensures |r| == |predicted|
    ensures !clipPredicted ==> r == predicted
    ensures clipPredicted && valueClip >= 0.0 ==> forall i :: 0 <= i < |r| ==> sampled[i] - valueClip <= r[i] <= sampled[i] + valueClip
  {
    if clipPredicted then
      seq(|predicted|, i requires 0 <= i < |predicted| => ClipPredictedValue(predicted[i], sampled[i], valueClip))
    else predicted
  }

  /** Element-wise difference. */
  function Minus(a: seq<real>, b: seq<real>): (r: seq<real>)
    requires |b| == |a|
    ensures |r| == |a|
    ensures forall i :: 0 <= i < |a| ==> r[i] + b[i] == a[i]
  {
    seq(|a|, i requires 0 <= i < |a| => a[i] - b[i])
  }

  /** `value_loss_scale * mse_loss(targets, predicted)`. */
  function ValueLoss(targets: seq<real>, predicted: seq<real>, valueLossScale: real): (r: real)
    requires |predicted| == |targets| > 0
    ensures valueLossScale >= 0.0 ==> r >= 0.0
    ensures targets == predicted ==> r == 0.0
  {
    var errors := Squares(Minus(targets, predicted));
    MeanNonNegative(errors);
    assert valueLossScale >= 0.0 ==> valueLossScale * Mean(errors) >= 0.0 by {
      if valueLossScale >= 0.0 {
        MultiplyRight(0.0, Mean(errors), valueLossScale);
      }
    }
    valueLossScale * Mean(errors)
  }

  /** The least-squares discriminator loss before regularisation:
      `0.5 * (mse(fake, -1) + mse(real, +1))` times the loss scale, where the
      fake logits are the policy's and the replay buffer's, concatenated. */
  function LeastSquaresDiscriminatorLoss(policyLogits: seq<real>, replayLogits: seq<real>, motionLogits: seq<real>, lossScale: real): (r: real)
    requires |policyLogits| + |replayLogits| > 0 && |motionLogits| > 0
    ensures lossScale >= 0.0 ==> r >= 0.0
    ensures ((forall i :: 0 <= i < |policyLogits| ==> policyLogits[i] == -1.0)
             && (forall i :: 0 <= i < |replayLogits| ==> replayLogits[i] == -1.0)
             && (forall i :: 0 <= i < |motionLogits| ==> motionLogits[i] == 1.0))
            ==> r == 0.0
  {
    var fake := policyLogits + replayLogits;
    var fakeErrors := Squares(seq(|fake|, i requires 0 <= i < |fake| => fake[i] + 1.0));
    var realErrors := Squares(seq(|motionLogits|, i requires 0 <= i < |motionLogits| => motionLogits[i] - 1.0));
    MeanNonNegative(fakeErrors);
    MeanNonNegative(realErrors);
    var loss := 0.5 * (Mean(fakeErrors) + Mean(realErrors));
    assert lossScale >= 0.0 ==> loss * lossScale >= 0.0 by {
      if lossScale >= 0.0 {
        MultiplyRight(0.0, loss, lossScale);
      }
    }
    loss * lossScale
  }

  /** Logits at their training targets (fake at -1, real at +1) minimise the
      least-squares discriminator loss. */
  lemma TargetLogitsMinimiseDiscriminatorLoss(policyLogits: seq<real>, replayLogits: seq<real>, motionLogits: seq<real>, lossScale: real)
    requires |policyLogits| + |replayLogits| > 0 && |motionLogits| > 0 && lossScale >= 0.0
    ensures LeastSquaresDiscriminatorLoss(seq(|policyLogits|, _ => -1.0), seq(|replayLogits|, _ => -1.0), seq(|motionLogits|, _ => 1.0), lossScale)
         <= LeastSquaresDiscriminatorLoss(policyLogits, replayLogits, motionLogits, lossScale)
  {
  }

  // ---------------------------------------------------------------------
  // Storing a transition

  /** `rewards_shaper` from the configuration: none, the default
      `rewards * 0.01`, or a user function on the whole reward tensor. */
  datatype RewardShaper = NoShaper | DefaultShaper | CustomShaper(shape: seq<real> -> seq<real>)

  /** The rewards memory stores. */
  function ShapeRewards(shaper: RewardShaper, rewards: seq<real>): (r: seq<real>)
    ensures shaper.NoShaper? ==> r == rewards
    ensures shaper.DefaultShaper? ==> |r| == |rewards| && forall i :: 0 <= i < |r| ==> r[i] == DefaultShapingFactor * rewards[i]
  {
    match shaper
    case NoShaper => rewards
    case DefaultShaper => seq(|rewards|, i requires 0 <= i < |rewards| => DefaultShapingFactor * rewards[i])
    case CustomShaper(f) => f(rewards)
  }

  /** `next_values *= infos['terminate'].logical_not()`. */
  function MaskNextValues(nextValues: seq<real>, terminate: seq<bool>): (r: seq<real>)
    requires |terminate| == |nextValues|
    ensures |r| == |nextValues|
    ensures forall i :: 0 <= i < |r| ==> (terminate[i] ==> r[i] == 0.0) && (!terminate[i] ==> r[i] == nextValues[i])
  {
    seq(|nextValues|, i requires 0 <= i < |nextValues| => nextValues[i] * NotDone(terminate[i]))
  }

  /** At a step both flagged `terminate` (masking the bootstrap value) and
      `terminated` (cutting the recursion), the advantage is just the reward
      minus the value estimate. */
  lemma TerminalStepNoBootstrap(rewards: seq<real>, values: seq<real>, nextValues: seq<real>, terminate: seq<bool>,
                                terminated: seq<bool>, gamma: real, tdLambda: real, i: nat)
    requires |values| == |rewards| && |nextValues| == |rewards| && |terminate| == |rewards| && |terminated| == |rewards|
    requires i < |rewards| && terminate[i] && terminated[i]
    ensures AdvantageAt(Rollout(rewards, values, MaskNextValues(nextValues, terminate), terminated), gamma, tdLambda, i)
         == rewards[i] - values[i]
  {
  }

  /** One row of rollout memory, as `add_samples` receives it. */
  datatype Transition = Transition(rewards: seq<real>, terminated: seq<bool>, truncated: seq<bool>,
                                   values: seq<real>, nextValues: seq<real>)

  /** `ASEHRLAgent.store_transition`: the base bookkeeping runs on the raw
      rewards, while memory receives the shaped rewards and the next-state
      values zeroed wherever `infos['terminate']` is set. */
  function StoreTransition(tracker: EpisodeTracker.Tracker, rewards: seq<real>, terminated: seq<bool>, truncated: seq<bool>,
                           terminate: seq<bool>, values: seq<real>, nextValues: seq<real>, shaper: RewardShaper)
    : (r: (EpisodeTracker.Tracker, Transition))
    requires tracker.Valid() && EpisodeTracker.Fits(tracker, rewards, terminated, truncated)
    requires |terminate| == |nextValues|
    ensures r.0 == EpisodeTracker.StoreTransition(tracker, rewards, terminated, truncated)
    ensures forall i :: 0 <= i < |rewards| && !terminated[i] && !truncated[i] ==>
      r.0.counters.value.rewards[i] == EpisodeTracker.Prior(tracker, |rewards|).rewards[i] + rewards[i]
    ensures shaper.DefaultShaper? ==> |r.1.rewards| == |rewards| && forall i :: 0 <= i < |rewards| ==> r.1.rewards[i] == DefaultShapingFactor * rewards[i]
    ensures r.1.terminated == terminated && r.1.truncated == truncated && r.1.values == values
    ensures |r.1.nextValues| == |nextValues|
    ensures forall i :: 0 <= i < |nextValues| ==> (r.1.nextValues[i] == 0.0 <== terminate[i]) && (!terminate[i] ==> r.1.nextValues[i] == nextValues[i])
  {
    var tracked := EpisodeTracker.StoreTransition(tracker, rewards, terminated, truncated);
    (tracked, Transition(ShapeRewards(shaper, rewards), terminated, truncated, values, MaskNextValues(nextValues, terminate)))
  }
}
