# Rofunc reinforcement-learning bookkeeping, in Dafny

This project models the parts of Rofunc (a robot-learning framework) that are
exact arithmetic and bookkeeping rather than neural networks or simulation,
and proves properties of them:

- **Hierarchical ASE agent** (`ase_rollout.dfy`, module `AseRollout`):
  - the least-squares style reward and the combined task/style reward;
  - the GAE(λ) backward advantage loop and the return targets;
  - the PPO clipped surrogate and predicted-value clipping;
  - the value loss and the least-squares discriminator loss;
  - the reward shaping and bootstrap masking done when a transition is stored.

  Every rollout tensor is `[horizon, num_envs, 1]` and all of this is
  element-wise per environment, so one environment's column is modelled as a
  `seq<real>` indexed by timestep.
- **Base agent bookkeeping** (`episode_tracker.dfy`, module `EpisodeTracker`):
  - per-environment cumulative reward and timestep counters that restart
    when an episode ends (the code as written also restarts environment 0;
    see Findings);
  - the two `deque(maxlen=100)` histories of finished-episode totals;
  - the `track_data` tag map.
- **Checkpoints** (`checkpoints.dfy`, module `Checkpoints`): `save_ckpt` and
  `load_ckpt` over insertion-ordered dicts (`seq<(string, V)>`).
  - A checkpoint entry names no live module: a warning is logged.
  - A live module without `load_state_dict`: `NotImplementedError`.
  - An entry holding a whole module object: an error.
- **View-motion task** (`view_motion.dfy`, module `ViewMotion`):
  - motion ids assigned as `env mod num_motions`;
  - their advance by `num_envs` on reset, with the per-env buffers zeroed;
  - the reset/terminate flag computation.
- **EMG processing** (`emg_process.dfy`, module `EmgProcess`): the stride-`k`
  downsampling loop and the rectification loop.
- **PPO trainer** (`ppo_trainer.dfy`, module `PpoTrainer`): the rollout
  counter and the gate that decides when the agent updates.
- **Console logger** (`beauty_logger.dfy`, module `BeautyLogger`):
  `beauty_print` as a function from content and level to the coloured line,
  or `ValueError` for a bad level.

`results.dfy` holds `Option`/`Result`. `numeric.dfy` holds sums, means,
clipping, absolute value and the integer division facts the other modules
share.

Python exceptions become `Err`/`Raised` values:
- a stride of 0 (`range` raises);
- `num_motions == 0` (an integer remainder by zero raises on a CPU tensor);
- `rollouts == 0` (`%` by zero raises);
- an invalid log level;
- the two load errors.

The trainer's raise comes after the rollout counter has been incremented.
A raising load keeps the modules loaded before the raise, as Python's
in-place loads do.

## Model

| member | source | states |
|---|---|---|
| AseRollout.LeastSquaresStyleReward | rofunc/learning/RofuncRL/agents/mixline/ase_hrl_agent.py:200-202 | the least-squares style reward lies in [0.0001, 1] and is 1 at the real-motion logit 1 |
| AseRollout.StyleRewardMonotone | rofunc/learning/RofuncRL/agents/mixline/ase_hrl_agent.py:201-202 | up to logit 1, a more real-looking logit never earns less style reward |
| AseRollout.StyleRewards | rofunc/learning/RofuncRL/agents/mixline/ase_hrl_agent.py:199-206 | with a non-negative reward scale, each scaled style reward lies between 0.0001·scale and scale |
| AseRollout.CombinedRewards | rofunc/learning/RofuncRL/agents/mixline/ase_hrl_agent.py:208 | element-wise, the combined reward minus the weighted task reward is the weighted style reward |
| AseRollout.StyleTermNeverPenalises | rofunc/learning/RofuncRL/agents/mixline/ase_hrl_agent.py:200-208 | with non-negative style weight and scale, each combined reward is at least the weighted task reward plus the floored style bonus |
| AseRollout.ComputeAdvantages | rofunc/learning/RofuncRL/agents/mixline/ase_hrl_agent.py:214-223 | the backward loop's output has the rollout's length; each entry satisfies A[i] = R[i] − V[i] + γ(NV[i] + λ·notdone[i]·A[i+1]), with A past the end 0; the output is the recursively defined advantage sequence |
| AseRollout.ReturnTargets | rofunc/learning/RofuncRL/agents/mixline/ase_hrl_agent.py:225 | each return target minus its value estimate is the (un-standardised) advantage |
| AseRollout.NoDiscountNoBootstrap | rofunc/learning/RofuncRL/agents/mixline/ase_hrl_agent.py:221-222 | with γ = 0 every advantage is R[i] − V[i] |
| AseRollout.TerminatedStepIsolated | rofunc/learning/RofuncRL/agents/mixline/ase_hrl_agent.py:216-222 | at a terminated step the advantage is R − V + γ·NV, and two rollouts agreeing at that step agree on it whatever follows |
| AseRollout.AdvantageDependsOnSuffix | rofunc/learning/RofuncRL/agents/mixline/ase_hrl_agent.py:220-223 | the advantage at step k+j equals the advantage at j of the rollout with its first k steps dropped |
| AseRollout.LambdaOneGivesDiscountedReturn | rofunc/learning/RofuncRL/agents/mixline/ase_hrl_agent.py:220-225 | with λ = 1, no terminations and NV[i] = V[i+1], each return target is the discounted return bootstrapped from the last next value |
| AseRollout.HorizonFourFixture | rofunc/learning/RofuncRL/agents/mixline/ase_hrl_agent.py:214-223 | a horizon-4 instance (reward 1, γ 0.99, λ 0.95, final next value 1) has advantages 4.48054135919875, 3.7007350975, 2.871595, 1.99 |
| AseRollout.EstimateRollout | rofunc/learning/RofuncRL/agents/mixline/ase_hrl_agent.py:195-225 | the combined rewards, the advantages of the rollout built from them, and return targets exceeding the values by exactly those advantages |
| AseRollout.ClippedSurrogate | rofunc/learning/RofuncRL/agents/mixline/ase_hrl_agent.py:265-269 | the clipped surrogate is at most both ratio·A and clip(ratio, 1−ε, 1+ε)·A, and equals ratio·A when the ratio is within [1−ε, 1+ε] |
| AseRollout.SurrogateGainBounded | rofunc/learning/RofuncRL/agents/mixline/ase_hrl_agent.py:266-269 | for ε ≥ 0 the surrogate never exceeds A·(1+ε) for A ≥ 0, nor A·(1−ε) for A < 0 |
| AseRollout.PolicyLoss | rofunc/learning/RofuncRL/agents/mixline/ase_hrl_agent.py:265-269 | the clipped policy loss is at least the loss of the unclipped surrogate, and equals it when every ratio lies within [1−ε, 1+ε] |
| AseRollout.ClipPredictedValue | rofunc/learning/RofuncRL/agents/mixline/ase_hrl_agent.py:275-277 | for value_clip ≥ 0 the clipped prediction lies within value_clip of the sampled value, and is the prediction itself when already within |
| AseRollout.PredictedValuesForLoss | rofunc/learning/RofuncRL/agents/mixline/ase_hrl_agent.py:274-277 | with clipping off the predictions are used as they are; with it on, each lies within value_clip of its sampled value |
| AseRollout.ValueLoss | rofunc/learning/RofuncRL/agents/mixline/ase_hrl_agent.py:278 | the scaled MSE value loss is non-negative for a non-negative scale and zero when predictions equal targets |
| AseRollout.LeastSquaresDiscriminatorLoss | rofunc/learning/RofuncRL/agents/mixline/ase_hrl_agent.py:297-303 | the least-squares discriminator loss (times its scale) is non-negative for a non-negative scale, and zero when policy and replay logits are −1 and motion logits are 1 |
| AseRollout.TargetLogitsMinimiseDiscriminatorLoss | rofunc/learning/RofuncRL/agents/mixline/ase_hrl_agent.py:300-303 | logits at their training targets give a loss no larger than any other logits |
| AseRollout.ShapeRewards | rofunc/learning/RofuncRL/agents/mixline/ase_hrl_agent.py:172-174 | without a shaper the rewards are kept; the default shaper multiplies each by 0.01 |
| AseRollout.MaskNextValues | rofunc/learning/RofuncRL/agents/mixline/ase_hrl_agent.py:182 | next values are zeroed exactly where `terminate` is set and kept elsewhere |
| AseRollout.TerminalStepNoBootstrap | rofunc/learning/RofuncRL/agents/mixline/ase_hrl_agent.py:182 | at a step flagged both terminate and terminated, the advantage is R − V |
| AseRollout.StoreTransition | rofunc/learning/RofuncRL/agents/mixline/ase_hrl_agent.py:164-187 | the base bookkeeping (`EpisodeTracker.StoreTransition`, the intended reset; see Findings) runs on the raw rewards; memory gets the shaped rewards (0.01× by default), the flags and values unchanged, and next values zeroed where `terminate` is set |
| BeautyLogger.Prefix | rofunc/utils/logger/beauty_logger.py:2-13 | every level's prefix starts with ESC `[1;3`, a colour digit and `m` |
| BeautyLogger.BeautyPrint | rofunc/utils/logger/beauty_logger.py:1-15 | levels outside 0..5 give `ValueError("Invalid level")`; a valid level gives its prefix, the content verbatim, then ESC `[0m` |
| BeautyLogger.PrintThenParse | rofunc/utils/logger/beauty_logger.py:1-15 | the level and content can be read back from every printed line, so distinct (level, content) pairs give distinct lines |
| BeautyLogger.TagsFollowColour | rofunc/utils/logger/beauty_logger.py:2-13 | levels 0, 1, 2 put `[Rofunc:WARNING] `, `[Rofunc:MODULE] `, `[Rofunc:INFO] ` before the content; levels 3 to 5 put nothing |
| Checkpoints.InternalValue | rofunc/learning/rl/agents/base_agent.py:116-117 | a module with `state_dict` is saved as its state, any other as the module itself |
| Checkpoints.Save | rofunc/learning/rl/agents/base_agent.py:125-128 | the checkpoint has exactly the registered names, in order, each with its module's internal value |
| Checkpoints.LoadInto | rofunc/learning/rl/agents/base_agent.py:141-144 | loading sets the state, keeps the capabilities, and leaves training mode only if the module has `eval` |
| Checkpoints.Load | rofunc/learning/rl/agents/base_agent.py:136-149 | the registered names never change; a checkpoint that is not a dict changes nothing |
| Checkpoints.LoadCompletesIffLoadable | rofunc/learning/rl/agents/base_agent.py:138-149 | a load completes exactly when every entry naming a live module holds a state dict for a module with `load_state_dict`, and then its warnings are the unmatched names in checkpoint order |
| Checkpoints.RaisedNamesCulprit | rofunc/learning/rl/agents/base_agent.py:139-146 | a raised load names an entry with a live module that lacks `load_state_dict` (NotImplementedError) or that holds a whole module |
| Checkpoints.LoadLeavesUnnamed | rofunc/learning/rl/agents/base_agent.py:138-149 | modules not named in the checkpoint are unchanged, whether the load completes or raises |
| Checkpoints.LoadStateDicts | rofunc/learning/rl/agents/base_agent.py:139-144 | distinct-named state dicts for live loadable modules load without warnings, each module getting its entry's state |
| Checkpoints.SaveThenLoadRestores | rofunc/learning/rl/agents/base_agent.py:125-144 | saving modules that all have `state_dict` and loading into modules of the same names that all have `load_state_dict` completes without warnings and restores every state |
| EmgProcess.Downsample | rofunc/devices/emg/process.py:21-25 | stride 0 is an error; a negative stride gives nothing; stride k > 0 gives len/k samples, sample j being data[j·k], and every multiple i of k followed by a full window is kept, at index i/k |
| EmgProcess.Rectify | rofunc/devices/emg/process.py:32-35 | the output has the input's length and each entry is the absolute value of its sample (non-negative, ± the sample) |
| EmgProcess.RectifiedIdempotent | rofunc/devices/emg/process.py:33-34 | rectifying twice equals rectifying once, and a non-negative signal is unchanged |
| EpisodeTracker.Push | rofunc/learning/rl/agents/base_agent.py:51-52 | appending to a 100-entry deque keeps at most 100 entries, ends with the new entry, and is the newest 100 of old + [x] |
| EpisodeTracker.Extend | rofunc/learning/rl/agents/base_agent.py:86-87 | extending keeps min(old + new, 100) entries, ends with the new entries when at most 100, and an empty extension changes nothing |
| EpisodeTracker.ExtendIsPushAll | rofunc/learning/rl/agents/base_agent.py:86-87 | extending at once equals appending the new entries one at a time |
| EpisodeTracker.SelectMembership | rofunc/learning/rl/agents/base_agent.py:83-86 | a value is selected by the finished mask iff it is the value of some finished environment |
| EpisodeTracker.Initial | rofunc/learning/rl/agents/base_agent.py:51-55 | a new agent has no counters and empty histories |
| EpisodeTracker.Prior | rofunc/learning/rl/agents/base_agent.py:75-77 | on the first call the counters are zeros shaped like the rewards |
| EpisodeTracker.FinishedMask | rofunc/learning/rl/agents/base_agent.py:83 | an environment has finished iff it is terminated or truncated |
| EpisodeTracker.StoreTransition | rofunc/learning/rl/agents/base_agent.py:75-91 | the intended reset (see Findings): finished environments' counters restart at 0; the others add their reward and one timestep; the histories stay within 100 entries |
| EpisodeTracker.StoreTransitionAsWritten | rofunc/learning/rl/agents/base_agent.py:75-91 | the code as written for `[num_envs, 1]` flags: finished environments, and environment 0 whenever any environment finished, restart at 0; the others add their reward and one timestep; the histories are those of `StoreTransition` |
| EpisodeTracker.AsWrittenLosesEnvZeroEpisode | rofunc/learning/rl/agents/base_agent.py:83-91 | as written, a fresh agent whose environment 1 terminates on the first step zeroes environment 0's counters, although its open episode has reward 1.0 and length 1 |
| EpisodeTracker.StoreTransitionHistories | rofunc/learning/rl/agents/base_agent.py:83-91 | with no finished episode the histories are unchanged; every reward-history entry is old or a finished environment's post-increment reward total, every timestep-history entry is old or a finished environment's post-increment length, and the newest entries of each are those values in environment order |
| EpisodeTracker.TrackData | rofunc/learning/rl/agents/base_agent.py:66-67 | the value is appended to its tag's list (created if new); every other tag and the rest of the state are unchanged |
| EpisodeTracker.TrackDataCommutes | rofunc/learning/rl/agents/base_agent.py:66-67 | tracking under two different tags gives the same state in either order |
| EpisodeTracker.CountersTrackOpenEpisode | rofunc/learning/rl/agents/base_agent.py:75-91 | from a new agent, with the intended reset, each environment's counters hold the reward and length of its episode in progress |
| PpoTrainer.PostInteraction | rofunc/learning/RofuncRL/trainers/ppo_trainer.py:30-39 | the rollout counter rises by one; rollouts 0 raises; otherwise the update runs iff the new counter is a multiple of `rollouts` and `step ≥ start_learning_steps`, update_times rises by one exactly then, and the base `post_interaction` comes last |
| PpoTrainer.UpdatesPerRollouts | rofunc/learning/RofuncRL/trainers/ppo_trainer.py:31-36 | after warm-up, n calls run one update per multiple of `rollouts` the counter passes |
| PpoTrainer.NoUpdateBeforeLearningStarts | rofunc/learning/RofuncRL/trainers/ppo_trainer.py:34-39 | before warm-up ends no call updates, and every call reaches the base trainer |
| ViewMotion.InitialMotionIds | rofunc/learning/RofuncRL/tasks/isaacgymenv/ase/humanoid_view_motion.py:65-69 | zero motions is an error; otherwise environment e gets motion e mod num_motions, an id in [0, num_motions) |
| ViewMotion.InitialIdsCoverMotions | rofunc/learning/RofuncRL/tasks/isaacgymenv/ase/humanoid_view_motion.py:65-69 | with at least as many environments as motions, every motion is assigned to some environment |
| ViewMotion.ResetEnvTensors | rofunc/learning/RofuncRL/tasks/isaacgymenv/ase/humanoid_view_motion.py:149-157 | listed environments get id (id + num_envs) mod num_motions and zeroed progress/reset/terminate; unlisted environments are unchanged; ids stay in range |
| ViewMotion.ResetCycle | rofunc/learning/RofuncRL/tasks/isaacgymenv/ase/humanoid_view_motion.py:150-153 | after k resets an environment's id is (initial + k·num_envs) mod num_motions |
| ViewMotion.ResetPeriod | rofunc/learning/RofuncRL/tasks/isaacgymenv/ase/humanoid_view_motion.py:150-153 | after num_motions resets an environment is back on its first motion |
| ViewMotion.ComputeViewMotionReset | rofunc/learning/RofuncRL/tasks/isaacgymenv/ase/humanoid_view_motion.py:162-169 | terminated is all zeros; reset is 1 iff progress·dt exceeds the motion length, else 0 |
| ViewMotion.ComputeReset | rofunc/learning/RofuncRL/tasks/isaacgymenv/ase/humanoid_view_motion.py:139-143 | the buffers get the flags for each environment's current motion length; ids and progress are unchanged |
| ViewMotion.FreshResetNotFlagged | rofunc/learning/RofuncRL/tasks/isaacgymenv/ase/humanoid_view_motion.py:149-169 | a just-reset environment whose new motion has non-negative length is not flagged again |
| ViewMotion.FlagMonotoneInProgress | rofunc/learning/RofuncRL/tasks/isaacgymenv/ase/humanoid_view_motion.py:165-168 | with dt ≥ 0 a flagged environment stays flagged as its progress grows |

## Left out

- Neural networks, optimisers and autograd.
  - This covers the policy, value and discriminator forward passes, `backward`, `step`, gradient-norm clipping and learning-rate schedulers.
  - Ratios, logits and value estimates are inputs.
- The discriminator's logit regularisation, gradient penalty and weight decay terms (ase_hrl_agent.py lines 309-331): they need network weights and gradients.
  - `LeastSquaresDiscriminatorLoss` therefore scales the bare least-squares loss.
- Transcendental and float-specific maths:
  - the `exp` of the log-ratio;
  - the logistic style reward;
  - the BCE discriminator loss;
  - advantage standardisation (needs `std`);
  - latent normalisation;
  - the running standard scalers.
- All arithmetic is on `real`, so float32 rounding is not modelled.
  - The `int32` timestep counters are unbounded integers.
- Memory, replay buffer and motion dataset internals (`add_samples`, `sample_all`, `sample`): only their call sites are visible.
  - `AseRollout.StoreTransition` returns the row that would be stored.
- The mini-batch loop of `update_net`: it depends on the sampling order.
  - The replay-buffer fallback at line 244 looks up a tensor name that is not registered, and the 11-way unpacking at lines 254-256 meets seven sampled tensors.
- The inputs of the estimation half of `update_net` (ase_hrl_agent.py lines 195-225) are not all set up in ase_hrl_agent.py, so lines 195-225 are modelled as if they were supplied:
  - the `"amp_states"` tensor read at line 196 is not created at lines 88-95 and not passed to `add_samples` at lines 185-187;
  - the `"next_values"` tensor read at line 212 is passed at line 187 but not created at lines 88-95;
  - `_least_square_discriminator`, `_task_reward_weight`, `_style_reward_weight` and `_discriminator_reward_scale` are not assigned in the file; they become parameters.
- Low-level controller loading, and `torch.save`/`torch.load` file I/O.
  - A checkpoint is an in-memory ordered dict, and a loaded file is either a dict or another object.
- The summary statistics `store_transition` appends to `tracking_data` (base_agent.py lines 93-108): max/min/mean logging.
  - `EpisodeTracker.StoreTransition` passes `trackingData` through; `EpisodeTracker.TrackData` models the append itself.
- The contents of a custom `rewards_shaper`: it is an arbitrary user function.
- The value network and the value preprocessor's inverse transform: value and next-value estimates are inputs.
- The simulator plumbing of the view-motion task (`pre_physics_step`, `_motion_sync`, gym tensor calls) and the motion library.
  - Motion lengths arrive as a function from motion id to length.
- Torch's negative-index wrap-around in `_reset_env_tensors`: environment ids come from the task's own reset buffer, so they are required to be in range.
- The neurokit `emg_process` call and the plotting functions of the EMG module.
  - Rectification takes the cleaned signal as input.
- The base trainer's `post_interaction`, the `update_net` body and the logger call: they are recorded as events in `PpoTrainer.PostInteraction`.
- The newline `print` adds after a log line.
- AseRollout.StoreTransition: ase_hrl_agent.py imports `BaseAgent` from `rofunc.learning.RofuncRL.agents.base_agent`, which is not part of this model; its bookkeeping is assumed to be that of rofunc/learning/rl/agents/base_agent.py, modelled in `EpisodeTracker`.
- Checkpoints.LoadInto: torch's `load_state_dict` defaults to `strict=True` and raises `RuntimeError` on missing or unexpected keys or a shape mismatch; this is not modelled, and every state of type `S` is taken to fit every module.
- Checkpoints.LoadCompletesIffLoadable: its "completes" direction assumes, as `LoadInto` does, that each state dict fits its module.
- Checkpoints.SaveThenLoadRestores: it assumes the saved states fit the target modules, as loading into a fresh instance of the same architecture does.
- Checkpoints.Load: modules are values in an ordered dict, so two names registered for one module object (aliases, both loads landing in the same object) cannot be expressed.
- ViewMotion.InitialMotionIds: `NoMotions` models the CPU integer remainder, which raises on a zero divisor; `_motion_ids` lives on `self.device`, usually a GPU, where torch does not raise and the ids it yields are not modelled.
- AseRollout.LeastSquaresStyleReward: the converse (reward 1 only at logit 1) is not stated; Z3 cannot use strict positivity of a square once it is bound to a name.
- AseRollout.ValueLoss: zero is stated for equal inputs only, not the converse, for the same reason.
- AseRollout.LeastSquaresDiscriminatorLoss: zero is stated for logits at their targets only, not the converse, for the same reason.

## Findings

| source | as written | input that shows it | evidently intended | confidence | as-written member | corrected member |
|---|---|---|---|---|---|---|
| rofunc/learning/rl/agents/base_agent.py:83-91 | for `[num_envs, 1]` flags `nonzero(as_tuple=False)` gives `(env, 0)` rows, and `cumulative[finished_episodes] = 0` reads both columns as row indices, so environment 0's counters restart whenever any environment finishes | a fresh agent, rewards `[[1.0], [2.0]]`, terminated `[[False], [True]]`, truncated all `False`: environment 0's counters become 0 instead of reward 1.0 and length 1 | only the finished environments' counters restart, as the comment at line 89 and the `[:, 0]` read at lines 86-87 indicate | medium, not executed (depends on the flags being shaped `[num_envs, 1]`, as the size-1 memory tensors suggest) | EpisodeTracker.StoreTransitionAsWritten, EpisodeTracker.AsWrittenLosesEnvZeroEpisode | EpisodeTracker.StoreTransition, EpisodeTracker.CountersTrackOpenEpisode |
