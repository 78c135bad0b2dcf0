/** The motion-viewing humanoid task: every environment replays one reference
    motion, environment `e` starting on motion `e mod num_motions`; an
    environment is flagged for reset once its replay time passes the motion's
    length, and on reset it moves on by `num_envs` motions and clears its
    progress, reset and terminate buffers. Nothing ever terminates.

    Motion data, the simulator and the motion library's lookups are outside
    the model: motion lengths arrive as a function from motion id to length. */
module ViewMotion {
  import opened Results
  import opened Numeric

  datatype ViewMotionError =
    | NoMotions  // an integer remainder by `num_motions == 0` raises (on a CPU tensor)

  /** `torch.remainder(torch.arange(num_envs), num_motions)`. */
  function InitialMotionIds(numEnvs: nat, numMotions: nat): (r: Result<seq<int>, ViewMotionError>)
    ensures r.Err? <==> numMotions == 0
    ensures r.Ok? ==> |r.value| == numEnvs && forall e :: 0 <= e < numEnvs ==> 0 <= r.value[e] < numMotions
    ensures r.Ok? ==> forall e :: 0 <= e < numEnvs ==> r.value[e] == e % numMotions
  {
    if numMotions == 0 then Err(NoMotions)
    else Ok(seq(numEnvs, e requires 0 <= e < numEnvs => e % numMotions))
  }

  /** With at least as many environments as motions, every motion is being
      replayed by some environment from the start. */
  lemma InitialIdsCoverMotions(numEnvs: nat, numMotions: nat)
    requires 0 < numMotions <= numEnvs
    ensures InitialMotionIds(numEnvs, numMotions).Ok?
    ensures forall m :: 0 <= m < numMotions ==> m in InitialMotionIds(numEnvs, numMotions).value
  {
    var ids := InitialMotionIds(numEnvs, numMotions).value;
    forall m | 0 <= m < numMotions
      ensures m in ids
    {
      DivModUnique(m, 0, m, numMotions);
      assert ids[m] == m;
    }
  }

  /** The task's per-environment state. */
  datatype Task = Task(numEnvs: nat, numMotions: nat, motionIds: seq<int>,
                       progress: seq<int>, resetBuf: seq<int>, terminateBuf: seq<int>)
  {
    predicate Valid() {
      && numMotions > 0
      && |motionIds| == numEnvs && |progress| == numEnvs
      && |resetBuf| == numEnvs && |terminateBuf| == numEnvs
      && forall e :: 0 <= e < numEnvs ==> 0 <= motionIds[e] < numMotions
    }
  }

  /** The environment ids a reset receives come from the task itself. */
  predicate EnvIdsInRange(t: Task, envIds: seq<int>) {
    forall k :: 0 <= k < |envIds| ==> 0 <= envIds[k] < t.numEnvs
  }

  /** `_reset_env_tensors`: each listed environment advances its motion id by
      `num_envs` (mod `num_motions`) and has its progress, reset and terminate
      buffers zeroed; listing an environment twice resets it once. */
  function ResetEnvTensors(t: Task, envIds: seq<int>): (r: Task)
    requires t.Valid() && EnvIdsInRange(t, envIds)
    ensures r.Valid() && r.numEnvs == t.numEnvs && r.numMotions == t.numMotions
    ensures forall e :: 0 <= e < t.numEnvs && e in envIds ==>
      && r.motionIds[e] == (t.motionIds[e] + t.numEnvs) % t.numMotions
      && r.progress[e] == 0 && r.resetBuf[e] == 0 && r.terminateBuf[e] == 0
    ensures forall e :: 0 <= e < t.numEnvs && e !in envIds ==>
      && r.motionIds[e] == t.motionIds[e]
      && r.progress[e] == t.progress[e] && r.resetBuf[e] == t.resetBuf[e] && r.terminateBuf[e] == t.terminateBuf[e]
  {
    var n := t.numEnvs;
    t.(motionIds := seq(n, e requires 0 <= e < n => if e in envIds then (t.motionIds[e] + n) % t.numMotions else t.motionIds[e]),
       progress := seq(n, e requires 0 <= e < n => if e in envIds then 0 else t.progress[e]),
       resetBuf := seq(n, e requires 0 <= e < n => if e in envIds then 0 else t.resetBuf[e]),
       terminateBuf := seq(n, e requires 0 <= e < n => if e in envIds then 0 else t.terminateBuf[e]))
  }

  /** `k` successive resets of environment `e` alone. */
  function ResetRepeatedly(t: Task, e: nat, k: nat): (r: Task)
    requires t.Valid() && e < t.numEnvs
    ensures r.Valid() && r.numEnvs == t.numEnvs && r.numMotions == t.numMotions
  {
    if k == 0 then t else ResetEnvTensors(ResetRepeatedly(t, e, k - 1), [e])
  }

  /** `((a mod m) + b) mod m == (a + b) mod m`. */
  lemma ModAddLeft(a: int, b: int, m: int)
    requires m > 0
    ensures ((a % m) + b) % m == (a + b) % m
  {
    var q, r := a / m, a % m;
    var p, s := (r + b) / m, (r + b) % m;
    assert a == q * m + r;
    assert r + b == p * m + s;
    assert a + b == (q + p) * m + s by {
      assert q * m + p * m == (q + p) * m;
    }
    DivModUnique(a + b, q + p, s, m);
  }

  /** After `k` resets an environment replays motion
      `(initial + k * num_envs) mod num_motions`. */
  lemma {:induction false} ResetCycle(t: Task, e: nat, k: nat)
    requires t.Valid() && e < t.numEnvs
    ensures ResetRepeatedly(t, e, k).motionIds[e] == (t.motionIds[e] + k * t.numEnvs) % t.numMotions
  {
    if k == 0 {
      DivModUnique(t.motionIds[e], 0, t.motionIds[e], t.numMotions);
    } else {
      ResetCycle(t, e, k - 1);
      var prev := ResetRepeatedly(t, e, k - 1);
      assert e in [e];
      assert ResetRepeatedly(t, e, k).motionIds[e] == (prev.motionIds[e] + t.numEnvs) % t.numMotions;
      ModAddLeft(t.motionIds[e] + (k - 1) * t.numEnvs, t.numEnvs, t.numMotions);
      assert t.motionIds[e] + (k - 1) * t.numEnvs + t.numEnvs == t.motionIds[e] + k * t.numEnvs;
    }
  }

  /** After `num_motions` resets an environment is back on its first motion. */
  lemma ResetPeriod(t: Task, e: nat)
    requires t.Valid() && e < t.numEnvs
    ensures ResetRepeatedly(t, e, t.numMotions).motionIds[e] == t.motionIds[e]
  {
    ResetCycle(t, e, t.numMotions);
    assert t.numMotions * t.numEnvs == t.numEnvs * t.numMotions;
    DivModUnique(t.motionIds[e] + t.numMotions * t.numEnvs, t.numEnvs, t.motionIds[e], t.numMotions);
  }

  /** `compute_view_motion_reset`: an environment is flagged for reset (1)
      exactly when its replay time `progress * dt` exceeds its motion's
      length, and nothing is ever flagged as terminated. */
  function ComputeViewMotionReset(motionLengths: seq<real>, progress: seq<int>, dt: real): (r: (seq<int>, seq<int>))
    requires |progress| == |motionLengths|
    ensures |r.0| == |progress| && |r.1| == |progress|
    ensures forall e :: 0 <= e < |progress| ==> r.1[e] == 0
    ensures forall e :: 0 <= e < |progress| ==> (r.0[e] == 1 <==> progress[e] as real * dt > motionLengths[e])
    ensures forall e :: 0 <= e < |progress| ==> r.0[e] == 0 || r.0[e] == 1
  {
    var n := |progress|;
    var terminated := seq(n, _ => 0);
    var reset := seq(n, e requires 0 <= e < n => if progress[e] as real * dt > motionLengths[e] then 1 else terminated[e]);
    (reset, terminated)
  }

  /** `_compute_reset`: the lengths of each environment's current motion
      decide its reset flag; the task's reset and terminate buffers are
      overwritten and nothing else changes. */
  function ComputeReset(t: Task, motionLength: int -> real, dt: real): (r: Task)
    requires t.Valid()
    ensures r.Valid() && r.motionIds == t.motionIds && r.progress == t.progress
    ensures r.numEnvs == t.numEnvs && r.numMotions == t.numMotions
    ensures forall e :: 0 <= e < t.numEnvs ==>
      (r.resetBuf[e] == 1 <==> t.progress[e] as real * dt > motionLength(t.motionIds[e]))
      && r.terminateBuf[e] == 0
  {
    var lengths := seq(t.numEnvs, e requires 0 <= e < t.numEnvs => motionLength(t.motionIds[e]));
    var flags := ComputeViewMotionReset(lengths, t.progress, dt);
    t.(resetBuf := flags.0, terminateBuf := flags.1)
  }

  /** An environment that has just been reset (progress zero) is not flagged
      again as long as its new motion has a non-negative length. */
  lemma FreshResetNotFlagged(t: Task, envIds: seq<int>, motionLength: int -> real, dt: real, e: nat)
    requires t.Valid() && EnvIdsInRange(t, envIds) && e < t.numEnvs && e in envIds
    requires motionLength((t.motionIds[e] + t.numEnvs) % t.numMotions) >= 0.0
    ensures ComputeReset(ResetEnvTensors(t, envIds), motionLength, dt).resetBuf[e] == 0
  {
  }

  /** With a non-negative time step, once an environment is flagged it stays
      flagged as its progress grows. */
  lemma FlagMonotoneInProgress(motionLengths: seq<real>, progress: seq<int>, later: seq<int>, dt: real, e: nat)
    requires |progress| == |motionLengths| && |later| == |progress| && e < |progress|
    requires dt >= 0.0 && progress[e] <= later[e]
    requires ComputeViewMotionReset(motionLengths, progress, dt).0[e] == 1
    ensures ComputeViewMotionReset(motionLengths, later, dt).0[e] == 1
  {
    var p, q := progress[e] as real, later[e] as real;
    assert q * dt - p * dt == (q - p) * dt;
    if dt > 0.0 && q > p {
      assert (q - p) * dt > 0.0;
    }
  }
}
