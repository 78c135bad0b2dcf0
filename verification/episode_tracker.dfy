/** Episode bookkeeping of the base RL agent: per-environment running reward
    and timestep counters that reset when an episode ends, the two 100-entry
    FIFO histories of finished-episode totals, and the tag-to-list tracking
    map. Rewards are `real`; the counters are unbounded integers. */
module EpisodeTracker {
  import opened Results

  /** `collections.deque(maxlen=100)`: the capacity of both histories. */
  const TrackCapacity: nat := 100

  /** The last `n` elements of `s` (all of `s` when it is shorter). */
  function LastN<T>(s: seq<T>, n: nat): (r: seq<T>)
    ensures |r| == if |s| <= n then |s| else n
    ensures r == s[|s| - |r|..]
  {
    if |s| <= n then s else s[|s| - n..]
  }

  /** `deque.append` on a bounded deque: a full deque first drops its oldest entry. */
  function Push<T>(d: seq<T>, x: T): (r: seq<T>)
    requires |d| <= TrackCapacity
    ensures |r| <= TrackCapacity
    ensures 0 < |r| <= |d| + 1 && r[|r| - 1] == x
    ensures r == LastN(d + [x], TrackCapacity)
  {
    if |d| < TrackCapacity then d + [x] else d[1..] + [x]
  }

  /** `deque.extend`, as Python performs it: one `append` per element, in order. */
  function PushAll<T>(d: seq<T>, xs: seq<T>): (r: seq<T>)
    requires |d| <= TrackCapacity
    ensures |r| <= TrackCapacity
    decreases |xs|
  {
    if |xs| == 0 then d else PushAll(Push(d, xs[0]), xs[1..])
  }

  /** `deque.extend` in closed form: the newest `TrackCapacity` entries of the
      old contents followed by the new ones. */
  function Extend<T>(d: seq<T>, xs: seq<T>): (r: seq<T>)
    ensures |r| <= TrackCapacity
    ensures |r| == if |d| + |xs| <= TrackCapacity then |d| + |xs| else TrackCapacity
    ensures |xs| <= TrackCapacity ==> r[|r| - |xs|..] == xs
    ensures |xs| == 0 && |d| <= TrackCapacity ==> r == d
  {
    LastN(d + xs, TrackCapacity)
  }

  /** Taking the newest entries twice is taking them once. */
  lemma LastNAbsorbs<T>(a: seq<T>, b: seq<T>, n: nat)
    ensures LastN(LastN(a, n) + b, n) == LastN(a + b, n)
  {
    var u := LastN(a, n);
    var l := LastN(u + b, n);
    var m := LastN(a + b, n);
    assert |l| == |m|;
    forall k | 0 <= k < |l|
      ensures l[k] == m[k]
    {
      var p := |u + b| - |l| + k;
      var q := |a + b| - |m| + k;
      assert l[k] == (u + b)[p];
      assert m[k] == (a + b)[q];
      if p < |u| {
        assert (u + b)[p] == u[p] == a[|a| - |u| + p];
        assert q == |a| - |u| + p;
      } else {
        assert (u + b)[p] == b[p - |u|];
        assert q - |a| == p - |u|;
      }
    }
  }

  /** The closed form agrees with Python's element-by-element extension. */
  lemma ExtendIsPushAll<T>(d: seq<T>, xs: seq<T>)
    requires |d| <= TrackCapacity
    ensures Extend(d, xs) == PushAll(d, xs)
  {
    PushAllIsLastN(d, xs);
  }

  /** Appending one element at a time keeps the newest `TrackCapacity`. */
  lemma {:induction false} PushAllIsLastN<T>(d: seq<T>, xs: seq<T>)
    requires |d| <= TrackCapacity
    ensures PushAll(d, xs) == LastN(d + xs, TrackCapacity)
    decreases |xs|
  {
    if |xs| > 0 {
      PushAllIsLastN(Push(d, xs[0]), xs[1..]);
      PushThenLastN(d, xs[0], xs[1..]);
      assert [xs[0]] + xs[1..] == xs;
    } else {
      assert d + xs == d;
    }
  }

  /** One bounded append followed by more appends keeps the same newest entries. */
  lemma PushThenLastN<T>(d: seq<T>, x: T, rest: seq<T>)
    requires |d| <= TrackCapacity
    ensures LastN(Push(d, x) + rest, TrackCapacity) == LastN(d + ([x] + rest), TrackCapacity)
  {
    LastNAbsorbs(d + [x], rest, TrackCapacity);
    assert d + [x] + rest == d + ([x] + rest);
  }

  /** `xs[mask]` for a boolean mask: the masked elements in index order. */
  function Select<T>(xs: seq<T>, mask: seq<bool>): (r: seq<T>)
    requires |mask| == |xs|
    ensures |r| <= |xs|
    decreases |xs|
  {
    if |xs| == 0 then [] else (if mask[0] then [xs[0]] else []) + Select(xs[1..], mask[1..])
  }

  /** An element is selected exactly when some masked position holds it. */
  lemma {:induction false} SelectMembership<T>(xs: seq<T>, mask: seq<bool>, x: T)
    requires |mask| == |xs|
    ensures x in Select(xs, mask) <==> exists i :: 0 <= i < |xs| && mask[i] && xs[i] == x
    decreases |xs|
  {
    if |xs| > 0 {
      SelectMembership(xs[1..], mask[1..], x);
      if x in Select(xs[1..], mask[1..]) {
        var i :| 0 <= i < |xs| - 1 && mask[1..][i] && xs[1..][i] == x;
        assert mask[i + 1] && xs[i + 1] == x;
      }
      if exists i :: 0 <= i < |xs| && mask[i] && xs[i] == x {
        var i :| 0 <= i < |xs| && mask[i] && xs[i] == x;
        if i > 0 {
          assert mask[1..][i - 1] && xs[1..][i - 1] == x;
        }
      }
    }
  }

  /** Per-environment running totals of the episode in progress. */
  datatype Counters = Counters(rewards: seq<real>, timesteps: seq<int>)

  /** The bookkeeping state of an agent. `counters` is `None` until the first
      transition is stored; `trackingData` is a `defaultdict(list)`, so a tag
      that is absent reads as the empty list. */
  datatype Tracker = Tracker(
    counters: Option<Counters>,
    trackRewards: seq<real>,
    trackTimesteps: seq<int>,
    trackingData: map<string, seq<real>>)
  {
    predicate Valid() {
      && |trackRewards| <= TrackCapacity
      && |trackTimesteps| <= TrackCapacity
      && (counters.Some? ==> |counters.value.rewards| == |counters.value.timesteps|)
    }
  }

  /** A freshly constructed agent. */
  function Initial(): (t: Tracker)
    ensures t.Valid()
    ensures t.counters.None? && t.trackRewards == [] && t.trackTimesteps == []
  {
    Tracker(None, [], [], map[])
  }

  /** The flags and rewards of one step line up with each other and with the
      counters (every tensor is shaped `[num_envs, 1]`). */
  predicate Fits(t: Tracker, rewards: seq<real>, terminated: seq<bool>, truncated: seq<bool>)
  {
    && |terminated| == |rewards|
    && |truncated| == |rewards|
    && (t.counters.Some? ==> |t.counters.value.rewards| == |rewards|)
  }

  /** The counters a step adds to: the existing ones, or zeros shaped like the
      rewards on the first call. */
  function Prior(t: Tracker, n: nat): (c: Counters)
    requires t.Valid()
    requires t.counters.Some? ==> |t.counters.value.rewards| == n
    ensures |c.rewards| == n && |c.timesteps| == n
    ensures t.counters.None? ==> forall i :: 0 <= i < n ==> c.rewards[i] == 0.0 && c.timesteps[i] == 0
  {
    match t.counters
    case Some(c) => c
    case None => Counters(seq(n, _ => 0.0), seq(n, _ => 0))
  }

  /** `terminated + truncated` on boolean tensors: an element-wise or. */
  function FinishedMask(terminated: seq<bool>, truncated: seq<bool>): (m: seq<bool>)
    requires |truncated| == |terminated|
    ensures |m| == |terminated|
    ensures forall i :: 0 <= i < |m| ==> (m[i] <==> terminated[i] || truncated[i])
  {
    seq(|terminated|, i requires 0 <= i < |terminated| => terminated[i] || truncated[i])
  }

  /** The running counters after adding one step, before any reset. */
  function Totals(c: Counters, rewards: seq<real>): (r: Counters)
    requires |c.rewards| == |rewards| && |c.timesteps| == |rewards|
    ensures |r.rewards| == |rewards| && |r.timesteps| == |rewards|
  {
    Counters(seq(|rewards|, i requires 0 <= i < |rewards| => c.rewards[i] + rewards[i]),
             seq(|rewards|, i requires 0 <= i < |rewards| => c.timesteps[i] + 1))
  }

  /** `BaseAgent.store_transition`'s bookkeeping. Every environment's counters
      advance by its reward and by one timestep; the totals of environments
      whose episode ended are appended to the histories in environment order
      (see `StoreTransitionHistories`), and then those counters restart from zero.
      This is the reset the code intends; for `[num_envs, 1]` flags the code
      also restarts environment 0 (`StoreTransitionAsWritten`). The summary
      statistics recorded afterwards are not modelled, so `trackingData` is
      passed through. */
  function StoreTransition(t: Tracker, rewards: seq<real>, terminated: seq<bool>, truncated: seq<bool>): (r: Tracker)
    requires t.Valid() && Fits(t, rewards, terminated, truncated)
    ensures r.Valid()
    ensures r.counters.Some? && |r.counters.value.rewards| == |rewards|
    ensures forall i :: 0 <= i < |rewards| ==>
      if terminated[i] || truncated[i] then
        r.counters.value.rewards[i] == 0.0 && r.counters.value.timesteps[i] == 0
      else
        && r.counters.value.rewards[i] == Prior(t, |rewards|).rewards[i] + rewards[i]
        && r.counters.value.timesteps[i] == Prior(t, |rewards|).timesteps[i] + 1
  {
    var n := |rewards|;
    var totals := Totals(Prior(t, n), rewards);
    var finished := FinishedMask(terminated, truncated);
    var reset := Counters(
      seq(n, i requires 0 <= i < n => if finished[i] then 0.0 else totals.rewards[i]),
      seq(n, i requires 0 <= i < n => if finished[i] then 0 else totals.timesteps[i]));
    Tracker(Some(reset),
            Extend(t.trackRewards, Select(totals.rewards, finished)),
            Extend(t.trackTimesteps, Select(totals.timesteps, finished)),
            t.trackingData)
  }

  /** Extending a history with the masked values: every entry afterwards is
      an old entry or a masked value, and the newest entries are the masked
      values in index order. */
  lemma ExtendWithSelected<T>(h: seq<T>, xs: seq<T>, mask: seq<bool>)
    requires |mask| == |xs|
    ensures forall x :: x in Extend(h, Select(xs, mask)) ==>
      x in h || exists i :: 0 <= i < |xs| && mask[i] && xs[i] == x
    ensures var sel := Select(xs, mask);
      |sel| <= TrackCapacity ==> Extend(h, sel)[|Extend(h, sel)| - |sel|..] == sel
  {
    var sel := Select(xs, mask);
    forall x | x in Extend(h, sel)
      ensures x in h || exists i :: 0 <= i < |xs| && mask[i] && xs[i] == x
    {
      assert x in h + sel;
      if x !in h {
        SelectMembership(xs, mask, x);
      }
    }
  }

  /** A reward history entry that was not there before is the post-increment total
      of some finished environment. */
  lemma RewardEntryOrigin(t: Tracker, rewards: seq<real>, terminated: seq<bool>, truncated: seq<bool>, x: real)
    requires t.Valid() && Fits(t, rewards, terminated, truncated)
    requires x in StoreTransition(t, rewards, terminated, truncated).trackRewards && x !in t.trackRewards
    ensures exists i :: 0 <= i < |rewards| && (terminated[i] || truncated[i]) && x == Prior(t, |rewards|).rewards[i] + rewards[i]
  {
    var n := |rewards|;
    var totals := Totals(Prior(t, n), rewards);
    var finished := FinishedMask(terminated, truncated);
    assert StoreTransition(t, rewards, terminated, truncated).trackRewards == Extend(t.trackRewards, Select(totals.rewards, finished));
    ExtendWithSelected(t.trackRewards, totals.rewards, finished);
    var i :| 0 <= i < n && finished[i] && totals.rewards[i] == x;
    assert totals.rewards[i] == Prior(t, n).rewards[i] + rewards[i];
  }

  /** The reward history after a stored step: old entries and the
      post-increment totals of finished environments, the newest being those
      totals in environment order. */
  lemma RewardHistory(t: Tracker, rewards: seq<real>, terminated: seq<bool>, truncated: seq<bool>)
    requires t.Valid() && Fits(t, rewards, terminated, truncated)
    ensures var h := StoreTransition(t, rewards, terminated, truncated).trackRewards;
      && (forall x :: x in h ==>
            (x in t.trackRewards ||
             exists i :: 0 <= i < |rewards| && (terminated[i] || truncated[i]) && x == Prior(t, |rewards|).rewards[i] + rewards[i]))
      && (var sel := Select(Totals(Prior(t, |rewards|), rewards).rewards, FinishedMask(terminated, truncated));
          |sel| <= TrackCapacity ==> h[|h| - |sel|..] == sel)
  {
    var n := |rewards|;
    var totals := Totals(Prior(t, n), rewards);
    var finished := FinishedMask(terminated, truncated);
    var h := StoreTransition(t, rewards, terminated, truncated).trackRewards;
    var sel := Select(totals.rewards, finished);
    assert h == Extend(t.trackRewards, sel);
    forall x | x in h && x !in t.trackRewards
      ensures exists i :: 0 <= i < n && (terminated[i] || truncated[i]) && x == Prior(t, n).rewards[i] + rewards[i]
    {
      RewardEntryOrigin(t, rewards, terminated, truncated, x);
    }
    assert |sel| <= TrackCapacity ==> h[|h| - |sel|..] == sel;
  }

  /** A timestep history entry that was not there before is the post-increment length
      of some finished environment. */
  lemma TimestepEntryOrigin(t: Tracker, rewards: seq<real>, terminated: seq<bool>, truncated: seq<bool>, x: int)
    requires t.Valid() && Fits(t, rewards, terminated, truncated)
    requires x in StoreTransition(t, rewards, terminated, truncated).trackTimesteps && x !in t.trackTimesteps
    ensures exists i :: 0 <= i < |rewards| && (terminated[i] || truncated[i]) && x == Prior(t, |rewards|).timesteps[i] + 1
  {
    var n := |rewards|;
    var totals := Totals(Prior(t, n), rewards);
    var finished := FinishedMask(terminated, truncated);
    assert StoreTransition(t, rewards, terminated, truncated).trackTimesteps == Extend(t.trackTimesteps, Select(totals.timesteps, finished));
    ExtendWithSelected(t.trackTimesteps, totals.timesteps, finished);
    var i :| 0 <= i < n && finished[i] && totals.timesteps[i] == x;
    assert totals.timesteps[i] == Prior(t, n).timesteps[i] + 1;
  }

  /** The timestep history after a stored step: old entries and the
      post-increment lengths of finished episodes, the newest being those
      lengths in environment order. */
  lemma TimestepHistory(t: Tracker, rewards: seq<real>, terminated: seq<bool>, truncated: seq<bool>)
    requires t.Valid() && Fits(t, rewards, terminated, truncated)
    ensures var h := StoreTransition(t, rewards, terminated, truncated).trackTimesteps;
      && (forall x :: x in h ==>
            (x in t.trackTimesteps ||
             exists i :: 0 <= i < |rewards| && (terminated[i] || truncated[i]) && x == Prior(t, |rewards|).timesteps[i] + 1))
      && (var sel := Select(Totals(Prior(t, |rewards|), rewards).timesteps, FinishedMask(terminated, truncated));
          |sel| <= TrackCapacity ==> h[|h| - |sel|..] == sel)
  {
    var n := |rewards|;
    var totals := Totals(Prior(t, n), rewards);
    var finished := FinishedMask(terminated, truncated);
    var h := StoreTransition(t, rewards, terminated, truncated).trackTimesteps;
    var sel := Select(totals.timesteps, finished);
    assert h == Extend(t.trackTimesteps, sel);
    forall x | x in h && x !in t.trackTimesteps
      ensures exists i :: 0 <= i < n && (terminated[i] || truncated[i]) && x == Prior(t, n).timesteps[i] + 1
    {
      TimestepEntryOrigin(t, rewards, terminated, truncated, x);
    }
    assert |sel| <= TrackCapacity ==> h[|h| - |sel|..] == sel;
  }

  /** What a stored step does to the histories: with no finished episode they
      are unchanged; otherwise every reward entry is an old entry or the
      post-increment total of a finished environment, every timestep entry is
      an old entry or a finished environment's post-increment length, and the
      newest entries of each are exactly those values in environment order. */
  lemma StoreTransitionHistories(t: Tracker, rewards: seq<real>, terminated: seq<bool>, truncated: seq<bool>)
    requires t.Valid() && Fits(t, rewards, terminated, truncated)
    ensures var r := StoreTransition(t, rewards, terminated, truncated);
      && ((forall i :: 0 <= i < |rewards| ==> !terminated[i] && !truncated[i]) ==>
            r.trackRewards == t.trackRewards && r.trackTimesteps == t.trackTimesteps)
      && (forall x :: x in r.trackRewards ==>
            (x in t.trackRewards ||
             exists i :: 0 <= i < |rewards| && (terminated[i] || truncated[i]) && x == Prior(t, |rewards|).rewards[i] + rewards[i]))
      && (forall x :: x in r.trackTimesteps ==>
            (x in t.trackTimesteps ||
             exists i :: 0 <= i < |rewards| && (terminated[i] || truncated[i]) && x == Prior(t, |rewards|).timesteps[i] + 1))
      && (var sel := Select(Totals(Prior(t, |rewards|), rewards).rewards, FinishedMask(terminated, truncated));
          |sel| <= TrackCapacity ==> r.trackRewards[|r.trackRewards| - |sel|..] == sel)
      && (var sel := Select(Totals(Prior(t, |rewards|), rewards).timesteps, FinishedMask(terminated, truncated));
          |sel| <= TrackCapacity ==> r.trackTimesteps[|r.trackTimesteps| - |sel|..] == sel)
  {
    var n := |rewards|;
    var totals := Totals(Prior(t, n), rewards);
    var finished := FinishedMask(terminated, truncated);
    if forall i :: 0 <= i < n ==> !terminated[i] && !truncated[i] {
      NothingSelected(totals.rewards, finished);
      NothingSelected(totals.timesteps, finished);
    }
    RewardHistory(t, rewards, terminated, truncated);
    TimestepHistory(t, rewards, terminated, truncated);
  }

  /** An all-false mask selects nothing. */
  lemma {:induction false} NothingSelected<T>(xs: seq<T>, mask: seq<bool>)
    requires |mask| == |xs|
    requires forall i :: 0 <= i < |mask| ==> !mask[i]
    ensures Select(xs, mask) == []
    decreases |xs|
  {
    if |xs| > 0 {
      NothingSelected(xs[1..], mask[1..]);
    }
  }

  /** `track_data`: appends `value` to `tag`'s list, creating the list when the
      tag is new; every other tag and the rest of the state are untouched. */
  function TrackData(t: Tracker, tag: string, value: real): (r: Tracker)
    ensures r.trackingData.Keys == t.trackingData.Keys + {tag}
    ensures tag in t.trackingData ==> r.trackingData[tag] == t.trackingData[tag] + [value]
    ensures tag !in t.trackingData ==> r.trackingData[tag] == [value]
    ensures forall other :: other in t.trackingData && other != tag ==> r.trackingData[other] == t.trackingData[other]
    ensures r.counters == t.counters && r.trackRewards == t.trackRewards && r.trackTimesteps == t.trackTimesteps
  {
    var current := if tag in t.trackingData then t.trackingData[tag] else [];
    t.(trackingData := t.trackingData[tag := current + [value]])
  }

  /** Tracking values under two different tags gives the same state in either order. */
  lemma TrackDataCommutes(t: Tracker, a: string, va: real, b: string, vb: real)
    requires a != b
    ensures TrackData(TrackData(t, a, va), b, vb) == TrackData(TrackData(t, b, vb), a, va)
  {
    var l := TrackData(TrackData(t, a, va), b, vb).trackingData;
    var r := TrackData(TrackData(t, b, vb), a, va).trackingData;
    assert l.Keys == r.Keys;
    assert forall k :: k in l ==> l[k] == r[k];
  }

  /** One step of the vectorised environment, as the agent sees it. */
  datatype Step = Step(rewards: seq<real>, terminated: seq<bool>, truncated: seq<bool>)

  /** Every step covers the same `n` environments. */
  predicate StepsFit(steps: seq<Step>, n: nat)
  {
    forall k :: 0 <= k < |steps| ==>
      |steps[k].rewards| == n && |steps[k].terminated| == n && |steps[k].truncated| == n
  }

  /** The bookkeeping after storing every step of `steps`, oldest first. */
  function Run(t: Tracker, steps: seq<Step>, n: nat): (r: Tracker)
    requires t.Valid() && (t.counters.Some? ==> |t.counters.value.rewards| == n)
    requires StepsFit(steps, n)
    ensures r.Valid() && (r.counters.Some? ==> |r.counters.value.rewards| == n)
    ensures |steps| > 0 ==> r.counters.Some?
    decreases |steps|
  {
    if |steps| == 0 then t
    else
      var last := steps[|steps| - 1];
      StoreTransition(Run(t, steps[..|steps| - 1], n), last.rewards, last.terminated, last.truncated)
  }

  /** Reward environment `i` has collected since its last episode ended: the
      independent reference the running counter must equal. */
  function EpisodeReward(steps: seq<Step>, i: nat): real
    requires forall k :: 0 <= k < |steps| ==> i < |steps[k].rewards| && i < |steps[k].terminated| && i < |steps[k].truncated|
    decreases |steps|
  {
    if |steps| == 0 then 0.0
    else
      var last := steps[|steps| - 1];
      if last.terminated[i] || last.truncated[i] then 0.0
      else EpisodeReward(steps[..|steps| - 1], i) + last.rewards[i]
  }

  /** Timesteps environment `i` has spent in its current episode. */
  function EpisodeLength(steps: seq<Step>, i: nat): int
    requires forall k :: 0 <= k < |steps| ==> i < |steps[k].terminated| && i < |steps[k].truncated|
    decreases |steps|
  {
    if |steps| == 0 then 0
    else
      var last := steps[|steps| - 1];
      if last.terminated[i] || last.truncated[i] then 0
      else EpisodeLength(steps[..|steps| - 1], i) + 1
  }

  /** From a fresh agent, each environment's counters always hold the reward
      and length of its episode in progress. */
  lemma {:induction false} CountersTrackOpenEpisode(steps: seq<Step>, n: nat, i: nat)
    requires StepsFit(steps, n) && i < n && |steps| > 0
    ensures Run(Initial(), steps, n).counters.value.rewards[i] == EpisodeReward(steps, i)
    ensures Run(Initial(), steps, n).counters.value.timesteps[i] == EpisodeLength(steps, i)
    decreases |steps|
  {
    var prefix := steps[..|steps| - 1];
    var last := steps[|steps| - 1];
    assert StepsFit(prefix, n);
    var before := Run(Initial(), prefix, n);
    var prior := Prior(before, n);
    assert prior.rewards[i] == EpisodeReward(prefix, i) && prior.timesteps[i] == EpisodeLength(prefix, i) by {
      if |prefix| > 0 {
        CountersTrackOpenEpisode(prefix, n, i);
      } else {
        assert before == Initial();
      }
    }
    assert Run(Initial(), steps, n) == StoreTransition(before, last.rewards, last.terminated, last.truncated);
    CounterStep(before, last, n, i);
    assert EpisodeReward(steps, i) == if last.terminated[i] || last.truncated[i] then 0.0 else EpisodeReward(prefix, i) + last.rewards[i];
    assert EpisodeLength(steps, i) == if last.terminated[i] || last.truncated[i] then 0 else EpisodeLength(prefix, i) + 1;
  }

  /** One environment's counters across one stored step. */
  lemma CounterStep(t: Tracker, s: Step, n: nat, i: nat)
    requires t.Valid() && (t.counters.Some? ==> |t.counters.value.rewards| == n)
    requires |s.rewards| == n && |s.terminated| == n && |s.truncated| == n && i < n
    ensures var c := StoreTransition(t, s.rewards, s.terminated, s.truncated).counters.value;
      && c.rewards[i] == (if s.terminated[i] || s.truncated[i] then 0.0 else Prior(t, n).rewards[i] + s.rewards[i])
      && c.timesteps[i] == (if s.terminated[i] || s.truncated[i] then 0 else Prior(t, n).timesteps[i] + 1)
  {
  }

  // ---------------------------------------------------------------------
  // The reset as written for `[num_envs, 1]` flags

  /** The entries of `(terminated + truncated).nonzero(as_tuple=False)` row by
      row. For flags shaped `[num_envs, 1]` each finished environment `i`
      gives the row `(i, 0)`, and indexing the counters with that tensor reads
      both columns as row indices. */
  function NonzeroEntries(finished: seq<bool>): (r: seq<int>)
    ensures forall x :: x in r <==> exists i :: 0 <= i < |finished| && finished[i] && (x == i || x == 0)
    decreases |finished|
  {
    if |finished| == 0 then []
    else
      var n := |finished| - 1;
      var rest := NonzeroEntries(finished[..n]);
      assert forall i :: 0 <= i < n ==> finished[..n][i] == finished[i];
      rest + (if finished[n] then [n, 0] else [])
  }

  /** `store_transition` exactly as written for `[num_envs, 1]` flags:
      `cumulative[finished_episodes] = 0` zeroes the rows named by both columns
      of the `nonzero` result, so environment 0 restarts whenever any
      environment finishes. The histories are read through `[:, 0]` and come
      out as in `StoreTransition`. */
  function StoreTransitionAsWritten(t: Tracker, rewards: seq<real>, terminated: seq<bool>, truncated: seq<bool>): (r: Tracker)
    requires t.Valid() && Fits(t, rewards, terminated, truncated)
    ensures r.Valid()
    ensures var fixed := StoreTransition(t, rewards, terminated, truncated);
      r.trackRewards == fixed.trackRewards && r.trackTimesteps == fixed.trackTimesteps && r.trackingData == fixed.trackingData
    ensures r.counters.Some? && |r.counters.value.rewards| == |rewards|
    ensures forall i :: 0 <= i < |rewards| ==>
      if terminated[i] || truncated[i] || (i == 0 && exists j :: 0 <= j < |rewards| && (terminated[j] || truncated[j])) then
        r.counters.value.rewards[i] == 0.0 && r.counters.value.timesteps[i] == 0
      else
        && r.counters.value.rewards[i] == Prior(t, |rewards|).rewards[i] + rewards[i]
        && r.counters.value.timesteps[i] == Prior(t, |rewards|).timesteps[i] + 1
  {
    var n := |rewards|;
    var totals := Totals(Prior(t, n), rewards);
    var finished := FinishedMask(terminated, truncated);
    var rows := NonzeroEntries(finished);
    var reset := Counters(
      seq(n, i requires 0 <= i < n => if i in rows then 0.0 else totals.rewards[i]),
      seq(n, i requires 0 <= i < n => if i in rows then 0 else totals.timesteps[i]));
    Tracker(Some(reset),
            Extend(t.trackRewards, Select(totals.rewards, finished)),
            Extend(t.trackTimesteps, Select(totals.timesteps, finished)),
            t.trackingData)
  }

  /** The counterexample's only step: two environments, the second
      terminating with reward 2.0 while the first collects 1.0. */
  const LoneFinish: Step := Step([1.0, 2.0], [false, true], [false, false])

  /** The first step of the counterexample as written: both counters restart. */
  lemma AsWrittenFirstStep()
    ensures StoreTransitionAsWritten(Initial(), LoneFinish.rewards, LoneFinish.terminated, LoneFinish.truncated).counters.value
         == Counters([0.0, 0.0], [0, 0])
  {
    var s := LoneFinish;
    var r := StoreTransitionAsWritten(Initial(), s.rewards, s.terminated, s.truncated);
    var w := r.counters.value;
    assert |w.rewards| == 2 && |w.timesteps| == 2;
    assert s.terminated[1];
    assert w.rewards[1] == 0.0 && w.timesteps[1] == 0;
    assert exists j :: 0 <= j < |s.rewards| && (s.terminated[j] || s.truncated[j]);
    assert w.rewards[0] == 0.0 && w.timesteps[0] == 0;
    assert w.rewards == [0.0, 0.0] && w.timesteps == [0, 0];
  }

  /** Environment 0's open episode in the counterexample: reward 1.0, length 1. */
  lemma LoneFinishEnvZeroEpisode()
    ensures EpisodeReward([LoneFinish], 0) == 1.0 && EpisodeLength([LoneFinish], 0) == 1
  {
    assert [LoneFinish][..0] == [];
  }

  /** As written, environment 0 loses the reward 1.0 and length 1 of its open
      episode when environment 1 finishes; `CountersTrackOpenEpisode` shows
      that `StoreTransition` keeps them. */
  lemma AsWrittenLosesEnvZeroEpisode()
    ensures StoreTransitionAsWritten(Initial(), LoneFinish.rewards, LoneFinish.terminated, LoneFinish.truncated).counters.value.rewards[0] == 0.0
    ensures StoreTransitionAsWritten(Initial(), LoneFinish.rewards, LoneFinish.terminated, LoneFinish.truncated).counters.value.timesteps[0] == 0
    ensures EpisodeReward([LoneFinish], 0) == 1.0 && EpisodeLength([LoneFinish], 0) == 1
  {
    AsWrittenFirstStep();
    LoneFinishEnvZeroEpisode();
  }
}
