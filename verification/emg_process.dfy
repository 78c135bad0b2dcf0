/** The sequence steps of EMG processing: keeping every `k`-th sample of the
    raw recording (the first sample of each complete window of `k`) and
    rectifying the cleaned signal. The cleaning and MVC columns come from an
    external signal-processing library and are not modelled. */
module EmgProcess {
  import opened Numeric
  import opened Results

  datatype EmgError =
    | ZeroStride  // `range(0, n - k + 1, k)` with `k == 0` raises `ValueError`

  /** The samples `range(0, len(data) - k + 1, k)` visits: for `k > 0`, the
      start of every complete window; for a negative `k` the range counts
      down from 0 towards a positive bound and is empty. */
  method Downsample<T>(data: seq<T>, k: int) returns (r: Result<seq<T>, EmgError>)
    ensures r.Err? <==> k == 0
    ensures k < 0 ==> r == Ok([])
    ensures k > 0 ==> r.Ok? && |r.value| == |data| / k
    ensures k > 0 ==> forall j :: 0 <= j < |r.value| ==> j * k < |data| && r.value[j] == data[j * k]
    ensures k > 0 ==> forall i :: 0 <= i && i + k <= |data| && i % k == 0 ==> i / k < |r.value| && r.value[i / k] == data[i]
  {
    if k == 0 {
      return Err(ZeroStride);
    }
    var filtered: seq<T> := [];
    if k < 0 {
      return Ok(filtered);
    }
    var i := 0;
    while i < |data| - k + 1
      invariant i == |filtered| * k
      invariant |filtered| * k <= |data|
      invariant forall j :: 0 <= j < |filtered| ==> j * k < |data| && filtered[j] == data[j * k]
      decreases |data| - i
    {
      assert |filtered| * k + k == (|filtered| + 1) * k;
      filtered := filtered + [data[i]];
      i := i + k;
    }
    DivModUnique(|data|, |filtered|, |data| - |filtered| * k, k);
    forall i | 0 <= i && i + k <= |data| && i % k == 0
      ensures i / k < |filtered| && filtered[i / k] == data[i]
    {
      WindowStartIndex(|data|, k, i);
    }
    return Ok(filtered);
  }

  /** Element-wise absolute value. */
  function Rectified(s: seq<real>): (r: seq<real>)
    ensures |r| == |s|
    ensures forall i :: 0 <= i < |s| ==> r[i] >= 0.0 && (r[i] == s[i] || r[i] == -s[i])
  {
    seq(|s|, i requires 0 <= i < |s| => Abs(s[i]))
  }

  /** The rectification loop: a zero-filled list of the signal's length, each
      entry overwritten by the absolute value of the matching sample. */
  method Rectify(clean: seq<real>) returns (rectified: seq<real>)
    ensures |rectified| == |clean|
    ensures forall i :: 0 <= i < |clean| ==> rectified[i] >= 0.0 && (rectified[i] == clean[i] || rectified[i] == -clean[i])
    ensures rectified == Rectified(clean)
  {
    rectified := seq(|clean|, _ => 0.0);
    var i := 0;
    while i < |clean|
      invariant 0 <= i <= |clean| && |rectified| == |clean|
      invariant forall j :: 0 <= j < i ==> rectified[j] == Abs(clean[j])
    {
      rectified := rectified[i := Abs(clean[i])];
      i := i + 1;
    }
  }

  /** Rectifying twice is rectifying once, and a non-negative signal is
      already rectified. */
  lemma RectifiedIdempotent(s: seq<real>)
    ensures Rectified(Rectified(s)) == Rectified(s)
    ensures (forall i :: 0 <= i < |s| ==> s[i] >= 0.0) ==> Rectified(s) == s
  {
  }

  /** A multiple `i` of `k` followed by a full window is the `i / k`-th
      window start of a signal of length `n`. */
  lemma WindowStartIndex(n: int, k: int, i: int)
    requires k > 0 && 0 <= i && i + k <= n && i % k == 0
    ensures (i / k) * k == i && i / k < n / k
  {
    DivModUnique(i, i / k, 0, k);
    DivModUnique(n, n / k, n % k, k);
    if i / k >= n / k {
      MultipleAtLeast(i / k - n / k + 1, k);
    }
  }
}
