/**
 * The firmware's integer moving-average filter: a window of WindowSize
 * int32 slots, a running `sum`, a wrapping write `index` and a `count` that
 * saturates at WindowSize.  The ghost field `Recent` holds the samples the
 * window currently covers, oldest first: the last min(n, WindowSize) of the
 * n samples filtered since the last reset.
 */
module MovingAverageFilter {
  import opened CTypes
  import opened Fifo

  const WindowSize: nat := 8
  /** log2(WindowSize). */
  const WindowShift: nat := 3

  /**
   * Samples are bounded so that the int32 running sum of a full window can
   * never overflow: WindowSize * SampleLimit == 2^31.
   */
  const SampleLimit: int := 0x1000_0000

  predicate InSampleRange(x: int) {
    -SampleLimit <= x < SampleLimit
  }

  /** Shifting right by WindowShift divides by WindowSize, rounding toward minus infinity. */
  lemma ShiftDividesByWindowSize(x: int)
    ensures ShiftRight(x, WindowShift) == x / WindowSize
  {
    ShiftIsFloorDiv(x, WindowShift);
  }

  /** The next write position as the source computes it: `i & (WindowSize - 1)`. */
  function Wrap(i: nat): (r: nat)
    ensures r == i % WindowSize && r < WindowSize
  {
    MaskIsMod(i, WindowShift);
    BitAnd(i, WindowSize - 1)
  }

  /**
   * Sum of integer samples.  The ring buffer has its own sum over reals:
   * the two sources sum different element types (float and int32_t).
   */
  function Sum(s: seq<int>): (r: int)
    ensures s == [] ==> r == 0
  {
    if s == [] then 0 else Sum(s[..|s| - 1]) + s[|s| - 1]
  }

  lemma {:induction false} SumAppend(a: seq<int>, b: seq<int>)
    ensures Sum(a + b) == Sum(a) + Sum(b)
    decreases |b|
  {
    if b == [] {
      assert a + b == a;
    } else {
      var b' := b[..|b| - 1];
      assert (a + b)[..|a + b| - 1] == a + b';
      SumAppend(a, b');
    }
  }

  /** Overwriting one element changes the sum by the difference: what the running sum relies on. */
  lemma SumUpdate(s: seq<int>, i: nat, x: int)
    requires i < |s|
    ensures Sum(s[i := x]) == Sum(s) - s[i] + x
  {
    assert s == s[..i] + [s[i]] + s[i + 1..];
    assert s[i := x] == s[..i] + [x] + s[i + 1..];
    SumAppend(s[..i] + [s[i]], s[i + 1..]);
    SumAppend(s[..i], [s[i]]);
    SumAppend(s[..i] + [x], s[i + 1..]);
    SumAppend(s[..i], [x]);
  }

  lemma {:induction false} SumBounds(s: seq<int>, lo: int, hi: int)
    requires forall i :: 0 <= i < |s| ==> lo <= s[i] <= hi
    ensures |s| * lo <= Sum(s) <= |s| * hi
    decreases |s|
  {
    if s != [] {
      var n := |s| - 1;
      var init := s[..n];
      assert forall i :: 0 <= i < |init| ==> init[i] == s[i];
      SumBounds(init, lo, hi);
      assert Sum(s) == Sum(init) + s[n];
      MulSucc(n, lo);
      MulSucc(n, hi);
    }
  }

  lemma MulSucc(n: int, x: int)
    ensures (n + 1) * x == n * x + x
  {
  }

  lemma MulCancel(a: int, b: int, n: int)
    requires n > 0 && a * n < b * n
    ensures a < b
  {
    assert (b - a) * n == b * n - a * n;
  }

  /**
   * The value the filter reports for the samples `w` its window covers:
   * 0 for no samples, the mean rounded toward minus infinity for a full
   * window (the arithmetic shift) and the mean truncated toward zero during
   * start-up (C division by the count).
   */
  function Average(w: seq<int>): (r: int)
    requires |w| <= WindowSize
    ensures |w| == 0 ==> r == 0
    ensures |w| == WindowSize ==> r * WindowSize <= Sum(w) < r * WindowSize + WindowSize
    ensures 0 < |w| < WindowSize && Sum(w) >= 0 ==> r * |w| <= Sum(w) < r * |w| + |w|
    ensures 0 < |w| < WindowSize && Sum(w) < 0 ==> r * |w| - |w| < Sum(w) <= r * |w|
  {
    if |w| == 0 then 0
    else if |w| == WindowSize then
      ShiftDividesByWindowSize(Sum(w));
      ShiftRight(Sum(w), WindowShift)
    else CDiv(Sum(w), |w|)
  }

  /** A floor mean of WindowSize values lies between their bounds. */
  lemma FloorMeanWithin(s: int, r: int, lo: int, hi: int)
    requires WindowSize * lo <= s <= WindowSize * hi
    requires r * WindowSize <= s < r * WindowSize + WindowSize
    ensures lo <= r <= hi
  {
  }

  /** A truncated mean of n values with a non-negative sum lies between their bounds. */
  lemma TruncMeanWithinNonNeg(n: int, s: int, r: int, lo: int, hi: int)
    requires n > 0 && n * lo <= s <= n * hi && s >= 0
    requires r * n <= s < r * n + n
    ensures lo <= r <= hi
  {
    assert r * n < (hi + 1) * n;
    MulCancel(r, hi + 1, n);
    assert lo * n < (r + 1) * n;
    MulCancel(lo, r + 1, n);
  }

  /** A truncated mean of n values with a negative sum lies between their bounds. */
  lemma TruncMeanWithinNeg(n: int, s: int, r: int, lo: int, hi: int)
    requires n > 0 && n * lo <= s <= n * hi && s < 0
    requires r * n - n < s <= r * n
    ensures lo <= r <= hi
  {
    assert (r - 1) * n < hi * n;
    MulCancel(r - 1, hi, n);
    assert (lo - 1) * n < r * n;
    MulCancel(lo - 1, r, n);
  }

  /** An average lies between the smallest and the largest sample it covers. */
  lemma AverageWithin(w: seq<int>, lo: int, hi: int)
    requires 0 < |w| <= WindowSize
    requires forall i :: 0 <= i < |w| ==> lo <= w[i] <= hi
    ensures lo <= Average(w) <= hi
  {
    var n, s, r := |w|, Sum(w), Average(w);
    SumBounds(w, lo, hi);
    if n == WindowSize {
      FloorMeanWithin(s, r, lo, hi);
    } else if s >= 0 {
      TruncMeanWithinNonNeg(n, s, r, lo, hi);
    } else {
      TruncMeanWithinNeg(n, s, r, lo, hi);
    }
  }

  /** Where the `i`-th oldest covered sample lives, given the write index and the count. */
  function RecentSlot(index: nat, count: nat, i: nat): (k: nat)
    requires index < WindowSize && i < count <= WindowSize
    ensures k < WindowSize
  {
    var k := index + WindowSize - count + i;
    if k < WindowSize then k else k - WindowSize
  }

  /**
   * How the slots `b` hold the covered samples `w` given the write position
   * `index`: during start-up the samples fill slots 0 .. |w| - 1 and the rest
   * are still 0; once full, the oldest sample is the one at `index`.
   */
  ghost predicate Layout(b: seq<int>, w: seq<int>, index: nat)
  {
    && |b| == WindowSize && index < WindowSize && |w| <= WindowSize
    && (|w| < WindowSize ==> index == |w|)
    && (forall i :: 0 <= i < |w| ==> w[i] == b[RecentSlot(index, |w|, i)])
    && (forall j :: |w| <= j < WindowSize ==> b[j] == 0)
  }

  ghost predicate AllInSampleRange(b: seq<int>)
  {
    forall j :: 0 <= j < |b| ==> InSampleRange(b[j])
  }

  /** Writing a sample at the write position and advancing it appends the sample to the covered ones. */
  lemma LayoutAfterWrite(b: seq<int>, w: seq<int>, index: nat, x: int)
    requires Layout(b, w, index)
    ensures Layout(b[index := x], BoundedAppend(w, x, WindowSize), (index + 1) % WindowSize)
  {
    var b', w', index' := b[index := x], BoundedAppend(w, x, WindowSize), (index + 1) % WindowSize;
    if |w| < WindowSize {
      assert w' == w + [x];
      forall i | 0 <= i < |w'|
        ensures w'[i] == b'[RecentSlot(index', |w'|, i)]
      {
        assert RecentSlot(index', |w'|, i) == i;
        if i < |w| {
          assert RecentSlot(index, |w|, i) == i;
        }
      }
    } else {
      assert w' == w[1..] + [x];
      forall i | 0 <= i < |w'|
        ensures w'[i] == b'[RecentSlot(index', |w'|, i)]
      {
        if i < |w| - 1 {
          assert w'[i] == w[i + 1];
          assert RecentSlot(index', |w'|, i) == RecentSlot(index, |w|, i + 1);
        } else {
          assert RecentSlot(index', |w'|, i) == index;
        }
      }
    }
  }

  /** The window's slots add up to the samples it covers: untouched slots still hold 0. */
  lemma WindowSum(b: seq<int>, w: seq<int>, index: nat)
    requires Layout(b, w, index)
    ensures Sum(b) == Sum(w)
  {
    if |w| < WindowSize {
      assert b == w + b[|w|..];
      SumAppend(w, b[|w|..]);
      SumBounds(b[|w|..], 0, 0);
    } else {
      assert w == b[index..] + b[..index];
      assert b == b[..index] + b[index..];
      SumAppend(b[..index], b[index..]);
      SumAppend(b[index..], b[..index]);
    }
  }

  class MovingAverage {
    const buffer: array<int32>
    var sum: int32
    var index: uint8
    var count: uint8
    ghost var Recent: seq<int>

    ghost predicate Valid()
      reads this, buffer
    {
      && buffer.Length == WindowSize
      && Layout(buffer[..], Recent, index)
      && count == |Recent|
      && AllInSampleRange(buffer[..])
      && sum == Sum(buffer[..])
    }

    /** The running sum is the sum of the covered samples, each of which is in range. */
    lemma RecentFacts()
      requires Valid()
      ensures sum == Sum(Recent)
      ensures forall i :: 0 <= i < |Recent| ==> InSampleRange(Recent[i])
    {
      WindowSum(buffer[..], Recent, index);
      forall i | 0 <= i < |Recent|
        ensures InSampleRange(Recent[i])
      {
        assert Recent[i] == buffer[..][RecentSlot(index, count, i)];
      }
    }

    constructor ()
      ensures Valid() && fresh(buffer)
      ensures Recent == [] && sum == 0 && index == 0 && count == 0
      ensures forall j :: 0 <= j < WindowSize ==> buffer[j] == 0
    {
      buffer := new int32[WindowSize];
      new;
      Init();
    }

    /** Zeroes the running sum, the position, the count and every slot. */
    method Init()
      requires buffer.Length == WindowSize
      modifies this, buffer
      ensures Valid()
      ensures Recent == [] && sum == 0 && index == 0 && count == 0
      ensures forall j :: 0 <= j < WindowSize ==> buffer[j] == 0
    {
      sum, index, count := 0, 0, 0;
      Recent := [];
      var i := 0;
      while i < WindowSize
        invariant 0 <= i <= WindowSize
        invariant forall j :: 0 <= j < i ==> buffer[j] == 0
        modifies buffer
      {
        buffer[i] := 0;
        i := i + 1;
      }
      SumBounds(buffer[..], 0, 0);
    }

    /** Returns the filter to the state Init leaves it in. */
    method Reset()
      requires buffer.Length == WindowSize
      modifies this, buffer
      ensures Valid()
      ensures Recent == [] && sum == 0 && index == 0 && count == 0
      ensures forall j :: 0 <= j < WindowSize ==> buffer[j] == 0
    {
      Init();
    }

    /**
     * Replaces the oldest slot with `sample`, keeps the running sum equal to
     * the sum of the slots, and returns the average of the samples the
     * window now covers.
     */
    method Filter(sample: int32) returns (r: int32)
      requires Valid() && InSampleRange(sample)
      modifies this, buffer
      ensures Valid()
      ensures Recent == BoundedAppend(old(Recent), sample, WindowSize)
      ensures r == Average(Recent)
      ensures buffer[..] == old(buffer[..])[old(index) := sample]
      ensures index == (old(index) + 1) % WindowSize
      ensures count == if old(count) < WindowSize then old(count) + 1 else WindowSize
    {
      ghost var before := buffer[..];
      SumUpdate(before, index, 0);
      SumBounds(before[index := 0], -SampleLimit, SampleLimit - 1);
      sum := sum - buffer[index];

      buffer[index] := sample;
      assert buffer[..] == before[index := sample];
      SumUpdate(before, index, sample);
      SumBounds(buffer[..], -SampleLimit, SampleLimit - 1);
      sum := sum + sample;

      LayoutAfterWrite(before, Recent, index, sample);
      index := Wrap(index + 1);
      if count < WindowSize {
        count := count + 1;
      }
      Recent := BoundedAppend(Recent, sample, WindowSize);
      RecentFacts();
      AverageWithin(Recent, -SampleLimit, SampleLimit - 1);

      if count == WindowSize {
        r := ShiftRight(sum, WindowShift);
      } else {
        r := CDiv(sum, count);
      }
    }

    /** The average of the covered samples, without adding one; 0 before the first sample. */
    method GetAverage() returns (r: int32)
      requires Valid()
      ensures r == Average(Recent)
    {
      if count == 0 {
        return 0;
      }
      RecentFacts();
      AverageWithin(Recent, -SampleLimit, SampleLimit - 1);
      if count == WindowSize {
        return ShiftRight(sum, WindowShift);
      }
      r := CDiv(sum, count);
    }
  }
}
