/**
 * The demo firmware's peak detector: it reports a sample as a peak when it
 * is above a threshold, above the previous sample, and more than
 * `minPeakDistance` samples after the previous reported peak.  Sample
 * values are compared only, so the source's floats are modelled as reals.
 * The ghost field `Peaks` records the sample numbers reported so far.
 */
module PeakDetection {
  import opened CTypes

  /** The "last peak" a fresh detector starts from, far enough back that the first peak is not held off. */
  const NoPeakYet: int := -1000

  /** The three conditions under which a sample is reported as a peak. */
  predicate IsPeak(threshold: real, lastValue: real, lastPeakSample: int, minPeakDistance: int,
                   value: real, sampleNum: int)
  {
    && value > threshold
    && value > lastValue
    && sampleNum - lastPeakSample > minPeakDistance
  }

  /** Each reported peak comes more than `d` samples after the one before it. */
  ghost predicate Spaced(peaks: seq<int>, d: int)
  {
    forall i :: 0 < i < |peaks| ==> peaks[i] - peaks[i - 1] > d
  }

  /** With a non-negative distance, spacing between neighbours carries over to every pair of peaks. */
  lemma {:induction false} SpacedPairwise(peaks: seq<int>, d: int)
    requires d >= 0 && Spaced(peaks, d)
    ensures forall i, j :: 0 <= i < j < |peaks| ==> peaks[j] - peaks[i] > d
    decreases |peaks|
  {
    if |peaks| > 1 {
      var init := peaks[..|peaks| - 1];
      assert Spaced(init, d);
      SpacedPairwise(init, d);
      var last := |peaks| - 1;
      forall i | 0 <= i < last
        ensures peaks[last] - peaks[i] > d
      {
        if i < last - 1 {
          assert init[last - 1] - init[i] > d;
        }
      }
    }
  }

  class Detector {
    var threshold: real
    var lastValue: real
    var lastPeakSample: int32
    var minPeakDistance: int32
    ghost var Peaks: seq<int>

    ghost predicate Valid()
      reads this
    {
      && Spaced(Peaks, minPeakDistance)
      && lastPeakSample == if Peaks == [] then NoPeakYet else Peaks[|Peaks| - 1]
    }

    constructor (threshold: real, minDistance: int32)
      ensures Valid() && Peaks == []
      ensures this.threshold == threshold && minPeakDistance == minDistance
      ensures lastValue == 0.0 && lastPeakSample == NoPeakYet
    {
      this.threshold := threshold;
      lastValue := 0.0;
      lastPeakSample := NoPeakYet;
      minPeakDistance := minDistance;
      Peaks := [];
    }

    /**
     * Feeds sample `sampleNum` with value `value`; returns 1 when it is a
     * peak (and then remembers `sampleNum` as the last peak), 0 otherwise.
     * The value is remembered either way; the settings never change.
     */
    method Update(value: real, sampleNum: int32) returns (isPeak: int)
      requires Valid()
      requires InInt32(sampleNum - lastPeakSample)
      modifies this
      ensures Valid()
      ensures isPeak == if IsPeak(old(threshold), old(lastValue), old(lastPeakSample),
                                  old(minPeakDistance), value, sampleNum) then 1 else 0
      ensures isPeak == 1 ==> lastPeakSample == sampleNum && Peaks == old(Peaks) + [sampleNum as int]
      ensures isPeak == 0 ==> lastPeakSample == old(lastPeakSample) && Peaks == old(Peaks)
      ensures lastValue == value
      ensures threshold == old(threshold) && minPeakDistance == old(minPeakDistance)
    {
      isPeak := 0;
      if value > threshold && value > lastValue && sampleNum - lastPeakSample > minPeakDistance {
        isPeak := 1;
        lastPeakSample := sampleNum;
        Peaks := Peaks + [sampleNum as int];
      }
      lastValue := value;
    }
  }
}
