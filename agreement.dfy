/**
 * The two scripts each carry their own copy of the bucket table. Both copies
 * name the same eight buckets in the same order and put every finite
 * non-negative duration in the same bucket. On a negative duration the
 * sampler reports no bucket and the distribution report uses "UNBUCKETED".
 * Durations are exact reals here, so the float values infinity and NaN, on
 * which the scripts differ too, are outside this module.
 */
module Agreement {
  import opened Wrappers
  import SampleTts
  import AudioDistribution

  /** The labels of the distribution report are the sampler's bucket names, in order. */
  lemma SameLabels()
    ensures |AudioDistribution.BucketLabels()| == |SampleTts.BucketDefs|
    ensures forall k :: 0 <= k < |SampleTts.BucketDefs| ==> AudioDistribution.BucketLabels()[k] == SampleTts.BucketDefs[k].name
  {
    AudioDistribution.BucketLabelsLiteral();
  }

  /** Both assign_bucket functions agree on every finite duration: the same bucket from 0 on, no bucket below 0. */
  lemma SameBucket(d: real)
    ensures d >= 0.0 ==> SampleTts.AssignBucket(d) == Some(AudioDistribution.AssignBucket(d))
    ensures d < 0.0 ==> SampleTts.AssignBucket(d) == None && AudioDistribution.AssignBucket(d) == AudioDistribution.Unbucketed
  {
    SampleTts.AssignBucketTotal(d);
    AudioDistribution.AssignBucketSpec(d);
    if d >= 0.0 {
      var k := SampleTts.ThresholdIndex(d);
      assert k == AudioDistribution.ThresholdIndex(d);
      SameLabels();
      assert AudioDistribution.BucketLabels()[k] == AudioDistribution.Label(AudioDistribution.Buckets[k]);
    }
  }
}
