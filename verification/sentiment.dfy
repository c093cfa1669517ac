/** `perform_sentiment_analysis`: each bucket of reviews scores the mean
    polarity of its texts, and an empty bucket scores 0. */
module Sentiment {

  /** The polarity a pretrained scorer assigns to a text. */
  type Polarity = string -> real

  /** Sum of the polarities of `texts`, in order. */
  function Total(polarity: Polarity, texts: seq<string>): real
    decreases |texts|
  {
    if |texts| == 0 then 0.0 else Total(polarity, texts[..|texts| - 1]) + polarity(texts[|texts| - 1])
  }

  /** The score of one bucket: the mean polarity, 0 for an empty bucket. */
  function Mean(polarity: Polarity, texts: seq<string>): (r: real)
    ensures |texts| == 0 ==> r == 0.0
    ensures |texts| > 0 ==> r * (|texts| as real) == Total(polarity, texts)
  {
    if |texts| == 0 then 0.0 else Total(polarity, texts) / (|texts| as real)
  }

  /** The inner loop: a running sum and a count, divided once at the end. */
  method BucketScore(polarity: Polarity, reviews: seq<string>) returns (score: real)
    ensures |reviews| == 0 ==> score == 0.0
    ensures |reviews| > 0 ==> score * (|reviews| as real) == Total(polarity, reviews)
  {
    var sentiment := 0.0;
    var count := 0;
    while count < |reviews|
      invariant 0 <= count <= |reviews|
      invariant sentiment == Total(polarity, reviews[..count])
    {
      assert reviews[..count + 1][..count] == reviews[..count];
      sentiment := sentiment + polarity(reviews[count]);
      count := count + 1;
    }
    assert reviews[..count] == reviews;
    score := if count > 0 then sentiment / (count as real) else 0.0;
  }

  /** Every score of the result, one per bucket of the input. */
  function SentimentScores(polarity: Polarity, reviews: map<string, seq<string>>): (r: map<string, real>)
    ensures r.Keys == reviews.Keys
    ensures forall star :: star in reviews && |reviews[star]| == 0 ==> r[star] == 0.0
    ensures forall star :: star in reviews && |reviews[star]| > 0 ==>
      r[star] * (|reviews[star]| as real) == Total(polarity, reviews[star])
  {
    map star | star in reviews :: Mean(polarity, reviews[star])
  }

  /** A sum of values in `[lo, hi]` lies between `n * lo` and `n * hi`. */
  lemma {:induction false} TotalBounds(polarity: Polarity, texts: seq<string>, lo: real, hi: real)
    requires forall i :: 0 <= i < |texts| ==> lo <= polarity(texts[i]) <= hi
    ensures (|texts| as real) * lo <= Total(polarity, texts) <= (|texts| as real) * hi
    decreases |texts|
  {
    if |texts| > 0 {
      var prefix := texts[..|texts| - 1];
      assert forall i :: 0 <= i < |prefix| ==> prefix[i] == texts[i];
      TotalBounds(polarity, prefix, lo, hi);
    }
  }

  /** The mean stays within any bounds every polarity respects, so scores
      of a scorer with range `[-1, 1]` lie in `[-1, 1]`. */
  lemma MeanBounds(polarity: Polarity, texts: seq<string>, lo: real, hi: real)
    requires lo <= 0.0 <= hi
    requires forall i :: 0 <= i < |texts| ==> lo <= polarity(texts[i]) <= hi
    ensures lo <= Mean(polarity, texts) <= hi
  {
    if |texts| > 0 {
      TotalBounds(polarity, texts, lo, hi);
      var n := |texts| as real;
      var m := Mean(polarity, texts);
      assert m * n == Total(polarity, texts);
      assert n * lo <= m * n <= n * hi;
    }
  }

  /** A bucket whose every review is positive scores positive, and one whose
      every review is negative scores negative. */
  lemma {:induction false} MeanSign(polarity: Polarity, texts: seq<string>)
    requires |texts| > 0
    ensures (forall i :: 0 <= i < |texts| ==> polarity(texts[i]) > 0.0) ==> Mean(polarity, texts) > 0.0
    ensures (forall i :: 0 <= i < |texts| ==> polarity(texts[i]) < 0.0) ==> Mean(polarity, texts) < 0.0
  {
    TotalSign(polarity, texts);
  }

  lemma {:induction false} TotalSign(polarity: Polarity, texts: seq<string>)
    requires |texts| > 0
    ensures (forall i :: 0 <= i < |texts| ==> polarity(texts[i]) > 0.0) ==> Total(polarity, texts) > 0.0
    ensures (forall i :: 0 <= i < |texts| ==> polarity(texts[i]) < 0.0) ==> Total(polarity, texts) < 0.0
    decreases |texts|
  {
    if |texts| > 1 {
      var prefix := texts[..|texts| - 1];
      assert forall i :: 0 <= i < |prefix| ==> prefix[i] == texts[i];
      TotalSign(polarity, prefix);
    }
  }

}
