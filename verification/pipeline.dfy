/** The review half of the page flow: harvest the reviews of the selected
    product, then score each star bucket. */
module Pipeline {
  import Reviews
  import Sentiment

  /** The scores charted for a product: one per star label, each the mean
      polarity of the reviews harvested for that star, and within `[-1, 1]`
      whenever the scorer's polarities are. */
  method ReviewScores(browse: Reviews.Browser, id: string, polarity: Sentiment.Polarity)
    returns (scores: map<string, real>)
    ensures scores.Keys == Reviews.StarLabels
    ensures forall s: Reviews.Star ::
      scores[Reviews.Label(s)] == Sentiment.Mean(polarity, Reviews.Bucket(browse, id, s))
    ensures forall s: Reviews.Star :: |Reviews.Bucket(browse, id, s)| == 0 ==> scores[Reviews.Label(s)] == 0.0
    ensures (forall t :: -1.0 <= polarity(t) <= 1.0) ==>
      forall key :: key in scores ==> -1.0 <= scores[key] <= 1.0
  {
    var reviews, _ := Reviews.ScrapeReviews(browse, id);
    scores := Sentiment.SentimentScores(polarity, reviews);
    if forall t :: -1.0 <= polarity(t) <= 1.0 {
      forall key | key in scores ensures -1.0 <= scores[key] <= 1.0 {
        Sentiment.MeanBounds(polarity, reviews[key], -1.0, 1.0);
      }
    }
  }

}
