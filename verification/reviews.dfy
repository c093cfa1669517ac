/** `scrape_reviews_async`: for each star filter the review pages 1 to 3 are
    opened in order until one shows no review bodies; the stripped texts of
    the pages read are collected per star. */
module Reviews {
  import opened Text

  datatype Star = OneStar | TwoStar | ThreeStar | FourStar | FiveStar

  /** The star filters in the order they are visited. */
  const Stars: seq<Star> := [OneStar, TwoStar, ThreeStar, FourStar, FiveStar]

  /** The `filterByStar` value, also the key of the star's bucket. */
  function Label(s: Star): string {
    match s
    case OneStar => "one_star"
    case TwoStar => "two_star"
    case ThreeStar => "three_star"
    case FourStar => "four_star"
    case FiveStar => "five_star"
  }

  const StarLabels: set<string> :=
    {Label(OneStar), Label(TwoStar), Label(ThreeStar), Label(FourStar), Label(FiveStar)}

  /** Review pages per star (`range(1, 4)`). */
  const MaxPages: nat := 3

  /** The browser: the raw texts of the review-body elements found on the
      review page for a product id, star filter and page number. */
  type Browser = (string, Star, nat) -> seq<string>

  /** One `driver.get` of a review page. */
  datatype Request = Request(star: Star, page: nat)

  type Buckets = map<string, seq<string>>

  /** Every page before `page` showed at least one review, so the loop gets
      as far as `page`. */
  predicate Reached(browse: Browser, id: string, star: Star, page: nat) {
    forall q :: 1 <= q < page ==> |browse(id, star, q)| > 0
  }

  /** The loop for `star` requests exactly pages `1..k`: every page before
      `k` had reviews, and `k` is either empty or the last page allowed. */
  predicate StopsAt(browse: Browser, id: string, star: Star, k: nat) {
    && 1 <= k <= MaxPages
    && Reached(browse, id, star, k)
    && (k < MaxPages ==> |browse(id, star, k)| == 0)
  }

  lemma StopsAtUnique(browse: Browser, id: string, star: Star, k1: nat, k2: nat)
    requires StopsAt(browse, id, star, k1) && StopsAt(browse, id, star, k2)
    ensures k1 == k2
  {
  }

  /** The number of pages requested for `star`, found by walking the pages
      from `page` on. */
  function StopFrom(browse: Browser, id: string, star: Star, page: nat): (k: nat)
    requires 1 <= page <= MaxPages && Reached(browse, id, star, page)
    ensures StopsAt(browse, id, star, k)
    decreases MaxPages - page
  {
    if page == MaxPages || |browse(id, star, page)| == 0 then page
    else StopFrom(browse, id, star, page + 1)
  }

  function PagesRequested(browse: Browser, id: string, star: Star): (k: nat)
    ensures StopsAt(browse, id, star, k)
  {
    StopFrom(browse, id, star, 1)
  }

  /** Python's `[e.text.strip() for e in elements]`. */
  function StripAll(texts: seq<string>): (r: seq<string>)
    ensures |r| == |texts|
    ensures forall i :: 0 <= i < |texts| ==> r[i] == Strip(texts[i])
  {
    seq(|texts|, i requires 0 <= i < |texts| => Strip(texts[i]))
  }

  /** The stripped texts of pages `1..k` in page order. */
  function Gather(browse: Browser, id: string, star: Star, k: nat): seq<string> {
    if k == 0 then [] else Gather(browse, id, star, k - 1) + StripAll(browse(id, star, k))
  }

  /** The texts of fewer pages are a prefix of those of more pages: texts are
      appended in page order and never reordered. */
  lemma {:induction false} GatherPrefix(browse: Browser, id: string, star: Star, j: nat, k: nat)
    requires j <= k
    ensures Gather(browse, id, star, j) <= Gather(browse, id, star, k)
    decreases k - j
  {
    if j < k {
      GatherPrefix(browse, id, star, j, k - 1);
    }
  }

  /** The bucket holds exactly the review elements of the pages requested. */
  lemma {:induction false} GatherLength(browse: Browser, id: string, star: Star, k: nat)
    ensures |Gather(browse, id, star, k)| == PageCounts(browse, id, star, k)
  {
    if k > 0 {
      GatherLength(browse, id, star, k - 1);
    }
  }

  function PageCounts(browse: Browser, id: string, star: Star, k: nat): nat {
    if k == 0 then 0 else PageCounts(browse, id, star, k - 1) + |browse(id, star, k)|
  }

  /** The requests for pages `1..k` of `star`. */
  function PageRequests(star: Star, k: nat): (r: seq<Request>)
    ensures |r| == k
    ensures forall i :: 0 <= i < k ==> r[i] == Request(star, i + 1)
  {
    seq(k, i requires 0 <= i < k => Request(star, i + 1))
  }

  /** The inner loop for one star, with its `break` on an empty page. */
  method HarvestBucket(browse: Browser, id: string, star: Star) returns (comments: seq<string>, requests: seq<Request>)
    ensures StopsAt(browse, id, star, |requests|)
    ensures requests == PageRequests(star, |requests|)
    ensures comments == Gather(browse, id, star, |requests|)
  {
    comments := [];
    requests := [];
    var page := 1;
    while page <= MaxPages
      invariant 1 <= page <= MaxPages + 1
      invariant requests == PageRequests(star, page - 1)
      invariant Reached(browse, id, star, page)
      invariant comments == Gather(browse, id, star, page - 1)
    {
      var elements := browse(id, star, page);
      PageRequestsStep(star, page - 1);
      requests := requests + [Request(star, page)];
      if |elements| == 0 {
        assert StripAll(elements) == [];
        break;
      }
      ReachedStep(browse, id, star, page);
      comments := comments + StripAll(elements);
      page := page + 1;
    }
  }

  lemma PageRequestsStep(star: Star, k: nat)
    ensures PageRequests(star, k) + [Request(star, k + 1)] == PageRequests(star, k + 1)
  {
  }

  lemma ReachedStep(browse: Browser, id: string, star: Star, page: nat)
    requires Reached(browse, id, star, page) && |browse(id, star, page)| > 0
    ensures Reached(browse, id, star, page + 1)
  {
  }

  /** All requests made, star by star, each star's pages in order. */
  function Schedule(browse: Browser, id: string, stars: seq<Star>): seq<Request> {
    if |stars| == 0 then []
    else
      var last := stars[|stars| - 1];
      Schedule(browse, id, stars[..|stars| - 1]) + PageRequests(last, PagesRequested(browse, id, last))
  }

  /** Early stop, both ways: a page of a visited star is requested exactly
      when it is within the page limit and every earlier page had reviews. */
  lemma {:induction false} ScheduleRequestsReachedPages(browse: Browser, id: string, stars: seq<Star>, s: Star, p: nat)
    requires s in stars
    ensures Request(s, p) in Schedule(browse, id, stars) <==> 1 <= p <= MaxPages && Reached(browse, id, s, p)
  {
    var last := stars[|stars| - 1];
    var prefix := stars[..|stars| - 1];
    var k := PagesRequested(browse, id, last);
    var tail := PageRequests(last, k);
    assert Schedule(browse, id, stars) == Schedule(browse, id, prefix) + tail;
    if s == last {
      if 1 <= p <= MaxPages && Reached(browse, id, s, p) {
        assert tail[p - 1] == Request(s, p);
      }
      if Request(s, p) in tail {
        var i :| 0 <= i < |tail| && tail[i] == Request(s, p);
        assert p == i + 1 <= k;
        assert Reached(browse, id, s, p);
      }
      if s in prefix {
        ScheduleRequestsReachedPages(browse, id, prefix, s, p);
      } else {
        ScheduleStars(browse, id, prefix, Request(s, p));
        assert Request(s, p) !in Schedule(browse, id, prefix);
      }
    } else {
      assert s in prefix;
      ScheduleRequestsReachedPages(browse, id, prefix, s, p);
      assert Request(s, p) !in tail;
    }
  }

  /** Only the stars listed are ever requested. */
  lemma {:induction false} ScheduleStars(browse: Browser, id: string, stars: seq<Star>, r: Request)
    ensures r in Schedule(browse, id, stars) ==> r.star in stars
  {
    if |stars| > 0 {
      var last := stars[|stars| - 1];
      var prefix := stars[..|stars| - 1];
      ScheduleStars(browse, id, prefix, r);
      assert Schedule(browse, id, stars) == Schedule(browse, id, prefix) + PageRequests(last, PagesRequested(browse, id, last));
    }
  }

  /** `scrape_reviews_async`: one bucket per star label, each holding the
      stripped review texts of the pages requested for it. */
  method ScrapeReviews(browse: Browser, id: string) returns (reviews: Buckets, requests: seq<Request>)
    ensures reviews.Keys == StarLabels
    ensures forall s: Star :: reviews[Label(s)] == Gather(browse, id, s, PagesRequested(browse, id, s))
    ensures requests == Schedule(browse, id, Stars)
  {
    reviews := map[];
    requests := [];
    var i := 0;
    while i < |Stars|
      invariant 0 <= i <= |Stars|
      invariant reviews.Keys == LabelsBefore(i)
      invariant Filled(browse, id, reviews, i)
      invariant requests == Schedule(browse, id, Stars[..i])
    {
      var star := Stars[i];
      var comments, pages := HarvestBucket(browse, id, star);
      StopsAtUnique(browse, id, star, |pages|, PagesRequested(browse, id, star));
      FilledStep(browse, id, reviews, i, comments);
      ScheduleStep(browse, id, i);
      reviews := reviews[Label(star) := comments];
      requests := requests + pages;
      i := i + 1;
    }
    AllLabels();
    assert Stars[..5] == Stars;
  }

  /** The buckets of the first `i` stars are in place. */
  predicate Filled(browse: Browser, id: string, reviews: Buckets, i: nat) {
    forall s: Star :: StarIndex(s) < i ==> Label(s) in reviews && reviews[Label(s)] == Bucket(browse, id, s)
  }

  lemma FilledStep(browse: Browser, id: string, reviews: Buckets, i: nat, comments: seq<string>)
    requires i < |Stars| && Filled(browse, id, reviews, i)
    requires comments == Bucket(browse, id, Stars[i])
    ensures Filled(browse, id, reviews[Label(Stars[i]) := comments], i + 1)
  {
    LabelInjective(Stars[i]);
  }

  lemma ScheduleStep(browse: Browser, id: string, i: nat)
    requires i < |Stars|
    ensures Schedule(browse, id, Stars[..i + 1]) ==
      Schedule(browse, id, Stars[..i]) + PageRequests(Stars[i], PagesRequested(browse, id, Stars[i]))
  {
    assert Stars[..i + 1][..i] == Stars[..i];
  }

  lemma AllLabels()
    ensures LabelsBefore(|Stars|) == StarLabels
  {
    assert LabelsBefore(1) == {"one_star"};
    assert LabelsBefore(3) == {"one_star", "two_star", "three_star"};
  }

  /** The bucket of `star` as the loop fills it. */
  function Bucket(browse: Browser, id: string, star: Star): seq<string> {
    Gather(browse, id, star, PagesRequested(browse, id, star))
  }

  /** The labels of the first `i` stars. */
  function LabelsBefore(i: nat): set<string>
    requires i <= |Stars|
  {
    if i == 0 then {} else LabelsBefore(i - 1) + {Label(Stars[i - 1])}
  }

  lemma LabelInjective(s: Star)
    ensures forall t: Star :: Label(t) == Label(s) ==> t == s
  {
  }

  function StarIndex(s: Star): (j: nat)
    ensures j < |Stars| && Stars[j] == s
  {
    match s
    case OneStar => 0
    case TwoStar => 1
    case ThreeStar => 2
    case FourStar => 3
    case FiveStar => 4
  }

}
