/** `scrape_products`: the search phrase becomes a query, two result pages of
    product nodes are walked in order, and every node that passes the sponsor,
    link and field checks is written into a catalogue keyed by product id. */
module Products {
  import opened Wrappers
  import opened Text
  import opened Numbers

  /** What the parser can see of one candidate product node. Each lookup the
      Python code makes can come back empty (`find` returning `None`, a missing
      attribute), so each is optional. */
  datatype Node = Node(
    badge: Option<string>,       // text of the secondary-colour span
    link: Option<string>,        // href of the product anchor
    name: Option<string>,
    image: Option<string>,       // src of the product image
    price: Option<string>,
    ratingText: Option<string>,  // e.g. "4,5 de 5 estrelas"
    votesText: Option<string>    // e.g. "1.234"
  )

  datatype Product = Product(name: string, image: string, price: string, rating: real, votes: int)

  datatype Field = Name | Image | Price | Rating | Votes

  /** Why a node contributes nothing. */
  datatype Skip =
    | NoBadge            // the badge lookup raised on `None.text`
    | Sponsored          // the badge reads "Patrocinado"
    | NoLink             // the anchor or its href is missing
    | NoProductId        // the href has no `dp/<id>` segment
    | BadField(field: Field)

  datatype Outcome = Keep(id: string, product: Product) | Drop(reason: Skip)

  type Page = seq<Node>
  type Catalogue = map<string, Product>

  /** Python's `float()` on the rating prefix; floating point is not modelled. */
  type FloatParser = string -> Option<real>

  /** The HTTP fetch of one result page for a query and page number; `None`
      is a transport failure, which the Python code does not catch. */
  type Fetcher = (string, nat) -> Option<Page>

  const SponsoredBadge: string := "Patrocinado"

  /** Result pages 1 and 2 are fetched (`range(1, 3)`). */
  const LastSearchPage: nat := 2

  /** The search phrase as placed in the query string: stripped, with each
      remaining space turned into `+`. */
  function NormaliseQuery(phrase: string): (q: string)
    ensures var t := Strip(phrase);
      && |q| == |t|
      && (forall i :: 0 <= i < |t| && t[i] != ' ' ==> q[i] == t[i])
      && (forall i :: 0 <= i < |t| && t[i] == ' ' ==> q[i] == '+')
    ensures ' ' !in q
    ensures q == [] || (!IsSpace(q[0]) && !IsSpace(q[|q| - 1]))
  {
    Replace(Strip(phrase), ' ', '+')
  }

  /** Position `p` of `s` is where the pattern `(?<=dp/)[^/]+` can match:
      it is preceded by `dp/` and starts a non-empty run of non-`/`. */
  predicate IdStartsAt(s: string, p: int) {
    3 <= p < |s| && s[p - 3] == 'd' && s[p - 2] == 'p' && s[p - 1] == '/' && s[p] != '/'
  }

  /** End of the run of non-`/` characters starting at `p`. */
  function RunEnd(s: string, p: nat): (e: nat)
    requires p <= |s|
    ensures p <= e <= |s|
    ensures forall k :: p <= k < e ==> s[k] != '/'
    ensures e == |s| || s[e] == '/'
    decreases |s| - p
  {
    if p == |s| || s[p] == '/' then p else RunEnd(s, p + 1)
  }

  /** Leftmost match position at or after `p`, as `re.search` scans. */
  function IdPosition(s: string, p: nat): (r: Option<nat>)
    requires p <= |s|
    ensures r.Some? ==> p <= r.value < |s| && IdStartsAt(s, r.value)
    ensures r.Some? ==> forall q :: p <= q < r.value ==> !IdStartsAt(s, q)
    ensures r.None? ==> forall q :: p <= q < |s| ==> !IdStartsAt(s, q)
    decreases |s| - p
  {
    if p == |s| then None
    else if IdStartsAt(s, p) then Some(p)
    else IdPosition(s, p + 1)
  }

  /** `re.search(r'(?<=dp/)[^/]+', href)`, the matched text or no match. */
  function ExtractId(href: string): (r: Option<string>)
    ensures r.None? <==> forall q :: 0 <= q < |href| ==> !IdStartsAt(href, q)
    ensures r.Some? ==> |r.value| > 0 && '/' !in r.value
  {
    match IdPosition(href, 0)
    case None => None
    case Some(p) => Some(href[p..RunEnd(href, p)])
  }

  /** The match is the whole non-`/` run after the leftmost `dp/` that is
      followed by one. */
  lemma ExtractIdLeftmost(href: string, p: nat)
    requires IdStartsAt(href, p)
    requires forall q :: 0 <= q < p ==> !IdStartsAt(href, q)
    ensures ExtractId(href) == Some(href[p..RunEnd(href, p)])
  {
    var r := IdPosition(href, 0);
    assert r.Some?;
    assert r.value == p;
  }

  /** `RunEnd` is the first `/` at or after `p`, or the end of the string. */
  lemma {:induction false} RunEndAt(s: string, p: nat, e: nat)
    requires p <= e <= |s|
    requires forall k :: p <= k < e ==> s[k] != '/'
    requires e == |s| || s[e] == '/'
    ensures RunEnd(s, p) == e
    decreases e - p
  {
    if p < e {
      RunEndAt(s, p + 1, e);
    }
  }

  /** A detail path of the usual shape yields the id between `dp/` and the
      next `/`. */
  lemma ExtractIdExample()
    ensures ExtractId("/dp/B0ABC12345/") == Some("B0ABC12345")
  {
    var href := "/dp/B0ABC12345/";
    ExampleHref(href);
    RunEndAt(href, 4, 14);
    ExtractIdLeftmost(href, 4);
    assert href[4..14] == "B0ABC12345";
  }

  /** The position facts of the example path: the id starts at 4 and runs to
      the `/` at 14, and no earlier position starts an id. */
  lemma ExampleHref(href: string)
    requires href == "/dp/B0ABC12345/"
    ensures IdStartsAt(href, 4) && href[14] == '/'
    ensures forall q :: 0 <= q < 4 ==> !IdStartsAt(href, q)
  {
    assert href[1] == 'd';
    assert href[2] == 'p';
    assert href[3] == '/';
    assert href[4] == 'B';
  }

  /** The text handed to `float()`: the first three characters of the rating
      text with a decimal comma turned into a point. */
  function RatingKey(text: string): (k: string)
    ensures |k| == if |text| < 3 then |text| else 3
    ensures forall i :: 0 <= i < |k| ==> k[i] == (if text[i] == ',' then '.' else text[i])
    ensures ',' !in k
  {
    Replace(Take(text, 3), ',', '.')
  }

  /** The storefront's rating text "4,5 de 5 estrelas" becomes "4.5". */
  lemma RatingKeyExample()
    ensures RatingKey("4,5 de 5 estrelas") == "4.5"
  {
    var k := RatingKey("4,5 de 5 estrelas");
    assert k[0] == '4' && k[1] == '.' && k[2] == '5';
  }

  /** `int(text.replace('.', ''))`. */
  function VotesOf(text: string): Option<int> {
    ParseInt(Remove(text, '.'))
  }

  /** A vote count printed with dotted thousands groups reads back as itself,
      unless its digits exceed the conversion limit of `int()`. */
  lemma VotesRoundTrip(n: nat)
    ensures var d := Remove(Grouped(n), '.');
      VotesOf(Grouped(n)) == if |d| <= MaxStrDigits then Some(n) else None
  {
    GroupedDigits(n);
    ParseDigits(Remove(Grouped(n), '.'));
  }

  /** Every check of the loop body succeeds for `n`. */
  predicate Complete(n: Node, parseFloat: FloatParser) {
    && n.badge.Some? && n.badge.value != SponsoredBadge
    && n.link.Some? && ExtractId(n.link.value).Some?
    && n.name.Some? && n.image.Some? && n.price.Some?
    && n.ratingText.Some? && parseFloat(RatingKey(n.ratingText.value)).Some?
    && n.votesText.Some? && VotesOf(n.votesText.value).Some?
  }

  /** One iteration of the per-node loop body, in the order the Python code
      performs its lookups. */
  function Classify(n: Node, parseFloat: FloatParser): Outcome {
    if n.badge.None? then Drop(NoBadge)
    else if n.badge.value == SponsoredBadge then Drop(Sponsored)
    else if n.link.None? then Drop(NoLink)
    else
      match ExtractId(n.link.value)
      case None => Drop(NoProductId)
      case Some(id) =>
        if n.name.None? then Drop(BadField(Name))
        else if n.image.None? then Drop(BadField(Image))
        else if n.price.None? then Drop(BadField(Price))
        else if n.ratingText.None? then Drop(BadField(Rating))
        else
          match parseFloat(RatingKey(n.ratingText.value))
          case None => Drop(BadField(Rating))
          case Some(rating) =>
            if n.votesText.None? then Drop(BadField(Votes))
            else
              match VotesOf(n.votesText.value)
              case None => Drop(BadField(Votes))
              case Some(votes) =>
                Keep(id, Product(n.name.value, n.image.value, n.price.value, rating, votes))
  }

  /** Records are all-or-nothing: a node is kept exactly when every check
      passes, and then every field of the entry comes from the node. */
  lemma ClassifyAllOrNothing(n: Node, parseFloat: FloatParser)
    ensures Classify(n, parseFloat).Keep? <==> Complete(n, parseFloat)
    ensures var o := Classify(n, parseFloat); o.Keep? ==>
      && o.id == ExtractId(n.link.value).value
      && o.product.name == n.name.value
      && o.product.image == n.image.value
      && o.product.price == n.price.value
      && Some(o.product.rating) == parseFloat(RatingKey(n.ratingText.value))
      && Some(o.product.votes) == VotesOf(n.votesText.value)
  {
    if n.badge.Some? && n.badge.value != SponsoredBadge && n.link.Some? {
      match ExtractId(n.link.value)
      case None =>
      case Some(id) =>
        if n.name.Some? && n.image.Some? && n.price.Some? && n.ratingText.Some? {
          match parseFloat(RatingKey(n.ratingText.value))
          case None =>
          case Some(rating) =>
            if n.votesText.Some? {
              match VotesOf(n.votesText.value)
              case None =>
              case Some(votes) =>
            }
        }
    }
  }

  /** Sponsored listings and listings without a badge are dropped, for
      those reasons and no others. */
  lemma ClassifyBadge(n: Node, parseFloat: FloatParser)
    ensures Classify(n, parseFloat) == Drop(NoBadge) <==> n.badge.None?
    ensures Classify(n, parseFloat) == Drop(Sponsored) <==> n.badge == Some(SponsoredBadge)
  {
  }

  function Lookup(m: Catalogue, k: string): Option<Product> {
    if k in m then Some(m[k]) else None
  }

  /** The outcome writes an entry under `k`. */
  predicate Writes(o: Outcome, k: string) {
    o.Keep? && o.id == k
  }

  /** The catalogue after one node: a kept node overwrites its id's entry,
      a dropped one leaves every entry as it was. */
  function Apply(m: Catalogue, o: Outcome): (r: Catalogue)
    ensures forall k :: Writes(o, k) ==> Lookup(r, k) == Some(o.product)
    ensures forall k :: !Writes(o, k) ==> Lookup(r, k) == Lookup(m, k)
  {
    match o
    case Keep(id, product) => m[id := product]
    case Drop(_) => m
  }

  /** The catalogue after applying the outcomes in order from `m`. */
  function Fold(m: Catalogue, os: seq<Outcome>): Catalogue
    decreases |os|
  {
    if |os| == 0 then m else Apply(Fold(m, os[..|os| - 1]), os[|os| - 1])
  }

  /** The outcomes of the loop body for `nodes`, in order. */
  function Outcomes(nodes: seq<Node>, parseFloat: FloatParser): (os: seq<Outcome>)
    ensures |os| == |nodes|
    decreases |nodes|
  {
    if |nodes| == 0 then []
    else Outcomes(nodes[..|nodes| - 1], parseFloat) + [Classify(nodes[|nodes| - 1], parseFloat)]
  }

  lemma {:induction false} OutcomesAt(nodes: seq<Node>, parseFloat: FloatParser, i: nat)
    requires i < |nodes|
    ensures Outcomes(nodes, parseFloat)[i] == Classify(nodes[i], parseFloat)
    decreases |nodes|
  {
    if i < |nodes| - 1 {
      var prefix := nodes[..|nodes| - 1];
      OutcomesAt(prefix, parseFloat, i);
      assert prefix[i] == nodes[i];
    }
  }

  lemma {:induction false} OutcomesAppend(a: seq<Node>, b: seq<Node>, parseFloat: FloatParser)
    ensures Outcomes(a + b, parseFloat) == Outcomes(a, parseFloat) + Outcomes(b, parseFloat)
    decreases |b|
  {
    if |b| == 0 {
      assert a + b == a;
    } else {
      var b' := b[..|b| - 1];
      assert (a + b)[..|a + b| - 1] == a + b';
      OutcomesAppend(a, b', parseFloat);
    }
  }

  /** The catalogue after walking `nodes` in order from `m`. */
  function Scan(m: Catalogue, nodes: seq<Node>, parseFloat: FloatParser): Catalogue {
    Fold(m, Outcomes(nodes, parseFloat))
  }

  /** Index of the last outcome that writes key `k`. */
  function LastWriter(os: seq<Outcome>, k: string): (r: Option<nat>)
    ensures r.Some? ==> r.value < |os| && Writes(os[r.value], k)
    ensures r.Some? ==> forall j :: r.value < j < |os| ==> !Writes(os[j], k)
    ensures r.None? ==> forall j :: 0 <= j < |os| ==> !Writes(os[j], k)
    decreases |os|
  {
    if |os| == 0 then None
    else if Writes(os[|os| - 1], k) then Some(|os| - 1)
    else LastWriter(os[..|os| - 1], k)
  }

  /** Last writer wins: the entry under `k` comes from the last outcome that
      writes `k`, and is the starting entry when none does. */
  lemma {:induction false} FoldLastWriterWins(m: Catalogue, os: seq<Outcome>, k: string)
    ensures Lookup(Fold(m, os), k) ==
      match LastWriter(os, k)
      case Some(i) => Some(os[i].product)
      case None => Lookup(m, k)
    decreases |os|
  {
    if |os| > 0 {
      var prefix := os[..|os| - 1];
      FoldLastWriterWins(m, prefix, k);
      if !Writes(os[|os| - 1], k) {
        match LastWriter(prefix, k)
        case Some(i) => assert os[i] == prefix[i];
        case None =>
      }
    }
  }

  /** The same for a walk over nodes: a later node with the same id replaces
      the entry of an earlier one, and dropped nodes change nothing. */
  lemma ScanLastWriterWins(m: Catalogue, nodes: seq<Node>, parseFloat: FloatParser, k: string)
    ensures match LastWriter(Outcomes(nodes, parseFloat), k)
      case Some(i) =>
        && Writes(Classify(nodes[i], parseFloat), k)
        && Lookup(Scan(m, nodes, parseFloat), k) == Some(Classify(nodes[i], parseFloat).product)
      case None => Lookup(Scan(m, nodes, parseFloat), k) == Lookup(m, k)
  {
    var os := Outcomes(nodes, parseFloat);
    FoldLastWriterWins(m, os, k);
    match LastWriter(os, k)
    case Some(i) => OutcomesAt(nodes, parseFloat, i);
    case None =>
  }

  /** The entry a walk of `nodes` from `m` leaves under `k`. */
  function Expected(m: Catalogue, nodes: seq<Node>, parseFloat: FloatParser, k: string): Option<Product> {
    var os := Outcomes(nodes, parseFloat);
    match LastWriter(os, k)
    case Some(i) => Some(os[i].product)
    case None => Lookup(m, k)
  }

  lemma ScanExpected(m: Catalogue, nodes: seq<Node>, parseFloat: FloatParser)
    ensures forall k :: Lookup(Scan(m, nodes, parseFloat), k) == Expected(m, nodes, parseFloat, k)
  {
    forall k {
      FoldLastWriterWins(m, Outcomes(nodes, parseFloat), k);
    }
  }

  /** Walking `a` and then `b` is walking `a + b`. */
  lemma {:induction false} FoldAppend(m: Catalogue, a: seq<Outcome>, b: seq<Outcome>)
    ensures Fold(Fold(m, a), b) == Fold(m, a + b)
    decreases |b|
  {
    if |b| == 0 {
      assert a + b == a;
    } else {
      FoldAppend(m, a, b[..|b| - 1]);
      assert (a + b)[..|a + b| - 1] == a + b[..|b| - 1];
    }
  }

  /** Walking the nodes of `a` and then those of `b` is walking `a + b`. */
  lemma ScanAppend(m: Catalogue, a: seq<Node>, b: seq<Node>, parseFloat: FloatParser)
    ensures Scan(Scan(m, a, parseFloat), b, parseFloat) == Scan(m, a + b, parseFloat)
  {
    FoldAppend(m, Outcomes(a, parseFloat), Outcomes(b, parseFloat));
    OutcomesAppend(a, b, parseFloat);
  }

  /** Every key a walk from the empty catalogue produces is a well-formed id
      written by some node of the walk, which was neither sponsored nor
      incomplete. */
  lemma ScanEntriesWellFormed(nodes: seq<Node>, parseFloat: FloatParser, k: string)
    requires k in Scan(map[], nodes, parseFloat)
    ensures |k| > 0 && '/' !in k
    ensures exists i :: 0 <= i < |nodes| && Complete(nodes[i], parseFloat) && Writes(Classify(nodes[i], parseFloat), k)
  {
    var os := Outcomes(nodes, parseFloat);
    FoldLastWriterWins(map[], os, k);
    var i := LastWriter(os, k).value;
    OutcomesAt(nodes, parseFloat, i);
    ClassifyAllOrNothing(nodes[i], parseFloat);
    assert Complete(nodes[i], parseFloat) && Writes(Classify(nodes[i], parseFloat), k);
  }

  /** A page of nothing but sponsored listings yields an empty catalogue. */
  lemma {:induction false} SponsoredOnlyIsEmpty(nodes: seq<Node>, parseFloat: FloatParser)
    requires forall i :: 0 <= i < |nodes| ==> nodes[i].badge == Some(SponsoredBadge)
    ensures Scan(map[], nodes, parseFloat) == map[]
    decreases |nodes|
  {
    if |nodes| > 0 {
      SponsoredOnlyIsEmpty(nodes[..|nodes| - 1], parseFloat);
      assert Classify(nodes[|nodes| - 1], parseFloat) == Drop(Sponsored);
    }
  }

  /** The nodes of result pages `1..k` in page order. */
  function Walked(fetch: Fetcher, query: string, k: nat): seq<Node>
    requires forall p :: 1 <= p <= k ==> fetch(query, p).Some?
  {
    if k == 0 then [] else Walked(fetch, query, k - 1) + fetch(query, k).value
  }

  /** One more node of the page applies its outcome to the catalogue. */
  lemma WalkStep(start: Catalogue, nodes: Page, i: nat, parseFloat: FloatParser, o: Outcome)
    requires i < |nodes| && o == Classify(nodes[i], parseFloat)
    ensures Fold(start, Outcomes(nodes[..i + 1], parseFloat)) == Apply(Fold(start, Outcomes(nodes[..i], parseFloat)), o)
  {
    assert nodes[..i + 1][..i] == nodes[..i];
  }

  /** The inner loop of `scrape_products` over the nodes of one page. */
  method WalkPage(start: Catalogue, nodes: Page, parseFloat: FloatParser) returns (products: Catalogue)
    ensures products == Scan(start, nodes, parseFloat)
  {
    products := start;
    var i := 0;
    while i < |nodes|
      invariant 0 <= i <= |nodes|
      invariant products == Fold(start, Outcomes(nodes[..i], parseFloat))
    {
      var o := Classify(nodes[i], parseFloat);
      WalkStep(start, nodes, i, parseFloat, o);
      products := Apply(products, o);
      i := i + 1;
    }
    assert nodes[..i] == nodes;
  }

  lemma WalkedTwo(fetch: Fetcher, query: string)
    requires fetch(query, 1).Some? && fetch(query, 2).Some?
    ensures Walked(fetch, query, 2) == fetch(query, 1).value + fetch(query, 2).value
  {
    assert Walked(fetch, query, 1) == fetch(query, 1).value;
  }

  /** `scrape_products`: the catalogue built from pages 1 and 2 in order; a
      failed fetch aborts the whole search. */
  method ScrapeProducts(phrase: string, fetch: Fetcher, parseFloat: FloatParser) returns (result: Option<Catalogue>)
    ensures var q := NormaliseQuery(phrase);
      result.Some? <==> fetch(q, 1).Some? && fetch(q, 2).Some?
    ensures var q := NormaliseQuery(phrase);
      result.Some? ==> result.value == Scan(map[], fetch(q, 1).value + fetch(q, 2).value, parseFloat)
    ensures var q := NormaliseQuery(phrase);
      result.Some? ==> forall k :: Lookup(result.value, k) == Expected(map[], fetch(q, 1).value + fetch(q, 2).value, parseFloat, k)
    ensures result.Some? ==> forall k :: k in result.value ==> |k| > 0 && '/' !in k
  {
    var query := NormaliseQuery(phrase);
    var products: Catalogue := map[];
    var numPage := 1;
    while numPage <= LastSearchPage
      invariant 1 <= numPage <= LastSearchPage + 1
      invariant forall p :: 1 <= p < numPage ==> fetch(query, p).Some?
      invariant products == Scan(map[], Walked(fetch, query, numPage - 1), parseFloat)
    {
      var page := fetch(query, numPage);
      if page.None? {
        return None;
      }
      var next := WalkPage(products, page.value, parseFloat);
      WalkedStep(fetch, query, numPage, parseFloat, products, next);
      products := next;
      numPage := numPage + 1;
    }
    ScrapedCatalogue(fetch, query, parseFloat, products);
    return Some(products);
  }

  /** Walking one more page extends the catalogue of the pages before it. */
  lemma WalkedStep(fetch: Fetcher, query: string, k: nat, parseFloat: FloatParser, before: Catalogue, after: Catalogue)
    requires k >= 1 && forall p :: 1 <= p <= k ==> fetch(query, p).Some?
    requires before == Scan(map[], Walked(fetch, query, k - 1), parseFloat)
    requires after == Scan(before, fetch(query, k).value, parseFloat)
    ensures after == Scan(map[], Walked(fetch, query, k), parseFloat)
  {
    ScanAppend(map[], Walked(fetch, query, k - 1), fetch(query, k).value, parseFloat);
  }

  /** The catalogue left after both pages is the walk of their nodes, and
      its entries and keys are as the walk promises. */
  lemma ScrapedCatalogue(fetch: Fetcher, query: string, parseFloat: FloatParser, products: Catalogue)
    requires fetch(query, 1).Some? && fetch(query, 2).Some?
    requires products == Scan(map[], Walked(fetch, query, 2), parseFloat)
    ensures var nodes := fetch(query, 1).value + fetch(query, 2).value;
      products == Scan(map[], nodes, parseFloat)
    ensures var nodes := fetch(query, 1).value + fetch(query, 2).value;
      forall k :: Lookup(products, k) == Expected(map[], nodes, parseFloat, k)
    ensures forall k :: k in products ==> |k| > 0 && '/' !in k
  {
    WalkedTwo(fetch, query);
    var nodes := fetch(query, 1).value + fetch(query, 2).value;
    ScanExpected(map[], nodes, parseFloat);
    forall k | k in products ensures |k| > 0 && '/' !in k {
      ScanEntriesWellFormed(nodes, parseFloat, k);
    }
  }

}
