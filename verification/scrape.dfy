/** The page extractor (`scrape_page`) and the run over the fixed page list
    (`main`). A rendered page is given as the sequence of its listings, in
    document order, with the four pieces of markup the scraper reads from
    each; the price parser (Python's `float`) is a parameter. */
module Scrape {
  import opened Wrappers
  import opened Text
  import opened Rating
  import opened Normalize
  import opened Books

  /** One `article.product_pod`: the title attribute and the link of its
      heading anchor, the text of its price element, and its class tokens. */
  datatype RawListing = RawListing(
    titleAttr: string,
    priceText: string,
    classTokens: seq<string>,
    href: string)

  /** Python's `float` on a price text: the number, or `None` where it raises
      `ValueError`. */
  type PriceParser = string -> Option<real>

  /** What becomes of one listing: the page aborts (the price did not parse
      and the error is not caught), the record is rejected by validation and
      skipped, or it is accepted. */
  datatype Outcome = Abort | Rejected | Accepted(book: Book)

  /** The price a listing's normalised price text parses to. */
  function ParsedPrice(l: RawListing, parse: PriceParser): Option<real> {
    parse(NormalizePrice(l.priceText))
  }

  /** The body of the per-listing loop: normalise the four fields, parse the
      price, build the record. Since the rating always comes out between 0
      and 5, validation rejects exactly the listings with a negative price. */
  function BuildListing(l: RawListing, parse: PriceParser): (o: Outcome)
    ensures o.Abort? <==> ParsedPrice(l, parse).None?
    ensures o.Rejected? <==> ParsedPrice(l, parse).Some? && ParsedPrice(l, parse).value < 0.0
    ensures o.Accepted? ==> Valid(o.book)
    ensures o.Accepted? ==> o.book.title == Strip(l.titleAttr)
    ensures o.Accepted? ==> o.book.price == ParsedPrice(l, parse).value
    ensures o.Accepted? ==> o.book.rating == ListingRating(l.classTokens)
    ensures o.Accepted? ==> o.book.url == ResolveUrl(l.href)
  {
    var title := Strip(l.titleAttr);
    var priceText := NormalizePrice(l.priceText);
    var rating := ListingRating(l.classTokens);
    var url := ResolveUrl(l.href);
    match parse(priceText)
    case None => Abort
    case Some(price) =>
      match MakeBook(title, price, rating, url)
      case None => Rejected
      case Some(b) => Accepted(b)
  }

  /** The step the scraper runs on each listing, with its price parser. */
  function Step(parse: PriceParser): RawListing -> Outcome {
    l => BuildListing(l, parse)
  }

  /** Every record the step accepts is valid and has an absolute link. */
  lemma AcceptedSound(l: RawListing, parse: PriceParser)
    requires BuildListing(l, parse).Accepted?
    ensures Valid(BuildListing(l, parse).book)
    ensures AbsoluteUrl(BuildListing(l, parse).book.url)
  {
    ResolveUrlAbsolute(l.href);
  }

  // ---------------------------------------------------------------------
  // The loop of scrape_page, for any per-listing step
  // ---------------------------------------------------------------------

  /** The outcomes of a page's listings under `step`, in document order. */
  function Outcomes(listings: seq<RawListing>, step: RawListing -> Outcome): (os: seq<Outcome>)
    ensures |os| == |listings|
    ensures forall i :: 0 <= i < |listings| ==> os[i] == step(listings[i])
    decreases |listings|
  {
    if |listings| == 0 then []
    else
      var n := |listings| - 1;
      var front := Outcomes(listings[..n], step);
      assert forall i :: 0 <= i < n ==> listings[..n][i] == listings[i];
      front + [step(listings[n])]
  }

  /** Some outcome is an abort. */
  ghost predicate AbortsIn(os: seq<Outcome>) {
    exists i :: 0 <= i < |os| && os[i].Abort?
  }

  /** The records of the accepted outcomes, in order. */
  function KeptOf(os: seq<Outcome>): (r: seq<Book>)
    ensures |r| <= |os|
    decreases |os|
  {
    if |os| == 0 then []
    else
      var n := |os| - 1;
      match os[n]
      case Accepted(b) => KeptOf(os[..n]) + [b]
      case _ => KeptOf(os[..n])
  }

  /** The positions of the accepted outcomes, in increasing order, each
      accepted position listed. */
  function AcceptedIndices(os: seq<Outcome>): (r: seq<int>)
    ensures forall k :: 0 <= k < |r| ==> 0 <= r[k] < |os| && os[r[k]].Accepted?
    ensures forall k, m :: 0 <= k < m < |r| ==> r[k] < r[m]
    ensures forall i :: 0 <= i < |os| && os[i].Accepted? ==> i in r
    decreases |os|
  {
    if |os| == 0 then []
    else
      var n := |os| - 1;
      var front := AcceptedIndices(os[..n]);
      assert forall i :: 0 <= i < n ==> os[..n][i] == os[i];
      if os[n].Accepted? then front + [n] else front
  }

  /** The kept records and the accepted positions pair up one to one: the
      `k`-th kept record is the one accepted at the `k`-th accepted position. */
  lemma {:induction false} AcceptedIndicesKept(os: seq<Outcome>)
    ensures |AcceptedIndices(os)| == |KeptOf(os)|
    ensures forall k :: 0 <= k < |AcceptedIndices(os)| ==>
      os[AcceptedIndices(os)[k]] == Accepted(KeptOf(os)[k])
    decreases |os|
  {
    if |os| > 0 {
      var n := |os| - 1;
      AcceptedIndicesKept(os[..n]);
      var front, kept := AcceptedIndices(os[..n]), KeptOf(os[..n]);
      var idx, all := AcceptedIndices(os), KeptOf(os);
      if os[n].Accepted? {
        assert idx == front + [n] && all == kept + [os[n].book];
      } else {
        assert idx == front && all == kept;
      }
      forall k | 0 <= k < |idx| ensures os[idx[k]] == Accepted(all[k]) {
        if k < |front| {
          assert idx[k] == front[k] && all[k] == kept[k];
          assert os[..n][front[k]] == os[front[k]];
        }
      }
    }
  }

  /** A record is kept exactly when some outcome accepts it. */
  lemma KeptOfMembership(os: seq<Outcome>, b: Book)
    ensures b in KeptOf(os) <==> Accepted(b) in os
  {
    var kept := KeptOf(os);
    var idx := AcceptedIndices(os);
    AcceptedIndicesKept(os);
    if Accepted(b) in os {
      var i :| 0 <= i < |os| && os[i] == Accepted(b);
      assert i in idx;
      var k :| 0 <= k < |idx| && idx[k] == i;
      assert kept[k] == b;
    }
    if b in kept {
      var k :| 0 <= k < |kept| && kept[k] == b;
      assert os[idx[k]] == Accepted(b);
    }
  }

  /** Keeping distributes over splitting the outcomes. */
  lemma {:induction false} KeptOfAppend(a: seq<Outcome>, b: seq<Outcome>)
    ensures KeptOf(a + b) == KeptOf(a) + KeptOf(b)
    decreases |b|
  {
    if |b| == 0 {
      assert a + b == a;
    } else {
      var n := |b| - 1;
      KeptOfAppend(a, b[..n]);
      assert (a + b)[..|a + b| - 1] == a + b[..n];
      assert (a + b)[|a + b| - 1] == b[n];
    }
  }

  /** When every outcome is an acceptance, every record is kept and nothing
      aborts. */
  lemma {:induction false} AllAcceptedKeptAll(os: seq<Outcome>)
    requires forall i :: 0 <= i < |os| ==> os[i].Accepted?
    ensures |KeptOf(os)| == |os|
    ensures !AbortsIn(os)
    decreases |os|
  {
    if |os| > 0 {
      var n := |os| - 1;
      assert forall i :: 0 <= i < n ==> os[..n][i] == os[i];
      AllAcceptedKeptAll(os[..n]);
    }
  }

  /** Some listing of the page aborts it under `step`. */
  ghost predicate Aborts(listings: seq<RawListing>, step: RawListing -> Outcome) {
    AbortsIn(Outcomes(listings, step))
  }

  /** The records of the page's accepted listings, in document order. */
  function Kept(listings: seq<RawListing>, step: RawListing -> Outcome): (r: seq<Book>)
    ensures |r| <= |listings|
  {
    KeptOf(Outcomes(listings, step))
  }

  /** A record is kept from a page exactly when the step accepts some
      listing of the page with it. */
  lemma KeptFrom(listings: seq<RawListing>, step: RawListing -> Outcome, b: Book)
    ensures b in Kept(listings, step) <==>
      exists i :: 0 <= i < |listings| && step(listings[i]) == Accepted(b)
  {
    var os := Outcomes(listings, step);
    KeptOfMembership(os, b);
    if Accepted(b) in os {
      var i :| 0 <= i < |os| && os[i] == Accepted(b);
      assert step(listings[i]) == Accepted(b);
    }
  }

  /** Outcomes of listings laid end to end are laid end to end. */
  lemma {:induction false} OutcomesAppend(a: seq<RawListing>, b: seq<RawListing>, step: RawListing -> Outcome)
    ensures Outcomes(a + b, step) == Outcomes(a, step) + Outcomes(b, step)
  {
    var l, r := Outcomes(a + b, step), Outcomes(a, step) + Outcomes(b, step);
    forall i | 0 <= i < |l| ensures l[i] == r[i] {
      if i < |a| {
        assert (a + b)[i] == a[i];
      } else {
        assert (a + b)[i] == b[i - |a|];
      }
    }
  }

  /** `scrape_page` once the page is rendered and parsed: the loop over the
      listings, appending accepted records and skipping rejected ones; an
      aborting listing ends the page with an error. */
  method ScrapePage(listings: seq<RawListing>, step: RawListing -> Outcome) returns (res: Option<seq<Book>>)
    ensures res.None? <==> Aborts(listings, step)
    ensures res.Some? ==> res.value == Kept(listings, step)
  {
    ghost var os := Outcomes(listings, step);
    var out: seq<Book> := [];
    var i := 0;
    while i < |listings|
      invariant 0 <= i <= |listings|
      invariant forall j :: 0 <= j < i ==> !os[j].Abort?
      invariant out == KeptOf(os[..i])
    {
      var o := step(listings[i]);
      if o.Abort? {
        assert os[i].Abort?;
        return None;
      }
      if o.Accepted? {
        out := out + [o.book];
      }
      assert os[..i + 1][..i] == os[..i];
      i := i + 1;
    }
    assert os[..i] == os;
    return Some(out);
  }

  // ---------------------------------------------------------------------
  // What the scraper's own step keeps
  // ---------------------------------------------------------------------

  /** Every record kept from a page is valid and has an absolute link. */
  lemma KeptValid(listings: seq<RawListing>, parse: PriceParser)
    ensures forall b :: b in Kept(listings, Step(parse)) ==> Valid(b) && AbsoluteUrl(b.url)
  {
    forall b | b in Kept(listings, Step(parse)) ensures Valid(b) && AbsoluteUrl(b.url) {
      KeptFrom(listings, Step(parse), b);
      var i :| 0 <= i < |listings| && Step(parse)(listings[i]) == Accepted(b);
      AcceptedSound(listings[i], parse);
    }
  }

  /** The records kept from a page are those of its accepted listings, taken
      in document order: the `k`-th record comes from the `k`-th accepted
      listing, and no accepted listing is missed. */
  lemma KeptInDocumentOrder(listings: seq<RawListing>, parse: PriceParser)
    ensures var kept := Kept(listings, Step(parse));
      var idx := AcceptedIndices(Outcomes(listings, Step(parse)));
      && |idx| == |kept|
      && (forall k :: 0 <= k < |idx| ==>
            0 <= idx[k] < |listings| && BuildListing(listings[idx[k]], parse) == Accepted(kept[k]))
      && (forall k, m :: 0 <= k < m < |idx| ==> idx[k] < idx[m])
      && (forall i :: 0 <= i < |listings| && BuildListing(listings[i], parse).Accepted? ==> i in idx)
  {
    var os := Outcomes(listings, Step(parse));
    AcceptedIndicesKept(os);
    assert forall i :: 0 <= i < |listings| ==> os[i] == BuildListing(listings[i], parse);
  }

  /** The page aborts exactly when some listing's price text does not parse. */
  lemma AbortsExactly(listings: seq<RawListing>, parse: PriceParser)
    ensures Aborts(listings, Step(parse)) <==>
      exists i :: 0 <= i < |listings| && ParsedPrice(listings[i], parse).None?
  {
    var os := Outcomes(listings, Step(parse));
    if i :| 0 <= i < |listings| && ParsedPrice(listings[i], parse).None? {
      assert os[i] == BuildListing(listings[i], parse);
    }
    if i :| 0 <= i < |os| && os[i].Abort? {
      assert os[i] == BuildListing(listings[i], parse);
    }
  }

  /** A page whose every price parses and is non-negative keeps all its
      listings: 20 well-formed listings give 20 records. */
  lemma WellFormedPageKeptAll(listings: seq<RawListing>, parse: PriceParser)
    requires forall i :: 0 <= i < |listings| ==>
      ParsedPrice(listings[i], parse).Some? && ParsedPrice(listings[i], parse).value >= 0.0
    ensures !Aborts(listings, Step(parse))
    ensures |Kept(listings, Step(parse))| == |listings|
  {
    var os := Outcomes(listings, Step(parse));
    forall i | 0 <= i < |os| ensures os[i].Accepted? {
      assert os[i] == BuildListing(listings[i], parse);
    }
    AllAcceptedKeptAll(os);
  }

  // ---------------------------------------------------------------------
  // main: the page loop
  // ---------------------------------------------------------------------

  /** The concatenation of a sequence of sequences, in order. */
  function Concat<T>(xss: seq<seq<T>>): seq<T>
    decreases |xss|
  {
    if |xss| == 0 then [] else Concat(xss[..|xss| - 1]) + xss[|xss| - 1]
  }

  /** The sum of the lengths of a sequence of sequences. */
  function TotalLength<T>(xss: seq<seq<T>>): nat
    decreases |xss|
  {
    if |xss| == 0 then 0 else TotalLength(xss[..|xss| - 1]) + |xss[|xss| - 1]|
  }

  /** Concatenation adds up the lengths. */
  lemma {:induction false} ConcatLength<T>(xss: seq<seq<T>>)
    ensures |Concat(xss)| == TotalLength(xss)
    decreases |xss|
  {
    if |xss| > 0 {
      ConcatLength(xss[..|xss| - 1]);
    }
  }

  /** The records each page keeps, page by page. */
  function KeptPerPage(pages: seq<seq<RawListing>>, step: RawListing -> Outcome): (r: seq<seq<Book>>)
    ensures |r| == |pages|
    ensures forall p :: 0 <= p < |pages| ==> r[p] == Kept(pages[p], step)
  {
    seq(|pages|, p requires 0 <= p < |pages| => Kept(pages[p], step))
  }

  /** Accumulating page by page is extracting from all the pages' listings
      laid end to end. */
  lemma {:induction false} ConcatKept(pages: seq<seq<RawListing>>, step: RawListing -> Outcome)
    ensures Concat(KeptPerPage(pages, step)) == Kept(Concat(pages), step)
    decreases |pages|
  {
    if |pages| > 0 {
      var n := |pages| - 1;
      ConcatKept(pages[..n], step);
      assert KeptPerPage(pages, step)[..n] == KeptPerPage(pages[..n], step);
      var front := Concat(pages[..n]);
      OutcomesAppend(front, pages[n], step);
      KeptOfAppend(Outcomes(front, step), Outcomes(pages[n], step));
    }
  }

  /** The page loop of `main`: every page's records are appended in page
      order; a page that fails ends the whole run with an error. */
  method ScrapeAll(pages: seq<seq<RawListing>>, step: RawListing -> Outcome) returns (res: Option<seq<Book>>)
    ensures res.None? <==> exists p :: 0 <= p < |pages| && Aborts(pages[p], step)
    ensures res.Some? ==> res.value == Concat(KeptPerPage(pages, step))
    ensures res.Some? ==> |res.value| == TotalLength(KeptPerPage(pages, step))
  {
    var all: seq<Book> := [];
    var i := 0;
    while i < |pages|
      invariant 0 <= i <= |pages|
      invariant forall p :: 0 <= p < i ==> !Aborts(pages[p], step)
      invariant all == Concat(KeptPerPage(pages[..i], step))
    {
      var r := ScrapePage(pages[i], step);
      if r.None? {
        return None;
      }
      assert KeptPerPage(pages[..i + 1], step)[..i] == KeptPerPage(pages[..i], step);
      all := all + r.value;
      i := i + 1;
    }
    assert pages[..i] == pages;
    ConcatLength(KeptPerPage(pages, step));
    return Some(all);
  }

  /** The fixed page list: the catalogue root, then its second page. */
  const PageUrls: seq<string> := [Base, Base + "catalogue/page-2.html"]

  /** `main` without the browser and the output file: each URL is turned into
      its listings by `fetch`, and the records of the first page come before
      those of the second. */
  method Run(fetch: string -> seq<RawListing>, parse: PriceParser) returns (res: Option<seq<Book>>)
    ensures res.None? <==> Aborts(fetch(PageUrls[0]), Step(parse)) || Aborts(fetch(PageUrls[1]), Step(parse))
    ensures res.Some? ==> res.value == Kept(fetch(PageUrls[0]), Step(parse)) + Kept(fetch(PageUrls[1]), Step(parse))
  {
    var pages := [fetch(PageUrls[0]), fetch(PageUrls[1])];
    res := ScrapeAll(pages, Step(parse));
    TwoPages(pages, Step(parse));
  }

  /** Two pages: the records of the first come before those of the second,
      and the run fails exactly when one of them does. */
  lemma TwoPages(pages: seq<seq<RawListing>>, step: RawListing -> Outcome)
    requires |pages| == 2
    ensures Concat(KeptPerPage(pages, step)) == Kept(pages[0], step) + Kept(pages[1], step)
    ensures (exists p :: 0 <= p < |pages| && Aborts(pages[p], step))
        <==> Aborts(pages[0], step) || Aborts(pages[1], step)
  {
    var per := KeptPerPage(pages, step);
    assert per[..1][..0] == [];
    assert per[..2][..1] == per[..1];
    assert per[..2] == per;
    assert Concat(per[..1]) == Concat(per[..0]) + per[0];
    assert Concat(per) == Concat(per[..1]) + per[1];
  }
}
