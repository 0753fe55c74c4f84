/** Field normalisation of one listing: the price text loses its currency
    artifact and the link is made absolute. (The title is only stripped; see
    `Text.Strip`.) */
module Normalize {
  import opened Text

  /** The site root every page and link is resolved against. */
  const Base: string := "https://books.toscrape.com/"

  /** The pound sign as it reaches the scraper after a double decoding:
      "Â£", that is U+00C2 followed by U+00A3. */
  const CurrencyArtifact: string := "\U{C2}\U{A3}"

  /** The parent-directory prefix the scraper replaces in links. */
  const Traversal: string := "../../../"

  /** Every "Â" in `t` is the start of a "Â£", as in "Â£51.77". */
  ghost predicate ArtifactsWellFormed(t: string) {
    forall j :: 0 <= j < |t| && t[j] == CurrencyArtifact[0] ==> StartsAt(t, j, CurrencyArtifact)
  }

  /** The price text with every "Â£" removed, in one left-to-right pass. */
  function NormalizePrice(text: string): (r: string)
    ensures |r| <= |text|
  {
    Replace(text, CurrencyArtifact, "")
  }

  /** A price text without "Â£" is left as it is. */
  lemma NormalizePriceUnchanged(text: string)
    requires !Occurs(CurrencyArtifact, text)
    ensures NormalizePrice(text) == text
  {
    ReplaceAbsent(text, CurrencyArtifact, "");
  }

  /** On price texts in which every "Â" starts a "Â£", no "Â£" is left. */
  lemma NormalizePriceRemovesArtifact(text: string)
    requires ArtifactsWellFormed(text)
    ensures !Occurs(CurrencyArtifact, NormalizePrice(text))
  {
    ReplaceRemovesLead(text, CurrencyArtifact, "");
  }

  /** On price texts in which every "Â" starts a "Â£", normalising twice is normalising
      once. */
  lemma NormalizePriceIdempotent(text: string)
    requires ArtifactsWellFormed(text)
    ensures NormalizePrice(NormalizePrice(text)) == NormalizePrice(text)
  {
    NormalizePriceRemovesArtifact(text);
    NormalizePriceUnchanged(NormalizePrice(text));
  }

  /** Without the well-formedness condition the single pass is neither
      complete nor idempotent: removing the inner "Â£" of "ÂÂ££" joins the
      outer characters into a new "Â£". */
  lemma NormalizePriceCanReintroduce()
    ensures NormalizePrice("\U{C2}\U{C2}\U{A3}\U{A3}") == CurrencyArtifact
    ensures NormalizePrice(CurrencyArtifact) == ""
  {
  }

  /** A price text of the form "Â£51.77" becomes "51.77". */
  lemma NormalizePriceExample()
    ensures NormalizePrice("\U{C2}\U{A3}51.77") == "51.77"
  {
  }

  /** No position of the base can start a "../../../", whatever follows. */
  lemma BaseIsInert()
    ensures NoMatchStartsIn(Base, Traversal)
  {
  }

  /** A link is absolute: it starts with the base and holds no "../../../". */
  ghost predicate AbsoluteUrl(u: string) {
    |Base| <= |u| && u[..|Base|] == Base && !Occurs(Traversal, u)
  }

  /** The link made absolute: the base is put in front of `rel`, then every
      "../../../" in the whole text is replaced by the base. */
  function ResolveUrl(rel: string): (u: string)
    ensures |Base| + |rel| <= |u|
    ensures u[..|Base|] == Base
  {
    BaseIsInert();
    ReplaceAfterInertPrefix(Base, rel, Traversal, Base);
    Replace(Base + rel, Traversal, Base)
  }

  /** The resolved link starts with the base and holds no "../../../", even
      where replacing one has put text next to another. */
  lemma ResolveUrlAbsolute(rel: string)
    ensures AbsoluteUrl(ResolveUrl(rel))
  {
    BaseIsInert();
    ReplaceAfterInertPrefix(Base, rel, Traversal, Base);
    ReplaceLeavesNoMatch(Base + rel, Traversal, Base);
  }

  /** A link without "../../../" is simply appended to the base. */
  lemma ResolveUrlPlain(rel: string)
    requires !Occurs(Traversal, rel)
    ensures ResolveUrl(rel) == Base + rel
  {
    BaseIsInert();
    ReplaceAfterInertPrefix(Base, rel, Traversal, Base);
    ReplaceAbsent(rel, Traversal, Base);
  }

  /** A link that starts with "../../../" gets the base twice: once from the
      concatenation and once from the replacement. */
  lemma {:induction false} ResolveUrlTraversal(rest: string)
    ensures ResolveUrl(Traversal + rest) == Base + Base + Replace(rest, Traversal, Base)
  {
    var t := Traversal + rest;
    BaseIsInert();
    ReplaceAfterInertPrefix(Base, t, Traversal, Base);
    assert t[..|Traversal|] == Traversal;
    assert t[|Traversal|..] == rest;
  }

  /** The front page's link to its first book cannot start a "../../../". */
  lemma FrontPageLinkIsInert()
    ensures NoMatchStartsIn("catalogue/a-light-in-the-attic_1000/index.html", Traversal)
  {
    var head, tail := "catalogue/a-light-in-", "the-attic_1000/index.html";
    var rel := head + tail;
    assert rel == "catalogue/a-light-in-the-attic_1000/index.html";
    assert NoMatchStartsIn(head, Traversal) && NoMatchStartsIn(tail, Traversal);
    forall i | 0 <= i < |rel|
      ensures rel[i] != Traversal[0] || (i + 1 < |rel| && rel[i + 1] != Traversal[1])
    {
      if i < |head| {
        assert rel[i] == head[i];
      } else {
        assert rel[i] == tail[i - |head|];
        if i + 1 < |rel| { assert rel[i + 1] == tail[i + 1 - |head|]; }
      }
    }
  }

  /** The front page's links: "catalogue/a-light-in-the-attic_1000/index.html"
      resolves to the base followed by that link. */
  lemma ResolveUrlExample()
    ensures ResolveUrl("catalogue/a-light-in-the-attic_1000/index.html")
         == Base + "catalogue/a-light-in-the-attic_1000/index.html"
  {
    var rel := "catalogue/a-light-in-the-attic_1000/index.html";
    FrontPageLinkIsInert();
    ResolveInertLink(rel);
  }

  /** A link in which no "../../../" can start is simply appended to the
      base. */
  lemma ResolveInertLink(rel: string)
    requires NoMatchStartsIn(rel, Traversal)
    ensures ResolveUrl(rel) == Base + rel
  {
    ReplaceAfterInertPrefix(rel, [], Traversal, Base);
    assert rel + [] == rel;
    BaseIsInert();
    ReplaceAfterInertPrefix(Base, rel, Traversal, Base);
  }
}
