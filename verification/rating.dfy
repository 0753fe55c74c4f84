/** Star ratings: the catalogue writes a listing's rating as one of five words
    among the listing's style-class tokens. */
module Rating {
  import opened Text

  /** The rating words, in rating order: word `k - 1` stands for `k` stars. */
  const RatingWords: seq<string> := ["One", "Two", "Three", "Four", "Five"]

  /** The table lookup of `rating_to_int`: a rating word's star count, and
      0 for any other text. */
  function StarsOf(w: string): (n: int)
    ensures 0 <= n <= 5
    ensures n > 0 <==> w in RatingWords
    ensures n > 0 ==> RatingWords[n - 1] == w
  {
    if w == "One" then 1
    else if w == "Two" then 2
    else if w == "Three" then 3
    else if w == "Four" then 4
    else if w == "Five" then 5
    else 0
  }

  /** `rating_to_int`: the word's star count after stripping surrounding
      whitespace, and 0 for anything that is not a rating word. */
  function RatingToInt(word: string): (n: int)
    ensures 0 <= n <= 5
  {
    StarsOf(Strip(word))
  }

  /** `rating_to_int` is positive exactly on the words that are a rating word
      once stripped, and then it is that word's position counted from one. */
  lemma RatingToIntMeaning(word: string)
    ensures var n := RatingToInt(word);
      && (n > 0 <==> Strip(word) in RatingWords)
      && (n > 0 ==> RatingWords[n - 1] == Strip(word))
  {
  }

  /** Neither a rating word nor the empty string carries surrounding
      whitespace, so `strip` leaves them as they are. */
  lemma RatingWordStripped(w: string)
    requires w in RatingWords || w == ""
    ensures Strip(w) == w
  {
    assert w == "One" || w == "Two" || w == "Three" || w == "Four" || w == "Five" || w == "";
    StripUnchanged(w);
  }

  /** On a word without surrounding whitespace, `rating_to_int` is the table
      lookup. */
  lemma RatingToIntOfStripped(w: string)
    requires Strip(w) == w
    ensures RatingToInt(w) == StarsOf(w)
  {
  }

  /** Each rating word maps to its position in the table, counted from one:
      "One" to 1, ..., "Five" to 5. */
  lemma RatingWordValue(k: nat)
    requires 1 <= k <= 5
    ensures RatingToInt(RatingWords[k - 1]) == k
  {
    var w := RatingWords[k - 1];
    assert StarsOf(w) == k;
    assert w in RatingWords;
    RatingWordStripped(w);
    RatingToIntOfStripped(w);
  }

  /** `i` is the position of the first rating word among `tokens`. */
  ghost predicate FirstRatingAt(tokens: seq<string>, i: int) {
    && 0 <= i < |tokens|
    && tokens[i] in RatingWords
    && forall j :: 0 <= j < i ==> tokens[j] !in RatingWords
  }

  /** The token the scraper hands to `rating_to_int`: the first class token
      that is a rating word, or the empty string when there is none. */
  function PickRatingToken(tokens: seq<string>): (w: string)
    ensures w == "" <==> forall i :: 0 <= i < |tokens| ==> tokens[i] !in RatingWords
    ensures w == "" || w in RatingWords
    ensures w != "" ==> exists i :: FirstRatingAt(tokens, i) && tokens[i] == w
  {
    if |tokens| == 0 then ""
    else if tokens[0] in RatingWords then
      assert FirstRatingAt(tokens, 0);
      tokens[0]
    else
      var w := PickRatingToken(tokens[1..]);
      assert w != "" ==> exists i :: FirstRatingAt(tokens, i) && tokens[i] == w by {
        if w != "" {
          var i :| FirstRatingAt(tokens[1..], i) && tokens[1..][i] == w;
          assert FirstRatingAt(tokens, i + 1);
        }
      }
      w
  }

  /** The rating a listing gets from its class tokens: `rating_to_int` of the
      picked token. */
  function ListingRating(tokens: seq<string>): (n: int)
    ensures 0 <= n <= 5
    ensures n == StarsOf(PickRatingToken(tokens))
  {
    var w := PickRatingToken(tokens);
    RatingWordStripped(w);
    RatingToIntOfStripped(w);
    RatingToInt(w)
  }

  /** The listing's rating is 0 exactly when no class token is a rating
      word, and otherwise the star count of the first one. */
  lemma ListingRatingFirst(tokens: seq<string>)
    ensures var n := ListingRating(tokens);
      && 0 <= n <= 5
      && (n == 0 <==> forall i :: 0 <= i < |tokens| ==> tokens[i] !in RatingWords)
      && (n > 0 ==> exists i :: FirstRatingAt(tokens, i) && tokens[i] == RatingWords[n - 1])
  {
    var w := PickRatingToken(tokens);
    assert StarsOf("") == 0;
    if w != "" {
      assert StarsOf(w) > 0;
    }
  }
}
