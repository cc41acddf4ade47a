/**
 * The inverse document frequency of every meme: the per-year indexes are
 * merged by union, the ids of every document are collected, and each meme
 * gets the ratio `num_articles / (len(docs) + 1)` whose base-10 logarithm
 * is its IDF.
 */
module Idf {
  import opened PaperNGrams
  import opened Combine

  /** `num_articles / num_meme_articles` with `num_meme_articles = len(containing_docs) + 1`. */
  function IdfArgument(numArticles: nat, numDocs: nat): real {
    numArticles as real / (numDocs + 1) as real
  }

  /** The ratio is non-negative, at most the number of articles, and shrinks as the meme's documents grow. */
  lemma IdfArgumentBounds(numArticles: nat, fewer: nat, more: nat)
    requires fewer <= more
    ensures 0.0 <= IdfArgument(numArticles, more) <= IdfArgument(numArticles, fewer) <= numArticles as real
  {
    var n := numArticles as real;
    var a, b := (fewer + 1) as real, (more + 1) as real;
    assert n / a - n / b == n * (b - a) / (a * b);
    assert n * (b - a) >= 0.0 && a * b > 0.0;
    assert n - n / a == n * (a - 1.0) / a;
    assert n * (a - 1.0) >= 0.0;
  }

  /** `for meme, containing_docs in meme_to_articles.items()`: the ratio of every meme. */
  method ComputeIdfArguments(memeToArticles: map<string, set<string>>, numArticles: nat)
    returns (memeToIdf: map<string, real>)
    ensures memeToIdf.Keys == memeToArticles.Keys
    ensures forall m :: m in memeToIdf ==> memeToIdf[m] == IdfArgument(numArticles, |memeToArticles[m]|)
  {
    memeToIdf := map[];
    var remaining := memeToArticles.Keys;
    while remaining != {}
      invariant remaining <= memeToArticles.Keys
      invariant memeToIdf.Keys == memeToArticles.Keys - remaining
      invariant forall m :: m in memeToIdf ==> memeToIdf[m] == IdfArgument(numArticles, |memeToArticles[m]|)
      decreases |remaining|
    {
      var meme :| meme in remaining;
      var numMemeArticles := |memeToArticles[meme]| + 1;
      memeToIdf := memeToIdf[meme := numArticles as real / numMemeArticles as real];
      remaining := remaining - {meme};
    }
  }

  /**
   * The script: the merged index, `all_paper_ids` as the documents of the
   * merged index, and the ratio of every meme of the merged index.
   */
  method ComputeIdfScores(years: seq<map<string, set<string>>>)
    returns (memeToArticles: map<string, set<string>>, allPaperIds: set<string>, memeToIdf: map<string, real>)
    ensures memeToArticles == Combined(years)
    ensures allPaperIds == DocsUnder(memeToArticles, memeToArticles.Keys)
    ensures memeToIdf.Keys == memeToArticles.Keys
    ensures forall m :: m in memeToIdf ==> memeToIdf[m] == IdfArgument(|allPaperIds|, |memeToArticles[m]|)
  {
    memeToArticles, allPaperIds := GetCombinedNGrams(years);
    AllDocsOfCombined(years);
    var numArticles := |allPaperIds|;
    memeToIdf := ComputeIdfArguments(memeToArticles, numArticles);
  }

  /** Every meme's documents are among all documents, so none has more documents than there are articles. */
  lemma MemeDocsBounded(index: map<string, set<string>>, m: string)
    requires m in index
    ensures index[m] <= DocsUnder(index, index.Keys)
    ensures |index[m]| <= |DocsUnder(index, index.Keys)|
  {
    var all := DocsUnder(index, index.Keys);
    assert all == index[m] + (all - index[m]);
    assert index[m] !! (all - index[m]);
  }

  /**
   * Each meme's ratio lies between `n/(n+1)` and `n` for `n` articles: its
   * denominator is at least 1 and at most `n + 1`.
   */
  lemma IdfArgumentRange(index: map<string, set<string>>, m: string)
    requires m in index
    ensures var n := |DocsUnder(index, index.Keys)|;
      IdfArgument(n, n) <= IdfArgument(n, |index[m]|) <= n as real
  {
    var n := |DocsUnder(index, index.Keys)|;
    MemeDocsBounded(index, m);
    IdfArgumentBounds(n, |index[m]|, n);
  }

  /**
   * The ratio is positive, so that its logarithm is defined, exactly when
   * the merged index has a document; with none, `num_articles` is 0 and
   * so is every ratio.
   */
  lemma IdfArgumentPositive(index: map<string, set<string>>, m: string)
    requires m in index
    ensures 0.0 < IdfArgument(|DocsUnder(index, index.Keys)|, |index[m]|) <==> DocsUnder(index, index.Keys) != {}
  {
    var n := |DocsUnder(index, index.Keys)|;
    PositiveRatio(n as real, (|index[m]| + 1) as real);
  }

  lemma PositiveRatio(a: real, b: real)
    requires 0.0 <= a && 0.0 < b
    ensures 0.0 < a / b <==> 0.0 < a
  {
    if 0.0 < a {
      assert 0.0 < a / b;
    } else {
      assert a / b == 0.0;
    }
  }
}
