/**
 * The score components the meme-score scripts accumulate per meme and key:
 * five counters, the case split that increments them, the counters a set of
 * papers gives in closed form, and the frequency, sticking and sparking
 * ratios over exact rationals.
 */
module Aggregation {

  /**
   * One record of score components: `frequency`, `in_paper_in_citations`,
   * `in_citations`, `in_paper_not_in_citations` and `not_in_citations`.
   */
  datatype Counters = Counters(
    frequency: int,
    inPaperInCitations: int,
    inCitations: int,
    inPaperNotInCitations: int,
    notInCitations: int)

  /** The record a meme gets when it is first seen under a key. */
  const Zero: Counters := Counters(0, 0, 0, 0, 0)

  /** The increments for one paper that contains the meme. */
  function Bump(c: Counters, inCitations: bool): (r: Counters)
    ensures r.frequency == c.frequency + 1
  {
    if inCitations then
      c.(frequency := c.frequency + 1,
         inPaperInCitations := c.inPaperInCitations + 1,
         inCitations := c.inCitations + 1)
    else
      c.(frequency := c.frequency + 1,
         inPaperNotInCitations := c.inPaperNotInCitations + 1,
         notInCitations := c.notInCitations + 1)
  }

  /**
   * The four-way case split on whether the meme is in the paper and in its
   * citations; a paper without the meme only touches the citation counters.
   */
  function Tally(c: Counters, inPaper: bool, inCitations: bool): (r: Counters)
    ensures inPaper ==> r == Bump(c, inCitations)
  {
    if inPaper then Bump(c, inCitations)
    else if inCitations then c.(inCitations := c.inCitations + 1)
    else c.(notInCitations := c.notInCitations + 1)
  }

  /** The identities that hold when every tallied paper contains the meme. */
  predicate Balanced(c: Counters) {
    && c.inCitations == c.inPaperInCitations
    && c.notInCitations == c.inPaperNotInCitations
    && c.frequency == c.inPaperInCitations + c.inPaperNotInCitations
  }

  predicate NonNegative(c: Counters) {
    c.frequency >= 0 && c.inPaperInCitations >= 0 && c.inCitations >= 0
    && c.inPaperNotInCitations >= 0 && c.notInCitations >= 0
  }

  /** Tallying keeps the counters balanced exactly when the paper contains the meme. */
  lemma TallyBalance(c: Counters, inPaper: bool, inCitations: bool)
    requires Balanced(c)
    ensures Balanced(Tally(c, inPaper, inCitations)) <==> inPaper
  {
  }

  /**
   * The counters of the papers `s` containing a meme, of which those in
   * `cited` cite a paper with the meme.
   */
  function CountsOf<T>(s: set<T>, cited: set<T>): (r: Counters)
    ensures Balanced(r) && NonNegative(r)
  {
    Counters(|s|, |s * cited|, |s * cited|, |s - cited|, |s - cited|)
  }

  lemma CountsOfEmpty<T>(cited: set<T>)
    ensures CountsOf({}, cited) == Zero
  {
    assert {} * cited == {};
    assert {} - cited == {};
  }

  /** Bumping the counters of `s` for one more paper gives the counters of the larger set. */
  lemma CountsAdd<T>(s: set<T>, cited: set<T>, p: T)
    requires p !in s
    ensures CountsOf(s + {p}, cited) == Bump(CountsOf(s, cited), p in cited)
  {
    if p in cited {
      assert (s + {p}) * cited == s * cited + {p};
      assert (s + {p}) - cited == s - cited;
    } else {
      assert (s + {p}) * cited == s * cited;
      assert (s + {p}) - cited == (s - cited) + {p};
    }
  }

  /** Bumping the counters of `a`, or the fresh record when `a` is empty, for one more publication. */
  lemma CountsBumpFrom<T>(cur: Counters, a: set<T>, pub: T, cited: set<T>, inCitations: bool)
    requires pub !in a
    requires |a| > 0 ==> cur == CountsOf(a, cited)
    requires |a| == 0 ==> cur == Zero
    requires inCitations <==> pub in cited
    ensures Bump(cur, inCitations) == CountsOf(a + {pub}, cited)
  {
    if |a| == 0 {
      assert a == {};
      CountsOfEmpty(cited);
    }
    CountsAdd(a, cited, pub);
  }

  function Add(a: Counters, b: Counters): Counters {
    Counters(
      a.frequency + b.frequency,
      a.inPaperInCitations + b.inPaperInCitations,
      a.inCitations + b.inCitations,
      a.inPaperNotInCitations + b.inPaperNotInCitations,
      a.notInCitations + b.notInCitations)
  }

  /** The counters of two disjoint sets of papers add up. */
  lemma CountsOfUnion<T>(a: set<T>, b: set<T>, cited: set<T>)
    requires a * b == {}
    ensures CountsOf(a + b, cited) == Add(CountsOf(a, cited), CountsOf(b, cited))
  {
    assert (a + b) * cited == a * cited + b * cited;
    assert (a * cited) * (b * cited) == {};
    assert (a + b) - cited == (a - cited) + (b - cited);
    assert (a - cited) * (b - cited) == {};
  }

  /** Every counter of `a` is at most the same counter of `b`. */
  predicate AtMost(a: Counters, b: Counters) {
    && a.frequency <= b.frequency
    && a.inPaperInCitations <= b.inPaperInCitations
    && a.inCitations <= b.inCitations
    && a.inPaperNotInCitations <= b.inPaperNotInCitations
    && a.notInCitations <= b.notInCitations
  }

  /** Tallying more papers never lowers a counter. */
  lemma CountsOfSubset<T>(a: set<T>, b: set<T>, cited: set<T>)
    requires a <= b
    ensures AtMost(CountsOf(a, cited), CountsOf(b, cited))
  {
    assert b == a + (b - a);
    CountsOfUnion(a, b - a, cited);
  }

  // ---------------------------------------------------------------------
  // is_meme_in_paper, is_meme_in_citations
  // ---------------------------------------------------------------------

  /** `meme in index and paper in index[meme]`. */
  predicate IsMemeInPaper(paper: string, meme: string, index: map<string, set<string>>) {
    meme in index && paper in index[meme]
  }

  /** Some cited paper is listed under the meme. */
  predicate CitesMeme(citations: seq<string>, meme: string, index: map<string, set<string>>) {
    exists k :: 0 <= k < |citations| && IsMemeInPaper(citations[k], meme, index)
  }

  /** One truth value per cited paper, then `any`. */
  method IsMemeInCitations(citations: seq<string>, meme: string, memeToArticles: map<string, set<string>>)
    returns (b: bool)
    ensures b <==> CitesMeme(citations, meme, memeToArticles)
    ensures citations == [] ==> !b
  {
    var truthVals: seq<bool> := [];
    for k := 0 to |citations|
      invariant |truthVals| == k
      invariant forall j :: 0 <= j < k ==> (truthVals[j] <==> IsMemeInPaper(citations[j], meme, memeToArticles))
    {
      truthVals := truthVals + [IsMemeInPaper(citations[k], meme, memeToArticles)];
    }
    b := true in truthVals;
    if b {
      var j :| 0 <= j < |truthVals| && truthVals[j];
      assert IsMemeInPaper(citations[j], meme, memeToArticles);
    }
  }

  // ---------------------------------------------------------------------
  // The ratios of the meme score, over exact rationals
  // ---------------------------------------------------------------------

  /** `meme_frequency / total_frequency`. */
  function FrequencyScore(frequency: int, numPapers: int): real
    requires numPapers != 0
  {
    frequency as real / numPapers as real
  }

  /** The smoothed score with constant 3: sticking `ipic/(3+ic)`, sparking `(3+ipnic)/(3+nic)`. */
  function StickingScore3(c: Counters): real
    requires NonNegative(c)
  {
    c.inPaperInCitations as real / (3 + c.inCitations) as real
  }

  function SparkingScore3(c: Counters): real
    requires NonNegative(c)
  {
    (3 + c.inPaperNotInCitations) as real / (3 + c.notInCitations) as real
  }

  /** `frequency_score * sticking_score / sparking_score` with smoothing constant 3. */
  function MemeScore3(c: Counters, numPapers: int): real
    requires NonNegative(c) && numPapers != 0
  {
    FrequencyScore(c.frequency, numPapers) * StickingScore3(c) / SparkingScore3(c)
  }

  /**
   * For balanced counters of a meme found in some of `numPapers` papers
   * the sparking ratio is 1, the sticking ratio lies in [0, 1), and the
   * score is the frequency score times `ipic/(ipic+3)`.
   */
  lemma MemeScore3Balanced(c: Counters, numPapers: int)
    requires NonNegative(c) && Balanced(c)
    requires 0 < c.frequency <= numPapers
    ensures SparkingScore3(c) == 1.0
    ensures 0.0 <= StickingScore3(c) < 1.0
    ensures 0.0 < FrequencyScore(c.frequency, numPapers) <= 1.0
    ensures MemeScore3(c, numPapers)
      == FrequencyScore(c.frequency, numPapers) * (c.inPaperInCitations as real / (c.inPaperInCitations + 3) as real)
    ensures 0.0 <= MemeScore3(c, numPapers) < 1.0
  {
    SelfRatio((3 + c.notInCitations) as real);
    RatioBelowOne(c.inPaperInCitations as real, (3 + c.inCitations) as real);
    RatioAtMostOne(c.frequency as real, numPapers as real);
    ProductBelowOne(FrequencyScore(c.frequency, numPapers), StickingScore3(c));
    DivideByOne(FrequencyScore(c.frequency, numPapers) * StickingScore3(c), SparkingScore3(c));
    assert MemeScore3(c, numPapers) == FrequencyScore(c.frequency, numPapers) * StickingScore3(c);
  }

  lemma DivideByOne(x: real, y: real)
    requires y == 1.0
    ensures x / y == x
  {
  }

  lemma SelfRatio(a: real)
    requires a > 0.0
    ensures a / a == 1.0
  {
  }

  lemma RatioBelowOne(a: real, b: real)
    requires 0.0 <= a < b
    ensures 0.0 <= a / b < 1.0
  {
  }

  lemma RatioAtMostOne(a: real, b: real)
    requires 0.0 < a <= b
    ensures 0.0 < a / b <= 1.0
  {
  }

  lemma ProductBelowOne(x: real, y: real)
    requires 0.0 < x <= 1.0 && 0.0 <= y < 1.0
    ensures 0.0 <= x * y < 1.0
  {
    assert x * y <= 1.0 * y;
  }
}
