/**
 * compute_meme_scores.py: the yearly paper totals and the meme score
 * components of the AI disciplines, each with a weighted twin in which a
 * paper of year `y` weighs `(y - 1991 + 1) / (curr_year - 1991 + 1)`, and
 * the scores with smoothing constant 1.
 */
module MemeScores {
  import opened Corpus
  import opened Aggregation
  import opened Cumulative

  // ---------------------------------------------------------------------
  // compute_overall_frequencies
  // ---------------------------------------------------------------------

  /** `year_to_frequencies[year]`: `num_papers` and `weighted_num_papers`. */
  datatype YearTotals = YearTotals(numPapers: int, weightedNumPapers: real)

  /** One more paper of weight `w`. */
  function AddPaper(t: YearTotals, w: real): YearTotals {
    YearTotals(t.numPapers + 1, t.weightedNumPapers + w)
  }

  function Plus(a: YearTotals, b: YearTotals): YearTotals {
    YearTotals(a.numPapers + b.numPapers, a.weightedNumPapers + b.weightedNumPapers)
  }

  /** What the papers `docs` add to the totals of `year`: nothing after 2022. */
  function TotalsOf(docs: set<string>, p2m: map<string, PaperMetadata>, year: int): YearTotals {
    if year <= LastYear then YearTotals(|Reached(docs, p2m, year)|, Weighted(docs, p2m, year))
    else YearTotals(0, 0.0)
  }

  /**
   * `for curr_year in range(year, 2023)`: 1 to `num_papers` and the
   * paper's weight to `weighted_num_papers` of every year from the
   * paper's year through 2022.
   */
  method CountYears(yearToFrequencies: map<int, YearTotals>, year: int) returns (r: map<int, YearTotals>)
    requires FirstYear <= year
    requires forall y :: year <= y <= LastYear ==> y in yearToFrequencies
    ensures r.Keys == yearToFrequencies.Keys
    ensures forall y :: y in r ==>
      r[y] == if year <= y <= LastYear then AddPaper(yearToFrequencies[y], Weight(year, y)) else yearToFrequencies[y]
  {
    r := yearToFrequencies;
    var currYear := year;
    while currYear <= LastYear
      invariant year <= currYear
      invariant currYear <= LastYear + 1 || currYear == year
      invariant r.Keys == yearToFrequencies.Keys
      invariant forall y :: y in r ==>
        r[y] == if year <= y < currYear then AddPaper(yearToFrequencies[y], Weight(year, y)) else yearToFrequencies[y]
      decreases LastYear - currYear
    {
      r := r[currYear := r[currYear].(numPapers := r[currYear].numPapers + 1)];
      var weightedFreq := (year - FirstYear + 1) as real / (currYear - FirstYear + 1) as real;
      r := r[currYear := r[currYear].(weightedNumPapers := r[currYear].weightedNumPapers + weightedFreq)];
      currYear := currYear + 1;
    }
  }

  /** One more dated paper adds 1 and its weight to the totals of each year from its own through 2022. */
  lemma TotalsAdd(docs: set<string>, p2m: map<string, PaperMetadata>, d: string, y: int)
    requires d in p2m && d !in docs && FirstYear <= p2m[d].year
    ensures TotalsOf(docs + {d}, p2m, y)
      == if p2m[d].year <= y <= LastYear then AddPaper(TotalsOf(docs, p2m, y), Weight(p2m[d].year, y))
         else TotalsOf(docs, p2m, y)
  {
    ReachedCard(docs, p2m, d, y);
    WeightedAdd(docs, p2m, d, y);
  }

  /**
   * compute_overall_frequencies: every paper whose categories include one
   * of the AI disciplines is counted, plainly and by weight, under each
   * year from its release through 2022.
   */
  method ComputeOverallFrequencies(yearToFrequencies: map<int, YearTotals>, p2m: map<string, PaperMetadata>)
    returns (r: map<int, YearTotals>)
    requires CoversYears(yearToFrequencies.Keys, MatchingPapers(p2m, ValidDisciplines), p2m)
    requires Dated(MatchingPapers(p2m, ValidDisciplines), p2m)
    ensures r.Keys == yearToFrequencies.Keys
    ensures forall y :: y in r ==>
      r[y] == Plus(yearToFrequencies[y], TotalsOf(MatchingPapers(p2m, ValidDisciplines), p2m, y))
  {
    r := yearToFrequencies;
    ghost var matched: set<string> := {};
    var remaining := p2m.Keys;
    assert p2m.Keys - remaining == {};
    forall y | y in r
      ensures r[y] == Plus(yearToFrequencies[y], TotalsOf(matched, p2m, y))
    {
      WeightSumEmpty(p2m, y, y);
    }
    while remaining != {}
      invariant remaining <= p2m.Keys
      invariant matched == Matching(p2m.Keys - remaining, p2m, ValidDisciplines)
      invariant r.Keys == yearToFrequencies.Keys
      invariant forall y :: y in r ==> r[y] == Plus(yearToFrequencies[y], TotalsOf(matched, p2m, y))
      decreases |remaining|
    {
      var paper :| paper in remaining;
      MatchingStepAll(p2m, remaining, paper, ValidDisciplines);
      var metadata := p2m[paper];
      if MatchesAny(metadata.categories, ValidDisciplines) {
        assert paper in MatchingPapers(p2m, ValidDisciplines);
        r := CountPaper(r, paper, p2m, yearToFrequencies, matched);
        matched := matched + {paper};
      }
      remaining := remaining - {paper};
    }
    assert p2m.Keys - remaining == p2m.Keys;
  }

  /** The body of the loop over the papers, for a paper that matches the disciplines. */
  method CountPaper(yearToFrequencies: map<int, YearTotals>, paper: string, p2m: map<string, PaperMetadata>,
                    ghost start: map<int, YearTotals>, ghost matched: set<string>)
    returns (r: map<int, YearTotals>)
    requires paper in p2m && paper !in matched && FirstYear <= p2m[paper].year
    requires forall y :: p2m[paper].year <= y <= LastYear ==> y in yearToFrequencies
    requires yearToFrequencies.Keys == start.Keys
    requires forall y :: y in yearToFrequencies ==> yearToFrequencies[y] == Plus(start[y], TotalsOf(matched, p2m, y))
    ensures r.Keys == start.Keys
    ensures forall y :: y in r ==> r[y] == Plus(start[y], TotalsOf(matched + {paper}, p2m, y))
  {
    var year := p2m[paper].year;
    r := CountYears(yearToFrequencies, year);
    forall y | y in r
      ensures r[y] == Plus(start[y], TotalsOf(matched + {paper}, p2m, y))
    {
      TotalsAdd(matched, p2m, paper, y);
    }
  }

  /**
   * Every weight lies in (0, 1], so started from zero a year's
   * `weighted_num_papers` lies between 0 and its `num_papers`, and is
   * positive exactly when `num_papers` is.
   */
  lemma WeightedTotalsBounds(p2m: map<string, PaperMetadata>, y: int)
    requires Dated(MatchingPapers(p2m, ValidDisciplines), p2m)
    ensures var t := TotalsOf(MatchingPapers(p2m, ValidDisciplines), p2m, y);
            && 0.0 <= t.weightedNumPapers <= t.numPapers as real
            && (t.weightedNumPapers > 0.0 <==> t.numPapers > 0)
  {
    WeightedBounds(MatchingPapers(p2m, ValidDisciplines), p2m, y);
  }

  // ---------------------------------------------------------------------
  // compute_n_gram_meme_score_terms
  // ---------------------------------------------------------------------

  /**
   * compute_n_gram_meme_score_terms, started from an empty
   * `meme_to_score_components`: only the IDF threshold and the discipline
   * filter apply (no minimum number of papers), and a meme's entry under a
   * year holds the plain and weighted counters of its matching papers
   * released by then.
   */
  method ComputeNGramMemeScoreTerms(memeToArticles: map<string, set<string>>, p2m: map<string, PaperMetadata>,
                                    memeToIdf: map<string, real>)
    returns (memeToScoreComponents: map<string, map<int, Terms>>)
    requires Readable(memeToArticles, p2m, memeToIdf, ValidDisciplines, 0)
    ensures forall m :: m in memeToScoreComponents <==>
      m in memeToArticles && m in memeToIdf && memeToIdf[m] >= IdfThreshold
      && |Matching(memeToArticles[m], p2m, ValidDisciplines)| > 0
    ensures forall m :: m in memeToScoreComponents ==>
      memeToScoreComponents[m] == EntryOf(m, memeToArticles, p2m, ValidDisciplines)
  {
    memeToScoreComponents := ScoreTerms(memeToArticles, p2m, memeToIdf, ValidDisciplines, 0);
  }

  /** The papers counted under a year that cite the meme are those of the year's papers that cite it. */
  lemma ReachedSplit(docs: set<string>, cited: set<string>, p2m: map<string, PaperMetadata>, y: int)
    ensures Reached(docs * cited, p2m, y) == Reached(docs, p2m, y) * cited
    ensures Reached(docs - cited, p2m, y) == Reached(docs, p2m, y) - cited
  {
  }

  /**
   * The shape of every entry: the plain counters are balanced and
   * non-negative, each weighted counter lies between 0 and its plain
   * counterpart, the weighted twins of `in_citations` and
   * `not_in_citations` equal those of `in_paper_in_citations` and
   * `in_paper_not_in_citations`, and the weighted frequency is positive.
   */
  predicate TermsBounded(t: Terms) {
    && Balanced(t.plain) && NonNegative(t.plain)
    && 0.0 < t.weighted.frequency <= t.plain.frequency as real
    && 0.0 <= t.weighted.inPaperInCitations <= t.plain.inPaperInCitations as real
    && 0.0 <= t.weighted.inPaperNotInCitations <= t.plain.inPaperNotInCitations as real
    && t.weighted.inCitations == t.weighted.inPaperInCitations
    && t.weighted.notInCitations == t.weighted.inPaperNotInCitations
  }

  /** Every entry that compute_n_gram_meme_score_terms gives a meme has that shape. */
  lemma WeightedTermsBounds(memeToArticles: map<string, set<string>>, p2m: map<string, PaperMetadata>,
                            memeToIdf: map<string, real>, m: string, y: int)
    requires Readable(memeToArticles, p2m, memeToIdf, ValidDisciplines, 0)
    requires HasEntry(m, memeToArticles, p2m, memeToIdf, ValidDisciplines, 0)
    requires y in EntryOf(m, memeToArticles, p2m, ValidDisciplines)
    ensures TermsBounded(EntryOf(m, memeToArticles, p2m, ValidDisciplines)[y])
  {
    var docs := Matching(memeToArticles[m], p2m, ValidDisciplines);
    var cited := Citing(memeToArticles[m], m, p2m, memeToArticles);
    assert Dated(docs, p2m);
    WeightedBounds(docs, p2m, y);
    WeightedBounds(docs * cited, p2m, y);
    WeightedBounds(docs - cited, p2m, y);
    ReachedSplit(docs, cited, p2m, y);
  }

  // ---------------------------------------------------------------------
  // save_annual_meme_scores, smoothing constant 1
  // ---------------------------------------------------------------------

  /** `in_paper_in_citations / (1 + in_citations)`, for the plain and the weighted counters alike. */
  function StickingScore1(inPaperInCitations: real, inCitations: real): real
    requires 1.0 + inCitations != 0.0
  {
    inPaperInCitations / (1.0 + inCitations)
  }

  /** `in_paper_not_in_citations / (1 + not_in_citations)`: no smoothing in the numerator. */
  function SparkingScore1(inPaperNotInCitations: real, notInCitations: real): real
    requires 1.0 + notInCitations != 0.0
  {
    inPaperNotInCitations / (1.0 + notInCitations)
  }

  /** What `frequency_score * sticking_score / sparking_score` needs so as not to divide by zero. */
  predicate Defined1(frequency: real, total: real, ipic: real, ic: real, ipnic: real, nic: real) {
    total != 0.0 && 1.0 + ic != 0.0 && 1.0 + nic != 0.0 && ipnic != 0.0
  }

  function MemeScore1(frequency: real, total: real, ipic: real, ic: real, ipnic: real, nic: real): real
    requires Defined1(frequency, total, ipic, ic, ipnic, nic)
  {
    frequency / total * StickingScore1(ipic, ic) / SparkingScore1(ipnic, nic)
  }

  /** `meme_to_year_scores[meme][curr_year]`. */
  datatype YearScore = YearScore(memeScore: real, weightedMemeScore: real)

  /** The two scores of one year are defined: both totals and both `in_paper_not_in_citations` are non-zero. */
  predicate Scorable1(t: Terms, totals: YearTotals) {
    && Defined1(t.plain.frequency as real, totals.numPapers as real, t.plain.inPaperInCitations as real,
                t.plain.inCitations as real, t.plain.inPaperNotInCitations as real, t.plain.notInCitations as real)
    && Defined1(t.weighted.frequency, totals.weightedNumPapers, t.weighted.inPaperInCitations,
                t.weighted.inCitations, t.weighted.inPaperNotInCitations, t.weighted.notInCitations)
  }

  function ScoreOf(t: Terms, totals: YearTotals): YearScore
    requires Scorable1(t, totals)
  {
    YearScore(
      MemeScore1(t.plain.frequency as real, totals.numPapers as real, t.plain.inPaperInCitations as real,
                 t.plain.inCitations as real, t.plain.inPaperNotInCitations as real, t.plain.notInCitations as real),
      MemeScore1(t.weighted.frequency, totals.weightedNumPapers, t.weighted.inPaperInCitations,
                 t.weighted.inCitations, t.weighted.inPaperNotInCitations, t.weighted.notInCitations))
  }

  /** Every year of a meme's entry has a total and both its scores are defined. */
  predicate EntryScorable(yearToFrequencies: map<int, YearTotals>, entry: map<int, Terms>) {
    forall y :: y in entry ==> y in yearToFrequencies && Scorable1(entry[y], yearToFrequencies[y])
  }

  /** The scores of the years of `keys` that the entry has. */
  function ScoresOver(entry: map<int, Terms>, yearToFrequencies: map<int, YearTotals>, keys: set<int>): (r: map<int, YearScore>)
    requires EntryScorable(yearToFrequencies, entry)
    ensures r.Keys == keys * entry.Keys
  {
    map y | y in keys && y in entry :: ScoreOf(entry[y], yearToFrequencies[y])
  }

  lemma ScoresOverStep(entry: map<int, Terms>, yearToFrequencies: map<int, YearTotals>, remaining: set<int>, y: int)
    requires EntryScorable(yearToFrequencies, entry)
    requires remaining <= entry.Keys && y in remaining
    ensures ScoresOver(entry, yearToFrequencies, entry.Keys - (remaining - {y}))
         == ScoresOver(entry, yearToFrequencies, entry.Keys - remaining)[y := ScoreOf(entry[y], yearToFrequencies[y])]
  {
    var after := ScoresOver(entry, yearToFrequencies, entry.Keys - (remaining - {y}));
    var before := ScoresOver(entry, yearToFrequencies, entry.Keys - remaining)[y := ScoreOf(entry[y], yearToFrequencies[y])];
    forall z | z in after
      ensures after[z] == before[z]
    {
    }
    assert after.Keys == before.Keys;
  }

  /** The body of the loop over years: the plain and weighted ratios and their combinations. */
  method ScoreYear(yearInfo: Terms, totals: YearTotals) returns (s: YearScore)
    requires Scorable1(yearInfo, totals)
    ensures s == ScoreOf(yearInfo, totals)
  {
    var frequencyScore := yearInfo.plain.frequency as real / totals.numPapers as real;
    var weightedFrequencyScore := yearInfo.weighted.frequency / totals.weightedNumPapers;
    var stickingScore := StickingScore1(yearInfo.plain.inPaperInCitations as real, yearInfo.plain.inCitations as real);
    var weightedStickingScore := StickingScore1(yearInfo.weighted.inPaperInCitations, yearInfo.weighted.inCitations);
    var sparkingScore := SparkingScore1(yearInfo.plain.inPaperNotInCitations as real, yearInfo.plain.notInCitations as real);
    var weightedSparkingScore := SparkingScore1(yearInfo.weighted.inPaperNotInCitations, yearInfo.weighted.notInCitations);
    s := YearScore(frequencyScore * stickingScore / sparkingScore,
                   weightedFrequencyScore * weightedStickingScore / weightedSparkingScore);
  }

  /** The inner loop of save_annual_meme_scores, over the years of one meme. */
  method ScoreYears(entry: map<int, Terms>, yearToFrequencies: map<int, YearTotals>) returns (r: map<int, YearScore>)
    requires EntryScorable(yearToFrequencies, entry)
    ensures r == ScoresOver(entry, yearToFrequencies, entry.Keys)
  {
    r := map[];
    var remaining := entry.Keys;
    assert ScoresOver(entry, yearToFrequencies, entry.Keys - remaining) == map[];
    while remaining != {}
      invariant remaining <= entry.Keys
      invariant r == ScoresOver(entry, yearToFrequencies, entry.Keys - remaining)
      decreases |remaining|
    {
      NoYearEmpty(remaining);
      var currYear :| currYear in remaining;
      var yearScore := ScoreYear(entry[currYear], yearToFrequencies[currYear]);
      ScoresOverStep(entry, yearToFrequencies, remaining, currYear);
      r := r[currYear := yearScore];
      remaining := remaining - {currYear};
    }
  }

  /** save_annual_meme_scores without the pickle file: `meme_to_year_scores`. */
  method SaveAnnualMemeScores(yearToFrequencies: map<int, YearTotals>, memeToScoreComponents: map<string, map<int, Terms>>)
    returns (memeToYearScores: map<string, map<int, YearScore>>)
    requires forall m :: m in memeToScoreComponents ==> EntryScorable(yearToFrequencies, memeToScoreComponents[m])
    ensures memeToYearScores.Keys == memeToScoreComponents.Keys
    ensures forall m :: m in memeToYearScores ==>
      memeToYearScores[m] == ScoresOver(memeToScoreComponents[m], yearToFrequencies, memeToScoreComponents[m].Keys)
  {
    memeToYearScores := map[];
    var remaining := memeToScoreComponents.Keys;
    while remaining != {}
      invariant remaining <= memeToScoreComponents.Keys
      invariant memeToYearScores.Keys == memeToScoreComponents.Keys - remaining
      invariant forall m :: m in memeToYearScores ==>
        memeToYearScores[m] == ScoresOver(memeToScoreComponents[m], yearToFrequencies, memeToScoreComponents[m].Keys)
      decreases |remaining|
    {
      var meme :| meme in remaining;
      var yearScores := ScoreYears(memeToScoreComponents[meme], yearToFrequencies);
      memeToYearScores := memeToYearScores[meme := yearScores];
      remaining := remaining - {meme};
    }
  }

  /** With `0 <= in_paper_in_citations <= in_citations` the sticking ratio lies in [0, 1). */
  lemma StickingScore1Bounds(ipic: real, ic: real)
    requires 0.0 <= ipic <= ic
    ensures 0.0 <= StickingScore1(ipic, ic) < 1.0
  {
    var den := 1.0 + ic;
    assert den / den - ipic / den == (den - ipic) / den;
    assert (den - ipic) / den > 0.0;
  }

  /** With `0 <= in_paper_not_in_citations <= not_in_citations` the sparking ratio lies in [0, 1). */
  lemma SparkingScore1Bounds(ipnic: real, nic: real)
    requires 0.0 <= ipnic <= nic
    ensures 0.0 <= SparkingScore1(ipnic, nic) < 1.0
  {
    var den := 1.0 + nic;
    assert den / den - ipnic / den == (den - ipnic) / den;
    assert (den - ipnic) / den > 0.0;
  }

  /**
   * For an entry of that shape both sticking ratios and both sparking
   * ratios lie in [0, 1).
   */
  lemma EntryRatios(t: Terms)
    requires TermsBounded(t)
    ensures 0.0 <= StickingScore1(t.plain.inPaperInCitations as real, t.plain.inCitations as real) < 1.0
    ensures 0.0 <= StickingScore1(t.weighted.inPaperInCitations, t.weighted.inCitations) < 1.0
    ensures 0.0 <= SparkingScore1(t.plain.inPaperNotInCitations as real, t.plain.notInCitations as real) < 1.0
    ensures 0.0 <= SparkingScore1(t.weighted.inPaperNotInCitations, t.weighted.notInCitations) < 1.0
  {
    StickingScore1Bounds(t.plain.inPaperInCitations as real, t.plain.inCitations as real);
    StickingScore1Bounds(t.weighted.inPaperInCitations, t.weighted.inCitations);
    SparkingScore1Bounds(t.plain.inPaperNotInCitations as real, t.plain.notInCitations as real);
    SparkingScore1Bounds(t.weighted.inPaperNotInCitations, t.weighted.notInCitations);
  }

  /**
   * The plain sparking ratio of the papers `s` is 0, so that `meme_score`
   * divides by zero, exactly when every one of them cites the meme.
   */
  lemma SparkingUndefined<T>(s: set<T>, cited: set<T>)
    ensures var c := CountsOf(s, cited);
            SparkingScore1(c.inPaperNotInCitations as real, c.notInCitations as real) == 0.0 <==> s <= cited
  {
    var c := CountsOf(s, cited);
    var x, den := c.inPaperNotInCitations as real, 1.0 + c.notInCitations as real;
    assert den > 0.0;
    assert x / den * den == x;
    if s <= cited {
      assert s - cited == {};
    } else {
      var d :| d in s && d !in cited;
      assert d in s - cited;
    }
  }
}
