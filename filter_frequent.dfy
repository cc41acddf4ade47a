/**
 * filter_most_frequent_n_grams.py: cumulative paper totals and meme score
 * components for one discipline group, the scores with smoothing constant
 * 3, and the selection of a year's most common memes.
 */
module FilterFrequent {
  import opened Corpus
  import opened Aggregation
  import opened Cumulative

  /** `for curr_year in range(year, 2023): year_to_frequencies[curr_year]['num_papers'] += 1`. */
  method CountYears(yearToNumPapers: map<int, int>, paperYear: int) returns (r: map<int, int>)
    requires forall y :: paperYear <= y <= LastYear ==> y in yearToNumPapers
    ensures r.Keys == yearToNumPapers.Keys
    ensures forall y :: y in r ==> r[y] == yearToNumPapers[y] + (if paperYear <= y <= LastYear then 1 else 0)
  {
    r := yearToNumPapers;
    var currYear := paperYear;
    while currYear <= LastYear
      invariant paperYear <= currYear
      invariant currYear <= LastYear + 1 || currYear == paperYear
      invariant r.Keys == yearToNumPapers.Keys
      invariant forall y :: y in r ==> r[y] == yearToNumPapers[y] + (if paperYear <= y < currYear then 1 else 0)
      decreases LastYear - currYear
    {
      r := r[currYear := r[currYear] + 1];
      currYear := currYear + 1;
    }
  }

  /** One more matching paper, seen at one year. */
  lemma CountYearsStep(before: map<int, int>, after: map<int, int>, start: map<int, int>, pub: string,
                       matched: set<string>, p2m: map<string, PaperMetadata>, y: int)
    requires pub in p2m && pub !in matched
    requires y in after && y in before && y in start
    requires after[y] == before[y] + (if p2m[pub].year <= y <= LastYear then 1 else 0)
    requires before[y] == start[y] + YearCount(matched, p2m, y)
    ensures after[y] == start[y] + YearCount(matched + {pub}, p2m, y)
  {
    ReachedCard(matched, p2m, pub, y);
  }

  /**
   * compute_overall_frequencies: every paper whose categories include a
   * discipline adds 1 to the total of each year from its release through
   * 2022; the other papers change nothing.
   */
  method ComputeOverallFrequencies(yearToNumPapers: map<int, int>, p2m: map<string, PaperMetadata>,
                                   disciplines: seq<string>)
    returns (r: map<int, int>)
    requires CoversYears(yearToNumPapers.Keys, MatchingPapers(p2m, disciplines), p2m)
    ensures r.Keys == yearToNumPapers.Keys
    ensures forall y :: y in r ==> r[y] == yearToNumPapers[y] + YearCount(MatchingPapers(p2m, disciplines), p2m, y)
  {
    r := yearToNumPapers;
    ghost var matched: set<string> := {};
    var remaining := p2m.Keys;
    assert p2m.Keys - remaining == {};
    while remaining != {}
      invariant remaining <= p2m.Keys
      invariant matched == Matching(p2m.Keys - remaining, p2m, disciplines)
      invariant r.Keys == yearToNumPapers.Keys
      invariant forall y :: y in r ==> r[y] == yearToNumPapers[y] + YearCount(matched, p2m, y)
      decreases |remaining|
    {
      var paper :| paper in remaining;
      MatchingStepAll(p2m, remaining, paper, disciplines);
      var metadata := p2m[paper];
      if MatchesAny(metadata.categories, disciplines) {
        assert paper in MatchingPapers(p2m, disciplines);
        r := CountPaper(r, paper, p2m, yearToNumPapers, matched);
        matched := matched + {paper};
      }
      remaining := remaining - {paper};
    }
    assert p2m.Keys - remaining == p2m.Keys;
  }

  /** The body of the loop over the papers, for a paper that matches the disciplines. */
  method CountPaper(yearToNumPapers: map<int, int>, paper: string, p2m: map<string, PaperMetadata>,
                    ghost start: map<int, int>, ghost matched: set<string>)
    returns (r: map<int, int>)
    requires paper in p2m && paper !in matched
    requires forall y :: p2m[paper].year <= y <= LastYear ==> y in yearToNumPapers
    requires yearToNumPapers.Keys == start.Keys
    requires forall y :: y in yearToNumPapers ==> yearToNumPapers[y] == start[y] + YearCount(matched, p2m, y)
    ensures r.Keys == start.Keys
    ensures forall y :: y in r ==> r[y] == start[y] + YearCount(matched + {paper}, p2m, y)
  {
    var year := p2m[paper].year;
    r := CountYears(yearToNumPapers, year);
    forall y | y in r
      ensures r[y] == start[y] + YearCount(matched + {paper}, p2m, y)
    {
      CountYearsStep(yearToNumPapers, r, start, paper, matched, p2m, y);
    }
  }

  // ---------------------------------------------------------------------
  // compute_n_gram_meme_score_terms and save_annual_meme_scores
  // ---------------------------------------------------------------------

  /** Memes found in fewer papers than this are skipped. */
  const MinMemePapers: nat := 500

  /** The record this script keeps: the five plain counters of each entry. */
  function PlainEntries(terms: map<string, map<int, Terms>>): (r: map<string, map<int, Counters>>)
    ensures r.Keys == terms.Keys
    ensures forall m :: m in r ==> r[m].Keys == terms[m].Keys
  {
    map m | m in terms :: map y | y in terms[m] :: terms[m][y].plain
  }

  /**
   * compute_n_gram_meme_score_terms, started from an empty
   * `meme_to_score_components`. A meme has an entry exactly when its IDF is
   * at least 1.6, it is found in at least 500 papers and one of them
   * matches the disciplines; its counters under a year are those of its
   * matching papers released by then.
   */
  method ComputeNGramMemeScoreTerms(memeToArticles: map<string, set<string>>, p2m: map<string, PaperMetadata>,
                                    memeToIdf: map<string, real>, disciplines: seq<string>)
    returns (memeToScoreComponents: map<string, map<int, Counters>>)
    requires Readable(memeToArticles, p2m, memeToIdf, disciplines, MinMemePapers)
    ensures memeToScoreComponents.Keys <= memeToArticles.Keys
    ensures forall m :: m in memeToScoreComponents <==>
      HasEntry(m, memeToArticles, p2m, memeToIdf, disciplines, MinMemePapers)
    ensures forall m, y :: m in memeToScoreComponents ==>
      (y in memeToScoreComponents[m] <==>
         FirstYear <= y <= LastYear && |Reached(Matching(memeToArticles[m], p2m, disciplines), p2m, y)| > 0)
    ensures forall m, y :: m in memeToScoreComponents && y in memeToScoreComponents[m] ==>
      memeToScoreComponents[m][y] == CountsOf(Reached(Matching(memeToArticles[m], p2m, disciplines), p2m, y),
                                              Citing(memeToArticles[m], m, p2m, memeToArticles))
  {
    var terms := ScoreTerms(memeToArticles, p2m, memeToIdf, disciplines, MinMemePapers);
    memeToScoreComponents := PlainEntries(terms);
  }

  /** The predicate save_annual_meme_scores needs of its inputs: a non-zero total for every year of every entry. */
  predicate Scorable(yearToNumPapers: map<int, int>, entry: map<int, Counters>) {
    forall y :: y in entry ==> y in yearToNumPapers && yearToNumPapers[y] != 0 && NonNegative(entry[y])
  }

  /** The scores of one meme: `frequency_score * sticking_score / sparking_score` with constant 3. */
  function YearScores(entry: map<int, Counters>, yearToNumPapers: map<int, int>): (r: map<int, real>)
    requires Scorable(yearToNumPapers, entry)
    ensures r.Keys == entry.Keys
  {
    ScoresOver(entry, yearToNumPapers, entry.Keys)
  }

  /** The scores of the years of `keys` that the entry has. */
  function ScoresOver(entry: map<int, Counters>, yearToNumPapers: map<int, int>, keys: set<int>): (r: map<int, real>)
    requires Scorable(yearToNumPapers, entry)
    ensures r.Keys == keys * entry.Keys
  {
    map y | y in keys && y in entry :: MemeScore3(entry[y], yearToNumPapers[y])
  }

  /** Scoring one more year of the entry adds that year's score and nothing else. */
  lemma ScoresOverStep(entry: map<int, Counters>, yearToNumPapers: map<int, int>, remaining: set<int>, y: int)
    requires Scorable(yearToNumPapers, entry)
    requires remaining <= entry.Keys && y in remaining
    ensures ScoresOver(entry, yearToNumPapers, entry.Keys - (remaining - {y}))
         == ScoresOver(entry, yearToNumPapers, entry.Keys - remaining)[y := MemeScore3(entry[y], yearToNumPapers[y])]
  {
    var after := ScoresOver(entry, yearToNumPapers, entry.Keys - (remaining - {y}));
    var before := ScoresOver(entry, yearToNumPapers, entry.Keys - remaining)[y := MemeScore3(entry[y], yearToNumPapers[y])];
    forall z | z in after
      ensures after[z] == before[z]
    {
    }
    assert after.Keys == before.Keys;
  }

  /** The inner loop of save_annual_meme_scores, over the years of one meme. */
  method ScoreYears(entry: map<int, Counters>, yearToNumPapers: map<int, int>) returns (r: map<int, real>)
    requires Scorable(yearToNumPapers, entry)
    ensures r == YearScores(entry, yearToNumPapers)
  {
    r := map[];
    var remaining := entry.Keys;
    assert ScoresOver(entry, yearToNumPapers, entry.Keys - remaining) == map[];
    while remaining != {}
      invariant remaining <= entry.Keys
      invariant r == ScoresOver(entry, yearToNumPapers, entry.Keys - remaining)
      decreases |remaining|
    {
      NoYearEmpty(remaining);
      var currYear :| currYear in remaining;
      var memeScore := ScoreYear(entry[currYear], yearToNumPapers[currYear]);
      ScoresOverStep(entry, yearToNumPapers, remaining, currYear);
      r := r[currYear := memeScore];
      remaining := remaining - {currYear};
    }
  }

  /** The body of the loop over years: the three ratios and their combination. */
  method ScoreYear(yearInfo: Counters, totalFrequency: int) returns (memeScore: real)
    requires totalFrequency != 0 && NonNegative(yearInfo)
    ensures memeScore == MemeScore3(yearInfo, totalFrequency)
  {
    var frequencyScore := FrequencyScore(yearInfo.frequency, totalFrequency);
    var stickingScore := StickingScore3(yearInfo);
    var sparkingScore := SparkingScore3(yearInfo);
    memeScore := frequencyScore * stickingScore / sparkingScore;
  }

  /** save_annual_meme_scores without the pickle file: `meme_to_year_scores`. */
  method SaveAnnualMemeScores(yearToNumPapers: map<int, int>, memeToScoreComponents: map<string, map<int, Counters>>)
    returns (memeToYearScores: map<string, map<int, real>>)
    requires forall m :: m in memeToScoreComponents ==> Scorable(yearToNumPapers, memeToScoreComponents[m])
    ensures memeToYearScores.Keys == memeToScoreComponents.Keys
    ensures forall m :: m in memeToYearScores ==>
      memeToYearScores[m] == YearScores(memeToScoreComponents[m], yearToNumPapers)
  {
    memeToYearScores := map[];
    var remaining := memeToScoreComponents.Keys;
    while remaining != {}
      invariant remaining <= memeToScoreComponents.Keys
      invariant memeToYearScores.Keys == memeToScoreComponents.Keys - remaining
      invariant forall m :: m in memeToYearScores ==>
        memeToYearScores[m] == YearScores(memeToScoreComponents[m], yearToNumPapers)
      decreases |remaining|
    {
      var meme :| meme in remaining;
      var yearScores := ScoreYears(memeToScoreComponents[meme], yearToNumPapers);
      memeToYearScores := memeToYearScores[meme := yearScores];
      remaining := remaining - {meme};
    }
  }

  /**
   * The tallied counters meet save_annual_meme_scores' needs against the
   * totals of compute_overall_frequencies started from zero: for every year
   * of a meme's entry, `0 < frequency <= num_papers`, the sparking ratio is 1
   * and the score is `frequency_score * ipic / (ipic + 3)`, in [0, 1).
   */
  lemma TalliedScoreBounds(memeToArticles: map<string, set<string>>, p2m: map<string, PaperMetadata>,
                           memeToIdf: map<string, real>, disciplines: seq<string>, m: string, y: int)
    requires Readable(memeToArticles, p2m, memeToIdf, disciplines, MinMemePapers)
    requires HasEntry(m, memeToArticles, p2m, memeToIdf, disciplines, MinMemePapers)
    requires FirstYear <= y <= LastYear && |Reached(Matching(memeToArticles[m], p2m, disciplines), p2m, y)| > 0
    ensures var c := CountsOf(Reached(Matching(memeToArticles[m], p2m, disciplines), p2m, y),
                              Citing(memeToArticles[m], m, p2m, memeToArticles));
            var n := YearCount(MatchingPapers(p2m, disciplines), p2m, y);
            && 0 < c.frequency <= n
            && SparkingScore3(c) == 1.0
            && MemeScore3(c, n) == FrequencyScore(c.frequency, n) * (c.inPaperInCitations as real / (c.inPaperInCitations + 3) as real)
            && 0.0 <= MemeScore3(c, n) < 1.0
  {
    var docs := Matching(memeToArticles[m], p2m, disciplines);
    assert docs <= MatchingPapers(p2m, disciplines);
    ReachedSubset(docs, MatchingPapers(p2m, disciplines), p2m, y);
    var c := CountsOf(Reached(docs, p2m, y), Citing(memeToArticles[m], m, p2m, memeToArticles));
    MemeScore3Balanced(c, YearCount(MatchingPapers(p2m, disciplines), p2m, y));
  }

  /**
   * Each paper is tallied under every year from its release through 2022,
   * so none of a meme's counters goes down from one year to a later one.
   */
  lemma CountersMonotone(memeToArticles: map<string, set<string>>, p2m: map<string, PaperMetadata>,
                         disciplines: seq<string>, m: string, early: int, late: int)
    requires m in memeToArticles && early <= late
    ensures var docs := Matching(memeToArticles[m], p2m, disciplines);
            var cited := Citing(memeToArticles[m], m, p2m, memeToArticles);
            AtMost(CountsOf(Reached(docs, p2m, early), cited), CountsOf(Reached(docs, p2m, late), cited))
  {
    var docs := Matching(memeToArticles[m], p2m, disciplines);
    ReachedMono(docs, p2m, early, late);
    CountsOfSubset(Reached(docs, p2m, early), Reached(docs, p2m, late), Citing(memeToArticles[m], m, p2m, memeToArticles));
  }

  /**
   * `num_papers` does not go down from one year to a later one, up to 2022,
   * when the two years start from the same total (as all-zero totals do:
   * `FrequenciesMonotoneFromZero`).
   */
  lemma FrequenciesMonotone(yearToNumPapers: map<int, int>, r: map<int, int>, p2m: map<string, PaperMetadata>,
                            disciplines: seq<string>, early: int, late: int)
    requires early in r && late in r && early <= late <= LastYear
    requires r.Keys == yearToNumPapers.Keys
    requires forall y :: y in r ==> r[y] == yearToNumPapers[y] + YearCount(MatchingPapers(p2m, disciplines), p2m, y)
    requires yearToNumPapers[early] == yearToNumPapers[late]
    ensures r[early] <= r[late]
  {
    YearCountMono(MatchingPapers(p2m, disciplines), p2m, early, late);
  }

  /**
   * The totals a caller would start from, all zero (as compute_meme_scores.py
   * initialises its own `year_to_frequencies`; this script never calls
   * compute_overall_frequencies): then `num_papers` never goes down with the year.
   */
  lemma FrequenciesMonotoneFromZero(yearToNumPapers: map<int, int>, r: map<int, int>, p2m: map<string, PaperMetadata>,
                                    disciplines: seq<string>, early: int, late: int)
    requires forall y :: y in yearToNumPapers ==> yearToNumPapers[y] == 0
    requires early in r && late in r && early <= late <= LastYear
    requires r.Keys == yearToNumPapers.Keys
    requires forall y :: y in r ==> r[y] == yearToNumPapers[y] + YearCount(MatchingPapers(p2m, disciplines), p2m, y)
    ensures r[early] <= r[late]
  {
    FrequenciesMonotone(yearToNumPapers, r, p2m, disciplines, early, late);
  }

  // ---------------------------------------------------------------------
  // get_most_common_memes
  // ---------------------------------------------------------------------

  /** How many memes `most_common` keeps. */
  const MostCommonCount: nat := 10000

  /** What the Counter loop looks up exists: every IDF, and the metadata of every paper of a meme that passes the IDF filter. */
  predicate Countable(yearMemes: map<string, set<string>>, p2m: map<string, PaperMetadata>, memeToIdf: map<string, real>) {
    forall m :: m in yearMemes ==>
      && m in memeToIdf
      && (memeToIdf[m] >= IdfThreshold ==> forall d :: d in yearMemes[m] ==> d in p2m)
  }

  /**
   * `meme_to_counts` once the memes of `keys` have been visited: a meme of
   * IDF at least 1.6 is counted once per discipline-matching paper, and
   * the Counter only holds memes it has incremented.
   */
  function CountsOver(yearMemes: map<string, set<string>>, p2m: map<string, PaperMetadata>, memeToIdf: map<string, real>,
                      disciplines: seq<string>, keys: set<string>): (r: map<string, nat>)
    ensures forall m :: m in r <==>
      m in keys && m in yearMemes && m in memeToIdf && memeToIdf[m] >= IdfThreshold
      && |Matching(yearMemes[m], p2m, disciplines)| > 0
  {
    map m | m in keys && m in yearMemes && m in memeToIdf && memeToIdf[m] >= IdfThreshold
                      && |Matching(yearMemes[m], p2m, disciplines)| > 0
      :: |Matching(yearMemes[m], p2m, disciplines)|
  }

  /** Visiting one more meme adds its count, if it has one, and nothing else. */
  lemma CountsOverStep(yearMemes: map<string, set<string>>, p2m: map<string, PaperMetadata>, memeToIdf: map<string, real>,
                       disciplines: seq<string>, remaining: set<string>, meme: string)
    requires remaining <= yearMemes.Keys && meme in remaining && meme in memeToIdf
    ensures var before := CountsOver(yearMemes, p2m, memeToIdf, disciplines, yearMemes.Keys - remaining);
            var n := |Matching(yearMemes[meme], p2m, disciplines)|;
            && meme !in before
            && CountsOver(yearMemes, p2m, memeToIdf, disciplines, yearMemes.Keys - (remaining - {meme}))
               == if memeToIdf[meme] >= IdfThreshold then WithCount(before, meme, n) else before
  {
    var before := CountsOver(yearMemes, p2m, memeToIdf, disciplines, yearMemes.Keys - remaining);
    var after := CountsOver(yearMemes, p2m, memeToIdf, disciplines, yearMemes.Keys - (remaining - {meme}));
    var n := |Matching(yearMemes[meme], p2m, disciplines)|;
    var expected := if memeToIdf[meme] >= IdfThreshold then WithCount(before, meme, n) else before;
    forall m | m in after
      ensures after[m] == expected[m]
    {
    }
    assert after.Keys == expected.Keys;
  }

  /** The Counter loop of get_most_common_memes. */
  method CountMemes(yearMemes: map<string, set<string>>, p2m: map<string, PaperMetadata>,
                    memeToIdf: map<string, real>, disciplines: seq<string>)
    returns (memeToCounts: map<string, nat>)
    requires Countable(yearMemes, p2m, memeToIdf)
    ensures memeToCounts == CountsOver(yearMemes, p2m, memeToIdf, disciplines, yearMemes.Keys)
  {
    memeToCounts := map[];
    var remaining := yearMemes.Keys;
    assert CountsOver(yearMemes, p2m, memeToIdf, disciplines, yearMemes.Keys - remaining) == map[];
    while remaining != {}
      invariant remaining <= yearMemes.Keys
      invariant memeToCounts == CountsOver(yearMemes, p2m, memeToIdf, disciplines, yearMemes.Keys - remaining)
      decreases |remaining|
    {
      var meme :| meme in remaining;
      CountsOverStep(yearMemes, p2m, memeToIdf, disciplines, remaining, meme);
      var memeIdf := memeToIdf[meme];
      if memeIdf >= IdfThreshold {
        memeToCounts := CountMeme(memeToCounts, meme, yearMemes[meme], p2m, disciplines);
      }
      remaining := remaining - {meme};
    }
  }

  /** `meme_to_counts[meme] += 1` for every discipline-matching paper of one meme not yet counted. */
  method CountMeme(memeToCounts: map<string, nat>, meme: string, papersAppearingIn: set<string>,
                   p2m: map<string, PaperMetadata>, disciplines: seq<string>)
    returns (r: map<string, nat>)
    requires meme !in memeToCounts
    requires forall d :: d in papersAppearingIn ==> d in p2m
    ensures r == WithCount(memeToCounts, meme, |Matching(papersAppearingIn, p2m, disciplines)|)
  {
    r := memeToCounts;
    var remaining := papersAppearingIn;
    ghost var matched: set<string> := {};
    assert papersAppearingIn - remaining == {};
    while remaining != {}
      invariant remaining <= papersAppearingIn
      invariant matched == Matching(papersAppearingIn - remaining, p2m, disciplines)
      invariant r == WithCount(memeToCounts, meme, |matched|)
      decreases |remaining|
    {
      var paper :| paper in remaining;
      MatchingStep(papersAppearingIn, remaining, paper, p2m, disciplines);
      var metadata := p2m[paper];
      if MatchesAny(metadata.categories, disciplines) {
        assert paper !in matched;
        assert |matched + {paper}| == |matched| + 1;
        CounterIncrement(memeToCounts, meme, |matched|);
        r := r[meme := (if meme in r then r[meme] else 0) + 1];
        matched := matched + {paper};
      }
      remaining := remaining - {paper};
    }
    assert papersAppearingIn - remaining == papersAppearingIn;
  }

  /** A Counter holding `n` for the meme: an absent key stands for 0. */
  function WithCount(memeToCounts: map<string, nat>, meme: string, n: nat): map<string, nat> {
    if n > 0 then memeToCounts[meme := n] else memeToCounts
  }

  /** `counter[meme] += 1` on a Counter that holds `n` for a meme it did not hold before. */
  lemma CounterIncrement(memeToCounts: map<string, nat>, meme: string, n: nat)
    requires meme !in memeToCounts
    ensures var r := WithCount(memeToCounts, meme, n);
            r[meme := (if meme in r then r[meme] else 0) + 1] == WithCount(memeToCounts, meme, n + 1)
  {
  }

  /** The largest count among `keys` belongs to one of them. */
  lemma {:induction false} MaxCount(counts: map<string, nat>, keys: set<string>) returns (top: string)
    requires keys != {} && keys <= counts.Keys
    ensures top in keys
    ensures forall m :: m in keys ==> counts[m] <= counts[top]
    decreases |keys|
  {
    var m :| m in keys;
    if keys == {m} {
      top := m;
    } else {
      var other := MaxCount(counts, keys - {m});
      top := if counts[m] >= counts[other] then m else other;
    }
  }

  /**
   * `Counter.most_common(k)` keyed by name: the `min(k, len)` memes of
   * largest count, distinct, in non-increasing order of count, and no meme
   * left out has a larger count than one kept.
   */
  method MostCommon(counts: map<string, nat>, k: nat) returns (top: seq<string>)
    ensures |top| == if k < |counts| then k else |counts|
    ensures forall i :: 0 <= i < |top| ==> top[i] in counts
    ensures forall i, j :: 0 <= i < j < |top| ==> top[i] != top[j]
    ensures forall i, j :: 0 <= i < j < |top| ==> counts[top[i]] >= counts[top[j]]
    ensures forall m, i :: m in counts && m !in top && 0 <= i < |top| ==> counts[m] <= counts[top[i]]
  {
    top := [];
    var rest := counts.Keys;
    while |top| < k && rest != {}
      invariant rest <= counts.Keys
      invariant |top| <= k
      invariant |top| + |rest| == |counts|
      invariant forall i :: 0 <= i < |top| ==> top[i] in counts && top[i] !in rest
      invariant forall m :: m in counts && m !in rest ==> m in top
      invariant forall i, j :: 0 <= i < j < |top| ==> top[i] != top[j]
      invariant forall i, j :: 0 <= i < j < |top| ==> counts[top[i]] >= counts[top[j]]
      invariant forall m, i :: m in rest && 0 <= i < |top| ==> counts[m] <= counts[top[i]]
      decreases |rest|
    {
      ghost var best := MaxCount(counts, rest);
      var meme :| meme in rest && forall m :: m in rest ==> counts[m] <= counts[meme];
      top := top + [meme];
      rest := rest - {meme};
    }
  }

  /**
   * get_most_common_memes: at most 10000 memes, each of IDF at least 1.6
   * with some discipline-matching paper, distinct, in non-increasing order
   * of their number of matching papers, and no left-out such meme has more
   * matching papers than a kept one.
   */
  method GetMostCommonMemes(yearMemes: map<string, set<string>>, p2m: map<string, PaperMetadata>,
                            memeToIdf: map<string, real>, disciplines: seq<string>)
    returns (mostCommon: seq<string>)
    requires Countable(yearMemes, p2m, memeToIdf)
    ensures var counts := CountsOver(yearMemes, p2m, memeToIdf, disciplines, yearMemes.Keys);
            |mostCommon| == if MostCommonCount < |counts| then MostCommonCount else |counts|
    ensures forall i :: 0 <= i < |mostCommon| ==>
      && mostCommon[i] in yearMemes && memeToIdf[mostCommon[i]] >= IdfThreshold
      && |Matching(yearMemes[mostCommon[i]], p2m, disciplines)| > 0
    ensures forall i, j :: 0 <= i < j < |mostCommon| ==> mostCommon[i] != mostCommon[j]
    ensures forall i, j :: 0 <= i < j < |mostCommon| ==>
      |Matching(yearMemes[mostCommon[i]], p2m, disciplines)| >= |Matching(yearMemes[mostCommon[j]], p2m, disciplines)|
    ensures forall m, i :: m in yearMemes && memeToIdf[m] >= IdfThreshold && m !in mostCommon && 0 <= i < |mostCommon| ==>
      |Matching(yearMemes[m], p2m, disciplines)| <= |Matching(yearMemes[mostCommon[i]], p2m, disciplines)|
  {
    var memeToCounts := CountMemes(yearMemes, p2m, memeToIdf, disciplines);
    mostCommon := MostCommon(memeToCounts, MostCommonCount);
  }
}
