/**
 * The cumulative counts shared by filter_most_frequent_n_grams.py and
 * compute_meme_scores.py. A discipline-matching paper released in year `y`
 * is counted under every year from `y` through 2022. In compute_meme_scores.py
 * each such count also has a weighted twin, where the paper weighs
 * `(y - 1991 + 1) / (curr_year - 1991 + 1)` under `curr_year`.
 */
module Cumulative {
  import opened Corpus
  import opened Aggregation

  /** `IDF_THRESHOLD`. */
  const IdfThreshold: real := 1.6

  /** `(paper_year - 1991 + 1) / (curr_year - 1991 + 1)`, the weight of a paper under a later year. */
  function Weight(paperYear: int, currYear: int): (w: real)
    requires FirstYear <= paperYear <= currYear
    ensures 0.0 < w <= 1.0
    ensures paperYear == currYear ==> w == 1.0
  {
    var num, den := (paperYear - FirstYear + 1) as real, (currYear - FirstYear + 1) as real;
    assert den / den - num / den == (den - num) / den;
    assert (den - num) / den >= 0.0;
    num / den
  }

  /** The papers of `docs` whose categories include a discipline (`found_match`). */
  function Matching(docs: set<string>, p2m: map<string, PaperMetadata>, disciplines: seq<string>): (r: set<string>)
    ensures r <= docs
  {
    set d | d in docs && d in p2m && MatchesAny(p2m[d].categories, disciplines)
  }

  /** The papers of `docs` released in or before `year`: those the count for `year` includes. */
  function Reached(docs: set<string>, p2m: map<string, PaperMetadata>, year: int): (r: set<string>)
    ensures r <= docs
  {
    set d | d in docs && d in p2m && p2m[d].year <= year
  }

  /** The papers of `docs` released in `year`. */
  function OfYear(docs: set<string>, p2m: map<string, PaperMetadata>, year: int): set<string> {
    set d | d in docs && d in p2m && p2m[d].year == year
  }

  /** The papers of `docs` that cite a paper listed under the meme. */
  function Citing(docs: set<string>, meme: string, p2m: map<string, PaperMetadata>,
                  memeToArticles: map<string, set<string>>): (r: set<string>)
    ensures r <= docs
  {
    set d | d in docs && d in p2m && CitesMeme(p2m[d].citedPapers, meme, memeToArticles)
  }

  /** Every paper of `docs` with metadata was released in 1991 or later. */
  predicate Dated(docs: set<string>, p2m: map<string, PaperMetadata>) {
    forall d :: d in docs && d in p2m ==> FirstYear <= p2m[d].year
  }

  /** The weights under `currYear` of the papers of `docs` released from 1991 through `hi`. */
  function WeightSum(docs: set<string>, p2m: map<string, PaperMetadata>, hi: int, currYear: int): real
    requires hi <= currYear
    decreases hi - FirstYear + 1
  {
    if hi < FirstYear then 0.0
    else WeightSum(docs, p2m, hi - 1, currYear) + |OfYear(docs, p2m, hi)| as real * Weight(hi, currYear)
  }

  /** The weighted count of `docs` under `currYear`. */
  function Weighted(docs: set<string>, p2m: map<string, PaperMetadata>, currYear: int): real {
    WeightSum(docs, p2m, currYear, currYear)
  }

  lemma ReachedAdd(docs: set<string>, p2m: map<string, PaperMetadata>, d: string, year: int)
    requires d in p2m
    ensures Reached(docs + {d}, p2m, year) == Reached(docs, p2m, year) + (if p2m[d].year <= year then {d} else {})
  {
  }

  lemma ReachedCard(docs: set<string>, p2m: map<string, PaperMetadata>, d: string, year: int)
    requires d in p2m && d !in docs
    ensures |Reached(docs + {d}, p2m, year)| == |Reached(docs, p2m, year)| + (if p2m[d].year <= year then 1 else 0)
  {
    ReachedAdd(docs, p2m, d, year);
    assert d !in Reached(docs, p2m, year);
  }

  lemma OfYearCard(docs: set<string>, p2m: map<string, PaperMetadata>, d: string, year: int)
    requires d in p2m && d !in docs
    ensures |OfYear(docs + {d}, p2m, year)| == |OfYear(docs, p2m, year)| + (if p2m[d].year == year then 1 else 0)
  {
    if p2m[d].year == year {
      assert OfYear(docs + {d}, p2m, year) == OfYear(docs, p2m, year) + {d};
    } else {
      assert OfYear(docs + {d}, p2m, year) == OfYear(docs, p2m, year);
    }
  }

  /** One more paper adds its weight to every sum that reaches its year. */
  lemma {:induction false} WeightSumAdd(docs: set<string>, p2m: map<string, PaperMetadata>, d: string, hi: int, currYear: int)
    requires d in p2m && d !in docs && FirstYear <= p2m[d].year && hi <= currYear
    ensures WeightSum(docs + {d}, p2m, hi, currYear)
      == WeightSum(docs, p2m, hi, currYear) + (if p2m[d].year <= hi then Weight(p2m[d].year, currYear) else 0.0)
    decreases hi - FirstYear + 1
  {
    if hi >= FirstYear {
      WeightSumAdd(docs, p2m, d, hi - 1, currYear);
      OfYearWeight(docs, p2m, d, hi, currYear);
    }
  }

  /** One more paper of year `hi` adds its weight to that year's term of the sum. */
  lemma OfYearWeight(docs: set<string>, p2m: map<string, PaperMetadata>, d: string, hi: int, currYear: int)
    requires d in p2m && d !in docs && FirstYear <= p2m[d].year && FirstYear <= hi <= currYear
    ensures |OfYear(docs + {d}, p2m, hi)| as real * Weight(hi, currYear)
      == |OfYear(docs, p2m, hi)| as real * Weight(hi, currYear) + (if p2m[d].year == hi then Weight(p2m[d].year, currYear) else 0.0)
  {
    OfYearCard(docs, p2m, d, hi);
    if p2m[d].year == hi {
      Distribute(|OfYear(docs, p2m, hi)|, Weight(hi, currYear));
    }
  }

  /** `(a + 1) * w == a * w + w`. */
  lemma Distribute(a: nat, w: real)
    ensures (a + 1) as real * w == a as real * w + w
  {
  }

  lemma WeightedAdd(docs: set<string>, p2m: map<string, PaperMetadata>, d: string, currYear: int)
    requires d in p2m && d !in docs && FirstYear <= p2m[d].year
    ensures Weighted(docs + {d}, p2m, currYear)
      == Weighted(docs, p2m, currYear) + (if p2m[d].year <= currYear then Weight(p2m[d].year, currYear) else 0.0)
  {
    WeightSumAdd(docs, p2m, d, currYear, currYear);
  }

  /**
   * The weighted count of dated papers lies between 0 and the plain count,
   * and is positive exactly when the plain count is.
   */
  lemma {:induction false} WeightedBounds(docs: set<string>, p2m: map<string, PaperMetadata>, currYear: int)
    requires Dated(docs, p2m)
    ensures 0.0 <= Weighted(docs, p2m, currYear) <= |Reached(docs, p2m, currYear)| as real
    ensures Weighted(docs, p2m, currYear) > 0.0 <==> |Reached(docs, p2m, currYear)| > 0
    decreases |docs|
  {
    if docs == {} {
      WeightSumEmpty(p2m, currYear, currYear);
    } else {
      var d :| d in docs;
      var rest := docs - {d};
      assert docs == rest + {d};
      WeightedBounds(rest, p2m, currYear);
      if d in p2m {
        WeightedAdd(rest, p2m, d, currYear);
        ReachedCard(rest, p2m, d, currYear);
      } else {
        WeightedOutside(rest, p2m, d, currYear);
        assert Reached(docs, p2m, currYear) == Reached(rest, p2m, currYear);
      }
    }
  }

  lemma {:induction false} WeightSumEmpty(p2m: map<string, PaperMetadata>, hi: int, currYear: int)
    requires hi <= currYear
    ensures WeightSum({}, p2m, hi, currYear) == 0.0
    decreases hi - FirstYear + 1
  {
    if hi >= FirstYear {
      WeightSumEmpty(p2m, hi - 1, currYear);
      assert OfYear({}, p2m, hi) == {};
    }
  }

  lemma {:induction false} WeightSumOutside(docs: set<string>, p2m: map<string, PaperMetadata>, d: string, hi: int, currYear: int)
    requires d !in p2m && hi <= currYear
    ensures WeightSum(docs + {d}, p2m, hi, currYear) == WeightSum(docs, p2m, hi, currYear)
    decreases hi - FirstYear + 1
  {
    if hi >= FirstYear {
      WeightSumOutside(docs, p2m, d, hi - 1, currYear);
      assert OfYear(docs + {d}, p2m, hi) == OfYear(docs, p2m, hi);
    }
  }

  lemma WeightedOutside(docs: set<string>, p2m: map<string, PaperMetadata>, d: string, currYear: int)
    requires d !in p2m
    ensures Weighted(docs + {d}, p2m, currYear) == Weighted(docs, p2m, currYear)
  {
    WeightSumOutside(docs, p2m, d, currYear, currYear);
  }

  /** Cumulative counts never shrink from one year to the next. */
  lemma ReachedMono(docs: set<string>, p2m: map<string, PaperMetadata>, early: int, late: int)
    requires early <= late
    ensures Reached(docs, p2m, early) <= Reached(docs, p2m, late)
    ensures |Reached(docs, p2m, early)| <= |Reached(docs, p2m, late)|
  {
    var a, b := Reached(docs, p2m, early), Reached(docs, p2m, late);
    assert b == a + (b - a);
    assert a !! (b - a);
  }

  // ---------------------------------------------------------------------
  // The record of one meme under one year
  // ---------------------------------------------------------------------

  /** The weighted counters: `weighted_frequency`, `weighted_in_paper_in_citations` and so on. */
  datatype RealCounters = RealCounters(
    frequency: real,
    inPaperInCitations: real,
    inCitations: real,
    inPaperNotInCitations: real,
    notInCitations: real)

  const RealZero: RealCounters := RealCounters(0.0, 0.0, 0.0, 0.0, 0.0)

  /** The increments by `year_weight` for one paper that contains the meme. */
  function WeightedBump(c: RealCounters, inCitations: bool, w: real): (r: RealCounters)
    ensures r.frequency == c.frequency + w
  {
    if inCitations then
      c.(frequency := c.frequency + w,
         inPaperInCitations := c.inPaperInCitations + w,
         inCitations := c.inCitations + w)
    else
      c.(frequency := c.frequency + w,
         inPaperNotInCitations := c.inPaperNotInCitations + w,
         notInCitations := c.notInCitations + w)
  }

  /** The weighted counters under `currYear` of the papers `docs`, of which those in `cited` cite the meme. */
  function WeightedCountsOf(docs: set<string>, cited: set<string>, p2m: map<string, PaperMetadata>,
                            currYear: int): RealCounters
  {
    RealCounters(
      Weighted(docs, p2m, currYear),
      Weighted(docs * cited, p2m, currYear),
      Weighted(docs * cited, p2m, currYear),
      Weighted(docs - cited, p2m, currYear),
      Weighted(docs - cited, p2m, currYear))
  }

  /** The entry of `meme_to_score_components[meme][curr_year]`: the plain counters and their weighted twins. */
  datatype Terms = Terms(plain: Counters, weighted: RealCounters)

  /** The entry created when a year is first reached. */
  const TermsZero: Terms := Terms(Zero, RealZero)

  /** The increments for one paper: 1 to the plain counters, `year_weight` to the weighted ones. */
  function BumpTerms(t: Terms, inCitations: bool, w: real): Terms {
    Terms(Bump(t.plain, inCitations), WeightedBump(t.weighted, inCitations, w))
  }

  /** The entry a meme has under `currYear` after the papers `docs`, in closed form. */
  function TermsAt(docs: set<string>, cited: set<string>, p2m: map<string, PaperMetadata>, currYear: int): Terms {
    Terms(CountsOf(Reached(docs, p2m, currYear), cited), WeightedCountsOf(docs, cited, p2m, currYear))
  }

  /** The entry under a year, or the fresh one when the year has none yet. */
  function CurrentTerms(entry: map<int, Terms>, year: int): Terms {
    if year in entry then entry[year] else TermsZero
  }

  /** One more paper released in or before `currYear` adds its weight to the weighted counters. */
  lemma WeightedCountsAdd(docs: set<string>, cited: set<string>, p2m: map<string, PaperMetadata>, pub: string, currYear: int)
    requires pub in p2m && pub !in docs && FirstYear <= p2m[pub].year <= currYear
    ensures WeightedCountsOf(docs + {pub}, cited, p2m, currYear)
      == WeightedBump(WeightedCountsOf(docs, cited, p2m, currYear), pub in cited, Weight(p2m[pub].year, currYear))
  {
    var w := Weight(p2m[pub].year, currYear);
    WeightedAdd(docs, p2m, pub, currYear);
    if pub in cited {
      assert (docs + {pub}) * cited == docs * cited + {pub};
      assert (docs + {pub}) - cited == docs - cited;
      WeightedAdd(docs * cited, p2m, pub, currYear);
    } else {
      assert (docs + {pub}) * cited == docs * cited;
      assert (docs + {pub}) - cited == (docs - cited) + {pub};
      WeightedAdd(docs - cited, p2m, pub, currYear);
    }
  }

  /** One more paper released after `currYear` leaves the weighted counters as they were. */
  lemma WeightedCountsSkip(docs: set<string>, cited: set<string>, p2m: map<string, PaperMetadata>, pub: string, currYear: int)
    requires pub in p2m && pub !in docs && FirstYear <= p2m[pub].year && currYear < p2m[pub].year
    ensures WeightedCountsOf(docs + {pub}, cited, p2m, currYear) == WeightedCountsOf(docs, cited, p2m, currYear)
  {
    WeightedAdd(docs, p2m, pub, currYear);
    if pub in cited {
      assert (docs + {pub}) * cited == docs * cited + {pub};
      assert (docs + {pub}) - cited == docs - cited;
      WeightedAdd(docs * cited, p2m, pub, currYear);
    } else {
      assert (docs + {pub}) * cited == docs * cited;
      assert (docs + {pub}) - cited == (docs - cited) + {pub};
      WeightedAdd(docs - cited, p2m, pub, currYear);
    }
  }

  /** A paper released in or before `currYear` is tallied into the entry for `currYear`. */
  lemma TermsAtAdd(docs: set<string>, cited: set<string>, p2m: map<string, PaperMetadata>, pub: string, currYear: int)
    requires pub in p2m && pub !in docs && FirstYear <= p2m[pub].year <= currYear
    ensures TermsAt(docs + {pub}, cited, p2m, currYear)
      == BumpTerms(TermsAt(docs, cited, p2m, currYear), pub in cited, Weight(p2m[pub].year, currYear))
  {
    ReachedAdd(docs, p2m, pub, currYear);
    assert Reached(docs + {pub}, p2m, currYear) == Reached(docs, p2m, currYear) + {pub};
    assert pub !in Reached(docs, p2m, currYear);
    CountsAdd(Reached(docs, p2m, currYear), cited, pub);
    WeightedCountsAdd(docs, cited, p2m, pub, currYear);
  }

  /** A paper released after `currYear` leaves the entry for `currYear` as it was. */
  lemma TermsAtSkip(docs: set<string>, cited: set<string>, p2m: map<string, PaperMetadata>, pub: string, currYear: int)
    requires pub in p2m && pub !in docs && FirstYear <= p2m[pub].year && currYear < p2m[pub].year
    ensures TermsAt(docs + {pub}, cited, p2m, currYear) == TermsAt(docs, cited, p2m, currYear)
  {
    ReachedAdd(docs, p2m, pub, currYear);
    assert Reached(docs + {pub}, p2m, currYear) == Reached(docs, p2m, currYear);
    WeightedCountsSkip(docs, cited, p2m, pub, currYear);
  }

  /** No weight is counted while no paper has reached `currYear`. */
  lemma WeightedCountsNone(docs: set<string>, cited: set<string>, p2m: map<string, PaperMetadata>, currYear: int)
    requires Dated(docs, p2m) && Reached(docs, p2m, currYear) == {}
    ensures WeightedCountsOf(docs, cited, p2m, currYear) == RealZero
  {
    WeightedBounds(docs, p2m, currYear);
    assert Reached(docs * cited, p2m, currYear) == {};
    assert Reached(docs - cited, p2m, currYear) == {};
    WeightedBounds(docs * cited, p2m, currYear);
    WeightedBounds(docs - cited, p2m, currYear);
  }

  /** Before any paper reaches `currYear`, the closed form is the fresh entry. */
  lemma TermsAtNone(docs: set<string>, cited: set<string>, p2m: map<string, PaperMetadata>, currYear: int)
    requires Dated(docs, p2m) && |Reached(docs, p2m, currYear)| == 0
    ensures TermsAt(docs, cited, p2m, currYear) == TermsZero
  {
    assert Reached(docs, p2m, currYear) == {};
    CountsOfEmpty(cited);
    WeightedCountsNone(docs, cited, p2m, currYear);
  }

  /** Tallying one more paper into the entry of a year it reaches, whether or not the entry existed. */
  lemma TermsBumpFrom(cur: Terms, docs: set<string>, cited: set<string>, p2m: map<string, PaperMetadata>,
                      pub: string, currYear: int, inCitations: bool)
    requires pub in p2m && pub !in docs && FirstYear <= p2m[pub].year <= currYear
    requires Dated(docs, p2m)
    requires inCitations <==> pub in cited
    requires |Reached(docs, p2m, currYear)| > 0 ==> cur == TermsAt(docs, cited, p2m, currYear)
    requires |Reached(docs, p2m, currYear)| == 0 ==> cur == TermsZero
    ensures BumpTerms(cur, inCitations, Weight(p2m[pub].year, currYear)) == TermsAt(docs + {pub}, cited, p2m, currYear)
  {
    var before := TermsAt(docs, cited, p2m, currYear);
    if |Reached(docs, p2m, currYear)| == 0 {
      TermsAtNone(docs, cited, p2m, currYear);
    }
    assert cur == before;
    assert inCitations == (pub in cited);
    TermsAtAdd(docs, cited, p2m, pub, currYear);
  }

  /**
   * `for curr_year in range(paper_year, 2023)`: the entries of every year
   * from the paper's year through 2022 are created if need be and tallied;
   * the other years stay as they were.
   */
  method TallyYears(entry: map<int, Terms>, paperYear: int, memeInCitations: bool) returns (r: map<int, Terms>)
    requires FirstYear <= paperYear
    ensures forall y :: y in r <==> y in entry || paperYear <= y <= LastYear
    ensures forall y :: paperYear <= y <= LastYear ==>
      r[y] == BumpTerms(CurrentTerms(entry, y), memeInCitations, Weight(paperYear, y))
    ensures forall y :: y in entry && !(paperYear <= y <= LastYear) ==> r[y] == entry[y]
  {
    r := entry;
    var currYear := paperYear;
    while currYear <= LastYear
      invariant paperYear <= currYear
      invariant currYear <= LastYear + 1 || currYear == paperYear
      invariant forall y :: y in r <==> y in entry || paperYear <= y < currYear
      invariant forall y :: paperYear <= y < currYear ==>
        r[y] == BumpTerms(CurrentTerms(entry, y), memeInCitations, Weight(paperYear, y))
      invariant forall y :: y in entry && !(paperYear <= y < currYear) ==> r[y] == entry[y]
      decreases LastYear - currYear
    {
      if currYear !in r {
        r := r[currYear := TermsZero];
      }
      var yearWeight := (paperYear - FirstYear + 1) as real / (currYear - FirstYear + 1) as real;
      r := r[currYear := BumpTerms(r[currYear], memeInCitations, yearWeight)];
      currYear := currYear + 1;
    }
  }

  /** One more paper of a meme, seen at one year of the meme's entry. */
  lemma TallyYearsStep(before: map<int, Terms>, after: map<int, Terms>, pub: string, memeInCitations: bool,
                       done: set<string>, cited: set<string>, p2m: map<string, PaperMetadata>, y: int)
    requires pub in p2m && pub !in done && FirstYear <= p2m[pub].year
    requires Dated(done, p2m)
    requires memeInCitations <==> pub in cited
    requires y in after <==> y in before || p2m[pub].year <= y <= LastYear
    requires p2m[pub].year <= y <= LastYear ==>
      after[y] == BumpTerms(CurrentTerms(before, y), memeInCitations, Weight(p2m[pub].year, y))
    requires y in before && !(p2m[pub].year <= y <= LastYear) ==> after[y] == before[y]
    requires y in before <==> y <= LastYear && |Reached(done, p2m, y)| > 0
    requires y in before ==> before[y] == TermsAt(done, cited, p2m, y)
    ensures y in after <==> y <= LastYear && |Reached(done + {pub}, p2m, y)| > 0
    ensures y in after ==> after[y] == TermsAt(done + {pub}, cited, p2m, y)
  {
    ReachedCard(done, p2m, pub, y);
    if p2m[pub].year <= y <= LastYear {
      TermsBumpFrom(CurrentTerms(before, y), done, cited, p2m, pub, y, memeInCitations);
    } else if p2m[pub].year > y {
      TermsAtSkip(done, cited, p2m, pub, y);
    }
  }

  /** The entry `meme_to_score_components[meme]` for the papers `docs` after the discipline filter. */
  function MemeEntry(docs: set<string>, cited: set<string>, p2m: map<string, PaperMetadata>): (r: map<int, Terms>)
    ensures forall y :: y in r <==> FirstYear <= y <= LastYear && |Reached(docs, p2m, y)| > 0
  {
    map y | FirstYear <= y <= LastYear && |Reached(docs, p2m, y)| > 0 :: TermsAt(docs, cited, p2m, y)
  }

  lemma EntryEqual(entry: map<int, Terms>, docs: set<string>, cited: set<string>, p2m: map<string, PaperMetadata>)
    requires Dated(docs, p2m)
    requires forall y :: y in entry <==> y <= LastYear && |Reached(docs, p2m, y)| > 0
    requires forall y :: y in entry ==> entry[y] == TermsAt(docs, cited, p2m, y)
    ensures entry == MemeEntry(docs, cited, p2m)
  {
    forall y | y in entry
      ensures FirstYear <= y
    {
      var d :| d in Reached(docs, p2m, y);
    }
  }

  lemma MatchingStep(papers: set<string>, remaining: set<string>, pub: string,
                     p2m: map<string, PaperMetadata>, disciplines: seq<string>)
    requires pub in remaining && remaining <= papers
    ensures Matching(papers - (remaining - {pub}), p2m, disciplines)
      == Matching(papers - remaining, p2m, disciplines)
         + (if pub in p2m && MatchesAny(p2m[pub].categories, disciplines) then {pub} else {})
  {
  }

  /**
   * The loop over the papers of one meme: papers outside the disciplines
   * are skipped, the entry exists once a paper matches, and each matching
   * paper is tallied under every year from its release through 2022.
   */
  method TallyMemeTerms(meme: string, papersAppearingIn: set<string>, memeToArticles: map<string, set<string>>,
                        p2m: map<string, PaperMetadata>, disciplines: seq<string>)
    returns (found: bool, entry: map<int, Terms>)
    requires forall d :: d in papersAppearingIn ==> d in p2m
    requires Dated(Matching(papersAppearingIn, p2m, disciplines), p2m)
    ensures found <==> |Matching(papersAppearingIn, p2m, disciplines)| > 0
    ensures entry == MemeEntry(Matching(papersAppearingIn, p2m, disciplines),
                               Citing(papersAppearingIn, meme, p2m, memeToArticles), p2m)
  {
    ghost var cited := Citing(papersAppearingIn, meme, p2m, memeToArticles);
    ghost var matched: set<string> := {};
    found := false;
    entry := map[];
    var remaining := papersAppearingIn;
    assert papersAppearingIn - remaining == {};
    while remaining != {}
      invariant remaining <= papersAppearingIn
      invariant matched == Matching(papersAppearingIn - remaining, p2m, disciplines)
      invariant found <==> |matched| > 0
      invariant forall y :: y in entry <==> y <= LastYear && |Reached(matched, p2m, y)| > 0
      invariant forall y :: y in entry ==> entry[y] == TermsAt(matched, cited, p2m, y)
      decreases |remaining|
    {
      var paper :| paper in remaining;
      MatchingStep(papersAppearingIn, remaining, paper, p2m, disciplines);
      var metadata := p2m[paper];
      if MatchesAny(metadata.categories, disciplines) {
        found := true;
        assert paper in Matching(papersAppearingIn, p2m, disciplines);
        entry := TallyPaper(entry, meme, memeToArticles, paper, p2m, matched, cited);
        matched := matched + {paper};
      }
      remaining := remaining - {paper};
    }
    assert papersAppearingIn - remaining == papersAppearingIn;
    EntryEqual(entry, matched, cited, p2m);
  }

  /** The body of the loop over the papers of a meme, for a paper that matches the disciplines. */
  method TallyPaper(entry: map<int, Terms>, meme: string, memeToArticles: map<string, set<string>>, paper: string,
                    p2m: map<string, PaperMetadata>, ghost matched: set<string>, ghost cited: set<string>)
    returns (r: map<int, Terms>)
    requires paper in p2m && paper !in matched && FirstYear <= p2m[paper].year
    requires Dated(matched, p2m)
    requires paper in cited <==> CitesMeme(p2m[paper].citedPapers, meme, memeToArticles)
    requires forall y :: y in entry <==> y <= LastYear && |Reached(matched, p2m, y)| > 0
    requires forall y :: y in entry ==> entry[y] == TermsAt(matched, cited, p2m, y)
    ensures forall y :: y in r <==> y <= LastYear && |Reached(matched + {paper}, p2m, y)| > 0
    ensures forall y :: y in r ==> r[y] == TermsAt(matched + {paper}, cited, p2m, y)
  {
    var metadata := p2m[paper];
    var paperYear := metadata.year;
    var citations := metadata.citedPapers;
    var memeInCitations := IsMemeInCitations(citations, meme, memeToArticles);
    r := TallyYears(entry, paperYear, memeInCitations);
    forall y
      ensures y in r <==> y <= LastYear && |Reached(matched + {paper}, p2m, y)| > 0
      ensures y in r ==> r[y] == TermsAt(matched + {paper}, cited, p2m, y)
    {
      TallyYearsStep(entry, r, paper, memeInCitations, matched, cited, p2m, y);
    }
  }

  // ---------------------------------------------------------------------
  // The loop over memes
  // ---------------------------------------------------------------------

  /** A meme passes `if meme_idf < IDF_THRESHOLD: continue` and `if len(papers_appearing_in) < minPapers: continue`. */
  predicate Scanned(idf: real, numPapers: nat, minPapers: nat) {
    idf >= IdfThreshold && numPapers >= minPapers
  }

  /**
   * What the loop over memes looks up exists: the IDF of every meme and the
   * metadata of every paper of a meme that passes the filters; and no
   * matching paper of such a meme is older than 1991, where `year_weight`
   * would divide by zero at `curr_year = 1990`.
   */
  predicate Readable(memeToArticles: map<string, set<string>>, p2m: map<string, PaperMetadata>,
                     memeToIdf: map<string, real>, disciplines: seq<string>, minPapers: nat)
  {
    forall m :: m in memeToArticles ==>
      && m in memeToIdf
      && (Scanned(memeToIdf[m], |memeToArticles[m]|, minPapers) ==>
            && (forall d :: d in memeToArticles[m] ==> d in p2m)
            && Dated(Matching(memeToArticles[m], p2m, disciplines), p2m))
  }

  /** The entries a meme of `memeToArticles` gets, in closed form. */
  function EntryOf(m: string, memeToArticles: map<string, set<string>>, p2m: map<string, PaperMetadata>,
                   disciplines: seq<string>): map<int, Terms>
    requires m in memeToArticles
  {
    MemeEntry(Matching(memeToArticles[m], p2m, disciplines), Citing(memeToArticles[m], m, p2m, memeToArticles), p2m)
  }

  /** A meme gets an entry when it passes the filters and some paper of it matches the disciplines. */
  predicate HasEntry(m: string, memeToArticles: map<string, set<string>>, p2m: map<string, PaperMetadata>,
                     memeToIdf: map<string, real>, disciplines: seq<string>, minPapers: nat)
  {
    && m in memeToArticles && m in memeToIdf
    && Scanned(memeToIdf[m], |memeToArticles[m]|, minPapers)
    && |Matching(memeToArticles[m], p2m, disciplines)| > 0
  }

  /** `meme_to_score_components` once the memes in `keys` have been visited. */
  function TermsOver(memeToArticles: map<string, set<string>>, p2m: map<string, PaperMetadata>,
                     memeToIdf: map<string, real>, disciplines: seq<string>, minPapers: nat, keys: set<string>)
    : (r: map<string, map<int, Terms>>)
    ensures forall m :: m in r <==> m in keys && HasEntry(m, memeToArticles, p2m, memeToIdf, disciplines, minPapers)
  {
    map m | m in keys && HasEntry(m, memeToArticles, p2m, memeToIdf, disciplines, minPapers)
      :: EntryOf(m, memeToArticles, p2m, disciplines)
  }

  lemma TermsOverStep(memeToArticles: map<string, set<string>>, p2m: map<string, PaperMetadata>,
                      memeToIdf: map<string, real>, disciplines: seq<string>, minPapers: nat,
                      remaining: set<string>, meme: string)
    requires meme in remaining && remaining <= memeToArticles.Keys
    ensures TermsOver(memeToArticles, p2m, memeToIdf, disciplines, minPapers, memeToArticles.Keys - (remaining - {meme}))
      == if HasEntry(meme, memeToArticles, p2m, memeToIdf, disciplines, minPapers)
         then TermsOver(memeToArticles, p2m, memeToIdf, disciplines, minPapers, memeToArticles.Keys - remaining)
                [meme := EntryOf(meme, memeToArticles, p2m, disciplines)]
         else TermsOver(memeToArticles, p2m, memeToIdf, disciplines, minPapers, memeToArticles.Keys - remaining)
  {
    assert memeToArticles.Keys - (remaining - {meme}) == (memeToArticles.Keys - remaining) + {meme};
  }

  /**
   * compute_n_gram_meme_score_terms, started from an empty
   * `meme_to_score_components`: every meme that passes the filters and has a
   * matching paper gets its entries, in closed form.
   */
  method ScoreTerms(memeToArticles: map<string, set<string>>, p2m: map<string, PaperMetadata>,
                    memeToIdf: map<string, real>, disciplines: seq<string>, minPapers: nat)
    returns (memeToScoreComponents: map<string, map<int, Terms>>)
    requires Readable(memeToArticles, p2m, memeToIdf, disciplines, minPapers)
    ensures memeToScoreComponents == TermsOver(memeToArticles, p2m, memeToIdf, disciplines, minPapers, memeToArticles.Keys)
  {
    memeToScoreComponents := map[];
    var remaining := memeToArticles.Keys;
    assert memeToScoreComponents == TermsOver(memeToArticles, p2m, memeToIdf, disciplines, minPapers, memeToArticles.Keys - remaining);
    while remaining != {}
      invariant remaining <= memeToArticles.Keys
      invariant memeToScoreComponents == TermsOver(memeToArticles, p2m, memeToIdf, disciplines, minPapers, memeToArticles.Keys - remaining)
      decreases |remaining|
    {
      var meme :| meme in remaining;
      TermsOverStep(memeToArticles, p2m, memeToIdf, disciplines, minPapers, remaining, meme);
      memeToScoreComponents := ScoreMeme(memeToScoreComponents, meme, memeToArticles, p2m, memeToIdf, disciplines, minPapers);
      remaining := remaining - {meme};
    }
  }

  /** The body of the loop over memes: the two filters, then the loop over the meme's papers. */
  method ScoreMeme(memeToScoreComponents: map<string, map<int, Terms>>, meme: string,
                   memeToArticles: map<string, set<string>>, p2m: map<string, PaperMetadata>,
                   memeToIdf: map<string, real>, disciplines: seq<string>, minPapers: nat)
    returns (r: map<string, map<int, Terms>>)
    requires meme in memeToArticles
    requires Readable(memeToArticles, p2m, memeToIdf, disciplines, minPapers)
    ensures r == if HasEntry(meme, memeToArticles, p2m, memeToIdf, disciplines, minPapers)
                 then memeToScoreComponents[meme := EntryOf(meme, memeToArticles, p2m, disciplines)]
                 else memeToScoreComponents
  {
    r := memeToScoreComponents;
    var papersAppearingIn := memeToArticles[meme];
    var memeIdf := memeToIdf[meme];
    if memeIdf >= IdfThreshold && |papersAppearingIn| >= minPapers {
      var found, entry := TallyMemeTerms(meme, papersAppearingIn, memeToArticles, p2m, disciplines);
      if found {
        r := r[meme := entry];
      }
    }
  }

  // ---------------------------------------------------------------------
  // The yearly paper totals
  // ---------------------------------------------------------------------

  /** The papers of `p2m` whose categories include a discipline. */
  function MatchingPapers(p2m: map<string, PaperMetadata>, disciplines: seq<string>): set<string> {
    Matching(p2m.Keys, p2m, disciplines)
  }

  /** How many of `docs` a cumulative total for `year` counts: none after 2022. */
  function YearCount(docs: set<string>, p2m: map<string, PaperMetadata>, year: int): nat {
    if year <= LastYear then |Reached(docs, p2m, year)| else 0
  }

  /** `year_to_frequencies[curr_year]` exists for every year a paper of `docs` reaches. */
  predicate CoversYears(years: set<int>, docs: set<string>, p2m: map<string, PaperMetadata>) {
    forall d, y :: d in docs && d in p2m && p2m[d].year <= y <= LastYear ==> y in years
  }

  /** The per-year totals grow with the year through 2022. */
  lemma YearCountMono(docs: set<string>, p2m: map<string, PaperMetadata>, early: int, late: int)
    requires early <= late <= LastYear
    ensures YearCount(docs, p2m, early) <= YearCount(docs, p2m, late)
  {
    ReachedMono(docs, p2m, early, late);
  }

  /** Counting a subset of the papers gives no more at any year. */
  lemma ReachedSubset(a: set<string>, b: set<string>, p2m: map<string, PaperMetadata>, year: int)
    requires a <= b
    ensures |Reached(a, p2m, year)| <= |Reached(b, p2m, year)|
  {
    var ra, rb := Reached(a, p2m, year), Reached(b, p2m, year);
    assert rb == ra + (rb - ra);
    assert ra !! (rb - ra);
  }

  lemma MatchingStepAll(p2m: map<string, PaperMetadata>, remaining: set<string>, pub: string, disciplines: seq<string>)
    requires pub in remaining && remaining <= p2m.Keys
    ensures Matching(p2m.Keys - (remaining - {pub}), p2m, disciplines)
      == Matching(p2m.Keys - remaining, p2m, disciplines)
         + (if MatchesAny(p2m[pub].categories, disciplines) then {pub} else {})
  {
    MatchingStep(p2m.Keys, remaining, pub, p2m, disciplines);
  }
}
