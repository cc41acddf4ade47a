/**
 * Merging the per-year indexes: the meme-to-documents maps of all years
 * by set union, and the paper-to-metadata maps of all years so that the
 * last year to mention a paper decides its record.
 */
module Combine {
  import opened PaperNGrams

  /** The documents listed under a meme, or none when the meme is absent. */
  function Get(index: map<string, set<string>>, m: string): set<string> {
    if m in index then index[m] else {}
  }

  /**
   * The running index with the memes `keys` of one year's index merged in:
   * every meme of either, with the union of its documents.
   */
  function MergedOver(index: map<string, set<string>>, yearMemes: map<string, set<string>>, keys: set<string>)
    : (r: map<string, set<string>>)
    ensures forall m :: m in r <==> m in index || m in keys
  {
    map m | m in index.Keys + keys :: Get(index, m) + (if m in keys then Get(yearMemes, m) else {})
  }

  /** One year's index merged into the running index. */
  function Union(index: map<string, set<string>>, yearMemes: map<string, set<string>>): (r: map<string, set<string>>)
    ensures forall m :: m in r <==> m in index || m in yearMemes
  {
    MergedOver(index, yearMemes, yearMemes.Keys)
  }

  /** The running index after merging every year in order. */
  function Combined(years: seq<map<string, set<string>>>): map<string, set<string>>
    decreases |years|
  {
    if |years| == 0 then map[]
    else Union(Combined(years[..|years| - 1]), years[|years| - 1])
  }

  /** The ids collected into `all_paper_ids` while merging every year in order. */
  function AllDocs(years: seq<map<string, set<string>>>): set<string>
    decreases |years|
  {
    if |years| == 0 then {}
    else
      var last := years[|years| - 1];
      AllDocs(years[..|years| - 1]) + DocsUnder(last, last.Keys)
  }

  // ---------------------------------------------------------------------
  // The loops of get_combined_n_grams
  // ---------------------------------------------------------------------

  /** `for containing_doc in containing_docs`: each document added to the meme's set and to the ids. */
  method AddDocs(docs: set<string>, current: set<string>, allPaperIds: set<string>)
    returns (merged: set<string>, ids: set<string>)
    ensures merged == current + docs
    ensures ids == allPaperIds + docs
  {
    merged, ids := current, allPaperIds;
    var remaining := docs;
    while remaining != {}
      invariant remaining <= docs
      invariant merged == current + (docs - remaining)
      invariant ids == allPaperIds + (docs - remaining)
      decreases |remaining|
    {
      var doc :| doc in remaining;
      merged := merged + {doc};
      ids := ids + {doc};
      remaining := remaining - {doc};
    }
  }

  /** `for meme, containing_docs in year_memes.items()`: one year merged into the running index. */
  method MergeYear(index: map<string, set<string>>, allPaperIds: set<string>, yearMemes: map<string, set<string>>)
    returns (r: map<string, set<string>>, ids: set<string>)
    ensures r == Union(index, yearMemes)
    ensures ids == allPaperIds + DocsUnder(yearMemes, yearMemes.Keys)
  {
    r, ids := index, allPaperIds;
    var remaining := yearMemes.Keys;
    MergeYearStart(index, allPaperIds, yearMemes);
    while remaining != {}
      invariant remaining <= yearMemes.Keys
      invariant r == MergedOver(index, yearMemes, yearMemes.Keys - remaining)
      invariant ids == allPaperIds + DocsUnder(yearMemes, yearMemes.Keys - remaining)
      decreases |remaining|
    {
      var meme :| meme in remaining;
      MergeYearStep(index, yearMemes, remaining, meme, r);
      MergeYearIds(allPaperIds, yearMemes, ids, remaining, meme);
      r, ids := MergeMeme(r, ids, meme, yearMemes[meme]);
      remaining := remaining - {meme};
    }
    MergeYearEnd(index, allPaperIds, yearMemes);
  }

  /**
   * The body of the loop over a year's memes: the meme gets an empty set if
   * it is new, then its documents are added to it and to the ids.
   */
  method MergeMeme(index: map<string, set<string>>, allPaperIds: set<string>, meme: string, docs: set<string>)
    returns (r: map<string, set<string>>, ids: set<string>)
    ensures r == index[meme := Get(index, meme) + docs]
    ensures ids == allPaperIds + docs
  {
    r := index;
    if meme !in r {
      r := r[meme := {}];
    }
    var merged;
    merged, ids := AddDocs(docs, r[meme], allPaperIds);
    r := r[meme := merged];
  }

  lemma MergedOverNothing(index: map<string, set<string>>, yearMemes: map<string, set<string>>)
    ensures MergedOver(index, yearMemes, {}) == index
  {
    var r := MergedOver(index, yearMemes, {});
    assert r.Keys == index.Keys;
    forall m | m in r
      ensures r[m] == index[m]
    {
    }
  }

  /** Merging one more meme of the year is one more update of the running index. */
  lemma MergedOverInsert(index: map<string, set<string>>, yearMemes: map<string, set<string>>, keys: set<string>,
                         meme: string)
    requires meme in yearMemes && meme !in keys
    ensures var before := MergedOver(index, yearMemes, keys);
      MergedOver(index, yearMemes, keys + {meme}) == before[meme := Get(before, meme) + yearMemes[meme]]
  {
    var before := MergedOver(index, yearMemes, keys);
    var after := MergedOver(index, yearMemes, keys + {meme});
    var updated := before[meme := Get(before, meme) + yearMemes[meme]];
    assert after.Keys == updated.Keys;
    forall m | m in after
      ensures after[m] == updated[m]
    {
      if m != meme {
        assert after[m] == Get(index, m) + (if m in keys then Get(yearMemes, m) else {});
      }
    }
  }

  /** One iteration of the loop over a year's memes keeps the loop's invariant. */
  lemma MergeYearStep(index: map<string, set<string>>, yearMemes: map<string, set<string>>, remaining: set<string>,
                      meme: string, r: map<string, set<string>>)
    requires remaining <= yearMemes.Keys && meme in remaining
    requires r == MergedOver(index, yearMemes, yearMemes.Keys - remaining)
    ensures r[meme := Get(r, meme) + yearMemes[meme]]
      == MergedOver(index, yearMemes, yearMemes.Keys - (remaining - {meme}))
  {
    assert yearMemes.Keys - (remaining - {meme}) == (yearMemes.Keys - remaining) + {meme};
    MergedOverInsert(index, yearMemes, yearMemes.Keys - remaining, meme);
  }

  /** Before the loop over a year's memes nothing of the year is merged yet. */
  lemma MergeYearStart(index: map<string, set<string>>, allPaperIds: set<string>, yearMemes: map<string, set<string>>)
    ensures MergedOver(index, yearMemes, yearMemes.Keys - yearMemes.Keys) == index
    ensures allPaperIds + DocsUnder(yearMemes, yearMemes.Keys - yearMemes.Keys) == allPaperIds
  {
    assert yearMemes.Keys - yearMemes.Keys == {};
    MergedOverNothing(index, yearMemes);
  }

  /** After the loop over a year's memes every meme of the year is merged. */
  lemma MergeYearEnd(index: map<string, set<string>>, allPaperIds: set<string>, yearMemes: map<string, set<string>>)
    ensures MergedOver(index, yearMemes, yearMemes.Keys - {}) == Union(index, yearMemes)
    ensures DocsUnder(yearMemes, yearMemes.Keys - {}) == DocsUnder(yearMemes, yearMemes.Keys)
  {
    assert yearMemes.Keys - {} == yearMemes.Keys;
  }

  /** Merging one more meme of the year keeps the ids equal to the documents merged so far. */
  lemma MergeYearIds(allPaperIds: set<string>, yearMemes: map<string, set<string>>,
                     ids: set<string>, remaining: set<string>, meme: string)
    requires meme in remaining && remaining <= yearMemes.Keys
    requires ids == allPaperIds + DocsUnder(yearMemes, yearMemes.Keys - remaining)
    ensures ids + yearMemes[meme] == allPaperIds + DocsUnder(yearMemes, yearMemes.Keys - (remaining - {meme}))
  {
    DocsUnderStep(yearMemes, yearMemes.Keys - remaining, meme);
    assert yearMemes.Keys - (remaining - {meme}) == (yearMemes.Keys - remaining) + {meme};
  }

  /** `get_combined_n_grams` over the loaded per-year indexes, in year order. */
  method GetCombinedNGrams(years: seq<map<string, set<string>>>)
    returns (memeToArticles: map<string, set<string>>, allPaperIds: set<string>)
    ensures memeToArticles == Combined(years)
    ensures allPaperIds == AllDocs(years)
  {
    memeToArticles, allPaperIds := map[], {};
    for k := 0 to |years|
      invariant memeToArticles == Combined(years[..k])
      invariant allPaperIds == AllDocs(years[..k])
    {
      assert years[..k + 1][..k] == years[..k];
      var merged;
      merged, allPaperIds := MergeYear(memeToArticles, allPaperIds, years[k]);
      assert merged == Union(memeToArticles, years[k]);
      memeToArticles := merged;
    }
    assert years[..|years|] == years;
  }

  // ---------------------------------------------------------------------
  // What the merged index holds
  // ---------------------------------------------------------------------

  /** Every meme of every year is a key of the merged index, even with no documents. */
  lemma {:induction false} CombinedKeeps(years: seq<map<string, set<string>>>, i: nat, m: string)
    requires i < |years| && m in years[i]
    ensures m in Combined(years)
    ensures years[i][m] <= Combined(years)[m]
    decreases |years|
  {
    var init := years[..|years| - 1];
    if i < |years| - 1 {
      assert init[i] == years[i];
      CombinedKeeps(init, i, m);
    }
  }

  /** Every key and document of the merged index comes from some year. */
  lemma {:induction false} CombinedSound(years: seq<map<string, set<string>>>, m: string, d: string)
    ensures m in Combined(years) ==> exists i :: 0 <= i < |years| && m in years[i]
    ensures m in Combined(years) && d in Combined(years)[m] ==>
      exists i :: 0 <= i < |years| && m in years[i] && d in years[i][m]
    decreases |years|
  {
    if |years| > 0 {
      var init := years[..|years| - 1];
      CombinedSound(init, m, d);
      if m in Combined(init) {
        var i :| 0 <= i < |init| && m in init[i];
        assert years[i] == init[i];
      }
      if m in Combined(init) && d in Combined(init)[m] {
        var i :| 0 <= i < |init| && m in init[i] && d in init[i][m];
        assert years[i] == init[i];
      }
    }
  }

  /** A meme's merged set only grows as later years are merged. */
  lemma {:induction false} CombinedGrows(years: seq<map<string, set<string>>>, k: nat, m: string)
    requires k <= |years| && m in Combined(years[..k])
    ensures m in Combined(years)
    ensures Combined(years[..k])[m] <= Combined(years)[m]
    decreases |years|
  {
    if k < |years| {
      var init := years[..|years| - 1];
      assert init[..k] == years[..k];
      CombinedGrows(init, k, m);
    } else {
      assert years[..k] == years;
    }
  }

  /**
   * The merged index depends only on which years are merged, not on their
   * order or on repeats.
   */
  lemma CombinedOrderFree(years: seq<map<string, set<string>>>, others: seq<map<string, set<string>>>)
    requires forall y :: y in years <==> y in others
    ensures Combined(years) == Combined(others)
  {
    CombinedIncludedAll(years, others);
    CombinedIncludedAll(others, years);
    IndexesEqual(Combined(years), Combined(others));
  }

  /** Two indexes each of which is contained in the other are equal. */
  lemma IndexesEqual(a: map<string, set<string>>, b: map<string, set<string>>)
    requires forall m :: m in a ==> m in b && a[m] <= b[m]
    requires forall m :: m in b ==> m in a && b[m] <= a[m]
    ensures a == b
  {
    assert a.Keys == b.Keys;
    forall m | m in a
      ensures a[m] == b[m]
    {
    }
  }

  lemma CombinedIncludedAll(years: seq<map<string, set<string>>>, others: seq<map<string, set<string>>>)
    requires forall y :: y in years ==> y in others
    ensures forall m :: m in Combined(years) ==> m in Combined(others) && Combined(years)[m] <= Combined(others)[m]
  {
    forall m | m in Combined(years)
      ensures m in Combined(others) && Combined(years)[m] <= Combined(others)[m]
    {
      CombinedIncluded(years, others, m);
    }
  }

  lemma CombinedIncluded(years: seq<map<string, set<string>>>, others: seq<map<string, set<string>>>, m: string)
    requires forall y :: y in years ==> y in others
    requires m in Combined(years)
    ensures m in Combined(others) && Combined(years)[m] <= Combined(others)[m]
  {
    CombinedSound(years, m, "");
    var i :| 0 <= i < |years| && m in years[i];
    assert years[i] in years;
    var j :| 0 <= j < |others| && others[j] == years[i];
    CombinedKeeps(others, j, m);
    forall d | d in Combined(years)[m]
      ensures d in Combined(others)[m]
    {
      CombinedSound(years, m, d);
      var i' :| 0 <= i' < |years| && m in years[i'] && d in years[i'][m];
      assert years[i'] in years;
      var j' :| 0 <= j' < |others| && others[j'] == years[i'];
      CombinedKeeps(others, j', m);
    }
  }

  /** The documents of a union are those of its two sides. */
  lemma DocsUnderUnion(index: map<string, set<string>>, yearMemes: map<string, set<string>>)
    ensures var u := Union(index, yearMemes);
      DocsUnder(u, u.Keys) == DocsUnder(index, index.Keys) + DocsUnder(yearMemes, yearMemes.Keys)
  {
    var u := Union(index, yearMemes);
    forall d | d in DocsUnder(u, u.Keys)
      ensures d in DocsUnder(index, index.Keys) + DocsUnder(yearMemes, yearMemes.Keys)
    {
      var m :| m in u && d in u[m];
      assert d in Get(index, m) + Get(yearMemes, m);
    }
    forall d | d in DocsUnder(index, index.Keys) + DocsUnder(yearMemes, yearMemes.Keys)
      ensures d in DocsUnder(u, u.Keys)
    {
      if d in DocsUnder(index, index.Keys) {
        var m :| m in index && d in index[m];
        assert d in u[m];
      } else {
        var m :| m in yearMemes && d in yearMemes[m];
        assert d in u[m];
      }
    }
  }

  /** `all_paper_ids` is the set of all documents of the merged index. */
  lemma {:induction false} AllDocsOfCombined(years: seq<map<string, set<string>>>)
    ensures AllDocs(years) == DocsUnder(Combined(years), Combined(years).Keys)
    decreases |years|
  {
    if |years| > 0 {
      AllDocsOfCombined(years[..|years| - 1]);
      DocsUnderUnion(Combined(years[..|years| - 1]), years[|years| - 1]);
    }
  }

  // ---------------------------------------------------------------------
  // get_combined_metadata
  // ---------------------------------------------------------------------

  /** The metadata after merging every year in order; a later year overrides an earlier one. */
  function MergedMetadata<M>(years: seq<map<string, M>>): map<string, M>
    decreases |years|
  {
    if |years| == 0 then map[]
    else MergedMetadata(years[..|years| - 1]) + years[|years| - 1]
  }

  /** The entries of `yearMetadata` for the papers among `keys`. */
  function Part<M>(yearMetadata: map<string, M>, keys: set<string>): map<string, M> {
    map p | p in yearMetadata && p in keys :: yearMetadata[p]
  }

  /** `for paper, metadata in year_metadata.items(): paper_to_metadata[paper] = metadata`. */
  method MergeMetadataYear<M>(paperToMetadata: map<string, M>, yearMetadata: map<string, M>)
    returns (r: map<string, M>)
    ensures r == paperToMetadata + yearMetadata
  {
    r := paperToMetadata;
    var remaining := yearMetadata.Keys;
    MergeMetadataStart(paperToMetadata, yearMetadata);
    while remaining != {}
      invariant remaining <= yearMetadata.Keys
      invariant r == paperToMetadata + Part(yearMetadata, yearMetadata.Keys - remaining)
      decreases |remaining|
    {
      var paper :| paper in remaining;
      MergeMetadataStep(paperToMetadata, yearMetadata, remaining, paper, r);
      r := r[paper := yearMetadata[paper]];
      remaining := remaining - {paper};
    }
    MergeMetadataEnd(paperToMetadata, yearMetadata, remaining);
  }

  lemma MergeMetadataStart<M>(paperToMetadata: map<string, M>, yearMetadata: map<string, M>)
    ensures paperToMetadata + Part(yearMetadata, yearMetadata.Keys - yearMetadata.Keys) == paperToMetadata
  {
    assert Part(yearMetadata, yearMetadata.Keys - yearMetadata.Keys) == map[];
  }

  lemma MergeMetadataEnd<M>(paperToMetadata: map<string, M>, yearMetadata: map<string, M>, remaining: set<string>)
    requires remaining == {}
    ensures paperToMetadata + Part(yearMetadata, yearMetadata.Keys - remaining) == paperToMetadata + yearMetadata
  {
    assert Part(yearMetadata, yearMetadata.Keys - remaining) == yearMetadata;
  }

  /** One iteration of the loop over a year's metadata keeps the loop's invariant. */
  lemma MergeMetadataStep<M>(paperToMetadata: map<string, M>, yearMetadata: map<string, M>, remaining: set<string>,
                             paper: string, r: map<string, M>)
    requires remaining <= yearMetadata.Keys && paper in remaining
    requires r == paperToMetadata + Part(yearMetadata, yearMetadata.Keys - remaining)
    ensures r[paper := yearMetadata[paper]]
      == paperToMetadata + Part(yearMetadata, yearMetadata.Keys - (remaining - {paper}))
  {
    var after := paperToMetadata + Part(yearMetadata, yearMetadata.Keys - (remaining - {paper}));
    var updated := r[paper := yearMetadata[paper]];
    assert after.Keys == updated.Keys;
    forall p | p in after
      ensures after[p] == updated[p]
    {
    }
  }

  /** `get_combined_metadata` over the loaded per-year metadata, in year order. */
  method GetCombinedMetadata<M>(years: seq<map<string, M>>) returns (paperToMetadata: map<string, M>)
    ensures paperToMetadata == MergedMetadata(years)
  {
    paperToMetadata := map[];
    for k := 0 to |years|
      invariant paperToMetadata == MergedMetadata(years[..k])
    {
      assert years[..k + 1][..k] == years[..k];
      paperToMetadata := MergeMetadataYear(paperToMetadata, years[k]);
    }
    assert years[..|years|] == years;
  }

  /** The merged metadata has as keys the papers of every year. */
  lemma {:induction false} MergedMetadataKeys<M>(years: seq<map<string, M>>, p: string)
    ensures p in MergedMetadata(years) <==> exists i :: 0 <= i < |years| && p in years[i]
    decreases |years|
  {
    if |years| > 0 {
      var init := years[..|years| - 1];
      MergedMetadataKeys(init, p);
      if p in MergedMetadata(init) {
        var i :| 0 <= i < |init| && p in init[i];
        assert years[i] == init[i];
      }
      if exists i :: 0 <= i < |years| && p in years[i] {
        var i :| 0 <= i < |years| && p in years[i];
        if i < |years| - 1 {
          assert init[i] == years[i];
        }
      }
    }
  }

  /** A paper's merged record is the one of the last year that lists it. */
  lemma {:induction false} MergedMetadataLastWins<M>(years: seq<map<string, M>>, k: nat, p: string)
    requires k < |years| && p in years[k]
    requires forall j :: k < j < |years| ==> p !in years[j]
    ensures p in MergedMetadata(years) && MergedMetadata(years)[p] == years[k][p]
    decreases |years|
  {
    var init := years[..|years| - 1];
    if k < |years| - 1 {
      forall j | k < j < |init|
        ensures p !in init[j]
      {
        assert init[j] == years[j];
      }
      assert init[k] == years[k];
      MergedMetadataLastWins(init, k, p);
    }
  }
}
