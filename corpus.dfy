/**
 * The paper records the scripts read, as in-memory values. A JSON record
 * of the unarXive corpus becomes a Paper; its `bib_entries` dictionary and its
 * `body_text` list become sequences so that their iteration order is kept.
 * The release year of version v1 is given as an int.
 */
module Corpus {
  import opened Text

  /** `ref_data['ids']`: the `arxiv_id` key may be missing. */
  datatype ExternalIds = ExternalIds(arxivId: Option<string>)

  /** One bibliography entry: its key in `bib_entries` and its optional `ids`. */
  datatype BibEntry = BibEntry(key: string, ids: Option<ExternalIds>)

  /** One element of `body_text`: `section` and `sec_number` may be None. */
  datatype Section = Section(name: Option<string>, number: Option<string>, text: string)

  /**
   * One paper record. `categories` is the space-separated `metadata.categories`
   * string, `abstractText` is `abstract.text`; a None stands for a missing key.
   * `discipline` is the extra field that the statistics table reads.
   */
  datatype Paper = Paper(
    id: string,
    categories: Option<string>,
    title: Option<string>,
    abstractText: Option<string>,
    year: int,
    body: seq<Section>,
    bib: seq<BibEntry>,
    discipline: string)

  /** The per-paper record of `paper_to_metadata`: categories, release year, cited arXiv ids. */
  datatype PaperMetadata = PaperMetadata(categories: seq<string>, year: int, citedPapers: seq<string>)

  const ValidDisciplines: seq<string> := ["cs.AI", "cs.CL", "cs.CV", "cs.LG", "stat.ML"]

  /** The corpus years, 1991 through 2022, and the n-gram width limit. */
  const FirstYear: int := 1991
  const LastYear: int := 2022
  const MaxNGramSize: nat := 5

  /** `categories.split(' ')`, or `[]` when the field is missing. */
  function CategoryList(p: Paper): (r: seq<string>)
    ensures p.categories.None? <==> r == []
    ensures forall c :: c in r ==> ' ' !in c
  {
    match p.categories
    case None => []
    case Some(s) => Split(s, ' ')
  }

  /** `any([cat in disciplines for cat in categories])`. */
  predicate MatchesAny(categories: seq<string>, disciplines: seq<string>) {
    exists c :: c in categories && c in disciplines
  }

  /** A set of years with no member is empty: what lets a loop pick a year from a non-empty set. */
  lemma NoYearEmpty(years: set<int>)
    ensures (forall y :: y !in years) ==> years == {}
  {
    if forall y :: y !in years {
      forall y
        ensures y in years <==> y in {}
      {
      }
      assert years == {};
    }
  }
}
