/**
 * The counting fold of preprocess_data in analysis/statistics/stats_table.py:
 * paper counts per discipline and per subject, reference counts, and the
 * cited keys seen per discipline and per subject. The papers of every year
 * and file are taken as one sequence, in reading order.
 */
module StatsTable {
  import opened Text
  import opened Corpus

  /**
   * A reference count, a cited set and a cited count per discipline or per
   * subject: `count_nb_references`, `doc_cited` and `count_doc_cited`, or
   * `count_nb_references_subject`, `doc_cited_subject` and
   * `count_doc_cited_subject`, each `defaultdict` as a map read with its
   * default.
   */
  datatype Citations = Citations(references: map<string, int>, cited: map<string, set<string>>, count: map<string, int>)

  /** The nine accumulators of preprocess_data. */
  datatype Stats = Stats(
    totalNbPaper: int,
    countDoc: map<string, int>,
    countDocSubject: map<string, int>,
    disciplines: Citations,
    subjects: Citations)

  const NoCitations: Citations := Citations(map[], map[], map[])
  const Empty: Stats := Stats(0, map[], map[], NoCitations, NoCitations)

  /** `count[k]` of a `defaultdict(int)`. */
  function Get(m: map<string, int>, k: string): int {
    if k in m then m[k] else 0
  }

  /** `sets[k]` of a `defaultdict(set)`. */
  function GetSet(m: map<string, set<string>>, k: string): set<string> {
    if k in m then m[k] else {}
  }

  /** `count[k] += 1`. */
  function Inc(m: map<string, int>, k: string): (r: map<string, int>)
    ensures forall j :: Get(r, j) == Get(m, j) + (if j == k then 1 else 0)
  {
    m[k := Get(m, k) + 1]
  }

  // ---------------------------------------------------------------------
  // Reference definitions
  // ---------------------------------------------------------------------

  /** How often `x` occurs in `xs`. */
  function Occurrences(xs: seq<string>, x: string): nat {
    if xs == [] then 0 else Occurrences(xs[..|xs| - 1], x) + (if xs[|xs| - 1] == x then 1 else 0)
  }

  /** The number of papers of discipline `d`. */
  function DocCount(papers: seq<Paper>, d: string): nat {
    if papers == [] then 0
    else DocCount(papers[..|papers| - 1], d) + (if papers[|papers| - 1].discipline == d then 1 else 0)
  }

  /** How often subject `s` occurs in the split category strings of the papers. */
  function SubjectCount(papers: seq<Paper>, s: string): nat {
    if papers == [] then 0
    else SubjectCount(papers[..|papers| - 1], s) + Occurrences(CategoryList(papers[|papers| - 1]), s)
  }

  /** The number of bibliography entries of the papers of discipline `d`. */
  function RefCount(papers: seq<Paper>, d: string): nat {
    if papers == [] then 0
    else RefCount(papers[..|papers| - 1], d)
         + (if papers[|papers| - 1].discipline == d then |papers[|papers| - 1].bib| else 0)
  }

  /** The keys of a paper's bibliography entries. */
  function BibKeys(bib: seq<BibEntry>): set<string> {
    set i | 0 <= i < |bib| :: bib[i].key
  }

  /** The keys cited by the papers of discipline `d`. */
  function CitedKeys(papers: seq<Paper>, d: string): set<string> {
    if papers == [] then {}
    else CitedKeys(papers[..|papers| - 1], d)
         + (if papers[|papers| - 1].discipline == d then BibKeys(papers[|papers| - 1].bib) else {})
  }

  /** The sum of the values of a counter. */
  ghost function SumValues(m: map<string, int>): int
    decreases |m.Keys|
  {
    if m.Keys == {} then 0
    else
      var k :| k in m;
      m[k] + SumValues(m - {k})
  }

  /** The sum does not depend on which key is taken first. */
  lemma {:induction false} SumValuesRemove(m: map<string, int>, k: string)
    requires k in m
    ensures SumValues(m) == m[k] + SumValues(m - {k})
    decreases |m.Keys|
  {
    var j :| j in m && SumValues(m) == m[j] + SumValues(m - {j});
    if j != k {
      assert k in m - {j};
      SumValuesRemove(m - {j}, k);
      assert j in m - {k};
      SumValuesRemove(m - {k}, j);
      assert (m - {j}) - {k} == (m - {k}) - {j};
    }
  }

  /** `count[k] += 1` adds 1 to the sum. */
  lemma SumValuesInc(m: map<string, int>, k: string)
    ensures SumValues(Inc(m, k)) == SumValues(m) + 1
  {
    var r := Inc(m, k);
    SumValuesRemove(r, k);
    assert r - {k} == m - {k};
    if k in m {
      SumValuesRemove(m, k);
    } else {
      assert m - {k} == m;
    }
  }

  /** A value occurs in a list exactly when the list holds it. */
  lemma {:induction false} OccurrencesIn(xs: seq<string>, x: string)
    ensures Occurrences(xs, x) > 0 <==> x in xs
    decreases |xs|
  {
    if xs != [] {
      var init := xs[..|xs| - 1];
      OccurrencesIn(init, x);
      assert xs == init + [xs[|xs| - 1]];
    }
  }

  // ---------------------------------------------------------------------
  // The fold, step by step
  // ---------------------------------------------------------------------

  /** `for subject in paper_subjects: count_doc_subject[subject] += 1`, as a value. */
  function IncAll(m: map<string, int>, xs: seq<string>): map<string, int>
    decreases |xs|
  {
    if xs == [] then m else Inc(IncAll(m, xs[..|xs| - 1]), xs[|xs| - 1])
  }

  /**
   * One citation of `key` under `k` (lines 62-68 for a discipline, 70-75
   * for a subject): one more reference; a key not yet in `k`'s cited set
   * is added to it and counted.
   */
  function Cite(c: Citations, k: string, key: string): Citations {
    var isNew := key !in GetSet(c.cited, k);
    Citations(Inc(c.references, k),
              if isNew then c.cited[k := GetSet(c.cited, k) + {key}] else c.cited,
              if isNew then Inc(c.count, k) else c.count)
  }

  /** The loop over the subjects, as a value. */
  function CiteAll(c: Citations, ks: seq<string>, key: string): Citations
    decreases |ks|
  {
    if ks == [] then c else Cite(CiteAll(c, ks[..|ks| - 1], key), ks[|ks| - 1], key)
  }

  /**
   * One bibliography entry (lines 62-75): the discipline cites the key; only
   * a key new to the discipline goes on to the subjects.
   */
  function AfterEntry(st: Stats, discipline: string, subjects: seq<string>, key: string): Stats {
    st.(disciplines := Cite(st.disciplines, discipline, key),
        subjects := if key in GetSet(st.disciplines.cited, discipline) then st.subjects
                    else CiteAll(st.subjects, subjects, key))
  }

  /** The loop over a paper's bibliography entries, as a value. */
  function AfterEntries(st: Stats, discipline: string, subjects: seq<string>, bib: seq<BibEntry>): Stats
    decreases |bib|
  {
    if bib == [] then st
    else AfterEntry(AfterEntries(st, discipline, subjects, bib[..|bib| - 1]), discipline, subjects, bib[|bib| - 1].key)
  }

  /** A paper's own counts (lines 49-59), before its bibliography. */
  function PaperStart(st: Stats, paper: Paper): Stats {
    st.(totalNbPaper := st.totalNbPaper + 1,
        countDoc := Inc(st.countDoc, paper.discipline),
        countDocSubject := IncAll(st.countDocSubject, CategoryList(paper)))
  }

  /** One paper (lines 49-75). */
  function AfterPaper(st: Stats, paper: Paper): Stats {
    AfterEntries(PaperStart(st, paper), paper.discipline, CategoryList(paper), paper.bib)
  }

  /** The accumulators after the papers of `papers`, in order, from empty ones. */
  function AfterPapers(papers: seq<Paper>): Stats
    decreases |papers|
  {
    if papers == [] then Empty else AfterPaper(AfterPapers(papers[..|papers| - 1]), papers[|papers| - 1])
  }

  // ---------------------------------------------------------------------
  // The loops
  // ---------------------------------------------------------------------

  /** `for subject in paper_subjects: count_doc_subject[subject] += 1`. */
  method CountSubjects(countDocSubject: map<string, int>, paperSubjects: seq<string>) returns (r: map<string, int>)
    ensures r == IncAll(countDocSubject, paperSubjects)
    ensures forall s :: Get(r, s) == Get(countDocSubject, s) + Occurrences(paperSubjects, s)
  {
    r := countDocSubject;
    for k := 0 to |paperSubjects|
      invariant r == IncAll(countDocSubject, paperSubjects[..k])
    {
      assert paperSubjects[..k + 1][..k] == paperSubjects[..k];
      r := Inc(r, paperSubjects[k]);
    }
    assert paperSubjects[..|paperSubjects|] == paperSubjects;
    IncAllCounts(countDocSubject, paperSubjects);
  }

  /** One bibliography entry with its loop over the subjects (lines 62-75). */
  method CiteEntry(st: Stats, discipline: string, paperSubjects: seq<string>, citedPaperId: string) returns (r: Stats)
    ensures r == AfterEntry(st, discipline, paperSubjects, citedPaperId)
  {
    var disciplines := st.disciplines;
    disciplines := disciplines.(references := Inc(disciplines.references, discipline));
    if citedPaperId in GetSet(disciplines.cited, discipline) {
      r := st.(disciplines := disciplines);
      return;
    }
    disciplines := disciplines.(cited := disciplines.cited[discipline := GetSet(disciplines.cited, discipline) + {citedPaperId}]);
    disciplines := disciplines.(count := Inc(disciplines.count, discipline));
    var subjects := st.subjects;
    for k := 0 to |paperSubjects|
      invariant subjects == CiteAll(st.subjects, paperSubjects[..k], citedPaperId)
    {
      assert paperSubjects[..k + 1][..k] == paperSubjects[..k];
      var subject := paperSubjects[k];
      subjects := subjects.(references := Inc(subjects.references, subject));
      if citedPaperId in GetSet(subjects.cited, subject) {
        continue;
      }
      subjects := subjects.(count := Inc(subjects.count, subject));
      subjects := subjects.(cited := subjects.cited[subject := GetSet(subjects.cited, subject) + {citedPaperId}]);
    }
    assert paperSubjects[..|paperSubjects|] == paperSubjects;
    r := st.(disciplines := disciplines, subjects := subjects);
  }

  /** The body of the loop over the papers (lines 49-75). */
  method CountPaper(st: Stats, paper: Paper) returns (r: Stats)
    ensures r == AfterPaper(st, paper)
  {
    var discipline := paper.discipline;
    r := st.(totalNbPaper := st.totalNbPaper + 1, countDoc := Inc(st.countDoc, discipline));
    var paperSubjects := CategoryList(paper);
    var countDocSubject := CountSubjects(r.countDocSubject, paperSubjects);
    r := r.(countDocSubject := countDocSubject);
    assert r == PaperStart(st, paper);
    ghost var start := r;
    for j := 0 to |paper.bib|
      invariant r == AfterEntries(start, discipline, paperSubjects, paper.bib[..j])
    {
      assert paper.bib[..j + 1][..j] == paper.bib[..j];
      r := CiteEntry(r, discipline, paperSubjects, paper.bib[j].key);
    }
    assert paper.bib[..|paper.bib|] == paper.bib;
  }

  /**
   * preprocess_data: the nine accumulators after every paper. The total is
   * the number of papers and the sum of the per-discipline counts; the
   * counts per discipline and subject, the references per discipline and
   * the cited sets per discipline are those of the reference definitions;
   * every cited count is the size of its cited set; and no discipline has
   * cited more distinct keys than it has references.
   */
  method PreprocessData(papers: seq<Paper>) returns (st: Stats)
    ensures st == AfterPapers(papers)
    ensures st.totalNbPaper == |papers| == SumValues(st.countDoc)
    ensures forall d :: Get(st.countDoc, d) == DocCount(papers, d)
    ensures forall s :: Get(st.countDocSubject, s) == SubjectCount(papers, s)
    ensures forall d :: Get(st.disciplines.references, d) == RefCount(papers, d)
    ensures forall d :: GetSet(st.disciplines.cited, d) == CitedKeys(papers, d)
    ensures Consistent(st.disciplines) && Consistent(st.subjects)
    ensures forall d :: Get(st.disciplines.count, d) <= Get(st.disciplines.references, d)
  {
    st := Empty;
    for i := 0 to |papers|
      invariant st == AfterPapers(papers[..i])
    {
      assert papers[..i + 1][..i] == papers[..i];
      st := CountPaper(st, papers[i]);
    }
    assert papers[..|papers|] == papers;
    AfterPapersTotals(papers);
    AfterPapersCounts(papers);
    AfterPapersConsistent(papers);
    forall d
      ensures Get(st.disciplines.count, d) <= Get(st.disciplines.references, d)
    {
      CitedKeysBound(papers, d);
    }
  }

  // ---------------------------------------------------------------------
  // What the fold computes
  // ---------------------------------------------------------------------

  /** Every cited count equals the size of its cited set. */
  ghost predicate Consistent(c: Citations) {
    forall k :: Get(c.count, k) == |GetSet(c.cited, k)|
  }

  /** The increments of `IncAll` are the occurrences of each value. */
  lemma {:induction false} IncAllCounts(m: map<string, int>, xs: seq<string>)
    ensures forall s :: Get(IncAll(m, xs), s) == Get(m, s) + Occurrences(xs, s)
    decreases |xs|
  {
    if xs != [] {
      IncAllCounts(m, xs[..|xs| - 1]);
    }
  }

  /** A value is in a non-empty list exactly when it is in its prefix or is its last element. */
  lemma InLast(xs: seq<string>, x: string)
    requires xs != []
    ensures x in xs <==> x in xs[..|xs| - 1] || x == xs[|xs| - 1]
  {
    assert xs == xs[..|xs| - 1] + [xs[|xs| - 1]];
  }

  /** One citation: `k` has one more reference and holds the key afterwards; nothing else changes. */
  lemma CiteEffect(c: Citations, k: string, key: string)
    ensures var r := Cite(c, k, key);
      && (forall j :: Get(r.references, j) == Get(c.references, j) + (if j == k then 1 else 0))
      && (forall j :: GetSet(r.cited, j) == GetSet(c.cited, j) + (if j == k then {key} else {}))
  {
  }

  /** The cited count grows exactly when the cited set does, so it stays the size of the set. */
  lemma CiteConsistent(c: Citations, k: string, key: string)
    requires Consistent(c)
    ensures Consistent(Cite(c, k, key))
  {
    var r := Cite(c, k, key);
    forall j
      ensures Get(r.count, j) == |GetSet(r.cited, j)|
    {
      if j == k && key !in GetSet(c.cited, k) {
        assert GetSet(r.cited, j) == GetSet(c.cited, k) + {key};
        assert |GetSet(c.cited, k) + {key}| == |GetSet(c.cited, k)| + 1;
      }
    }
  }

  /** Every subject counts one reference per occurrence in the paper's subjects. */
  lemma {:induction false} CiteAllRefs(c: Citations, ks: seq<string>, key: string)
    ensures forall s :: Get(CiteAll(c, ks, key).references, s) == Get(c.references, s) + Occurrences(ks, s)
    decreases |ks|
  {
    if ks != [] {
      CiteAllRefs(c, ks[..|ks| - 1], key);
      CiteEffect(CiteAll(c, ks[..|ks| - 1], key), ks[|ks| - 1], key);
    }
  }

  /** Exactly the paper's subjects hold the key afterwards; no other key is added. */
  lemma {:induction false} CiteAllCited(c: Citations, ks: seq<string>, key: string)
    ensures forall s :: GetSet(CiteAll(c, ks, key).cited, s) == GetSet(c.cited, s) + (if s in ks then {key} else {})
    decreases |ks|
  {
    if ks != [] {
      CiteAllCited(c, ks[..|ks| - 1], key);
      CiteEffect(CiteAll(c, ks[..|ks| - 1], key), ks[|ks| - 1], key);
      forall s
        ensures s in ks <==> s in ks[..|ks| - 1] || s == ks[|ks| - 1]
      {
        InLast(ks, s);
      }
    }
  }

  lemma {:induction false} CiteAllConsistent(c: Citations, ks: seq<string>, key: string)
    requires Consistent(c)
    ensures Consistent(CiteAll(c, ks, key))
    decreases |ks|
  {
    if ks != [] {
      CiteAllConsistent(c, ks[..|ks| - 1], key);
      CiteConsistent(CiteAll(c, ks[..|ks| - 1], key), ks[|ks| - 1], key);
    }
  }

  /** The keys of a non-empty bibliography are those of its prefix and its last key. */
  lemma BibKeysLast(bib: seq<BibEntry>)
    requires bib != []
    ensures BibKeys(bib) == BibKeys(bib[..|bib| - 1]) + {bib[|bib| - 1].key}
  {
    var init := bib[..|bib| - 1];
    forall x | x in BibKeys(bib)
      ensures x in BibKeys(init) + {bib[|bib| - 1].key}
    {
      var i :| 0 <= i < |bib| && bib[i].key == x;
      if i < |bib| - 1 {
        assert init[i] == bib[i];
      }
    }
    forall x | x in BibKeys(init)
      ensures x in BibKeys(bib)
    {
      var i :| 0 <= i < |init| && init[i].key == x;
      assert bib[i] == init[i];
    }
  }

  /** A paper's entries leave the totals and the paper counts alone. */
  lemma {:induction false} AfterEntriesFrame(st: Stats, discipline: string, subjects: seq<string>, bib: seq<BibEntry>)
    ensures var r := AfterEntries(st, discipline, subjects, bib);
      r.totalNbPaper == st.totalNbPaper && r.countDoc == st.countDoc && r.countDocSubject == st.countDocSubject
    decreases |bib|
  {
    if bib != [] {
      AfterEntriesFrame(st, discipline, subjects, bib[..|bib| - 1]);
    }
  }

  /** A paper's entries: `|bib|` more references of its discipline, which has then cited all their keys. */
  lemma {:induction false} AfterEntriesDocs(st: Stats, discipline: string, subjects: seq<string>, bib: seq<BibEntry>)
    ensures var r := AfterEntries(st, discipline, subjects, bib);
      && (forall d :: Get(r.disciplines.references, d)
                      == Get(st.disciplines.references, d) + (if d == discipline then |bib| else 0))
      && (forall d :: GetSet(r.disciplines.cited, d)
                      == GetSet(st.disciplines.cited, d) + (if d == discipline then BibKeys(bib) else {}))
    decreases |bib|
  {
    if bib != [] {
      var init := bib[..|bib| - 1];
      AfterEntriesDocs(st, discipline, subjects, init);
      CiteEffect(AfterEntries(st, discipline, subjects, init).disciplines, discipline, bib[|bib| - 1].key);
      BibKeysLast(bib);
    }
  }

  /** A paper's entries keep every cited count equal to the size of its cited set. */
  lemma {:induction false} AfterEntriesConsistent(st: Stats, discipline: string, subjects: seq<string>, bib: seq<BibEntry>)
    requires Consistent(st.disciplines) && Consistent(st.subjects)
    ensures var r := AfterEntries(st, discipline, subjects, bib);
      Consistent(r.disciplines) && Consistent(r.subjects)
    decreases |bib|
  {
    if bib != [] {
      var init := bib[..|bib| - 1];
      AfterEntriesConsistent(st, discipline, subjects, init);
      var prev := AfterEntries(st, discipline, subjects, init);
      CiteConsistent(prev.disciplines, discipline, bib[|bib| - 1].key);
      CiteAllConsistent(prev.subjects, subjects, bib[|bib| - 1].key);
    }
  }

  /** The total counts the papers, one per discipline count, so it is the sum of those counts. */
  lemma {:induction false} AfterPapersTotals(papers: seq<Paper>)
    ensures var r := AfterPapers(papers);
      && r.totalNbPaper == |papers| == SumValues(r.countDoc)
      && (forall d :: Get(r.countDoc, d) == DocCount(papers, d))
    decreases |papers|
  {
    if papers == [] {
      assert SumValues(map[]) == 0;
    } else {
      var init, paper := papers[..|papers| - 1], papers[|papers| - 1];
      AfterPapersTotals(init);
      var prev := AfterPapers(init);
      AfterEntriesFrame(PaperStart(prev, paper), paper.discipline, CategoryList(paper), paper.bib);
      SumValuesInc(prev.countDoc, paper.discipline);
    }
  }

  /** The subject counts, the references and the cited sets per discipline are those of the reference definitions. */
  lemma {:induction false} AfterPapersCounts(papers: seq<Paper>)
    ensures var r := AfterPapers(papers);
      && (forall s :: Get(r.countDocSubject, s) == SubjectCount(papers, s))
      && (forall d :: Get(r.disciplines.references, d) == RefCount(papers, d))
      && (forall d :: GetSet(r.disciplines.cited, d) == CitedKeys(papers, d))
    decreases |papers|
  {
    if papers != [] {
      var init, paper := papers[..|papers| - 1], papers[|papers| - 1];
      AfterPapersCounts(init);
      var prev := AfterPapers(init);
      IncAllCounts(prev.countDocSubject, CategoryList(paper));
      AfterEntriesFrame(PaperStart(prev, paper), paper.discipline, CategoryList(paper), paper.bib);
      AfterEntriesDocs(PaperStart(prev, paper), paper.discipline, CategoryList(paper), paper.bib);
    }
  }

  /** Every cited count, per discipline and per subject, is the size of its cited set. */
  lemma {:induction false} AfterPapersConsistent(papers: seq<Paper>)
    ensures Consistent(AfterPapers(papers).disciplines) && Consistent(AfterPapers(papers).subjects)
    decreases |papers|
  {
    if papers != [] {
      var init, paper := papers[..|papers| - 1], papers[|papers| - 1];
      AfterPapersConsistent(init);
      AfterEntriesConsistent(PaperStart(AfterPapers(init), paper), paper.discipline, CategoryList(paper), paper.bib);
    }
  }

  /** A bibliography has no more distinct keys than entries. */
  lemma {:induction false} BibKeysCard(bib: seq<BibEntry>)
    ensures |BibKeys(bib)| <= |bib|
    decreases |bib|
  {
    if bib != [] {
      BibKeysCard(bib[..|bib| - 1]);
      BibKeysLast(bib);
    }
  }

  /** A discipline has cited no more distinct keys than it has references. */
  lemma {:induction false} CitedKeysBound(papers: seq<Paper>, d: string)
    ensures |CitedKeys(papers, d)| <= RefCount(papers, d)
    decreases |papers|
  {
    if papers != [] {
      var init, paper := papers[..|papers| - 1], papers[|papers| - 1];
      CitedKeysBound(init, d);
      BibKeysCard(paper.bib);
      UnionCard(CitedKeys(init, d), if paper.discipline == d then BibKeys(paper.bib) else {});
    }
  }

  /** A union has at most as many elements as its two parts together. */
  lemma UnionCard(a: set<string>, b: set<string>)
    ensures |a + b| <= |a| + |b|
  {
    assert a + b == a + (b - a);
    assert |b - a| <= |b| by { assert b == (b - a) + (b * a); }
  }

  // ---------------------------------------------------------------------
  // The subject accumulators
  // ---------------------------------------------------------------------

  /** The keys cited by the papers that list subject `s`. */
  function SubjectCitedKeys(papers: seq<Paper>, s: string): set<string> {
    if papers == [] then {}
    else SubjectCitedKeys(papers[..|papers| - 1], s)
         + (if s in CategoryList(papers[|papers| - 1]) then BibKeys(papers[|papers| - 1].bib) else {})
  }

  /** The bibliography entries of the papers that list subject `s`, once per listing. */
  function SubjectRefCount(papers: seq<Paper>, s: string): nat {
    if papers == [] then 0
    else SubjectRefCount(papers[..|papers| - 1], s)
         + Occurrences(CategoryList(papers[|papers| - 1]), s) * |papers[|papers| - 1].bib|
  }

  /**
   * As written, a paper's entries add to a subject's cited set only keys
   * of that paper, and only when the subject is the paper's: at most the
   * paper's keys, possibly fewer.
   */
  lemma {:induction false} AfterEntriesSubjectCited(st: Stats, discipline: string, subjects: seq<string>, bib: seq<BibEntry>)
    ensures var r := AfterEntries(st, discipline, subjects, bib);
      forall s :: GetSet(st.subjects.cited, s) <= GetSet(r.subjects.cited, s)
                  <= GetSet(st.subjects.cited, s) + (if s in subjects then BibKeys(bib) else {})
    decreases |bib|
  {
    if bib != [] {
      var init := bib[..|bib| - 1];
      AfterEntriesSubjectCited(st, discipline, subjects, init);
      CiteAllCited(AfterEntries(st, discipline, subjects, init).subjects, subjects, bib[|bib| - 1].key);
      BibKeysLast(bib);
    }
  }

  /** As written, a subject counts at most one reference per entry and listing of the paper. */
  lemma {:induction false} AfterEntriesSubjectRefs(st: Stats, discipline: string, subjects: seq<string>, bib: seq<BibEntry>)
    ensures var r := AfterEntries(st, discipline, subjects, bib);
      forall s :: Get(st.subjects.references, s) <= Get(r.subjects.references, s)
                  <= Get(st.subjects.references, s) + Occurrences(subjects, s) * |bib|
    decreases |bib|
  {
    if bib != [] {
      var init := bib[..|bib| - 1];
      AfterEntriesSubjectRefs(st, discipline, subjects, init);
      CiteAllRefs(AfterEntries(st, discipline, subjects, init).subjects, subjects, bib[|bib| - 1].key);
      forall s
        ensures Occurrences(subjects, s) * |init| + Occurrences(subjects, s) == Occurrences(subjects, s) * |bib|
      {
      }
    }
  }

  /**
   * As written, the subject accumulators are bounded by the papers that
   * list the subject: the cited set holds only keys those papers cite, and
   * the reference count is at most their entries.
   */
  lemma {:induction false} AfterPapersSubjects(papers: seq<Paper>)
    ensures var r := AfterPapers(papers);
      forall s :: GetSet(r.subjects.cited, s) <= SubjectCitedKeys(papers, s)
                  && Get(r.subjects.references, s) <= SubjectRefCount(papers, s)
    decreases |papers|
  {
    if papers != [] {
      var init, paper := papers[..|papers| - 1], papers[|papers| - 1];
      AfterPapersSubjects(init);
      var start := PaperStart(AfterPapers(init), paper);
      AfterEntriesSubjectCited(start, paper.discipline, CategoryList(paper), paper.bib);
      AfterEntriesSubjectRefs(start, paper.discipline, CategoryList(paper), paper.bib);
    }
  }

  /**
   * The bound is not reached: a key that another paper of the same
   * discipline cited first never reaches a subject of a later paper, whose
   * reference is not counted either (lines 63-64 skip the subject loop).
   */
  lemma SubjectKeyLost()
    ensures var first := Paper("p1", None, None, None, 2000, [], [BibEntry("X", None)], "cs");
      var second := Paper("p2", Some("B"), None, None, 2000, [], [BibEntry("X", None)], "cs");
      var r := AfterPapers([first, second]);
      && "X" in SubjectCitedKeys([first, second], "B") && "X" !in GetSet(r.subjects.cited, "B")
      && SubjectRefCount([first, second], "B") == 1 && Get(r.subjects.references, "B") == 0
  {
    var first := Paper("p1", None, None, None, 2000, [], [BibEntry("X", None)], "cs");
    var second := Paper("p2", Some("B"), None, None, 2000, [], [BibEntry("X", None)], "cs");
    ExampleFacts(first.bib, second);
    var papers := [first, second];
    assert papers[..1] == [first];
    assert [first][..0] == [];
    AfterPapersCounts([first]);
    AfterPapersSubjects([first]);
    var afterFirst := AfterPapers([first]);
    assert "X" in GetSet(afterFirst.disciplines.cited, "cs");
    var start := PaperStart(afterFirst, second);
    assert second.bib[..0] == [];
    assert AfterEntries(start, "cs", ["B"], second.bib) == AfterEntry(start, "cs", ["B"], "X");
    assert SubjectRefCount([first], "B") == 0;
    assert SubjectRefCount(papers, "B") == SubjectRefCount([first], "B") + Occurrences(["B"], "B") * 1;
  }

  /** The two example papers' subjects and keys. */
  lemma ExampleFacts(bib: seq<BibEntry>, second: Paper)
    requires bib == [BibEntry("X", None)] && second.categories == Some("B")
    ensures CategoryList(second) == ["B"] && BibKeys(bib) == {"X"} && Occurrences(["B"], "B") == 1
  {
    assert "B"[1..] == [];
    assert Split("B"[1..], ' ') == [""];
    assert ['B'] + "" == "B";
    assert bib[0].key == "X";
    assert ["B"][..0] == [];
  }

  /** One entry with the subject loop run for every entry, not only for keys new to the discipline. */
  function AfterEntryCorrected(st: Stats, discipline: string, subjects: seq<string>, key: string): Stats {
    st.(disciplines := Cite(st.disciplines, discipline, key), subjects := CiteAll(st.subjects, subjects, key))
  }

  function AfterEntriesCorrected(st: Stats, discipline: string, subjects: seq<string>, bib: seq<BibEntry>): Stats
    decreases |bib|
  {
    if bib == [] then st
    else AfterEntryCorrected(AfterEntriesCorrected(st, discipline, subjects, bib[..|bib| - 1]),
                             discipline, subjects, bib[|bib| - 1].key)
  }

  function AfterPapersCorrected(papers: seq<Paper>): Stats
    decreases |papers|
  {
    if papers == [] then Empty
    else
      var paper := papers[|papers| - 1];
      AfterEntriesCorrected(PaperStart(AfterPapersCorrected(papers[..|papers| - 1]), paper),
                            paper.discipline, CategoryList(paper), paper.bib)
  }

  /** With the correction, a paper's entries give each of its subjects every key of the paper. */
  lemma {:induction false} AfterEntriesCorrectedCited(st: Stats, discipline: string, subjects: seq<string>, bib: seq<BibEntry>)
    ensures forall s :: GetSet(AfterEntriesCorrected(st, discipline, subjects, bib).subjects.cited, s)
                        == GetSet(st.subjects.cited, s) + (if s in subjects then BibKeys(bib) else {})
    decreases |bib|
  {
    if bib != [] {
      var init := bib[..|bib| - 1];
      AfterEntriesCorrectedCited(st, discipline, subjects, init);
      CiteAllCited(AfterEntriesCorrected(st, discipline, subjects, init).subjects, subjects, bib[|bib| - 1].key);
      BibKeysLast(bib);
    }
  }

  /** With the correction, a paper's entries count one reference per entry and listing of the subject. */
  lemma {:induction false} AfterEntriesCorrectedRefs(st: Stats, discipline: string, subjects: seq<string>, bib: seq<BibEntry>)
    ensures forall s :: Get(AfterEntriesCorrected(st, discipline, subjects, bib).subjects.references, s)
                        == Get(st.subjects.references, s) + Occurrences(subjects, s) * |bib|
    decreases |bib|
  {
    if bib != [] {
      var init := bib[..|bib| - 1];
      AfterEntriesCorrectedRefs(st, discipline, subjects, init);
      CiteAllRefs(AfterEntriesCorrected(st, discipline, subjects, init).subjects, subjects, bib[|bib| - 1].key);
      forall s
        ensures Occurrences(subjects, s) * |init| + Occurrences(subjects, s) == Occurrences(subjects, s) * |bib|
      {
      }
    }
  }

  /** The correction changes only the subject accumulators. */
  lemma {:induction false} AfterEntriesCorrectedAgree(st: Stats, st2: Stats, discipline: string, subjects: seq<string>, bib: seq<BibEntry>)
    requires st2 == st.(subjects := st2.subjects)
    ensures var r := AfterEntries(st, discipline, subjects, bib);
      AfterEntriesCorrected(st2, discipline, subjects, bib) == r.(subjects := AfterEntriesCorrected(st2, discipline, subjects, bib).subjects)
    decreases |bib|
  {
    if bib != [] {
      AfterEntriesCorrectedAgree(st, st2, discipline, subjects, bib[..|bib| - 1]);
    }
  }

  /**
   * With the correction, every subject's cited set holds exactly the keys
   * cited by the papers listing it, its reference count is all their
   * entries, its cited count is the size of its set, and every other
   * accumulator is the one computed as written.
   */
  lemma {:induction false} AfterPapersCorrectedSubjects(papers: seq<Paper>)
    ensures var r := AfterPapersCorrected(papers);
      && (forall s :: GetSet(r.subjects.cited, s) == SubjectCitedKeys(papers, s))
      && (forall s :: Get(r.subjects.references, s) == SubjectRefCount(papers, s))
      && Consistent(r.subjects)
      && r == AfterPapers(papers).(subjects := r.subjects)
    decreases |papers|
  {
    if papers != [] {
      var init, paper := papers[..|papers| - 1], papers[|papers| - 1];
      AfterPapersCorrectedSubjects(init);
      var start := PaperStart(AfterPapersCorrected(init), paper);
      AfterEntriesCorrectedCited(start, paper.discipline, CategoryList(paper), paper.bib);
      AfterEntriesCorrectedRefs(start, paper.discipline, CategoryList(paper), paper.bib);
      AfterEntriesCorrectedConsistent(start, paper.discipline, CategoryList(paper), paper.bib);
      AfterEntriesCorrectedAgree(PaperStart(AfterPapers(init), paper), start, paper.discipline, CategoryList(paper), paper.bib);
    }
  }

  lemma {:induction false} AfterEntriesCorrectedConsistent(st: Stats, discipline: string, subjects: seq<string>, bib: seq<BibEntry>)
    requires Consistent(st.subjects)
    ensures Consistent(AfterEntriesCorrected(st, discipline, subjects, bib).subjects)
    decreases |bib|
  {
    if bib != [] {
      AfterEntriesCorrectedConsistent(st, discipline, subjects, bib[..|bib| - 1]);
      CiteAllConsistent(AfterEntriesCorrected(st, discipline, subjects, bib[..|bib| - 1]).subjects, subjects, bib[|bib| - 1].key);
    }
  }

  /** On the same two papers the correction keeps the key and the reference. */
  lemma SubjectKeyKept()
    ensures var first := Paper("p1", None, None, None, 2000, [], [BibEntry("X", None)], "cs");
      var second := Paper("p2", Some("B"), None, None, 2000, [], [BibEntry("X", None)], "cs");
      var r := AfterPapersCorrected([first, second]);
      "X" in GetSet(r.subjects.cited, "B") && Get(r.subjects.references, "B") == 1
  {
    var first := Paper("p1", None, None, None, 2000, [], [BibEntry("X", None)], "cs");
    var second := Paper("p2", Some("B"), None, None, 2000, [], [BibEntry("X", None)], "cs");
    ExampleFacts(first.bib, second);
    var papers := [first, second];
    assert papers[..1] == [first];
    assert [first][..0] == [];
    AfterPapersCorrectedSubjects(papers);
    assert SubjectRefCount([first], "B") == 0;
    assert SubjectRefCount(papers, "B") == SubjectRefCount([first], "B") + Occurrences(["B"], "B") * 1;
    assert SubjectCitedKeys(papers, "B") == SubjectCitedKeys([first], "B") + {"X"};
  }
}
