/**
 * Model of research_trends/compute_meme_scores_4.py: the older pipeline that
 * builds `meme_to_publications` from titles and abstracts of discipline
 * papers, collects the cited papers outside that set, indexes their memes
 * in `meme_to_unseen_pubs`, and folds per-year and overall score components.
 */
module Memes4 {
  import opened Text
  import opened Corpus
  import opened PaperNGrams
  import opened Aggregation

  // ---------------------------------------------------------------------
  // process_text, add_memes, extract_paper_memes
  // ---------------------------------------------------------------------

  /** The normalised text before the split: lower case, no newline, no punctuation. */
  function CleanText(text: string): (r: string)
    ensures forall c :: c in r ==> c != '\n' && c !in Punctuation && !IsUpper(c)
  {
    StripPunctuation(ReplaceNewlines(Lower(text)))
  }

  /**
   * `process_text`: the same normalisation as the newer script minus the
   * brace removal, and a plain `split(' ')` that keeps empty tokens.
   */
  function ProcessText(text: string): (r: seq<string>)
    ensures |r| >= 1
    ensures forall t, c :: t in r && c in t ==> c != ' ' && c != '\n' && c !in Punctuation && !IsUpper(c)
  {
    Split(CleanText(text), ' ')
  }

  /** The tokens joined by single spaces give back the cleaned text. */
  lemma ProcessTextJoin(text: string)
    ensures Join(ProcessText(text), ' ') == CleanText(text)
  {
    SplitJoin(CleanText(text), ' ');
  }

  /** Two adjacent spaces in the cleaned text give an empty token. */
  lemma ProcessTextKeepsEmpty(text: string, i: nat)
    requires i + 1 < |CleanText(text)| && CleanText(text)[i] == ' ' && CleanText(text)[i + 1] == ' '
    ensures "" in ProcessText(text)
  {
    var s := CleanText(text);
    assert s == s[..i] + [' ', ' '] + s[i + 2..];
    SplitDoubleSeparator(s[..i], s[i + 2..], ' ');
  }

  lemma {:induction false} SplitDoubleSeparator(a: string, b: string, sep: char)
    ensures "" in Split(a + [sep, sep] + b, sep)[1..]
    decreases |a|
  {
    var s := a + [sep, sep] + b;
    if a == [] {
      assert s[1..] == [sep] + b;
      assert ([sep] + b)[1..] == b;
    } else {
      assert s[1..] == a[1..] + [sep, sep] + b;
      SplitDoubleSeparator(a[1..], b, sep);
    }
  }

  /** StripPunctuation keeps a string without punctuation. */
  lemma {:induction false} StripPunctuationIdentity(s: string)
    requires forall c :: c in s ==> c !in Punctuation
    ensures StripPunctuation(s) == s
    decreases |s|
  {
    if s != [] {
      assert s[0] in s;
      assert forall c :: c in s[1..] ==> c in s;
      StripPunctuationIdentity(s[1..]);
      assert s == [s[0]] + s[1..];
    }
  }

  lemma {:induction false} SplitWithoutSeparator(s: string, sep: char)
    requires sep !in s
    ensures Split(s, sep) == [s]
    decreases |s|
  {
    if s != [] {
      assert s[0] in s;
      assert sep !in s[1..] by {
        assert forall c :: c in s[1..] ==> c in s;
      }
      SplitWithoutSeparator(s[1..], sep);
      assert s == [s[0]] + s[1..];
    }
  }

  /**
   * Unlike the newer script, braces are only punctuation here: a token
   * wrapped in braces survives process_text, while get_lemmatized_text
   * removes the whole span.
   */
  lemma BracedTokenKept(t: string)
    requires CleanToken(t)
    ensures ProcessText("{" + t + "}") == [t]
    ensures Lemmatize("{" + t + "}") == []
  {
    var s := "{" + t + "}";
    assert forall c :: c in s ==> c == '{' || c == '}' || c in t;
    LowerIdentity(s);
    ReplaceNewlinesIdentity(s);
    assert StripPunctuation(s) == t by {
      assert s == ['{'] + (t + ['}']);
      assert StripPunctuation(s) == StripPunctuation(t + ['}']);
      StripPunctuationIdentity(t);
      StripPunctuationAppend(t, '}');
    }
    SplitWithoutSeparator(t, ' ');
    assert Unbracketed(ProcessTextBasic(s)) == "" by {
      assert ProcessTextBasic(s) == s;
      BracedSpanRemoved(t);
    }
    assert StripPunctuation("") == "";
    assert Split("", ' ') == [""];
  }

  lemma StripPunctuationAppend(s: string, p: char)
    requires p in Punctuation
    ensures StripPunctuation(s + [p]) == StripPunctuation(s)
    decreases |s|
  {
    StripPunctuationConcat(s, [p]);
    assert [p][1..] == [];
  }

  /** A brace-free string inside one pair of braces is removed at depth 0. */
  lemma BracedSpanRemoved(t: string)
    requires '{' !in t && '}' !in t
    ensures Unbracketed("{" + t + "}") == ""
  {
    var s := "{" + t + "}";
    assert s[1..] == t + "}";
    InsideBraces(t, 1);
  }

  lemma {:induction false} InsideBraces(t: string, depth: int)
    requires '{' !in t && '}' !in t
    requires depth == 1
    ensures StripFrom(t + "}", depth) == ""
    decreases |t|
  {
    if t == [] {
      assert ("}")[1..] == "";
    } else {
      assert t[0] in t;
      assert (t + "}")[1..] == t[1..] + "}";
      assert '{' !in t[1..] && '}' !in t[1..] by {
        assert forall c :: c in t[1..] ==> c in t;
      }
      InsideBraces(t[1..], depth);
    }
  }

  /** The context sets of add_memes here are those of a single token list. */
  method AddMemes4(paperId: string, allTokens: seq<string>, memeToPublications: map<string, set<string>>)
    returns (r: map<string, set<string>>)
    ensures r == AddPaper(memeToPublications, PaperMemes([allTokens]), paperId)
  {
    r := AddMemes(memeToPublications, paperId, [allTokens]);
  }

  /** The memes a paper contributes: title and abstract, each with its own context sets. */
  function ExtractedMemes(p: Paper): set<string>
    requires HasText(p)
  {
    PaperMemes([ProcessText(p.title.value)]) + PaperMemes([ProcessText(p.abstractText.value)])
  }

  /**
   * extract_paper_memes: `None` is the `KeyError` raised when the paper has
   * no title (`paper['metadata']['title']`) or no abstract (`paper['abstract']`).
   */
  method ExtractPaperMemes(paper: Paper, memeToPublications: map<string, set<string>>)
    returns (r: Option<map<string, set<string>>>)
    ensures r.None? <==> !HasText(paper)
    ensures r.Some? ==> r.value == AddPaper(memeToPublications, ExtractedMemes(paper), paper.id)
  {
    var paperId := paper.id;
    if paper.title.None? {
      return None;
    }
    var processedTitle := ProcessText(paper.title.value);
    var index := AddMemes4(paperId, processedTitle, memeToPublications);
    if paper.abstractText.None? {
      return None;
    }
    var processedAbstract := ProcessText(paper.abstractText.value);
    index := AddMemes4(paperId, processedAbstract, index);
    AddPaperTwice(memeToPublications, PaperMemes([processedTitle]), PaperMemes([processedAbstract]), paperId);
    r := Some(index);
  }

  /** Two add_memes calls for the same paper add it under the union of their memes. */
  lemma AddPaperTwice(index: map<string, set<string>>, a: set<string>, b: set<string>, pid: string)
    ensures AddPaper(AddPaper(index, a, pid), b, pid) == AddPaper(index, a + b, pid)
  {
    var lhs := AddPaper(AddPaper(index, a, pid), b, pid);
    var rhs := AddPaper(index, a + b, pid);
    assert lhs.Keys == rhs.Keys;
    forall m | m in lhs
      ensures lhs[m] == rhs[m]
    {
      AddPaperTwiceAt(index, a, b, pid, m);
    }
  }

  lemma AddPaperTwiceAt(index: map<string, set<string>>, a: set<string>, b: set<string>, pid: string, m: string)
    ensures Docs(AddPaper(AddPaper(index, a, pid), b, pid), m) == Docs(AddPaper(index, a + b, pid), m)
  {
    var mid := AddPaper(index, a, pid);
    forall d
      ensures d in Docs(AddPaper(mid, b, pid), m) <==> d in Docs(AddPaper(index, a + b, pid), m)
    {
      AddPaperDocs(mid, b, pid, m, d);
      AddPaperDocs(index, a, pid, m, d);
      AddPaperDocs(index, a + b, pid, m, d);
    }
  }

  // ---------------------------------------------------------------------
  // get_memes_in_json, get_unseen_memes_in_json
  // ---------------------------------------------------------------------

  /** The filter of get_memes_in_json and get_unseen_pubs_in_json. */
  predicate Eligible(p: Paper) {
    p.categories.Some? && MatchesAny(CategoryList(p), ValidDisciplines) && HasText(p)
  }

  /** What a selected paper adds: its extracted memes, none without a title and an abstract. */
  function Contribution(p: Paper): set<string> {
    if HasText(p) then ExtractedMemes(p) else {}
  }

  /** The index after extract_paper_memes for every selected paper, in order. */
  function Collected(papers: seq<Paper>, index: map<string, set<string>>, select: Paper -> bool)
    : map<string, set<string>>
  {
    if papers == [] then index
    else
      var q := papers[|papers| - 1];
      var acc := Collected(papers[..|papers| - 1], index, select);
      if select(q) then AddPaper(acc, Contribution(q), q.id) else acc
  }

  method GetMemesInJson(data: seq<Paper>, memeToPublications: map<string, set<string>>)
    returns (r: map<string, set<string>>)
    ensures r == Collected(data, memeToPublications, Eligible)
  {
    r := memeToPublications;
    for k := 0 to |data|
      invariant r == Collected(data[..k], memeToPublications, Eligible)
    {
      var paper := data[k];
      assert data[..k + 1][..k] == data[..k];
      if paper.categories.None? {
        continue;
      } else {
        var paperCats := Split(paper.categories.value, ' ');
        var foundMatch := exists c :: c in paperCats && c in ValidDisciplines;
        if !foundMatch {
          continue;
        }
      }
      if paper.title.None? || paper.abstractText.None? {
        continue;
      }
      var extracted := ExtractPaperMemes(paper, r);
      r := extracted.value;
    }
    assert data[..|data|] == data;
  }

  /** Every paper whose id is in the unseen set has a title and an abstract. */
  predicate UnseenReadable(data: seq<Paper>, setOfUnseenPubs: set<string>) {
    forall k :: 0 <= k < |data| && data[k].id in setOfUnseenPubs ==> HasText(data[k])
  }

  /**
   * get_unseen_memes_in_json has no title or abstract guard: `None` is the
   * `KeyError` of extract_paper_memes on the first unseen paper without them.
   */
  method GetUnseenMemesInJson(data: seq<Paper>, memeToUnseenPubs: map<string, set<string>>, setOfUnseenPubs: set<string>)
    returns (r: Option<map<string, set<string>>>)
    ensures r.None? <==> !UnseenReadable(data, setOfUnseenPubs)
    ensures r.Some? ==> r.value == Collected(data, memeToUnseenPubs, (p: Paper) => p.id in setOfUnseenPubs)
  {
    var index := memeToUnseenPubs;
    for k := 0 to |data|
      invariant UnseenReadable(data[..k], setOfUnseenPubs)
      invariant index == Collected(data[..k], memeToUnseenPubs, (p: Paper) => p.id in setOfUnseenPubs)
    {
      var paper := data[k];
      assert data[..k + 1][..k] == data[..k];
      var paperId := paper.id;
      if paperId !in setOfUnseenPubs {
        continue;
      }
      var extracted := ExtractPaperMemes(paper, index);
      if extracted.None? {
        assert data[k].id in setOfUnseenPubs && !HasText(data[k]);
        return None;
      }
      index := extracted.value;
    }
    assert data[..|data|] == data;
    r := Some(index);
  }

  /** Paper k is selected, carries id d and contributes meme m. */
  ghost predicate Contributes4(papers: seq<Paper>, select: Paper -> bool, k: int, m: string, d: string)
  {
    0 <= k < |papers| && select(papers[k]) && papers[k].id == d && m in Contribution(papers[k])
  }

  /** A selected paper is listed under every meme of its title and abstract. */
  lemma {:induction false} CollectedAdds(papers: seq<Paper>, index: map<string, set<string>>, select: Paper -> bool,
                                         k: nat, m: string)
    requires k < |papers| && select(papers[k]) && m in Contribution(papers[k])
    ensures papers[k].id in Docs(Collected(papers, index, select), m)
  {
    var init := papers[..|papers| - 1];
    var q := papers[|papers| - 1];
    assert forall j :: 0 <= j < |init| ==> init[j] == papers[j];
    if k < |papers| - 1 {
      CollectedAdds(init, index, select, k, m);
    }
    if select(q) {
      AddPaperDocs(Collected(init, index, select), Contribution(q), q.id, m, papers[k].id);
    }
  }

  /** The index only grows: a document listed before stays listed. */
  lemma {:induction false} CollectedKeeps(papers: seq<Paper>, index: map<string, set<string>>, select: Paper -> bool,
                                          m: string, d: string)
    requires d in Docs(index, m)
    ensures d in Docs(Collected(papers, index, select), m)
  {
    if papers != [] {
      var init := papers[..|papers| - 1];
      var q := papers[|papers| - 1];
      var acc := Collected(init, index, select);
      CollectedKeeps(init, index, select, m, d);
      if select(q) {
        AddPaperDocs(acc, Contribution(q), q.id, m, d);
      }
    }
  }

  /** A document that is new under a meme comes from a selected paper with that meme. */
  lemma {:induction false} CollectedSound(papers: seq<Paper>, index: map<string, set<string>>, select: Paper -> bool,
                                          m: string, d: string)
    requires d in Docs(Collected(papers, index, select), m)
    ensures d in Docs(index, m) || exists k :: Contributes4(papers, select, k, m, d)
  {
    if papers != [] {
      var init := papers[..|papers| - 1];
      var q := papers[|papers| - 1];
      var acc := Collected(init, index, select);
      var res := Collected(papers, index, select);
      assert res == if select(q) then AddPaper(acc, Contribution(q), q.id) else acc;
      if select(q) {
        AddPaperDocs(acc, Contribution(q), q.id, m, d);
      }
      if d in Docs(acc, m) {
        CollectedSound(init, index, select, m, d);
        if d !in Docs(index, m) {
          var k :| Contributes4(init, select, k, m, d);
          assert papers[k] == init[k];
          assert Contributes4(papers, select, k, m, d);
        }
      } else {
        assert Contributes4(papers, select, |papers| - 1, m, d);
      }
    }
  }

  // ---------------------------------------------------------------------
  // get_all_pubs
  // ---------------------------------------------------------------------

  method AddPubs(allPubs: set<string>, pubs: set<string>) returns (r: set<string>)
    ensures r == allPubs + pubs
  {
    r := allPubs;
    var remaining := pubs;
    while remaining != {}
      invariant remaining <= pubs
      invariant r == allPubs + (pubs - remaining)
      decreases |remaining|
    {
      var pub :| pub in remaining;
      r := r + {pub};
      remaining := remaining - {pub};
    }
  }

  method GetAllPubs(memeToPublications: map<string, set<string>>) returns (allPubs: set<string>)
    ensures allPubs == DocsUnder(memeToPublications, memeToPublications.Keys)
  {
    allPubs := {};
    var remaining := memeToPublications.Keys;
    while remaining != {}
      invariant remaining <= memeToPublications.Keys
      invariant allPubs == DocsUnder(memeToPublications, memeToPublications.Keys - remaining)
      decreases |remaining|
    {
      var meme :| meme in remaining;
      DocsUnderStep(memeToPublications, memeToPublications.Keys - remaining, meme);
      allPubs := AddPubs(allPubs, memeToPublications[meme]);
      assert memeToPublications.Keys - (remaining - {meme}) == (memeToPublications.Keys - remaining) + {meme};
      remaining := remaining - {meme};
    }
  }

  // ---------------------------------------------------------------------
  // get_unseen_pubs_in_json
  // ---------------------------------------------------------------------

  /** `paper_to_metadata[paper_id]` of this script: the release year and the cited arXiv ids. */
  datatype CitationRecord = CitationRecord(year: int, citedIds: seq<string>)

  /** The cited ids of a bibliography that are not among the known publications. */
  function NewUnseen(bib: seq<BibEntry>, setOfPubs: set<string>): set<string> {
    set c | c in CitedIds(bib) && c !in setOfPubs
  }

  /** The loop over `bib_entries`: it collects the cited ids and adds the unknown ones to the unseen set. */
  method CollectCitations(bibEntries: seq<BibEntry>, unseenPubs: set<string>, setOfPubs: set<string>)
    returns (citedPapers: seq<string>, unseen: set<string>)
    ensures citedPapers == CitedIds(bibEntries)
    ensures unseen == unseenPubs + NewUnseen(bibEntries, setOfPubs)
  {
    citedPapers := [];
    unseen := unseenPubs;
    for k := 0 to |bibEntries|
      invariant citedPapers == CitedIds(bibEntries[..k])
      invariant unseen == unseenPubs + NewUnseen(bibEntries[..k], setOfPubs)
    {
      var refData := bibEntries[k];
      assert bibEntries[..k + 1][..k] == bibEntries[..k];
      assert CitedIds(bibEntries[..k + 1]) == CitedIds(bibEntries[..k]) + ArxivIdOf(refData);
      if refData.ids.None? {
        continue;
      } else if refData.ids.value.arxivId.None? {
        continue;
      } else {
        var refPaperId := refData.ids.value.arxivId.value;
        if refPaperId == "" {
          continue;
        }
        citedPapers := citedPapers + [refPaperId];
        if refPaperId !in setOfPubs {
          unseen := unseen + {refPaperId};
        }
        assert NewUnseen(bibEntries[..k + 1], setOfPubs)
          == NewUnseen(bibEntries[..k], setOfPubs) + ({refPaperId} - setOfPubs);
      }
    }
    assert bibEntries[..|bibEntries|] == bibEntries;
  }

  /** The unseen set after get_unseen_pubs_in_json has read the papers in order. */
  function UnseenAfter(papers: seq<Paper>, unseenPubs: set<string>, setOfPubs: set<string>): set<string> {
    if papers == [] then unseenPubs
    else
      var q := papers[|papers| - 1];
      var acc := UnseenAfter(papers[..|papers| - 1], unseenPubs, setOfPubs);
      if Eligible(q) then acc + NewUnseen(q.bib, setOfPubs) else acc
  }

  /** `paper_to_metadata` after get_unseen_pubs_in_json has read the papers in order. */
  function CitationsAfter(papers: seq<Paper>, p2m: map<string, CitationRecord>): map<string, CitationRecord> {
    if papers == [] then p2m
    else
      var q := papers[|papers| - 1];
      var acc := CitationsAfter(papers[..|papers| - 1], p2m);
      if Eligible(q) then acc[q.id := CitationRecord(q.year, CitedIds(q.bib))] else acc
  }

  method GetUnseenPubsInJson(jsonData: seq<Paper>, unseenPubs: set<string>, setOfPubs: set<string>,
                             paperToMetadata: map<string, CitationRecord>)
    returns (unseen: set<string>, p2m: map<string, CitationRecord>)
    ensures unseen == UnseenAfter(jsonData, unseenPubs, setOfPubs)
    ensures p2m == CitationsAfter(jsonData, paperToMetadata)
  {
    unseen := unseenPubs;
    p2m := paperToMetadata;
    for k := 0 to |jsonData|
      invariant unseen == UnseenAfter(jsonData[..k], unseenPubs, setOfPubs)
      invariant p2m == CitationsAfter(jsonData[..k], paperToMetadata)
    {
      var paper := jsonData[k];
      assert jsonData[..k + 1][..k] == jsonData[..k];
      if paper.categories.None? {
        continue;
      } else {
        var paperCats := Split(paper.categories.value, ' ');
        var foundMatch := exists c :: c in paperCats && c in ValidDisciplines;
        if !foundMatch {
          continue;
        }
      }
      if paper.title.None? || paper.abstractText.None? {
        continue;
      }
      var paperId := paper.id;
      var citedPapers;
      citedPapers, unseen := CollectCitations(paper.bib, unseen, setOfPubs);
      p2m := p2m[paperId := CitationRecord(paper.year, citedPapers)];
    }
    assert jsonData[..|jsonData|] == jsonData;
  }

  /** Some eligible paper among `papers` cites `c`. */
  ghost predicate CitedByEligible(papers: seq<Paper>, c: string) {
    exists k :: 0 <= k < |papers| && Eligible(papers[k]) && c in CitedIds(papers[k].bib)
  }

  /** The unseen set keeps what it had and gains every unknown id an eligible paper cites. */
  lemma {:induction false} UnseenAfterGains(papers: seq<Paper>, unseenPubs: set<string>, setOfPubs: set<string>,
                                            k: nat, c: string)
    requires k < |papers| && Eligible(papers[k]) && c in CitedIds(papers[k].bib) && c !in setOfPubs
    ensures c in UnseenAfter(papers, unseenPubs, setOfPubs)
  {
    var init := papers[..|papers| - 1];
    if k < |init| {
      assert init[k] == papers[k];
      UnseenAfterGains(init, unseenPubs, setOfPubs, k, c);
    }
  }

  lemma {:induction false} UnseenAfterKeeps(papers: seq<Paper>, unseenPubs: set<string>, setOfPubs: set<string>)
    ensures unseenPubs <= UnseenAfter(papers, unseenPubs, setOfPubs)
  {
    if papers != [] {
      UnseenAfterKeeps(papers[..|papers| - 1], unseenPubs, setOfPubs);
    }
  }

  /** Nothing else enters the unseen set. */
  lemma {:induction false} UnseenAfterSound(papers: seq<Paper>, unseenPubs: set<string>, setOfPubs: set<string>, c: string)
    requires c in UnseenAfter(papers, unseenPubs, setOfPubs)
    ensures c in unseenPubs || (c !in setOfPubs && CitedByEligible(papers, c))
  {
    if papers != [] {
      var init := papers[..|papers| - 1];
      var q := papers[|papers| - 1];
      if c in UnseenAfter(init, unseenPubs, setOfPubs) {
        UnseenAfterSound(init, unseenPubs, setOfPubs, c);
        if c !in unseenPubs {
          var k :| 0 <= k < |init| && Eligible(init[k]) && c in CitedIds(init[k].bib);
          assert papers[k] == init[k];
        }
      } else {
        assert Eligible(q) && c in CitedIds(q.bib);
      }
    }
  }

  /** Starting from the empty set, every unseen id is non-empty, cited by an eligible paper and unknown. */
  lemma UnseenIds(papers: seq<Paper>, setOfPubs: set<string>, c: string)
    requires c in UnseenAfter(papers, {}, setOfPubs)
    ensures c != "" && c !in setOfPubs && CitedByEligible(papers, c)
  {
    UnseenAfterSound(papers, {}, setOfPubs, c);
  }

  /** The last eligible paper with an id decides its record. */
  lemma {:induction false} CitationsLastWins(papers: seq<Paper>, p2m: map<string, CitationRecord>, k: nat)
    requires k < |papers| && Eligible(papers[k])
    requires forall j :: k < j < |papers| && Eligible(papers[j]) ==> papers[j].id != papers[k].id
    ensures papers[k].id in CitationsAfter(papers, p2m)
    ensures CitationsAfter(papers, p2m)[papers[k].id] == CitationRecord(papers[k].year, CitedIds(papers[k].bib))
  {
    var init := papers[..|papers| - 1];
    if k < |papers| - 1 {
      forall j | k < j < |init| && Eligible(init[j])
        ensures init[j].id != init[k].id
      {
        assert init[j] == papers[j];
      }
      CitationsLastWins(init, p2m, k);
      assert init[k] == papers[k];
    }
  }

  // ---------------------------------------------------------------------
  // is_meme_in_citations with two indexes
  // ---------------------------------------------------------------------

  /** Some cited paper is listed under the meme in either index. */
  predicate CitesMeme4(citations: seq<string>, meme: string,
                       memeToPublications: map<string, set<string>>, memeToUnseenPubs: map<string, set<string>>) {
    CitesMeme(citations, meme, memeToPublications) || CitesMeme(citations, meme, memeToUnseenPubs)
  }

  /** Two truth values per cited paper, one per index, then `any`. */
  method IsMemeInCitations4(citations: seq<string>, meme: string,
                            memeToPublications: map<string, set<string>>, memeToUnseenPubs: map<string, set<string>>)
    returns (b: bool)
    ensures b <==> CitesMeme4(citations, meme, memeToPublications, memeToUnseenPubs)
    ensures citations == [] ==> !b
  {
    var truthVals: seq<bool> := [];
    for k := 0 to |citations|
      invariant |truthVals| == 2 * k
      invariant forall j :: 0 <= j < k ==>
        (truthVals[2 * j] <==> IsMemeInPaper(citations[j], meme, memeToPublications))
        && (truthVals[2 * j + 1] <==> IsMemeInPaper(citations[j], meme, memeToUnseenPubs))
    {
      truthVals := truthVals + [IsMemeInPaper(citations[k], meme, memeToPublications)];
      truthVals := truthVals + [IsMemeInPaper(citations[k], meme, memeToUnseenPubs)];
    }
    b := true in truthVals;
    if b {
      var i :| 0 <= i < |truthVals| && truthVals[i];
      var j := i / 2;
      if i % 2 == 0 {
        assert i == 2 * j;
        assert IsMemeInPaper(citations[j], meme, memeToPublications);
      } else {
        assert i == 2 * j + 1;
        assert IsMemeInPaper(citations[j], meme, memeToUnseenPubs);
      }
    } else {
      forall j | 0 <= j < |citations|
        ensures !IsMemeInPaper(citations[j], meme, memeToPublications)
        ensures !IsMemeInPaper(citations[j], meme, memeToUnseenPubs)
      {
        assert !truthVals[2 * j] && !truthVals[2 * j + 1];
      }
    }
  }

  // ---------------------------------------------------------------------
  // compute_meme_scores
  // ---------------------------------------------------------------------

  /** A key of `year_to_meme_scores`: a release year or `'overall'`. */
  datatype ScoreKey = YearKey(year: int) | Overall

  /** A paper of the given release year is counted under its year and under `'overall'`. */
  predicate KeyMatches(key: ScoreKey, year: int) {
    key.Overall? || key.year == year
  }

  /** A meme's counters under a key, with the score computed from them. */
  datatype MemeInfo = MemeInfo(counters: Counters, score: real)

  /** The publications among `pubs` that fall under `key`. */
  function PubsAt(pubs: set<string>, key: ScoreKey, p2m: map<string, CitationRecord>): (r: set<string>)
    ensures r <= pubs
  {
    set d | d in pubs && d in p2m && KeyMatches(key, p2m[d].year)
  }

  /** The publications among `pubs` whose cited papers contain the meme in either index. */
  function CitingPubs(pubs: set<string>, meme: string, memeToPublications: map<string, set<string>>,
                      memeToUnseenPubs: map<string, set<string>>, p2m: map<string, CitationRecord>): set<string>
  {
    set d | d in pubs && d in p2m && CitesMeme4(p2m[d].citedIds, meme, memeToPublications, memeToUnseenPubs)
  }

  /** The counters compute_meme_scores builds for a meme under a key, in closed form. */
  function TermsOf(meme: string, key: ScoreKey, memeToPublications: map<string, set<string>>,
                   memeToUnseenPubs: map<string, set<string>>, p2m: map<string, CitationRecord>): Counters
    requires meme in memeToPublications
  {
    var pubs := memeToPublications[meme];
    CountsOf(PubsAt(pubs, key, p2m), CitingPubs(pubs, meme, memeToPublications, memeToUnseenPubs, p2m))
  }

  /** The counters of an entry, or the fresh record when the meme has none yet. */
  function Current(terms: map<(ScoreKey, string), Counters>, key: ScoreKey, meme: string): Counters {
    if (key, meme) in terms then terms[(key, meme)] else Zero
  }

  /** One pass of the `for key in [pub_year, 'overall']` body. */
  method TallyKey(terms: map<(ScoreKey, string), Counters>, key: ScoreKey, meme: string, memeInPaper: bool,
                  memeInCitations: bool)
    returns (r: map<(ScoreKey, string), Counters>)
    ensures r == terms[(key, meme) := Tally(Current(terms, key, meme), memeInPaper, memeInCitations)]
  {
    r := terms;
    if (key, meme) !in r {
      r := r[(key, meme) := Zero];
    }
    r := r[(key, meme) := Tally(r[(key, meme)], memeInPaper, memeInCitations)];
  }

  lemma PubsAtAdd(pubs: set<string>, pub: string, key: ScoreKey, p2m: map<string, CitationRecord>)
    requires pub in p2m
    ensures PubsAt(pubs + {pub}, key, p2m)
      == PubsAt(pubs, key, p2m) + (if KeyMatches(key, p2m[pub].year) then {pub} else {})
  {
  }

  /** The loop over the publications of one meme. */
  method TallyMeme(terms: map<(ScoreKey, string), Counters>, meme: string, memeToPublications: map<string, set<string>>,
                   memeToUnseenPubs: map<string, set<string>>, p2m: map<string, CitationRecord>)
    returns (r: map<(ScoreKey, string), Counters>)
    requires meme in memeToPublications
    requires forall d :: d in memeToPublications[meme] ==> d in p2m
    requires forall key :: (key, meme) !in terms
    ensures forall key, m :: m != meme ==> ((key, m) in r <==> (key, m) in terms)
    ensures forall key, m :: m != meme && (key, m) in terms ==> r[(key, m)] == terms[(key, m)]
    ensures forall key :: (key, meme) in r <==> |PubsAt(memeToPublications[meme], key, p2m)| > 0
    ensures forall key :: (key, meme) in r ==>
      r[(key, meme)] == TermsOf(meme, key, memeToPublications, memeToUnseenPubs, p2m)
  {
    var pubs := memeToPublications[meme];
    ghost var cited := CitingPubs(pubs, meme, memeToPublications, memeToUnseenPubs, p2m);
    assert forall d :: d in pubs ==> IsMemeInPaper(d, meme, memeToPublications);
    r := terms;
    var remaining := pubs;
    while remaining != {}
      invariant remaining <= pubs
      invariant forall key, m :: m != meme ==> ((key, m) in r <==> (key, m) in terms)
      invariant forall key, m :: m != meme && (key, m) in terms ==> r[(key, m)] == terms[(key, m)]
      invariant forall key :: (key, meme) in r <==> |PubsAt(pubs - remaining, key, p2m)| > 0
      invariant forall key :: (key, meme) in r ==> r[(key, meme)] == CountsOf(PubsAt(pubs - remaining, key, p2m), cited)
      decreases |remaining|
    {
      var pub :| pub in remaining;
      ghost var done := pubs - remaining;
      ghost var before := r;
      r := TallyPublication(r, meme, pub, memeToPublications, memeToUnseenPubs, p2m);
      ghost var memeInCitations := CitesMeme4(p2m[pub].citedIds, meme, memeToPublications, memeToUnseenPubs);
      forall key
        ensures (key, meme) in r <==> |PubsAt(done + {pub}, key, p2m)| > 0
        ensures (key, meme) in r ==> r[(key, meme)] == CountsOf(PubsAt(done + {pub}, key, p2m), cited)
      {
        TallyMemeStep(before, r, meme, pub, memeInCitations, done, cited, p2m, key);
      }
      remaining := remaining - {pub};
      assert pubs - remaining == done + {pub};
    }
    assert pubs - remaining == pubs;
  }

  /**
   * The body of the loop over the publications of a meme: the meme's
   * entries under the publication's year and under `'overall'` are tallied,
   * every other entry stays as it was.
   */
  method TallyPublication(terms: map<(ScoreKey, string), Counters>, meme: string, pub: string,
                          memeToPublications: map<string, set<string>>, memeToUnseenPubs: map<string, set<string>>,
                          p2m: map<string, CitationRecord>)
    returns (r: map<(ScoreKey, string), Counters>)
    requires pub in p2m
    ensures forall key, m :: m != meme ==> ((key, m) in r <==> (key, m) in terms)
    ensures forall key, m :: m != meme && (key, m) in terms ==> r[(key, m)] == terms[(key, m)]
    ensures forall key :: (key, meme) in r <==> (key, meme) in terms || KeyMatches(key, p2m[pub].year)
    ensures forall key :: KeyMatches(key, p2m[pub].year) ==>
      r[(key, meme)] == Tally(Current(terms, key, meme), IsMemeInPaper(pub, meme, memeToPublications),
                              CitesMeme4(p2m[pub].citedIds, meme, memeToPublications, memeToUnseenPubs))
    ensures forall key :: !KeyMatches(key, p2m[pub].year) && (key, meme) in terms ==>
      r[(key, meme)] == terms[(key, meme)]
  {
    var pubYear := p2m[pub].year;
    var citations := p2m[pub].citedIds;
    var memeInPaper := IsMemeInPaper(pub, meme, memeToPublications);
    var memeInCitations := IsMemeInCitations4(citations, meme, memeToPublications, memeToUnseenPubs);
    var mid := TallyKey(terms, YearKey(pubYear), meme, memeInPaper, memeInCitations);
    r := TallyKey(mid, Overall, meme, memeInPaper, memeInCitations);
    assert Current(mid, Overall, meme) == Current(terms, Overall, meme);
    forall key | KeyMatches(key, pubYear)
      ensures (key, meme) in r
      ensures r[(key, meme)] == Tally(Current(terms, key, meme), memeInPaper, memeInCitations)
    {
      if key != Overall {
        assert key == YearKey(pubYear);
      }
    }
  }

  lemma PubsAtCard(done: set<string>, pub: string, key: ScoreKey, p2m: map<string, CitationRecord>)
    requires pub in p2m && pub !in done
    ensures |PubsAt(done + {pub}, key, p2m)| == |PubsAt(done, key, p2m)| + (if KeyMatches(key, p2m[pub].year) then 1 else 0)
  {
    PubsAtAdd(done, pub, key, p2m);
    if KeyMatches(key, p2m[pub].year) {
      assert pub !in PubsAt(done, key, p2m);
    }
  }

  /** Tallying one more publication of the meme under its year and under `'overall'`, seen at one key. */
  lemma TallyMemeStep(before: map<(ScoreKey, string), Counters>, after: map<(ScoreKey, string), Counters>,
                      meme: string, pub: string, memeInCitations: bool,
                      done: set<string>, cited: set<string>, p2m: map<string, CitationRecord>, key: ScoreKey)
    requires pub in p2m && pub !in done
    requires memeInCitations <==> pub in cited
    requires (key, meme) in after <==> (key, meme) in before || KeyMatches(key, p2m[pub].year)
    requires KeyMatches(key, p2m[pub].year) ==>
      after[(key, meme)] == Bump(Current(before, key, meme), memeInCitations)
    requires !KeyMatches(key, p2m[pub].year) && (key, meme) in before ==> after[(key, meme)] == before[(key, meme)]
    requires (key, meme) in before <==> |PubsAt(done, key, p2m)| > 0
    requires (key, meme) in before ==> before[(key, meme)] == CountsOf(PubsAt(done, key, p2m), cited)
    ensures (key, meme) in after <==> |PubsAt(done + {pub}, key, p2m)| > 0
    ensures (key, meme) in after ==> after[(key, meme)] == CountsOf(PubsAt(done + {pub}, key, p2m), cited)
  {
    PubsAtCard(done, pub, key, p2m);
    PubsAtAdd(done, pub, key, p2m);
    if KeyMatches(key, p2m[pub].year) {
      CountsBumpFrom(Current(before, key, meme), PubsAt(done, key, p2m), pub, cited, memeInCitations);
    } else {
      assert PubsAt(done + {pub}, key, p2m) == PubsAt(done, key, p2m);
    }
  }

  /** The first loop of compute_meme_scores: every meme's publications tallied. */
  method TallyAll(memeToPublications: map<string, set<string>>, memeToUnseenPubs: map<string, set<string>>,
                  p2m: map<string, CitationRecord>)
    returns (terms: map<(ScoreKey, string), Counters>)
    requires forall m, d :: m in memeToPublications && d in memeToPublications[m] ==> d in p2m
    ensures forall key, m :: (key, m) in terms <==>
      m in memeToPublications && |PubsAt(memeToPublications[m], key, p2m)| > 0
    ensures forall key, m :: (key, m) in terms ==>
      terms[(key, m)] == TermsOf(m, key, memeToPublications, memeToUnseenPubs, p2m)
  {
    terms := map[];
    var remaining := memeToPublications.Keys;
    while remaining != {}
      invariant remaining <= memeToPublications.Keys
      invariant forall key, m :: (key, m) in terms <==>
        m in memeToPublications && m !in remaining && |PubsAt(memeToPublications[m], key, p2m)| > 0
      invariant forall key, m :: (key, m) in terms ==>
        terms[(key, m)] == TermsOf(m, key, memeToPublications, memeToUnseenPubs, p2m)
      decreases |remaining|
    {
      var meme :| meme in remaining;
      terms := TallyMeme(terms, meme, memeToPublications, memeToUnseenPubs, p2m);
      remaining := remaining - {meme};
    }
  }

  /** The keys of `year_to_meme_scores`: the given years and `'overall'`. */
  predicate KnownKey(key: ScoreKey, years: seq<int>) {
    key.Overall? || key.year in years
  }

  /** `{year: {'num_papers': 0} for year in years}` with `'overall'` added, as paper counts. */
  function InitialNumPapers(years: seq<int>): (r: map<ScoreKey, int>)
    ensures forall key :: key in r <==> KnownKey(key, years)
    ensures forall key :: key in r ==> r[key] == 0
  {
    var yearKeys := set y | y in years :: YearKey(y);
    map key | key in yearKeys + {Overall} :: 0
  }

  /**
   * The second loop of compute_meme_scores: one more paper under the year
   * of each publication and under `'overall'`.
   */
  method CountPapers(numPapers: map<ScoreKey, int>, setOfPubs: set<string>, p2m: map<string, CitationRecord>,
                     years: seq<int>)
    returns (r: map<ScoreKey, int>)
    requires forall d :: d in setOfPubs ==> d in p2m && p2m[d].year in years
    requires forall key :: key in numPapers <==> KnownKey(key, years)
    ensures r.Keys == numPapers.Keys
    ensures forall key :: key in r ==> r[key] == numPapers[key] + |PubsAt(setOfPubs, key, p2m)|
  {
    r := numPapers;
    var remaining := setOfPubs;
    while remaining != {}
      invariant remaining <= setOfPubs
      invariant r.Keys == numPapers.Keys
      invariant forall key :: key in r ==> r[key] == numPapers[key] + |PubsAt(setOfPubs - remaining, key, p2m)|
      decreases |remaining|
    {
      var pub :| pub in remaining;
      ghost var done := setOfPubs - remaining;
      ghost var before := r;
      var pubYear := p2m[pub].year;
      assert KnownKey(YearKey(pubYear), years);
      r := CountPublication(r, pubYear);
      CountPapersStep(numPapers, before, r, done, pub, p2m);
      remaining := remaining - {pub};
      assert setOfPubs - remaining == done + {pub};
    }
    assert setOfPubs - remaining == setOfPubs;
  }

  /** The `for key in [pub_year, 'overall']` body of the second loop: one more paper under both keys. */
  method CountPublication(numPapers: map<ScoreKey, int>, pubYear: int) returns (r: map<ScoreKey, int>)
    requires YearKey(pubYear) in numPapers && Overall in numPapers
    ensures r.Keys == numPapers.Keys
    ensures forall key :: key in r ==> r[key] == numPapers[key] + (if KeyMatches(key, pubYear) then 1 else 0)
  {
    var mid := numPapers[YearKey(pubYear) := numPapers[YearKey(pubYear)] + 1];
    r := mid[Overall := mid[Overall] + 1];
    forall key | key in r
      ensures r[key] == numPapers[key] + (if KeyMatches(key, pubYear) then 1 else 0)
    {
      if key != Overall && key != YearKey(pubYear) {
        assert !KeyMatches(key, pubYear);
      }
    }
  }

  /** Counting one more publication keeps every key's count equal to its number of publications. */
  lemma CountPapersStep(numPapers: map<ScoreKey, int>, before: map<ScoreKey, int>, after: map<ScoreKey, int>,
                        done: set<string>, pub: string, p2m: map<string, CitationRecord>)
    requires pub in p2m && pub !in done
    requires before.Keys == numPapers.Keys && after.Keys == numPapers.Keys
    requires forall key :: key in before ==> before[key] == numPapers[key] + |PubsAt(done, key, p2m)|
    requires forall key :: key in after ==>
      after[key] == before[key] + (if KeyMatches(key, p2m[pub].year) then 1 else 0)
    ensures forall key :: key in after ==> after[key] == numPapers[key] + |PubsAt(done + {pub}, key, p2m)|
  {
    forall key | key in after
      ensures after[key] == numPapers[key] + |PubsAt(done + {pub}, key, p2m)|
    {
      PubsAtCard(done, pub, key, p2m);
    }
  }

  /** The third loop of compute_meme_scores: each entry's score from its counters and its key's paper count. */
  method ScoreAll(terms: map<(ScoreKey, string), Counters>, numPapers: map<ScoreKey, int>)
    returns (scores: map<(ScoreKey, string), MemeInfo>)
    requires forall key, m :: (key, m) in terms ==>
      key in numPapers && numPapers[key] != 0 && NonNegative(terms[(key, m)])
    ensures scores.Keys == terms.Keys
    ensures forall key, m :: (key, m) in scores ==>
      scores[(key, m)] == MemeInfo(terms[(key, m)], MemeScore3(terms[(key, m)], numPapers[key]))
  {
    scores := map[];
    var remaining := terms.Keys;
    while remaining != {}
      invariant remaining <= terms.Keys
      invariant scores.Keys == terms.Keys - remaining
      invariant forall key, m :: (key, m) in scores ==>
        scores[(key, m)] == MemeInfo(terms[(key, m)], MemeScore3(terms[(key, m)], numPapers[key]))
      decreases |remaining|
    {
      var entry :| entry in remaining;
      var info := terms[entry];
      var numPapersAtKey := numPapers[entry.0];
      var frequencyScore := FrequencyScore(info.frequency, numPapersAtKey);
      var stickingScore := StickingScore3(info);
      var sparkingScore := SparkingScore3(info);
      scores := scores[entry := MemeInfo(info, frequencyScore * stickingScore / sparkingScore)];
      remaining := remaining - {entry};
    }
  }

  /** Every publication of the index is in `paper_to_metadata` with one of the given release years. */
  predicate DatedIn(memeToPublications: map<string, set<string>>, p2m: map<string, CitationRecord>, years: seq<int>) {
    forall m, d :: m in memeToPublications && d in memeToPublications[m] ==> d in p2m && p2m[d].year in years
  }

  lemma PubsAtMono(a: set<string>, b: set<string>, key: ScoreKey, p2m: map<string, CitationRecord>)
    requires a <= b
    ensures PubsAt(a, key, p2m) <= PubsAt(b, key, p2m)
    ensures |PubsAt(a, key, p2m)| <= |PubsAt(b, key, p2m)|
  {
    var pa, pb := PubsAt(a, key, p2m), PubsAt(b, key, p2m);
    assert pb == pa + (pb - pa);
    assert pa !! (pb - pa);
  }

  /**
   * A meme is only ever tallied under a key of `year_to_meme_scores` that
   * counts at least as many papers as carry the meme under it.
   */
  lemma TalliedKeyCounted(memeToPublications: map<string, set<string>>, p2m: map<string, CitationRecord>,
                          years: seq<int>, key: ScoreKey, m: string)
    requires DatedIn(memeToPublications, p2m, years)
    requires m in memeToPublications && |PubsAt(memeToPublications[m], key, p2m)| > 0
    ensures KnownKey(key, years)
    ensures |PubsAt(memeToPublications[m], key, p2m)|
      <= |PubsAt(DocsUnder(memeToPublications, memeToPublications.Keys), key, p2m)|
  {
    var pubs := PubsAt(memeToPublications[m], key, p2m);
    assert pubs != {};
    var d :| d in pubs;
    assert d in memeToPublications[m];
    var all := DocsUnder(memeToPublications, memeToPublications.Keys);
    assert memeToPublications[m] <= all;
    PubsAtMono(memeToPublications[m], all, key, p2m);
  }

  /** Every publication gathered by get_all_pubs is dated within the years. */
  lemma AllPubsDated(memeToPublications: map<string, set<string>>, p2m: map<string, CitationRecord>, years: seq<int>)
    requires DatedIn(memeToPublications, p2m, years)
    ensures forall d :: d in DocsUnder(memeToPublications, memeToPublications.Keys) ==> d in p2m && p2m[d].year in years
  {
    forall d | d in DocsUnder(memeToPublications, memeToPublications.Keys)
      ensures d in p2m && p2m[d].year in years
    {
      var m :| m in memeToPublications && d in memeToPublications[m];
    }
  }

  /**
   * compute_meme_scores: the paper count of every year and of `'overall'`,
   * and for every meme found under a key its counters, which are those of
   * the papers with the meme under that key, and its score, which is the
   * frequency score times `ipic/(ipic+3)` and lies in [0, 1).
   */
  method ComputeMemeScores(years: seq<int>, memeToPublications: map<string, set<string>>,
                           memeToUnseenPubs: map<string, set<string>>, p2m: map<string, CitationRecord>)
    returns (numPapers: map<ScoreKey, int>, scores: map<(ScoreKey, string), MemeInfo>)
    requires DatedIn(memeToPublications, p2m, years)
    ensures forall key :: key in numPapers <==> KnownKey(key, years)
    ensures forall key :: key in numPapers ==>
      numPapers[key] == |PubsAt(DocsUnder(memeToPublications, memeToPublications.Keys), key, p2m)|
    ensures forall key, m :: (key, m) in scores <==>
      m in memeToPublications && |PubsAt(memeToPublications[m], key, p2m)| > 0
    ensures forall key, m :: (key, m) in scores ==>
      && key in numPapers
      && scores[(key, m)].counters == TermsOf(m, key, memeToPublications, memeToUnseenPubs, p2m)
      && 0 < scores[(key, m)].counters.frequency <= numPapers[key]
      && scores[(key, m)].score == MemeScore3(scores[(key, m)].counters, numPapers[key])
      && 0.0 <= scores[(key, m)].score < 1.0
  {
    var setOfPubs := GetAllPubs(memeToPublications);
    numPapers := InitialNumPapers(years);
    var terms := TallyAll(memeToPublications, memeToUnseenPubs, p2m);
    AllPubsDated(memeToPublications, p2m, years);
    numPapers := CountPapers(numPapers, setOfPubs, p2m, years);
    forall key, m | (key, m) in terms
      ensures key in numPapers && 0 < terms[(key, m)].frequency <= numPapers[key]
    {
      TalliedKeyCounted(memeToPublications, p2m, years, key, m);
    }
    scores := ScoreAll(terms, numPapers);
    forall key, m | (key, m) in scores
      ensures 0.0 <= scores[(key, m)].score < 1.0
    {
      MemeScore3Balanced(terms[(key, m)], numPapers[key]);
    }
  }

  // ---------------------------------------------------------------------
  // 'overall' as the sum of the years
  // ---------------------------------------------------------------------

  predicate Distinct(years: seq<int>) {
    forall i, j :: 0 <= i < j < |years| ==> years[i] != years[j]
  }

  /** The publications among `pubs` released in one of `years`. */
  function PubsIn(pubs: set<string>, years: seq<int>, p2m: map<string, CitationRecord>): (r: set<string>)
    ensures r <= pubs
  {
    set d | d in pubs && d in p2m && p2m[d].year in years
  }

  /** The per-year counters of `pubs`, added up over `years`. */
  function YearSum(pubs: set<string>, cited: set<string>, years: seq<int>, p2m: map<string, CitationRecord>): Counters
    decreases |years|
  {
    if |years| == 0 then Zero
    else Add(CountsOf(PubsAt(pubs, YearKey(years[0]), p2m), cited), YearSum(pubs, cited, years[1..], p2m))
  }

  /** The per-year paper counts of `pubs`, added up over `years`. */
  function YearCount(pubs: set<string>, years: seq<int>, p2m: map<string, CitationRecord>): int
    decreases |years|
  {
    if |years| == 0 then 0
    else |PubsAt(pubs, YearKey(years[0]), p2m)| + YearCount(pubs, years[1..], p2m)
  }

  lemma PubsInSplit(pubs: set<string>, years: seq<int>, p2m: map<string, CitationRecord>)
    requires |years| > 0 && Distinct(years)
    ensures PubsIn(pubs, years, p2m) == PubsAt(pubs, YearKey(years[0]), p2m) + PubsIn(pubs, years[1..], p2m)
    ensures PubsAt(pubs, YearKey(years[0]), p2m) !! PubsIn(pubs, years[1..], p2m)
  {
    assert forall y :: y in years <==> y == years[0] || y in years[1..];
    forall d | d in PubsIn(pubs, years[1..], p2m)
      ensures d !in PubsAt(pubs, YearKey(years[0]), p2m)
    {
      var i :| 0 <= i < |years[1..]| && years[1..][i] == p2m[d].year;
      assert years[i + 1] != years[0];
    }
  }

  /** The counters of the publications released in distinct years are the sum of the per-year counters. */
  lemma {:induction false} CountsByYear(pubs: set<string>, cited: set<string>, years: seq<int>,
                                        p2m: map<string, CitationRecord>)
    requires Distinct(years)
    ensures CountsOf(PubsIn(pubs, years, p2m), cited) == YearSum(pubs, cited, years, p2m)
    decreases |years|
  {
    if |years| == 0 {
      assert PubsIn(pubs, years, p2m) == {};
      CountsOfEmpty(cited);
    } else {
      var first := PubsAt(pubs, YearKey(years[0]), p2m);
      var rest := PubsIn(pubs, years[1..], p2m);
      PubsInSplit(pubs, years, p2m);
      assert first * rest == {};
      assert Distinct(years[1..]) by {
        forall i, j | 0 <= i < j < |years[1..]|
          ensures years[1..][i] != years[1..][j]
        {
          assert years[1..][i] == years[i + 1] && years[1..][j] == years[j + 1];
        }
      }
      CountsByYear(pubs, cited, years[1..], p2m);
      CountsOfUnion(first, rest, cited);
    }
  }

  /** The paper counts are the frequency component of the counters. */
  lemma {:induction false} YearCountFrequency(pubs: set<string>, cited: set<string>, years: seq<int>,
                                              p2m: map<string, CitationRecord>)
    ensures YearCount(pubs, years, p2m) == YearSum(pubs, cited, years, p2m).frequency
    decreases |years|
  {
    if |years| > 0 {
      YearCountFrequency(pubs, cited, years[1..], p2m);
    }
  }

  /**
   * When every publication is dated within distinct years, a meme's
   * `'overall'` counters are the sum of its per-year counters, and the
   * `'overall'` paper count is the number of publications and the sum of
   * the per-year paper counts.
   */
  lemma OverallIsYearSum(memeToPublications: map<string, set<string>>, memeToUnseenPubs: map<string, set<string>>,
                         p2m: map<string, CitationRecord>, years: seq<int>, m: string)
    requires DatedIn(memeToPublications, p2m, years) && Distinct(years)
    requires m in memeToPublications
    ensures TermsOf(m, Overall, memeToPublications, memeToUnseenPubs, p2m)
      == YearSum(memeToPublications[m], CitingPubs(memeToPublications[m], m, memeToPublications, memeToUnseenPubs, p2m),
                 years, p2m)
  {
    var pubs := memeToPublications[m];
    assert PubsAt(pubs, Overall, p2m) == PubsIn(pubs, years, p2m);
    CountsByYear(pubs, CitingPubs(pubs, m, memeToPublications, memeToUnseenPubs, p2m), years, p2m);
  }

  /**
   * The `'overall'` paper count is the number of publications, and the sum
   * of the per-year paper counts when the years are distinct.
   */
  lemma OverallPaperCount(memeToPublications: map<string, set<string>>, p2m: map<string, CitationRecord>,
                          years: seq<int>)
    requires DatedIn(memeToPublications, p2m, years) && Distinct(years)
    ensures var all := DocsUnder(memeToPublications, memeToPublications.Keys);
      |PubsAt(all, Overall, p2m)| == |all| == YearCount(all, years, p2m)
  {
    var all := DocsUnder(memeToPublications, memeToPublications.Keys);
    AllPubsDated(memeToPublications, p2m, years);
    assert PubsAt(all, Overall, p2m) == all;
    assert PubsIn(all, years, p2m) == all;
    CountsByYear(all, {}, years, p2m);
    YearCountFrequency(all, {}, years, p2m);
  }
}
