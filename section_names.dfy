/**
 * save_section_names.py: for every paper of a JSON file, its categories and
 * the set of (section name, section number) pairs of its body, stored
 * under its id.
 */
module SectionNames {
  import opened Text
  import opened Corpus

  /** A `(section_name, sec_number)` pair; either part may be None. */
  type NamePair = (Option<string>, Option<string>)

  /** `p2s_metadata[paper_id]`. */
  datatype SectionMetadata = SectionMetadata(categories: seq<string>, nameNumberPairs: set<NamePair>)

  /** `section_name in ['', " "]`: only these two names are skipped; a None name is kept. */
  predicate BlankName(name: Option<string>) {
    name == Some("") || name == Some(" ")
  }

  /** The pairs of the sections of `body` whose names are not blank. */
  function PairsOf(body: seq<Section>): set<NamePair> {
    set i | 0 <= i < |body| && !BlankName(body[i].name) :: (body[i].name, body[i].number)
  }

  /** Turning a list into a set keeps its elements and never adds any. */
  lemma {:induction false} SetOfListCard<T>(list: seq<T>)
    ensures |set q | q in list| <= |list|
  {
    if list != [] {
      var init := list[..|list| - 1];
      SetOfListCard(init);
      assert (set q | q in list) == (set q | q in init) + {list[|list| - 1]};
    }
  }

  /**
   * The loop over `body_text` and `set(section_name_number_pairs)`: a pair
   * is kept exactly when some section with a non-blank name has it, and
   * duplicates collapse, so there are no more pairs than sections.
   */
  method SectionPairs(body: seq<Section>) returns (pairs: set<NamePair>)
    ensures pairs == PairsOf(body)
    ensures forall q :: q in pairs <==>
      exists i :: 0 <= i < |body| && !BlankName(body[i].name) && q == (body[i].name, body[i].number)
    ensures |pairs| <= |body|
  {
    var sectionNameNumberPairs: seq<NamePair> := [];
    for k := 0 to |body|
      invariant |sectionNameNumberPairs| <= k
      invariant forall q :: q in sectionNameNumberPairs <==>
        exists i :: 0 <= i < k && !BlankName(body[i].name) && q == (body[i].name, body[i].number)
    {
      var sectionName := body[k].name;
      var sectionNum := body[k].number;
      if BlankName(sectionName) {
        continue;
      }
      sectionNameNumberPairs := sectionNameNumberPairs + [(sectionName, sectionNum)];
    }
    pairs := set q | q in sectionNameNumberPairs;
    SetOfListCard(sectionNameNumberPairs);
    forall q | q in PairsOf(body)
      ensures q in pairs
    {
      var i :| 0 <= i < |body| && !BlankName(body[i].name) && q == (body[i].name, body[i].number);
    }
  }

  /** The record one paper gets. */
  function SectionMetadataOf(paper: Paper): SectionMetadata {
    SectionMetadata(CategoryList(paper), PairsOf(paper.body))
  }

  /** `p2s_metadata` after the papers of `papers`, in order: each overwrites its id's record. */
  function Recorded(p2s: map<string, SectionMetadata>, papers: seq<Paper>): map<string, SectionMetadata>
    decreases |papers|
  {
    if papers == [] then p2s
    else Recorded(p2s, papers[..|papers| - 1])[papers[|papers| - 1].id := SectionMetadataOf(papers[|papers| - 1])]
  }

  /** get_json_section_metadata: every paper of the file is recorded, with no skipping. */
  method GetJsonSectionMetadata(p2sMetadata: map<string, SectionMetadata>, jsonData: seq<Paper>)
    returns (r: map<string, SectionMetadata>)
    ensures r == Recorded(p2sMetadata, jsonData)
  {
    r := p2sMetadata;
    for k := 0 to |jsonData|
      invariant r == Recorded(p2sMetadata, jsonData[..k])
    {
      var paper := jsonData[k];
      var paperId := paper.id;
      var paperCategories := CategoryList(paper);
      var sectionNameNumberPairs := SectionPairs(paper.body);
      assert jsonData[..k + 1][..k] == jsonData[..k];
      r := r[paperId := SectionMetadata(paperCategories, sectionNameNumberPairs)];
    }
    assert jsonData[..|jsonData|] == jsonData;
  }

  /** Every paper gets an entry, and the ids already recorded stay. */
  lemma {:induction false} RecordedKeys(p2s: map<string, SectionMetadata>, papers: seq<Paper>)
    ensures Recorded(p2s, papers).Keys == p2s.Keys + (set i | 0 <= i < |papers| :: papers[i].id)
    decreases |papers|
  {
    if papers != [] {
      var init := papers[..|papers| - 1];
      RecordedKeys(p2s, init);
      assert (set i | 0 <= i < |papers| :: papers[i].id)
          == (set i | 0 <= i < |init| :: init[i].id) + {papers[|papers| - 1].id};
    }
  }

  /**
   * The last paper with a given id wins: its record is the one stored,
   * whatever came earlier under that id.
   */
  lemma {:induction false} RecordedLastWins(p2s: map<string, SectionMetadata>, papers: seq<Paper>, j: int)
    requires 0 <= j < |papers|
    requires forall i :: j < i < |papers| ==> papers[i].id != papers[j].id
    ensures papers[j].id in Recorded(p2s, papers)
    ensures Recorded(p2s, papers)[papers[j].id] == SectionMetadataOf(papers[j])
    decreases |papers|
  {
    if j < |papers| - 1 {
      var init := papers[..|papers| - 1];
      RecordedLastWins(p2s, init, j);
    }
  }

  /** An id no paper of the file has keeps its earlier record. */
  lemma {:induction false} RecordedUntouched(p2s: map<string, SectionMetadata>, papers: seq<Paper>, id: string)
    requires forall i :: 0 <= i < |papers| ==> papers[i].id != id
    ensures id in Recorded(p2s, papers) <==> id in p2s
    ensures id in p2s ==> Recorded(p2s, papers)[id] == p2s[id]
    decreases |papers|
  {
    if papers != [] {
      RecordedUntouched(p2s, papers[..|papers| - 1], id);
    }
  }
}
