/**
 * Model of research_trends/save_paper_n_grams.py: text normalisation,
 * brace-span removal, citation extraction, section selection, the
 * "varying context" n-gram retention rule of add_memes, and the per-year
 * pass that fills `paper_to_metadata` and `n_gram_to_papers`.
 */
module PaperNGrams {
  import opened Text
  import opened Corpus

  // ---------------------------------------------------------------------
  // remove_bracketed_sections
  // ---------------------------------------------------------------------

  /**
   * What the scan keeps of `s` when it starts at brace depth `depth`:
   * a brace changes the depth and is dropped, any other character is
   * kept exactly when the depth is not positive.
   */
  function StripFrom(s: string, depth: int): (r: string)
    ensures forall c :: c in r ==> c in s && c != '{' && c != '}'
    decreases |s|
  {
    if s == [] then []
    else if s[0] == '{' then StripFrom(s[1..], depth + 1)
    else if s[0] == '}' then StripFrom(s[1..], depth - 1)
    else if depth > 0 then StripFrom(s[1..], depth)
    else [s[0]] + StripFrom(s[1..], depth)
  }

  function Unbracketed(s: string): string {
    StripFrom(s, 0)
  }

  method RemoveBracketedSections(text: string) returns (newText: string)
    ensures newText == Unbracketed(text)
  {
    newText := "";
    var numBrackets := 0;
    for i := 0 to |text|
      invariant newText + StripFrom(text[i..], numBrackets) == Unbracketed(text)
    {
      var character := text[i];
      var addCharacter := true;
      if character == '{' {
        numBrackets := numBrackets + 1;
        addCharacter := false;
      } else if character == '}' {
        numBrackets := numBrackets - 1;
        addCharacter := false;
      } else if numBrackets > 0 {
        addCharacter := false;
      }
      assert text[i..][1..] == text[i + 1..];
      if addCharacter {
        assert newText + StripFrom(text[i..], numBrackets)
            == (newText + [character]) + StripFrom(text[i + 1..], numBrackets);
        newText := newText + [character];
      }
    }
    assert text[|text|..] == [];
  }

  predicate NoBraces(s: string) {
    '{' !in s && '}' !in s
  }

  /** `a` is `b` with some characters deleted, the rest kept in order. */
  predicate IsSubsequence(a: string, b: string)
    decreases |b|
  {
    if a == [] then true
    else if b == [] then false
    else (a[0] == b[0] && IsSubsequence(a[1..], b[1..])) || IsSubsequence(a, b[1..])
  }

  lemma {:induction false} StripFromIsSubsequence(s: string, depth: int)
    ensures IsSubsequence(StripFrom(s, depth), s)
    decreases |s|
  {
    if s != [] {
      if s[0] == '{' {
        StripFromIsSubsequence(s[1..], depth + 1);
      } else if s[0] == '}' {
        StripFromIsSubsequence(s[1..], depth - 1);
      } else if depth > 0 {
        StripFromIsSubsequence(s[1..], depth);
      } else {
        StripFromIsSubsequence(s[1..], depth);
        assert ([s[0]] + StripFrom(s[1..], depth))[1..] == StripFrom(s[1..], depth);
      }
    }
  }

  /** Brace-free text scanned at a non-positive depth is kept whole. */
  lemma {:induction false} StripFromBraceFree(t: string, rest: string, depth: int)
    requires NoBraces(t) && depth <= 0
    ensures StripFrom(t + rest, depth) == t + StripFrom(rest, depth)
    decreases |t|
  {
    if t != [] {
      assert (t + rest)[1..] == t[1..] + rest;
      assert t[0] in t;
      StripFromBraceFree(t[1..], rest, depth);
      assert t == [t[0]] + t[1..];
    } else {
      assert t + rest == rest;
    }
  }

  /**
   * The output of bracket removal has no braces, keeps the remaining
   * characters in order, is the input itself when the input has no
   * braces, and a second application changes nothing.
   */
  lemma UnbracketedProperties(s: string)
    ensures NoBraces(Unbracketed(s))
    ensures IsSubsequence(Unbracketed(s), s)
    ensures NoBraces(s) ==> Unbracketed(s) == s
    ensures Unbracketed(Unbracketed(s)) == Unbracketed(s)
  {
    StripFromIsSubsequence(s, 0);
    var r := Unbracketed(s);
    assert NoBraces(r);
    StripFromBraceFree(r, "", 0);
    assert r + "" == r;
    if NoBraces(s) {
      StripFromBraceFree(s, "", 0);
      assert s + "" == s;
    }
  }

  /**
   * A stray `}` drives the depth to -1, so the following `{` only brings
   * it back to 0 and the text inside that group is kept.
   */
  lemma StrayCloseBraceKeepsGroup(t: string)
    requires NoBraces(t)
    ensures Unbracketed("}{" + t + "}") == t
  {
    var s := "}{" + t + "}";
    assert s[0] == '}' && s[1..] == "{" + t + "}";
    assert s[1..][0] == '{' && s[1..][1..] == t + "}";
    StripFromBraceFree(t, "}", 0);
    assert StripFrom("}", -1) == [] by {
      assert "}"[0] == '}' && "}"[1..] == [];
    }
    calc {
      StripFrom(s, 0);
      StripFrom(s[1..], -1);
      StripFrom(t + "}", 0);
      t + StripFrom("}", 0);
      { assert "}"[0] == '}' && "}"[1..] == []; }
      t + StripFrom([], -1);
      t;
    }
  }

  // ---------------------------------------------------------------------
  // process_text_basic, get_lemmatized_text
  // ---------------------------------------------------------------------

  /** `input_text.lower().replace('\n', ' ')`. */
  function ProcessTextBasic(s: string): (r: string)
    ensures |r| == |s| && '\n' !in r
    ensures forall c :: c in r ==> !IsUpper(c)
  {
    ReplaceNewlines(Lower(s))
  }

  /** Basic processing is idempotent. */
  lemma ProcessTextBasicIdempotent(s: string)
    ensures ProcessTextBasic(ProcessTextBasic(s)) == ProcessTextBasic(s)
  {
    var r := ProcessTextBasic(s);
    LowerIdentity(r);
    ReplaceNewlinesIdentity(r);
  }

  /** A token get_lemmatized_text can produce: non-empty, no blank, no punctuation, no capital. */
  predicate CleanToken(t: string) {
    t != "" && forall c :: c in t ==> c != ' ' && c != '\n' && c !in Punctuation && !IsUpper(c)
  }

  /**
   * get_lemmatized_text: lower-case, newlines to spaces, brace spans
   * removed, punctuation deleted, split on single spaces, empty tokens
   * dropped.
   */
  function Lemmatize(text: string): (tokens: seq<string>)
    ensures forall t :: t in tokens ==> CleanToken(t)
  {
    var basic := ProcessTextBasic(text);
    var stripped := StripPunctuation(Unbracketed(basic));
    var tokens := NonEmpty(Split(stripped, ' '));
    assert forall t, c :: t in tokens && c in t ==> c in stripped && c in basic;
    tokens
  }

  /** No clean token is the sentinel "N/A", whose first letter is a capital. */
  lemma CleanTokenNotSentinel(t: string)
    requires CleanToken(t)
    ensures t != Sentinel
  {
    assert IsUpper(Sentinel[0]) && Sentinel[0] in Sentinel;
  }

  // ---------------------------------------------------------------------
  // get_cited_papers
  // ---------------------------------------------------------------------

  /** The arXiv id an entry contributes: none without `ids`, `arxiv_id` or with an empty id. */
  function ArxivIdOf(e: BibEntry): (r: seq<string>)
    ensures |r| <= 1
  {
    match e.ids
    case None => []
    case Some(ids) =>
      match ids.arxivId
      case None => []
      case Some(id) => if id == "" then [] else [id]
  }

  predicate HasArxivId(e: BibEntry, id: string) {
    e.ids.Some? && e.ids.value.arxivId == Some(id) && id != ""
  }

  /** The cited arXiv ids of a bibliography, entry by entry. */
  function CitedIds(bib: seq<BibEntry>): (r: seq<string>)
    ensures |r| <= |bib|
    ensures forall id :: id in r ==> id != ""
  {
    if bib == [] then [] else CitedIds(bib[..|bib| - 1]) + ArxivIdOf(bib[|bib| - 1])
  }

  /** An id is cited exactly when some entry carries it as a non-empty arXiv id. */
  lemma {:induction false} CitedIdsMembership(bib: seq<BibEntry>, id: string)
    ensures id in CitedIds(bib) <==> exists k :: 0 <= k < |bib| && HasArxivId(bib[k], id)
    decreases |bib|
  {
    if bib != [] {
      var init := bib[..|bib| - 1];
      CitedIdsMembership(init, id);
      assert forall k :: 0 <= k < |init| ==> init[k] == bib[k];
      if id in ArxivIdOf(bib[|bib| - 1]) {
        assert HasArxivId(bib[|bib| - 1], id);
      }
      if exists k :: 0 <= k < |bib| && HasArxivId(bib[k], id) {
        var k :| 0 <= k < |bib| && HasArxivId(bib[k], id);
        if k == |bib| - 1 {
          assert id in ArxivIdOf(bib[k]);
        }
      }
    }
  }

  /** Citation extraction distributes over concatenation: the entries' order is kept. */
  lemma {:induction false} CitedIdsConcat(a: seq<BibEntry>, b: seq<BibEntry>)
    ensures CitedIds(a + b) == CitedIds(a) + CitedIds(b)
    decreases |b|
  {
    if b == [] {
      assert a + b == a;
    } else {
      var b' := b[..|b| - 1];
      assert (a + b)[..|a + b| - 1] == a + b';
      CitedIdsConcat(a, b');
    }
  }

  method GetCitedPapers(bibEntries: seq<BibEntry>) returns (citedPapers: seq<string>)
    ensures citedPapers == CitedIds(bibEntries)
  {
    citedPapers := [];
    for k := 0 to |bibEntries|
      invariant citedPapers == CitedIds(bibEntries[..k])
    {
      var refData := bibEntries[k];
      assert bibEntries[..k + 1][..k] == bibEntries[..k];
      if refData.ids.None? {
        continue;
      } else if refData.ids.value.arxivId.None? {
        continue;
      } else {
        var refPaperId := refData.ids.value.arxivId.value;
        if refPaperId == "" {
          continue;
        }
        citedPapers := citedPapers + [refPaperId];
      }
    }
    assert bibEntries[..|bibEntries|] == bibEntries;
  }

  // ---------------------------------------------------------------------
  // Section selection
  // ---------------------------------------------------------------------

  const IntroSubstring: string := "introduction"
  const MethodSubstrings: seq<string> := ["method", "model", "approach"]

  /** `section_name is None or section_name in ["", " "]`. */
  predicate BlankName(name: Option<string>) {
    name.None? || name.value == "" || name.value == " "
  }

  predicate IsIntroSection(s: Section) {
    !BlankName(s.name) && Contains(ProcessTextBasic(s.name.value), IntroSubstring)
  }

  /** The token lists of the introduction sections, in body order. */
  function IntroTexts(body: seq<Section>): (r: seq<seq<string>>)
    ensures |r| <= |body|
  {
    if body == [] then []
    else
      var s := body[|body| - 1];
      IntroTexts(body[..|body| - 1]) + (if IsIntroSection(s) then [Lemmatize(s.text)] else [])
  }

  lemma IntroTextsStep(body: seq<Section>, k: nat)
    requires k < |body|
    ensures IntroTexts(body[..k + 1])
      == IntroTexts(body[..k]) + (if IsIntroSection(body[k]) then [Lemmatize(body[k].text)] else [])
  {
    assert body[..k + 1][..k] == body[..k];
  }

  method GetLemmatizedIntroTexts(bodyText: seq<Section>) returns (intro: seq<seq<string>>)
    ensures intro == IntroTexts(bodyText)
  {
    intro := [];
    for k := 0 to |bodyText|
      invariant intro == IntroTexts(bodyText[..k])
    {
      IntroTextsStep(bodyText, k);
      intro := CollectIntro(intro, bodyText[k]);
    }
    assert bodyText[..|bodyText|] == bodyText;
  }

  /** The body of the loop over sections: skip a blank name, else append the text of an introduction. */
  method CollectIntro(intro: seq<seq<string>>, body: Section) returns (r: seq<seq<string>>)
    ensures r == intro + (if IsIntroSection(body) then [Lemmatize(body.text)] else [])
  {
    r := intro;
    var sectionName := body.name;
    if sectionName.None? || sectionName.value in ["", " "] {
      return;
    }
    if Contains(ProcessTextBasic(sectionName.value), IntroSubstring) {
      r := intro + [Lemmatize(body.text)];
    }
  }

  /** Every introduction section contributes its token list. */
  lemma {:induction false} IntroSectionCollected(body: seq<Section>, k: nat)
    requires k < |body| && IsIntroSection(body[k])
    ensures Lemmatize(body[k].text) in IntroTexts(body)
    decreases |body|, 1
  {
    if k < |body| - 1 {
      IntroCollectedEarlier(body, k);
    } else {
      IntroCollectedLast(body);
    }
  }

  lemma {:induction false} IntroCollectedEarlier(body: seq<Section>, k: nat)
    requires k < |body| - 1 && IsIntroSection(body[k])
    ensures Lemmatize(body[k].text) in IntroTexts(body)
    decreases |body|, 0
  {
    var init, s := body[..|body| - 1], body[|body| - 1];
    var last := if IsIntroSection(s) then [Lemmatize(s.text)] else [];
    assert IntroTexts(body) == IntroTexts(init) + last;
    assert init[k] == body[k];
    IntroSectionCollected(init, k);
    InEither(IntroTexts(init), last, Lemmatize(body[k].text));
  }

  lemma IntroCollectedLast(body: seq<Section>)
    requires body != [] && IsIntroSection(body[|body| - 1])
    ensures Lemmatize(body[|body| - 1].text) in IntroTexts(body)
  {
    var init, s := body[..|body| - 1], body[|body| - 1];
    assert IntroTexts(body) == IntroTexts(init) + [Lemmatize(s.text)];
  }

  /** Every introduction text is the token list of a non-blank section whose name contains "introduction". */
  lemma {:induction false} IntroTextFromSection(body: seq<Section>, t: seq<string>)
    requires t in IntroTexts(body)
    ensures exists k :: 0 <= k < |body| && IsIntroSection(body[k]) && t == Lemmatize(body[k].text)
  {
    var init := body[..|body| - 1];
    var s := body[|body| - 1];
    if IsIntroSection(s) && t == Lemmatize(s.text) {
      assert IsIntroSection(body[|body| - 1]);
    } else {
      IntroTextFromSection(init, t);
      var k :| 0 <= k < |init| && IsIntroSection(init[k]) && t == Lemmatize(init[k].text);
      assert init[k] == body[k];
    }
  }

  /** How many of `subs` occur in `name`. */
  function MatchCount(name: string, subs: seq<string>): (r: nat)
    ensures r <= |subs|
  {
    if subs == [] then 0
    else MatchCount(name, subs[..|subs| - 1]) + (if Contains(name, subs[|subs| - 1]) then 1 else 0)
  }

  function Copies(t: seq<string>, k: nat): (r: seq<seq<string>>)
    ensures |r| == k && forall u :: u in r ==> u == t
  {
    if k == 0 then [] else Copies(t, k - 1) + [t]
  }

  /** How many times get_lemmatized_method_texts appends a section: once per matching substring. */
  function MethodCopies(s: Section): nat {
    if BlankName(s.name) then 0 else MatchCount(ProcessTextBasic(s.name.value), MethodSubstrings)
  }

  function MethodTexts(body: seq<Section>): seq<seq<string>> {
    if body == [] then []
    else
      var s := body[|body| - 1];
      MethodTexts(body[..|body| - 1]) + Copies(Lemmatize(s.text), MethodCopies(s))
  }

  lemma MethodTextsStep(body: seq<Section>, k: nat)
    requires k < |body|
    ensures MethodTexts(body[..k + 1]) == MethodTexts(body[..k]) + Copies(Lemmatize(body[k].text), MethodCopies(body[k]))
  {
    assert body[..k + 1][..k] == body[..k];
  }

  lemma MatchCountStep(name: string, subs: seq<string>, j: nat)
    requires j < |subs|
    ensures MatchCount(name, subs[..j + 1]) == MatchCount(name, subs[..j]) + (if Contains(name, subs[j]) then 1 else 0)
  {
    assert subs[..j + 1][..j] == subs[..j];
  }

  /** The inner loop of get_lemmatized_method_texts: one copy per matching substring. */
  method AppendPerMatch(texts: seq<seq<string>>, name: string, tokens: seq<string>) returns (r: seq<seq<string>>)
    ensures r == texts + Copies(tokens, MatchCount(name, MethodSubstrings))
  {
    r := texts;
    for j := 0 to |MethodSubstrings|
      invariant r == texts + Copies(tokens, MatchCount(name, MethodSubstrings[..j]))
    {
      MatchCountStep(name, MethodSubstrings, j);
      if Contains(name, MethodSubstrings[j]) {
        r := r + [tokens];
      }
    }
    assert MethodSubstrings[..|MethodSubstrings|] == MethodSubstrings;
  }

  method GetLemmatizedMethodTexts(bodyText: seq<Section>) returns (method_: seq<seq<string>>)
    ensures method_ == MethodTexts(bodyText)
  {
    method_ := [];
    for k := 0 to |bodyText|
      invariant method_ == MethodTexts(bodyText[..k])
    {
      var body := bodyText[k];
      MethodTextsStep(bodyText, k);
      var sectionName := body.name;
      if sectionName.None? || sectionName.value in ["", " "] {
        continue;
      }
      var name := ProcessTextBasic(sectionName.value);
      var tokens := Lemmatize(body.text);
      method_ := AppendPerMatch(method_, name, tokens);
    }
    assert bodyText[..|bodyText|] == bodyText;
  }

  /**
   * Every method text comes from a non-blank section whose name contains
   * "method", "model" or "approach"; a section is copied at most three times.
   */
  lemma {:induction false} MethodTextsSpec(body: seq<Section>)
    ensures forall t :: t in MethodTexts(body) ==>
      exists k :: 0 <= k < |body| && MethodCopies(body[k]) > 0 && t == Lemmatize(body[k].text)
    ensures |MethodTexts(body)| <= 3 * |body|
    decreases |body|
  {
    if body != [] {
      var init := body[..|body| - 1];
      MethodTextsSpec(init);
      assert forall k :: 0 <= k < |init| ==> init[k] == body[k];
      var s := body[|body| - 1];
      assert MethodCopies(s) <= 3;
    }
  }

  /**
   * A section whose processed name contains "model" and "approach" but not
   * "method" is appended twice, once per matching substring.
   */
  lemma TwoMatchesAppendedTwice(s: Section)
    requires !BlankName(s.name)
    requires Contains(ProcessTextBasic(s.name.value), "model")
    requires Contains(ProcessTextBasic(s.name.value), "approach")
    requires !Contains(ProcessTextBasic(s.name.value), "method")
    ensures MethodTexts([s]) == [Lemmatize(s.text), Lemmatize(s.text)]
  {
    var name := ProcessTextBasic(s.name.value);
    MatchCountStep(name, MethodSubstrings, 0);
    MatchCountStep(name, MethodSubstrings, 1);
    MatchCountStep(name, MethodSubstrings, 2);
    assert MethodSubstrings[..0] == [];
    assert MethodSubstrings[..3] == MethodSubstrings;
    assert MethodSubstrings[0] == "method" && MethodSubstrings[1] == "model" && MethodSubstrings[2] == "approach";
    assert MethodCopies(s) == 2;
    var t := Lemmatize(s.text);
    assert Copies(t, 2) == Copies(t, 1) + [t] == Copies(t, 0) + [t] + [t];
    assert [s][..0] == [];
    assert MethodTexts([s]) == MethodTexts([]) + Copies(t, 2);
  }

  // ---------------------------------------------------------------------
  // get_section_number
  // ---------------------------------------------------------------------

  /** A section whose non-blank name contains `substring` and whose number is not blank. */
  predicate NumberedMatch(s: Section, substring: string) {
    !BlankName(s.name) && !BlankName(s.number) && Contains(ProcessTextBasic(s.name.value), substring)
  }

  /** `section_num.split(".")[:1][0]`: the text before the first dot. */
  function BeforeDot(num: string): (r: string)
    ensures r <= num && '.' !in r
    ensures |r| < |num| ==> num[|r|] == '.'
  {
    SplitPrefix(num, '.');
    Split(num, '.')[0]
  }

  /** The first piece of a split is the text before the first separator. */
  lemma {:induction false} SplitPrefix(s: string, sep: char)
    ensures Split(s, sep)[0] <= s
    ensures |Split(s, sep)[0]| < |s| ==> s[|Split(s, sep)[0]|] == sep
    decreases |s|
  {
    if s != [] && s[0] != sep {
      SplitPrefix(s[1..], sep);
      assert s == [s[0]] + s[1..];
    }
  }

  method GetSectionNumber(bodyText: seq<Section>, sectionSubstring: string) returns (r: Option<string>)
    ensures r.None? <==> forall k :: 0 <= k < |bodyText| ==> !NumberedMatch(bodyText[k], sectionSubstring)
    ensures r.Some? ==>
      exists k :: 0 <= k < |bodyText| && NumberedMatch(bodyText[k], sectionSubstring)
        && (forall j :: 0 <= j < k ==> !NumberedMatch(bodyText[j], sectionSubstring))
        && r.value == BeforeDot(bodyText[k].number.value)
  {
    for k := 0 to |bodyText|
      invariant forall j :: 0 <= j < k ==> !NumberedMatch(bodyText[j], sectionSubstring)
    {
      var body := bodyText[k];
      var sectionName := body.name;
      var sectionNum := body.number;
      if sectionName.None? || sectionName.value in ["", " "] {
        continue;
      }
      if sectionNum.None? || sectionNum.value in ["", " "] {
        continue;
      }
      if Contains(ProcessTextBasic(sectionName.value), sectionSubstring) {
        return Some(BeforeDot(sectionNum.value));
      }
    }
    return None;
  }

  // ---------------------------------------------------------------------
  // add_memes
  // ---------------------------------------------------------------------

  /** One recorded window: the joined span and the token that follows it (or the sentinel). */
  datatype Occurrence = Occurrence(span: string, next: string)

  /** `len(token_list) - n + 1` windows of width n, none when the list is shorter. */
  function WindowCount(tokens: seq<string>, n: nat): nat {
    if |tokens| >= n then |tokens| - n + 1 else 0
  }

  /** The window of width n at position i. */
  function WindowAt(tokens: seq<string>, i: nat, n: nat): Occurrence
    requires i + n <= |tokens|
  {
    Occurrence(Join(tokens[i..i + n], ' '), if i == |tokens| - n then Sentinel else tokens[i + n])
  }

  /** The first k windows of width n of one token list. */
  function ListOccurrences(tokens: seq<string>, n: nat, k: nat): seq<Occurrence>
    requires n >= 1 && k <= WindowCount(tokens, n)
  {
    if k == 0 then [] else ListOccurrences(tokens, n, k - 1) + [WindowAt(tokens, k - 1, n)]
  }

  /** The windows of width n of the first l token lists. */
  function WidthOccurrences(lists: seq<seq<string>>, n: nat, l: nat): seq<Occurrence>
    requires n >= 1 && l <= |lists|
  {
    if l == 0 then []
    else WidthOccurrences(lists, n, l - 1) + ListOccurrences(lists[l - 1], n, WindowCount(lists[l - 1], n))
  }

  /** The windows recorded once the widths MaxNGramSize down to n + 1 are done. */
  function OccurrencesAbove(lists: seq<seq<string>>, n: nat): seq<Occurrence>
    requires n <= MaxNGramSize
    decreases MaxNGramSize - n
  {
    if n == MaxNGramSize then [] else OccurrencesAbove(lists, n + 1) + WidthOccurrences(lists, n + 1, |lists|)
  }

  function Occurrences(lists: seq<seq<string>>): seq<Occurrence> {
    OccurrencesAbove(lists, 0)
  }

  /** `index[m]`, or the empty set when m is not a key. */
  function Docs(index: map<string, set<string>>, m: string): set<string> {
    if m in index then index[m] else {}
  }

  /** Every document listed under one of `keys`. */
  function DocsUnder(index: map<string, set<string>>, keys: set<string>): set<string> {
    set m, d | m in keys && m in index && d in index[m] :: d
  }

  lemma DocsUnderStep(index: map<string, set<string>>, keys: set<string>, m: string)
    requires m in index
    ensures DocsUnder(index, keys + {m}) == DocsUnder(index, keys) + index[m]
  {
  }

  /** `meme_to_following_word[span].add(next)`, creating the entry first. */
  function Record(ctx: map<string, set<string>>, o: Occurrence): map<string, set<string>> {
    ctx[o.span := Docs(ctx, o.span) + {o.next}]
  }

  /** `ctx` after recording the occurrences in order. */
  function RecordAll(ctx: map<string, set<string>>, occs: seq<Occurrence>): map<string, set<string>> {
    if occs == [] then ctx else Record(RecordAll(ctx, occs[..|occs| - 1]), occs[|occs| - 1])
  }

  /** `meme_to_following_word` after recording the occurrences in order. */
  function ContextsOf(occs: seq<Occurrence>): map<string, set<string>> {
    RecordAll(map[], occs)
  }

  lemma {:induction false} RecordAllConcat(ctx: map<string, set<string>>, a: seq<Occurrence>, b: seq<Occurrence>)
    ensures RecordAll(ctx, a + b) == RecordAll(RecordAll(ctx, a), b)
    decreases |b|
  {
    if b == [] {
      assert a + b == a;
    } else {
      assert (a + b)[..|a + b| - 1] == a + b[..|b| - 1];
      RecordAllConcat(ctx, a, b[..|b| - 1]);
    }
  }

  /** `len(contexts) > 1 or "N/A" in contexts`. */
  predicate Varying(contexts: set<string>) {
    |contexts| > 1 || Sentinel in contexts
  }

  function Retained(ctx: map<string, set<string>>): set<string> {
    set m | m in ctx && Varying(ctx[m])
  }

  /** The memes add_memes keeps for one paper's token lists. */
  function PaperMemes(lists: seq<seq<string>>): set<string> {
    Retained(ContextsOf(Occurrences(lists)))
  }

  /**
   * The index after adding `pid` to the document set of every meme in
   * `memes`: existing entries only grow, new keys are exactly the memes,
   * and the only document added is `pid`.
   */
  function AddPaper(index: map<string, set<string>>, memes: set<string>, pid: string): map<string, set<string>> {
    map m | m in index.Keys + memes :: Docs(index, m) + (if m in memes then {pid} else {})
  }

  /**
   * Adding a paper only introduces the memes as keys, never removes a
   * document, and the one document it adds is `pid`, to the memes only.
   */
  lemma AddPaperSpec(index: map<string, set<string>>, memes: set<string>, pid: string)
    ensures AddPaper(index, memes, pid).Keys == index.Keys + memes
    ensures forall m :: m in index ==> index[m] <= AddPaper(index, memes, pid)[m]
    ensures forall m :: m in memes ==> pid in AddPaper(index, memes, pid)[m]
    ensures forall m, d :: d in Docs(AddPaper(index, memes, pid), m) <==> d in Docs(index, m) || (d == pid && m in memes)
  {
  }

  lemma AddPaperNothing(index: map<string, set<string>>, pid: string)
    ensures AddPaper(index, {}, pid) == index
  {
    var r := AddPaper(index, {}, pid);
    assert r.Keys == index.Keys;
    forall m | m in r
      ensures r[m] == index[m]
    {
    }
  }

  lemma AddPaperInsert(index: map<string, set<string>>, memes: set<string>, pid: string, m: string)
    ensures AddPaper(index, memes + {m}, pid)
      == AddPaper(index, memes, pid)[m := Docs(AddPaper(index, memes, pid), m) + {pid}]
  {
    var after := AddPaper(index, memes + {m}, pid);
    var before := AddPaper(index, memes, pid);
    var updated := before[m := Docs(before, m) + {pid}];
    assert after.Keys == updated.Keys;
    forall k | k in after
      ensures after[k] == updated[k]
    {
      if k != m {
        assert after[k] == Docs(index, k) + (if k in memes then {pid} else {});
      }
    }
  }

  /** Creating an empty entry and then adding to it is what Record does. */
  lemma RecordInTwoSteps(m: map<string, set<string>>, o: Occurrence)
    ensures var m1 := if o.span !in m then m[o.span := {}] else m;
      m1[o.span := m1[o.span] + {o.next}] == Record(m, o)
  {
    var m1 := if o.span !in m then m[o.span := {}] else m;
    var lhs := m1[o.span := m1[o.span] + {o.next}];
    assert lhs.Keys == Record(m, o).Keys;
    forall k | k in lhs
      ensures lhs[k] == Record(m, o)[k]
    {
    }
  }

  /** The innermost loop of add_memes: the windows of width n of one token list. */
  method RecordWindows(ctx: map<string, set<string>>, tokenList: seq<string>, n: nat)
    returns (memeToFollowingWord: map<string, set<string>>)
    requires n >= 1
    ensures memeToFollowingWord == RecordAll(ctx, ListOccurrences(tokenList, n, WindowCount(tokenList, n)))
  {
    memeToFollowingWord := ctx;
    var i := 0;
    while i < |tokenList| - n + 1
      invariant 0 <= i <= WindowCount(tokenList, n)
      invariant memeToFollowingWord == RecordAll(ctx, ListOccurrences(tokenList, n, i))
    {
      var memeSpan := Join(tokenList[i..i + n], ' ');
      ghost var o := WindowAt(tokenList, i, n);
      ghost var occs := ListOccurrences(tokenList, n, i);
      assert (occs + [o])[..|occs|] == occs;
      RecordInTwoSteps(memeToFollowingWord, o);
      if memeSpan !in memeToFollowingWord {
        memeToFollowingWord := memeToFollowingWord[memeSpan := {}];
      }
      if i == |tokenList| - n {
        memeToFollowingWord := memeToFollowingWord[memeSpan := memeToFollowingWord[memeSpan] + {Sentinel}];
      } else {
        memeToFollowingWord := memeToFollowingWord[memeSpan := memeToFollowingWord[memeSpan] + {tokenList[i + n]}];
      }
      i := i + 1;
    }
  }

  /** One pass of the middle loop of add_memes: the windows of width n of every token list. */
  method RecordWidth(ctx: map<string, set<string>>, collectedTokens: seq<seq<string>>, n: nat)
    returns (memeToFollowingWord: map<string, set<string>>)
    requires n >= 1
    ensures memeToFollowingWord == RecordAll(ctx, WidthOccurrences(collectedTokens, n, |collectedTokens|))
  {
    memeToFollowingWord := ctx;
    for l := 0 to |collectedTokens|
      invariant memeToFollowingWord == RecordAll(ctx, WidthOccurrences(collectedTokens, n, l))
    {
      ghost var before := WidthOccurrences(collectedTokens, n, l);
      ghost var added := ListOccurrences(collectedTokens[l], n, WindowCount(collectedTokens[l], n));
      memeToFollowingWord := RecordWindows(memeToFollowingWord, collectedTokens[l], n);
      RecordAllConcat(ctx, before, added);
    }
  }

  /** The first phase of add_memes: the following words of every window, widest first. */
  method FollowingWords(collectedTokens: seq<seq<string>>) returns (memeToFollowingWord: map<string, set<string>>)
    ensures memeToFollowingWord == ContextsOf(Occurrences(collectedTokens))
  {
    memeToFollowingWord := map[];
    var n := MaxNGramSize;
    while n > 0
      invariant 0 <= n <= MaxNGramSize
      invariant memeToFollowingWord == ContextsOf(OccurrencesAbove(collectedTokens, n))
    {
      memeToFollowingWord := RecordWidth(memeToFollowingWord, collectedTokens, n);
      RecordAllConcat(map[], OccurrencesAbove(collectedTokens, n), WidthOccurrences(collectedTokens, n, |collectedTokens|));
      n := n - 1;
    }
  }

  /** The retained memes among the keys in `done`. */
  ghost function RetainedAmong(ctx: map<string, set<string>>, done: set<string>): set<string>
    requires done <= ctx.Keys
  {
    set m | m in done && Varying(ctx[m])
  }

  lemma RetainedAmongBounds(ctx: map<string, set<string>>)
    ensures RetainedAmong(ctx, ctx.Keys - ctx.Keys) == {}
    ensures RetainedAmong(ctx, ctx.Keys - {}) == Retained(ctx)
  {
    assert ctx.Keys - ctx.Keys == {};
    assert ctx.Keys - {} == ctx.Keys;
  }

  lemma RetainedAmongRemove(ctx: map<string, set<string>>, remaining: set<string>, m: string)
    requires remaining <= ctx.Keys && m in remaining
    ensures RetainedAmong(ctx, ctx.Keys - (remaining - {m}))
      == if Varying(ctx[m]) then RetainedAmong(ctx, ctx.Keys - remaining) + {m} else RetainedAmong(ctx, ctx.Keys - remaining)
  {
    assert ctx.Keys - (remaining - {m}) == (ctx.Keys - remaining) + {m};
  }

  lemma AddDocInTwoSteps(r: map<string, set<string>>, m: string, d: string)
    ensures var r1 := if m !in r then r[m := {}] else r;
      r1[m := r1[m] + {d}] == r[m := Docs(r, m) + {d}]
  {
    var r1 := if m !in r then r[m := {}] else r;
    var lhs := r1[m := r1[m] + {d}];
    assert lhs.Keys == r[m := Docs(r, m) + {d}].Keys;
  }

  /** `index.setdefault(key, set()).add(d)`, as add_memes spells it out. */
  method AddToEntry(index: map<string, set<string>>, key: string, d: string) returns (r: map<string, set<string>>)
    ensures r == index[key := Docs(index, key) + {d}]
  {
    r := index;
    AddDocInTwoSteps(r, key, d);
    if key !in r {
      r := r[key := {}];
    }
    r := r[key := r[key] + {d}];
  }

  /** One iteration of the second phase keeps the loop's invariant. */
  lemma AddRetainedStep(nGramToPapers: map<string, set<string>>, paperId: string, ctx: map<string, set<string>>,
                        remaining: set<string>, meme: string, r: map<string, set<string>>)
    requires remaining <= ctx.Keys && meme in remaining
    requires r == AddPaper(nGramToPapers, RetainedAmong(ctx, ctx.Keys - remaining), paperId)
    ensures (if Varying(ctx[meme]) then r[meme := Docs(r, meme) + {paperId}] else r)
      == AddPaper(nGramToPapers, RetainedAmong(ctx, ctx.Keys - (remaining - {meme})), paperId)
  {
    RetainedAmongRemove(ctx, remaining, meme);
    if Varying(ctx[meme]) {
      AddPaperInsert(nGramToPapers, RetainedAmong(ctx, ctx.Keys - remaining), paperId, meme);
    }
  }

  /** The second phase of add_memes: the paper joins the document set of each retained meme. */
  method AddRetained(nGramToPapers: map<string, set<string>>, paperId: string, ctx: map<string, set<string>>)
    returns (r: map<string, set<string>>)
    ensures r == AddPaper(nGramToPapers, Retained(ctx), paperId)
  {
    r := nGramToPapers;
    var remaining := ctx.Keys;
    RetainedAmongBounds(ctx);
    AddPaperNothing(nGramToPapers, paperId);
    while remaining != {}
      invariant remaining <= ctx.Keys
      invariant r == AddPaper(nGramToPapers, RetainedAmong(ctx, ctx.Keys - remaining), paperId)
      decreases |remaining|
    {
      var meme :| meme in remaining;
      var contexts := ctx[meme];
      var addMeme := |contexts| > 1 || Sentinel in contexts;
      AddRetainedStep(nGramToPapers, paperId, ctx, remaining, meme, r);
      if addMeme {
        r := AddToEntry(r, meme, paperId);
      }
      remaining := remaining - {meme};
    }
  }

  method AddMemes(nGramToPapers: map<string, set<string>>, paperId: string, collectedTokens: seq<seq<string>>)
    returns (r: map<string, set<string>>)
    ensures r == AddPaper(nGramToPapers, PaperMemes(collectedTokens), paperId)
  {
    var memeToFollowingWord := FollowingWords(collectedTokens);
    r := AddRetained(nGramToPapers, paperId, memeToFollowingWord);
  }

  // ---------------------------------------------------------------------
  // What add_memes keeps
  // ---------------------------------------------------------------------

  /** Window (j, i, w): width w (1 to MaxNGramSize) at position i of token list j. */
  predicate IsWindow(lists: seq<seq<string>>, j: int, i: int, w: int) {
    0 <= j < |lists| && 1 <= w <= MaxNGramSize && 0 <= i && i + w <= |lists[j]|
  }

  lemma {:induction false} ListWindowRecorded(tokens: seq<string>, n: nat, k: nat, i: nat)
    requires n >= 1 && k <= WindowCount(tokens, n) && i < k
    ensures WindowAt(tokens, i, n) in ListOccurrences(tokens, n, k)
  {
    if i < k - 1 {
      ListWindowRecorded(tokens, n, k - 1, i);
    }
    InEither(ListOccurrences(tokens, n, k - 1), [WindowAt(tokens, k - 1, n)], WindowAt(tokens, i, n));
  }

  lemma {:induction false} ListOccurrenceIsWindow(tokens: seq<string>, n: nat, k: nat, o: Occurrence) returns (i: nat)
    requires n >= 1 && k <= WindowCount(tokens, n) && o in ListOccurrences(tokens, n, k)
    ensures i < k && o == WindowAt(tokens, i, n)
  {
    InOneOf(ListOccurrences(tokens, n, k - 1), [WindowAt(tokens, k - 1, n)], o);
    if o in ListOccurrences(tokens, n, k - 1) {
      i := ListOccurrenceIsWindow(tokens, n, k - 1, o);
    } else {
      i := k - 1;
    }
  }

  lemma {:induction false} WidthWindowRecorded(lists: seq<seq<string>>, n: nat, l: nat, j: nat, i: nat)
    requires l <= |lists| && j < l && IsWindow(lists, j, i, n)
    ensures WindowAt(lists[j], i, n) in WidthOccurrences(lists, n, l)
  {
    if j < l - 1 {
      WidthWindowRecorded(lists, n, l - 1, j, i);
    } else {
      ListWindowRecorded(lists[l - 1], n, WindowCount(lists[l - 1], n), i);
    }
    InEither(WidthOccurrences(lists, n, l - 1), ListOccurrences(lists[l - 1], n, WindowCount(lists[l - 1], n)),
      WindowAt(lists[j], i, n));
  }

  lemma {:induction false} WidthOccurrenceIsWindow(lists: seq<seq<string>>, n: nat, l: nat, o: Occurrence)
    returns (j: nat, i: nat)
    requires 1 <= n <= MaxNGramSize && l <= |lists| && o in WidthOccurrences(lists, n, l)
    ensures j < l && IsWindow(lists, j, i, n) && o == WindowAt(lists[j], i, n)
  {
    InOneOf(WidthOccurrences(lists, n, l - 1), ListOccurrences(lists[l - 1], n, WindowCount(lists[l - 1], n)), o);
    if o in WidthOccurrences(lists, n, l - 1) {
      j, i := WidthOccurrenceIsWindow(lists, n, l - 1, o);
    } else {
      i := ListOccurrenceIsWindow(lists[l - 1], n, WindowCount(lists[l - 1], n), o);
      j := l - 1;
    }
  }

  /** An element of a concatenation is an element of one of its parts. */
  lemma InOneOf<T>(a: seq<T>, b: seq<T>, x: T)
    requires x in a + b
    ensures x in a || x in b
  {
  }

  /** An element of either part is an element of a concatenation. */
  lemma InEither<T>(a: seq<T>, b: seq<T>, x: T)
    requires x in a || x in b
    ensures x in a + b
  {
  }

  /** With MaxNGramSize = 5 the recorded occurrences are the windows of width 5, then 4, 3, 2 and 1. */
  lemma OccurrencesByWidth(lists: seq<seq<string>>, o: Occurrence)
    ensures o in Occurrences(lists) <==>
      (o in WidthOccurrences(lists, 5, |lists|) || o in WidthOccurrences(lists, 4, |lists|) ||
       o in WidthOccurrences(lists, 3, |lists|) || o in WidthOccurrences(lists, 2, |lists|) ||
       o in WidthOccurrences(lists, 1, |lists|))
  {
    var l := |lists|;
    var w5, w4, w3 := WidthOccurrences(lists, 5, l), WidthOccurrences(lists, 4, l), WidthOccurrences(lists, 3, l);
    var w2, w1 := WidthOccurrences(lists, 2, l), WidthOccurrences(lists, 1, l);
    assert [] + w5 == w5;
    assert OccurrencesAbove(lists, 4) == w5;
    assert OccurrencesAbove(lists, 3) == w5 + w4;
    assert OccurrencesAbove(lists, 2) == w5 + w4 + w3;
    assert OccurrencesAbove(lists, 1) == w5 + w4 + w3 + w2;
    assert Occurrences(lists) == w5 + w4 + w3 + w2 + w1;
    InFiveParts(w5, w4, w3, w2, w1, o);
  }

  /** An element of a five-part concatenation is an element of one of the parts, and conversely. */
  lemma InFiveParts<T>(a: seq<T>, b: seq<T>, c: seq<T>, d: seq<T>, e: seq<T>, x: T)
    ensures x in a + b + c + d + e <==> x in a || x in b || x in c || x in d || x in e
  {
  }

  /** Every recorded occurrence is a window of some width of some list. */
  lemma RecordedIsWindow(lists: seq<seq<string>>, o: Occurrence) returns (j: nat, i: nat, w: nat)
    requires o in Occurrences(lists)
    ensures IsWindow(lists, j, i, w) && o == WindowAt(lists[j], i, w)
  {
    var l := |lists|;
    OccurrencesByWidth(lists, o);
    w := if o in WidthOccurrences(lists, 5, l) then 5 else if o in WidthOccurrences(lists, 4, l) then 4
      else if o in WidthOccurrences(lists, 3, l) then 3 else if o in WidthOccurrences(lists, 2, l) then 2 else 1;
    j, i := WidthOccurrenceIsWindow(lists, w, l, o);
  }

  /** Every window of width 1 to MaxNGramSize of every list is recorded. */
  lemma WindowIsRecorded(lists: seq<seq<string>>, j: nat, i: nat, w: nat)
    requires IsWindow(lists, j, i, w)
    ensures WindowAt(lists[j], i, w) in Occurrences(lists)
  {
    WidthWindowRecorded(lists, w, |lists|, j, i);
    WidthInOccurrences(lists, w - 1, WindowAt(lists[j], i, w));
  }

  /** What is recorded at any width 1 to MaxNGramSize is among the recorded occurrences. */
  lemma WidthInOccurrences(lists: seq<seq<string>>, n: nat, o: Occurrence)
    requires n < MaxNGramSize && o in WidthOccurrences(lists, n + 1, |lists|)
    ensures o in Occurrences(lists)
  {
    InEither(OccurrencesAbove(lists, n + 1), WidthOccurrences(lists, n + 1, |lists|), o);
    AboveDown(lists, 0, n, o);
  }

  /** Going down the widths keeps what was already recorded. */
  lemma {:induction false} AboveDown(lists: seq<seq<string>>, n: nat, m: nat, o: Occurrence)
    requires n <= m <= MaxNGramSize && o in OccurrencesAbove(lists, m)
    ensures o in OccurrencesAbove(lists, n)
    decreases m - n
  {
    if n < m {
      AboveDown(lists, n + 1, m, o);
      InEither(OccurrencesAbove(lists, n + 1), WidthOccurrences(lists, n + 1, |lists|), o);
    }
  }

  /** The recorded occurrences are exactly the windows of every width and every list. */
  lemma OccurrencesSpec(lists: seq<seq<string>>, o: Occurrence)
    ensures o in Occurrences(lists) <==> exists j, i, w :: IsWindow(lists, j, i, w) && o == WindowAt(lists[j], i, w)
  {
    if o in Occurrences(lists) {
      var j, i, w := RecordedIsWindow(lists, o);
    }
    if exists j, i, w :: IsWindow(lists, j, i, w) && o == WindowAt(lists[j], i, w) {
      var j, i, w :| IsWindow(lists, j, i, w) && o == WindowAt(lists[j], i, w);
      WindowIsRecorded(lists, j, i, w);
    }
  }

  /** A meme has an entry once some occurrence spans it; its contexts are the followers recorded for it. */
  lemma {:induction false} RecordAllSpec(ctx: map<string, set<string>>, occs: seq<Occurrence>, m: string, c: string)
    ensures m in RecordAll(ctx, occs) <==> m in ctx || exists o :: o in occs && o.span == m
    ensures c in Docs(RecordAll(ctx, occs), m) <==> c in Docs(ctx, m) || Occurrence(m, c) in occs
    decreases |occs|
  {
    if occs != [] {
      var init := occs[..|occs| - 1];
      var last := occs[|occs| - 1];
      assert occs == init + [last];
      RecordAllSpec(ctx, init, m, c);
      if exists o :: o in occs && o.span == m {
        var o :| o in occs && o.span == m;
        if o != last {
          assert o in init;
        }
      }
    }
  }

  /** Two distinct elements make a set of more than one element. */
  lemma TwoElements<T>(a: set<T>, x: T, y: T)
    requires x in a && y in a && x != y
    ensures |a| > 1
  {
    assert {x, y} <= a;
    assert |{x, y}| == 2;
    SubsetCard({x, y}, a);
  }

  /** A set of more than one element has two distinct elements. */
  lemma TwoDistinct<T>(a: set<T>) returns (x: T, y: T)
    requires |a| > 1
    ensures x in a && y in a && x != y
  {
    x :| x in a;
    assert |a - {x}| == |a| - 1;
    y :| y in a - {x};
  }

  /** A span whose kept context shows variation: it ends a list or has two different followers. */
  ghost predicate VaryingOccurrences(occs: seq<Occurrence>, m: string) {
    Occurrence(m, Sentinel) in occs
    || exists c1, c2 :: c1 != c2 && Occurrence(m, c1) in occs && Occurrence(m, c2) in occs
  }

  /**
   * A span is kept for a paper exactly when one of its windows ends its
   * token list or two of its windows are followed by different tokens.
   */
  lemma PaperMemesSpec(lists: seq<seq<string>>, m: string)
    ensures m in PaperMemes(lists) <==> VaryingOccurrences(Occurrences(lists), m)
  {
    var occs := Occurrences(lists);
    if m in PaperMemes(lists) {
      KeptMemeVaries(occs, m);
    }
    if VaryingOccurrences(occs, m) {
      VaryingMemeKept(occs, m);
    }
  }

  lemma KeptMemeVaries(occs: seq<Occurrence>, m: string)
    requires m in Retained(ContextsOf(occs))
    ensures VaryingOccurrences(occs, m)
  {
    var ctx := ContextsOf(occs);
    if |ctx[m]| > 1 {
      var c1, c2 := TwoDistinct(ctx[m]);
      RecordAllSpec(map[], occs, m, c1);
      RecordAllSpec(map[], occs, m, c2);
    } else {
      RecordAllSpec(map[], occs, m, Sentinel);
    }
  }

  lemma VaryingMemeKept(occs: seq<Occurrence>, m: string)
    requires VaryingOccurrences(occs, m)
    ensures m in Retained(ContextsOf(occs))
  {
    var ctx := ContextsOf(occs);
    if Occurrence(m, Sentinel) in occs {
      RecordAllSpec(map[], occs, m, Sentinel);
    } else {
      var c1, c2 :| c1 != c2 && Occurrence(m, c1) in occs && Occurrence(m, c2) in occs;
      RecordAllSpec(map[], occs, m, c1);
      RecordAllSpec(map[], occs, m, c2);
      TwoElements(ctx[m], c1, c2);
    }
  }

  lemma SubsetCard<T>(a: set<T>, b: set<T>)
    requires a <= b
    ensures |a| <= |b|
  {
    assert b == a + (b - a);
  }

  /** Every kept meme is the joined text of some window. */
  lemma MemeIsWindow(lists: seq<seq<string>>, m: string)
    requires m in PaperMemes(lists)
    ensures exists j, i, w :: IsWindow(lists, j, i, w) && m == Join(lists[j][i..i + w], ' ')
  {
    PaperMemesSpec(lists, m);
    var c :| Occurrence(m, c) in Occurrences(lists);
    OccurrencesSpec(lists, Occurrence(m, c));
    var j, i, w :| IsWindow(lists, j, i, w) && Occurrence(m, c) == WindowAt(lists[j], i, w);
  }

  /** The last w tokens of a list (w at most MaxNGramSize) are always kept: they are followed by the sentinel. */
  lemma EndingSpanRetained(lists: seq<seq<string>>, j: nat, w: nat)
    requires j < |lists| && 1 <= w <= MaxNGramSize && w <= |lists[j]|
    ensures Join(lists[j][|lists[j]| - w..], ' ') in PaperMemes(lists)
  {
    var i := |lists[j]| - w;
    assert IsWindow(lists, j, i, w);
    var o := WindowAt(lists[j], i, w);
    assert lists[j][i..i + w] == lists[j][|lists[j]| - w..];
    OccurrencesSpec(lists, o);
    PaperMemesSpec(lists, o.span);
  }

  /** Two windows with the same text but different followers keep that text. */
  lemma VaryingFollowersRetained(lists: seq<seq<string>>, j1: nat, i1: nat, w1: nat, j2: nat, i2: nat, w2: nat)
    requires IsWindow(lists, j1, i1, w1) && IsWindow(lists, j2, i2, w2)
    requires WindowAt(lists[j1], i1, w1).span == WindowAt(lists[j2], i2, w2).span
    requires WindowAt(lists[j1], i1, w1).next != WindowAt(lists[j2], i2, w2).next
    ensures WindowAt(lists[j1], i1, w1).span in PaperMemes(lists)
  {
    var o1 := WindowAt(lists[j1], i1, w1);
    var o2 := WindowAt(lists[j2], i2, w2);
    OccurrencesSpec(lists, o1);
    OccurrencesSpec(lists, o2);
    PaperMemesSpec(lists, o1.span);
  }

  /**
   * A span none of whose windows ends its list, and all of whose windows
   * are followed by the same token, is dropped.
   */
  lemma SameFollowerDropped(lists: seq<seq<string>>, m: string, next: string)
    requires next != Sentinel
    requires forall j, i, w :: IsWindow(lists, j, i, w) && WindowAt(lists[j], i, w).span == m ==>
      WindowAt(lists[j], i, w).next == next
    ensures m !in PaperMemes(lists)
  {
    PaperMemesSpec(lists, m);
    forall c | Occurrence(m, c) in Occurrences(lists)
      ensures c == next
    {
      OccurrencesSpec(lists, Occurrence(m, c));
    }
  }

  /** Lemmatized token lists never contain the sentinel, so a span of them is kept only if it varies or ends a list. */
  lemma LemmatizedHasNoSentinel(text: string)
    ensures Sentinel !in Lemmatize(text)
  {
    if Sentinel in Lemmatize(text) {
      CleanTokenNotSentinel(Sentinel);
    }
  }

  /** A window that is the only one with its text and does not end its list is dropped. */
  lemma SingleOccurrenceDropped(lists: seq<seq<string>>, j: nat, i: nat, w: nat)
    requires IsWindow(lists, j, i, w) && i + w < |lists[j]| && lists[j][i + w] != Sentinel
    requires forall j', i', w' ::
      (IsWindow(lists, j', i', w') && WindowAt(lists[j'], i', w').span == WindowAt(lists[j], i, w).span)
      ==> j' == j && i' == i && w' == w
    ensures WindowAt(lists[j], i, w).span !in PaperMemes(lists)
  {
    SameFollowerDropped(lists, WindowAt(lists[j], i, w).span, lists[j][i + w]);
  }

  // ---------------------------------------------------------------------
  // get_paper_n_grams, add_paper_metadata, get_json_n_grams
  // ---------------------------------------------------------------------

  /** `'title' in paper['metadata'] and 'abstract' in paper`. */
  predicate HasText(p: Paper) {
    p.title.Some? && p.abstractText.Some?
  }

  /** The token lists get_paper_n_grams collects: title, abstract, introductions, method sections. */
  function NGramLists(p: Paper): seq<seq<string>>
    requires HasText(p)
  {
    [Lemmatize(p.title.value)] + [Lemmatize(p.abstractText.value)] + IntroTexts(p.body) + MethodTexts(p.body)
  }

  method GetPaperNGrams(paper: Paper, paperId: string, nGramToPapers: map<string, set<string>>)
    returns (r: map<string, set<string>>)
    requires HasText(paper)
    ensures r == AddPaper(nGramToPapers, PaperMemes(NGramLists(paper)), paperId)
  {
    var title := [Lemmatize(paper.title.value)];
    var abstract_ := [Lemmatize(paper.abstractText.value)];
    var intro := GetLemmatizedIntroTexts(paper.body);
    var method_ := GetLemmatizedMethodTexts(paper.body);
    var collectedTokens := title + abstract_ + intro + method_;
    r := AddMemes(nGramToPapers, paperId, collectedTokens);
  }

  /** A title of one to five tokens is itself a meme of its paper: it ends its token list. */
  lemma ShortTitleIsMeme(p: Paper)
    requires HasText(p)
    requires 1 <= |Lemmatize(p.title.value)| <= MaxNGramSize
    ensures Join(Lemmatize(p.title.value), ' ') in PaperMemes(NGramLists(p))
  {
    var lists := NGramLists(p);
    var t := Lemmatize(p.title.value);
    assert lists[0] == t;
    EndingSpanRetained(lists, 0, |t|);
    assert t[|t| - |t|..] == t;
  }

  /** The record add_paper_metadata stores for a paper. */
  function MetadataOf(p: Paper): PaperMetadata {
    PaperMetadata(CategoryList(p), p.year, CitedIds(p.bib))
  }

  method AddPaperMetadata(paper: Paper, paperId: string, paperToMetadata: map<string, PaperMetadata>)
    returns (r: map<string, PaperMetadata>)
    ensures r == paperToMetadata[paperId := MetadataOf(paper)]
  {
    var paperCategories: seq<string>;
    if paper.categories.None? {
      paperCategories := [];
    } else {
      paperCategories := Split(paper.categories.value, ' ');
    }
    var citedPapers := GetCitedPapers(paper.bib);
    r := paperToMetadata[paperId := PaperMetadata(paperCategories, paper.year, citedPapers)];
  }

  /** `paper_to_metadata` after get_json_n_grams has read the papers in order. */
  function MetadataAfter(papers: seq<Paper>, p2m: map<string, PaperMetadata>): map<string, PaperMetadata> {
    if papers == [] then p2m
    else
      var q := papers[|papers| - 1];
      var acc := MetadataAfter(papers[..|papers| - 1], p2m);
      if HasText(q) then acc[q.id := MetadataOf(q)] else acc
  }

  /** `n_gram_to_papers` after get_json_n_grams has read the papers in order. */
  function IndexAfter(papers: seq<Paper>, index: map<string, set<string>>): map<string, set<string>> {
    if papers == [] then index
    else
      var q := papers[|papers| - 1];
      var acc := IndexAfter(papers[..|papers| - 1], index);
      if HasText(q) then AddPaper(acc, PaperMemes(NGramLists(q)), q.id) else acc
  }

  method GetJsonNGrams(jsonData: seq<Paper>, paperToMetadata: map<string, PaperMetadata>, nGramToPapers: map<string, set<string>>)
    returns (p2m: map<string, PaperMetadata>, index: map<string, set<string>>)
    ensures p2m == MetadataAfter(jsonData, paperToMetadata)
    ensures index == IndexAfter(jsonData, nGramToPapers)
  {
    p2m := paperToMetadata;
    index := nGramToPapers;
    for k := 0 to |jsonData|
      invariant p2m == MetadataAfter(jsonData[..k], paperToMetadata)
      invariant index == IndexAfter(jsonData[..k], nGramToPapers)
    {
      var paper := jsonData[k];
      assert jsonData[..k + 1][..k] == jsonData[..k];
      if paper.title.None? || paper.abstractText.None? {
        continue;
      }
      var paperId := paper.id;
      p2m := AddPaperMetadata(paper, paperId, p2m);
      index := GetPaperNGrams(paper, paperId, index);
    }
    assert jsonData[..|jsonData|] == jsonData;
  }

  /** The metadata keys are the old keys plus the ids of the papers with a title and an abstract. */
  lemma {:induction false} MetadataAfterKeys(papers: seq<Paper>, p2m: map<string, PaperMetadata>, id: string)
    ensures id in MetadataAfter(papers, p2m) <==>
      id in p2m || exists k :: 0 <= k < |papers| && HasText(papers[k]) && papers[k].id == id
  {
    if papers != [] {
      var init := papers[..|papers| - 1];
      MetadataAfterKeys(init, p2m, id);
      if exists k :: 0 <= k < |papers| && HasText(papers[k]) && papers[k].id == id {
        var k :| 0 <= k < |papers| && HasText(papers[k]) && papers[k].id == id;
        if k < |papers| - 1 {
          assert init[k] == papers[k];
        }
      }
      if exists k :: 0 <= k < |init| && HasText(init[k]) && init[k].id == id {
        var k :| 0 <= k < |init| && HasText(init[k]) && init[k].id == id;
        assert papers[k] == init[k];
      }
    }
  }

  /**
   * The last paper with a title and an abstract under a given id decides
   * its metadata: a repeated id overwrites, and a paper without a
   * categories field is stored with no categories.
   */
  lemma {:induction false} MetadataLastWins(papers: seq<Paper>, p2m: map<string, PaperMetadata>, k: nat)
    requires k < |papers| && HasText(papers[k])
    requires forall j :: k < j < |papers| && HasText(papers[j]) ==> papers[j].id != papers[k].id
    ensures papers[k].id in MetadataAfter(papers, p2m)
    ensures MetadataAfter(papers, p2m)[papers[k].id] == MetadataOf(papers[k])
    ensures papers[k].categories.None? ==> MetadataAfter(papers, p2m)[papers[k].id].categories == []
  {
    var init := papers[..|papers| - 1];
    if k < |papers| - 1 {
      forall j | k < j < |init| && HasText(init[j])
        ensures init[j].id != init[k].id
      {
        assert init[j] == papers[j];
      }
      MetadataLastWins(init, p2m, k);
      assert init[k] == papers[k];
    }
  }

  /** An id no paper with a title and an abstract carries keeps its old metadata. */
  lemma {:induction false} MetadataUntouched(papers: seq<Paper>, p2m: map<string, PaperMetadata>, id: string)
    requires id in p2m
    requires forall k :: 0 <= k < |papers| && HasText(papers[k]) ==> papers[k].id != id
    ensures id in MetadataAfter(papers, p2m) && MetadataAfter(papers, p2m)[id] == p2m[id]
  {
    if papers != [] {
      var init := papers[..|papers| - 1];
      forall k | 0 <= k < |init| && HasText(init[k])
        ensures init[k].id != id
      {
        assert init[k] == papers[k];
      }
      MetadataUntouched(init, p2m, id);
    }
  }

  /** Paper k of the year has a title and an abstract, carries id d and keeps meme m. */
  ghost predicate Contributes(papers: seq<Paper>, k: int, m: string, d: string) {
    0 <= k < |papers| && HasText(papers[k]) && papers[k].id == d && m in PaperMemes(NGramLists(papers[k]))
  }

  lemma AddPaperDocs(index: map<string, set<string>>, memes: set<string>, pid: string, m: string, d: string)
    ensures d in Docs(AddPaper(index, memes, pid), m) <==> d in Docs(index, m) || (d == pid && m in memes)
  {
  }

  /** The index only grows: a document listed before stays listed. */
  lemma {:induction false} IndexAfterKeeps(papers: seq<Paper>, index: map<string, set<string>>, m: string, d: string)
    requires d in Docs(index, m)
    ensures d in Docs(IndexAfter(papers, index), m)
  {
    if papers != [] {
      var init := papers[..|papers| - 1];
      var q := papers[|papers| - 1];
      IndexAfterKeeps(init, index, m, d);
      if HasText(q) {
        AddPaperDocs(IndexAfter(init, index), PaperMemes(NGramLists(q)), q.id, m, d);
      }
    }
  }

  /** A paper with a title and an abstract is listed under every meme it keeps. */
  lemma {:induction false} IndexAfterAdds(papers: seq<Paper>, index: map<string, set<string>>, k: nat, m: string)
    requires k < |papers| && HasText(papers[k]) && m in PaperMemes(NGramLists(papers[k]))
    ensures papers[k].id in Docs(IndexAfter(papers, index), m)
  {
    var init := papers[..|papers| - 1];
    var q := papers[|papers| - 1];
    if k < |papers| - 1 {
      assert init[k] == papers[k];
      IndexAfterAdds(init, index, k, m);
    }
    if HasText(q) {
      AddPaperDocs(IndexAfter(init, index), PaperMemes(NGramLists(q)), q.id, m, papers[k].id);
    }
  }

  /** A document listed under a meme was listed before or comes from a paper that keeps the meme. */
  lemma {:induction false} IndexAfterSound(papers: seq<Paper>, index: map<string, set<string>>, m: string, d: string)
    requires d in Docs(IndexAfter(papers, index), m)
    ensures d in Docs(index, m) || exists k :: Contributes(papers, k, m, d)
  {
    if papers != [] {
      var init := papers[..|papers| - 1];
      var q := papers[|papers| - 1];
      if HasText(q) {
        AddPaperDocs(IndexAfter(init, index), PaperMemes(NGramLists(q)), q.id, m, d);
      }
      if d in Docs(IndexAfter(init, index), m) {
        IndexAfterSound(init, index, m, d);
        if d !in Docs(index, m) {
          var k :| Contributes(init, k, m, d);
          assert papers[k] == init[k];
          assert Contributes(papers, k, m, d);
        }
      } else {
        assert Contributes(papers, |papers| - 1, m, d);
      }
    }
  }
}
