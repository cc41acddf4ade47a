# Research trends: a verified model of the meme pipeline

This project models, in Dafny, the core of a research-trend analysis over arXiv papers.

## What is modelled

A "meme" is a span of one to five consecutive tokens of a paper's text. A span is kept when the tokens that follow it vary, or when it ends a token list. The pipeline has these stages.

- **n-gram extraction** (`save_paper_n_grams.py`).
  - Text is normalised: braced spans are removed, newlines replaced, capitals lowered, punctuation dropped, and the text split on spaces.
  - The title, the abstract, the introduction sections and the method sections become token lists.
  - Every window of width 5 down to 1 is recorded with its following token, or the sentinel `"N/A"` when it ends its list.
  - The paper's id is added under each retained span.
  - A metadata record (categories, release year, cited arXiv ids) is stored per paper id.
- **The older variant** (`compute_meme_scores_4.py`).
  - It normalises text without brace removal and keeps empty tokens.
  - Title and abstract each get their own context sets.
  - It collects unseen cited publications and their memes.
  - It tallies five counters per meme and key: a release year or `'overall'`.
  - It then scores each meme as `frequency_score * sticking / sparking` with smoothing constant 3.
- **Index building** (`combine_meme_files.py`, `compute_idf_scores.py`).
  - Per-year meme indexes are merged by union.
  - Per-year metadata maps are merged so that the last year wins.
  - Every meme gets the IDF argument `num_articles / (len(docs) + 1)`.
- **Cumulative scores** (`filter_most_frequent_n_grams.py`, `compute_meme_scores.py`).
  - A discipline-matching paper released in year y is counted under every year from y through 2022.
  - `compute_meme_scores.py` also keeps a weighted twin of every counter, where the paper weighs `(y - 1991 + 1) / (curr_year - 1991 + 1)`.
  - The scores use smoothing constant 3 (filter) or 1 (compute_meme_scores).
  - The filter also selects a year's 10000 most common memes.
- **Section names** (`save_section_names.py`): every paper gets its categories and the set of its (section name, section number) pairs.
- **The citation table** (`analysis/statistics/stats_table.py`): the fold inside `preprocess_data` over a sequence of papers.
  - `Stats.totalNbPaper`, `countDoc` and `countDocSubject` are `total_nb_paper`, `count_doc` and `count_doc_subject`.
  - `Stats.disciplines` holds `count_nb_references`, `doc_cited` and `count_doc_cited`.
  - `Stats.subjects` holds their `_subject` counterparts.

### How the Dafny is organised

Modules follow the scripts:

| module | models |
|---|---|
| `Text` | the string helpers |
| `Corpus` | the paper records |
| `PaperNGrams` | `save_paper_n_grams.py` |
| `Memes4` | `compute_meme_scores_4.py` |
| `Aggregation` | the five counters and the smoothing-3 score |
| `Combine` | `combine_meme_files.py` |
| `Idf` | `compute_idf_scores.py` |
| `Cumulative` | the year-range tally shared by the last two scripts |
| `FilterFrequent` | `filter_most_frequent_n_grams.py` |
| `MemeScores` | `compute_meme_scores.py` |
| `SectionNames` | `save_section_names.py` |
| `StatsTable` | `stats_table.py` |

Each loop of the source is a method with a `while` or `for` loop. Its `ensures` ties the result to a specification function: a fold over the input, or a closed form such as "the counters of the matching papers released by then". Lemmas then state what the script promises about that function.

A dictionary that a Python function updates in place is passed in as a `map` value, and the updated map is returned.

## Model

| member | source | states |
|---|---|---|
| Text.LowerChar | research_trends/save_paper_n_grams.py:77 | `lower()` on one ASCII character: the result is never a capital, and a non-capital is left alone |
| Text.Lower | research_trends/save_paper_n_grams.py:77 | `lower()` keeps the length and replaces each character, in place, by its lower-case form, so no capital letter is left |
| Text.NewlineToSpace | research_trends/save_paper_n_grams.py:53 | `replace('\n', ' ')` on one character: the result is never a newline, and any other character is left alone |
| Text.ReplaceNewlines | research_trends/save_paper_n_grams.py:53 | `replace('\n', ' ')` keeps the length, puts a space where each newline was and keeps every other character in its place, so no newline is left |
| Text.StripPunctuation | research_trends/save_paper_n_grams.py:79 | deleting `string.punctuation` never lengthens the text; a character is left exactly when it is an input character that is not punctuation |
| Text.StripPunctuationConcat | research_trends/save_paper_n_grams.py:79 | the deletion works piece by piece over a concatenation, so the kept characters stay in their input order |
| Text.Split | research_trends/save_paper_n_grams.py:80 | `split(' ')` gives at least one piece; no piece holds the separator; every character of a piece comes from the input |
| Text.SplitJoin | research_trends/save_paper_n_grams.py:80 | joining the pieces of a split with the same separator gives back the input, so no character is lost |
| Text.NonEmpty | research_trends/save_paper_n_grams.py:81 | the list comprehension drops exactly the empty tokens: every kept token is non-empty and from the input, and every non-empty input token is kept |
| Text.LowerIdentity | research_trends/save_paper_n_grams.py:52 | lowering text that has no capital changes nothing |
| Text.ReplaceNewlinesIdentity | research_trends/save_paper_n_grams.py:53 | replacing newlines in text with no newline changes nothing |
| Text.Join | research_trends/save_paper_n_grams.py:196 | definition: `sep.join(parts)`, the parts with one separator between neighbours and none at the ends; `Text.SplitJoin` is its partner |
| Text.Contains | research_trends/save_paper_n_grams.py:124 | definition: Python's `sub in s`, true when `sub` occurs at some offset of `s`, and always for the empty `sub`; used for the section-name tests of lines 124 and 151 |
| Corpus.CategoryList | research_trends/save_paper_n_grams.py:57-60 | a missing `categories` field, and only a missing one, gives `[]`; otherwise the pieces of `split(' ')`, none containing a space |
| PaperNGrams.StripFrom | research_trends/save_paper_n_grams.py:89-101 | the depth-counting scan keeps only input characters and never a brace |
| PaperNGrams.RemoveBracketedSections | research_trends/save_paper_n_grams.py:85-103 | the loop with its depth counter and accumulator computes exactly the scan started at depth 0 |
| PaperNGrams.StripFromIsSubsequence | research_trends/save_paper_n_grams.py:89-101 | the scan's output is an in-order subsequence of its input |
| PaperNGrams.StripFromBraceFree | research_trends/save_paper_n_grams.py:97-101 | brace-free text read at a non-positive depth is copied whole, ahead of whatever the rest yields |
| PaperNGrams.UnbracketedProperties | research_trends/save_paper_n_grams.py:85-103 | bracket removal leaves no brace, keeps the other characters in order, returns brace-free input unchanged, and is idempotent |
| PaperNGrams.StrayCloseBraceKeepsGroup | research_trends/save_paper_n_grams.py:92-97 | after a stray `}` the depth is -1, so the text of a following `{...}` is kept: `"}{" + t + "}"` gives `t` |
| PaperNGrams.ProcessTextBasic | research_trends/save_paper_n_grams.py:51-54 | `process_text_basic` keeps the length and leaves no newline and no capital |
| PaperNGrams.ProcessTextBasicIdempotent | research_trends/save_paper_n_grams.py:51-54 | applying `process_text_basic` twice is the same as applying it once |
| PaperNGrams.Lemmatize | research_trends/save_paper_n_grams.py:75-83 | every token of `get_lemmatized_text` is non-empty and has no space, newline, ASCII punctuation or capital |
| PaperNGrams.CleanTokenNotSentinel | research_trends/save_paper_n_grams.py:81 | no such token equals the end-of-list sentinel `"N/A"` |
| PaperNGrams.LemmatizedHasNoSentinel | research_trends/save_paper_n_grams.py:201-204 | a lemmatized token list never contains `"N/A"`, so the sentinel in a context set can only come from a span that ends its list |
| PaperNGrams.ArxivIdOf | research_trends/save_paper_n_grams.py:38-47 | one bibliography entry contributes at most one id |
| PaperNGrams.CitedIds | research_trends/save_paper_n_grams.py:34-49 | there are at most as many cited ids as entries, and none is empty |
| PaperNGrams.CitedIdsMembership | research_trends/save_paper_n_grams.py:37-47 | an id is cited exactly when some entry has `ids` with a non-empty `arxiv_id` equal to it |
| PaperNGrams.CitedIdsConcat | research_trends/save_paper_n_grams.py:37-47 | extraction distributes over concatenation, so the entries' order is kept |
| PaperNGrams.GetCitedPapers | research_trends/save_paper_n_grams.py:34-49 | the loop with its three `continue`s returns exactly the cited ids |
| PaperNGrams.IntroTexts | research_trends/save_paper_n_grams.py:117-127 | there are at most as many introduction texts as sections |
| PaperNGrams.GetLemmatizedIntroTexts | research_trends/save_paper_n_grams.py:117-127 | the loop returns the token lists of the introduction sections, in body order |
| PaperNGrams.CollectIntro | research_trends/save_paper_n_grams.py:119-125 | one section: a `None`, empty or one-space name adds nothing; otherwise the section's tokens are appended exactly when its processed name contains "introduction" |
| PaperNGrams.IntroSectionCollected | research_trends/save_paper_n_grams.py:119-125 | every non-blank section whose processed name contains "introduction" contributes its token list |
| PaperNGrams.IntroTextFromSection | research_trends/save_paper_n_grams.py:119-125 | every introduction text comes from such a section |
| PaperNGrams.MatchCount | research_trends/save_paper_n_grams.py:150-151 | a section name matches at most as many substrings as there are |
| PaperNGrams.AppendPerMatch | research_trends/save_paper_n_grams.py:150-152 | the inner loop appends one copy of the section's tokens per matching substring |
| PaperNGrams.GetLemmatizedMethodTexts | research_trends/save_paper_n_grams.py:143-154 | the loop returns, section by section, as many copies as matching substrings, skipping blank names |
| PaperNGrams.MethodTextsSpec | research_trends/save_paper_n_grams.py:143-154 | every method text comes from a non-blank section matching "method", "model" or "approach"; there are at most three per section |
| PaperNGrams.TwoMatchesAppendedTwice | research_trends/save_paper_n_grams.py:150-152 | a section whose name contains "model" and "approach" but not "method" is appended twice |
| PaperNGrams.BeforeDot | research_trends/save_paper_n_grams.py:139 | `split(".")[:1][0]` is a prefix with no dot, and ends at the first dot when it is shorter than the number |
| PaperNGrams.SplitPrefix | research_trends/save_paper_n_grams.py:139 | the first piece of a split is the text before the first separator |
| PaperNGrams.GetSectionNumber | research_trends/save_paper_n_grams.py:129-141 | `None` exactly when no section has a non-blank name containing the substring and a non-blank number; otherwise the part before the first dot of the first such section's number |
| PaperNGrams.RecordWindows | research_trends/save_paper_n_grams.py:194-204 | the innermost loop records the windows of width n of one list, in order, each with its following token or `"N/A"` |
| PaperNGrams.RecordWidth | research_trends/save_paper_n_grams.py:193-204 | the middle loop records the width-n windows of every list, in order |
| PaperNGrams.FollowingWords | research_trends/save_paper_n_grams.py:191-204 | the first phase builds the context sets of every window, widest first |
| PaperNGrams.OccurrencesSpec | research_trends/save_paper_n_grams.py:192-196 | the recorded occurrences are exactly the windows of width 1 to 5 inside one token list; none spans two lists |
| PaperNGrams.RecordedIsWindow | research_trends/save_paper_n_grams.py:192-196 | every recorded occurrence is the window of some width 1 to 5 at some position of some list (with that witness) |
| PaperNGrams.WindowIsRecorded | research_trends/save_paper_n_grams.py:192-196 | every window of width 1 to 5 of every list is recorded |
| PaperNGrams.RecordAllSpec | research_trends/save_paper_n_grams.py:199-204 | a span has a context set once some window has that text, and its contexts are the followers recorded for it |
| PaperNGrams.AddToEntry | research_trends/save_paper_n_grams.py:210-212 | creating the entry if needed and then adding is one insertion into the entry |
| PaperNGrams.AddRetained | research_trends/save_paper_n_grams.py:207-212 | the second phase adds the paper to the set of each span whose contexts vary, and to no other |
| PaperNGrams.AddMemes | research_trends/save_paper_n_grams.py:190-212 | `add_memes` adds the paper id under exactly the retained spans of its token lists |
| PaperNGrams.AddPaperSpec | research_trends/save_paper_n_grams.py:209-212 | the new keys are the retained spans; no document is removed; the only document added is the paper's id, and only under retained spans |
| PaperNGrams.PaperMemesSpec | research_trends/save_paper_n_grams.py:206-208 | a span is retained exactly when one of its windows ends its list or two of them have different followers |
| PaperNGrams.MemeIsWindow | research_trends/save_paper_n_grams.py:194-196 | every retained meme is the joined text of 1 to 5 consecutive tokens of one list |
| PaperNGrams.EndingSpanRetained | research_trends/save_paper_n_grams.py:201-208 | the last w tokens of a list (w at most 5) are always retained |
| PaperNGrams.VaryingFollowersRetained | research_trends/save_paper_n_grams.py:199-208 | two windows with the same text and different followers retain that text, even across lists |
| PaperNGrams.SameFollowerDropped | research_trends/save_paper_n_grams.py:199-208 | a span none of whose windows ends its list, all followed by the same token, is dropped |
| PaperNGrams.SingleOccurrenceDropped | research_trends/save_paper_n_grams.py:199-208 | a span occurring once, not at the end of its list, is dropped |
| PaperNGrams.GetPaperNGrams | research_trends/save_paper_n_grams.py:106-115 | the paper's id goes under the retained memes of its title, abstract, introduction and method lists, whose contexts are shared |
| PaperNGrams.ShortTitleIsMeme | research_trends/save_paper_n_grams.py:108-115 | a title of one to five tokens is itself a meme of its paper |
| PaperNGrams.AddPaperMetadata | research_trends/save_paper_n_grams.py:56-73 | the paper's id now maps to its categories, release year and cited ids; other entries are unchanged |
| PaperNGrams.GetJsonNGrams | research_trends/save_paper_n_grams.py:214-221 | the loop computes the metadata map and the index after each paper with a title and an abstract, in order |
| PaperNGrams.MetadataAfterKeys | research_trends/save_paper_n_grams.py:216-220 | an id has metadata afterwards exactly when it had it before or some paper with a title and an abstract carries it; the category field is not filtered |
| PaperNGrams.MetadataLastWins | research_trends/save_paper_n_grams.py:216-220 | the last such paper with an id decides its record, and a missing category field is stored as `[]` |
| PaperNGrams.MetadataUntouched | research_trends/save_paper_n_grams.py:216-220 | an id that no such paper carries keeps its old record |
| PaperNGrams.IndexAfterKeeps | research_trends/save_paper_n_grams.py:216-221 | a document already listed stays listed |
| PaperNGrams.IndexAfterAdds | research_trends/save_paper_n_grams.py:216-221 | a paper with a title and an abstract is listed under every meme it retains |
| PaperNGrams.IndexAfterSound | research_trends/save_paper_n_grams.py:216-221 | a listed document was listed before or comes from a paper that retains the meme |
| Memes4.CleanText | research_trends/compute_meme_scores_4.py:59-63 | the normalised text has no newline, punctuation or capital |
| Memes4.ProcessText | research_trends/compute_meme_scores_4.py:59-64 | `process_text` gives at least one token, and no token holds a space, newline, punctuation or capital |
| Memes4.ProcessTextJoin | research_trends/compute_meme_scores_4.py:59-64 | the tokens joined by spaces give back the normalised text |
| Memes4.ProcessTextKeepsEmpty | research_trends/compute_meme_scores_4.py:64 | two adjacent spaces yield an empty token, which is kept |
| Memes4.BracedTokenKept | research_trends/compute_meme_scores_4.py:59-64 | a clean token in braces survives `process_text`, while `get_lemmatized_text` removes the whole span |
| Memes4.BracedSpanRemoved | research_trends/save_paper_n_grams.py:85-103 | one brace-free group at depth 0 is removed entirely |
| Memes4.AddMemes4 | research_trends/compute_meme_scores_4.py:66-87 | the older `add_memes` adds the paper id under the retained spans of one token list, with context sets of that list only |
| Memes4.ExtractPaperMemes | research_trends/compute_meme_scores_4.py:49-57 | fails (the `KeyError` of lines 53 and 56) exactly when the title or the abstract is missing; otherwise the paper goes under the memes of its title and of its abstract, computed with separate context sets |
| Memes4.AddPaperTwice | research_trends/compute_meme_scores_4.py:53-57 | two `add_memes` calls for one paper add it under the union of their memes |
| Memes4.GetMemesInJson | research_trends/compute_meme_scores_4.py:32-47 | the index after every paper that has categories, one of them valid, a title and an abstract |
| Memes4.GetUnseenMemesInJson | research_trends/compute_meme_scores_4.py:213-221 | with no title or abstract guard, fails exactly when some paper whose id is in the unseen set lacks either; otherwise the index after every such paper |
| Memes4.CollectedAdds | research_trends/compute_meme_scores_4.py:32-47 | a selected paper is listed under every meme of its title and abstract |
| Memes4.CollectedKeeps | research_trends/compute_meme_scores_4.py:32-47 | a document already listed stays listed |
| Memes4.CollectedSound | research_trends/compute_meme_scores_4.py:32-47 | a listed document was listed before or comes from a selected paper with that meme |
| Memes4.AddPubs | research_trends/compute_meme_scores_4.py:116-117 | the inner loop adds a meme's publications to the accumulated set |
| Memes4.GetAllPubs | research_trends/compute_meme_scores_4.py:113-118 | `get_all_pubs` is the union of every meme's publication set |
| Memes4.CollectCitations | research_trends/compute_meme_scores_4.py:171-185 | the loop collects the cited ids and adds those not among the known publications to the unseen set |
| Memes4.GetUnseenPubsInJson | research_trends/compute_meme_scores_4.py:146-187 | the unseen set and the citation records after every eligible paper, in order |
| Memes4.UnseenAfterGains | research_trends/compute_meme_scores_4.py:184-185 | every unknown id cited by an eligible paper becomes unseen |
| Memes4.UnseenAfterKeeps | research_trends/compute_meme_scores_4.py:184-185 | ids already unseen stay unseen |
| Memes4.UnseenAfterSound | research_trends/compute_meme_scores_4.py:173-185 | nothing else becomes unseen |
| Memes4.UnseenIds | research_trends/compute_meme_scores_4.py:173-185 | from an empty start, every unseen id is non-empty, unknown, and cited by an eligible paper |
| Memes4.CitationsLastWins | research_trends/compute_meme_scores_4.py:161-187 | the last eligible paper with an id decides its record |
| Memes4.IsMemeInCitations4 | research_trends/compute_meme_scores_4.py:301-307 | true exactly when some cited id is listed under the meme in either index; false for no citations |
| Memes4.TallyKey | research_trends/compute_meme_scores_4.py:246-268 | one key's counters are created fresh if missing and then tallied by the four-way case split |
| Memes4.TallyPublication | research_trends/compute_meme_scores_4.py:237-268 | one publication tallies the meme under its year and under `'overall'`; all other entries stay |
| Memes4.TallyMeme | research_trends/compute_meme_scores_4.py:236-268 | a meme's entry under a key exists exactly when some of its publications fall under the key, and holds the counters of those publications; other memes are untouched |
| Memes4.TallyAll | research_trends/compute_meme_scores_4.py:235-268 | the first loop gives every meme under every key that one of its publications falls under, with those publications' counters |
| Memes4.InitialNumPapers | research_trends/compute_meme_scores_4.py:231-232 | the keys are the given years and `'overall'`, all at 0 |
| Memes4.CountPublication | research_trends/compute_meme_scores_4.py:273-276 | one more paper under the publication's year and under `'overall'` |
| Memes4.CountPapers | research_trends/compute_meme_scores_4.py:271-276 | every key counts its number of publications; the key set is unchanged |
| Memes4.ScoreAll | research_trends/compute_meme_scores_4.py:279-289 | every entry gets the smoothed score of its counters and its key's paper count |
| Memes4.TalliedKeyCounted | research_trends/compute_meme_scores_4.py:245-276 | a meme is only tallied under a known key, whose paper count is at least the meme's count there |
| Memes4.AllPubsDated | research_trends/compute_meme_scores_4.py:271-275 | every gathered publication has a release year among the given years |
| Memes4.ComputeMemeScores | research_trends/compute_meme_scores_4.py:223-289 | the paper count of every key; each meme's counters are those of its papers under the key, with 0 < frequency <= paper count; its score is the frequency score times ipic/(ipic+3) and lies in [0, 1) |
| Memes4.CountsByYear | research_trends/compute_meme_scores_4.py:245 | over distinct years, the counters of the publications in those years are the sum of the per-year counters |
| Memes4.YearCountFrequency | research_trends/compute_meme_scores_4.py:245 | the per-year paper counts add up to the frequency component |
| Memes4.OverallIsYearSum | research_trends/compute_meme_scores_4.py:245-268 | a meme's `'overall'` counters are the sum of its per-year counters |
| Memes4.OverallPaperCount | research_trends/compute_meme_scores_4.py:271-276 | the `'overall'` paper count is the number of publications and the sum of the per-year counts |
| Aggregation.Bump | research_trends/compute_meme_scores_4.py:256-263 | a paper containing the meme adds 1 to `frequency` |
| Aggregation.Tally | research_trends/compute_meme_scores_4.py:256-268 | with the meme in the paper, the four-way split is a bump |
| Aggregation.IsMemeInPaper | research_trends/compute_meme_scores.py:34-37 | definition of `is_meme_in_paper` (the same at filter_most_frequent_n_grams.py:35-38): false for a meme not in the index, else whether the paper is listed under it |
| Aggregation.TallyBalance | research_trends/compute_meme_scores_4.py:256-268 | tallying keeps `in_citations == in_paper_in_citations`, `not_in_citations == in_paper_not_in_citations` and `frequency == ipic + ipnic` exactly when the meme is in the paper |
| Aggregation.CountsOf | research_trends/compute_meme_scores_4.py:256-263 | the counters of a set of papers containing the meme are balanced and non-negative |
| Aggregation.CountsAdd | research_trends/compute_meme_scores_4.py:256-263 | bumping for one more paper gives the counters of the larger set |
| Aggregation.CountsOfUnion | research_trends/compute_meme_scores_4.py:245-263 | the counters of two disjoint sets of papers add up |
| Aggregation.CountsOfSubset | research_trends/filter_most_frequent_n_grams.py:73-90 | more papers never lower a counter |
| Aggregation.IsMemeInCitations | research_trends/filter_most_frequent_n_grams.py:40-44 | true exactly when some cited id is in the meme's set of the one index consulted; false for no citations |
| Aggregation.FrequencyScore | research_trends/compute_meme_scores_4.py:285 | definition: `frequency / num_papers` as an exact rational (also filter_most_frequent_n_grams.py:100); its range is in `Aggregation.MemeScore3Balanced` |
| Aggregation.StickingScore3 | research_trends/compute_meme_scores_4.py:286 | definition: `in_paper_in_citations / (in_citations + 3)` (also filter_most_frequent_n_grams.py:104) |
| Aggregation.SparkingScore3 | research_trends/compute_meme_scores_4.py:287 | definition: `(in_paper_not_in_citations + 3) / (not_in_citations + 3)` (also filter_most_frequent_n_grams.py:109) |
| Aggregation.MemeScore3 | research_trends/compute_meme_scores_4.py:288 | definition: `frequency_score * sticking_score / sparking_score` with constant 3, over exact rationals (also filter_most_frequent_n_grams.py:112) |
| Aggregation.MemeScore3Balanced | research_trends/compute_meme_scores_4.py:285-288 | for balanced counters with 0 < frequency <= papers: sparking is 1, 0 <= sticking < 1, the score is the frequency score times ipic/(ipic+3), and it lies in [0, 1) |
| Memes4.SplitWithoutSeparator | research_trends/compute_meme_scores_4.py:64 | text with no space splits into itself |
| Memes4.StripPunctuationIdentity | research_trends/compute_meme_scores_4.py:63 | text with no punctuation is left as it is |
| Memes4.PubsAtMono | research_trends/compute_meme_scores_4.py:245-268 | more publications never give fewer under a key |
| Memes4.PubsInSplit | research_trends/compute_meme_scores_4.py:245 | over distinct years, the publications of the first year and of the rest are disjoint and together are all of them |
| PaperNGrams.RecordAllConcat | research_trends/save_paper_n_grams.py:191-204 | recording two runs of occurrences one after the other is recording their concatenation, so context sets are shared across the paper's lists |
| PaperNGrams.KeptMemeVaries | research_trends/save_paper_n_grams.py:206-208 | a retained span has an occurrence ending its list or two occurrences with different followers |
| PaperNGrams.VaryingMemeKept | research_trends/save_paper_n_grams.py:206-208 | and conversely such a span is retained |
| PaperNGrams.AddPaperDocs | research_trends/save_paper_n_grams.py:209-212 | after adding a paper, a document is listed under a meme exactly when it was before, or it is the paper and the meme is retained |
| Combine.MergedOver | research_trends/combine_meme_files.py:31-35 | a meme is in the running index after merging some keys exactly when it was there before or is one of those keys |
| Combine.Union | research_trends/combine_meme_files.py:31-35 | the merged index has the memes of both sides |
| Combine.AddDocs | research_trends/combine_meme_files.py:34-36 | the innermost loop adds every document to the meme's set and to `all_paper_ids` |
| Combine.MergeMeme | research_trends/combine_meme_files.py:32-36 | a meme gets an empty set when new, then its year's documents; the ids gain those documents |
| Combine.MergeYear | research_trends/combine_meme_files.py:31-36 | merging one year gives the union with the year's index, and the ids gain all the year's documents |
| Combine.MergedOverNothing | research_trends/combine_meme_files.py:31-35 | merging no memes leaves the index unchanged |
| Combine.MergedOverInsert | research_trends/combine_meme_files.py:31-35 | merging one more meme sets its documents to the union of the old and the year's |
| Combine.MergeYearStep | research_trends/combine_meme_files.py:32-35 | one step of the loop over a year's memes extends the partial merge by that meme |
| Combine.MergeYearIds | research_trends/combine_meme_files.py:34-36 | one step of that loop extends the collected ids by that meme's documents |
| Combine.GetCombinedNGrams | research_trends/combine_meme_files.py:20-38 | the loop over years gives the in-order merge of every year, and `all_paper_ids` holds every document of every year. The source returns only `meme_to_articles` (line 37) and discards `all_paper_ids`; the model returns both because compute_idf_scores.py:20-36 repeats this loop inline and uses the ids |
| Combine.CombinedKeeps | research_trends/combine_meme_files.py:31-35 | every meme of every year is in the merged index, even with no documents, and keeps all its documents |
| Combine.CombinedSound | research_trends/combine_meme_files.py:31-35 | every meme and every document of the merged index comes from some year |
| Combine.CombinedGrows | research_trends/combine_meme_files.py:26-35 | merging later years never loses a meme or a document |
| Combine.CombinedOrderFree | research_trends/combine_meme_files.py:20-38 | the merged index depends only on which years are merged, not on their order or repeats |
| Combine.IndexesEqual | research_trends/combine_meme_files.py:31-35 | two indexes each containing the other are equal |
| Combine.CombinedIncludedAll | research_trends/combine_meme_files.py:31-35 | merging more years gives a larger index, meme by meme |
| Combine.CombinedIncluded | research_trends/combine_meme_files.py:31-35 | the same, for one meme |
| Combine.DocsUnderUnion | research_trends/combine_meme_files.py:34-36 | the documents of a union are those of its two sides |
| Combine.AllDocsOfCombined | research_trends/combine_meme_files.py:24-36 | `all_paper_ids` is exactly the set of documents of the merged index |
| Combine.MergeMetadataYear | research_trends/combine_meme_files.py:50-51 | one year's metadata overrides the running map |
| Combine.MergeMetadataStart | research_trends/combine_meme_files.py:50-51 | before the loop over papers no record has been copied |
| Combine.MergeMetadataEnd | research_trends/combine_meme_files.py:50-51 | after it every record of the year has been copied |
| Combine.MergeMetadataStep | research_trends/combine_meme_files.py:50-51 | each step copies one more record |
| Combine.GetCombinedMetadata | research_trends/combine_meme_files.py:40-53 | the loop gives the in-order merge of every year's metadata |
| Combine.MergedMetadataKeys | research_trends/combine_meme_files.py:40-53 | a paper has metadata exactly when some year has it |
| Combine.MergedMetadataLastWins | research_trends/combine_meme_files.py:45-51 | the last year holding a paper decides its record |
| Idf.IdfArgument | research_trends/compute_idf_scores.py:42-43 | definition: `num_articles / (len(containing_docs) + 1)`, the argument of `log10`, as an exact rational |
| Idf.IdfArgumentBounds | research_trends/compute_idf_scores.py:42-44 | `num_articles / (len(docs) + 1)` is non-negative, at most the number of articles, and shrinks as the documents grow |
| Idf.ComputeIdfArguments | research_trends/compute_idf_scores.py:41-44 | every meme gets `num_articles / (len(docs) + 1)`, and only the memes of the index |
| Idf.ComputeIdfScores | research_trends/compute_idf_scores.py:20-44 | the merged index, `all_paper_ids` as all its documents, and the ratio of every merged meme against their number |
| Idf.MemeDocsBounded | research_trends/compute_idf_scores.py:34-39 | no meme has more documents than `all_paper_ids` |
| Idf.IdfArgumentRange | research_trends/compute_idf_scores.py:39-43 | every ratio lies between n/(n+1) and n for n articles |
| Idf.IdfArgumentPositive | research_trends/compute_idf_scores.py:39-43 | a ratio is positive, so its logarithm is defined, exactly when the merged index has a document |
| Cumulative.Weight | research_trends/compute_meme_scores.py:31 | `(year - 1991 + 1) / (curr_year - 1991 + 1)` lies in (0, 1], and is 1 in the paper's own year |
| Cumulative.Matching | research_trends/compute_meme_scores.py:51-57 | the discipline filter keeps a subset of the papers |
| Cumulative.Reached | research_trends/compute_meme_scores.py:68 | the papers counted under a year are a subset |
| Cumulative.Citing | research_trends/compute_meme_scores.py:63-66 | the papers citing the meme are a subset |
| Cumulative.ReachedAdd | research_trends/compute_meme_scores.py:68 | one more paper is counted under a year exactly when released by then |
| Cumulative.ReachedCard | research_trends/compute_meme_scores.py:68 | the same, on counts |
| Cumulative.OfYearCard | research_trends/compute_meme_scores.py:62 | one more paper adds 1 to the count of its own year only |
| Cumulative.WeightSumAdd | research_trends/compute_meme_scores.py:83-85 | one more paper adds its weight to every weighted sum reaching its year |
| Cumulative.WeightedAdd | research_trends/compute_meme_scores.py:83-85 | one more paper adds its weight under every year from its release |
| Cumulative.WeightedBounds | research_trends/compute_meme_scores.py:83-85 | a weighted count lies between 0 and the plain count, and is positive exactly when the plain count is |
| Cumulative.WeightSumEmpty | research_trends/compute_meme_scores.py:83-85 | no papers, no weight |
| Cumulative.WeightSumOutside | research_trends/compute_meme_scores.py:83-85 | a paper without metadata or released later adds nothing |
| Cumulative.WeightedOutside | research_trends/compute_meme_scores.py:83-85 | the same for the weighted count |
| Cumulative.ReachedMono | research_trends/compute_meme_scores.py:68 | a later year counts at least the papers of an earlier one |
| Cumulative.WeightedBump | research_trends/compute_meme_scores.py:83-95 | one paper adds `year_weight` to `weighted_frequency` |
| Cumulative.WeightedCountsAdd | research_trends/compute_meme_scores.py:83-95 | one more paper released by the year adds its weight to the weighted counters, on the side its citations decide |
| Cumulative.WeightedCountsSkip | research_trends/compute_meme_scores.py:68 | a paper released after the year changes nothing |
| Cumulative.TermsAtAdd | research_trends/compute_meme_scores.py:83-95 | one more paper bumps the plain and the weighted counters of every year it reaches |
| Cumulative.TermsAtSkip | research_trends/compute_meme_scores.py:68 | a paper released later leaves a year's entry alone |
| Cumulative.WeightedCountsNone | research_trends/compute_meme_scores.py:69-81 | no paper reaching the year gives the fresh weighted counters |
| Cumulative.TermsAtNone | research_trends/compute_meme_scores.py:69-81 | and the fresh entry |
| Cumulative.TermsBumpFrom | research_trends/compute_meme_scores.py:69-95 | bumping the current-or-fresh entry by a paper gives the entry of the papers with it |
| Cumulative.TallyYears | research_trends/compute_meme_scores.py:68-95 | every year from the paper's through 2022 is created if missing and bumped by the paper's weight; other years stay |
| Cumulative.TallyYearsStep | research_trends/compute_meme_scores.py:68-95 | after one paper the entry holds, for every year, the counters of the papers seen so far |
| Cumulative.MemeEntry | research_trends/compute_meme_scores.py:58-81 | a year has an entry exactly when some matching paper reaches it, through 2022 |
| Cumulative.EntryEqual | research_trends/compute_meme_scores.py:58-81 | an entry with those years and counters is the closed form |
| Cumulative.MatchingStep | research_trends/compute_meme_scores.py:53-57 | one more paper is kept by the filter exactly when it matches |
| Cumulative.TallyMemeTerms | research_trends/compute_meme_scores.py:51-95 | the entry exists exactly when some paper matches, and it holds, per year, the counters of the matching papers released by then |
| Cumulative.TallyPaper | research_trends/compute_meme_scores.py:62-95 | one matching paper extends the entry to the counters of the papers with it |
| Cumulative.TermsOver | research_trends/compute_meme_scores.py:46-57 | a meme gets an entry exactly when visited, it passes the filters, and some paper matches |
| Cumulative.TermsOverStep | research_trends/compute_meme_scores.py:46-57 | visiting one more meme adds its entry if it has one, and nothing else |
| Cumulative.ScoreTerms | research_trends/compute_meme_scores.py:45-95 | `compute_n_gram_meme_score_terms` from an empty map gives every meme's entry in closed form |
| Cumulative.ScoreMeme | research_trends/compute_meme_scores.py:47-57 | a meme failing the IDF or paper-count filter, or with no matching paper, gets no entry |
| Cumulative.YearCountMono | research_trends/filter_most_frequent_n_grams.py:32-33 | the cumulative paper totals grow with the year through 2022 |
| Cumulative.ReachedSubset | research_trends/filter_most_frequent_n_grams.py:32-33 | counting a subset never gives more at any year |
| Cumulative.MatchingStepAll | research_trends/filter_most_frequent_n_grams.py:25-29 | one more paper of the metadata is kept exactly when it matches |
| FilterFrequent.CountYears | research_trends/filter_most_frequent_n_grams.py:32-33 | 1 is added to every year from the paper's through 2022; the keys are unchanged |
| FilterFrequent.CountYearsStep | research_trends/filter_most_frequent_n_grams.py:32-33 | after one paper every total counts the papers seen so far |
| FilterFrequent.ComputeOverallFrequencies | research_trends/filter_most_frequent_n_grams.py:24-33 | every year's `num_papers` gains the number of matching papers released by then |
| FilterFrequent.CountPaper | research_trends/filter_most_frequent_n_grams.py:26-33 | one matching paper extends the totals to the papers with it |
| FilterFrequent.PlainEntries | research_trends/filter_most_frequent_n_grams.py:75-81 | this script keeps the same memes and years, with only the five plain counters |
| FilterFrequent.ComputeNGramMemeScoreTerms | research_trends/filter_most_frequent_n_grams.py:46-90 | a meme has an entry exactly when its IDF is at least 1.6, it has at least 500 papers and one matches; its years are those some matching paper reaches, with those papers' counters |
| FilterFrequent.YearScores | research_trends/filter_most_frequent_n_grams.py:94-116 | one score per year of the entry |
| FilterFrequent.ScoresOver | research_trends/filter_most_frequent_n_grams.py:96-116 | the scores of the visited years the entry has |
| FilterFrequent.ScoresOverStep | research_trends/filter_most_frequent_n_grams.py:96-116 | scoring one more year adds that year's score and nothing else |
| FilterFrequent.ScoreYears | research_trends/filter_most_frequent_n_grams.py:96-116 | the loop over years gives every year's score |
| FilterFrequent.ScoreYear | research_trends/filter_most_frequent_n_grams.py:98-113 | the loop body combines the three ratios with smoothing constant 3 |
| FilterFrequent.SaveAnnualMemeScores | research_trends/filter_most_frequent_n_grams.py:92-116 | every meme with components gets its yearly scores, and no other meme does |
| FilterFrequent.TalliedScoreBounds | research_trends/filter_most_frequent_n_grams.py:92-116 | against the totals, every tallied year has 0 < frequency <= num_papers, sparking 1, and a score in [0, 1) |
| FilterFrequent.CountersMonotone | research_trends/filter_most_frequent_n_grams.py:73-90 | no counter of a meme goes down from one year to a later one |
| FilterFrequent.FrequenciesMonotone | research_trends/filter_most_frequent_n_grams.py:24-33 | from equal starting totals, `num_papers` does not go down with the year |
| FilterFrequent.FrequenciesMonotoneFromZero | research_trends/filter_most_frequent_n_grams.py:24-33 | from the all-zero totals a caller starts from, `num_papers` does not go down with the year |
| FilterFrequent.CountsOver | research_trends/filter_most_frequent_n_grams.py:124-137 | the Counter holds a meme exactly when it was visited, has IDF at least 1.6 and some matching paper |
| FilterFrequent.CountsOverStep | research_trends/filter_most_frequent_n_grams.py:125-137 | visiting one more meme adds its count, if any, and nothing else |
| FilterFrequent.CountMemes | research_trends/filter_most_frequent_n_grams.py:124-137 | the Counter loop gives every such meme its number of matching papers |
| FilterFrequent.CountMeme | research_trends/filter_most_frequent_n_grams.py:130-137 | one meme's loop counts its matching papers, and adds no key when there are none |
| FilterFrequent.CounterIncrement | research_trends/filter_most_frequent_n_grams.py:137 | `meme_to_counts[meme] += 1` on a Counter turns count n into n + 1 |
| FilterFrequent.MaxCount | research_trends/filter_most_frequent_n_grams.py:141 | a non-empty set of memes has one of largest count |
| FilterFrequent.MostCommon | research_trends/filter_most_frequent_n_grams.py:141-142 | `most_common(k)` keeps min(k, len) distinct memes in non-increasing count, and nothing left out beats one kept |
| FilterFrequent.GetMostCommonMemes | research_trends/filter_most_frequent_n_grams.py:122-143 | at most 10000 distinct memes of IDF at least 1.6 with some matching paper, by non-increasing number of matching papers, none left out beating one kept |
| MemeScores.CountYears | research_trends/compute_meme_scores.py:29-32 | every year from the paper's through 2022 gains 1 paper and the paper's weight |
| MemeScores.TotalsAdd | research_trends/compute_meme_scores.py:29-32 | one more paper adds 1 and its weight to every year it reaches |
| MemeScores.ComputeOverallFrequencies | research_trends/compute_meme_scores.py:21-32 | every year's totals gain the plain and weighted counts of the AI papers released by then |
| MemeScores.CountPaper | research_trends/compute_meme_scores.py:22-32 | one matching paper extends the totals to the papers with it |
| MemeScores.WeightedTotalsBounds | research_trends/compute_meme_scores.py:29-32 | `weighted_num_papers` lies between 0 and `num_papers`, and is positive exactly when `num_papers` is |
| MemeScores.ComputeNGramMemeScoreTerms | research_trends/compute_meme_scores.py:45-95 | a meme has an entry exactly when its IDF is at least 1.6 and some AI paper has it (no paper minimum), holding the plain and weighted counters |
| MemeScores.ReachedSplit | research_trends/compute_meme_scores.py:86-95 | the citing and non-citing papers of a year are those reaching it |
| MemeScores.WeightedTermsBounds | research_trends/compute_meme_scores.py:83-95 | every entry is balanced, and each weighted counter lies between 0 and its plain twin, the weighted frequency positive |
| MemeScores.ScoresOver | research_trends/compute_meme_scores.py:101-132 | the scores of the visited years the entry has |
| MemeScores.ScoresOverStep | research_trends/compute_meme_scores.py:101-132 | scoring one more year adds its score and nothing else |
| MemeScores.ScoreYear | research_trends/compute_meme_scores.py:103-132 | the loop body: both scores with smoothing constant 1 |
| MemeScores.ScoreYears | research_trends/compute_meme_scores.py:101-132 | the loop over years gives every year's two scores |
| MemeScores.SaveAnnualMemeScores | research_trends/compute_meme_scores.py:97-132 | every meme with components gets its yearly scores, and no other meme does |
| MemeScores.StickingScore1 | research_trends/compute_meme_scores.py:113-116 | definition: `in_paper_in_citations / (1 + in_citations)`, for the plain and the weighted counters alike |
| MemeScores.SparkingScore1 | research_trends/compute_meme_scores.py:121-124 | definition: `in_paper_not_in_citations / (1 + not_in_citations)`, with no smoothing in the numerator |
| MemeScores.MemeScore1 | research_trends/compute_meme_scores.py:105-128 | definition: `frequency_score * sticking_score / sparking_score` with constant 1, over exact rationals, where `Defined1` says it divides by no zero |
| MemeScores.StickingScore1Bounds | research_trends/compute_meme_scores.py:111-116 | with `0 <= ipic <= ic` the sticking ratio lies in [0, 1) |
| MemeScores.SparkingScore1Bounds | research_trends/compute_meme_scores.py:119-124 | with `0 <= ipnic <= nic` the sparking ratio lies in [0, 1) |
| MemeScores.EntryRatios | research_trends/compute_meme_scores.py:110-124 | for every tallied entry all four ratios lie in [0, 1) |
| MemeScores.SparkingUndefined | research_trends/compute_meme_scores.py:121-127 | the plain sparking ratio is 0, so `meme_score` divides by zero, exactly when every paper of the year cites the meme |
| SectionNames.SetOfListCard | research_trends/save_section_names.py:47 | `set(...)` of a list has no more elements than the list |
| SectionNames.SectionPairs | research_trends/save_section_names.py:40-47 | a pair is kept exactly when some section with a name other than `''` and `' '` has it; at most one pair per section |
| SectionNames.GetJsonSectionMetadata | research_trends/save_section_names.py:29-52 | every paper of the file is recorded in order, with no skipping |
| SectionNames.RecordedKeys | research_trends/save_section_names.py:30-52 | afterwards the ids are the old ones and those of every paper |
| SectionNames.RecordedLastWins | research_trends/save_section_names.py:49-52 | the last paper with an id decides its record: its categories and its pairs |
| SectionNames.RecordedUntouched | research_trends/save_section_names.py:49-52 | an id no paper carries keeps its old record |
| StatsTable.Inc | analysis/statistics/stats_table.py:51 | `m[k] += 1` on a defaultdict adds 1 at k and changes no other key |
| StatsTable.CountSubjects | analysis/statistics/stats_table.py:58-59 | each subject's count grows by its number of occurrences in the list |
| StatsTable.CiteEntry | analysis/statistics/stats_table.py:62-75 | the body of the bibliography loop, including the skip of the subject loop for a key already cited by the discipline |
| StatsTable.CountPaper | analysis/statistics/stats_table.py:49-75 | one paper: its totals, its subjects and every bibliography entry, in order |
| StatsTable.PreprocessData | analysis/statistics/stats_table.py:18-78 | total equals the number of papers and the sum of the discipline counts; the discipline, subject and reference counts and the cited sets are their reference definitions; every cited count is its set's size and at most the references |
| StatsTable.SumValuesRemove | analysis/statistics/stats_table.py:49-51 | removing a key takes its value out of the sum |
| StatsTable.SumValuesInc | analysis/statistics/stats_table.py:49-51 | one increment adds 1 to the sum |
| StatsTable.OccurrencesIn | analysis/statistics/stats_table.py:58-59 | a subject occurs in a list exactly when it is in it |
| StatsTable.IncAllCounts | analysis/statistics/stats_table.py:58-59 | incrementing every element adds its occurrences |
| StatsTable.InLast | analysis/statistics/stats_table.py:58-59 | membership in a list splits on its last element |
| StatsTable.CiteEffect | analysis/statistics/stats_table.py:62-66 | one entry adds a reference and puts the key among the cited |
| StatsTable.CiteConsistent | analysis/statistics/stats_table.py:63-68 | the cited count grows exactly when the key is new, so it stays the size of the cited set |
| StatsTable.CiteAllRefs | analysis/statistics/stats_table.py:69-70 | the subject loop adds one reference per occurrence of a subject |
| StatsTable.CiteAllCited | analysis/statistics/stats_table.py:71-75 | and puts the key in the cited set of every subject of the list |
| StatsTable.CiteAllConsistent | analysis/statistics/stats_table.py:71-75 | and keeps every subject's cited count the size of its set |
| StatsTable.BibKeysLast | analysis/statistics/stats_table.py:61 | the keys of the entries split on the last entry |
| StatsTable.AfterEntriesFrame | analysis/statistics/stats_table.py:61-75 | the bibliography loop leaves the totals and the paper counts alone |
| StatsTable.AfterEntriesDocs | analysis/statistics/stats_table.py:61-68 | it adds `len(bib_entries)` references to the discipline, which has then cited every key |
| StatsTable.AfterEntriesConsistent | analysis/statistics/stats_table.py:61-75 | it keeps every cited count the size of its set |
| StatsTable.AfterPapersTotals | analysis/statistics/stats_table.py:49-51 | the total counts the papers and is the sum of the discipline counts |
| StatsTable.AfterPapersCounts | analysis/statistics/stats_table.py:49-68 | subject counts, discipline references and cited sets equal their reference definitions |
| StatsTable.AfterPapersConsistent | analysis/statistics/stats_table.py:61-75 | every cited count is the size of its cited set |
| StatsTable.BibKeysCard | analysis/statistics/stats_table.py:61 | a bibliography has no more distinct keys than entries |
| StatsTable.CitedKeysBound | analysis/statistics/stats_table.py:62-68 | no discipline cites more distinct keys than it has references |
| StatsTable.UnionCard | analysis/statistics/stats_table.py:62-68 | a union is no larger than its two sides together |
| StatsTable.AfterEntriesSubjectCited | analysis/statistics/stats_table.py:69-75 | as written, a subject only gains keys of the paper that lists it |
| StatsTable.AfterEntriesSubjectRefs | analysis/statistics/stats_table.py:69-70 | as written, a subject gains at most one reference per entry and occurrence |
| StatsTable.AfterPapersSubjects | analysis/statistics/stats_table.py:61-75 | as written, a subject's cited set and reference count are bounded by those of the papers listing it |
| StatsTable.SubjectKeyLost | analysis/statistics/stats_table.py:63-70 | a key another paper of the same discipline cited first never reaches a later paper's subject, whose reference is not counted |
| StatsTable.ExampleFacts | analysis/statistics/stats_table.py:53-56 | the categories `"B"` give the subject list `["B"]` |
| StatsTable.AfterEntriesCorrectedCited | analysis/statistics/stats_table.py:69-75 | with the subject loop run for every entry, each subject of the paper gains all its keys |
| StatsTable.AfterEntriesCorrectedRefs | analysis/statistics/stats_table.py:69-70 | and one reference per entry and occurrence |
| StatsTable.AfterEntriesCorrectedAgree | analysis/statistics/stats_table.py:61-68 | the correction alters only the subject accumulators |
| StatsTable.AfterEntriesCorrectedConsistent | analysis/statistics/stats_table.py:71-75 | and keeps every subject's cited count the size of its set |
| StatsTable.AfterPapersCorrectedSubjects | analysis/statistics/stats_table.py:61-75 | corrected, a subject's cited set is all keys cited by papers listing it, its references are all their entries, and nothing else changes |
| StatsTable.SubjectKeyKept | analysis/statistics/stats_table.py:63-75 | the corrected fold keeps the key lost in SubjectKeyLost and counts its reference |

## Left out

**I/O and libraries**
- File, directory, JSONL, pickle and CSV I/O, `argparse`, `tqdm`, timing and `print` are left out. The loaded dictionaries and paper records are inputs.
- `numpy.log10` in the IDF is left out: `Idf` computes only its argument, as an exact `real`.
- Ratios are exact rationals (`real`), so floating-point rounding is not modelled.
- The spaCy tokenizer is left out: it is loaded but never used.
- `lower()` and `string.punctuation` are modelled on ASCII only, with no Unicode case mapping.

**Input representation**
- Dates are not parsed: release years are given as ints. The two-digit year strings `str(y)[2:]` used as keys are modelled as the int years, which they name one-to-one over 1991-2022.
- Each script's `__main__` loop over years and files is modelled as one sequence of papers, or one sequence of per-year indexes.
- `bib_entries` is a sequence of entries. In the source it is a dict, so its keys are unique; the model also allows duplicates.
- Dict iteration order is not modelled: every loop over a dict or set is proved for any order of visit.
- The tie order of `Counter.most_common` is not modelled.
- A `defaultdict` key that a read creates is not distinguished from an absent key. `StatsTable.Get` reads 0 or the empty set for both.
- Aliasing is not modelled: the Python functions mutate their argument dicts in place, while the model returns the updated map.

**Source faults modelled as preconditions or not at all**
- The `__main__` of save_paper_n_grams.py (line 226 uses `years` before it is assigned) is not modelled. The functions it calls are.
- The `__main__` of compute_meme_scores.py (line 170 calls a four-argument function with three arguments) is not modelled; the functions are.
- `get_method_numbers` is not modelled. It is never called, and it depends on `int()` failures swallowed by a bare `except`.
- Lookups that would raise `KeyError` are preconditions:
  - `Readable` and `Countable` (the IDF and the metadata lookups);
  - `CoversYears` (a year key of `year_to_frequencies`);
  - the known-year requirement of `Memes4.CountPapers` (lines 273-274 of compute_meme_scores_4.py).
- The `KeyError` of extract_paper_memes (lines 53 and 56 of compute_meme_scores_4.py) is a failure result, not a precondition. `Memes4.ExtractPaperMemes` returns `None` for it, and so does `Memes4.GetUnseenMemesInJson`, whose loop at line 221 reaches it without a guard.
- Memes4.GetUnseenMemesInJson: on failure the model returns `None` and drops the partial index. The source has by then already added the earlier papers, and a paper's title memes, to the caller's dict in place.
- `Dated` is a precondition: every matching paper is released in 1991 or later. Otherwise the loop over `range(paper_year, 2023)` reaches `curr_year = 1990`, where `year_weight` divides by zero.
- Whether a score divides by zero is a precondition too:
  - `FilterFrequent.SaveAnnualMemeScores` requires non-zero totals and non-negative counters (`Scorable`);
  - `MemeScores.SaveAnnualMemeScores` requires `Scorable1`, which includes `in_paper_not_in_citations != 0`.

  `MemeScores.SparkingUndefined` shows when that last requirement fails.
- The C=1 sparking score follows the code, `in_paper_not_in_citations / (1 + not_in_citations)`. This differs from the smoothed form `(ipnic + C) / (nic + C)` used for C=3: the numerator has no smoothing.

**Deliberately narrower contracts**
- FilterFrequent.ComputeNGramMemeScoreTerms: the source accepts a starting `meme_to_score_components`; the model starts from an empty one. filter_most_frequent_n_grams.py never calls this function: its `__main__` (lines 146-199) only calls get_most_common_memes.
- MemeScores.ComputeNGramMemeScoreTerms: starts from an empty map, which is what compute_meme_scores.py:141 passes.
- Cumulative.ScoreTerms: starts from an empty map, which is what compute_meme_scores.py:141 passes.
- FilterFrequent.PlainEntries: has no weighted counters. filter_most_frequent_n_grams.py never creates them: lines 75-81 build only the five plain counters, and the `year_weight` of line 83 is computed and never used.
- StatsTable.PreprocessData: models the fold as written, including the skipped subject loop (see Findings). No other part of the model consumes its result.

## Findings

| source | as written | input that shows it | evidently intended | confidence | as-written member | corrected member |
|---|---|---|---|---|---|---|
| analysis/statistics/stats_table.py:63-70 | a bibliography key already in `doc_cited[discipline]` hits `continue` before the subject loop, so `count_nb_references_subject` and `doc_cited_subject` never see that entry | two papers of discipline `cs`, both citing key `X`; the second has categories `B`. Afterwards `doc_cited_subject["B"]` is empty and `count_nb_references_subject["B"]` is 0 | every entry counts once for each subject of the citing paper, and each subject's cited set holds every key cited by papers listing it | medium, not executed | StatsTable.SubjectKeyLost | StatsTable.AfterPapersCorrectedSubjects |
