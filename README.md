# query_graph: the text and ranking core, in Dafny

`query_graph` answers a question in four steps. It asks a language model,
pairs the noun phrases of the answer with those of the question, searches
the web with those pairs, and ranks every sentence of the pages it finds by
its closeness to the question. This project models the deterministic part
of that pipeline and proves properties of it:

- **Sentence splitter** (`Page.split_into_sentences`, module `Segmenter`).
  It runs the whole chain of rewrites. The regular-expression stages are
  written as explicit first-order matchers. The `str.replace`, `split` and
  `strip` stages use Python's own semantics (module `PyStr`).
- **Context window** (`Page.get_sentence_content`, module `ContextWindow`).
  The text shown for a sentence: the sentence plus up to `context_window`
  sentences on each side.
- **Keyword extraction** (`Parser.get_sentence_index`,
  `Parser.extract_keywords` and `Parser.generate_search_queries`, module
  `Keywords`). The distance between two noun phrases is an oracle
  `dist(i, j)`.
- **Researcher** (module `Research`), a class with these fields:
  - the URL table that `fetch_urls` updates in place;
  - the pages that `create_pages` builds;
  - the bucketed ranking `top_k_similar_sentences`. Its buckets are an
    array that is filled in place, and each sentence's bucket index comes
    from an oracle. Module `Ranking` gives the order it produces as a
    reference definition.
- **The command-line helpers** (module `Pipeline`):
  - `ordinal`;
  - `get_relevance`;
  - the in-place sort of the collected nodes by `get_relevance`;
  - the truncation of that sort into `researcher.nodes`.

Python's raising paths are results, not preconditions:
- `extract_keywords` raises when `most_similar` is still `None`, or when
  `get_sentence_index` leaves `index` unbound;
- `top_k_similar_sentences` raises `IndexError` when a bucket index is out
  of range, or when `k` is negative and there are sentences.

The oracles are parameters:
- `search(query)` returns the result URLs of a query;
- `fetch(url)` returns the page text, or nothing;
- `bucket(sentence)` returns `int(similarity * resolution)`;
- `dist(i, j)` is the distance between answer phrase `i` and query phrase
  `j`.

Where the code and its own docstrings disagree, the model follows the code:
- `similarity_to_query` is documented as a similarity on [0, 1]
  (`query_graph/Researcher.py:347`), but it returns a cosine *distance*
  (`query_graph/Researcher.py:355`). The ranking reads bucket 0 first, so
  it puts the closest sentences first. The score is not clamped: an index
  past the bucket list raises, and a negative one wraps around as Python
  indexing does (`Research.Slot`).
- The source fixes no order within a bucket beyond the append order: the
  sentences of a bucket keep the order in which the pages supplied them.
- The post-context is not clamped at the page's end. Its slice stops at
  index `len - 1`, so the last sentence of a page never appears in a
  post-context (see Findings). The evidence that the ranking builds
  carries this as-written content (`ContextWindow.SentenceContentAsWritten`);
  the clamped content (`ContextWindow.GetSentenceContent`) is defined and
  proved beside it as the evidently intended behaviour.

## Model

| member | source | states |
|---|---|---|
| Segmenter.SentencesAreClean | query_graph/Researcher.py:322-327 | every returned sentence is whitespace-stripped and holds neither `<stop>` nor `<prd>` |
| Segmenter.SplitIntoSentences | query_graph/Researcher.py:304-329 | every returned sentence is stripped of surrounding whitespace |
| Segmenter.Finish | query_graph/Researcher.py:326-328 | the result is the stripped pieces, or those pieces minus the last one; the last piece is dropped exactly when it is empty, and interior empty pieces stay |
| Segmenter.MarkersInInputLeaveEmptySentences | query_graph/Researcher.py:284-285 | a text such as `w<stop><stop>`, with `w` made of upper-case letters, is split at the markers it already holds and gives `[w, ""]`, a result that ends in an empty sentence |
| Segmenter.UnpunctuatedText | query_graph/Researcher.py:304-328 | a text with no terminator, quote, period, newline or `<prd>` is only padded and then split on `<stop>` |
| Segmenter.ProtectPeriods | query_graph/Researcher.py:306-317 | the chain of protection stages leaves a text without periods unchanged |
| Segmenter.MarkTerminators | query_graph/Researcher.py:318-324 | the quote-swapping and `<stop>`-marking stages leave a text without terminators or quotes unchanged |
| Segmenter.MatchAt | query_graph/Researcher.py:306-317 | a match of a protection pattern consumes at least one character and no more than the text holds |
| Segmenter.MatchConsumesPeriod | query_graph/Researcher.py:306-317 | every protection pattern matches only text that contains a period |
| Segmenter.ReSub | query_graph/Researcher.py:306-317 | a substitution by any protection pattern leaves a text without periods unchanged |
| Segmenter.StrippedPieces | query_graph/Researcher.py:326-327 | piece `k` is piece `k` of the split on `<stop>`, stripped, and there is at least one piece |
| PyStr.JoinSplit | query_graph/Researcher.py:326 | joining the pieces of `split(sep)` with `sep` gives the text back |
| PyStr.Replace | query_graph/Researcher.py:318-325 | `replace(pat, rep)` leaves a text that does not contain `pat` unchanged |
| PyStr.ReplaceIsJoinSplit | query_graph/Researcher.py:318-325 | `s.replace(pat, rep)` is `rep.join(s.split(pat))`: every occurrence, found left to right without overlap, is replaced |
| PyStr.Split | query_graph/Researcher.py:326 | `split(sep)` always gives at least one piece |
| PyStr.Strip | query_graph/Researcher.py:327 | the result is the slice `s[i:j]` of the input with only whitespace before `i` and after `j`, and it neither starts nor ends with whitespace |
| PyStr.Join | query_graph/Researcher.py:335 | a non-empty join begins with its first part |
| PyStr.IntToString | query_graph/main.py:90 | `str(n)` starts with `-` exactly when `n < 0`; the rest are decimal digits whose value is `abs(n)`, with no leading zero unless the number is 0 |
| PyStr.ReplaceRemoves | query_graph/Researcher.py:325 | after `replace(pat, rep)`, where `rep` is non-empty and shares no character with `pat`, the text no longer contains `pat` |
| PyStr.SplitPiecesAvoidSep | query_graph/Researcher.py:326 | no piece of `split(sep)` contains `sep` |
| PyStr.SplitFindsFirst | query_graph/Researcher.py:326 | matching starts from the left: no occurrence of `sep` starts inside the first piece of `split(sep)` |
| PyStr.SplitAtFirst | query_graph/Researcher.py:326 | a single piece is the whole text; otherwise `sep` occurs right after the first piece, and the other pieces are the split of the text after that occurrence |
| PyStr.DigitsRoundTrip | query_graph/main.py:90 | reading back the digits that `str(n)` writes gives `n` |
| ContextWindow.SentenceContentAsWritten | query_graph/Researcher.py:331-338 | the content as written is `" " + s + " "` for a window of 0 or less; for either of the last two sentences of a page the post-context is empty, so the content is the pre-context, the sentence and a trailing space |
| ContextWindow.GetSentenceContent | query_graph/Researcher.py:331-338 | the clamped content is `" " + s + " "` for a window of 0 or less; for the last sentence of a page it is the pre-context, the sentence and a trailing space |
| ContextWindow.PreContextIsPrecedingWindow | query_graph/Researcher.py:334-335 | the pre-context is the space-joined sentences at most `w` places before `p`, and it is empty when `p == 0` or `w <= 0` |
| ContextWindow.PostContextAsWrittenDropsLast | query_graph/Researcher.py:336-337 | the post-context as written is the following window of the page with its last sentence removed |
| ContextWindow.LastSentenceMissingFromContext | query_graph/Researcher.py:331-338 | on a two-sentence page, the content of the first sentence as written is `" " + a + " "` for every window; the clamped content ends in the second sentence |
| ContextWindow.SentenceContentIsWindows | query_graph/Researcher.py:331-338 | the clamped content is the preceding window, then the sentence, then the following window, joined by single spaces |
| ContextWindow.SentenceContentAsWrittenIsWindows | query_graph/Researcher.py:331-338 | the content as written is the preceding window, the sentence and the following window without the page's last sentence, joined by single spaces |
| ContextWindow.BetweenIsSlice | query_graph/Researcher.py:335 | the window of indices in `[lo, hi)` is the slice clamped at both ends of the page |
| Keywords.FirstCovering | query_graph/Researcher.py:162-166 | the result is the smallest index whose sentence ends at or after the phrase; it is `None` exactly when no sentence does |
| Keywords.GetSentenceIndex | query_graph/Researcher.py:152-166 | the search loop returns the first covering sentence, and `None` when `index` would be unbound |
| Keywords.Closest | query_graph/Researcher.py:187-193 | the running minimum starts at 1; the chosen phrase is the first at the strict minimum; no phrase at distance 1 or more is ever chosen |
| Keywords.ExtractKeywords | query_graph/Researcher.py:168-200 | the nested loops compute the phrase-by-phrase fold, including both raising paths |
| Keywords.MostSimilar | query_graph/Researcher.py:187-193 | the inner loop over the query phrases computes the running minimum `Closest`, starting from 1 and `None` |
| Keywords.AddPhrase | query_graph/Researcher.py:187-199 | one answer phrase either raises, or adds its pair and mapping entry when selected, or leaves the keywords unchanged |
| Keywords.Step | query_graph/Researcher.py:187-199 | one answer phrase raises exactly when it is selected and lacks a partner or a covering sentence; otherwise the pairs and the mapped phrases only grow, by at most one pair |
| Keywords.ExtractUpTo | query_graph/Researcher.py:186-199 | after `n` answer phrases there are at most `n` pairs |
| Keywords.ExtractFailsIff | query_graph/Researcher.py:195-198 | extraction raises exactly when some selected answer phrase has no query phrase below 1, or no covering sentence |
| Keywords.NoQueryPhraseNeedsHighThreshold | query_graph/Researcher.py:187-196 | with a threshold below 1, a selected phrase always has a partner at distance below 1 |
| Keywords.PairsIff | query_graph/Researcher.py:195-196 | `(q, a)` is a pair iff some selected answer phrase has text `a` and its closest query phrase has text `q` |
| Keywords.LastWith | query_graph/Researcher.py:199 | the result is the last selected answer phrase with a given text, and it is `None` iff there is none |
| Keywords.MappingIsLastWriter | query_graph/Researcher.py:197-199 | `a` is mapped iff some selected phrase has text `a`, and it is mapped to the sentence of the last such phrase |
| Keywords.FailureIsFinal | query_graph/Researcher.py:186-199 | once extraction has raised, later phrases do not change the result |
| Keywords.GenerateSearchQueries | query_graph/Researcher.py:202-207 | the result is exactly the `q AND a` and `q OR a` strings of the pairs, and it holds at most twice as many strings as there are pairs |
| Keywords.AndOrDiffer | query_graph/Researcher.py:205-206 | each pair gives two different queries |
| Research.NewPage | query_graph/Researcher.py:249-256 | a page keeps its queries, URL and text, and holds the split sentences exactly when its text is truthy |
| Research.PageEvidence | query_graph/Researcher.py:87-89 | a page with content gives one piece of evidence per sentence, in order, whose context is the content `get_sentence_content` computes as written; a page without content gives none |
| Research.AllEvidence | query_graph/Researcher.py:86-89 | when no page has content there is no evidence |
| Research.Slot | query_graph/Researcher.py:91 | a bucket index in `[0, resolution)` is used as is, one in `[-resolution, 0)` picks bucket `b + resolution`, and anything else raises `IndexError` |
| Research.Researcher.FetchUrls | query_graph/Researcher.py:60-67 | the keys are the old keys plus every URL some query returned; each URL maps to its old queries plus exactly the queries whose results hold it |
| Research.Researcher.AddResults | query_graph/Researcher.py:63-67 | one query's URLs each gain that query, and a new URL starts with `{query}` |
| Research.Researcher.CreatePages | query_graph/Researcher.py:69-81 | there is exactly one page per URL of the table, made from that URL's queries and its fetched text |
| Research.Researcher.TopKSimilarSentences | query_graph/Researcher.py:83-103 | the bucket-filling loop and the counted scan return the reference ranking `TopK` of the evidence of all pages, whose contexts are computed as written, including both raising paths |
| Research.Researcher.FillBuckets | query_graph/Researcher.py:84-92 | every bucket holds, in page order, the evidence whose context is the as-written content; the method fails exactly when some index is out of range; it counts all sentences |
| Research.Researcher.FillPage | query_graph/Researcher.py:87-92 | one page's evidence, each sentence with its as-written content, is appended to its buckets, or the method reports an index out of range |
| Research.Researcher.TakeTopK | query_graph/Researcher.py:94-103 | the counted scan returns the first `min(k, n)` ranked items, and raises for a negative `k` when there are items |
| Research.Researcher.TakeFrom | query_graph/Researcher.py:98-102 | the scan of one bucket continues the prefix of the ranking |
| Research.TopKBucketError | query_graph/Researcher.py:91 | ranking raises at the bucket lookup exactly when some sentence's index is outside `[-resolution, resolution)` |
| Research.TopKCountError | query_graph/Researcher.py:94-101 | past the buckets, ranking raises exactly when `k < 0` and there is at least one sentence |
| Research.TopKLength | query_graph/Researcher.py:94-103 | the ranking holds exactly `max(min(k, n), 0)` sentences |
| Research.TopKSorted | query_graph/Researcher.py:97-102 | the ranked sentences come in non-decreasing bucket order, closest first |
| Research.TopKStable | query_graph/Researcher.py:91-98 | each bucket of the ranking is a prefix of that bucket of the evidence, in page order |
| Research.TopKClosestFirst | query_graph/Researcher.py:94-103 | the ranking with the rest makes up the evidence, and nothing left out is closer than anything kept |
| Research.TopK | query_graph/Researcher.py:83-103 | a successful ranking holds no more items than the evidence, and no more than `k` |
| Ranking.RankedIsPermutation | query_graph/Researcher.py:84-102 | with every index in range, reading all buckets in order is a permutation of the items |
| Ranking.RankedIsSorted | query_graph/Researcher.py:97-98 | reading the buckets in order gives non-decreasing bucket indices |
| Ranking.RankedIsStable | query_graph/Researcher.py:91-98 | each bucket of the ranking keeps the items' original order |
| Ranking.RankedBucket | query_graph/Researcher.py:91-98 | the items of bucket `b` in the ranking are the items of bucket `b` in the input, in input order, and none for a `b` outside the buckets |
| Ranking.SortedCut | query_graph/Researcher.py:99-100 | cutting a sequence sorted by bucket keeps items no farther than the ones it leaves out |
| Research.RankedCutBySlot | query_graph/Researcher.py:97-102 | whatever the count, nothing past the cut of the ranking is in an earlier bucket than what precedes the cut |
| Pipeline.Ordinal | query_graph/main.py:89-97 | the result is `str(n)` followed by the suffix of the last digit of `abs(n)`: "st" for 1, "nd" for 2, "rd" for 3, "th" otherwise |
| Pipeline.LastCharOfIntToString | query_graph/main.py:90 | the last character of `str(n)` is the last decimal digit of `abs(n)` |
| Pipeline.OrdinalEleven | query_graph/main.py:90-91 | `ordinal(11)` is "11st" |
| Pipeline.OrdinalTwelve | query_graph/main.py:92-93 | `ordinal(12)` is "12nd" |
| Pipeline.OrdinalThirteen | query_graph/main.py:94-95 | `ordinal(13)` is "13rd" |
| Pipeline.GetRelevance | query_graph/main.py:20-21 | the key is the negated relevance |
| Pipeline.GetRelevanceReverses | query_graph/main.py:20-21 | a smaller key means a larger relevance, and equal keys mean equal relevance |
| Pipeline.SortByRelevance | query_graph/main.py:62 | the sorted list is as long as the input and its relevance does not increase |
| Pipeline.SortPermutes | query_graph/main.py:62 | the sort keeps every node, counted with multiplicity |
| Pipeline.SortIsStable | query_graph/main.py:62 | nodes of equal relevance keep their original relative order |
| Pipeline.PyPrefix | query_graph/main.py:63 | `s[:m]` is a prefix of `s`, `min(m, len)` long for `m >= 0` and `max(len + m, 0)` long for `m < 0` |
| Pipeline.KeptAreMostRelevant | query_graph/main.py:62-63 | for `num_nodes >= 0`, the kept nodes are `min(num_nodes, n)` nodes of the list, most relevant first, and none left out is more relevant |
| Pipeline.KeptNodes | query_graph/main.py:63 | the kept nodes are a prefix of the sorted list, `min(num_nodes, n)` long for `num_nodes >= 0` and `max(n + num_nodes, 0)` long otherwise, so a negative count drops nodes from the end |
| Pipeline.GetSentencesAndPages | query_graph/main.py:60-63 | the list is sorted in place by `get_relevance`, and `researcher.nodes` is its truncated prefix |

## Left out

- The language model call, the prompt-file read, the Google search client and the HTTP page download with its HTML extraction: network and file I/O. They are the oracles `search` and `fetch`.
- spaCy noun chunks, sentence spans and vectors, and `cosine`: the parser's output is given as `Span` values and the distance as the oracle `dist`. Distances are real numbers, and NaN is not modelled.
- BERT and sentence-transformer embeddings, `similarity_to_query` and the zero-shot classifier: float tensor code. The score enters only through the integer bucket oracle `bucket`, so `int(similarity * resolution)` truncation is not modelled.
- The `mean + std` relevance mask over `dot_score` in `pipeline`: float statistics.
- The threads of `create_pages` and the joblib and `Manager` fan-out of `get_urls` and `get_sentences_and_pages`: concurrency. The order of the pages is left open (chosen by `:|`), as is the order of set iteration in `fetch_urls` and `generate_search_queries`.
- `create_pages_and_sentences`, `get_urls` and the `num_nodes` attribute, which `main.py` uses: they are not part of `Researcher.py`. `num_nodes` is a parameter of `GetSentencesAndPages`, and the collected nodes are its input array.
- The `Researcher` constructor pipeline (the language model answer, parsing, then fetching): only its resulting fields are modelled, by `Research.Researcher.constructor`. Logging, timing, console output and the command-line prompt loop are left out.
- A page without content has no `sentences` attribute in Python. The model gives it an empty sentence list; the ranking never reads it.
- Segmenter.Finish: does not prove that the last returned sentence is non-empty. That is false for a text that already holds `<stop>` markers (Segmenter.MarkersInInputLeaveEmptySentences). For a marker-free text it depends on every regular-expression stage, and it is not proved.
- ContextWindow: positions are limited to `0 <= position < len(sentences)`, where Python would raise `IndexError` at line 332; a negative position is not modelled.
- PyStr.Split: its own contract states only that there is a piece. PyStr.SplitFindsFirst and PyStr.SplitAtFirst state what the pieces are, by induction on the text: cut at the first occurrence, then split the rest. This holds for every separator, including one that can overlap itself, such as `aa` in `aaa`.
- PyStr.Join: its own contract states only that the first part begins the result; the round trip with `split` is PyStr.JoinSplit.
- Segmenter.MatchAt: its own contract bounds the match length; which text each pattern matches is stated by Segmenter.MatchConsumesPeriod and by the matchers themselves.
- Research.TopK: its own contract bounds the length; the exact length, order, stability and raising paths are Research.TopKLength, TopKSorted, TopKStable, TopKClosestFirst, TopKBucketError and TopKCountError.
- Research.AllEvidence: its own contract covers only pages without content; the evidence of each page is stated by Research.PageEvidence.
- Keywords.ExtractUpTo: its own contract bounds the number of pairs; which pairs and mapping entries there are is Keywords.PairsIff and Keywords.MappingIsLastWriter.
- Pipeline.SortByRelevance: is a reference insertion sort. It models the stable result that Python's `list.sort` guarantees, not Timsort's steps.

## Findings

| source | as written | input that shows it | evidently intended | confidence | as-written member | corrected member |
|---|---|---|---|---|---|---|
| query_graph/Researcher.py:337 | the post-context slice ends at `min(len(self.sentences) - 1, position + context_window + 1)`, an inclusive last index used as an exclusive slice end | the sentences `[a, b]`, position 0, any `context_window > 0`: the content is `" " + a + " "`, and `b` is never shown | the slice ends at `min(len(self.sentences), position + context_window + 1)`, so the following window reaches the last sentence | not executed | ContextWindow.SentenceContentAsWritten, ContextWindow.LastSentenceMissingFromContext | ContextWindow.GetSentenceContent, ContextWindow.SentenceContentIsWindows |
