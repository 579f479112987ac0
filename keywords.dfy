/** `Parser`: picks keyword pairs out of the language model's answer by
    matching each of its noun phrases with the closest noun phrase of the
    query, and builds the search queries from those pairs. The parser's
    spans and the distance between two phrases come from outside: the
    spans as `Span` values, the distance as an oracle `dist(i, j)` between
    answer phrase `i` and query phrase `j`. */
module Keywords {
  import opened Wrappers

  /** A span of the parsed document: its text and the token offset just
      past its end. */
  datatype Span = Span(text: string, end: int)

  /** What the parser sees of the two documents: the noun phrases of the
      answer, the noun phrases of the query and the sentences of the
      answer. */
  datatype Parsed = Parsed(answers: seq<Span>, queries: seq<Span>, sentences: seq<Span>)

  /** Ways `extract_keywords` raises instead of returning. */
  datatype KeywordError =
    | NoQueryPhrase        // `most_similar` is still `None` when it is used (line 196)
    | NoContainingSentence // `index` is never bound in `get_sentence_index` (line 166)

  type Distance = (nat, nat) -> real

  /** Pairs `(query text, answer text)` and the map from answer text to
      sentence index. */
  datatype Keywords = Keywords(pairs: set<(string, string)>, mapping: map<string, nat>)

  // ---------------------------------------------------------------------
  // get_sentence_index (lines 152-166)

  /** The first sentence, from index `from` on, that ends at or after `end`. */
  function FirstCovering(sentences: seq<Span>, end: int, from: nat): (r: Option<nat>)
    requires from <= |sentences|
    ensures r.Some? ==> from <= r.value < |sentences| && sentences[r.value].end >= end
    ensures r.Some? ==> forall k :: from <= k < r.value ==> sentences[k].end < end
    ensures r.None? <==> forall k :: from <= k < |sentences| ==> sentences[k].end < end
    decreases |sentences| - from
  {
    if from == |sentences| then None
    else if sentences[from].end >= end then Some(from)
    else FirstCovering(sentences, end, from + 1)
  }

  /** `get_sentence_index(phrase, sentences)`; `None` stands for the
      `UnboundLocalError` raised when no sentence ends at or after the
      phrase. */
  method GetSentenceIndex(phrase: Span, sentences: seq<Span>) returns (index: Option<nat>)
    ensures index == FirstCovering(sentences, phrase.end, 0)
  {
    index := None;
    var ix := 0;
    while ix < |sentences|
      invariant 0 <= ix <= |sentences|
      invariant FirstCovering(sentences, phrase.end, 0) == FirstCovering(sentences, phrase.end, ix)
    {
      if sentences[ix].end >= phrase.end {
        index := Some(ix);
        break;
      }
      ix := ix + 1;
    }
  }

  // ---------------------------------------------------------------------
  // extract_keywords (lines 168-200)

  /** The running minimum of lines 187-193 after the first `m` query
      phrases: the smallest distance seen, starting from 1, and the first
      query phrase that reached it. */
  function Closest(i: nat, m: nat, dist: Distance): (r: (real, Option<nat>))
    ensures r.0 <= 1.0
    ensures r.1.None? <==> forall j :: 0 <= j < m ==> dist(i, j) >= 1.0
    ensures r.1.None? ==> r.0 == 1.0
    ensures r.1.Some? ==> r.1.value < m && r.0 == dist(i, r.1.value) < 1.0
    ensures r.1.Some? ==> forall j :: 0 <= j < r.1.value ==> dist(i, j) > r.0
    ensures r.1.Some? ==> forall j :: r.1.value < j < m ==> dist(i, j) >= r.0
  {
    if m == 0 then (1.0, None)
    else
      var prev := Closest(i, m - 1, dist);
      if dist(i, m - 1) < prev.0 then (dist(i, m - 1), Some(m - 1)) else prev
  }

  /** Whether answer phrase `i` passes the threshold of line 195. */
  predicate Selected(doc: Parsed, i: nat, threshold: real, dist: Distance) {
    Closest(i, |doc.queries|, dist).0 <= threshold
  }

  /** What one answer phrase does to the keywords found so far
      (lines 195-199). */
  function Step(doc: Parsed, i: nat, threshold: real, dist: Distance, kw: Keywords)
    : (r: Result<Keywords, KeywordError>)
    requires i < |doc.answers|
    ensures r.Failure? <==> Fails(doc, i, threshold, dist)
    ensures r.Success? ==> kw.pairs <= r.value.pairs && kw.mapping.Keys <= r.value.mapping.Keys
    ensures r.Success? ==> |r.value.pairs| <= |kw.pairs| + 1
  {
    var c := Closest(i, |doc.queries|, dist);
    if c.0 <= threshold then
      match c.1
      case None => Failure(NoQueryPhrase)
      case Some(j) =>
        match FirstCovering(doc.sentences, doc.answers[i].end, 0)
        case None => Failure(NoContainingSentence)
        case Some(ix) =>
          Success(Keywords(kw.pairs + {(doc.queries[j].text, doc.answers[i].text)},
                           kw.mapping[doc.answers[i].text := ix]))
    else Success(kw)
  }

  /** The keywords after the first `n` answer phrases. */
  function ExtractUpTo(doc: Parsed, n: nat, threshold: real, dist: Distance)
    : (r: Result<Keywords, KeywordError>)
    requires n <= |doc.answers|
    ensures r.Success? ==> |r.value.pairs| <= n
  {
    if n == 0 then Success(Keywords({}, map[]))
    else
      match ExtractUpTo(doc, n - 1, threshold, dist)
      case Failure(e) => Failure(e)
      case Success(kw) => Step(doc, n - 1, threshold, dist, kw)
  }

  /** `extract_keywords()`. */
  method ExtractKeywords(doc: Parsed, threshold: real, dist: Distance)
    returns (r: Result<Keywords, KeywordError>)
    ensures r == ExtractUpTo(doc, |doc.answers|, threshold, dist)
  {
    var keywords: set<(string, string)> := {};
    var mapping: map<string, nat> := map[];
    for i := 0 to |doc.answers|
      invariant ExtractUpTo(doc, i, threshold, dist) == Success(Keywords(keywords, mapping))
    {
      var next := AddPhrase(doc, i, threshold, dist, keywords, mapping);
      ExtractNext(doc, i, threshold, dist);
      if next.Failure? {
        FailureIsFinal(doc, i + 1, |doc.answers|, threshold, dist);
        return next;
      }
      keywords, mapping := next.value.pairs, next.value.mapping;
    }
    return Success(Keywords(keywords, mapping));
  }

  /** One more phrase applies `Step` to what the earlier ones gave. */
  lemma ExtractNext(doc: Parsed, i: nat, threshold: real, dist: Distance)
    requires i < |doc.answers| && ExtractUpTo(doc, i, threshold, dist).Success?
    ensures ExtractUpTo(doc, i + 1, threshold, dist)
      == Step(doc, i, threshold, dist, ExtractUpTo(doc, i, threshold, dist).value)
  {
  }

  /** Lines 187-199 for answer phrase `i`. */
  method AddPhrase(doc: Parsed, i: nat, threshold: real, dist: Distance,
                   keywords: set<(string, string)>, mapping: map<string, nat>)
    returns (r: Result<Keywords, KeywordError>)
    requires i < |doc.answers|
    ensures r == Step(doc, i, threshold, dist, Keywords(keywords, mapping))
  {
    var maxSimilarity, mostSimilar := MostSimilar(i, |doc.queries|, dist);
    if maxSimilarity <= threshold {
      if mostSimilar.None? {
        return Failure(NoQueryPhrase);
      }
      var pairs := keywords + {(doc.queries[mostSimilar.value].text, doc.answers[i].text)};
      var position := GetSentenceIndex(doc.answers[i], doc.sentences);
      if position.None? {
        return Failure(NoContainingSentence);
      }
      return Success(Keywords(pairs, mapping[doc.answers[i].text := position.value]));
    }
    return Success(Keywords(keywords, mapping));
  }

  /** Lines 187-193: the running minimum over the first `m` query phrases. */
  method MostSimilar(i: nat, m: nat, dist: Distance) returns (maxSimilarity: real, mostSimilar: Option<nat>)
    ensures (maxSimilarity, mostSimilar) == Closest(i, m, dist)
  {
    maxSimilarity := 1.0;
    mostSimilar := None;
    for j := 0 to m
      invariant (maxSimilarity, mostSimilar) == Closest(i, j, dist)
    {
      var similarity := dist(i, j);
      if similarity < maxSimilarity {
        maxSimilarity := similarity;
        mostSimilar := Some(j);
      }
    }
  }

  // ---------------------------------------------------------------------
  // Properties of extract_keywords

  /** Answer phrase `i` makes the extraction raise. */
  predicate Fails(doc: Parsed, i: nat, threshold: real, dist: Distance)
    requires i < |doc.answers|
  {
    Selected(doc, i, threshold, dist)
    && (Closest(i, |doc.queries|, dist).1.None?
        || FirstCovering(doc.sentences, doc.answers[i].end, 0).None?)
  }

  /** The extraction raises exactly when some selected answer phrase has no
      query phrase closer than 1 or no sentence that contains it. */
  lemma {:induction false} ExtractFailsIff(doc: Parsed, n: nat, threshold: real, dist: Distance)
    requires n <= |doc.answers|
    ensures ExtractUpTo(doc, n, threshold, dist).Failure? <==> SomeFails(doc, n, threshold, dist)
  {
    if n > 0 {
      ExtractFailsIff(doc, n - 1, threshold, dist);
      ExtractFailsStep(doc, n, threshold, dist);
      SomeFailsStep(doc, n, threshold, dist);
    }
  }

  /** The first `n` phrases raise when the first `n - 1` do or phrase
      `n - 1` does. */
  lemma ExtractFailsStep(doc: Parsed, n: nat, threshold: real, dist: Distance)
    requires 0 < n <= |doc.answers|
    ensures ExtractUpTo(doc, n, threshold, dist).Failure?
      <==> ExtractUpTo(doc, n - 1, threshold, dist).Failure? || Fails(doc, n - 1, threshold, dist)
  {
    var prev := ExtractUpTo(doc, n - 1, threshold, dist);
    if prev.Success? {
      assert ExtractUpTo(doc, n, threshold, dist) == Step(doc, n - 1, threshold, dist, prev.value);
    }
  }

  /** Some answer phrase among the first `n` makes the extraction raise. */
  predicate SomeFails(doc: Parsed, n: nat, threshold: real, dist: Distance)
    requires n <= |doc.answers|
  {
    exists i :: 0 <= i < n && Fails(doc, i, threshold, dist)
  }

  lemma SomeFailsStep(doc: Parsed, n: nat, threshold: real, dist: Distance)
    requires 0 < n <= |doc.answers|
    ensures SomeFails(doc, n, threshold, dist)
      <==> SomeFails(doc, n - 1, threshold, dist) || Fails(doc, n - 1, threshold, dist)
  {
    if exists i :: 0 <= i < n && Fails(doc, i, threshold, dist) {
      var i :| 0 <= i < n && Fails(doc, i, threshold, dist);
      if i < n - 1 {
        assert 0 <= i < n - 1 && Fails(doc, i, threshold, dist);
      }
    }
    if Fails(doc, n - 1, threshold, dist) {
      assert 0 <= n - 1 < n && Fails(doc, n - 1, threshold, dist);
    }
  }

  /** Without a threshold of 1 or more, no query phrase is ever missing:
      a distance at or above 1 is never selected. */
  lemma NoQueryPhraseNeedsHighThreshold(doc: Parsed, i: nat, threshold: real, dist: Distance)
    requires i < |doc.answers| && threshold < 1.0
    requires Selected(doc, i, threshold, dist)
    ensures Closest(i, |doc.queries|, dist).1.Some?
    ensures Closest(i, |doc.queries|, dist).0 < 1.0
  {
  }

  /** The query phrase paired with answer phrase `i`. */
  function Partner(doc: Parsed, i: nat, dist: Distance): string
    requires Closest(i, |doc.queries|, dist).1.Some?
  {
    doc.queries[Closest(i, |doc.queries|, dist).1.value].text
  }

  /** A pair is found iff some selected answer phrase among the first `n`
      has that text and its closest query phrase has the other. */
  lemma {:induction false} PairsIff(doc: Parsed, n: nat, threshold: real, dist: Distance,
                                    q: string, a: string)
    requires n <= |doc.answers|
    requires ExtractUpTo(doc, n, threshold, dist).Success?
    ensures (q, a) in ExtractUpTo(doc, n, threshold, dist).value.pairs
      <==> exists i :: 0 <= i < n && Selected(doc, i, threshold, dist)
             && Closest(i, |doc.queries|, dist).1.Some?
             && doc.answers[i].text == a && Partner(doc, i, dist) == q
  {
    if n > 0 {
      PairsIff(doc, n - 1, threshold, dist, q, a);
    }
  }

  /** The last selected answer phrase among the first `n` that has text `a`. */
  function LastWith(doc: Parsed, n: nat, threshold: real, dist: Distance, a: string): (r: Option<nat>)
    requires n <= |doc.answers|
    ensures r.Some? ==>
      r.value < n && doc.answers[r.value].text == a && Selected(doc, r.value, threshold, dist)
    ensures r.Some? ==>
      forall i :: r.value < i < n && doc.answers[i].text == a ==> !Selected(doc, i, threshold, dist)
    ensures r.None? <==>
      forall i :: 0 <= i < n && doc.answers[i].text == a ==> !Selected(doc, i, threshold, dist)
  {
    if n == 0 then None
    else if doc.answers[n - 1].text == a && Selected(doc, n - 1, threshold, dist) then Some(n - 1)
    else LastWith(doc, n - 1, threshold, dist, a)
  }

  /** The mapping holds the texts of the selected answer phrases, each
      mapped to the sentence of the last phrase with that text: a later
      phrase overwrites an earlier one. */
  lemma {:induction false} MappingIsLastWriter(doc: Parsed, n: nat, threshold: real, dist: Distance,
                                               a: string)
    requires n <= |doc.answers|
    requires ExtractUpTo(doc, n, threshold, dist).Success?
    ensures a in ExtractUpTo(doc, n, threshold, dist).value.mapping
      <==> LastWith(doc, n, threshold, dist, a).Some?
    ensures LastWith(doc, n, threshold, dist, a).Some? ==>
      Some(ExtractUpTo(doc, n, threshold, dist).value.mapping[a])
      == FirstCovering(doc.sentences, doc.answers[LastWith(doc, n, threshold, dist, a).value].end, 0)
  {
    if n > 0 {
      var prev := ExtractUpTo(doc, n - 1, threshold, dist);
      assert prev.Success?;
      MappingIsLastWriter(doc, n - 1, threshold, dist, a);
      MappingStep(doc, n, threshold, dist);
      var m := ExtractUpTo(doc, n, threshold, dist).value.mapping;
      var pm := prev.value.mapping;
      var lw := LastWith(doc, n, threshold, dist, a);
      if Selected(doc, n - 1, threshold, dist) && doc.answers[n - 1].text == a {
        var ix := FirstCovering(doc.sentences, doc.answers[n - 1].end, 0);
        assert lw == Some(n - 1);
        assert a in m && m[a] == ix.value;
      } else {
        var lp := LastWith(doc, n - 1, threshold, dist, a);
        assert lw == lp;
        assert a in m <==> a in pm;
        assert a in m ==> m[a] == pm[a];
      }
    }
  }

  /** One more phrase writes its text into the mapping when it is selected,
      and leaves the mapping alone otherwise. */
  lemma MappingStep(doc: Parsed, n: nat, threshold: real, dist: Distance)
    requires 0 < n <= |doc.answers|
    requires ExtractUpTo(doc, n, threshold, dist).Success?
    ensures ExtractUpTo(doc, n - 1, threshold, dist).Success?
    ensures Selected(doc, n - 1, threshold, dist) ==>
      FirstCovering(doc.sentences, doc.answers[n - 1].end, 0).Some?
      && ExtractUpTo(doc, n, threshold, dist).value.mapping
         == ExtractUpTo(doc, n - 1, threshold, dist).value.mapping[doc.answers[n - 1].text :=
              FirstCovering(doc.sentences, doc.answers[n - 1].end, 0).value]
    ensures !Selected(doc, n - 1, threshold, dist) ==>
      ExtractUpTo(doc, n, threshold, dist).value.mapping
      == ExtractUpTo(doc, n - 1, threshold, dist).value.mapping
  {
  }

  /** Once the extraction has raised, later phrases do not matter. */
  lemma {:induction false} FailureIsFinal(doc: Parsed, n: nat, m: nat, threshold: real, dist: Distance)
    requires n <= m <= |doc.answers|
    requires ExtractUpTo(doc, n, threshold, dist).Failure?
    ensures ExtractUpTo(doc, m, threshold, dist) == ExtractUpTo(doc, n, threshold, dist)
    decreases m - n
  {
    if n < m {
      FailureIsFinal(doc, n, m - 1, threshold, dist);
    }
  }

  // ---------------------------------------------------------------------
  // generate_search_queries (lines 202-207)

  function AndQuery(p: (string, string)): string { p.0 + " AND " + p.1 }
  function OrQuery(p: (string, string)): string { p.0 + " OR " + p.1 }

  /** `generate_search_queries()`: both query forms of every keyword pair. */
  method GenerateSearchQueries(keywords: set<(string, string)>) returns (queries: set<string>)
    ensures forall s :: s in queries <==>
      exists p :: p in keywords && (s == AndQuery(p) || s == OrQuery(p))
    ensures |queries| <= 2 * |keywords|
  {
    queries := {};
    var rest := keywords;
    ghost var done: set<(string, string)> := {};
    while rest != {}
      invariant done + rest == keywords && done !! rest
      invariant Generated(queries, done)
      decreases |rest|
    {
      var p :| p in rest;
      GeneratedStep(queries, done, p);
      queries := queries + {AndQuery(p), OrQuery(p)};
      rest := rest - {p};
      done := done + {p};
    }
  }

  /** `queries` holds exactly the two queries of each pair of `done`. */
  ghost predicate Generated(queries: set<string>, done: set<(string, string)>) {
    (forall p :: p in done ==> AndQuery(p) in queries && OrQuery(p) in queries)
    && (forall s :: s in queries ==> exists p :: p in done && (s == AndQuery(p) || s == OrQuery(p)))
    && |queries| <= 2 * |done|
  }

  lemma GeneratedStep(queries: set<string>, done: set<(string, string)>, p: (string, string))
    requires Generated(queries, done) && p !in done
    ensures Generated(queries + {AndQuery(p), OrQuery(p)}, done + {p})
  {
    UnionAtMostTwoMore(queries, AndQuery(p), OrQuery(p));
    QueriesStep(queries, done, p);
  }

  lemma QueriesStep(queries: set<string>, done: set<(string, string)>, p: (string, string))
    requires forall s :: s in queries ==>
      exists q :: q in done && (s == AndQuery(q) || s == OrQuery(q))
    ensures forall s :: s in queries + {AndQuery(p), OrQuery(p)} ==>
      exists q :: q in done + {p} && (s == AndQuery(q) || s == OrQuery(q))
  {
    forall s | s in queries + {AndQuery(p), OrQuery(p)}
      ensures exists q :: q in done + {p} && (s == AndQuery(q) || s == OrQuery(q))
    {
      if s in queries {
        var q :| q in done && (s == AndQuery(q) || s == OrQuery(q));
        assert q in done + {p};
      } else {
        assert p in done + {p};
      }
    }
  }

  lemma UnionAtMostTwoMore(s: set<string>, x: string, y: string)
    ensures |s + {x, y}| <= |s| + 2
  {
    assert s + {x, y} == (s + {x}) + {y};
  }

  /** Every pair gives two different queries. */
  lemma AndOrDiffer(p: (string, string))
    ensures AndQuery(p) != OrQuery(p)
  {
    assert AndQuery(p)[|p.0| + 1] == 'A';
    assert OrQuery(p)[|p.0| + 1] == 'O';
  }
}
