/** `Researcher`: the table from result URL to the search queries that
    returned it, the pages fetched for those URLs, and the ranking of every
    sentence of those pages by its distance to the query. The web search,
    the page download and the sentence embedding are oracles passed in as
    functions. */
module Research {
  import opened Wrappers
  import opened Segmenter
  import opened ContextWindow
  import opened Ranking
  import opened Bounds

  /** A fetched page: the queries that found it, its URL, its text (absent
      when the download failed) and its sentences. */
  datatype Page = Page(searchQueries: set<string>, url: string, content: Option<string>,
                       sentences: seq<string>)

  /** Python truthiness of the page text: present and not empty. */
  predicate HasContent(content: Option<string>) {
    content.Some? && content.value != []
  }

  /** `Page(search_queries, url)` with the downloaded text `content`: the
      sentences are set only when the text is truthy. */
  function NewPage(searchQueries: set<string>, url: string, content: Option<string>): (p: Page)
    ensures p.url == url && p.searchQueries == searchQueries && p.content == content
    ensures HasContent(content) ==> p.sentences == SplitIntoSentences(content.value)
    ensures !HasContent(content) ==> p.sentences == []
  {
    Page(searchQueries, url, content,
         if HasContent(content) then SplitIntoSentences(content.value) else [])
  }

  /** `Sentence(sentence, context)`: one sentence and the text around it. */
  datatype Evidence = Evidence(sentence: string, context: string)

  /** A node of the final list: its evidence and its relevance. */
  datatype Node = Node(evidence: Evidence, relevance: real)

  /** The evidence of one page, in sentence order (lines 87-89). */
  function PageEvidence(page: Page, contextWindow: int): (r: seq<Evidence>)
    ensures HasContent(page.content) ==> |r| == |page.sentences|
    ensures !HasContent(page.content) ==> r == []
    ensures forall p :: 0 <= p < |r| ==> r[p].sentence == page.sentences[p]
    ensures forall p :: 0 <= p < |r| ==>
      r[p].context == SentenceContentAsWritten(page.sentences, p, contextWindow)
  {
    if HasContent(page.content) then
      seq(|page.sentences|, p requires 0 <= p < |page.sentences| =>
        Evidence(page.sentences[p], SentenceContentAsWritten(page.sentences, p, contextWindow)))
    else []
  }

  /** No page has content, so `if self.pages[page].content` skips them all. */
  predicate NoContent(pages: seq<Page>) {
    forall p :: 0 <= p < |pages| ==> !HasContent(pages[p].content)
  }

  /** The evidence of all pages, page after page (lines 86-89). */
  function AllEvidence(pages: seq<Page>, contextWindow: int): (r: seq<Evidence>)
    ensures NoContent(pages) ==> r == []
  {
    if pages == [] then []
    else AllEvidence(pages[..|pages| - 1], contextWindow) + PageEvidence(pages[|pages| - 1], contextWindow)
  }

  /** The bucket that `similarities[b]` picks from a list of `resolution`
      buckets, Python's negative indices included; -1 when it raises
      `IndexError`. */
  function Slot(b: int, resolution: int): (r: int)
    ensures r == -1 || 0 <= r < resolution
    ensures 0 <= b < resolution ==> r == b
    ensures r != -1 <==> -resolution <= b < resolution
    ensures -resolution <= b < 0 ==> r == b + resolution
  {
    if 0 <= b < resolution then b
    else if -resolution <= b < 0 then b + resolution
    else -1
  }

  /** Number of buckets: `range(resolution)` is empty for a resolution of 0
      or less. */
  function Buckets(resolution: int): nat {
    if resolution > 0 then resolution else 0
  }

  /** The bucket of a piece of evidence: `int(similarity * resolution)`,
      computed by the embedding oracle `bucket` from the sentence alone. */
  function SlotKey(bucket: string -> int, resolution: int): Evidence -> int {
    (e: Evidence) => Slot(bucket(e.sentence), resolution)
  }

  /** Both ways `top_k_similar_sentences` raises `IndexError`. */
  datatype RankError =
    | BucketOutOfRange  // `similarities[int(similarity*resolution)]` (line 91)
    | NegativeCount     // `top_k[count]` on the empty list `[""]*k` for `k < 0` (line 101)

  /** What `top_k_similar_sentences(k, resolution)` returns for the evidence
      `evidence`: the first `min(k, n)` items of the buckets read in order. */
  function TopK(evidence: seq<Evidence>, k: int, resolution: int, bucket: string -> int)
    : (r: Result<seq<Evidence>, RankError>)
    ensures r.Success? ==> |r.value| <= |evidence| && (k >= 0 ==> |r.value| <= k)
  {
    var key := SlotKey(bucket, resolution);
    if !InRange(evidence, key, Buckets(resolution)) then Failure(BucketOutOfRange)
    else Leading(evidence, key, Buckets(resolution), k)
  }

  /** The first `min(k, n)` items of `count` buckets read in order, once
      every item has its bucket. */
  function Leading<T>(items: seq<T>, key: T -> int, count: nat, k: int): (r: Result<seq<T>, RankError>)
    requires InRange(items, key, count)
    ensures r.Success? ==> |r.value| <= |items| && (k >= 0 ==> |r.value| <= k)
  {
    if k < 0 && items != [] then Failure(NegativeCount)
    else
      RankedIsPermutation(items, key, count);
      Success(Ranked(items, key, count)[..if k < |items| then Max(k, 0) else |items|])
  }

  /** `buckets` holds, bucket by bucket, the items of `seen`. */
  ghost predicate Filled<T>(buckets: seq<seq<T>>, seen: seq<T>, key: T -> int) {
    InRange(seen, key, |buckets|)
    && forall b :: 0 <= b < |buckets| ==> buckets[b] == Bucket(seen, key, b)
  }

  class Researcher {
    var queries: set<string>
    var numResults: int
    var contextWindow: int
    var urls: map<string, set<string>>
    var pages: seq<Page>
    var nodes: seq<Node>

    /** The state after lines 41-46, before the URLs are fetched. */
    constructor(queries: set<string>, numResults: int, contextWindow: int)
      ensures this.queries == queries && this.numResults == numResults
      ensures this.contextWindow == contextWindow
      ensures urls == map[] && pages == [] && nodes == []
    {
      this.queries := queries;
      this.numResults := numResults;
      this.contextWindow := contextWindow;
      urls := map[];
      pages := [];
      nodes := [];
    }

    /** `fetch_urls()`: every URL returned by the search for some query is
        mapped to the set of queries that returned it, added to what the
        table already held. */
    method FetchUrls(search: string -> seq<string>)
      modifies this`urls
      ensures forall u :: u in urls <==> u in old(urls) || exists q :: q in queries && u in search(q)
      ensures forall u :: u in urls ==> urls[u] == Prior(old(urls), u) + Finders(u, queries, search)
    {
      var rest := queries;
      ghost var done: set<string> := {};
      while rest != {}
        invariant done + rest == queries && done !! rest
        invariant Table(urls, old(urls), done, search)
        decreases |rest|
      {
        var searchQuery :| searchQuery in rest;
        ghost var before := urls;
        AddResults(searchQuery, search(searchQuery));
        TableStep(before, urls, old(urls), done, searchQuery, search);
        rest := rest - {searchQuery};
        done := done + {searchQuery};
      }
    }

    /** Lines 63-67 for one query: each URL of `found` gets `searchQuery`. */
    method AddResults(searchQuery: string, found: seq<string>)
      modifies this`urls
      ensures Added(old(urls), urls, searchQuery, found)
    {
      for i := 0 to |found|
        invariant Added(old(urls), urls, searchQuery, found[..i])
      {
        var url := found[i];
        ghost var before := urls;
        if url !in urls {
          urls := urls[url := {searchQuery}];
          assert {} + {searchQuery} == {searchQuery};
        } else {
          urls := urls[url := urls[url] + {searchQuery}];
        }
        AddedStep(old(urls), before, urls, searchQuery, found, i);
      }
      assert found[..|found|] == found;
    }

    /** `create_pages()`: one page per URL of the table, each made from the
        text `fetch` downloads for it. The pages are kept in the order the
        dictionary receives them, which the threads leave unspecified. */
    method CreatePages(fetch: string -> Option<string>)
      modifies this`pages
      ensures forall i :: 0 <= i < |pages| ==>
        pages[i].url in urls && pages[i] == NewPage(urls[pages[i].url], pages[i].url, fetch(pages[i].url))
      ensures forall i, j :: 0 <= i < j < |pages| ==> pages[i].url != pages[j].url
      ensures forall u :: u in urls ==> exists i :: 0 <= i < |pages| && pages[i].url == u
    {
      pages := [];
      var rest := urls.Keys;
      while rest != {}
        invariant Built(pages, rest, urls, fetch)
        decreases |rest|
      {
        var url :| url in rest;
        BuiltStep(pages, rest, urls, fetch, url);
        pages := pages + [NewPage(urls[url], url, fetch(url))];
        rest := rest - {url};
      }
      BuiltCovers(pages, urls, fetch);
    }

    /** `top_k_similar_sentences(k, resolution)`. */
    method TopKSimilarSentences(k: int, resolution: int, bucket: string -> int)
      returns (r: Result<seq<Evidence>, RankError>)
      ensures r == TopK(AllEvidence(pages, contextWindow), k, resolution, bucket)
    {
      var failed, similarities, numSentences := FillBuckets(resolution, bucket);
      if failed {
        return Failure(BucketOutOfRange);
      }
      r := TakeTopK(similarities, numSentences, k, AllEvidence(pages, contextWindow), SlotKey(bucket, resolution));
    }

    /** Lines 84-92: the evidence of every page with content, each appended
        to the bucket its sentence falls in. */
    method FillBuckets(resolution: int, bucket: string -> int)
      returns (failed: bool, similarities: array<seq<Evidence>>, numSentences: nat)
      ensures fresh(similarities) && similarities.Length == Buckets(resolution)
      ensures failed <==> !InRange(AllEvidence(pages, contextWindow), SlotKey(bucket, resolution), Buckets(resolution))
      ensures !failed ==> numSentences == |AllEvidence(pages, contextWindow)|
      ensures !failed ==> Filled(similarities[..], AllEvidence(pages, contextWindow), SlotKey(bucket, resolution))
    {
      ghost var key := SlotKey(bucket, resolution);
      similarities := new seq<Evidence>[Buckets(resolution)](_ => []);
      numSentences := 0;
      ghost var seen: seq<Evidence> := [];
      for pi := 0 to |pages|
        invariant seen == AllEvidence(pages[..pi], contextWindow)
        invariant numSentences == |seen|
        invariant Filled(similarities[..], seen, key)
      {
        EvidenceOfNextPage(pages, pi, contextWindow);
        var ok, added := FillPage(pages[pi], contextWindow, resolution, bucket, similarities, seen);
        if !ok {
          PageOutOfRange(pages, pi, contextWindow, key, similarities.Length);
          return true, similarities, numSentences;
        }
        seen := seen + PageEvidence(pages[pi], contextWindow);
        numSentences := numSentences + added;
      }
      assert pages[..|pages|] == pages;
      failed := false;
    }

    /** Lines 87-92 for one page: the evidence of its sentences appended to
        their buckets, unless one of them has no bucket. */
    static method FillPage(page: Page, contextWindow: int, resolution: int, bucket: string -> int,
                           similarities: array<seq<Evidence>>, ghost seen: seq<Evidence>)
      returns (ok: bool, added: nat)
      requires similarities.Length == Buckets(resolution)
      requires Filled(similarities[..], seen, SlotKey(bucket, resolution))
      modifies similarities
      ensures ok ==> added == |PageEvidence(page, contextWindow)|
      ensures ok ==> Filled(similarities[..], seen + PageEvidence(page, contextWindow), SlotKey(bucket, resolution))
      ensures !ok ==> !InRange(PageEvidence(page, contextWindow), SlotKey(bucket, resolution), similarities.Length)
    {
      ghost var key := SlotKey(bucket, resolution);
      ghost var pe := PageEvidence(page, contextWindow);
      added := 0;
      assert seen + pe[..0] == seen;
      if HasContent(page.content) {
        for position := 0 to |page.sentences|
          invariant added == position
          invariant Filled(similarities[..], seen + pe[..position], key)
        {
          var sent := Evidence(page.sentences[position],
                               SentenceContentAsWritten(page.sentences, position, contextWindow));
          var slot := Slot(bucket(sent.sentence), resolution);
          if slot == -1 {
            assert key(pe[position]) == -1;
            return false, added;
          }
          ghost var buckets := similarities[..];
          FillStep(buckets, seen, pe, position, key);
          similarities[slot] := similarities[slot] + [sent];
          assert similarities[..] == buckets[slot := buckets[slot] + [sent]];
          added := added + 1;
        }
        assert pe[..|page.sentences|] == pe;
      } else {
        assert seen + pe == seen;
      }
      ok := true;
    }

    /** Lines 94-103: the first `min(k, numSentences)` items of the buckets
        read in order. */
    static method TakeTopK(similarities: array<seq<Evidence>>, numSentences: nat, k: int,
                           ghost evidence: seq<Evidence>, ghost key: Evidence -> int)
      returns (r: Result<seq<Evidence>, RankError>)
      requires numSentences == |evidence|
      requires Filled(similarities[..], evidence, key)
      ensures r == Leading(evidence, key, similarities.Length, k)
    {
      var kk := Min(k, numSentences);
      var topK := new Evidence[Max(kk, 0)](_ => Evidence("", ""));
      var count: nat := 0;
      RankedIsPermutation(evidence, key, similarities.Length);
      for b := 0 to similarities.Length
        invariant Taken(topK[..], count, kk, Ranked(evidence, key, b))
      {
        ghost var front := Ranked(evidence, key, b);
        assert Ranked(evidence, key, b + 1) == front + similarities[b];
        var ok;
        count, ok := TakeFrom(topK, count, kk, similarities[b], front);
        if !ok {
          return Failure(NegativeCount);
        }
      }
      assert !(kk < 0 && evidence != []);
      return Success(topK[..count]);
    }

    /** Lines 98-102 for one bucket. */
    static method TakeFrom(topK: array<Evidence>, count: nat, kk: int, items: seq<Evidence>,
                           ghost front: seq<Evidence>)
      returns (next: nat, ok: bool)
      requires Taken(topK[..], count, kk, front)
      modifies topK
      ensures ok ==> Taken(topK[..], next, kk, front + items)
      ensures !ok ==> kk < 0 && items != []
    {
      next := count;
      var j := 0;
      while j < |items|
        invariant 0 <= j <= |items|
        invariant Taken(topK[..], next, kk, front + items[..j])
      {
        if next == kk {
          break;
        }
        if next >= topK.Length {
          return next, false;
        }
        topK[next] := items[j];
        assert front + items[..j + 1] == (front + items[..j]) + [items[j]];
        next := next + 1;
        j := j + 1;
      }
      TakenExtends(topK[..], next, kk, front, items, j);
      ok := true;
    }
  }

  /** `top[..count]` holds the first `min(kk, |ranked|)` items of `ranked`,
      in an array of `max(kk, 0)` places; for a negative `kk` nothing can
      have been read. */
  ghost predicate Taken(top: seq<Evidence>, count: nat, kk: int, ranked: seq<Evidence>) {
    |top| == Max(kk, 0) && count <= |top|
    && (kk < 0 ==> ranked == [])
    && (kk >= 0 ==> count == Min(kk, |ranked|))
    && top[..count] == ranked[..count]
  }

  /** Stopping with `count == kk`, or after the last item, reads as
      having read the whole bucket. */
  lemma TakenExtends(top: seq<Evidence>, count: nat, kk: int, front: seq<Evidence>,
                     items: seq<Evidence>, j: nat)
    requires j <= |items| && Taken(top, count, kk, front + items[..j])
    requires j < |items| ==> count == kk
    ensures Taken(top, count, kk, front + items)
  {
    if j == |items| {
      assert items[..j] == items;
    } else {
      assert (front + items)[..count] == (front + items[..j])[..count];
    }
  }

  // ---------------------------------------------------------------------
  // Properties of top_k_similar_sentences

  /** The ranking raises at line 91 exactly when some sentence's bucket
      index is not a valid index of the bucket list. */
  lemma TopKBucketError(evidence: seq<Evidence>, k: int, resolution: int, bucket: string -> int)
    ensures TopK(evidence, k, resolution, bucket) == Failure(BucketOutOfRange)
      <==> exists i :: 0 <= i < |evidence| && !(-resolution <= bucket(evidence[i].sentence) < resolution)
  {
    var key := SlotKey(bucket, resolution);
    if exists i :: 0 <= i < |evidence| && !(-resolution <= bucket(evidence[i].sentence) < resolution) {
      var i :| 0 <= i < |evidence| && !(-resolution <= bucket(evidence[i].sentence) < resolution);
      assert key(evidence[i]) == -1;
    } else {
      forall i | 0 <= i < |evidence| ensures 0 <= key(evidence[i]) < Buckets(resolution) {
        assert -resolution <= bucket(evidence[i].sentence) < resolution;
      }
    }
  }

  /** Past the buckets, the ranking raises at line 101 exactly when `k` is
      negative and there is at least one sentence. */
  lemma TopKCountError(evidence: seq<Evidence>, k: int, resolution: int, bucket: string -> int)
    requires InRange(evidence, SlotKey(bucket, resolution), Buckets(resolution))
    ensures TopK(evidence, k, resolution, bucket).Failure? <==> k < 0 && evidence != []
  {
  }

  /** The ranking holds exactly `min(k, n)` items, and none for a negative
      `k`. */
  lemma TopKLength(evidence: seq<Evidence>, k: int, resolution: int, bucket: string -> int)
    ensures var r := TopK(evidence, k, resolution, bucket);
      r.Success? ==> |r.value| == Max(Min(k, |evidence|), 0)
  {
    var key := SlotKey(bucket, resolution);
    if InRange(evidence, key, Buckets(resolution)) {
      RankedIsPermutation(evidence, key, Buckets(resolution));
    }
  }

  /** The ranked sentences come in non-decreasing bucket order: the
      closest first. */
  lemma TopKSorted(evidence: seq<Evidence>, k: int, resolution: int, bucket: string -> int)
    ensures var r := TopK(evidence, k, resolution, bucket);
      r.Success? ==> forall i, j :: 0 <= i < j < |r.value| ==>
        Slot(bucket(r.value[i].sentence), resolution) <= Slot(bucket(r.value[j].sentence), resolution)
  {
    var key := SlotKey(bucket, resolution);
    var r := TopK(evidence, k, resolution, bucket);
    if r.Success? {
      var ranked := Ranked(evidence, key, Buckets(resolution));
      RankedIsSorted(evidence, key, Buckets(resolution));
      RankedIsPermutation(evidence, key, Buckets(resolution));
      assert r.value == ranked[..|r.value|];
      forall i, j | 0 <= i < j < |r.value|
        ensures Slot(bucket(r.value[i].sentence), resolution) <= Slot(bucket(r.value[j].sentence), resolution)
      {
        assert r.value[i] == ranked[i] && r.value[j] == ranked[j];
        assert key(ranked[i]) <= key(ranked[j]);
      }
    }
  }

  /** Sentences in the same bucket keep the order the pages gave them: each
      bucket of the ranking is a prefix of that bucket of the evidence. */
  lemma TopKStable(evidence: seq<Evidence>, k: int, resolution: int, bucket: string -> int, b: int)
    ensures var r := TopK(evidence, k, resolution, bucket);
      r.Success? ==> Bucket(r.value, SlotKey(bucket, resolution), b)
                     <= Bucket(evidence, SlotKey(bucket, resolution), b)
  {
    var key := SlotKey(bucket, resolution);
    var r := TopK(evidence, k, resolution, bucket);
    if r.Success? {
      var ranked := Ranked(evidence, key, Buckets(resolution));
      RankedIsPermutation(evidence, key, Buckets(resolution));
      assert r.value == ranked[..|r.value|];
      BucketOfPrefix(ranked, key, |r.value|, b);
      RankedBucket(evidence, key, Buckets(resolution), b);
      if !(0 <= b < Buckets(resolution)) {
        BucketOutsideRange(evidence, key, Buckets(resolution), b);
      }
    }
  }

  /** The ranking takes the closest sentences: what it leaves out is never
      closer than what it holds. */
  lemma TopKClosestFirst(evidence: seq<Evidence>, k: int, resolution: int, bucket: string -> int)
    ensures var r := TopK(evidence, k, resolution, bucket);
      r.Success? ==> exists rest: seq<Evidence> ::
        multiset(r.value) + multiset(rest) == multiset(evidence)
        && forall x, y :: x in r.value && y in rest ==>
             Slot(bucket(x.sentence), resolution) <= Slot(bucket(y.sentence), resolution)
  {
    var key := SlotKey(bucket, resolution);
    var r := TopK(evidence, k, resolution, bucket);
    if r.Success? {
      var ranked := Ranked(evidence, key, Buckets(resolution));
      var m := |r.value|;
      LeadingIsCut(evidence, key, Buckets(resolution), k);
      CutCoversRanking(ranked, m, evidence);
      RankedCutBySlot(evidence, resolution, bucket, m);
      assert multiset(r.value) + multiset(ranked[m..]) == multiset(evidence);
    }
  }

  /** Nothing after a cut of the ranking is closer than what precedes it. */
  lemma RankedCutBySlot(evidence: seq<Evidence>, resolution: int, bucket: string -> int, m: nat)
    requires m <= |Ranked(evidence, SlotKey(bucket, resolution), Buckets(resolution))|
    ensures var ranked := Ranked(evidence, SlotKey(bucket, resolution), Buckets(resolution));
      forall x, y :: x in ranked[..m] && y in ranked[m..] ==>
        Slot(bucket(x.sentence), resolution) <= Slot(bucket(y.sentence), resolution)
  {
    var key := SlotKey(bucket, resolution);
    var ranked := Ranked(evidence, key, Buckets(resolution));
    RankedIsSorted(evidence, key, Buckets(resolution));
    SortedCut(ranked, key, m);
    forall x, y | x in ranked[..m] && y in ranked[m..]
      ensures Slot(bucket(x.sentence), resolution) <= Slot(bucket(y.sentence), resolution)
    {
      assert key(x) <= key(y);
    }
  }

  /** What `Leading` returns is a cut of the ranking, which holds the items. */
  lemma LeadingIsCut<T>(items: seq<T>, key: T -> int, count: nat, k: int)
    requires InRange(items, key, count)
    ensures Leading(items, key, count, k).Success? ==>
      |Leading(items, key, count, k).value| <= |Ranked(items, key, count)|
      && Leading(items, key, count, k).value
         == Ranked(items, key, count)[..|Leading(items, key, count, k).value|]
    ensures multiset(Ranked(items, key, count)) == multiset(items)
  {
    RankedIsPermutation(items, key, count);
  }

  /** A cut of a permutation of the evidence, with what it leaves out, makes
      up the evidence. */
  lemma CutCoversRanking(ranked: seq<Evidence>, m: nat, evidence: seq<Evidence>)
    requires m <= |ranked| && multiset(ranked) == multiset(evidence)
    ensures multiset(ranked[..m]) + multiset(ranked[m..]) == multiset(evidence)
  {
    assert ranked == ranked[..m] + ranked[m..];
  }

  /** With every key in range, a bucket outside the range is empty. */
  lemma {:induction false} BucketOutsideRange(items: seq<Evidence>, key: Evidence -> int, count: nat, b: int)
    requires InRange(items, key, count) && !(0 <= b < count)
    ensures Bucket(items, key, b) == []
  {
    if items != [] {
      var init := items[..|items| - 1];
      assert InRange(init, key, count) by {
        forall i | 0 <= i < |init| ensures 0 <= key(init[i]) < count {
          assert init[i] == items[i];
        }
      }
      BucketOutsideRange(init, key, count, b);
    }
  }

  // ---------------------------------------------------------------------
  // The URL table

  /** What the table held for `url` before: nothing if it was absent. */
  function Prior(table: map<string, set<string>>, url: string): set<string> {
    if url in table then table[url] else {}
  }

  /** The queries among `qs` whose results hold `url`. */
  function Finders(url: string, qs: set<string>, search: string -> seq<string>): set<string> {
    set q | q in qs && url in search(q)
  }

  /** `after` is `before` with `q` added for every URL of `found`. */
  ghost predicate Added(before: map<string, set<string>>, after: map<string, set<string>>, q: string,
                  found: seq<string>) {
    (forall u :: u in after <==> u in before || u in found)
    && forall u :: u in after ==> after[u] == Prior(before, u) + (if u in found then {q} else {})
  }

  /** `table` is `base` with the results of the queries `done` added. */
  ghost predicate Table(table: map<string, set<string>>, base: map<string, set<string>>, done: set<string>,
                  search: string -> seq<string>) {
    (forall u :: u in table <==> u in base || exists q :: q in done && u in search(q))
    && forall u :: u in table ==> table[u] == Prior(base, u) + Finders(u, done, search)
  }

  /** Lines 64-67 for the `i`-th URL of `found`. */
  lemma AddedStep(base: map<string, set<string>>, before: map<string, set<string>>,
                  after: map<string, set<string>>, q: string, found: seq<string>, i: nat)
    requires i < |found| && Added(base, before, q, found[..i])
    requires after == before[found[i] := Prior(before, found[i]) + {q}]
    ensures Added(base, after, q, found[..i + 1])
  {
    assert found[..i + 1] == found[..i] + [found[i]];
  }

  /** Adding the results of one more query to the table. */
  lemma TableStep(before: map<string, set<string>>, after: map<string, set<string>>,
                  base: map<string, set<string>>, done: set<string>, q: string,
                  search: string -> seq<string>)
    requires q !in done
    requires Table(before, base, done, search) && Added(before, after, q, search(q))
    ensures Table(after, base, done + {q}, search)
  {
    forall u | u in after
      ensures after[u] == Prior(base, u) + Finders(u, done + {q}, search)
    {
      FindersStep(u, done, q, search);
    }
  }

  lemma FindersStep(u: string, done: set<string>, q: string, search: string -> seq<string>)
    ensures Finders(u, done + {q}, search) == Finders(u, done, search) + (if u in search(q) then {q} else {})
  {
  }

  // ---------------------------------------------------------------------
  // The pages

  /** `pages` holds one page for each URL of `urls` that is no longer in
      `rest`, each made from its URL's queries and fetched text. */
  ghost predicate Built(pages: seq<Page>, rest: set<string>, urls: map<string, set<string>>,
                        fetch: string -> Option<string>) {
    rest <= urls.Keys
    && (forall i :: 0 <= i < |pages| ==>
          pages[i].url in urls && pages[i].url !in rest
          && pages[i] == NewPage(urls[pages[i].url], pages[i].url, fetch(pages[i].url)))
    && (forall i, j :: 0 <= i < j < |pages| ==> pages[i].url != pages[j].url)
    && Covered(pages, rest, urls)
  }

  /** Every URL is still to do or has its page. */
  ghost predicate Covered(pages: seq<Page>, rest: set<string>, urls: map<string, set<string>>) {
    forall u :: u in urls ==> u in rest || exists i :: 0 <= i < |pages| && pages[i].url == u
  }

  /** Building the page of one more URL. */
  lemma BuiltStep(pages: seq<Page>, rest: set<string>, urls: map<string, set<string>>,
                  fetch: string -> Option<string>, url: string)
    requires Built(pages, rest, urls, fetch) && url in rest
    ensures Built(pages + [NewPage(urls[url], url, fetch(url))], rest - {url}, urls, fetch)
  {
    CoveredStep(pages, rest, urls, NewPage(urls[url], url, fetch(url)));
  }

  lemma CoveredStep(pages: seq<Page>, rest: set<string>, urls: map<string, set<string>>, page: Page)
    requires Covered(pages, rest, urls)
    ensures Covered(pages + [page], rest - {page.url}, urls)
  {
    var next := pages + [page];
    forall u | u in urls
      ensures u in rest - {page.url} || exists i :: 0 <= i < |next| && next[i].url == u
    {
      if u == page.url {
        assert next[|pages|].url == u;
      } else if u !in rest {
        var i :| 0 <= i < |pages| && pages[i].url == u;
        assert next[i].url == u;
      }
    }
  }

  /** With no URL left, every URL has its page. */
  lemma BuiltCovers(pages: seq<Page>, urls: map<string, set<string>>, fetch: string -> Option<string>)
    requires Built(pages, {}, urls, fetch)
    ensures forall u :: u in urls ==> exists i :: 0 <= i < |pages| && pages[i].url == u
  {
  }

  // ---------------------------------------------------------------------
  // Lemmas behind the implementation

  /** The evidence of the first `pi + 1` pages. */
  lemma EvidenceOfNextPage(pages: seq<Page>, pi: nat, contextWindow: int)
    requires pi < |pages|
    ensures AllEvidence(pages[..pi + 1], contextWindow)
      == AllEvidence(pages[..pi], contextWindow) + PageEvidence(pages[pi], contextWindow)
  {
    assert pages[..pi + 1][..pi] == pages[..pi];
  }

  /** The evidence of a run of pages followed by more pages. */
  lemma {:induction false} EvidenceAppend(a: seq<Page>, c: seq<Page>, contextWindow: int)
    ensures AllEvidence(a + c, contextWindow) == AllEvidence(a, contextWindow) + AllEvidence(c, contextWindow)
    decreases |c|
  {
    if c != [] {
      assert (a + c)[..|a + c| - 1] == a + c[..|c| - 1];
      EvidenceAppend(a, c[..|c| - 1], contextWindow);
    } else {
      assert a + c == a;
    }
  }

  /** The item being placed is the next item of the whole evidence. */
  lemma EvidencePrefix(pages: seq<Page>, pi: nat, position: nat, contextWindow: int)
    requires pi < |pages| && position < |PageEvidence(pages[pi], contextWindow)|
    ensures var before := AllEvidence(pages[..pi], contextWindow);
      |before| + position < |AllEvidence(pages, contextWindow)|
      && AllEvidence(pages, contextWindow)[|before| + position] == PageEvidence(pages[pi], contextWindow)[position]
  {
    EvidenceOfNextPage(pages, pi, contextWindow);
    EvidenceAppend(pages[..pi + 1], pages[pi + 1..], contextWindow);
    assert pages[..pi + 1] + pages[pi + 1..] == pages;
  }

  /** Appending one item in range to its bucket keeps the buckets filled. */
  lemma FilledSnoc<T>(buckets: seq<seq<T>>, seen: seq<T>, x: T, key: T -> int)
    requires Filled(buckets, seen, key) && 0 <= key(x) < |buckets|
    ensures Filled(buckets[key(x) := buckets[key(x)] + [x]], seen + [x], key)
  {
    assert (seen + [x])[..|seen|] == seen;
    var s := seen + [x];
    forall i | 0 <= i < |s| ensures 0 <= key(s[i]) < |buckets| {
      if i < |seen| {
        assert s[i] == seen[i];
      }
    }
  }

  /** Placing the next item of a page. */
  lemma FillStep<T>(buckets: seq<seq<T>>, seen: seq<T>, pe: seq<T>, position: nat, key: T -> int)
    requires position < |pe| && Filled(buckets, seen + pe[..position], key)
    requires 0 <= key(pe[position]) < |buckets|
    ensures Filled(buckets[key(pe[position]) := buckets[key(pe[position])] + [pe[position]]],
                   seen + pe[..position + 1], key)
  {
    FilledSnoc(buckets, seen + pe[..position], pe[position], key);
    assert seen + pe[..position + 1] == seen + pe[..position] + [pe[position]];
  }

  /** An item whose bucket is out of range is an item of the whole
      evidence. */
  lemma PageOutOfRange(pages: seq<Page>, pi: nat, contextWindow: int, key: Evidence -> int, count: nat)
    requires pi < |pages|
    requires !InRange(PageEvidence(pages[pi], contextWindow), key, count)
    ensures !InRange(AllEvidence(pages, contextWindow), key, count)
  {
    var pe := PageEvidence(pages[pi], contextWindow);
    var position :| 0 <= position < |pe| && !(0 <= key(pe[position]) < count);
    EvidencePrefix(pages, pi, position, contextWindow);
  }
}
