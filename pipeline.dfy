/** The helpers of the command-line pipeline: `ordinal`, `get_relevance`,
    and the step of `get_sentences_and_pages` that sorts the collected
    nodes by relevance and keeps the first `num_nodes` of them. */
module Pipeline {
  import opened PyStr
  import opened Research
  import opened Bounds

  // ---------------------------------------------------------------------
  // ordinal (main.py lines 89-97)

  /** The suffix English gives an ordinal ending in the digit `d`. */
  function SuffixFor(d: nat): string {
    if d == 1 then "st" else if d == 2 then "nd" else if d == 3 then "rd" else "th"
  }

  function Abs(n: int): nat { if n < 0 then -n else n }

  /** `ordinal(n)`: `str(n)` followed by a suffix chosen by its last
      character alone. */
  function Ordinal(n: int): (r: string)
    ensures r == IntToString(n) + SuffixFor(Abs(n) % 10)
  {
    var s := IntToString(n);
    LastCharOfIntToString(n);
    SuffixOfDigit(Abs(n) % 10);
    if s[|s| - 1] == '1' then s + "st"
    else if s[|s| - 1] == '2' then s + "nd"
    else if s[|s| - 1] == '3' then s + "rd"
    else s + "th"
  }

  /** The suffix that `ordinal` picks from a digit character is `SuffixFor`
      of that digit. */
  lemma SuffixOfDigit(d: nat)
    requires d < 10
    ensures SuffixFor(d) == if Digit(d) == '1' then "st" else if Digit(d) == '2' then "nd"
                            else if Digit(d) == '3' then "rd" else "th"
  {
  }

  /** The last character of `str(n)` is the last decimal digit of `|n|`. */
  lemma LastCharOfIntToString(n: int)
    ensures |IntToString(n)| >= 1
    ensures IntToString(n)[|IntToString(n)| - 1] == Digit(Abs(n) % 10)
  {
    LastCharIsLastDigit(Abs(n));
    if n < 0 {
      var t := NatToString(-n);
      assert IntToString(n)[|IntToString(n)| - 1] == t[|t| - 1];
    }
  }

  /** Only the last digit counts, so eleven gets "st". */
  lemma OrdinalEleven()
    ensures Ordinal(11) == "11st"
  {
    assert NatToString(11) == NatToString(1) + [Digit(1)];
  }

  /** Twelve gets "nd". */
  lemma OrdinalTwelve()
    ensures Ordinal(12) == "12nd"
  {
    assert NatToString(12) == NatToString(1) + [Digit(2)];
  }

  /** Thirteen gets "rd". */
  lemma OrdinalThirteen()
    ensures Ordinal(13) == "13rd"
  {
    assert NatToString(13) == NatToString(1) + [Digit(3)];
  }

  // ---------------------------------------------------------------------
  // get_relevance (main.py lines 20-21)

  /** `get_relevance(sentence)`: the negated relevance. */
  function GetRelevance(node: Node): (r: real)
    ensures r + node.relevance == 0.0
  {
    -node.relevance
  }

  /** Ordering by `get_relevance` is ordering by decreasing relevance. */
  lemma GetRelevanceReverses(a: Node, b: Node)
    ensures GetRelevance(a) <= GetRelevance(b) <==> a.relevance >= b.relevance
    ensures GetRelevance(a) == GetRelevance(b) <==> a.relevance == b.relevance
  {
  }

  // ---------------------------------------------------------------------
  // sentences_list.sort(key=get_relevance) (main.py line 62)

  /** `t` with `x` placed after every node whose key is at most its own. */
  function InsertByRelevance(t: seq<Node>, x: Node): (r: seq<Node>)
    ensures |r| == |t| + 1
  {
    if t == [] then [x]
    else if GetRelevance(t[|t| - 1]) <= GetRelevance(x) then t + [x]
    else InsertByRelevance(t[..|t| - 1], x) + [t[|t| - 1]]
  }

  /** Python's stable sort of the nodes by `get_relevance`, as an insertion
      sort. */
  function SortByRelevance(s: seq<Node>): (r: seq<Node>)
    ensures |r| == |s|
    ensures SortedByRelevance(r)
  {
    if s == [] then []
    else
      var sorted := SortByRelevance(s[..|s| - 1]);
      InsertKeepsOrder(sorted, s[|s| - 1]);
      InsertByRelevance(sorted, s[|s| - 1])
  }

  /** Non-decreasing `get_relevance`: non-increasing relevance. */
  predicate SortedByRelevance(s: seq<Node>) {
    forall i, j :: 0 <= i < j < |s| ==> GetRelevance(s[i]) <= GetRelevance(s[j])
  }

  /** The nodes of relevance `v`, in order. */
  function WithRelevance(s: seq<Node>, v: real): seq<Node> {
    if s == [] then []
    else WithRelevance(s[..|s| - 1], v) + (if s[|s| - 1].relevance == v then [s[|s| - 1]] else [])
  }

  lemma {:induction false} InsertKeepsNodes(t: seq<Node>, x: Node)
    ensures multiset(InsertByRelevance(t, x)) == multiset(t) + multiset{x}
  {
    if t != [] && GetRelevance(t[|t| - 1]) > GetRelevance(x) {
      var init := t[..|t| - 1];
      InsertKeepsNodes(init, x);
      assert t == init + [t[|t| - 1]];
    }
  }

  lemma {:induction false} InsertKeepsOrder(t: seq<Node>, x: Node)
    requires SortedByRelevance(t)
    ensures SortedByRelevance(InsertByRelevance(t, x))
  {
    if t != [] && GetRelevance(t[|t| - 1]) > GetRelevance(x) {
      var init := t[..|t| - 1];
      var last := t[|t| - 1];
      InsertKeepsOrder(init, x);
      InsertKeepsNodes(init, x);
      var u := InsertByRelevance(init, x);
      forall i | 0 <= i < |u| ensures GetRelevance(u[i]) <= GetRelevance(last) {
        assert u[i] in multiset(init) + multiset{x} by {
          assert u[i] in multiset(u);
        }
        if u[i] != x {
          var j :| 0 <= j < |init| && init[j] == u[i];
          assert t[j] == u[i];
        }
      }
    }
  }

  lemma {:induction false} InsertKeepsTies(t: seq<Node>, x: Node, v: real)
    ensures WithRelevance(InsertByRelevance(t, x), v)
      == WithRelevance(t, v) + (if x.relevance == v then [x] else [])
  {
    if t == [] {
    } else if GetRelevance(t[|t| - 1]) <= GetRelevance(x) {
      assert (t + [x])[..|t|] == t;
    } else {
      var init := t[..|t| - 1];
      var last := t[|t| - 1];
      InsertKeepsTies(init, x, v);
      var u := InsertByRelevance(init, x);
      assert (u + [last])[..|u|] == u;
    }
  }

  /** The sort keeps every node, counted with multiplicity. */
  lemma {:induction false} SortPermutes(s: seq<Node>)
    ensures multiset(SortByRelevance(s)) == multiset(s)
    ensures |SortByRelevance(s)| == |s|
  {
    SortKeepsNodes(s);
    assert |multiset(SortByRelevance(s))| == |multiset(s)|;
  }

  lemma {:induction false} SortKeepsNodes(s: seq<Node>)
    ensures multiset(SortByRelevance(s)) == multiset(s)
  {
    if s != [] {
      var init, last := s[..|s| - 1], s[|s| - 1];
      SortKeepsNodes(init);
      InsertKeepsNodes(SortByRelevance(init), last);
      assert SortByRelevance(s) == InsertByRelevance(SortByRelevance(init), last);
      assert multiset(s) == multiset(init) + multiset{last} by {
        assert s == init + [last];
      }
    }
  }

  /** The sort is stable: nodes of equal relevance keep their order. */
  lemma {:induction false} SortIsStable(s: seq<Node>, v: real)
    ensures WithRelevance(SortByRelevance(s), v) == WithRelevance(s, v)
  {
    if s != [] {
      SortIsStable(s[..|s| - 1], v);
      InsertKeepsTies(SortByRelevance(s[..|s| - 1]), s[|s| - 1], v);
    }
  }

  // ---------------------------------------------------------------------
  // researcher.nodes = sentences_list[:min(num_nodes, len(sentences_list))] (line 63)

  /** `s[:m]` with Python's reading of a negative end: counted from the
      back, and empty once it passes the front. */
  function PyPrefix<T>(s: seq<T>, m: int): (r: seq<T>)
    ensures r <= s
    ensures |r| == if m >= 0 then Min(m, |s|) else Max(|s| + m, 0)
  {
    if m >= 0 then s[..Min(m, |s|)] else s[..Max(|s| + m, 0)]
  }

  /** The nodes kept from the collected ones. */
  function KeptNodes(collected: seq<Node>, numNodes: int): (r: seq<Node>)
    ensures r <= SortByRelevance(collected)
    ensures |r| == if numNodes >= 0 then Min(numNodes, |collected|) else Max(|collected| + numNodes, 0)
  {
    PyPrefix(SortByRelevance(collected), Min(numNodes, |collected|))
  }

  /** For a node count of zero or more, the kept nodes are the
      `min(num_nodes, n)` most relevant ones, most relevant first; nothing
      left out is more relevant than anything kept. */
  lemma KeptAreMostRelevant(collected: seq<Node>, numNodes: int)
    requires numNodes >= 0
    ensures var kept := KeptNodes(collected, numNodes);
      |kept| == Min(numNodes, |collected|)
      && multiset(kept) <= multiset(collected)
      && (forall i, j :: 0 <= i < j < |kept| ==> kept[i].relevance >= kept[j].relevance)
      && forall i, j :: 0 <= i < |kept| && |kept| <= j < |SortByRelevance(collected)| ==>
           SortByRelevance(collected)[j].relevance <= kept[i].relevance
  {
    var sorted := SortByRelevance(collected);
    SortPermutes(collected);
    var m := Min(numNodes, |collected|);
    assert KeptNodes(collected, numNodes) == sorted[..m];
    PrefixOfSorted(sorted, m);
    PrefixKeepsNodes(sorted, m);
  }

  /** A prefix of a sequence sorted by `get_relevance` is sorted, and
      nothing after it is more relevant than anything in it. */
  lemma PrefixOfSorted(sorted: seq<Node>, m: nat)
    requires SortedByRelevance(sorted) && m <= |sorted|
    ensures forall i, j :: 0 <= i < j < m ==> sorted[..m][i].relevance >= sorted[..m][j].relevance
    ensures forall i, j :: 0 <= i < m <= j < |sorted| ==> sorted[j].relevance <= sorted[..m][i].relevance
  {
  }

  /** A prefix holds no node more often than the whole sequence does. */
  lemma PrefixKeepsNodes(sorted: seq<Node>, m: nat)
    requires m <= |sorted|
    ensures multiset(sorted[..m]) <= multiset(sorted)
  {
    assert sorted == sorted[..m] + sorted[m..];
  }

  /** `get_sentences_and_pages`, past the parallel collection: sort
      `sentences_list` in place by `get_relevance` and keep its first
      `min(num_nodes, len(sentences_list))` nodes. */
  method GetSentencesAndPages(researcher: Researcher, sentencesList: array<Node>, numNodes: int)
    modifies researcher`nodes, sentencesList
    ensures sentencesList[..] == SortByRelevance(old(sentencesList[..]))
    ensures researcher.nodes == KeptNodes(old(sentencesList[..]), numNodes)
  {
    var sorted := SortByRelevance(sentencesList[..]);
    SortPermutes(sentencesList[..]);
    forall i | 0 <= i < sentencesList.Length {
      sentencesList[i] := sorted[i];
    }
    researcher.nodes := PyPrefix(sentencesList[..], Min(numNodes, sentencesList.Length));
  }
}
