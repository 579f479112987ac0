/** `Page.get_sentence_content`: the text shown for one sentence of a page,
    that sentence with up to `context_window` sentences on either side. */
module ContextWindow {
  import opened PyStr
  import opened Bounds

  /** `" ".join(parts).strip()`. */
  function Spaced(parts: seq<string>): string {
    Strip(Join(" ", parts))
  }

  /** Reference definition of a window: the sentences of `s`, from index
      `from` on, whose index `k` satisfies `lo <= k < hi`, in order. */
  function Between(s: seq<string>, from: nat, lo: int, hi: int): seq<string>
    requires from <= |s|
    decreases |s| - from
  {
    if from == |s| then []
    else (if lo <= from < hi then [s[from]] else []) + Between(s, from + 1, lo, hi)
  }

  /** Start of the slice for the pre-context (line 335). */
  function PreStart(position: int, contextWindow: int): int {
    Max(0, position - contextWindow)
  }

  /** Lines 334-335. */
  function PreContext(sentences: seq<string>, position: nat, contextWindow: int): string
    requires position < |sentences|
  {
    if position > 0 && contextWindow > 0 then
      Spaced(sentences[PreStart(position, contextWindow)..position])
    else ""
  }

  /** End of the slice for the post-context as line 337 writes it: the page's
      last index `n - 1` is used as an exclusive slice end. */
  function PostEndAsWritten(n: int, position: int, contextWindow: int): int {
    Min(n - 1, position + contextWindow + 1)
  }

  /** Lines 336-337 as written. */
  function PostContextAsWritten(sentences: seq<string>, position: nat, contextWindow: int): string
    requires position < |sentences|
  {
    if position < |sentences| - 1 && contextWindow > 0 then
      Spaced(sentences[position + 1..PostEndAsWritten(|sentences|, position, contextWindow)])
    else ""
  }

  /** `get_sentence_content(position, context_window)` as written (lines 331-338). */
  function SentenceContentAsWritten(sentences: seq<string>, position: nat, contextWindow: int): (r: string)
    requires position < |sentences|
    ensures contextWindow <= 0 ==> r == " " + sentences[position] + " "
    ensures position + 2 >= |sentences| ==>
      r == PreContext(sentences, position, contextWindow) + " " + sentences[position] + " "
  {
    SpacedNothing();
    assert position + 2 >= |sentences| && position < |sentences| - 1 && contextWindow > 0 ==>
      sentences[position + 1..PostEndAsWritten(|sentences|, position, contextWindow)] == [];
    PreContext(sentences, position, contextWindow) + " " + sentences[position] + " "
    + PostContextAsWritten(sentences, position, contextWindow)
  }

  /** End of the slice for the post-context, clamped at the page length. */
  function PostEnd(n: int, position: int, contextWindow: int): int {
    Min(n, position + contextWindow + 1)
  }

  /** Lines 336-337 with the slice clamped at the page length. */
  function PostContext(sentences: seq<string>, position: nat, contextWindow: int): string
    requires position < |sentences|
  {
    if position < |sentences| - 1 && contextWindow > 0 then
      Spaced(sentences[position + 1..PostEnd(|sentences|, position, contextWindow)])
    else ""
  }

  /** `get_sentence_content(position, context_window)` with the post-context
      slice clamped at the page length rather than at its last index. */
  function GetSentenceContent(sentences: seq<string>, position: nat, contextWindow: int): (r: string)
    requires position < |sentences|
    ensures contextWindow <= 0 ==> r == " " + sentences[position] + " "
    ensures position == |sentences| - 1 ==>
      r == PreContext(sentences, position, contextWindow) + " " + sentences[position] + " "
  {
    PreContext(sentences, position, contextWindow) + " " + sentences[position] + " "
    + PostContext(sentences, position, contextWindow)
  }

  // ---------------------------------------------------------------------
  // Windows as slices

  /** A window is a slice of the page, clamped at both ends. */
  lemma {:induction false} BetweenIsSlice(s: seq<string>, from: nat, lo: int, hi: int)
    requires from <= |s|
    ensures var a := Max(lo, from); var b := Min(hi, |s|);
      Between(s, from, lo, hi) == if a < b then s[a..b] else []
    decreases |s| - from
  {
    if from < |s| {
      BetweenIsSlice(s, from + 1, lo, hi);
      var b := Min(hi, |s|);
      if lo <= from < hi {
        if from + 1 < b {
          assert [s[from]] + s[from + 1..b] == s[from..b];
        } else {
          assert s[from..b] == [s[from]];
        }
      }
    }
  }

  /** The pre-context is exactly the sentences at most `contextWindow`
      places before `position`; it is empty at the first sentence and for a
      window that is not positive. */
  lemma PreContextIsPrecedingWindow(s: seq<string>, position: nat, contextWindow: int)
    requires position < |s|
    ensures PreContext(s, position, contextWindow)
      == Spaced(Between(s, 0, position - contextWindow, position))
    ensures position == 0 || contextWindow <= 0 ==> PreContext(s, position, contextWindow) == ""
  {
    BetweenIsSlice(s, 0, position - contextWindow, position);
    assert Strip([]) == [];
  }

  /** The clamped post-context is exactly the sentences at most
      `contextWindow` places after `position`. */
  lemma PostContextIsFollowingWindow(s: seq<string>, position: nat, contextWindow: int)
    requires position < |s|
    ensures PostContext(s, position, contextWindow)
      == Spaced(Between(s, 0, position + 1, position + contextWindow + 1))
  {
    var w := Between(s, 0, position + 1, position + contextWindow + 1);
    BetweenIsSlice(s, 0, position + 1, position + contextWindow + 1);
    if position < |s| - 1 && contextWindow > 0 {
      assert w == s[position + 1..PostEnd(|s|, position, contextWindow)];
    } else {
      assert w == [];
      assert Spaced([]) == "";
    }
  }

  /** The post-context as written is the following window of the page with
      its last sentence removed: `sentences[n - 1]` never appears in it. */
  lemma PostContextAsWrittenDropsLast(s: seq<string>, position: nat, contextWindow: int)
    requires position < |s|
    ensures PostContextAsWritten(s, position, contextWindow)
      == Spaced(Between(s[..|s| - 1], 0, position + 1, position + contextWindow + 1))
  {
    var t := s[..|s| - 1];
    var w := Between(t, 0, position + 1, position + contextWindow + 1);
    BetweenIsSlice(t, 0, position + 1, position + contextWindow + 1);
    if position < |s| - 1 && contextWindow > 0 {
      var e := PostEndAsWritten(|s|, position, contextWindow);
      assert w == s[position + 1..e] by {
        if position + 1 < e {
          assert t[position + 1..e] == s[position + 1..e];
        } else {
          assert s[position + 1..e] == [];
        }
      }
    } else {
      assert w == [];
      SpacedNothing();
    }
  }

  /** Joining no sentences gives the empty string. */
  lemma SpacedNothing()
    ensures Spaced([]) == ""
  {
    assert Join(" ", []) == [];
    assert Strip([]) == [];
  }

  /** The content of a sentence is its preceding window, the sentence and
      its following window, separated by single spaces. */
  lemma SentenceContentIsWindows(s: seq<string>, position: nat, contextWindow: int)
    requires position < |s|
    ensures GetSentenceContent(s, position, contextWindow)
      == Spaced(Between(s, 0, position - contextWindow, position)) + " " + s[position] + " "
         + Spaced(Between(s, 0, position + 1, position + contextWindow + 1))
  {
    PreContextIsPrecedingWindow(s, position, contextWindow);
    PostContextIsFollowingWindow(s, position, contextWindow);
  }

  /** The content as written is the preceding window, the sentence and the
      following window with the page's last sentence left out, separated by
      single spaces. */
  lemma SentenceContentAsWrittenIsWindows(s: seq<string>, position: nat, contextWindow: int)
    requires position < |s|
    ensures SentenceContentAsWritten(s, position, contextWindow)
      == Spaced(Between(s, 0, position - contextWindow, position)) + " " + s[position] + " "
         + Spaced(Between(s[..|s| - 1], 0, position + 1, position + contextWindow + 1))
  {
    PreContextIsPrecedingWindow(s, position, contextWindow);
    PostContextAsWrittenDropsLast(s, position, contextWindow);
  }

  /** On a two-sentence page the first sentence's content as written never
      shows the second sentence, whatever the window; the clamped version
      does. */
  lemma LastSentenceMissingFromContext(a: string, b: string, contextWindow: int)
    requires contextWindow > 0
    ensures SentenceContentAsWritten([a, b], 0, contextWindow) == " " + a + " "
    ensures GetSentenceContent([a, b], 0, contextWindow) == " " + a + " " + Strip(b)
  {
    ContentOfFirstAsWritten(a, b, contextWindow);
    ContentOfFirst(a, b, contextWindow);
  }

  lemma ContentOfFirstAsWritten(a: string, b: string, contextWindow: int)
    requires contextWindow > 0
    ensures SentenceContentAsWritten([a, b], 0, contextWindow) == " " + a + " "
  {
    var s := [a, b];
    var pre := PreContext(s, 0, contextWindow);
    var post := PostContextAsWritten(s, 0, contextWindow);
    PostContextAsWrittenOfFirst(a, b, contextWindow);
    assert pre == "" && post == "";
    assert SentenceContentAsWritten(s, 0, contextWindow) == pre + " " + s[0] + " " + post;
  }

  lemma ContentOfFirst(a: string, b: string, contextWindow: int)
    requires contextWindow > 0
    ensures GetSentenceContent([a, b], 0, contextWindow) == " " + a + " " + Strip(b)
  {
    var post := Strip(b);
    PostContextOfFirst(a, b, contextWindow);
    ContentLayout([a, b], 0, contextWindow, "", post);
    assert "" + " " + a + " " + post == " " + a + " " + post;
  }

  /** The content is the pre-context, the sentence and the post-context,
      joined by single spaces. */
  lemma ContentLayout(s: seq<string>, position: nat, contextWindow: int, pre: string, post: string)
    requires position < |s|
    requires pre == PreContext(s, position, contextWindow)
    requires post == PostContext(s, position, contextWindow)
    ensures GetSentenceContent(s, position, contextWindow) == pre + " " + s[position] + " " + post
  {
  }

  lemma PostContextAsWrittenOfFirst(a: string, b: string, contextWindow: int)
    requires contextWindow > 0
    ensures PostContextAsWritten([a, b], 0, contextWindow) == ""
  {
    assert [a, b][1..1] == [];
    SpacedNothing();
  }

  lemma PostContextOfFirst(a: string, b: string, contextWindow: int)
    requires contextWindow > 0
    ensures PostContext([a, b], 0, contextWindow) == Strip(b)
  {
    assert [a, b][1..2] == [b];
  }
}
