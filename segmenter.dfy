/** `Page.split_into_sentences`: the rule-based sentence splitter, from
    the padding of the text to the stripped pieces between `<stop>`
    markers. */
module Segmenter {
  import opened Wrappers
  import opened PyStr

  /** Marker for a period that does not end a sentence. */
  const Prd := "<prd>"
  /** Marker for a sentence boundary. */
  const Stop := "<stop>"

  predicate IsAlpha(c: char) { 'A' <= c <= 'Z' || 'a' <= c <= 'z' }
  predicate IsUpper(c: char) { 'A' <= c <= 'Z' }
  predicate IsDigit(c: char) { '0' <= c <= '9' }

  // ---------------------------------------------------------------------
  // The regular-expression stages (Researcher.py lines 306-317)

  /** One `re.sub` stage of the splitter, named after what it protects. */
  datatype Rule =
    | Prefixes        // "(Mr|St|Mrs|Ms|Dr)[.]"               -> "\1<prd>"
    | Websites        // "[.](com|net|org|io|gov|edu|me)"      -> "<prd>\1"
    | Decimals        // "([0-9])[.]([0-9])"                  -> "\1<prd>\2"
    | MultipleDots    // "\.{2,}"                             -> "<prd>" * n + "<stop>"
    | SingleInitial   // "\s([A-Za-z])[.] "                   -> " \1<prd> "
    | AcronymStarter  // acronym + " " + starter              -> "\1<stop> \2"
    | ThreeInitials   // "([A-Za-z])[.]" three times          -> each period protected
    | TwoInitials     // "([A-Za-z])[.]" twice                -> each period protected
    | SuffixStarter   // " (Inc|Ltd|Jr|Sr|Co)[.] " + starter  -> " \1<stop> \2"
    | SuffixPeriod    // " (Inc|Ltd|Jr|Sr|Co)[.]"             -> " \1<prd>"
    | SpaceInitial    // " ([A-Za-z])[.]"                     -> " \1<prd>"

  /** A match at the current position: how many characters it consumes and
      what it is replaced by. */
  datatype Hit = Hit(len: nat, rep: string)

  const PrefixWords: seq<string> := ["Mr", "St", "Mrs", "Ms", "Dr"]
  const SuffixWords: seq<string> := ["Inc", "Ltd", "Jr", "Sr", "Co"]
  const WebsiteWords: seq<string> := ["com", "net", "org", "io", "gov", "edu", "me"]

  /** An alternative of the `starters` group: a bare word, or a word that
      must be followed by one whitespace character (`He\s`). */
  datatype Starter = Word(w: string) | WordThenSpace(w: string)

  const Starters: seq<Starter> := [
    Word("Mr"), Word("Mrs"), Word("Ms"), Word("Dr"), Word("Prof"), Word("Capt"),
    Word("Cpt"), Word("Lt"), WordThenSpace("He"), WordThenSpace("She"),
    WordThenSpace("It"), WordThenSpace("They"), WordThenSpace("Their"),
    WordThenSpace("Our"), WordThenSpace("We"), WordThenSpace("But"),
    WordThenSpace("However"), WordThenSpace("That"), WordThenSpace("This"),
    Word("Wherever")]

  /** The first word of `words`, in the order the alternation lists them,
      that starts `t` and is followed by `follow`. */
  function FirstWord(t: string, words: seq<string>, follow: string): (r: Option<string>)
    ensures r.Some? ==> r.value in words && r.value + follow <= t
  {
    if words == [] then None
    else if words[0] + follow <= t then Some(words[0])
    else FirstWord(t, words[1..], follow)
  }

  /** Length of the first alternative of `starters` that matches at the
      start of `t` (the group is last in its pattern, so the first
      alternative that matches is the one the engine keeps). */
  function StarterAt(t: string, alts: seq<Starter>): (r: Option<nat>)
    ensures r.Some? ==> 1 <= r.value <= |t|
  {
    if alts == [] then None
    else match alts[0]
      case Word(w) =>
        if w != [] && w <= t then Some(|w|) else StarterAt(t, alts[1..])
      case WordThenSpace(w) =>
        if w != [] && |w| < |t| && w <= t && IsSpace(t[|w|]) then Some(|w| + 1)
        else StarterAt(t, alts[1..])
  }

  /** A single space at `t[n]` followed by a starter: the length of the starter. */
  function StarterAfterSpace(t: string, n: nat): (r: Option<nat>)
    ensures r.Some? ==> n + 1 + r.value <= |t|
  {
    if n < |t| && t[n] == ' ' then StarterAt(t[n + 1..], Starters) else None
  }

  /** `[A-Z][.][A-Z][.]`, and with `three` one more `[A-Z][.]`. */
  predicate Acronym(t: string, three: bool) {
    var n := if three then 6 else 4;
    n <= |t| && IsUpper(t[0]) && t[1] == '.' && IsUpper(t[2]) && t[3] == '.'
    && (three ==> IsUpper(t[4]) && t[5] == '.')
  }

  /** `[A-Za-z][.][A-Za-z][.]`, and with `three` one more `[A-Za-z][.]`. */
  predicate Initials(t: string, three: bool) {
    var n := if three then 6 else 4;
    n <= |t| && IsAlpha(t[0]) && t[1] == '.' && IsAlpha(t[2]) && t[3] == '.'
    && (three ==> IsAlpha(t[4]) && t[5] == '.')
  }

  /** Length of the run of periods at the start of `t`. */
  function DotRun(t: string): (n: nat)
    ensures n <= |t|
    ensures n > 0 ==> t[0] == '.'
  {
    if t != [] && t[0] == '.' then 1 + DotRun(t[1..]) else 0
  }

  function Repeat(s: string, n: nat): string {
    if n == 0 then [] else s + Repeat(s, n - 1)
  }

  /** `" (Inc|Ltd|Jr|Sr|Co)[.] " + starters` at the start of `t`, trying the
      suffix words in order: the chosen word and the starter's length. */
  function SuffixThenStarter(t: string, words: seq<string>): (r: Option<(string, nat)>)
    ensures r.Some? ==> 1 + |r.value.0| + 2 + r.value.1 <= |t|
    ensures r.Some? ==> t[0] == ' ' && r.value.0 + ". " <= t[1..]
  {
    if words == [] || t == [] || t[0] != ' ' then None
    else
      var w := words[0];
      if w + ". " <= t[1..] && StarterAt(t[1 + |w| + 2..], Starters).Some? then
        Some((w, StarterAt(t[1 + |w| + 2..], Starters).value))
      else SuffixThenStarter(t, words[1..])
  }

  /** The match of `rule` at the start of `t`, if any. Every match consumes
      at least one character. */
  function MatchAt(rule: Rule, t: string): (r: Option<Hit>)
    ensures r.Some? ==> 1 <= r.value.len <= |t|
  {
    match rule
    case Prefixes =>
      (match FirstWord(t, PrefixWords, ".")
       case Some(w) => Some(Hit(|w| + 1, w + Prd))
       case None => None)
    case Websites =>
      if t != [] && t[0] == '.' then
        (match FirstWord(t[1..], WebsiteWords, "")
         case Some(w) => Some(Hit(1 + |w|, Prd + w))
         case None => None)
      else None
    case Decimals =>
      if 3 <= |t| && IsDigit(t[0]) && t[1] == '.' && IsDigit(t[2]) then
        Some(Hit(3, [t[0]] + Prd + [t[2]]))
      else None
    case MultipleDots =>
      var n := DotRun(t);
      if n >= 2 then Some(Hit(n, Repeat(Prd, n) + Stop)) else None
    case SingleInitial =>
      if 4 <= |t| && IsSpace(t[0]) && IsAlpha(t[1]) && t[2] == '.' && t[3] == ' ' then
        Some(Hit(4, " " + [t[1]] + Prd + " "))
      else None
    case AcronymStarter =>
      // the optional third letter is tried first; the engine backtracks to
      // the two-letter acronym when the rest of the pattern then fails
      if Acronym(t, true) && StarterAfterSpace(t, 6).Some? then
        var l := StarterAfterSpace(t, 6).value;
        Some(Hit(6 + 1 + l, t[..6] + Stop + " " + t[7..7 + l]))
      else if Acronym(t, false) && StarterAfterSpace(t, 4).Some? then
        var l := StarterAfterSpace(t, 4).value;
        Some(Hit(4 + 1 + l, t[..4] + Stop + " " + t[5..5 + l]))
      else None
    case ThreeInitials =>
      if Initials(t, true) then Some(Hit(6, [t[0]] + Prd + [t[2]] + Prd + [t[4]] + Prd)) else None
    case TwoInitials =>
      if Initials(t, false) then Some(Hit(4, [t[0]] + Prd + [t[2]] + Prd)) else None
    case SuffixStarter =>
      (match SuffixThenStarter(t, SuffixWords)
       case Some((w, l)) =>
         var start := 1 + |w| + 2;
         Some(Hit(start + l, " " + w + Stop + " " + t[start..start + l]))
       case None => None)
    case SuffixPeriod =>
      if t != [] && t[0] == ' ' then
        (match FirstWord(t[1..], SuffixWords, ".")
         case Some(w) => Some(Hit(1 + |w| + 1, " " + w + Prd))
         case None => None)
      else None
    case SpaceInitial =>
      if 3 <= |t| && t[0] == ' ' && IsAlpha(t[1]) && t[2] == '.' then
        Some(Hit(3, " " + [t[1]] + Prd))
      else None
  }

  /** `re.sub(pattern, repl, s)`: matches are found left to right without
      overlap; text that was not matched is copied. */
  function ReSub(rule: Rule, s: string): (r: string)
    ensures '.' !in s ==> r == s
    decreases |s|
  {
    if s == [] then []
    else
      MatchConsumesPeriod(rule, s);
      match MatchAt(rule, s)
      case Some(h) => h.rep + ReSub(rule, s[h.len..])
      case None =>
        assert [s[0]] + s[1..] == s;
        [s[0]] + ReSub(rule, s[1..])
  }

  // ---------------------------------------------------------------------
  // The splitter

  /** Lines 304-317: pad the text, turn newlines into spaces, and mark the
      periods that do not end a sentence with `<prd>` (and a few boundaries
      with `<stop>`). */
  function Protect(text: string): string {
    ProtectPeriods(Replace(" " + text + "  ", "\n", " "))
  }

  /** Lines 306-317, the regular-expression stages. */
  function ProtectPeriods(t: string): (r: string)
    ensures '.' !in t ==> r == t
  {
    PeriodFreeLacksPhD(t);
    var t := ReSub(Prefixes, t);
    var t := ReSub(Websites, t);
    var t := ReSub(Decimals, t);
    var t := ReSub(MultipleDots, t);
    var t := if Contains(t, "Ph.D") then Replace(t, "Ph.D.", "Ph<prd>D<prd>") else t;
    var t := ReSub(SingleInitial, t);
    var t := ReSub(AcronymStarter, t);
    var t := ReSub(ThreeInitials, t);
    var t := ReSub(TwoInitials, t);
    var t := ReSub(SuffixStarter, t);
    var t := ReSub(SuffixPeriod, t);
    ReSub(SpaceInitial, t)
  }

  /** Lines 318-324: move terminators in front of closing quotes, then put
      `<stop>` after every remaining terminator. */
  function MarkTerminators(text: string): (r: string)
    ensures '.' !in text && '?' !in text && '!' !in text && '"' !in text && '\U{201d}' !in text
      ==> r == text
  {
    TerminatorFreeLacksPatterns(text);
    var t := if Contains(text, "\U{201d}") then Replace(text, ".\U{201d}", "\U{201d}.") else text;
    var t := if Contains(t, "\"") then Replace(t, ".\"", "\".") else t;
    var t := if Contains(t, "!") then Replace(t, "!\"", "\"!") else t;
    var t := if Contains(t, "?") then Replace(t, "?\"", "\"?") else t;
    var t := Replace(t, ".", ".<stop>");
    var t := Replace(t, "?", "?<stop>");
    Replace(t, "!", "!<stop>")
  }

  /** Lines 318-325: the terminators marked, then `<prd>` turned back into
      a period. */
  function MarkStops(text: string): string {
    Replace(MarkTerminators(text), Prd, ".")
  }

  /** The pieces of the marked text between `<stop>` markers, stripped. */
  function StrippedPieces(marked: string): (pieces: seq<string>)
    ensures |pieces| == |Split(marked, Stop)|
    ensures |pieces| >= 1
    ensures forall k :: 0 <= k < |pieces| ==> pieces[k] == Strip(Split(marked, Stop)[k])
  {
    StripEach(Split(marked, Stop))
  }

  /** Every part, stripped. */
  function StripEach(parts: seq<string>): (r: seq<string>)
    ensures |r| == |parts|
    ensures forall k :: 0 <= k < |parts| ==> r[k] == Strip(parts[k])
  {
    if parts == [] then [] else [Strip(parts[0])] + StripEach(parts[1..])
  }

  /** Lines 326-328: split on `<stop>`, strip every piece, and drop the last
      piece when it is empty. Only the last piece can be dropped; empty
      pieces before it stay. */
  function Finish(marked: string): (r: seq<string>)
    ensures var pieces := StrippedPieces(marked);
      && (|r| == |pieces| || |r| == |pieces| - 1)
      && r == pieces[..|r|]
      && (|r| < |pieces| <==> pieces[|pieces| - 1] == [])
  {
    var sentences := StrippedPieces(marked);
    if |sentences| > 0 && sentences[|sentences| - 1] == [] then sentences[..|sentences| - 1]
    else sentences
  }

  /** `Page.split_into_sentences(text)`. */
  function SplitIntoSentences(text: string): (r: seq<string>)
    ensures forall k :: 0 <= k < |r| ==> Stripped(r[k])
  {
    var pieces := StrippedPieces(MarkStops(Protect(text)));
    assert forall k :: 0 <= k < |pieces| ==> Stripped(pieces[k]);
    Finish(MarkStops(Protect(text)))
  }

  // ---------------------------------------------------------------------
  // Properties of the splitter

  /** Every protection rule fires only on a period: the text a match
      consumes contains one. */
  lemma MatchConsumesPeriod(rule: Rule, t: string)
    ensures MatchAt(rule, t).Some? ==>
      exists i :: 0 <= i < MatchAt(rule, t).value.len && t[i] == '.'
  {
    var r := MatchAt(rule, t);
    if r.Some? {
      var n := r.value.len;
      match rule
      case Prefixes =>
        var w := FirstWord(t, PrefixWords, ".").value;
        assert (w + ".")[|w|] == '.';
        assert t[..n][|w|] == '.';
      case SuffixStarter =>
        var w := SuffixThenStarter(t, SuffixWords).value.0;
        assert (w + ". ")[|w|] == '.';
        assert t[1..][|w|] == t[..n][1 + |w|];
      case SuffixPeriod =>
        var w := FirstWord(t[1..], SuffixWords, ".").value;
        assert (w + ".")[|w|] == '.';
        assert t[1..][|w|] == t[..n][1 + |w|];
      case Websites => assert t[..n][0] == '.';
      case MultipleDots => assert t[..n][0] == '.';
      case SingleInitial => assert t[..n][2] == '.';
      case SpaceInitial => assert t[..n][2] == '.';
      case Decimals => assert t[..n][1] == '.';
      case AcronymStarter => assert t[..n][1] == '.';
      case ThreeInitials => assert t[..n][1] == '.';
      case TwoInitials => assert t[..n][1] == '.';
    }
  }

  /** A character that does not occur in a text is not in any pattern the text contains. */
  lemma AbsentChar(s: string, pat: string, c: char)
    requires c in pat && c !in s
    ensures !Contains(s, pat)
  {
    if Contains(s, pat) {
      ContainsChars(s, pat, c);
    }
  }

  /** A text without periods does not contain "Ph.D". */
  lemma PeriodFreeLacksPhD(t: string)
    ensures '.' !in t ==> !Contains(t, "Ph.D")
  {
    if '.' !in t {
      AbsentChar(t, "Ph.D", '.');
    }
  }

  /** A text without terminators or quotes contains none of the patterns
      lines 318-324 look for. */
  lemma TerminatorFreeLacksPatterns(t: string)
    ensures '.' !in t && '?' !in t && '!' !in t && '"' !in t && '\U{201d}' !in t ==>
      !Contains(t, "\U{201d}") && !Contains(t, "\"") && !Contains(t, "!") && !Contains(t, "?")
      && !Contains(t, ".")
  {
    if '.' !in t && '?' !in t && '!' !in t && '"' !in t && '\U{201d}' !in t {
      AbsentChar(t, "\U{201d}", '\U{201d}');
      AbsentChar(t, "\"", '"');
      AbsentChar(t, "!", '!');
      AbsentChar(t, "?", '?');
      AbsentChar(t, ".", '.');
    }
  }

  /** Text with no terminator, quote, period or newline, and no `<prd>`
      marker, is only split where it already holds `<stop>` markers: the
      splitter reduces to padding it and splitting on `<stop>`. */
  lemma UnpunctuatedText(text: string)
    requires '.' !in text && '?' !in text && '!' !in text && '"' !in text
    requires '\U{201d}' !in text && '\n' !in text
    requires !Contains(text, Prd)
    ensures SplitIntoSentences(text) == Finish(" " + text + "  ")
  {
    PaddedUnpunctuatedProtected(text);
    PaddedUnpunctuatedMarked(text);
  }

  lemma PaddedUnpunctuatedProtected(text: string)
    requires '.' !in text && '\n' !in text
    ensures Protect(text) == " " + text + "  "
  {
    var t := " " + text + "  ";
    assert '.' !in t && '\n' !in t by {
      assert forall c :: c in t ==> c == ' ' || c in text;
    }
    AbsentChar(t, "\n", '\n');
  }

  lemma PaddedUnpunctuatedMarked(text: string)
    requires '.' !in text && '?' !in text && '!' !in text && '"' !in text
    requires '\U{201d}' !in text
    requires !Contains(text, Prd)
    ensures MarkStops(" " + text + "  ") == " " + text + "  "
  {
    var t := " " + text + "  ";
    assert '.' !in t && '?' !in t && '!' !in t && '"' !in t && '\U{201d}' !in t by {
      assert forall c :: c in t ==> c == ' ' || c in text;
    }
    PaddingAddsNoOccurrence(text, Prd, " ", "  ");
  }

  /** Every sentence the splitter returns is stripped of surrounding
      whitespace and holds neither marker: `<stop>` is the separator it
      splits on, and `<prd>` was turned back into a period before. */
  lemma SentencesAreClean(text: string)
    ensures forall x :: x in SplitIntoSentences(text) ==>
      Stripped(x) && !Contains(x, Stop) && !Contains(x, Prd)
  {
    var marked := MarkStops(Protect(text));
    var before := MarkTerminators(Protect(text));
    assert marked == Replace(before, Prd, ".");
    ReplaceRemoves(before, Prd, ".");
    var parts := Split(marked, Stop);
    SplitPiecesAvoidSep(marked, Stop);
    SplitPiecesInherit(marked, Stop, Prd);
    var pieces := StrippedPieces(marked);
    forall k | 0 <= k < |pieces|
      ensures Stripped(pieces[k]) && !Contains(pieces[k], Stop) && !Contains(pieces[k], Prd)
    {
      var i, j :| 0 <= i <= j <= |parts[k]| && pieces[k] == parts[k][i..j];
      SliceAvoids(parts[k], Stop, i, j);
      SliceAvoids(parts[k], Prd, i, j);
    }
  }

  /** The splitter can return an empty last sentence, and empty sentences
      inside the list: a text that already holds `<stop>` markers is split
      at them, as the docstring of `split_into_sentences` warns. For
      instance `"A<stop><stop>"` gives `["A", ""]`. */
  lemma MarkersInInputLeaveEmptySentences(w: string)
    requires w != [] && forall c :: c in w ==> IsUpper(c)
    ensures SplitIntoSentences(w + Stop + Stop) == [w, ""]
  {
    MarkersTextUnpunctuated(w);
    UnpunctuatedText(w + Stop + Stop);
    PaddedMarkersSplit(w);
  }

  lemma MarkersTextUnpunctuated(w: string)
    requires forall c :: c in w ==> IsUpper(c)
    ensures forall c :: c in w + Stop + Stop ==> IsUpper(c) || c in Stop
    ensures !Contains(w + Stop + Stop, Prd)
  {
    var text := w + Stop + Stop;
    forall c | c in text ensures IsUpper(c) || c in Stop {
      if c in w + Stop {
        assert c in w || c in Stop;
      }
    }
    AbsentChar(text, Prd, 'r');
  }

  lemma PaddedMarkersSplit(w: string)
    requires w != [] && forall c :: c in w ==> IsUpper(c)
    ensures Finish(" " + (w + Stop + Stop) + "  ") == [w, ""]
  {
    PaddedMarkersStripped(w);
  }

  lemma PaddedMarkersStripped(w: string)
    requires w != [] && forall c :: c in w ==> IsUpper(c)
    ensures StrippedPieces(" " + (w + Stop + Stop) + "  ") == [w, [], []]
  {
    PaddedMarkerPieces(w);
    StripThree(" " + w, [], "  ");
    StripPadded(w);
    StripBlank();
  }

  /** Three parts are stripped one by one. */
  lemma StripThree(x: string, y: string, z: string)
    ensures StripEach([x, y, z]) == [Strip(x), Strip(y), Strip(z)]
  {
    assert [x, y, z][1..] == [y, z] && [y, z][1..] == [z] && [z][1..] == [];
  }

  lemma StripBlank()
    ensures Strip("  ") == [] && Strip([]) == []
  {
    assert LeadingSpaces("  ") == 2;
  }

  lemma PaddedMarkerPieces(w: string)
    requires forall c :: c in w ==> IsUpper(c)
    ensures Split(" " + (w + Stop + Stop) + "  ", Stop) == [" " + w, [], "  "]
  {
    var t := " " + (w + Stop + Stop) + "  ";
    var tail := "  ";
    assert t == (" " + w) + Stop + ([] + Stop + tail);
    assert '<' !in " " + w by {
      assert forall c :: c in " " + w ==> c == ' ' || c in w;
    }
    SplitAfter(" " + w, [] + Stop + tail, Stop);
    SplitAfter([], tail, Stop);
    SplitWhole(tail, Stop);
  }

  lemma StripPadded(w: string)
    requires w != [] && forall c :: c in w ==> IsUpper(c)
    ensures Strip(" " + w) == w
  {
    assert (" " + w)[1..] == w;
    assert w[0] in w && w[|w| - 1] in w;
    assert LeadingSpaces(w) == 0;
    assert LeadingSpaces(" " + w) == 1;
    assert TrailingSpaces(w) == 0;
  }
}
