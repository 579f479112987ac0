/** The few Python `str` operations the pipeline is built from, with the
    semantics CPython gives them: `str.replace`, `str.split(sep)`,
    `str.strip()`, `sep.join(parts)`, `x in s` and `str(n)` for integers. */
module PyStr {

  /** `c.isspace()`, which is also what `str.strip()` removes and what `\s`
      matches in a `str` regular expression. */
  predicate IsSpace(c: char) {
    c == ' ' || ('\t' <= c <= '\r') || ('\U{1c}' <= c <= '\U{1f}')
    || c == '\U{85}' || c == '\U{a0}' || c == '\U{1680}'
    || ('\U{2000}' <= c <= '\U{200a}') || c == '\U{2028}' || c == '\U{2029}'
    || c == '\U{202f}' || c == '\U{205f}' || c == '\U{3000}'
  }

  /** `pat` occurs in `s` starting at index `i`. */
  predicate OccursAt(s: string, pat: string, i: nat) {
    i + |pat| <= |s| && s[i..i + |pat|] == pat
  }

  /** `pat in s`. */
  predicate Contains(s: string, pat: string) {
    exists i: nat | i <= |s| :: OccursAt(s, pat, i)
  }

  /** `s.replace(pat, rep)`: every occurrence, scanned left to right
      without overlap, is replaced; the text produced is not scanned again. */
  function Replace(s: string, pat: string, rep: string): (r: string)
    requires pat != []
    ensures !Contains(s, pat) ==> r == s
  {
    if s == [] then []
    else if pat <= s then
      assert OccursAt(s, pat, 0);
      rep + Replace(s[|pat|..], pat, rep)
    else
      TailContains(s, pat);
      assert [s[0]] + s[1..] == s;
      [s[0]] + Replace(s[1..], pat, rep)
  }

  /** An occurrence in the tail of a text is an occurrence in the text. */
  lemma TailContains(s: string, pat: string)
    requires s != []
    ensures Contains(s[1..], pat) ==> Contains(s, pat)
  {
    if Contains(s[1..], pat) {
      var i: nat :| i <= |s[1..]| && OccursAt(s[1..], pat, i);
      assert s[1..][i..i + |pat|] == s[i + 1..i + 1 + |pat|];
      assert OccursAt(s, pat, i + 1);
    }
  }

  /** `s.split(sep)`: the pieces between the non-overlapping occurrences of
      `sep`, found left to right; there is always at least one piece. */
  function Split(s: string, sep: string): (pieces: seq<string>)
    requires sep != []
    ensures |pieces| >= 1
  {
    if s == [] then [[]]
    else if sep <= s then [[]] + Split(s[|sep|..], sep)
    else
      var rest := Split(s[1..], sep);
      [[s[0]] + rest[0]] + rest[1..]
  }

  /** `sep.join(parts)`. */
  function Join(sep: string, parts: seq<string>): (r: string)
    ensures parts != [] ==> parts[0] <= r
  {
    if parts == [] then []
    else if |parts| == 1 then parts[0]
    else parts[0] + sep + Join(sep, parts[1..])
  }

  /** Number of whitespace characters at the front of `s`. */
  function LeadingSpaces(s: string): (n: nat)
    ensures n <= |s|
    ensures forall i :: 0 <= i < n ==> IsSpace(s[i])
    ensures n < |s| ==> !IsSpace(s[n])
  {
    if s != [] && IsSpace(s[0]) then 1 + LeadingSpaces(s[1..]) else 0
  }

  /** Number of whitespace characters at the end of `s`. */
  function TrailingSpaces(s: string): (n: nat)
    ensures n <= |s|
    ensures forall i :: |s| - n <= i < |s| ==> IsSpace(s[i])
    ensures n < |s| ==> !IsSpace(s[|s| - 1 - n])
  {
    if s != [] && IsSpace(s[|s| - 1]) then 1 + TrailingSpaces(s[..|s| - 1]) else 0
  }

  /** A string `strip()` leaves as it is. */
  predicate Stripped(s: string) {
    s == [] || (!IsSpace(s[0]) && !IsSpace(s[|s| - 1]))
  }

  /** `s.strip()`: the text between the leading and the trailing run of
      whitespace. */
  function Strip(s: string): (r: string)
    ensures Stripped(r)
    ensures exists i, j ::
              && 0 <= i <= j <= |s| && r == s[i..j]
              && (forall k :: 0 <= k < i ==> IsSpace(s[k]))
              && (forall k :: j <= k < |s| ==> IsSpace(s[k]))
  {
    var t := s[LeadingSpaces(s)..];
    var r := t[..|t| - TrailingSpaces(t)];
    assert r == s[LeadingSpaces(s)..LeadingSpaces(s) + |r|];
    r
  }

  /** The decimal digits of `n`, as `str(n)` writes them for `n >= 0`. */
  function NatToString(n: nat): (s: string)
    ensures |s| >= 1
    ensures forall i :: 0 <= i < |s| ==> '0' <= s[i] <= '9'
    ensures |s| > 1 ==> s[0] != '0'
  {
    if n < 10 then [Digit(n)] else NatToString(n / 10) + [Digit(n % 10)]
  }

  function Digit(d: nat): (c: char)
    requires d < 10
    ensures '0' <= c <= '9'
  {
    ['0', '1', '2', '3', '4', '5', '6', '7', '8', '9'][d]
  }

  /** `str(n)` for a Python `int`. */
  function IntToString(n: int): (r: string)
    ensures |r| >= 1
    ensures r[0] == '-' <==> n < 0
    ensures var digits := if n < 0 then r[1..] else r;
      (forall i :: 0 <= i < |digits| ==> '0' <= digits[i] <= '9')
      && DigitsValue(digits) == (if n < 0 then -n else n)
      && (|digits| > 1 ==> digits[0] != '0')
  {
    var m: nat := if n < 0 then -n else n;
    DigitsRoundTrip(m);
    if n < 0 then
      assert ("-" + NatToString(m))[1..] == NatToString(m);
      "-" + NatToString(m)
    else NatToString(m)
  }

  /** The value of a string of decimal digits: the inverse of `NatToString`. */
  function DigitsValue(s: string): nat
    requires forall i :: 0 <= i < |s| ==> '0' <= s[i] <= '9'
  {
    if s == [] then 0
    else 10 * DigitsValue(s[..|s| - 1]) + ((s[|s| - 1] as int) - ('0' as int))
  }

  // ---------------------------------------------------------------------
  // Lemmas

  /** Splitting on `sep` and joining the pieces with `sep` gives the text back. */
  lemma {:induction false} JoinSplit(s: string, sep: string)
    requires sep != []
    ensures Join(sep, Split(s, sep)) == s
  {
    if s == [] {
    } else if sep <= s {
      JoinSplit(s[|sep|..], sep);
      var rest := Split(s[|sep|..], sep);
      assert Split(s, sep) == [[]] + rest;
      JoinCons(sep, [], rest);
    } else {
      JoinSplit(s[1..], sep);
      var rest := Split(s[1..], sep);
      assert Split(s, sep) == [[s[0]] + rest[0]] + rest[1..];
      JoinHead(sep, s[0], rest);
    }
  }

  /** `s.replace(pat, rep)` is `rep.join(s.split(pat))`: both find the same
      occurrences, left to right and without overlap. */
  lemma {:induction false} ReplaceIsJoinSplit(s: string, pat: string, rep: string)
    requires pat != []
    ensures Replace(s, pat, rep) == Join(rep, Split(s, pat))
  {
    if s == [] {
      assert Split(s, pat) == [[]];
    } else if pat <= s {
      ReplaceIsJoinSplit(s[|pat|..], pat, rep);
      ReplaceJoinAtMatch(s, pat, rep);
    } else {
      ReplaceIsJoinSplit(s[1..], pat, rep);
      ReplaceJoinPastChar(s, pat, rep);
    }
  }

  /** An occurrence at the front becomes an empty piece, so `rep` comes first. */
  lemma ReplaceJoinAtMatch(s: string, pat: string, rep: string)
    requires pat != [] && pat <= s
    requires Replace(s[|pat|..], pat, rep) == Join(rep, Split(s[|pat|..], pat))
    ensures Replace(s, pat, rep) == Join(rep, Split(s, pat))
  {
    var rest := Split(s[|pat|..], pat);
    assert Replace(s, pat, rep) == rep + Join(rep, rest);
    assert Split(s, pat) == [[]] + rest;
    JoinCons(rep, [], rest);
  }

  /** A first character that starts no occurrence joins the first piece. */
  lemma ReplaceJoinPastChar(s: string, pat: string, rep: string)
    requires pat != [] && s != [] && !(pat <= s)
    requires Replace(s[1..], pat, rep) == Join(rep, Split(s[1..], pat))
    ensures Replace(s, pat, rep) == Join(rep, Split(s, pat))
  {
    var rest := Split(s[1..], pat);
    assert Replace(s, pat, rep) == [s[0]] + Join(rep, rest);
    assert Split(s, pat) == [[s[0]] + rest[0]] + rest[1..];
    JoinHead(rep, s[0], rest);
  }

  /** A character put in front of the first part comes first in the join. */
  lemma JoinHead(sep: string, c: char, parts: seq<string>)
    requires parts != []
    ensures Join(sep, [[c] + parts[0]] + parts[1..]) == [c] + Join(sep, parts)
  {
    var head := [c] + parts[0];
    if |parts| == 1 {
      assert [head] + parts[1..] == [head];
    } else {
      assert [parts[0]] + parts[1..] == parts;
      JoinCons(sep, parts[0], parts[1..]);
      JoinCons(sep, head, parts[1..]);
      var j := Join(sep, parts[1..]);
      assert head + sep + j == [c] + (parts[0] + sep + j);
    }
  }

  /** Joining a part in front of at least one more part puts `sep` after it. */
  lemma JoinCons(sep: string, x: string, rest: seq<string>)
    requires rest != []
    ensures Join(sep, [x] + rest) == x + sep + Join(sep, rest)
  {
    assert ([x] + rest)[1..] == rest;
  }

  /** The first piece of a split is a prefix of the text. */
  lemma {:induction false} FirstPieceIsPrefix(s: string, sep: string)
    requires sep != []
    ensures Split(s, sep)[0] <= s
  {
    if s != [] && !(sep <= s) {
      FirstPieceIsPrefix(s[1..], sep);
    }
  }

  /** Matching starts from the left: no occurrence of the separator starts
      inside the first piece. */
  lemma {:induction false} SplitFindsFirst(s: string, sep: string)
    requires sep != []
    ensures forall i :: 0 <= i < |Split(s, sep)[0]| ==> !OccursAt(s, sep, i)
  {
    if s != [] && !(sep <= s) {
      var t := s[1..];
      SplitFindsFirst(t, sep);
      var rest := Split(t, sep);
      assert forall j :: 0 <= j < |rest[0]| ==> !OccursAt(t, sep, j);
      assert Split(s, sep)[0] == [s[0]] + rest[0];
      forall i | 0 <= i < 1 + |rest[0]| ensures !OccursAt(s, sep, i) {
        if i == 0 {
          if |sep| <= |s| {
            assert s[0..|sep|] == s[..|sep|];
          }
        } else {
          TailOccurs(s, sep, i - 1);
        }
      }
    }
  }

  /** The first piece of `split(sep)` ends where the separator first occurs,
      and the other pieces are the split of what follows that occurrence; a
      single piece is the whole text. */
  predicate SplitsAtFirst(s: string, sep: string)
    requires sep != []
  {
    var p := Split(s, sep);
    && (|p| == 1 ==> p[0] == s)
    && (|p| > 1 ==> OccursAt(s, sep, |p[0]|) && p[1..] == Split(s[|p[0]| + |sep|..], sep))
  }

  /** Every split cuts at the first occurrence and goes on with the rest;
      with `SplitFindsFirst` this fixes every piece. */
  lemma {:induction false} SplitAtFirst(s: string, sep: string)
    requires sep != []
    ensures SplitsAtFirst(s, sep)
  {
    if s != [] && !(sep <= s) {
      SplitAtFirst(s[1..], sep);
      SplitAtFirstPastChar(s, sep);
    }
  }

  /** A first character that starts no occurrence moves the cut one place on. */
  lemma SplitAtFirstPastChar(s: string, sep: string)
    requires sep != [] && s != [] && !(sep <= s)
    requires SplitsAtFirst(s[1..], sep)
    ensures SplitsAtFirst(s, sep)
  {
    var t := s[1..];
    var rest := Split(t, sep);
    assert Split(s, sep) == [[s[0]] + rest[0]] + rest[1..];
    if |rest| == 1 {
      assert [s[0]] + t == s;
    } else {
      var k := |rest[0]|;
      TailOccursBack(s, sep, k);
      assert t[k + |sep|..] == s[k + 1 + |sep|..];
    }
  }

  /** An occurrence in the tail is an occurrence one place later in the text. */
  lemma TailOccursBack(s: string, pat: string, i: nat)
    requires s != []
    ensures OccursAt(s[1..], pat, i) ==> OccursAt(s, pat, i + 1)
  {
    if OccursAt(s[1..], pat, i) {
      assert s[1..][i..i + |pat|] == s[i + 1..i + 1 + |pat|];
    }
  }

  /** An occurrence after the first character is an occurrence in the tail. */
  lemma TailOccurs(s: string, pat: string, i: nat)
    requires s != []
    ensures OccursAt(s, pat, i + 1) ==> OccursAt(s[1..], pat, i)
  {
    if OccursAt(s, pat, i + 1) {
      assert s[1..][i..i + |pat|] == s[i + 1..i + 1 + |pat|];
    }
  }

  /** No piece of a split contains the separator. */
  lemma {:induction false} SplitPiecesAvoidSep(s: string, sep: string)
    requires sep != []
    ensures forall k :: 0 <= k < |Split(s, sep)| ==> !Contains(Split(s, sep)[k], sep)
  {
    if s == [] {
      assert Split(s, sep) == [[]];
      assert !OccursAt([], sep, 0);
    } else if sep <= s {
      SplitPiecesAvoidSep(s[|sep|..], sep);
      assert !OccursAt([], sep, 0);
    } else {
      SplitPiecesAvoidSep(s[1..], sep);
      var rest := Split(s[1..], sep);
      FirstPieceIsPrefix(s[1..], sep);
      var head := [s[0]] + rest[0];
      assert head <= s;
      forall k: nat | k <= |head| ensures !OccursAt(head, sep, k) {
        if 0 < k && k + |sep| <= |head| {
          assert head[k..k + |sep|] == rest[0][k - 1..k - 1 + |sep|];
          assert !OccursAt(rest[0], sep, k - 1);
        }
      }
    }
  }

  /** Each piece of a split is a piece of the text: no piece contains a
      pattern the text does not. */
  lemma {:induction false} SplitPiecesInherit(s: string, sep: string, pat: string)
    requires sep != [] && !Contains(s, pat)
    ensures forall k :: 0 <= k < |Split(s, sep)| ==> !Contains(Split(s, sep)[k], pat)
  {
    if s == [] {
      assert Split(s, sep) == [s];
    } else if sep <= s {
      SliceAvoids(s, pat, |sep|, |s|);
      assert s[|sep|..|s|] == s[|sep|..];
      SplitPiecesInherit(s[|sep|..], sep, pat);
      SliceAvoids(s, pat, 0, 0);
    } else {
      SliceAvoids(s, pat, 1, |s|);
      assert s[1..|s|] == s[1..];
      SplitPiecesInherit(s[1..], sep, pat);
      FirstPieceIsPrefix(s[1..], sep);
      var rest := Split(s[1..], sep);
      var head := [s[0]] + rest[0];
      assert head == s[..|head|];
      SliceAvoids(s, pat, 0, |head|);
    }
  }

  /** A slice of a text that does not contain `pat` does not contain it either. */
  lemma SliceAvoids(s: string, pat: string, i: nat, j: nat)
    requires i <= j <= |s| && !Contains(s, pat)
    ensures !Contains(s[i..j], pat)
  {
    forall k: nat | k <= j - i ensures !OccursAt(s[i..j], pat, k) {
      if k + |pat| <= j - i {
        var m: nat := i + k;
        assert s[i..j][k..k + |pat|] == s[m..m + |pat|];
        assert m <= |s| && !OccursAt(s, pat, m);
      }
    }
  }

  /** A prefix of `Replace(t, pat, rep)` that cannot reach into a replacement
      (it does not contain `rep[0]`) is a prefix of `t` itself. */
  lemma {:induction false} PrefixThroughReplace(t: string, pat: string, rep: string, q: string)
    requires pat != [] && rep != [] && rep[0] !in q
    ensures q <= Replace(t, pat, rep) ==> q <= t
  {
    if q != [] && t != [] {
      if pat <= t {
        assert Replace(t, pat, rep)[0] == rep[0] != q[0];
      } else {
        assert Replace(t, pat, rep) == [t[0]] + Replace(t[1..], pat, rep);
        PrefixThroughReplace(t[1..], pat, rep, q[1..]);
      }
    }
  }

  /** Text made of characters foreign to `pat`, put in front of a text that
      does not contain `pat`, does not create an occurrence. */
  lemma ForeignPrefixAvoids(x: string, y: string, pat: string)
    requires pat != [] && !Contains(y, pat)
    requires forall c :: c in x ==> c !in pat
    ensures !Contains(x + y, pat)
  {
    forall k: nat | k <= |x + y| ensures !OccursAt(x + y, pat, k) {
      if k + |pat| <= |x + y| {
        if k < |x| {
          assert x[k] in x && pat[0] in pat;
          assert (x + y)[k..k + |pat|][0] == x[k] != pat[0];
        } else {
          assert (x + y)[k..k + |pat|] == y[k - |x|..k - |x| + |pat|];
          assert !OccursAt(y, pat, k - |x|);
        }
      }
    }
  }

  /** After `s.replace(pat, rep)` no occurrence of `pat` is left, as long as
      `rep` is non-empty and shares no character with `pat` (so a
      replacement cannot form a new occurrence with its neighbours). */
  lemma {:induction false} ReplaceRemoves(s: string, pat: string, rep: string)
    requires pat != [] && rep != []
    requires forall c :: c in rep ==> c !in pat
    ensures !Contains(Replace(s, pat, rep), pat)
  {
    if s == [] {
      assert !OccursAt([], pat, 0);
    } else if pat <= s {
      ReplaceRemoves(s[|pat|..], pat, rep);
      ForeignPrefixAvoids(rep, Replace(s[|pat|..], pat, rep), pat);
    } else {
      ReplaceRemoves(s[1..], pat, rep);
      var tail := Replace(s[1..], pat, rep);
      assert Replace(s, pat, rep) == [s[0]] + tail;
      assert rep[0] in rep;
      PrefixThroughReplace(s[1..], pat, rep, pat[1..]);
      ConsPrefix(pat, s);
      HeadAvoids(s[0], tail, pat);
    }
  }

  /** A non-empty prefix is its first character followed by a prefix of the
      rest. */
  lemma ConsPrefix(p: string, s: string)
    requires p != [] && s != []
    ensures p <= s <==> p[0] == s[0] && p[1..] <= s[1..]
  {
    if p[0] == s[0] && p[1..] <= s[1..] {
      assert p == [s[0]] + p[1..];
      assert s == [s[0]] + s[1..];
    }
  }

  /** A character in front of a text without `pat` creates no occurrence
      unless `pat` starts with it and the rest of `pat` starts the text. */
  lemma HeadAvoids(c: char, tail: string, pat: string)
    requires pat != [] && !Contains(tail, pat)
    requires !(pat[0] == c && pat[1..] <= tail)
    ensures !Contains([c] + tail, pat)
  {
    var out := [c] + tail;
    forall k: nat | k <= |out| ensures !OccursAt(out, pat, k) {
      if k + |pat| <= |out| {
        if k == 0 {
          assert out[1..|pat|] == tail[..|pat| - 1];
        } else {
          assert out[k..k + |pat|] == tail[k - 1..k - 1 + |pat|];
          assert !OccursAt(tail, pat, k - 1);
        }
      }
    }
  }

  /** Every character of an occurring pattern is a character of the text. */
  lemma ContainsChars(s: string, pat: string, c: char)
    requires Contains(s, pat) && c in pat
    ensures c in s
  {
    var i: nat :| i <= |s| && OccursAt(s, pat, i);
    var j :| 0 <= j < |pat| && pat[j] == c;
    assert s[i..i + |pat|][j] == s[i + j];
  }

  /** A pattern that neither starts nor ends with a space occurs in the
      space-padded text only where it occurs in the text. */
  lemma PaddingAddsNoOccurrence(text: string, pat: string, left: string, right: string)
    requires pat != [] && pat[0] != ' ' && pat[|pat| - 1] != ' '
    requires forall c :: c in left + right ==> c == ' '
    requires !Contains(text, pat)
    ensures !Contains(left + text + right, pat)
  {
    var t := left + text + right;
    forall k: nat | k <= |t| ensures !OccursAt(t, pat, k) {
      if k + |pat| <= |t| {
        if k < |left| {
          assert t[k] == left[k] && left[k] in left + right;
          assert t[k..k + |pat|][0] == t[k];
        } else if k + |pat| > |left| + |text| {
          var e := k + |pat| - 1;
          assert t[e] == right[e - |left| - |text|] && right[e - |left| - |text|] in left + right;
          assert t[k..k + |pat|][|pat| - 1] == t[e];
        } else {
          assert t[k..k + |pat|] == text[k - |left|..k - |left| + |pat|];
          assert !OccursAt(text, pat, k - |left|);
        }
      }
    }
  }

  /** Splitting a text whose first part cannot start a separator: the first
      part is the first piece. */
  lemma {:induction false} SplitAfter(x: string, y: string, sep: string)
    requires sep != [] && sep[0] !in x
    ensures Split(x + sep + y, sep) == [x] + Split(y, sep)
  {
    if x == [] {
      assert x + sep + y == sep + y;
      assert (sep + y)[|sep|..] == y;
    } else {
      SplitAfter(x[1..], y, sep);
      var s := x + sep + y;
      assert s[1..] == x[1..] + sep + y;
      assert s[0] == x[0] != sep[0];
      assert !(sep <= s);
      var rest := Split(s[1..], sep);
      assert rest == [x[1..]] + Split(y, sep);
      assert Split(s, sep) == [[s[0]] + rest[0]] + rest[1..];
      assert [x[0]] + x[1..] == x;
    }
  }

  /** A text in which the separator cannot start is a single piece. */
  lemma {:induction false} SplitWhole(y: string, sep: string)
    requires sep != [] && sep[0] !in y
    ensures Split(y, sep) == [y]
  {
    if y != [] {
      SplitWhole(y[1..], sep);
      assert y[0] != sep[0];
      assert [y[0]] + y[1..] == y;
    }
  }

  /** `str(n)` for `n >= 0` ends with the last decimal digit of `n`. */
  lemma LastCharIsLastDigit(n: nat)
    ensures NatToString(n)[|NatToString(n)| - 1] == Digit(n % 10)
  {
  }

  /** Reading back the digits `str(n)` writes gives `n`. */
  lemma {:induction false} DigitsRoundTrip(n: nat)
    ensures DigitsValue(NatToString(n)) == n
  {
    var s := NatToString(n);
    if n < 10 {
      assert s == [Digit(n)];
      assert s[..0] == [];
      DigitValue(n);
    } else {
      DigitsRoundTrip(n / 10);
      assert s[..|s| - 1] == NatToString(n / 10);
      DigitValue(n % 10);
    }
  }

  lemma DigitValue(d: nat)
    requires d < 10
    ensures (Digit(d) as int) - ('0' as int) == d
  {
  }
}
