/** `AIServiceImpl.filterText`: every configured blocked word is replaced,
    one word after another, by `****` wherever the pattern `(?i)\b<word>\b`
    matches. The pattern is compiled without UNICODE_CASE, so case folding is
    ASCII-only; word characters are the ASCII `[A-Za-z0-9_]`. */
module Redaction {

  /** The replacement text. */
  const Mask: string := "****"

  /** A regex word character. */
  predicate IsWordChar(c: char) {
    'a' <= c <= 'z' || 'A' <= c <= 'Z' || '0' <= c <= '9' || c == '_'
  }

  /** ASCII lower-casing, the folding `(?i)` applies. */
  function Fold(c: char): char {
    if 'A' <= c <= 'Z' then (c as int + 32) as char else c
  }

  predicate SameIgnoringCase(a: string, b: string) {
    |a| == |b| && forall k :: 0 <= k < |a| ==> Fold(a[k]) == Fold(b[k])
  }

  /** A blocked word the model covers: non-empty and made of word characters. */
  predicate IsBlockableWord(w: string) {
    |w| > 0 && forall k :: 0 <= k < |w| ==> IsWordChar(w[k])
  }

  predicate AllBlockable(words: seq<string>) {
    forall k :: 0 <= k < |words| ==> IsBlockableWord(words[k])
  }

  /** `\b` before position `j` of `t`; `leftWord` says whether the character
      just before `t` (if `t` is a suffix of a longer text) is a word character. */
  predicate BoundaryBefore(t: string, j: nat, leftWord: bool)
    requires j <= |t|
  {
    if j == 0 then !leftWord else !IsWordChar(t[j - 1])
  }

  /** `\b` at position `e` of `t`, looking right. */
  predicate BoundaryAfter(t: string, e: nat)
    requires e <= |t|
  {
    e == |t| || !IsWordChar(t[e])
  }

  /** `\b<w>\b` (ignoring case) matches `t` starting at `j`. */
  predicate OccursAt(t: string, w: string, j: nat, leftWord: bool) {
    && j + |w| <= |t|
    && SameIgnoringCase(t[j..j + |w|], w)
    && BoundaryBefore(t, j, leftWord)
    && BoundaryAfter(t, j + |w|)
  }

  /** A whole-word, case-insensitive occurrence of `w` at `j` in a whole text. */
  predicate MatchAt(t: string, w: string, j: nat) {
    OccursAt(t, w, j, false)
  }

  /** Whether the character before position `i` of `s` is a word character. */
  predicate LeftWord(s: string, i: nat)
    requires i <= |s|
  {
    i > 0 && IsWordChar(s[i - 1])
  }

  /** `Matcher.replaceAll` from position `i`: scanning left to right, a match
      is replaced by the mask and the scan resumes after it; any other
      character is copied. Boundaries look at the original text. */
  function RedactFrom(s: string, w: string, i: nat): string
    requires IsBlockableWord(w) && i <= |s|
    decreases |s| - i
  {
    if i == |s| then ""
    else if MatchAt(s, w, i) then Mask + RedactFrom(s, w, i + |w|)
    else [s[i]] + RedactFrom(s, w, i + 1)
  }

  /** `s.replaceAll("(?i)\\b" + Pattern.quote(w) + "\\b", "****")`: no
      whole-word occurrence of `w` is left, and a text without one is
      returned as it is. */
  function RedactWord(s: string, w: string): (r: string)
    requires IsBlockableWord(w)
    ensures forall j: nat :: !MatchAt(r, w, j)
    ensures (forall p: nat :: !MatchAt(s, w, p)) ==> r == s
  {
    ScanFromStart(s, w);
    RedactFrom(s, w, 0)
  }

  /** `filterText`: the blocked words applied one after another, in list
      order, so the last word's pass runs on the result of all the others.
      Afterwards no blocked word occurs as a whole word. */
  function FilterText(s: string, words: seq<string>): (r: string)
    requires AllBlockable(words)
    ensures forall k, p: nat :: 0 <= k < |words| ==> !MatchAt(r, words[k], p)
    decreases |words|
  {
    if |words| == 0 then s
    else
      var n := |words| - 1;
      var t := FilterText(s, words[..n]);
      RedactKeepsClean(t, words, n);
      RedactWord(t, words[n])
  }

  /** The end of the run of word characters that starts at `i`. */
  function RunEnd(s: string, i: nat): (e: nat)
    requires i <= |s|
    ensures i <= e <= |s|
    ensures forall k :: i <= k < e ==> IsWordChar(s[k])
    ensures BoundaryAfter(s, e)
    decreases |s| - i
  {
    if i == |s| || !IsWordChar(s[i]) then i else RunEnd(s, i + 1)
  }

  // ---------------------------------------------------------------------
  // Helper facts about folding and occurrences
  // ---------------------------------------------------------------------

  /** Folding neither creates nor destroys word characters. */
  lemma FoldKeepsWordness(c: char)
    ensures IsWordChar(Fold(c)) <==> IsWordChar(c)
  {
  }

  /** Text that equals a blockable word ignoring case is made of word characters. */
  lemma SameAsWordIsWord(a: string, w: string)
    requires IsBlockableWord(w) && SameIgnoringCase(a, w)
    ensures forall k :: 0 <= k < |a| ==> IsWordChar(a[k])
  {
    forall k | 0 <= k < |a|
      ensures IsWordChar(a[k])
    {
      FoldKeepsWordness(a[k]);
      FoldKeepsWordness(w[k]);
    }
  }

  /** No word starts on a non-word character. */
  lemma NoOccurrenceOnSeparator(t: string, v: string, j: nat, leftWord: bool)
    requires IsBlockableWord(v) && j < |t| && !IsWordChar(t[j])
    ensures !OccursAt(t, v, j, leftWord)
  {
    if j + |v| <= |t| {
      var a := t[j..j + |v|];
      assert a[0] == t[j];
      FoldKeepsWordness(a[0]);
      FoldKeepsWordness(v[0]);
      assert Fold(a[0]) != Fold(v[0]);
    }
  }

  /** An occurrence inside the suffix `b` of `a + b` is an occurrence in `b`
      whose left context is the last character of `a`. */
  lemma OccursShift(a: string, b: string, v: string, j: nat, leftWord: bool)
    requires |a| > 0
    ensures OccursAt(a + b, v, |a| + j, leftWord) <==> OccursAt(b, v, j, IsWordChar(a[|a| - 1]))
  {
    var t := a + b;
    if j + |v| <= |b| {
      assert t[|a| + j..|a| + j + |v|] == b[j..j + |v|];
      if j == 0 {
        assert t[|a| - 1] == a[|a| - 1];
      } else {
        assert t[|a| + j - 1] == b[j - 1];
      }
      if j + |v| < |b| {
        assert t[|a| + j + |v|] == b[j + |v|];
      }
    }
  }

  /** A character that cannot start a match is copied. */
  lemma SeparatorCopied(s: string, w: string, i: nat)
    requires IsBlockableWord(w) && i < |s| && !IsWordChar(s[i])
    ensures RedactFrom(s, w, i) == [s[i]] + RedactFrom(s, w, i + 1)
  {
    NoOccurrenceOnSeparator(s, w, i, false);
  }

  /** No match starts right after a word character. */
  lemma AfterWordCharNoMatch(s: string, w: string, i: nat)
    requires 0 < i <= |s| && IsWordChar(s[i - 1])
    ensures !MatchAt(s, w, i)
  {
  }

  /** Putting back the first character of a slice in front of a text. */
  lemma ConsSlice(s: string, i: nat, e: nat, rest: string)
    requires i < e <= |s|
    ensures [s[i]] + (s[i + 1..e] + rest) == s[i..e] + rest
  {
    assert [s[i]] + s[i + 1..e] == s[i..e];
  }

  /** Once the scan is past a non-matching position, the rest of its word run
      is copied verbatim: no match can start inside a run. */
  lemma {:induction false} CopyRun(s: string, w: string, i: nat)
    requires IsBlockableWord(w) && i <= |s|
    requires i < |s| ==> !MatchAt(s, w, i)
    ensures RedactFrom(s, w, i) == s[i..RunEnd(s, i)] + RedactFrom(s, w, RunEnd(s, i))
    decreases |s| - i
  {
    var e := RunEnd(s, i);
    if i < |s| && IsWordChar(s[i]) {
      assert e == RunEnd(s, i + 1);
      if i + 1 < |s| {
        AfterWordCharNoMatch(s, w, i + 1);
      }
      CopyRun(s, w, i + 1);
      assert RedactFrom(s, w, i) == [s[i]] + RedactFrom(s, w, i + 1);
      ConsSlice(s, i, e, RedactFrom(s, w, e));
    } else {
      assert s[i..e] == [];
    }
  }

  /** A run of word characters ends at the first separator. */
  lemma RunStopsAtSeparator(t: string, lo: nat, hi: nat, m: nat)
    requires hi <= |t| && forall k :: lo <= k < hi ==> IsWordChar(t[k])
    requires m < |t| && !IsWordChar(t[m])
    ensures m < lo || hi <= m
  {
  }

  /** An occurrence of `v` at the start of a copied word run followed by a
      separator is an occurrence of `v` at the start of that run in `s`. */
  lemma OccursOnCopiedRun(s: string, i: nat, rest: string, v: string)
    requires IsBlockableWord(v) && i < |s|
    requires RunEnd(s, i) < |s| ==> |rest| > 0 && rest[0] == s[RunEnd(s, i)]
    requires RunEnd(s, i) == |s| ==> rest == ""
    ensures OccursAt(s[i..RunEnd(s, i)] + rest, v, 0, LeftWord(s, i)) ==> MatchAt(s, v, i)
  {
    var e := RunEnd(s, i);
    var r := s[i..e] + rest;
    var n := |v|;
    if OccursAt(r, v, 0, LeftWord(s, i)) {
      SameAsWordIsWord(r[0..n], v);
      assert forall k :: 0 <= k < n ==> IsWordChar(r[k]) by {
        forall k | 0 <= k < n ensures IsWordChar(r[k]) {
          assert r[0..n][k] == r[k];
        }
      }
      assert forall k :: 0 <= k < e - i ==> IsWordChar(r[k]) by {
        forall k | 0 <= k < e - i ensures IsWordChar(r[k]) {
          assert r[k] == s[i + k];
        }
      }
      if e < |s| {
        assert r[e - i] == s[e];
        RunStopsAtSeparator(r, 0, n, e - i);
      }
      if n < |r| {
        RunStopsAtSeparator(r, 0, e - i, n);
      }
      assert n == e - i;
      assert r[0..n] == s[i..i + n];
    }
  }

  /** An occurrence at the very start of the redacted suffix, where the scan
      copied the character at `i`, is an occurrence in the original text. */
  lemma OccurrenceAtCopiedRun(s: string, w: string, v: string, i: nat)
    requires IsBlockableWord(w) && IsBlockableWord(v) && i < |s|
    requires !MatchAt(s, w, i)
    ensures OccursAt(RedactFrom(s, w, i), v, 0, LeftWord(s, i)) ==> MatchAt(s, v, i)
  {
    var e := RunEnd(s, i);
    var rest := RedactFrom(s, w, e);
    CopyRun(s, w, i);
    if e < |s| {
      SeparatorCopied(s, w, e);
    }
    OccursOnCopiedRun(s, i, rest, v);
  }

  // ---------------------------------------------------------------------
  // No blocked word survives
  // ---------------------------------------------------------------------

  /** No occurrence in a masked text starts inside the mask or on the
      separator after it; any other lies wholly in the text after the mask. */
  lemma OccursPastMask(rest: string, v: string, j: nat, leftWord: bool, restLeftWord: bool)
    requires IsBlockableWord(v)
    requires |rest| > 0 ==> !IsWordChar(rest[0])
    requires j > |Mask| ==> !OccursAt(rest, v, j - |Mask|, restLeftWord)
    ensures !OccursAt(Mask + rest, v, j, leftWord)
  {
    var r := Mask + rest;
    if j < |Mask| {
      assert r[j] == '*';
      NoOccurrenceOnSeparator(r, v, j, leftWord);
    } else if j == |Mask| {
      if |rest| > 0 {
        assert r[j] == rest[0];
        NoOccurrenceOnSeparator(r, v, j, leftWord);
      }
    } else {
      OccursShift(Mask, rest, v, j - |Mask|, leftWord);
    }
  }

  /** The scan masked a match at `i`: an occurrence of `v` in the result
      can only lie past the mask, in the scan resumed after the match. */
  lemma MaskStep(s: string, w: string, v: string, i: nat, j: nat)
    requires IsBlockableWord(w) && IsBlockableWord(v) && i < |s| && MatchAt(s, w, i)
    requires j > |Mask| ==> !OccursAt(RedactFrom(s, w, i + |w|), v, j - |Mask|, LeftWord(s, i + |w|))
    ensures !OccursAt(RedactFrom(s, w, i), v, j, LeftWord(s, i))
  {
    var k := i + |w|;
    var rest := RedactFrom(s, w, k);
    assert RedactFrom(s, w, i) == Mask + rest;
    if k < |s| {
      SeparatorCopied(s, w, k);
      assert rest[0] == s[k];
    }
    OccursPastMask(rest, v, j, LeftWord(s, i), LeftWord(s, k));
  }

  /** The scan copied the character at `i`: an occurrence of `v` at the start
      is one in the original text, any later one lies in the rest of the scan. */
  lemma CopyStep(s: string, w: string, v: string, i: nat, j: nat)
    requires IsBlockableWord(w) && IsBlockableWord(v) && i < |s| && !MatchAt(s, w, i)
    requires MatchAt(s, v, i) ==> MatchAt(s, w, i)
    requires j > 0 ==> !OccursAt(RedactFrom(s, w, i + 1), v, j - 1, LeftWord(s, i + 1))
    ensures !OccursAt(RedactFrom(s, w, i), v, j, LeftWord(s, i))
  {
    var rest := RedactFrom(s, w, i + 1);
    assert RedactFrom(s, w, i) == [s[i]] + rest;
    if j == 0 {
      OccurrenceAtCopiedRun(s, w, v, i);
    } else {
      OccursShift([s[i]], rest, v, j - 1, LeftWord(s, i));
    }
  }

  /** The redacted suffix from `i` contains no occurrence of `v`, provided
      every match of `v` in the original text is also a match of `w` (which
      holds for `v == w`, and for a `v` the text never contained). */
  lemma {:induction false} NoOccurrenceFrom(s: string, w: string, v: string, i: nat, j: nat)
    requires IsBlockableWord(w) && IsBlockableWord(v) && i <= |s|
    requires forall p: nat :: MatchAt(s, v, p) ==> MatchAt(s, w, p)
    ensures !OccursAt(RedactFrom(s, w, i), v, j, LeftWord(s, i))
    decreases |s| - i, 1
  {
    if i == |s| {
      assert RedactFrom(s, w, i) == "";
    } else if MatchAt(s, w, i) {
      NoOccurrenceAtMask(s, w, v, i, j);
    } else {
      NoOccurrenceAtCopy(s, w, v, i, j);
    }
  }

  /** `NoOccurrenceFrom` where the scan masks a match at `i`. */
  lemma {:induction false} NoOccurrenceAtMask(s: string, w: string, v: string, i: nat, j: nat)
    requires IsBlockableWord(w) && IsBlockableWord(v) && i < |s| && MatchAt(s, w, i)
    requires forall p: nat :: MatchAt(s, v, p) ==> MatchAt(s, w, p)
    ensures !OccursAt(RedactFrom(s, w, i), v, j, LeftWord(s, i))
    decreases |s| - i, 0
  {
    if j > |Mask| {
      NoOccurrenceFrom(s, w, v, i + |w|, j - |Mask|);
    }
    MaskStep(s, w, v, i, j);
  }

  /** `NoOccurrenceFrom` where the scan copies the character at `i`. */
  lemma {:induction false} NoOccurrenceAtCopy(s: string, w: string, v: string, i: nat, j: nat)
    requires IsBlockableWord(w) && IsBlockableWord(v) && i < |s| && !MatchAt(s, w, i)
    requires forall p: nat :: MatchAt(s, v, p) ==> MatchAt(s, w, p)
    ensures !OccursAt(RedactFrom(s, w, i), v, j, LeftWord(s, i))
    decreases |s| - i, 0
  {
    if j > 0 {
      NoOccurrenceFrom(s, w, v, i + 1, j - 1);
    }
    assert MatchAt(s, v, i) ==> MatchAt(s, w, i);
    CopyStep(s, w, v, i, j);
  }

  /** Redacting `w` leaves no whole-word occurrence of `w`, and does not
      create an occurrence of any word the text did not already contain. */
  lemma NoMatchAfterRedact(s: string, w: string, v: string)
    requires IsBlockableWord(w) && IsBlockableWord(v)
    requires v == w || forall p: nat :: !MatchAt(s, v, p)
    ensures forall j: nat :: !MatchAt(RedactWord(s, w), v, j)
  {
    forall j: nat
      ensures !MatchAt(RedactWord(s, w), v, j)
    {
      NoOccurrenceFrom(s, w, v, 0, j);
    }
  }

  /** The scan from the start leaves no occurrence of its own word, and
      copies a text that has none. */
  lemma ScanFromStart(s: string, w: string)
    requires IsBlockableWord(w)
    ensures forall j: nat :: !MatchAt(RedactFrom(s, w, 0), w, j)
    ensures (forall p: nat :: !MatchAt(s, w, p)) ==> RedactFrom(s, w, 0) == s
  {
    if forall p: nat :: !MatchAt(s, w, p) {
      CleanTextUnchangedFrom(s, w, 0);
      assert s[0..] == s;
    }
    forall j: nat
      ensures !MatchAt(RedactFrom(s, w, 0), w, j)
    {
      NoOccurrenceFrom(s, w, w, 0, j);
    }
  }

  /** A pass of `words[n]` keeps a text clean of the words before it. */
  lemma RedactKeepsClean(t: string, words: seq<string>, n: nat)
    requires AllBlockable(words) && n < |words|
    requires forall k, p: nat :: 0 <= k < n ==> !MatchAt(t, words[k], p)
    ensures forall k, p: nat :: 0 <= k < n ==> !MatchAt(RedactWord(t, words[n]), words[k], p)
  {
    forall k | 0 <= k < n
      ensures forall p: nat :: !MatchAt(RedactWord(t, words[n]), words[k], p)
    {
      NoMatchAfterRedact(t, words[n], words[k]);
    }
  }

  /** Once clean of `v`, a text stays clean of `v` through further redaction. */
  lemma {:induction false} FilterKeepsClean(s: string, words: seq<string>, v: string)
    requires AllBlockable(words) && IsBlockableWord(v)
    requires forall p: nat :: !MatchAt(s, v, p)
    ensures forall p: nat :: !MatchAt(FilterText(s, words), v, p)
    decreases |words|
  {
    if |words| > 0 {
      var n := |words| - 1;
      FilterKeepsClean(s, words[..n], v);
      NoMatchAfterRedact(FilterText(s, words[..n]), words[n], v);
    }
  }

  // ---------------------------------------------------------------------
  // Redaction works token by token
  // ---------------------------------------------------------------------

  /** The scan of a text without any match of `w`, or without one from `i`
      on, copies the text. */
  lemma {:induction false} CleanTextUnchangedFrom(s: string, w: string, i: nat)
    requires IsBlockableWord(w) && i <= |s|
    requires forall p: nat :: i <= p ==> !MatchAt(s, w, p)
    ensures RedactFrom(s, w, i) == s[i..]
    decreases |s| - i
  {
    if i < |s| {
      CleanTextUnchangedFrom(s, w, i + 1);
      assert [s[i]] + s[i + 1..] == s[i..];
    }
  }

  /** With an empty block list `filterText` is the identity, and a word the
      text does not contain leaves it unchanged. */
  lemma {:induction false} CleanTextUnchanged(s: string, words: seq<string>)
    requires AllBlockable(words)
    requires forall k, p: nat :: 0 <= k < |words| ==> !MatchAt(s, words[k], p)
    ensures FilterText(s, words) == s
    decreases |words|
  {
    if |words| > 0 {
      var n := |words| - 1;
      CleanTextUnchanged(s, words[..n]);
      assert forall p: nat :: !MatchAt(s, words[n], p);
    }
  }

  /** Redaction is idempotent. */
  lemma FilterIdempotent(s: string, words: seq<string>)
    requires AllBlockable(words)
    ensures FilterText(FilterText(s, words), words) == FilterText(s, words)
  {
    CleanTextUnchanged(FilterText(s, words), words);
  }

  /** A match in the prefix `a` of `a + y`, where `y` starts with a separator,
      is exactly a match in `a`. */
  lemma MatchInPrefix(a: string, y: string, w: string, i: nat)
    requires IsBlockableWord(w) && i < |a|
    requires |y| == 0 || !IsWordChar(y[0])
    ensures MatchAt(a + y, w, i) <==> MatchAt(a, w, i)
  {
    var x := a + y;
    var n := |w|;
    if i > 0 {
      assert x[i - 1] == a[i - 1];
    }
    if MatchAt(x, w, i) {
      SameAsWordIsWord(x[i..i + n], w);
      assert forall k :: i <= k < i + n ==> IsWordChar(x[k]) by {
        forall k | i <= k < i + n ensures IsWordChar(x[k]) {
          assert x[i..i + n][k - i] == x[k];
        }
      }
      if |y| > 0 {
        assert x[|a|] == y[0];
        RunStopsAtSeparator(x, i, i + n, |a|);
      }
      assert x[i..i + n] == a[i..i + n];
      if i + n < |a| {
        assert x[i + n] == a[i + n];
      }
    }
    if MatchAt(a, w, i) {
      assert x[i..i + n] == a[i..i + n];
      if i + n < |a| {
        assert x[i + n] == a[i + n];
      } else if |y| > 0 {
        assert x[i + n] == y[0];
      }
    }
  }

  /** Where the scan resumes after position `i`. */
  function NextPos(s: string, w: string, i: nat): (n: nat)
    requires IsBlockableWord(w) && i < |s|
    ensures i < n <= |s|
  {
    if MatchAt(s, w, i) then i + |w| else i + 1
  }

  /** One step of the scan of `a + y` inside `a`, given the claim past it. */
  lemma PrefixStep(a: string, y: string, w: string, i: nat)
    requires IsBlockableWord(w) && i < |a|
    requires |y| == 0 || !IsWordChar(y[0])
    requires var n := NextPos(a, w, i);
      RedactFrom(a + y, w, n) == RedactFrom(a, w, n) + RedactFrom(a + y, w, |a|)
    ensures RedactFrom(a + y, w, i) == RedactFrom(a, w, i) + RedactFrom(a + y, w, |a|)
  {
    if MatchAt(a, w, i) {
      PrefixMaskStep(a, y, w, i);
    } else {
      PrefixCopyStep(a, y, w, i);
    }
  }

  /** `PrefixStep` at a match of `w` in `a`. */
  lemma PrefixMaskStep(a: string, y: string, w: string, i: nat)
    requires IsBlockableWord(w) && i < |a| && MatchAt(a, w, i)
    requires |y| == 0 || !IsWordChar(y[0])
    requires RedactFrom(a + y, w, i + |w|) == RedactFrom(a, w, i + |w|) + RedactFrom(a + y, w, |a|)
    ensures RedactFrom(a + y, w, i) == RedactFrom(a, w, i) + RedactFrom(a + y, w, |a|)
  {
    MatchInPrefix(a, y, w, i);
    assert RedactFrom(a + y, w, i) == Mask + RedactFrom(a + y, w, i + |w|);
  }

  /** `PrefixStep` where the scan copies a character of `a`. */
  lemma PrefixCopyStep(a: string, y: string, w: string, i: nat)
    requires IsBlockableWord(w) && i < |a| && !MatchAt(a, w, i)
    requires |y| == 0 || !IsWordChar(y[0])
    requires RedactFrom(a + y, w, i + 1) == RedactFrom(a, w, i + 1) + RedactFrom(a + y, w, |a|)
    ensures RedactFrom(a + y, w, i) == RedactFrom(a, w, i) + RedactFrom(a + y, w, |a|)
  {
    MatchInPrefix(a, y, w, i);
    assert (a + y)[i] == a[i];
    assert RedactFrom(a + y, w, i) == [a[i]] + RedactFrom(a + y, w, i + 1);
  }

  /** The scan of `a + y` up to the end of `a` is the scan of `a`. */
  lemma {:induction false} RedactPrefix(a: string, y: string, w: string, i: nat)
    requires IsBlockableWord(w) && i <= |a|
    requires |y| == 0 || !IsWordChar(y[0])
    ensures RedactFrom(a + y, w, i) == RedactFrom(a, w, i) + RedactFrom(a + y, w, |a|)
    decreases |a| - i
  {
    if i == |a| {
      assert RedactFrom(a, w, i) == "";
    } else {
      RedactPrefix(a, y, w, NextPos(a, w, i));
      PrefixStep(a, y, w, i);
    }
  }

  /** The scan of `p + b` past a separator-ended `p` is the scan of `b`. */
  lemma {:induction false} RedactShift(p: string, b: string, w: string, k: nat)
    requires IsBlockableWord(w) && |p| > 0 && !IsWordChar(p[|p| - 1]) && k <= |b|
    ensures RedactFrom(p + b, w, |p| + k) == RedactFrom(b, w, k)
    decreases |b| - k
  {
    if k == |b| {
      assert RedactFrom(p + b, w, |p| + k) == "";
    } else {
      RedactShift(p, b, w, NextPos(b, w, k));
      if MatchAt(b, w, k) {
        ShiftMaskStep(p, b, w, k);
      } else {
        ShiftCopyStep(p, b, w, k);
      }
    }
  }

  /** `RedactShift` at a match of `w` in `b`, given the claim past it. */
  lemma ShiftMaskStep(p: string, b: string, w: string, k: nat)
    requires IsBlockableWord(w) && |p| > 0 && !IsWordChar(p[|p| - 1]) && k < |b| && MatchAt(b, w, k)
    requires RedactFrom(p + b, w, |p| + (k + |w|)) == RedactFrom(b, w, k + |w|)
    ensures RedactFrom(p + b, w, |p| + k) == RedactFrom(b, w, k)
  {
    OccursShift(p, b, w, k, false);
    assert RedactFrom(p + b, w, |p| + k) == Mask + RedactFrom(p + b, w, |p| + (k + |w|));
  }

  /** `RedactShift` where the scan copies a character of `b`. */
  lemma ShiftCopyStep(p: string, b: string, w: string, k: nat)
    requires IsBlockableWord(w) && |p| > 0 && !IsWordChar(p[|p| - 1]) && k < |b| && !MatchAt(b, w, k)
    requires RedactFrom(p + b, w, |p| + (k + 1)) == RedactFrom(b, w, k + 1)
    ensures RedactFrom(p + b, w, |p| + k) == RedactFrom(b, w, k)
  {
    OccursShift(p, b, w, k, false);
    assert (p + b)[|p| + k] == b[k];
    assert RedactFrom(p + b, w, |p| + k) == [b[k]] + RedactFrom(p + b, w, |p| + (k + 1));
  }

  /** Redaction splits at every non-word character. */
  lemma RedactSplitsAtSeparator(a: string, c: char, b: string, w: string)
    requires IsBlockableWord(w) && !IsWordChar(c)
    ensures RedactWord(a + [c] + b, w) == RedactWord(a, w) + [c] + RedactWord(b, w)
  {
    var x := a + [c] + b;
    assert x == a + ([c] + b);
    RedactPrefix(a, [c] + b, w, 0);
    SeparatorCopied(x, w, |a|);
    RedactShift(a + [c], b, w, 0);
    var ra, rb := RedactFrom(a, w, 0), RedactFrom(b, w, 0);
    assert RedactFrom(x, w, 0) == ra + ([c] + rb);
    assert ra + ([c] + rb) == ra + [c] + rb;
  }

  /** A single word run is masked exactly when it is the blocked word, in any
      case; so a blocked word inside a longer word ("cat" in "category") stays. */
  lemma RedactWordRun(t: string, w: string)
    requires IsBlockableWord(w) && IsBlockableWord(t)
    ensures RedactWord(t, w) == if SameIgnoringCase(t, w) then Mask else t
  {
    if SameIgnoringCase(t, w) {
      assert t[0..|w|] == t;
      assert MatchAt(t, w, 0);
      assert RedactFrom(t, w, |w|) == "";
    } else {
      forall p: nat
        ensures !MatchAt(t, w, p)
      {
        if p > 0 && p < |t| {
          assert IsWordChar(t[p - 1]);
        } else if p == 0 && |w| <= |t| {
          assert |w| < |t| ==> IsWordChar(t[|w|]);
          assert |w| == |t| ==> t[0..|w|] == t;
        }
      }
    }
  }

  /** Blocking "cat" masks "Cat" but keeps "category". The texts are
      parameters pinned by the precondition: on literal arguments the
      verifier would unfold the recursive scan without bound. */
  lemma FilterExample(a: string, b: string, w: string)
    requires a == "Cat" && b == "category" && w == "cat"
    ensures FilterText(a + " " + b, [w]) == Mask + " " + b
  {
    assert IsBlockableWord(a) && IsBlockableWord(b) && IsBlockableWord(w);
    assert SameIgnoringCase(a, w);
    RedactWordRun(a, w);
    RedactWordRun(b, w);
    RedactSplitsAtSeparator(a, ' ', b, w);
    assert [w][..0] == [];
  }
}
