/**
 * `toKebabCase` (chain_prompt.js): a non-string gives ''; otherwise `_` and
 * `-` become spaces, two regular-expression rewrites put a space at
 * camelCase and acronym boundaries, the result is trimmed, lower-cased, each
 * whitespace run becomes `-`, and each `-` run becomes one `-`. It never fails.
 */
module Kebab {
  import opened Text
  import opened Words

  /** The two boundary rewrites: `([a-z])([A-Z])` and `([A-Z]+)([A-Z][a-z])`. */
  datatype Boundary = LowerUpper | Acronym

  /** The rewrite for `rule` puts a space just before `s[j]`: after a
      lower-case letter that precedes an upper-case one, or before the last
      capital of a run of at least two that a lower-case letter follows. */
  predicate BreakBefore(rule: Boundary, s: string, j: nat) {
    match rule
    case LowerUpper => 0 < j < |s| && IsLower(s[j - 1]) && IsUpper(s[j])
    case Acronym => 0 < j && j + 1 < |s| && IsUpper(s[j - 1]) && IsUpper(s[j]) && IsLower(s[j + 1])
  }

  /** Reference for a rewrite: `s[i..]` with one space inserted before every
      position where `rule` holds, and nothing else changed. */
  function WithBreaks(rule: Boundary, s: string, i: nat): string
    requires i <= |s|
    decreases |s| - i
  {
    if i == |s| then []
    else (if BreakBefore(rule, s, i) then " " else []) + [s[i]] + WithBreaks(rule, s, i + 1)
  }

  /** Inserting spaces keeps every character and adds only spaces. */
  lemma {:induction false} BreaksKeep(rule: Boundary, s: string, i: nat)
    requires i <= |s|
    ensures forall c :: c in s[i..] ==> c in WithBreaks(rule, s, i)
    ensures forall c :: c in WithBreaks(rule, s, i) ==> c == ' ' || c in s[i..]
    decreases |s| - i
  {
    if i < |s| {
      assert s[i..] == [s[i]] + s[i + 1..];
      BreaksKeep(rule, s, i + 1);
    }
  }

  /** Where `rule` holds nowhere in `s[i..j]`, that stretch is copied as is. */
  lemma {:induction false} Unbroken(rule: Boundary, s: string, i: nat, j: nat)
    requires i <= j <= |s|
    requires forall k :: i <= k < j ==> !BreakBefore(rule, s, k)
    ensures WithBreaks(rule, s, i) == s[i..j] + WithBreaks(rule, s, j)
    decreases j - i
  {
    if i < j {
      assert WithBreaks(rule, s, i) == [s[i]] + WithBreaks(rule, s, i + 1);
      Unbroken(rule, s, i + 1, j);
      assert s[i..j] == [s[i]] + s[i + 1..j];
      Associate([s[i]], s[i + 1..j], WithBreaks(rule, s, j));
    } else {
      assert s[i..j] == [];
    }
  }

  /** Neither rewrite touches a string without upper-case letters. */
  lemma NoUpperNoBreaks(rule: Boundary, s: string)
    requires NoneIn(s, Uppercase)
    ensures WithBreaks(rule, s, 0) == s
  {
    Unbroken(rule, s, 0, |s|);
  }

  /** `s.replace(/([a-z])([A-Z])/g, '$1 $2')`, scanning left to right: a match
      consumes both letters and the scan resumes after them. */
  function SplitLowerUpper(s: string): string
    decreases |s|
  {
    if |s| >= 2 && IsLower(s[0]) && IsUpper(s[1]) then [s[0], ' ', s[1]] + SplitLowerUpper(s[2..])
    else if s == [] then []
    else [s[0]] + SplitLowerUpper(s[1..])
  }

  /** `s.replace(/([A-Z]+)([A-Z][a-z])/g, '$1 $2')`, scanning left to right.
      At a capital the greedy `[A-Z]+` takes the whole run of capitals and
      gives back one so that `[A-Z][a-z]` can match: a match exists exactly
      when the run has at least two capitals and a lower-case letter follows
      it. A match consumes the run and that letter; otherwise the scan moves
      on by one. */
  function SplitAcronyms(s: string): string {
    AcronymScan(s, 0)
  }

  /** The scan from index `i` on. */
  function AcronymScan(s: string, i: nat): string
    requires i <= |s|
    decreases |s| - i
  {
    if i == |s| then []
    else
      var j := RunEnd(s, i);
      if j >= i + 2 && j < |s| && IsLower(s[j]) then
        s[i..j - 1] + " " + s[j - 1..j + 1] + AcronymScan(s, j + 1)
      else [s[i]] + AcronymScan(s, i + 1)
  }

  /** Where the run of capitals starting at `i` ends: what a greedy `[A-Z]+`
      at `i` consumes. */
  function RunEnd(s: string, i: nat): (j: nat)
    requires i <= |s|
    ensures i <= j <= |s|
    ensures forall k :: i <= k < j ==> IsUpper(s[k])
    ensures j == |s| || !IsUpper(s[j])
    decreases |s| - i
  {
    if i == |s| || !IsUpper(s[i]) then i else RunEnd(s, i + 1)
  }

  lemma {:induction false} SplitLowerUpperFrom(s: string, i: nat)
    requires i <= |s| && !BreakBefore(LowerUpper, s, i)
    ensures SplitLowerUpper(s[i..]) == WithBreaks(LowerUpper, s, i)
    decreases |s| - i
  {
    if i < |s| {
      var t := s[i..];
      if |t| >= 2 && IsLower(t[0]) && IsUpper(t[1]) {
        assert t[2..] == s[i + 2..];
        assert SplitLowerUpper(t) == [s[i], ' ', s[i + 1]] + SplitLowerUpper(s[i + 2..]);
        SplitLowerUpperFrom(s, i + 2);
        assert WithBreaks(LowerUpper, s, i + 1) == " " + [s[i + 1]] + WithBreaks(LowerUpper, s, i + 2);
      } else {
        assert t[1..] == s[i + 1..];
        assert SplitLowerUpper(t) == [s[i]] + SplitLowerUpper(s[i + 1..]);
        SplitLowerUpperFrom(s, i + 1);
      }
    }
  }

  /** The `([a-z])([A-Z])` rewrite inserts a space exactly before every
      upper-case letter that follows a lower-case one. */
  lemma SplitLowerUpperBreaks(s: string)
    ensures SplitLowerUpper(s) == WithBreaks(LowerUpper, s, 0)
  {
    SplitLowerUpperFrom(s, 0);
    assert s[0..] == s;
  }

  /** Where the acronym pattern matches at `i` with a run of capitals
      ending at `j`, the reference breaks only before the run's last capital,
      and not just after the match. */
  lemma AcronymMatch(s: string, i: nat, j: nat)
    requires i < |s| && !BreakBefore(Acronym, s, i) && j == RunEnd(s, i)
    requires j >= i + 2 && j < |s| && IsLower(s[j])
    ensures WithBreaks(Acronym, s, i)
            == s[i..j - 1] + " " + s[j - 1..j + 1] + WithBreaks(Acronym, s, j + 1)
    ensures !BreakBefore(Acronym, s, j + 1)
  {
    InsideRun(s, i, j);
    AtLastCapital(s, j - 1);
    Regroup(s[i..j - 1], " ", s[j - 1..j + 1], WithBreaks(Acronym, s, j + 1));
  }

  /** Up to the last capital of the run, the acronym rule never holds, so
      that stretch is copied. */
  lemma InsideRun(s: string, i: nat, j: nat)
    requires i < |s| && !BreakBefore(Acronym, s, i) && j == RunEnd(s, i)
    requires j >= i + 2 && j < |s| && IsLower(s[j])
    ensures WithBreaks(Acronym, s, i) == s[i..j - 1] + WithBreaks(Acronym, s, j - 1)
  {
    forall k | i <= k < j - 1
      ensures !BreakBefore(Acronym, s, k)
    {
      if k > i {
        assert IsUpper(s[k + 1]);
      }
    }
    Unbroken(Acronym, s, i, j - 1);
  }

  /** Regrouping a concatenation. */
  lemma Regroup(a: string, b: string, c: string, d: string)
    ensures a + (b + c + d) == a + b + c + d
  {
  }

  /** Before the last capital `s[m]` of a run that a lower-case letter
      follows, the reference writes a space, then the two letters. */
  lemma AtLastCapital(s: string, m: nat)
    requires 0 < m && m + 1 < |s| && IsUpper(s[m - 1]) && IsUpper(s[m]) && IsLower(s[m + 1])
    ensures WithBreaks(Acronym, s, m) == " " + s[m..m + 2] + WithBreaks(Acronym, s, m + 2)
    ensures !BreakBefore(Acronym, s, m + 2)
  {
    var rest := WithBreaks(Acronym, s, m + 2);
    assert !BreakBefore(Acronym, s, m + 1);
    assert WithBreaks(Acronym, s, m + 1) == [s[m + 1]] + rest;
    assert s[m..m + 2] == [s[m], s[m + 1]];
  }

  /** Where the acronym pattern does not match at `i`, the reference has no
      break at `i + 1` either. */
  lemma AcronymMiss(s: string, i: nat)
    requires i < |s|
    requires var j := RunEnd(s, i); !(j >= i + 2 && j < |s| && IsLower(s[j]))
    ensures !BreakBefore(Acronym, s, i + 1)
  {
  }

  lemma {:induction false} AcronymScanFrom(s: string, i: nat)
    requires i <= |s| && !BreakBefore(Acronym, s, i)
    ensures AcronymScan(s, i) == WithBreaks(Acronym, s, i)
    decreases |s| - i, 1
  {
    if i < |s| {
      var j := RunEnd(s, i);
      if j >= i + 2 && j < |s| && IsLower(s[j]) {
        AcronymScanMatch(s, i, j);
      } else {
        AcronymScanMiss(s, i);
      }
    }
  }

  lemma {:induction false} AcronymScanMatch(s: string, i: nat, j: nat)
    requires i < |s| && !BreakBefore(Acronym, s, i) && j == RunEnd(s, i)
    requires j >= i + 2 && j < |s| && IsLower(s[j])
    ensures AcronymScan(s, i) == WithBreaks(Acronym, s, i)
    decreases |s| - i, 0
  {
    assert AcronymScan(s, i) == s[i..j - 1] + " " + s[j - 1..j + 1] + AcronymScan(s, j + 1);
    AcronymMatch(s, i, j);
    AcronymScanFrom(s, j + 1);
  }

  lemma {:induction false} AcronymScanMiss(s: string, i: nat)
    requires i < |s| && !BreakBefore(Acronym, s, i)
    requires var j := RunEnd(s, i); !(j >= i + 2 && j < |s| && IsLower(s[j]))
    ensures AcronymScan(s, i) == WithBreaks(Acronym, s, i)
    decreases |s| - i, 0
  {
    assert AcronymScan(s, i) == [s[i]] + AcronymScan(s, i + 1);
    AcronymMiss(s, i);
    assert WithBreaks(Acronym, s, i) == [s[i]] + WithBreaks(Acronym, s, i + 1);
    AcronymScanFrom(s, i + 1);
  }

  /** The `([A-Z]+)([A-Z][a-z])` rewrite inserts a space exactly before every
      capital that follows a capital and precedes a lower-case letter, so an
      acronym stays together and only the capital starting the next word is
      split off. */
  lemma SplitAcronymsBreaks(s: string)
    ensures SplitAcronyms(s) == WithBreaks(Acronym, s, 0)
  {
    AcronymScanFrom(s, 0);
  }

  /** chain_prompt.js lines 31-33: every `_` and every `-` becomes a space. */
  function Spaced(s: string): string {
    ReplaceChar(ReplaceChar(s, '_', ' '), '-', ' ')
  }

  /** The reference for both boundary rewrites after the separators became
      spaces: a space before every capital that follows a lower-case letter,
      then before every capital between a capital and a lower-case letter. */
  function Broken(s: string): string {
    WithBreaks(Acronym, WithBreaks(LowerUpper, Spaced(s), 0), 0)
  }

  /** chain_prompt.js lines 29-39: `_` and `-` become spaces, the two
      boundary rewrites run in order, and the result is trimmed. What is left
      has no `_` or `-`, does not start or end with whitespace, and is empty
      exactly when the input holds nothing but separators. */
  function Normalize(s: string): (r: string)
    ensures '_' !in r && '-' !in r
    ensures r == [] || (!IsWhitespace(r[0]) && !IsWhitespace(r[|r| - 1]))
    ensures r == [] <==> AllIn(s, Separator)
  {
    var spaced := Spaced(s);
    var acronyms := SplitAcronyms(SplitLowerUpper(spaced));
    SeparatorsSpaced(s);
    RewritesKeep(spaced);
    TrimSpaced(spaced, acronyms);
    Trim(acronyms)
  }

  /** Turning `_` and `-` into spaces leaves neither, and makes the string
      all whitespace exactly when it was all separators. */
  lemma SeparatorsSpaced(s: string)
    ensures '_' !in Spaced(s)
    ensures '-' !in Spaced(s)
    ensures AllIn(s, Separator) <==> AllIn(Spaced(s), Whitespace)
    ensures |Spaced(s)| == |s|
    ensures forall i :: 0 <= i < |s| ==>
              IsWhitespace(Spaced(s)[i]) == IsSeparator(s[i]) && (IsSeparator(s[i]) || Spaced(s)[i] == s[i])
  {
    var spaced := Spaced(s);
    forall i | 0 <= i < |s|
      ensures spaced[i] != '_' && spaced[i] != '-'
      ensures IsWhitespace(spaced[i]) == IsSeparator(s[i])
    {
    }
  }

  /** Both rewrites together keep every character and add only spaces. */
  lemma RewritesKeep(x: string)
    ensures forall c :: c in x ==> c in SplitAcronyms(SplitLowerUpper(x))
    ensures forall c :: c in SplitAcronyms(SplitLowerUpper(x)) ==> c == ' ' || c in x
  {
    var y := SplitLowerUpper(x);
    SplitLowerUpperBreaks(x);
    BreaksKeep(LowerUpper, x, 0);
    SplitAcronymsBreaks(y);
    BreaksKeep(Acronym, y, 0);
    assert x[0..] == x && y[0..] == y;
  }

  /** Trimming `broken`, a copy of `spaced` with spaces inserted, leaves no
      `_` or `-`, and leaves nothing exactly when `spaced` is all whitespace. */
  lemma TrimSpaced(spaced: string, broken: string)
    requires '_' !in spaced && '-' !in spaced
    requires forall c :: c in spaced ==> c in broken
    requires forall c :: c in broken ==> c == ' ' || c in spaced
    ensures '_' !in Trim(broken) && '-' !in Trim(broken)
    ensures Trim(broken) == [] || (!IsWhitespace(Trim(broken)[0]) && !IsWhitespace(Trim(broken)[|Trim(broken)| - 1]))
    ensures Trim(broken) == [] <==> AllIn(spaced, Whitespace)
  {
    TrimKeeps(broken);
    var a, b := TrimSlice(broken);
    if AllIn(spaced, Whitespace) {
      forall i | 0 <= i < |broken|
        ensures IsWhitespace(broken[i])
      {
        assert broken[i] in broken;
        if broken[i] != ' ' {
          var j :| 0 <= j < |spaced| && spaced[j] == broken[i];
        }
      }
    } else {
      var j :| 0 <= j < |spaced| && !IsWhitespace(spaced[j]);
      assert spaced[j] in broken;
      assert spaced[j] in Trim(broken);
    }
  }

  /** chain_prompt.js lines 42-48: lower-case, turn each whitespace run
      into `-`, then each `-` run into a single `-`. */
  function Format(n: string): string {
    ReplaceRuns(ReplaceRuns(Lower(n), Whitespace, '-'), Hyphen, '-')
  }

  /** kebab-case: no whitespace, `_` or upper-case letter, and no `-` at
      either end or next to another `-`. */
  predicate IsKebab(r: string) {
    (forall i :: 0 <= i < |r| ==> KebabChar(r[i]))
    && (r != [] ==> r[0] != '-' && r[|r| - 1] != '-')
    && NoRepeat(r, '-')
  }

  predicate KebabChar(c: char) {
    !IsWhitespace(c) && c != '_' && !IsUpper(c)
  }

  /** Formatting a normalized string gives kebab-case, and the final `-+`
      rewrite finds nothing left to collapse. */
  lemma FormatShape(n: string)
    requires '_' !in n && '-' !in n
    requires n == [] || (!IsWhitespace(n[0]) && !IsWhitespace(n[|n| - 1]))
    ensures IsKebab(Format(n))
    ensures Format(n) == ReplaceRuns(Lower(n), Whitespace, '-')
    ensures Format(n) == [] <==> n == []
  {
    LowerNormalized(n);
    var h := ReplaceRuns(Lower(n), Whitespace, '-');
    HyphenatedKebab(Lower(n));
    assert NoAdjacent(h, Hyphen) by {
      forall i | 0 < i < |h| ensures !(h[i - 1] == '-' && h[i] == '-') {
      }
    }
    ReplaceRunsOfOne(h, Hyphen, '-');
    assert ReplaceRuns(h, Hyphen, '-') == h;
  }

  /** Lower-casing keeps a normalized string normalized and removes capitals. */
  lemma LowerNormalized(n: string)
    requires '_' !in n && '-' !in n
    requires n == [] || (!IsWhitespace(n[0]) && !IsWhitespace(n[|n| - 1]))
    ensures '_' !in Lower(n) && '-' !in Lower(n) && NoneIn(Lower(n), Uppercase)
    ensures n == [] || (!IsWhitespace(Lower(n)[0]) && !IsWhitespace(Lower(n)[|n| - 1]))
  {
    var l := Lower(n);
    forall i | 0 <= i < |n|
      ensures l[i] != '-' && l[i] != '_' && IsWhitespace(l[i]) == IsWhitespace(n[i])
    {
      assert n[i] in n;
      CaseMapping(n[i]);
    }
  }

  /** Turning the whitespace runs of a lower-case normalized string into `-`
      gives kebab-case. */
  lemma HyphenatedKebab(l: string)
    requires '_' !in l && '-' !in l && NoneIn(l, Uppercase)
    requires l == [] || (!IsWhitespace(l[0]) && !IsWhitespace(l[|l| - 1]))
    ensures IsKebab(ReplaceRuns(l, Whitespace, '-'))
  {
    var h := ReplaceRuns(l, Whitespace, '-');
    ReplaceRunsNoRepeat(l, Whitespace, '-');
    ReplaceRunsChars(l, Whitespace, '-');
    forall i | 0 <= i < |h|
      ensures KebabChar(h[i])
    {
      assert h[i] in h;
      if h[i] != '-' {
        var j :| 0 <= j < |l| && l[j] == h[i];
      }
    }
  }

  /** `toKebabCase(input)`: '' for a non-string; otherwise kebab-case output,
      empty exactly when the input holds nothing but whitespace, `_` and `-`. */
  function ToKebabCase(input: Input): (r: string)
    ensures input.NonString? ==> r == []
    ensures IsKebab(r)
    ensures input.Str? ==> (r == [] <==> AllIn(input.s, Separator))
  {
    match input
    case NonString => []
    case Str(s) =>
      var n := Normalize(s);
      FormatShape(n);
      Format(n)
  }

  /** In kebab-case input turned into spaced words, the whitespace is
      exactly where the `-` was, and there is no `_`, `-` or capital, and no
      whitespace at either end. */
  lemma KebabSpaced(s: string)
    requires IsKebab(s)
    ensures forall i :: 0 <= i < |s| ==> (IsWhitespace(ReplaceChar(s, '-', ' ')[i]) <==> s[i] == '-')
    ensures '_' !in ReplaceChar(s, '-', ' ') && '-' !in ReplaceChar(s, '-', ' ')
    ensures NoneIn(ReplaceChar(s, '-', ' '), Uppercase)
    ensures ReplaceChar(s, '_', ' ') == s
    ensures s == [] || (!IsWhitespace(ReplaceChar(s, '-', ' ')[0]) && !IsWhitespace(ReplaceChar(s, '-', ' ')[|s| - 1]))
  {
    var spaced := ReplaceChar(s, '-', ' ');
    forall i | 0 <= i < |s|
      ensures IsWhitespace(spaced[i]) <==> s[i] == '-'
      ensures spaced[i] != '_' && spaced[i] != '-' && !IsUpper(spaced[i])
    {
      assert KebabChar(s[i]);
    }
  }

  /** On kebab-case input, normalizing only turns each `-` into a space:
      there is no `_`, no capital for a rewrite to act on, and nothing to trim. */
  lemma NormalizeKebab(s: string)
    requires IsKebab(s)
    ensures Normalize(s) == ReplaceChar(s, '-', ' ')
  {
    KebabSpaced(s);
    var spaced := ReplaceChar(s, '-', ' ');
    NoCapitalsUnbroken(spaced);
    TrimUntouched(spaced);
  }

  /** Without capitals neither rewrite finds a match. */
  lemma NoCapitalsUnbroken(x: string)
    requires NoneIn(x, Uppercase)
    ensures SplitAcronyms(SplitLowerUpper(x)) == x
  {
    SplitLowerUpperBreaks(x);
    NoUpperNoBreaks(LowerUpper, x);
    SplitAcronymsBreaks(x);
    NoUpperNoBreaks(Acronym, x);
  }

  /** ... and formatting turns each of those single spaces back into `-`. */
  lemma FormatKebab(s: string)
    requires IsKebab(s)
    ensures Format(ReplaceChar(s, '-', ' ')) == s
  {
    KebabSpaced(s);
    var spaced := ReplaceChar(s, '-', ' ');
    LowerNoUpper(spaced);
    assert NoAdjacent(spaced, Whitespace) by {
      forall i | 0 < i < |s| ensures !(IsWhitespace(spaced[i - 1]) && IsWhitespace(spaced[i])) {
      }
    }
    ReplaceRunsOfOne(spaced, Whitespace, '-');
    assert ReplaceRuns(spaced, Whitespace, '-') == s;
    FormatShape(spaced);
  }

  /** A kebab-case string is returned unchanged. */
  lemma KebabFixpoint(s: string)
    requires IsKebab(s)
    ensures ToKebabCase(Str(s)) == s
  {
    NormalizeKebab(s);
    FormatKebab(s);
  }

  /** `toKebabCase` returns its argument unchanged exactly when the argument
      is already kebab-case; in particular it is idempotent. */
  lemma KebabIdempotent(input: Input)
    ensures ToKebabCase(Str(ToKebabCase(input))) == ToKebabCase(input)
    ensures forall s :: ToKebabCase(Str(s)) == s <==> IsKebab(s)
  {
    KebabFixpoint(ToKebabCase(input));
    forall s | IsKebab(s) ensures ToKebabCase(Str(s)) == s {
      KebabFixpoint(s);
    }
  }

  /** `_`, `-` and the space are interchangeable: two inputs that differ
      only in which of them sits at a position convert alike. */
  lemma SeparatorsInterchangeable(x: string, y: string)
    requires |x| == |y|
    requires forall i :: 0 <= i < |x| ==> x[i] == y[i] || (x[i] in "_- " && y[i] in "_- ")
    ensures ToKebabCase(Str(x)) == ToKebabCase(Str(y))
  {
    var sx := Spaced(x);
    var sy := Spaced(y);
    forall i | 0 <= i < |x| ensures sx[i] == sy[i] {
      if x[i] != y[i] {
        assert x[i] in "_- " && y[i] in "_- ";
      }
    }
    assert sx == sy;
  }

  /** Normalizing keeps the words of the reference: trimming drops only
      whitespace at the ends. */
  lemma NormalizeWords(s: string)
    ensures Split(Normalize(s), Whitespace) == Split(Broken(s), Whitespace)
  {
    var spaced := Spaced(s);
    SplitLowerUpperBreaks(spaced);
    SplitAcronymsBreaks(SplitLowerUpper(spaced));
    SplitTrim(SplitAcronyms(SplitLowerUpper(spaced)), Whitespace);
  }

  /** The whole conversion of a string: its words, once `_` and `-` are
      spaces and the two boundary rewrites have put a space at every
      camelCase and acronym boundary, lower-cased and joined with single
      `-`. */
  lemma KebabWords(s: string)
    ensures ToKebabCase(Str(s)) == JoinWith(LowerAll(Split(Broken(s), Whitespace)), '-')
  {
    var n := Normalize(s);
    FormatShape(n);
    LowerNormalized(n);
    ReplaceRunsJoin(Lower(n), Whitespace, '-');
    SplitLower(n, Whitespace);
    NormalizeWords(s);
  }

  /** Splitting the output on `-` gives back those words, and deleting the
      `-` leaves exactly the input's letters other than separators,
      lower-cased and in order. */
  lemma KebabLetters(s: string)
    ensures Split(ToKebabCase(Str(s)), Hyphen) == LowerAll(Split(Broken(s), Whitespace))
    ensures Remove(ToKebabCase(Str(s)), Hyphen) == Lower(Remove(s, Separator))
  {
    var b := Broken(s);
    var ws := Split(b, Whitespace);
    KebabWords(s);
    BrokenWords(s);
    SplitJoin(LowerAll(ws), '-', Hyphen);
    ConcatLowerAll(ws);
    BrokenLetters(s);
  }

  /** The words of the reference hold no `-`, before or after lower-casing. */
  lemma BrokenWords(s: string)
    ensures AllWords(LowerAll(Split(Broken(s), Whitespace)), Hyphen)
  {
    var spaced := Spaced(s);
    var b1 := WithBreaks(LowerUpper, spaced, 0);
    SeparatorsSpaced(s);
    BreaksKeep(LowerUpper, spaced, 0);
    BreaksKeep(Acronym, b1, 0);
    assert spaced[0..] == spaced && b1[0..] == b1;
    var b := Broken(s);
    assert NoneIn(b, Hyphen) by {
      forall i | 0 <= i < |b| ensures b[i] != '-' {
        assert b[i] in b;
      }
    }
    SplitAvoids(b, Whitespace, Hyphen);
    var ws := Split(b, Whitespace);
    forall i | 0 <= i < |ws| ensures IsWord(Lower(ws[i]), Hyphen) {
      forall j | 0 <= j < |ws[i]| ensures !InClass(Hyphen, Lower(ws[i])[j]) {
        LowerInClass(ws[i][j], Hyphen);
      }
    }
  }

  /** The reference adds only spaces, so besides whitespace it holds exactly
      the input's characters other than separators. */
  lemma BrokenLetters(s: string)
    ensures Remove(Broken(s), Whitespace) == Remove(s, Separator)
  {
    var spaced := Spaced(s);
    var b1 := WithBreaks(LowerUpper, spaced, 0);
    RemoveBreaks(Acronym, b1, 0);
    RemoveBreaks(LowerUpper, spaced, 0);
    assert spaced[0..] == spaced && b1[0..] == b1;
    SeparatorsSpaced(s);
    RemoveMatch(spaced, Whitespace, s, Separator);
  }

  /** Inserting spaces does not change what is left without whitespace. */
  lemma {:induction false} RemoveBreaks(rule: Boundary, x: string, i: nat)
    requires i <= |x|
    ensures Remove(WithBreaks(rule, x, i), Whitespace) == Remove(x[i..], Whitespace)
    decreases |x| - i
  {
    if i < |x| {
      var sp: string := if BreakBefore(rule, x, i) then " " else [];
      var rest := WithBreaks(rule, x, i + 1);
      RemoveBreaks(rule, x, i + 1);
      RemoveAppend(sp + [x[i]], rest, Whitespace);
      RemoveAppend(sp, [x[i]], Whitespace);
      assert Remove(sp, Whitespace) == [];
      assert x[i..] == [x[i]] + x[i + 1..];
      RemoveAppend([x[i]], x[i + 1..], Whitespace);
    }
  }

  /** Normalization in steps: when the separator rewrites give `spaced`,
      the boundary rewrites then give `t`, and `t` has no whitespace at
      either end, `t` is the normalized string. */
  lemma NormalizedTo(s: string, spaced: string, t: string)
    requires Spaced(s) == spaced
    requires SplitAcronyms(SplitLowerUpper(spaced)) == t
    requires t == [] || (!IsWhitespace(t[0]) && !IsWhitespace(t[|t| - 1]))
    ensures Normalize(s) == t
  {
    TrimUntouched(t);
  }

  /** chain_prompt.js line 52: 'camelCaseString' becomes 'camel-case-string'. */
  lemma CamelCaseExample()
    ensures ToKebabCase(Str("camelCaseString")) == "camel-case-string"
  {
    var s := "camelCaseString";
    var t := "camel Case String";
    CamelCaseNormalized(s, t);
    CamelCaseFormatted(t, "camel-case-string");
  }

  lemma CamelCaseNormalized(s: string, t: string)
    requires s == "camelCaseString" && t == "camel Case String"
    ensures Normalize(s) == t
  {
    CamelCaseClean(s, t);
    NoSeparatorsSpaced(s);
    CamelCaseBreaks(s, t);
    NoAcronymsUnbroken(t);
    NormalizedTo(s, s, t);
  }

  lemma CamelCaseClean(s: string, t: string)
    requires s == "camelCaseString" && t == "camel Case String"
    ensures '_' !in s && '-' !in s
    ensures forall i :: 0 < i < |t| ==> !(IsUpper(t[i - 1]) && IsUpper(t[i]))
    ensures !IsWhitespace(t[0]) && !IsWhitespace(t[|t| - 1])
  {
  }

  lemma CamelCaseFormatted(t: string, r: string)
    requires t == "camel Case String" && r == "camel-case-string"
    ensures Format(t) == r
  {
    CamelCaseKebab(r);
    assert Lower(t) == ReplaceChar(r, '-', ' ');
    FormatToKebab(t, r);
  }

  lemma CamelCaseKebab(r: string)
    requires r == "camel-case-string"
    ensures IsKebab(r)
  {
  }

  lemma CamelCaseBreaks(s: string, t: string)
    requires s == "camelCaseString" && t == "camel Case String"
    ensures SplitLowerUpper(s) == t
  {
    SplitLowerUpperBreaks(s);
    CamelCaseHead(s);
    CamelCaseTail(s);
  }

  lemma CamelCaseHead(s: string)
    requires s == "camelCaseString"
    ensures WithBreaks(LowerUpper, s, 0) == "camel C" + WithBreaks(LowerUpper, s, 6)
  {
    Unbroken(LowerUpper, s, 0, 5);
    assert s[0..5] == "camel";
  }

  lemma CamelCaseTail(s: string)
    requires s == "camelCaseString"
    ensures WithBreaks(LowerUpper, s, 6) == "ase String"
  {
    Unbroken(LowerUpper, s, 6, 9);
    Unbroken(LowerUpper, s, 10, 15);
    assert s[6..9] == "ase" && s[10..15] == "tring";
  }

  /** chain_prompt.js line 53: 'snake_case_string' becomes 'snake-case-string'. */
  lemma SnakeCaseExample()
    ensures ToKebabCase(Str("snake_case_string")) == "snake-case-string"
  {
    var s := "snake_case_string";
    var r := "snake-case-string";
    SnakeCaseSeparators(s, r);
    SeparatorsInterchangeable(s, r);
    HyphenatedUnchanged(r);
  }

  lemma SnakeCaseSeparators(s: string, r: string)
    requires s == "snake_case_string" && r == "snake-case-string"
    ensures |s| == |r|
    ensures forall i :: 0 <= i < |s| ==> s[i] == r[i] || (s[i] in "_- " && r[i] in "_- ")
  {
  }

  /** chain_prompt.js line 54: 'PascalCaseString' becomes 'pascal-case-string'. */
  lemma PascalCaseExample()
    ensures ToKebabCase(Str("PascalCaseString")) == "pascal-case-string"
  {
    var s := "PascalCaseString";
    var t := "Pascal Case String";
    PascalCaseNormalized(s, t);
    PascalCaseFormatted(t, "pascal-case-string");
  }

  lemma PascalCaseNormalized(s: string, t: string)
    requires s == "PascalCaseString" && t == "Pascal Case String"
    ensures Normalize(s) == t
  {
    PascalCaseClean(s, t);
    NoSeparatorsSpaced(s);
    PascalCaseBreaks(s, t);
    NoAcronymsUnbroken(t);
    NormalizedTo(s, s, t);
  }

  lemma PascalCaseClean(s: string, t: string)
    requires s == "PascalCaseString" && t == "Pascal Case String"
    ensures '_' !in s && '-' !in s
    ensures forall i :: 0 < i < |t| ==> !(IsUpper(t[i - 1]) && IsUpper(t[i]))
    ensures !IsWhitespace(t[0]) && !IsWhitespace(t[|t| - 1])
  {
  }

  lemma PascalCaseBreaks(s: string, t: string)
    requires s == "PascalCaseString" && t == "Pascal Case String"
    ensures SplitLowerUpper(s) == t
  {
    SplitLowerUpperBreaks(s);
    PascalCaseHead(s);
    PascalCaseTail(s);
  }

  lemma PascalCaseHead(s: string)
    requires s == "PascalCaseString"
    ensures WithBreaks(LowerUpper, s, 0) == "Pascal C" + WithBreaks(LowerUpper, s, 7)
  {
    Unbroken(LowerUpper, s, 0, 6);
    assert s[0..6] == "Pascal";
  }

  lemma PascalCaseTail(s: string)
    requires s == "PascalCaseString"
    ensures WithBreaks(LowerUpper, s, 7) == "ase String"
  {
    Unbroken(LowerUpper, s, 7, 10);
    Unbroken(LowerUpper, s, 11, 16);
    assert s[7..10] == "ase" && s[11..16] == "tring";
  }

  lemma PascalCaseFormatted(t: string, r: string)
    requires t == "Pascal Case String" && r == "pascal-case-string"
    ensures Format(t) == r
  {
    PascalCaseKebab(r);
    assert Lower(t) == ReplaceChar(r, '-', ' ');
    FormatToKebab(t, r);
  }

  lemma PascalCaseKebab(r: string)
    requires r == "pascal-case-string"
    ensures IsKebab(r)
  {
  }

  /** chain_prompt.js line 55: 'some-hyphenated-text' is already kebab-case and stays so. */
  lemma HyphenatedExample()
    ensures ToKebabCase(Str("some-hyphenated-text")) == "some-hyphenated-text"
  {
    HyphenatedUnchanged("some-hyphenated-text");
  }

  lemma HyphenatedUnchanged(s: string)
    requires s == "some-hyphenated-text" || s == "snake-case-string"
    ensures ToKebabCase(Str(s)) == s
  {
    HyphenatedIsKebab(s);
    KebabFixpoint(s);
  }

  lemma HyphenatedIsKebab(s: string)
    requires s == "some-hyphenated-text" || s == "snake-case-string"
    ensures IsKebab(s)
  {
  }

  /** chain_prompt.js line 56: 'HTTPServerResponse' becomes 'http-server-response': the
      camel rewrite splits before `R`, the acronym rewrite before `S`. */
  lemma AcronymExample()
    ensures ToKebabCase(Str("HTTPServerResponse")) == "http-server-response"
  {
    var s := "HTTPServerResponse";
    var u, t := "HTTPServer Response", "HTTP Server Response";
    AcronymCamelBreak(s, u);
    AcronymBreak(u, t);
    AcronymNormalized(s, u, t);
    AcronymFormatted(t, "http-server-response");
  }

  lemma AcronymCamelBreak(s: string, u: string)
    requires s == "HTTPServerResponse" && u == "HTTPServer Response"
    ensures SplitLowerUpper(s) == u
  {
    SplitLowerUpperBreaks(s);
    AcronymCamelHead(s);
    AcronymCamelTail(s);
  }

  lemma AcronymCamelHead(s: string)
    requires s == "HTTPServerResponse"
    ensures WithBreaks(LowerUpper, s, 0) == "HTTPServer R" + WithBreaks(LowerUpper, s, 11)
  {
    Unbroken(LowerUpper, s, 0, 10);
    assert s[0..10] == "HTTPServer";
  }

  lemma AcronymCamelTail(s: string)
    requires s == "HTTPServerResponse"
    ensures WithBreaks(LowerUpper, s, 11) == "esponse"
  {
    Unbroken(LowerUpper, s, 11, 18);
    assert s[11..18] == "esponse";
  }

  lemma AcronymBreak(u: string, t: string)
    requires u == "HTTPServer Response" && t == "HTTP Server Response"
    ensures SplitAcronyms(u) == t
  {
    SplitAcronymsBreaks(u);
    AcronymHead(u);
    AcronymTail(u);
  }

  lemma AcronymHead(u: string)
    requires u == "HTTPServer Response"
    ensures WithBreaks(Acronym, u, 0) == "HTTP S" + WithBreaks(Acronym, u, 5)
  {
    Unbroken(Acronym, u, 0, 4);
    assert u[0..4] == "HTTP";
  }

  lemma AcronymTail(u: string)
    requires u == "HTTPServer Response"
    ensures WithBreaks(Acronym, u, 5) == "erver Response"
  {
    Unbroken(Acronym, u, 5, 19);
    assert u[5..19] == "erver Response";
  }

  lemma AcronymNormalized(s: string, u: string, t: string)
    requires s == "HTTPServerResponse" && u == "HTTPServer Response" && t == "HTTP Server Response"
    requires SplitLowerUpper(s) == u && SplitAcronyms(u) == t
    ensures Normalize(s) == t
  {
    AcronymClean(s, t);
    NoSeparatorsSpaced(s);
    NormalizedTo(s, s, t);
  }

  lemma AcronymClean(s: string, t: string)
    requires s == "HTTPServerResponse" && t == "HTTP Server Response"
    ensures '_' !in s && '-' !in s
    ensures !IsWhitespace(t[0]) && !IsWhitespace(t[|t| - 1])
  {
  }

  lemma AcronymFormatted(t: string, r: string)
    requires t == "HTTP Server Response" && r == "http-server-response"
    ensures Format(t) == r
  {
    AcronymKebab(r);
    assert Lower(t) == ReplaceChar(r, '-', ' ');
    FormatToKebab(t, r);
  }

  lemma AcronymKebab(r: string)
    requires r == "http-server-response"
    ensures IsKebab(r)
  {
  }

  /** A string with neither `_` nor `-` is left alone by the first two rewrites. */
  lemma NoSeparatorsSpaced(s: string)
    requires '_' !in s && '-' !in s
    ensures Spaced(s) == s
  {
    assert ReplaceChar(s, '_', ' ') == s;
  }

  /** Without two capitals in a row the acronym rewrite finds no match. */
  lemma NoAcronymsUnbroken(t: string)
    requires forall i :: 0 < i < |t| ==> !(IsUpper(t[i - 1]) && IsUpper(t[i]))
    ensures SplitAcronyms(t) == t
  {
    SplitAcronymsBreaks(t);
    Unbroken(Acronym, t, 0, |t|);
    assert t[0..|t|] == t;
  }

  /** Formatting gives the kebab-case string `r` whenever lower-casing gives
      `r` with its hyphens turned into spaces. */
  lemma FormatToKebab(t: string, r: string)
    requires IsKebab(r) && Lower(t) == ReplaceChar(r, '-', ' ')
    ensures Format(t) == r
  {
    KebabSpaced(r);
    FormatKebab(r);
    LowerNoUpper(ReplaceChar(r, '-', ' '));
  }
}
