/**
 * Characters and the JavaScript string built-ins that the case converters
 * lean on: the `\s` whitespace class, `String.prototype.trim`, `toLowerCase`
 * and `toUpperCase`, a global one-character `replace`, and a global
 * `replace(/X+/g, c)` that turns every maximal run of a class into one
 * character. Case mapping is ASCII only, and whitespace is a fixed ASCII set.
 */
module Text {

  /** A JavaScript value handed to a converter: a string, or anything else. */
  datatype Input = Str(s: string) | NonString

  /** The whitespace matched by `\s` and removed by `trim`, restricted to
      space, tab, line feed, carriage return, vertical tab and form feed. */
  predicate IsWhitespace(c: char) {
    c == ' ' || c == '\t' || c == '\n' || c == '\r' || c == '\U{B}' || c == '\U{C}'
  }

  /** `[A-Z]` */
  predicate IsUpper(c: char) {
    'A' <= c <= 'Z'
  }

  /** `[a-z]` */
  predicate IsLower(c: char) {
    'a' <= c <= 'z'
  }

  /** The character class `[\s_-]` that splits words. */
  predicate IsSeparator(c: char) {
    IsWhitespace(c) || c == '_' || c == '-'
  }

  /** `c.toLowerCase()` on ASCII. */
  function LowerChar(c: char): (d: char)
    ensures !IsUpper(d)
    ensures IsUpper(c) ==> IsLower(d) && d as int == c as int + 32
    ensures !IsUpper(c) ==> d == c
  {
    if IsUpper(c) then (c as int + 32) as char else c
  }

  /** `c.toUpperCase()` on ASCII. */
  function UpperChar(c: char): (d: char)
    ensures !IsLower(d)
    ensures IsLower(c) ==> IsUpper(d) && d as int == c as int - 32
    ensures !IsLower(c) ==> d == c
  {
    if IsLower(c) then (c as int - 32) as char else c
  }

  /** Case mapping never moves a character into or out of `[\s_-]`, and
      lowering forgets whether a letter was upper-cased first. */
  lemma CaseMapping(c: char)
    ensures IsSeparator(LowerChar(c)) == IsSeparator(c)
    ensures IsSeparator(UpperChar(c)) == IsSeparator(c)
    ensures IsWhitespace(LowerChar(c)) == IsWhitespace(c)
    ensures LowerChar(LowerChar(c)) == LowerChar(c)
    ensures LowerChar(UpperChar(c)) == LowerChar(c)
  {
  }

  /** Lower-casing keeps a character in or out of every class but `[A-Z]`. */
  lemma LowerInClass(c: char, k: CharClass)
    requires k != Uppercase
    ensures InClass(k, LowerChar(c)) == InClass(k, c)
  {
  }

  /** `s.toLowerCase()` on ASCII. */
  function Lower(s: string): (r: string)
    ensures |r| == |s|
    ensures forall i :: 0 <= i < |s| ==> r[i] == LowerChar(s[i])
  {
    seq(|s|, i requires 0 <= i < |s| => LowerChar(s[i]))
  }

  lemma LowerAppend(a: string, b: string)
    ensures Lower(a + b) == Lower(a) + Lower(b)
  {
  }

  /** Lower-casing a string without separators leaves neither a separator
      nor an upper-case letter. */
  lemma LowerClean(s: string)
    requires NoneIn(s, Separator)
    ensures NoneIn(Lower(s), Separator) && NoneIn(Lower(s), Uppercase)
  {
    forall i | 0 <= i < |s| ensures !IsSeparator(Lower(s)[i]) {
      CaseMapping(s[i]);
    }
  }

  /** Lower-casing is the identity on a string without `[A-Z]`. */
  lemma LowerNoUpper(s: string)
    requires NoneIn(s, Uppercase)
    ensures Lower(s) == s
  {
  }

  /** The character classes that the converters' regular expressions test. */
  datatype CharClass = Whitespace | Hyphen | Uppercase | Separator | Dot

  predicate InClass(k: CharClass, c: char) {
    match k
    case Whitespace => IsWhitespace(c)
    case Hyphen => c == '-'
    case Uppercase => IsUpper(c)
    case Separator => IsSeparator(c)
    case Dot => c == '.'
  }

  predicate AllIn(s: string, k: CharClass) {
    forall i :: 0 <= i < |s| ==> InClass(k, s[i])
  }

  predicate NoneIn(s: string, k: CharClass) {
    forall i :: 0 <= i < |s| ==> !InClass(k, s[i])
  }

  /** No two neighbouring characters both belong to `k`. */
  predicate NoAdjacent(s: string, k: CharClass) {
    forall i :: 0 < i < |s| ==> !(InClass(k, s[i - 1]) && InClass(k, s[i]))
  }

  /** The length of the longest prefix of `s` whose characters are in `k`
      (when `inside`) or outside `k` (otherwise): what a greedy `X+` consumes. */
  function RunLength(s: string, k: CharClass, inside: bool): (n: nat)
    ensures n <= |s|
    ensures forall i :: 0 <= i < n ==> InClass(k, s[i]) == inside
    ensures n == |s| || InClass(k, s[n]) != inside
  {
    if s == [] || InClass(k, s[0]) != inside then 0 else 1 + RunLength(s[1..], k, inside)
  }

  /** The longest such prefix is unique. */
  lemma RunLengthIs(s: string, k: CharClass, inside: bool, m: nat)
    requires m <= |s|
    requires forall i :: 0 <= i < m ==> InClass(k, s[i]) == inside
    requires m == |s| || InClass(k, s[m]) != inside
    ensures RunLength(s, k, inside) == m
  {
  }

  /** Regrouping a concatenation of three sequences. */
  lemma Associate<T>(a: seq<T>, b: seq<T>, c: seq<T>)
    ensures a + (b + c) == (a + b) + c
  {
  }

  /** `s.trimStart()`: drops the longest whitespace prefix. */
  function TrimStart(s: string): (r: string)
    ensures |r| <= |s| && r == s[|s| - |r|..]
    ensures forall i :: 0 <= i < |s| - |r| ==> IsWhitespace(s[i])
    ensures r == [] || !IsWhitespace(r[0])
  {
    if s != [] && IsWhitespace(s[0]) then TrimStart(s[1..]) else s
  }

  /** `s.trimEnd()`: drops the longest whitespace suffix. */
  function TrimEnd(s: string): (r: string)
    ensures |r| <= |s| && r == s[..|r|]
    ensures forall i :: |r| <= i < |s| ==> IsWhitespace(s[i])
    ensures r == [] || !IsWhitespace(r[|r| - 1])
  {
    if s != [] && IsWhitespace(s[|s| - 1]) then TrimEnd(s[..|s| - 1]) else s
  }

  /** `s.trim()`: neither end is whitespace, and nothing is left exactly
      when the string is all whitespace. */
  function Trim(s: string): (r: string)
    ensures r == [] || (!IsWhitespace(r[0]) && !IsWhitespace(r[|r| - 1]))
    ensures r == [] <==> AllIn(s, Whitespace)
  {
    var t := TrimStart(s);
    assert TrimEnd(t) != [] ==> TrimEnd(t)[0] == t[0];
    TrimEnd(t)
  }

  /** `trim` keeps a middle slice of `s` that neither starts nor ends with
      whitespace and drops only whitespace around it. */
  lemma TrimSlice(s: string) returns (a: nat, b: nat)
    ensures a <= b <= |s| && Trim(s) == s[a..b]
    ensures forall i :: 0 <= i < a ==> IsWhitespace(s[i])
    ensures forall i :: b <= i < |s| ==> IsWhitespace(s[i])
  {
    var t := TrimStart(s);
    a := |s| - |t|;
    b := a + |TrimEnd(t)|;
    DropThenTake(s, a, t, |TrimEnd(t)|);
  }

  /** Taking the first `n` characters of `s[a..]` leaves `s[a..a + n]`, and
      whitespace after them in `s[a..]` is whitespace after `a + n` in `s`. */
  lemma DropThenTake(s: string, a: nat, t: string, n: nat)
    requires a <= |s| && t == s[a..] && n <= |t|
    ensures t[..n] == s[a..a + n]
    ensures (forall i :: n <= i < |t| ==> IsWhitespace(t[i])) ==>
              forall i :: a + n <= i < |s| ==> IsWhitespace(s[i])
  {
    if forall i :: n <= i < |t| ==> IsWhitespace(t[i]) {
      forall i | a + n <= i < |s| ensures IsWhitespace(s[i]) {
        assert s[i] == t[i - a];
      }
    }
  }

  /** Every non-whitespace character survives `trim`, and `trim` adds nothing. */
  lemma TrimKeeps(s: string)
    ensures forall c :: c in Trim(s) ==> c in s
    ensures forall c :: c in s && !IsWhitespace(c) ==> c in Trim(s)
  {
    var a, b := TrimSlice(s);
    SliceKeeps(s, a, b);
    SliceCovers(s, a, b);
  }

  lemma SliceKeeps(s: string, a: nat, b: nat)
    requires a <= b <= |s|
    ensures forall c :: c in s[a..b] ==> c in s
  {
    forall c | c in s[a..b] ensures c in s {
      var j :| 0 <= j < b - a && s[a..b][j] == c;
      assert s[a + j] == c;
    }
  }

  lemma SliceCovers(s: string, a: nat, b: nat)
    requires a <= b <= |s|
    requires forall i :: 0 <= i < a ==> IsWhitespace(s[i])
    requires forall i :: b <= i < |s| ==> IsWhitespace(s[i])
    ensures forall c :: c in s && !IsWhitespace(c) ==> c in s[a..b]
  {
    forall c | c in s && !IsWhitespace(c) ensures c in s[a..b] {
      var i :| 0 <= i < |s| && s[i] == c;
      assert s[a..b][i - a] == c;
    }
  }

  /** `trim` leaves alone a string whose ends are not whitespace. */
  lemma TrimUntouched(s: string)
    requires s == [] || (!IsWhitespace(s[0]) && !IsWhitespace(s[|s| - 1]))
    ensures Trim(s) == s
  {
    assert TrimStart(s) == s;
  }

  /** `s.replace(/x/g, y)` for a single character `x`. */
  function ReplaceChar(s: string, x: char, y: char): (r: string)
    ensures |r| == |s|
    ensures forall i :: 0 <= i < |s| ==> r[i] == (if s[i] == x then y else s[i])
  {
    seq(|s|, i requires 0 <= i < |s| => if s[i] == x then y else s[i])
  }

  /** `s.replace(/K+/g, sub)`: every maximal run of class-`k` characters,
      scanned left to right, becomes the single character `sub`. */
  function ReplaceRuns(s: string, k: CharClass, sub: char): (r: string)
    ensures r == [] <==> s == []
    ensures s != [] ==> r[0] == (if InClass(k, s[0]) then sub else s[0])
    ensures s != [] && !InClass(k, s[|s| - 1]) ==> r[|r| - 1] == s[|s| - 1]
    decreases |s|
  {
    if s == [] then []
    else if InClass(k, s[0]) then [sub] + ReplaceRuns(s[RunLength(s, k, true)..], k, sub)
    else [s[0]] + ReplaceRuns(s[1..], k, sub)
  }

  /** A stretch outside the class is copied as it is. */
  lemma {:induction false} ReplaceRunsWord(w: string, t: string, k: CharClass, sub: char)
    requires NoneIn(w, k)
    ensures ReplaceRuns(w + t, k, sub) == w + ReplaceRuns(t, k, sub)
    decreases |w|
  {
    if w == [] {
      assert w + t == t;
    } else {
      assert (w + t)[1..] == w[1..] + t;
      ReplaceRunsWord(w[1..], t, k, sub);
      Associate([w[0]], w[1..], ReplaceRuns(t, k, sub));
      assert [w[0]] + w[1..] == w;
    }
  }

  /** The rewrite writes only `sub` and characters of `s` outside `k`, and
      loses no character outside `k`. */
  lemma {:induction false} ReplaceRunsChars(s: string, k: CharClass, sub: char)
    ensures forall c :: c in ReplaceRuns(s, k, sub) ==> c == sub || (c in s && !InClass(k, c))
    ensures forall c :: c in s && !InClass(k, c) ==> c in ReplaceRuns(s, k, sub)
    decreases |s|
  {
    if s != [] {
      var n := if InClass(k, s[0]) then RunLength(s, k, true) else 1;
      var t := s[n..];
      ReplaceRunsChars(t, k, sub);
      assert s == s[..n] + t;
      assert ReplaceRuns(s, k, sub) == [if n == 1 && !InClass(k, s[0]) then s[0] else sub] + ReplaceRuns(t, k, sub);
    }
  }

  /** When `sub` is not in `s` outside runs of `k`, the output never holds
      `sub` twice in a row: a replaced run is followed by a character outside `k`. */
  lemma {:induction false} ReplaceRunsNoRepeat(s: string, k: CharClass, sub: char)
    requires sub !in s || InClass(k, sub)
    ensures NoRepeat(ReplaceRuns(s, k, sub), sub)
    decreases |s|
  {
    if s != [] {
      var n := if InClass(k, s[0]) then RunLength(s, k, true) else 1;
      var t := s[n..];
      assert sub in t ==> sub in s;
      ReplaceRunsNoRepeat(t, k, sub);
      var r, r' := ReplaceRuns(s, k, sub), ReplaceRuns(t, k, sub);
      assert r == [r[0]] + r';
      assert t != [] ==> t[0] in s;
      NoRepeatCons(r[0], r', sub);
    }
  }

  /** Putting `x` in front keeps `c` unrepeated unless both `x` and the old
      first character are `c`. */
  lemma NoRepeatCons(x: char, r: string, c: char)
    requires NoRepeat(r, c) && (r != [] && x == c ==> r[0] != c)
    ensures NoRepeat([x] + r, c)
  {
    var xr := [x] + r;
    forall i | 1 < i < |xr|
      ensures !(xr[i - 1] == c && xr[i] == c)
    {
      assert xr[i - 1] == r[i - 2] && xr[i] == r[i - 1];
    }
  }

  /** No two neighbouring characters are both `c`. */
  predicate NoRepeat(s: string, c: char) {
    forall i :: 0 < i < |s| ==> !(s[i - 1] == c && s[i] == c)
  }

  /** Gluing two strings repeats `c` only where the first ends and the
      second starts with it. */
  lemma NoRepeatAppend(a: string, b: string, c: char)
    requires NoRepeat(a, c) && NoRepeat(b, c)
    requires a == [] || b == [] || a[|a| - 1] != c || b[0] != c
    ensures NoRepeat(a + b, c)
  {
    var ab := a + b;
    forall i | 0 < i < |ab|
      ensures !(ab[i - 1] == c && ab[i] == c)
    {
      if i < |a| {
        assert ab[i - 1] == a[i - 1] && ab[i] == a[i];
      } else if i > |a| {
        assert ab[i - 1] == b[i - 1 - |a|] && ab[i] == b[i - |a|];
      }
    }
  }

  /** When no two class-`k` characters touch, every run has length one and
      the rewrite is a character-by-character substitution. */
  lemma {:induction false} ReplaceRunsOfOne(s: string, k: CharClass, sub: char)
    requires NoAdjacent(s, k)
    ensures |ReplaceRuns(s, k, sub)| == |s|
    ensures forall i :: 0 <= i < |s| ==>
              ReplaceRuns(s, k, sub)[i] == (if InClass(k, s[i]) then sub else s[i])
    decreases |s|
  {
    if s != [] {
      var t := s[1..];
      NoAdjacentTail(s, k);
      ReplaceRunsOfOne(t, k, sub);
      ReplaceRunsStep(s, k, sub);
      var r, r' := ReplaceRuns(s, k, sub), ReplaceRuns(t, k, sub);
      forall i | 0 < i < |s|
        ensures r[i] == (if InClass(k, s[i]) then sub else s[i])
      {
        assert r[i] == r'[i - 1] && s[i] == t[i - 1];
      }
    }
  }

  lemma NoAdjacentTail(s: string, k: CharClass)
    requires s != [] && NoAdjacent(s, k)
    ensures NoAdjacent(s[1..], k)
  {
    var t := s[1..];
    forall i | 0 < i < |t| ensures !(InClass(k, t[i - 1]) && InClass(k, t[i])) {
      assert t[i - 1] == s[i] && t[i] == s[i + 1];
    }
  }

  /** Without touching class characters, the first character is rewritten
      on its own. */
  lemma ReplaceRunsStep(s: string, k: CharClass, sub: char)
    requires s != [] && NoAdjacent(s, k)
    ensures ReplaceRuns(s, k, sub) == [if InClass(k, s[0]) then sub else s[0]] + ReplaceRuns(s[1..], k, sub)
  {
    if InClass(k, s[0]) {
      RunLengthIs(s, k, true, 1);
    }
  }
}
