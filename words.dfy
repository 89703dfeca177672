/**
 * Words of a string: `s.split(/K+/).filter(w => w.length > 0)` for a
 * character class K, together with `join` and the round trip between them.
 */
module Words {
  import opened Text

  /** A word: non-empty and free of the splitting class. */
  predicate IsWord(w: string, k: CharClass) {
    |w| > 0 && NoneIn(w, k)
  }

  predicate AllWords(ws: seq<string>, k: CharClass) {
    forall i :: 0 <= i < |ws| ==> IsWord(ws[i], k)
  }

  /** `ws.join('')` */
  function Concat(ws: seq<string>): string {
    if ws == [] then [] else ws[0] + Concat(ws[1..])
  }

  /** `ws.join(c)` */
  function JoinWith(ws: seq<string>, c: char): string {
    if ws == [] then []
    else if |ws| == 1 then ws[0]
    else ws[0] + [c] + JoinWith(ws[1..], c)
  }

  /** `s` with every class-`k` character deleted. */
  function Remove(s: string, k: CharClass): string {
    if s == [] then []
    else (if InClass(k, s[0]) then [] else [s[0]]) + Remove(s[1..], k)
  }

  lemma RemoveAppend(a: string, b: string, k: CharClass)
    ensures Remove(a + b, k) == Remove(a, k) + Remove(b, k)
  {
    if a == [] {
      assert a + b == b;
    } else {
      var h := if InClass(k, a[0]) then [] else [a[0]];
      assert (a + b)[0] == a[0] && (a + b)[1..] == a[1..] + b;
      RemoveAppend(a[1..], b, k);
      Associate(h, Remove(a[1..], k), Remove(b, k));
    }
  }

  /** Deleting the class leaves nothing exactly when everything is in the class. */
  lemma RemoveEmpty(s: string, k: CharClass)
    ensures Remove(s, k) == [] <==> AllIn(s, k)
  {
    if s != [] {
      RemoveEmpty(s[1..], k);
    }
  }

  lemma RemoveNone(s: string, k: CharClass)
    requires NoneIn(s, k)
    ensures Remove(s, k) == s
  {
    if s != [] {
      RemoveNone(s[1..], k);
    }
  }

  /** The pieces of `s` between maximal runs of class `k`, empty pieces
      dropped: every piece is a word, and together they are exactly the
      characters of `s` outside `k`, in order. */
  function Split(s: string, k: CharClass): (ws: seq<string>)
    ensures AllWords(ws, k)
    ensures Concat(ws) == Remove(s, k)
    decreases |s|
  {
    if s == [] then []
    else if InClass(k, s[0]) then
      assert Remove(s, k) == Remove(s[1..], k);
      Split(s[1..], k)
    else
      var n := RunLength(s, k, false);
      var w, rest := s[..n], s[n..];
      assert s == w + rest;
      RemoveAppend(w, rest, k);
      RemoveNone(w, k);
      [w] + Split(rest, k)
  }

  lemma ConcatEmpty(ws: seq<string>, k: CharClass)
    requires AllWords(ws, k)
    ensures Concat(ws) == [] <==> ws == []
  {
    if ws != [] {
      assert |Concat(ws)| >= |ws[0]| > 0;
    }
  }

  /** No words at all exactly when every character is in the splitting class. */
  lemma SplitEmpty(s: string, k: CharClass)
    ensures Split(s, k) == [] <==> AllIn(s, k)
  {
    RemoveEmpty(s, k);
    ConcatEmpty(Split(s, k), k);
  }

  /** A leading stretch of class characters does not change the words. */
  lemma {:induction false} SplitDropPrefix(p: string, s: string, k: CharClass)
    requires AllIn(p, k)
    ensures Split(p + s, k) == Split(s, k)
  {
    if p == [] {
      assert p + s == s;
    } else {
      assert (p + s)[1..] == p[1..] + s;
      SplitDropPrefix(p[1..], s, k);
    }
  }

  /** A trailing stretch of class characters does not change the words. */
  lemma {:induction false} SplitDropSuffix(s: string, q: string, k: CharClass)
    requires AllIn(q, k)
    ensures Split(s + q, k) == Split(s, k)
    decreases |s|
  {
    if s == [] {
      assert s + q == q;
      SplitEmpty(q, k);
    } else if InClass(k, s[0]) {
      assert (s + q)[1..] == s[1..] + q;
      SplitDropSuffix(s[1..], q, k);
    } else {
      var n := RunLength(s, k, false);
      RunLengthIs(s + q, k, false, n);
      assert (s + q)[..n] == s[..n];
      assert (s + q)[n..] == s[n..] + q;
      SplitDropSuffix(s[n..], q, k);
    }
  }

  /** Class characters around `s[a..b]` do not change its words. */
  lemma SplitAround(s: string, a: nat, b: nat, k: CharClass)
    requires a <= b <= |s|
    requires forall i :: 0 <= i < a ==> InClass(k, s[i])
    requires forall i :: b <= i < |s| ==> InClass(k, s[i])
    ensures Split(s[a..b], k) == Split(s, k)
  {
    var p, t, q := s[..a], s[a..b], s[b..];
    assert s[a..] == t + q;
    assert s == p + (t + q);
    assert AllIn(p, k);
    assert AllIn(q, k);
    SplitDropPrefix(p, t + q, k);
    SplitDropSuffix(t, q, k);
  }

  /** A non-empty stretch of class characters ends one word and starts the
      next: the words of `a + p + b` are those of `a` followed by those of
      `b`, so any run of separators counts as one. */
  lemma SplitSeparated(a: string, p: string, b: string, k: CharClass)
    requires p != [] && AllIn(p, k)
    ensures Split(a + p + b, k) == Split(a, k) + Split(b, k)
  {
    Associate(a, p, b);
    assert (p + b)[0] == p[0];
    SplitAtGap(a, p + b, k);
    SplitDropPrefix(p, b, k);
  }

  /** Text that starts at a separator splits on its own: the words of
      `a + r` are those of `a` followed by those of `r`. */
  lemma {:induction false} SplitAtGap(a: string, r: string, k: CharClass)
    requires r == [] || InClass(k, r[0])
    ensures Split(a + r, k) == Split(a, k) + Split(r, k)
    decreases |a|
  {
    if a == [] {
      assert a + r == r;
    } else if InClass(k, a[0]) {
      SplitSkipBefore(a, r, k);
      SplitAtGap(a[1..], r, k);
    } else {
      var n := SplitTakeBefore(a, r, k);
      SplitAtGap(a[n..], r, k);
      Associate([a[..n]], Split(a[n..], k), Split(r, k));
    }
  }

  /** A leading class character of `a` is skipped in `a + r` too. */
  lemma SplitSkipBefore(a: string, r: string, k: CharClass)
    requires a != [] && InClass(k, a[0])
    ensures Split(a, k) == Split(a[1..], k)
    ensures Split(a + r, k) == Split(a[1..] + r, k)
  {
    assert (a + r)[0] == a[0];
    assert (a + r)[1..] == a[1..] + r;
  }

  /** The first word of `a + rest`, when `rest` starts in the class, is the
      first word of `a`. */
  lemma SplitTakeBefore(a: string, rest: string, k: CharClass) returns (n: nat)
    requires a != [] && !InClass(k, a[0]) && (rest == [] || InClass(k, rest[0]))
    ensures 0 < n <= |a| && Split(a, k) == [a[..n]] + Split(a[n..], k)
    ensures Split(a + rest, k) == [a[..n]] + Split(a[n..] + rest, k)
  {
    n := SplitTake(a, k);
    var s := a + rest;
    RunLengthPrefix(a, rest, k);
    var _ := SplitTake(s, k);
    SliceAppend(a, rest, n);
  }

  lemma SliceAppend(a: string, rest: string, n: nat)
    requires n <= |a|
    ensures (a + rest)[..n] == a[..n] && (a + rest)[n..] == a[n..] + rest
  {
  }

  /** Text that starts in the class does not lengthen the first word. */
  lemma RunLengthPrefix(a: string, rest: string, k: CharClass)
    requires rest == [] || InClass(k, rest[0])
    ensures RunLength(a + rest, k, false) == RunLength(a, k, false)
  {
    var n := RunLength(a, k, false);
    var s := a + rest;
    assert forall i :: 0 <= i < n ==> s[i] == a[i];
    assert n < |s| ==> s[n] == (if n < |a| then a[n] else rest[0]);
    RunLengthIs(s, k, false, n);
  }

  /** Trimming before splitting on a class that holds all whitespace does
      not change the words. */
  lemma SplitTrim(s: string, k: CharClass)
    requires k == Whitespace || k == Separator
    ensures Split(Trim(s), k) == Split(s, k)
  {
    var a, b := TrimSlice(s);
    SplitAround(s, a, b, k);
  }

  /** The words are pieces of `s`: a class `s` avoids, they avoid too. */
  lemma {:induction false} SplitAvoids(s: string, k: CharClass, other: CharClass)
    requires NoneIn(s, other)
    ensures forall i :: 0 <= i < |Split(s, k)| ==> NoneIn(Split(s, k)[i], other)
    decreases |s|
  {
    if s != [] {
      var n := if InClass(k, s[0]) then 1 else RunLength(s, k, false);
      assert NoneIn(s[n..], other);
      SplitAvoids(s[n..], k, other);
    }
  }

  /** A single word splits into itself. */
  lemma SplitWord(w: string, k: CharClass)
    requires IsWord(w, k)
    ensures Split(w, k) == [w]
  {
    RunLengthIs(w, k, false, |w|);
    assert w[..|w|] == w;
  }

  /** Round trip: joining words with a character of the splitting class and
      splitting again gives the same words back. */
  lemma {:induction false} SplitJoin(ws: seq<string>, c: char, k: CharClass)
    requires AllWords(ws, k) && InClass(k, c)
    ensures Split(JoinWith(ws, c), k) == ws
  {
    if |ws| == 1 {
      SplitWord(ws[0], k);
    } else if |ws| > 1 {
      var w, rest := ws[0], JoinWith(ws[1..], c);
      var s := w + [c] + rest;
      assert s == w + ([c] + rest);
      RunLengthIs(s, k, false, |w|);
      assert s[..|w|] == w;
      assert s[|w|..] == [c] + rest;
      assert ([c] + rest)[1..] == rest;
      SplitJoin(ws[1..], c, k);
    }
  }

  /** Each character of the joined string is a joining character or a
      character of one of the words. */
  lemma {:induction false} JoinWithChars(ws: seq<string>, c: char)
    ensures forall x :: x in JoinWith(ws, c) ==> x == c || x in Concat(ws)
  {
    if |ws| > 1 {
      JoinWithChars(ws[1..], c);
    }
  }

  /** Joining non-empty words with a character changes neither the first
      nor the last character of their concatenation. */
  lemma {:induction false} JoinConcatEnds(ws: seq<string>, c: char)
    requires |ws| > 0 && forall i :: 0 <= i < |ws| ==> |ws[i]| > 0
    ensures var j, s := JoinWith(ws, c), Concat(ws);
      j != [] && s != [] && j[0] == s[0] && j[|j| - 1] == s[|s| - 1]
  {
    if |ws| == 1 {
      assert Concat(ws) == ws[0] + [];
    } else {
      JoinConcatEnds(ws[1..], c);
    }
  }

  lemma {:induction false} NoneInConcat(ws: seq<string>, k: CharClass)
    requires AllWords(ws, k)
    ensures NoneIn(Concat(ws), k)
  {
    if ws != [] {
      NoneInConcat(ws[1..], k);
    }
  }

  /** `ws.map(w => w.toLowerCase())` */
  function LowerAll(ws: seq<string>): (r: seq<string>)
    ensures |r| == |ws| && forall i :: 0 <= i < |ws| ==> r[i] == Lower(ws[i])
  {
    seq(|ws|, i requires 0 <= i < |ws| => Lower(ws[i]))
  }

  /** Lower-casing every word and then concatenating is lower-casing the
      concatenation. */
  lemma {:induction false} ConcatLowerAll(ws: seq<string>)
    ensures Concat(LowerAll(ws)) == Lower(Concat(ws))
  {
    if ws != [] {
      assert LowerAll(ws)[1..] == LowerAll(ws[1..]);
      ConcatLowerAll(ws[1..]);
      LowerAppend(ws[0], Concat(ws[1..]));
    }
  }

  /** Lower-casing commutes with splitting on any class but `[A-Z]`. */
  lemma {:induction false} SplitLower(s: string, k: CharClass)
    requires k != Uppercase
    ensures Split(Lower(s), k) == LowerAll(Split(s, k))
    decreases |s|
  {
    if s != [] {
      LowerInClass(s[0], k);
      var l := Lower(s);
      if InClass(k, s[0]) {
        assert l[1..] == Lower(s[1..]);
        SplitLower(s[1..], k);
      } else {
        var n := SplitLowerTake(s, k);
        SplitLower(s[n..], k);
        LowerAllCons(s[..n], Split(s[n..], k));
      }
    }
  }

  /** The first word of the lower-cased string is the lower-cased first word. */
  lemma SplitLowerTake(s: string, k: CharClass) returns (n: nat)
    requires k != Uppercase && s != [] && !InClass(k, s[0])
    ensures 0 < n <= |s| && Split(s, k) == [s[..n]] + Split(s[n..], k)
    ensures Split(Lower(s), k) == [Lower(s[..n])] + Split(Lower(s[n..]), k)
  {
    var l := Lower(s);
    n := SplitTake(s, k);
    LowerRunLength(s, k);
    LowerInClass(s[0], k);
    var m := SplitTake(l, k);
    assert l[..n] == Lower(s[..n]) && l[n..] == Lower(s[n..]);
  }

  /** A string that starts outside the class splits into its first word
      and the words of the rest. */
  lemma SplitTake(s: string, k: CharClass) returns (n: nat)
    requires s != [] && !InClass(k, s[0])
    ensures n == RunLength(s, k, false) && 0 < n <= |s|
    ensures Split(s, k) == [s[..n]] + Split(s[n..], k)
  {
    n := RunLength(s, k, false);
  }

  lemma {:induction false} LowerRunLength(s: string, k: CharClass)
    requires k != Uppercase
    ensures RunLength(Lower(s), k, false) == RunLength(s, k, false)
  {
    if s != [] {
      LowerInClass(s[0], k);
      assert Lower(s)[1..] == Lower(s[1..]);
      LowerRunLength(s[1..], k);
    }
  }

  lemma LowerAllCons(w: string, ws: seq<string>)
    ensures LowerAll([w] + ws) == [Lower(w)] + LowerAll(ws)
  {
  }

  /** Without the class at either end, `replace(/K+/g, sub)` is splitting on
      the class and joining the words with `sub`. */
  lemma {:induction false} ReplaceRunsJoin(s: string, k: CharClass, sub: char)
    requires s == [] || (!InClass(k, s[0]) && !InClass(k, s[|s| - 1]))
    ensures ReplaceRuns(s, k, sub) == JoinWith(Split(s, k), sub)
    decreases |s|
  {
    if s != [] {
      var n := SplitTake(s, k);
      var w, t := s[..n], s[n..];
      assert s == w + t;
      ReplaceRunsWord(w, t, k, sub);
      if t == [] {
        assert Split(s, k) == [w];
      } else {
        var u := ReplaceRunsGap(t, k, sub);
        ReplaceRunsJoin(u, k, sub);
        JoinWithCons(w, Split(u, k), sub);
        Associate(w, [sub], ReplaceRuns(u, k, sub));
      }
    }
  }

  /** A run of the class followed by more text: the run becomes `sub` and
      adds no word. */
  lemma ReplaceRunsGap(t: string, k: CharClass, sub: char) returns (u: string)
    requires t != [] && InClass(k, t[0]) && !InClass(k, t[|t| - 1])
    ensures |u| < |t| && u != [] && !InClass(k, u[0]) && u[|u| - 1] == t[|t| - 1]
    ensures ReplaceRuns(t, k, sub) == [sub] + ReplaceRuns(u, k, sub)
    ensures Split(t, k) == Split(u, k) && Split(u, k) != []
  {
    var m := RunLength(t, k, true);
    u := t[m..];
    assert t == t[..m] + u;
    SplitDropPrefix(t[..m], u, k);
    var _ := SplitTake(u, k);
  }

  lemma JoinWithCons(w: string, ws: seq<string>, c: char)
    requires ws != []
    ensures JoinWith([w] + ws, c) == w + [c] + JoinWith(ws, c)
  {
    assert ([w] + ws)[1..] == ws;
  }

  /** Joining words with a character of their splitting class never puts
      that character twice in a row, and the result starts with a word
      character. */
  lemma {:induction false} JoinWithNoRepeat(ws: seq<string>, c: char, k: CharClass)
    requires AllWords(ws, k) && InClass(k, c)
    ensures NoRepeat(JoinWith(ws, c), c)
    ensures ws != [] ==> JoinWith(ws, c) != [] && !InClass(k, JoinWith(ws, c)[0])
  {
    if ws != [] {
      var w := ws[0];
      assert NoRepeat(w, c) by {
        forall i | 0 <= i < |w| ensures w[i] != c {
        }
      }
      if |ws| > 1 {
        var rest := JoinWith(ws[1..], c);
        JoinWithNoRepeat(ws[1..], c, k);
        NoRepeatCons(c, rest, c);
        NoRepeatAppend(w, [c] + rest, c);
        assert JoinWith(ws, c) == w + ([c] + rest);
      }
    }
  }

  /** Two strings that agree on where the class characters are, and agree
      everywhere else, lose the same characters to `Remove`. */
  lemma {:induction false} RemoveMatch(x: string, kx: CharClass, y: string, ky: CharClass)
    requires |x| == |y|
    requires forall i :: 0 <= i < |x| ==> InClass(kx, x[i]) == InClass(ky, y[i])
    requires forall i :: 0 <= i < |x| && !InClass(kx, x[i]) ==> x[i] == y[i]
    ensures Remove(x, kx) == Remove(y, ky)
  {
    if x != [] {
      RemoveMatch(x[1..], kx, y[1..], ky);
    }
  }
}
