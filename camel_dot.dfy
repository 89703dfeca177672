/**
 * `toCamelCase` and `toDotCase` (refined_prompt.js). Both reject a
 * non-string, then an empty string, then a string with no words, each with
 * its own TypeError; otherwise they trim the string, split it on runs of
 * `[\s_-]`, and render the words. Neither splits at camelCase boundaries.
 */
module CamelDot {
  import opened Text
  import opened Words

  /** The three TypeErrors, in the order they are checked. */
  datatype Err = NotAString | EmptyString | OnlySeparators

  datatype Result<T> = Ok(value: T) | Fail(err: Err)

  /** The message each TypeError carries. */
  function Message(e: Err): string {
    match e
    case NotAString => "Input must be a string"
    case EmptyString => "Input cannot be an empty string"
    case OnlySeparators => "Input cannot contain only separators"
  }

  /** The guards and the `trim`/`split`/`filter` steps that both converters
      run before rendering. */
  function ValidWords(input: Input): (r: Result<seq<string>>)
    ensures r == Fail(NotAString) <==> input.NonString?
    ensures r == Fail(EmptyString) <==> input == Str([])
    ensures r == Fail(OnlySeparators) <==> input.Str? && input.s != [] && AllIn(input.s, Separator)
    ensures r.Ok? ==> input.Str? && r.value != [] && AllWords(r.value, Separator)
    ensures r.Ok? ==> Concat(r.value) == Remove(input.s, Separator)
    ensures r.Ok? ==> r.value == Split(input.s, Separator)
  {
    match input
    case NonString => Fail(NotAString)
    case Str(s) =>
      if |s| == 0 then Fail(EmptyString)
      else
        var words := Split(Trim(s), Separator);
        SplitTrim(s, Separator);
        SplitEmpty(s, Separator);
        if |words| == 0 then Fail(OnlySeparators) else Ok(words)
  }

  /** `w.charAt(0).toUpperCase() + w.slice(1).toLowerCase()` */
  function Capitalize(w: string): (r: string)
    ensures |r| == |w|
  {
    if w == [] then [] else [UpperChar(w[0])] + Lower(w[1..])
  }

  /** The capitalised words concatenated. */
  function CapitalizeAll(ws: seq<string>): (r: string)
    ensures |r| == |Concat(ws)|
  {
    if ws == [] then [] else Capitalize(ws[0]) + CapitalizeAll(ws[1..])
  }

  /** The first word lower-cased, every later word capitalised, joined with ''. */
  function CamelJoin(ws: seq<string>): (r: string)
    ensures |r| == |Concat(ws)|
  {
    if ws == [] then [] else Lower(ws[0]) + CapitalizeAll(ws[1..])
  }

  /** Position `i` of `Concat(ws)` is where one of the words begins. */
  predicate StartsWord(ws: seq<string>, i: nat)
    decreases |ws|
  {
    ws != [] && (i == 0 || (i >= |ws[0]| && StartsWord(ws[1..], i - |ws[0]|)))
  }

  /** Position `i` of `Concat(ws)` is where a word other than the first begins. */
  predicate LaterWordStart(ws: seq<string>, i: nat) {
    ws != [] && i >= |ws[0]| && StartsWord(ws[1..], i - |ws[0]|)
  }

  lemma {:induction false} CapitalizeAllAt(ws: seq<string>, i: nat)
    requires i < |Concat(ws)|
    ensures CapitalizeAll(ws)[i] ==
              if StartsWord(ws, i) then UpperChar(Concat(ws)[i]) else LowerChar(Concat(ws)[i])
  {
    var w, rest := ws[0], ws[1..];
    ConcatAt(ws, i);
    if i < |w| {
      CapitalizeAt(w, i);
      assert CapitalizeAll(ws)[i] == Capitalize(w)[i];
    } else {
      var j := i - |w|;
      assert CapitalizeAll(ws)[i] == CapitalizeAll(rest)[j];
      CapitalizeAllAt(rest, j);
      assert StartsWord(ws, i) == StartsWord(rest, j);
    }
  }

  /** Position `i` of the concatenation lies in the first word or, shifted,
      in the concatenation of the rest. */
  lemma ConcatAt(ws: seq<string>, i: nat)
    requires i < |Concat(ws)|
    ensures ws != [] && Concat(ws) == ws[0] + Concat(ws[1..])
    ensures Concat(ws)[i] == if i < |ws[0]| then ws[0][i] else Concat(ws[1..])[i - |ws[0]|]
  {
  }

  lemma CapitalizeAt(w: string, i: nat)
    requires i < |w|
    ensures Capitalize(w)[i] == if i == 0 then UpperChar(w[0]) else LowerChar(w[i])
  {
    assert Capitalize(w) == [UpperChar(w[0])] + Lower(w[1..]);
    if i > 0 {
      assert Capitalize(w)[i] == Lower(w[1..])[i - 1];
    }
  }

  /** The camelCase rendering, character by character: the characters of the
      words in order, upper-cased exactly where a later word begins and
      lower-cased everywhere else. */
  lemma CamelJoinAt(ws: seq<string>, i: nat)
    requires i < |Concat(ws)|
    ensures CamelJoin(ws)[i] ==
              if LaterWordStart(ws, i) then UpperChar(Concat(ws)[i]) else LowerChar(Concat(ws)[i])
  {
    var w, rest := ws[0], ws[1..];
    ConcatAt(ws, i);
    if i < |w| {
      assert CamelJoin(ws)[i] == Lower(w)[i];
    } else {
      var j := i - |w|;
      assert CamelJoin(ws)[i] == CapitalizeAll(rest)[j];
      CapitalizeAllAt(rest, j);
    }
  }

  /** Lower-casing the camelCase rendering gives the lower-cased words. */
  lemma CamelJoinLower(ws: seq<string>)
    ensures Lower(CamelJoin(ws)) == Lower(Concat(ws))
  {
    var r, c := CamelJoin(ws), Concat(ws);
    forall i | 0 <= i < |c|
      ensures Lower(r)[i] == Lower(c)[i]
    {
      CamelJoinAt(ws, i);
      CaseMapping(c[i]);
    }
  }

  /** `toCamelCase(input)` */
  function ToCamelCase(input: Input): (r: Result<string>)
    ensures r == Fail(NotAString) <==> input.NonString?
    ensures r == Fail(EmptyString) <==> input == Str([])
    ensures r == Fail(OnlySeparators) <==> input.Str? && input.s != [] && AllIn(input.s, Separator)
    ensures r.Ok? ==> input.Str? && r.value != [] && NoneIn(r.value, Separator)
    ensures r.Ok? ==> Lower(r.value) == Lower(Remove(input.s, Separator))
  {
    match ValidWords(input)
    case Fail(e) => Fail(e)
    case Ok(ws) =>
      var r := CamelJoin(ws);
      CamelJoinLower(ws);
      ConcatEmpty(ws, Separator);
      NoneInConcat(ws, Separator);
      forall i | 0 <= i < |r| ensures !IsSeparator(r[i]) {
        CamelJoinAt(ws, i);
        CaseMapping(Concat(ws)[i]);
      }
      Ok(r)
  }

  /** The camelCase output is the input with its separators deleted, each
      character lower-cased except the first of every word after the first,
      which is upper-cased. */
  lemma CamelCharacters(s: string)
    requires ToCamelCase(Str(s)).Ok?
    ensures |ToCamelCase(Str(s)).value| == |Remove(s, Separator)|
    ensures forall i :: 0 <= i < |Remove(s, Separator)| ==>
              ToCamelCase(Str(s)).value[i] ==
                if LaterWordStart(Split(s, Separator), i) then UpperChar(Remove(s, Separator)[i])
                else LowerChar(Remove(s, Separator)[i])
  {
    var ws := Split(s, Separator);
    assert ValidWords(Str(s)) == Ok(ws);
    CamelJoinChars(ws);
  }

  lemma CamelJoinChars(ws: seq<string>)
    ensures forall i :: 0 <= i < |Concat(ws)| ==>
              CamelJoin(ws)[i] ==
                if LaterWordStart(ws, i) then UpperChar(Concat(ws)[i]) else LowerChar(Concat(ws)[i])
  {
    forall i | 0 <= i < |Concat(ws)|
      ensures CamelJoin(ws)[i] ==
                if LaterWordStart(ws, i) then UpperChar(Concat(ws)[i]) else LowerChar(Concat(ws)[i])
    {
      CamelJoinAt(ws, i);
    }
  }

  /** Running `toCamelCase` again on its own output only lower-cases it (the
      output has no separator, so it is one word), and `toDotCase` on it gives
      the input's non-separator characters lower-cased, with no dot. */
  lemma CamelReconverted(input: Input)
    requires ToCamelCase(input).Ok?
    ensures ToCamelCase(Str(ToCamelCase(input).value)) == Ok(Lower(ToCamelCase(input).value))
    ensures ToDotCase(Str(ToCamelCase(input).value)) == Ok(Lower(Remove(input.s, Separator)))
  {
    var r := ToCamelCase(input).value;
    assert IsWord(r, Separator);
    OneWord(r);
  }

  /** How a string that passes the guards is rendered, in terms of its words. */
  lemma Converts(s: string, ws: seq<string>)
    requires s != [] && ws != [] && Split(Trim(s), Separator) == ws
    ensures ValidWords(Str(s)) == Ok(ws)
    ensures ToCamelCase(Str(s)) == Ok(CamelJoin(ws))
    ensures ToDotCase(Str(s)) == Ok(JoinWith(LowerAll(ws), '.'))
  {
  }

  /** A non-empty string without separators is one word: both converters
      only lower-case it. */
  lemma OneWord(w: string)
    requires IsWord(w, Separator)
    ensures ToCamelCase(Str(w)) == Ok(Lower(w))
    ensures ToDotCase(Str(w)) == Ok(Lower(w))
  {
    SplitTrim(w, Separator);
    SplitWord(w, Separator);
    var ws := [w];
    Converts(w, ws);
    assert ws[1..] == [];
    assert CapitalizeAll(ws[1..]) == [];
    assert CamelJoin(ws) == Lower(w);
    assert JoinWith(LowerAll(ws), '.') == Lower(w);
  }

  /** The dot.case rendering of separator-free words: no separator, no
      upper-case letter, and it begins and ends with a character of the words
      (never with a joining dot). */
  lemma DotJoinShape(ws: seq<string>)
    requires ws != [] && AllWords(ws, Separator)
    ensures var r, c := JoinWith(LowerAll(ws), '.'), Concat(ws);
      r != [] && NoneIn(r, Separator) && NoneIn(r, Uppercase)
      && r[0] == LowerChar(c[0]) && r[|r| - 1] == LowerChar(c[|c| - 1])
  {
    DotJoinClean(ws);
    assert forall i :: 0 <= i < |ws| ==> |ws[i]| > 0 by {
      forall i | 0 <= i < |ws| ensures |ws[i]| > 0 {
        assert IsWord(ws[i], Separator);
      }
    }
    DotJoinEnds(ws);
  }

  lemma DotJoinClean(ws: seq<string>)
    requires AllWords(ws, Separator)
    ensures NoneIn(JoinWith(LowerAll(ws), '.'), Separator)
    ensures NoneIn(JoinWith(LowerAll(ws), '.'), Uppercase)
  {
    var lw := LowerAll(ws);
    var r, c := JoinWith(lw, '.'), Concat(ws);
    JoinWithChars(lw, '.');
    ConcatLowerAll(ws);
    NoneInConcat(ws, Separator);
    LowerClean(c);
    forall i | 0 <= i < |r|
      ensures !IsSeparator(r[i]) && !IsUpper(r[i])
    {
      assert r[i] in r;
      if r[i] != '.' {
        var j :| 0 <= j < |Lower(c)| && Lower(c)[j] == r[i];
      }
    }
  }

  lemma DotJoinEnds(ws: seq<string>)
    requires ws != [] && forall i :: 0 <= i < |ws| ==> |ws[i]| > 0
    ensures var r, c := JoinWith(LowerAll(ws), '.'), Concat(ws);
      r != [] && c != [] && r[0] == LowerChar(c[0]) && r[|r| - 1] == LowerChar(c[|c| - 1])
  {
    var lw := LowerAll(ws);
    JoinConcatEnds(lw, '.');
    ConcatLowerAll(ws);
  }

  /** `toDotCase(input)` */
  function ToDotCase(input: Input): (r: Result<string>)
    ensures r == Fail(NotAString) <==> input.NonString?
    ensures r == Fail(EmptyString) <==> input == Str([])
    ensures r == Fail(OnlySeparators) <==> input.Str? && input.s != [] && AllIn(input.s, Separator)
    ensures r.Ok? ==> input.Str? && r.value != [] && NoneIn(r.value, Separator) && NoneIn(r.value, Uppercase)
    ensures r.Ok? ==> var c := Remove(input.s, Separator);
      c != [] && r.value[0] == LowerChar(c[0]) && r.value[|r.value| - 1] == LowerChar(c[|c| - 1])
  {
    match ValidWords(input)
    case Fail(e) => Fail(e)
    case Ok(ws) =>
      DotJoinShape(ws);
      Ok(JoinWith(LowerAll(ws), '.'))
  }

  /** `toDotCase` is idempotent: its output is one lower-case word. */
  lemma DotIdempotent(input: Input)
    requires ToDotCase(input).Ok?
    ensures ToDotCase(Str(ToDotCase(input).value)) == ToDotCase(input)
  {
    var r := ToDotCase(input).value;
    OneWord(r);
    LowerNoUpper(r);
  }

  /** Round trip: when the input holds no dot, splitting the dot.case output
      on dots gives back the input's words, lower-cased. */
  lemma DotRoundTrip(s: string)
    requires ToDotCase(Str(s)).Ok? && NoneIn(s, Dot)
    ensures Split(ToDotCase(Str(s)).value, Dot) == LowerAll(Split(s, Separator))
    ensures NoRepeat(ToDotCase(Str(s)).value, '.')
  {
    SplitTrim(s, Separator);
    var ws := Split(s, Separator);
    var lw := LowerAll(ws);
    SplitAvoids(s, Separator, Dot);
    forall i | 0 <= i < |lw|
      ensures IsWord(lw[i], Dot)
    {
      LowerAvoidsDot(ws[i]);
    }
    SplitJoin(lw, '.', Dot);
    JoinWithNoRepeat(lw, '.', Dot);
  }

  /** Lower-casing keeps a dot-free word dot-free. */
  lemma LowerAvoidsDot(w: string)
    requires IsWord(w, Dot)
    ensures IsWord(Lower(w), Dot)
  {
    forall j | 0 <= j < |w| ensures Lower(w)[j] != '.' {
      assert Lower(w)[j] == LowerChar(w[j]);
    }
  }

  /** The console calls at refined_prompt.js lines 93 and 139. */
  lemma UnderscoreExample()
    ensures ToCamelCase(Str("hello_world")) == Ok("helloWorld")
    ensures ToDotCase(Str("hello_world")) == Ok("hello.world")
  {
    HelloWorldConverts("hello_world", "", "_");
  }

  /** refined_prompt.js lines 94 and 140. */
  lemma HyphenExample()
    ensures ToCamelCase(Str("hello-world")) == Ok("helloWorld")
    ensures ToDotCase(Str("hello-world")) == Ok("hello.world")
  {
    HelloWorldConverts("hello-world", "", "-");
  }

  /** refined_prompt.js lines 95 and 141. */
  lemma SpaceExample()
    ensures ToCamelCase(Str("hello world")) == Ok("helloWorld")
    ensures ToDotCase(Str("hello world")) == Ok("hello.world")
  {
    HelloWorldConverts("hello world", "", " ");
  }

  /** refined_prompt.js line 96: a run of separators counts as one. */
  lemma SeparatorRunExample()
    ensures ToCamelCase(Str("hello__world")) == Ok("helloWorld")
    ensures ToDotCase(Str("hello__world")) == Ok("hello.world")
  {
    HelloWorldConverts("hello__world", "", "__");
  }

  /** refined_prompt.js lines 97 and 143: surrounding whitespace is trimmed. */
  lemma WhitespaceExamples()
    ensures ToCamelCase(Str("  hello-world  ")) == Ok("helloWorld")
    ensures ToDotCase(Str("  hello-world  ")) == Ok("hello.world")
  {
    HelloWorldConverts("  hello-world  ", "  ", "-");
  }

  /** 'helloWorld' and 'HelloWorld' are single words, since the code does not
      split at camelCase boundaries: the documented 'hello.world' for
      `toDotCase('HelloWorld')` is not what the code returns. */
  lemma CamelBoundaryExamples()
    ensures ToCamelCase(Str("helloWorld")) == Ok("helloworld")
    ensures ToDotCase(Str("HelloWorld")) == Ok("helloworld")
  {
    UnsplitCamel("helloWorld");
    UnsplitCamel("HelloWorld");
  }

  lemma UnsplitCamel(s: string)
    requires s == "helloWorld" || s == "HelloWorld"
    ensures ToCamelCase(Str(s)) == Ok("helloworld")
    ensures ToDotCase(Str(s)) == Ok("helloworld")
  {
    OneWord(s);
    LowerExamples(s);
  }

  /** refined_prompt.js lines 100-110, and the documented errors of
      `toDotCase` at lines 55-57. */
  lemma ErrorExamples()
    ensures ToCamelCase(NonString) == Fail(NotAString)
    ensures ToCamelCase(Str("")) == Fail(EmptyString)
    ensures ToDotCase(NonString) == Fail(NotAString)
    ensures ToDotCase(Str("")) == Fail(EmptyString)
    ensures ToDotCase(Str("___")) == Fail(OnlySeparators)
  {
  }

  /** The spellings of "hello world" in the console calls: optional
      padding on both sides, and one or two separators in the middle. */
  predicate HelloWorldSpelling(s: string, pad: string, p: string) {
    (pad == "" || pad == "  ") && (p == "_" || p == "-" || p == " " || p == "__")
    && s == pad + "hello" + p + "world" + pad
  }

  lemma HelloWorldConverts(s: string, pad: string, p: string)
    requires HelloWorldSpelling(s, pad, p)
    ensures ToCamelCase(Str(s)) == Ok("helloWorld")
    ensures ToDotCase(Str(s)) == Ok("hello.world")
  {
    var t := "hello" + p + "world";
    assert AllIn(pad, Separator);
    PaddedWords(s, pad, t);
    HelloWorldJoined(t, "hello", p, "world");
    Converts(s, ["hello", "world"]);
    HelloWorldRendered();
  }

  /** Separators on both sides of `t` do not change the words. */
  lemma PaddedWords(s: string, pad: string, t: string)
    requires AllIn(pad, Separator) && s == pad + t + pad
    ensures Split(Trim(s), Separator) == Split(t, Separator)
  {
    SplitTrim(s, Separator);
    assert s == pad + (t + pad);
    SplitDropPrefix(pad, t + pad, Separator);
    SplitDropSuffix(t, pad, Separator);
  }

  /** "hello" and "world" with separators between them are two words. */
  lemma HelloWorldJoined(t: string, a: string, p: string, b: string)
    requires a == "hello" && b == "world" && t == a + p + b
    requires p == "_" || p == "-" || p == " " || p == "__"
    ensures Split(t, Separator) == ["hello", "world"]
  {
    assert AllIn(p, Separator);
    SplitSeparated(a, p, b, Separator);
    HelloOrWorld(a);
    HelloOrWorld(b);
  }

  lemma HelloOrWorld(w: string)
    requires w == "hello" || w == "world"
    ensures Split(w, Separator) == [w]
  {
    assert IsWord(w, Separator);
    SplitWord(w, Separator);
  }

  lemma HelloWorldRendered()
    ensures CamelJoin(["hello", "world"]) == "helloWorld"
    ensures JoinWith(LowerAll(["hello", "world"]), '.') == "hello.world"
  {
    HelloWorldCamel(["hello", "world"]);
    HelloWorldDot(["hello", "world"]);
  }

  lemma HelloWorldCamel(ws: seq<string>)
    requires ws == ["hello", "world"]
    ensures CamelJoin(ws) == "helloWorld"
  {
    LowerNoUpper(ws[0]);
    WorldCapitalized(ws[1..]);
  }

  lemma WorldCapitalized(ws: seq<string>)
    requires ws == ["world"]
    ensures CapitalizeAll(ws) == "World"
  {
    LowerNoUpper("orld");
    assert ws[1..] == [];
    assert Capitalize(ws[0]) == "World";
  }

  lemma HelloWorldDot(ws: seq<string>)
    requires ws == ["hello", "world"]
    ensures JoinWith(LowerAll(ws), '.') == "hello.world"
  {
    LowerNoUpper(ws[0]);
    LowerNoUpper(ws[1]);
    assert LowerAll(ws) == ws;
    assert ws[1..] == ["world"];
  }

  lemma LowerExamples(s: string)
    requires s == "helloWorld" || s == "HelloWorld"
    ensures Lower(s) == "helloworld"
  {
  }
}
