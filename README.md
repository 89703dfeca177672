# Case converters

A Dafny model of three JavaScript string converters and proofs about them:

- `toCamelCase` and `toDotCase` (`refined_prompt.js`). Each rejects, with a
  `TypeError`, a value that is not a string, then the empty string, then a
  string that holds only separators (whitespace, `_`, `-`). Otherwise it trims
  the string, splits it on runs of `[\s_-]`, drops empty pieces and renders the
  words. camelCase keeps the first word lower-cased and capitalises every
  later word. dot.case lower-cases every word and joins them with `.`.
- `toKebabCase` (`chain_prompt.js`). It returns `''` for a value that is not a
  string and never throws. Otherwise it:
  1. turns `_` and `-` into spaces;
  2. inserts a space at `aB` boundaries (`([a-z])([A-Z])`);
  3. inserts a space before the last capital of an acronym that a word
     follows (`([A-Z]+)([A-Z][a-z])`);
  4. trims and lower-cases the string;
  5. replaces each whitespace run with `-`, then each `-` run with one `-`.

Modules:

- `Text`: characters, ASCII case mapping, `trim`, single-character and run
  replacement.
- `Words`: splitting on a character class, `join`, and the round trip between
  them.
- `CamelDot`: `refined_prompt.js`.
- `Kebab`: `chain_prompt.js`.

A JavaScript argument is modelled as `Input = Str(s) | NonString`. A thrown
`TypeError` is `Fail(err)` with one `Err` per message.

The two boundary rewrites (`chain_prompt.js:35` and `:37`) are each modelled
in two ways:

- a left-to-right scan that consumes matches the way a global replace does;
- a reference, `WithBreaks`, that inserts a space before every position where
  the pattern's condition holds.

Both rewrites are proved equal to their reference (`SplitLowerUpperBreaks`,
`SplitAcronymsBreaks`).

The model follows the code where the documentation comments and the example
output comments disagree with it:

- `toDotCase('HelloWorld')` is documented as `'hello.world'`. The code has
  no camelCase splitting, so it returns `'helloworld'`.
- In the same way, `toCamelCase('helloWorld')` returns `'helloworld'`.

Both are proved in `CamelDot.CamelBoundaryExamples`.

Characters are modelled as follows:

- Letters are ASCII: `toLowerCase`/`toUpperCase` map only `A-Z`/`a-z`.
- `[a-z]`/`[A-Z]` are the ASCII ranges.
- Whitespace (`\s` and `trim`) is space, tab, line feed, carriage return,
  vertical tab and form feed.

## Model

| member | source | states |
|---|---|---|
| Text.LowerChar | refined_prompt.js:85 | ASCII lower-casing: an upper-case letter becomes its lower-case letter, every other character is unchanged, and the result is never upper-case |
| Text.UpperChar | refined_prompt.js:87 | ASCII upper-casing: a lower-case letter becomes its capital, every other character is unchanged, and the result is never lower-case |
| Text.CaseMapping | refined_prompt.js:87 | case mapping never moves a character into or out of `[\s_-]`, and lower-casing after upper-casing is the same as lower-casing alone |
| Text.Lower | refined_prompt.js:135 | `toLowerCase` keeps the length and lower-cases every character in place |
| Text.LowerClean | refined_prompt.js:135 | lower-casing separator-free text leaves no separator and no capital |
| Text.RunLength | chain_prompt.js:46-48 | the greedy `X+` prefix: every character before it matches, and the next one does not (or the string ends) |
| Text.Trim | refined_prompt.js:71 | `trim`: the result neither starts nor ends with whitespace, and it is empty exactly when the input is all whitespace |
| Text.TrimSlice | refined_prompt.js:71 | `trim` keeps a middle slice of the string and drops only whitespace on both sides |
| Text.TrimKeeps | chain_prompt.js:39 | `trim` adds no character and keeps every non-whitespace character |
| Text.TrimUntouched | chain_prompt.js:39 | `trim` leaves a string alone when neither end is whitespace |
| Text.ReplaceChar | chain_prompt.js:31-33 | `replace(/x/g, y)` keeps the length and puts `y` exactly where `x` was, leaving every other character in place |
| Text.ReplaceRuns | chain_prompt.js:46 | `replace(/X+/g, c)` is empty exactly when its input is, starts with `c` when the input starts in the class, and keeps the last character when it is outside the class |
| Text.ReplaceRunsChars | chain_prompt.js:46-48 | a run rewrite writes only the replacement and the input's characters outside the class, and it loses none of those |
| Text.ReplaceRunsWord | chain_prompt.js:46 | a run rewrite copies a stretch with no class character unchanged and goes on after it |
| Text.ReplaceRunsNoRepeat | chain_prompt.js:46-48 | after a run rewrite, the replacement never appears twice in a row when the input had it only inside the class |
| Text.ReplaceRunsOfOne | chain_prompt.js:48 | when no two class characters touch, a run rewrite is a substitution at every position |
| Words.Concat | refined_prompt.js:89 | `join('')`; it has no contract of its own, and `Words.Split` and `Words.ConcatLowerAll` state what it gives |
| Words.JoinWith | refined_prompt.js:135 | `join(c)`; it has no contract of its own, and `Words.SplitJoin`, `Words.JoinWithNoRepeat` and `Words.ReplaceRunsJoin` state what it gives |
| Words.Split | refined_prompt.js:74 | `split(/[\s_-]+/).filter(w => w.length > 0)`: every piece is non-empty and separator-free, and the pieces together are the input with its separators deleted |
| Words.SplitSeparated | refined_prompt.js:74 | a run of one or more separators splits two stretches apart: the words of `a + p + b` are those of `a` followed by those of `b`, so every maximal non-separator run is one word |
| Words.SplitAtGap | refined_prompt.js:74 | text that starts at a separator splits on its own: the words of `a + r` are those of `a` followed by those of `r` |
| Words.SplitEmpty | refined_prompt.js:77-79 | there are no words exactly when the string holds only separators |
| Words.SplitTrim | refined_prompt.js:71-74 | trimming before splitting on `[\s_-]` (or on whitespace) does not change the words |
| Words.SplitJoin | refined_prompt.js:135 | joining words with a separator of the splitting class and splitting again gives the same words back |
| Words.JoinConcatEnds | refined_prompt.js:135 | joining non-empty words keeps the first and last character of their concatenation |
| Words.JoinWithNoRepeat | refined_prompt.js:135 | words free of the joining character, joined by it, never hold it twice in a row, and the joined text does not start with it |
| Words.LowerAll | refined_prompt.js:135 | `words.map(w => w.toLowerCase())`: the same number of words, each lower-cased |
| Words.ConcatLowerAll | refined_prompt.js:135 | lower-casing every word and then concatenating is the same as lower-casing the concatenation |
| Words.SplitLower | chain_prompt.js:44-46 | lower-casing before splitting on a class other than the capitals gives the same words, lower-cased |
| Words.ReplaceRunsJoin | chain_prompt.js:46 | for text that neither starts nor ends in the class, `replace(/X+/g, c)` is the same as splitting on the class and joining the words with `c` |
| CamelDot.Message | refined_prompt.js:62-78 | the message text of each TypeError; a definition with no contract of its own |
| CamelDot.ValidWords | refined_prompt.js:61-79 | each of the three TypeErrors is raised exactly for its own condition, checked in order, and otherwise the words are exactly `Split` of the input: its maximal runs of non-separators, in order |
| CamelDot.Capitalize | refined_prompt.js:87 | `w.charAt(0).toUpperCase() + w.slice(1).toLowerCase()` keeps the length; `CamelDot.CapitalizeAt` states each character |
| CamelDot.CapitalizeAt | refined_prompt.js:87 | a capitalised word has its first character upper-cased and every other character lower-cased |
| CamelDot.CamelJoin | refined_prompt.js:82-89 | the camelCase rendering is as long as the words together; `CamelDot.CamelJoinAt` states each character |
| CamelDot.CamelJoinAt | refined_prompt.js:82-89 | character by character, the camelCase rendering is the words' characters, upper-cased exactly where a word other than the first begins and lower-cased everywhere else |
| CamelDot.ToCamelCase | refined_prompt.js:59-90 | the three errors are raised exactly under their conditions; a result is non-empty, has no separator, and lower-cases to the input's non-separator characters lower-cased |
| CamelDot.CamelCharacters | refined_prompt.js:74-89 | the camelCase output is as long as the input without separators, with each character upper-cased exactly at the start of a later word and lower-cased elsewhere |
| CamelDot.CamelReconverted | refined_prompt.js:82-89 | converting a camelCase output again only lower-cases it, and its dot.case is the input's non-separator characters lower-cased |
| CamelDot.OneWord | refined_prompt.js:82-89 | a separator-free non-empty string is one word, which both converters only lower-case |
| CamelDot.ToDotCase | refined_prompt.js:112-136 | the three errors are raised exactly under their conditions; a result is non-empty, has no separator and no capital, and starts and ends with the first and last non-separator characters of the input, lower-cased |
| CamelDot.DotIdempotent | refined_prompt.js:135 | converting a dot.case output again returns it unchanged |
| CamelDot.DotRoundTrip | refined_prompt.js:127-135 | for an input without `.`, splitting the dot.case output on `.` gives back the input's words, lower-cased, and the output never holds two `.` in a row |
| CamelDot.UnderscoreExample | refined_prompt.js:93 | `'hello_world'` becomes `'helloWorld'` and `'hello.world'` |
| CamelDot.HyphenExample | refined_prompt.js:94 | `'hello-world'` becomes `'helloWorld'` and `'hello.world'` |
| CamelDot.SpaceExample | refined_prompt.js:95 | `'hello world'` becomes `'helloWorld'` and `'hello.world'` |
| CamelDot.SeparatorRunExample | refined_prompt.js:96 | `'hello__world'` becomes `'helloWorld'` and `'hello.world'`: a run of separators is one break |
| CamelDot.WhitespaceExamples | refined_prompt.js:97 | `'  hello-world  '` becomes `'helloWorld'` and `'hello.world'` |
| CamelDot.CamelBoundaryExamples | refined_prompt.js:142 | `toDotCase('HelloWorld')` is `'helloworld'` and `toCamelCase('helloWorld')` is `'helloworld'`: no split at the case boundary |
| CamelDot.ErrorExamples | refined_prompt.js:100-110 | `null` and `''` raise their TypeErrors in both converters, and `toDotCase('___')` raises the separators-only error |
| Kebab.BreaksKeep | chain_prompt.js:35-37 | a boundary rewrite keeps every character and adds only spaces |
| Kebab.NoUpperNoBreaks | chain_prompt.js:35-37 | neither boundary rewrite changes a string without capitals |
| Kebab.RunEnd | chain_prompt.js:37 | the greedy `[A-Z]+` from a position stops at the first non-capital |
| Kebab.SplitLowerUpper | chain_prompt.js:35 | the `([a-z])([A-Z])` global replace as a left-to-right scan; `Kebab.SplitLowerUpperBreaks` states what it does |
| Kebab.SplitLowerUpperBreaks | chain_prompt.js:35 | the `([a-z])([A-Z])` global replace puts one space before exactly those capitals that follow a lower-case letter |
| Kebab.SplitAcronyms | chain_prompt.js:37 | the `([A-Z]+)([A-Z][a-z])` global replace as a left-to-right scan; `Kebab.SplitAcronymsBreaks` states what it does |
| Kebab.AcronymScan | chain_prompt.js:37 | the scan of that replace from a position on; `Kebab.AcronymScanFrom` ties it to the reference |
| Kebab.SplitAcronymsBreaks | chain_prompt.js:37 | the `([A-Z]+)([A-Z][a-z])` global replace puts one space before exactly those capitals that follow a capital and precede a lower-case letter |
| Kebab.Spaced | chain_prompt.js:31-33 | both separator replaces; `Kebab.SeparatorsSpaced` states what they give |
| Kebab.SeparatorsSpaced | chain_prompt.js:31-33 | after turning `_` and `-` into spaces there is neither left, the length is kept, whitespace is exactly where a separator was, and every other character is unchanged |
| Kebab.Broken | chain_prompt.js:31-37 | the separator replaces followed by both boundary rewrites, through their references; `Kebab.BrokenLetters` states what it keeps |
| Kebab.BrokenLetters | chain_prompt.js:31-37 | the text before trimming holds, besides whitespace, exactly the input's non-separator characters in order |
| Kebab.Normalize | chain_prompt.js:29-39 | the normalized string has no `_` or `-`, no whitespace at either end, and is empty exactly when the input holds only separators |
| Kebab.NormalizeWords | chain_prompt.js:29-39 | the normalized string has the same whitespace-separated words as the text before trimming |
| Kebab.Format | chain_prompt.js:42-48 | lower-case, then `\s+` to `-`, then `-+` to `-`; `Kebab.FormatShape` states what it gives |
| Kebab.FormatShape | chain_prompt.js:42-48 | formatting a normalized string gives kebab-case, is empty exactly when the string is, and the final `-+` rewrite has nothing left to collapse |
| Kebab.ToKebabCase | chain_prompt.js:22-49 | a non-string gives `''`; every output is kebab-case (no whitespace, `_` or capital, no `-` at either end or twice in a row); a string gives `''` exactly when it holds only separators |
| Kebab.KebabWords | chain_prompt.js:22-49 | the output for a string is its words, once `_` and `-` are spaces and both boundaries are broken, lower-cased and joined with single `-` |
| Kebab.KebabLetters | chain_prompt.js:22-49 | splitting the output on `-` gives back those lower-cased words, and deleting its `-` leaves exactly the input's non-separator characters, lower-cased, in order |
| Kebab.KebabFixpoint | chain_prompt.js:22-49 | a kebab-case string is returned unchanged |
| Kebab.KebabIdempotent | chain_prompt.js:22-49 | the converter is idempotent, and it returns a string unchanged exactly when the string is kebab-case |
| Kebab.SeparatorsInterchangeable | chain_prompt.js:31-33 | two inputs that differ only in which of `_`, `-` and space sits at a position give the same output |
| Kebab.CamelCaseExample | chain_prompt.js:52 | `'camelCaseString'` becomes `'camel-case-string'` |
| Kebab.SnakeCaseExample | chain_prompt.js:53 | `'snake_case_string'` becomes `'snake-case-string'` |
| Kebab.PascalCaseExample | chain_prompt.js:54 | `'PascalCaseString'` becomes `'pascal-case-string'` |
| Kebab.HyphenatedExample | chain_prompt.js:55 | `'some-hyphenated-text'` is returned unchanged |
| Kebab.AcronymExample | chain_prompt.js:56 | `'HTTPServerResponse'` becomes `'http-server-response'` |

## Left out

- The `console.log` demonstration calls and the `try`/`catch` blocks that
  print error messages (`refined_prompt.js:92-110`, `138-143`,
  `chain_prompt.js:51-56`). They are console I/O. Each value they print is stated in one of the example
  lemmas above. `CamelDot.Message` keeps the message text of each error.
- `module.exports` (`chain_prompt.js:58`): module wiring, with no behaviour.
- Unicode. Case mapping covers ASCII letters only, and whitespace is the six
  ASCII characters above. JavaScript's `\s`, `trim` and
  `toLowerCase`/`toUpperCase` also cover other Unicode characters, including
  multi-character expansions. Strings are sequences of characters, not of
  UTF-16 code units.
- JavaScript's dynamic typing beyond "a string or not a string". `null`,
  `undefined` and every other non-string value are the one case `NonString`.
  The `input === null || input === undefined` tests on `chain_prompt.js:24`
  are subsumed by the `typeof` test.
- The general regular-expression engine. Each pattern used is modelled as its
  own scan with the same left-to-right, non-overlapping matching.
- The rest of the repository (`few_shot_prompt.js`'s `addNumbers`, the
  backend's comment routes). It is not part of this model.
