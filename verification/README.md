# Apex target of the ANTLR 3 code generator, in Dafny

This project models the Apex code-generation target of ANTLR 3
(`ApexTarget`). It covers three pieces of sequential logic and proves
properties about each:

- **Grammar-literal transcoder** (`ApexLiteral`). It rewrites a single-quoted
  ANTLR literal as an Apex string literal. The target's loop makes one pass
  over the interior. An escape `\c` keeps its backslash only when `c` is one
  of `' n r t b f \ u`. Any other escape loses its backslash. An unescaped
  quote mark gets a backslash. Every other character is copied. The loop
  steps past the escaped character with a second `i++`. Because of that, a
  backslash in the last interior position takes the closing delimiter as
  the character it escapes. Two models are given and proved equal:
  - `Transcode`, built on the suffix recursion `Scan`;
  - `TranscodeLoop`, ApexTarget's index loop, including the inner step.
- **Raw-string escaper** (`ApexEscape`). Each character of the text is
  replaced by its entry in the target's escape table. The double quote is
  never replaced. A code outside the table, or one with a null entry, is
  copied. The result is optionally wrapped in quote marks. A null string
  gives null. The table is a parameter. The only entry fixed here is the
  one the Apex constructor sets: `'` maps to `\'`.
- **Annotation pass** (`RuleAnnotation`). After grammar analysis, every rule
  and every delegated rule gets `RecognitionException` added to its throws
  set. The delegated rules are skipped when their collection is null.

Java `null` is modelled as `Option.None`. Strings are `seq<char>`.

Three edge cases of the Java code are modelled as written:
- A literal of length at most two gives `''`.
- A backslash in the last interior position consumes the closing delimiter
  as the character it escapes.
- A null delegated-rule collection is skipped.

## Model

| member | source | states |
|---|---|---|
| ApexLiteral.Transcode | tool/src/main/java/org/antlr/codegen/ApexTarget.java:55-116 | Any input gives an output that starts and ends with `'`. Its interior is well-formed: only kept escapes `\c` (`c` one of `' n r t b f \ u`), and characters that are neither `\` nor `'`. So there is no bare quote and no dangling backslash. An input of length at most two gives exactly `''`. |
| ApexLiteral.TranscodeLoop | tool/src/main/java/org/antlr/codegen/ApexTarget.java:59-115 | ApexTarget's index loop, with its second `i++` after a backslash, produces exactly `Transcode`'s output for every input. |
| ApexLiteral.ScanFromIsScan | tool/src/main/java/org/antlr/codegen/ApexTarget.java:66-109 | The loop reads the literal by index from position `i`. What it emits equals the scan of the rest of the interior, with the closing delimiter as the final look-ahead. |
| ApexLiteral.ScanWellFormed | tool/src/main/java/org/antlr/codegen/ApexTarget.java:66-109 | Every scan output is a well-formed interior (no bare `'`, no dangling backslash, escapes limited to `' n r t b f \ u`). It holds at most two output characters per input character. |
| ApexLiteral.InteriorOfTranscode | tool/src/main/java/org/antlr/codegen/ApexTarget.java:62-113 | The output's interior is the scan of the input's interior. The input's own delimiters are discarded, except that the closing one serves as look-ahead. |
| ApexLiteral.ScanAppend | tool/src/main/java/org/antlr/codegen/ApexTarget.java:66-109 | Split the interior at a point where no backslash is left waiting for its character. Then the scan of the whole is the scan of the first part followed by the scan of the second. |
| ApexLiteral.TranscodeConcat | tool/src/main/java/org/antlr/codegen/ApexTarget.java:55-116 | The same split, stated on whole literals: the transcoded interior of `'ab'` is the transcoded interior of `'a'` followed by that of `'b'`. |
| ApexLiteral.ScanIgnoresClose | tool/src/main/java/org/antlr/codegen/ApexTarget.java:66-96 | An interior with no dangling backslash is transcoded without looking at the closing delimiter. |
| ApexLiteral.KeptEscape | tool/src/main/java/org/antlr/codegen/ApexTarget.java:67-108 | In any context, `\c` with `c` in `' n r t b f \ u` is emitted as `\c`. Both input characters are consumed, and the scan resumes after them. |
| ApexLiteral.DroppedEscape | tool/src/main/java/org/antlr/codegen/ApexTarget.java:87-108 | In any context, `\c` with any other `c` is emitted as `c` alone. Both input characters are consumed. |
| ApexLiteral.UnescapedQuote | tool/src/main/java/org/antlr/codegen/ApexTarget.java:97-108 | In any context, an unescaped `'` inside the literal is emitted as `\'`. |
| ApexLiteral.PlainCopied | tool/src/main/java/org/antlr/codegen/ApexTarget.java:97-108 | In any context, an unescaped character other than `\` and `'` is copied unchanged. |
| ApexLiteral.TrailingBackslash | tool/src/main/java/org/antlr/codegen/ApexTarget.java:66-96 | A backslash in the last interior position escapes the closing delimiter. For example, `'\'` gives `'\''`. |
| ApexLiteral.WellFormedIsFixed | tool/src/main/java/org/antlr/codegen/ApexTarget.java:55-116 | A quoted literal whose interior is well-formed (no bare `'`, no dangling backslash, escapes limited to `' n r t b f \ u`) transcodes to itself. This is the round trip for every kept escape. |
| ApexLiteral.TranscodeIdempotent | tool/src/main/java/org/antlr/codegen/ApexTarget.java:55-116 | Transcoding an output again gives the same output. |
| ApexLiteral.WellFormedQuotesEscaped | tool/src/main/java/org/antlr/codegen/ApexTarget.java:97-104 | In a well-formed interior, every `'` is immediately preceded by a backslash that itself begins an escape: everything before that backslash splits into whole escapes and plain characters. So no quote mark is bare. |
| ApexLiteral.WellFormedHasNoDanglingEscape | tool/src/main/java/org/antlr/codegen/ApexTarget.java:67-96 | In a well-formed interior, every backslash is followed by the character it escapes. |
| ApexEscape.ApexTable | tool/src/main/java/org/antlr/codegen/ApexTarget.java:40-42 | The constructor maps the quote mark's entry to `\'`. Every other entry is inherited unchanged from the base table. |
| ApexEscape.FromString | tool/src/main/java/org/antlr/codegen/ApexTarget.java:138-162 | The result is null exactly when the input is null. |
| ApexEscape.FromStringLoop | tool/src/main/java/org/antlr/codegen/ApexTarget.java:138-163 | ApexTarget's buffer loop computes exactly `FromString`'s result. That covers the null case, the quoting and the per-character test. |
| ApexEscape.QuotedWrapsUnquoted | tool/src/main/java/org/antlr/codegen/ApexTarget.java:143-162 | With `quoted` set, the result is `'` + the unquoted result + `'`. Without it, no delimiter is added. |
| ApexEscape.EscapeTextAppend | tool/src/main/java/org/antlr/codegen/ApexTarget.java:147-158 | The escaped text of `a + b` is the escaped text of `a` followed by that of `b`. |
| ApexEscape.EscapeTextAt | tool/src/main/java/org/antlr/codegen/ApexTarget.java:147-158 | Each character is replaced by its own image, whatever surrounds it. |
| ApexEscape.DoubleQuoteVerbatim | tool/src/main/java/org/antlr/codegen/ApexTarget.java:148-156 | `"` is always copied unchanged, whatever the table holds for it. |
| ApexEscape.QuoteMarkEscaped | tool/src/main/java/org/antlr/codegen/ApexTarget.java:148-153 | Under a table with the constructor's entry, `'` is emitted as `\'`. |
| ApexEscape.TableEntryUsed | tool/src/main/java/org/antlr/codegen/ApexTarget.java:148-157 | A character other than `"` whose code is below the table's length and has a non-null entry is replaced by that entry. Any other character is copied. |
| ApexEscape.NothingToEscape | tool/src/main/java/org/antlr/codegen/ApexTarget.java:147-158 | Text in which no character is replaced comes out unchanged. |
| ApexEscape.EscapeTextWellFormed | tool/src/main/java/org/antlr/codegen/ApexTarget.java:147-158 | Take a table that has the quote entry and a backslash entry, and whose entries, apart from the unused `"` entry, are all well-formed interiors (no bare `'`, no dangling backslash, escapes limited to `' n r t b f \ u`). Under it, the escaped text of any string is a well-formed interior. |
| ApexEscape.DoubleQuoteEntryIgnored | tool/src/main/java/org/antlr/codegen/ApexTarget.java:148-151 | Because `"` is always copied, whatever the table holds for `"` (for example `\"`) does not affect whether the table is valid. |
| ApexEscape.QuotedIsApexLiteral | tool/src/main/java/org/antlr/codegen/ApexTarget.java:138-163 | Under such a table, the quoted result has a well-formed interior, and the literal transcoder leaves it unchanged. |
| RuleAnnotation.AnnotateRules | tool/src/main/java/org/antlr/codegen/ApexTarget.java:182-184 | After the loop over a rule collection, every rule declares `RecognitionException`. Each rule keeps its name and all earlier throws entries, and gains nothing else. |
| RuleAnnotation.PerformGrammarAnalysis | tool/src/main/java/org/antlr/codegen/ApexTarget.java:180-191 | Every rule declares `RecognitionException` afterwards. So does every delegated rule when that collection is non-null. A null delegated collection stays null. Nothing else changes. |
| RuleAnnotation.PerformGrammarAnalysisUnique | tool/src/main/java/org/antlr/codegen/ApexTarget.java:182-190 | Consider any grammar that differs from the input only by added `RecognitionException` declarations, and in which every rule declares it. That grammar is the pass's result. |
| RuleAnnotation.AnnotateRulesUnique | tool/src/main/java/org/antlr/codegen/ApexTarget.java:182-184 | The same uniqueness, for one rule collection. |
| RuleAnnotation.AnnotateRulesFixed | tool/src/main/java/org/antlr/codegen/ApexTarget.java:182-184 | The loop leaves a collection unchanged exactly when every rule already declares the exception. |
| RuleAnnotation.PerformGrammarAnalysisIdempotent | tool/src/main/java/org/antlr/codegen/ApexTarget.java:182-190 | Running the pass twice gives the same grammar as running it once. |
| RuleAnnotation.PerformGrammarAnalysisFixedIffAnnotated | tool/src/main/java/org/antlr/codegen/ApexTarget.java:182-190 | The pass leaves a grammar unchanged exactly when every rule, own or delegated, already declares the exception. |

## Left out

- `super.performGrammarAnalysis` (ApexTarget.java:181): the grammar and DFA analysis lives in classes that are not part of this model. The pass starts from the rule collections that analysis produced.
- `chooseWhereCyclicDFAsGo` and `useBaseTemplatesForSynPredFragments` (ApexTarget.java:165-177): they return their template argument and the constant `false`. There is nothing to state about them.
- The base `Target` escape table: its contents are defined in a class that is not part of this model. The table is a parameter. Only the constructor's quote entry is fixed.
- `ApexEscape.ApexTable` requires the base table to be longer than the quote mark's code. Otherwise the Java constructor would fail with an index error.
- Java `char` is a UTF-16 code unit. The model uses Dafny `char` and compares codes with `c as int`.
- `QUOTE_MARK` is a mutable static in the Java code. It is modelled as the constant `'`.
- A null literal passed to the transcoder makes the Java code throw. The model takes a non-null `seq<char>`.
- `\u` escapes pass through without checking that hex digits follow. The Java code does not check either.
- Raw line breaks, and other characters Apex rejects inside a string literal, are copied unchecked by both the transcoder and the escaper, as the Java code copies them. `ApexLiteral.WellFormed` checks only quotes, backslashes and the kept escapes, so it does not exclude them, and `ApexEscape.ValidApexTable` does not require entries for `\n` or `\r`.
- Escapes that Apex accepts but that are not in the kept set, such as `\"`, lose their backslash in the transcoder, as in the Java code. So `WellFormed` is narrower than what Apex accepts, and `WellFormedIsFixed` covers only the kept escapes.
- Rules are values carrying a name and a throws set. Java object identity, and any aliasing between own and delegated rules, is not modelled. Because set union is idempotent, it would not change any result.
- The iteration order of the delegated-rule `Set` is not modelled. That collection is a sequence here.
- The end-to-end syntax-error tests (`TestSyntaxErrors.java`) need the generated parser and its runtime, which are not part of this model.
