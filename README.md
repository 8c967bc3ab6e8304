# gogenutils identifier casing, modelled in Dafny

gogenutils (`utils.go`) is a small Go library that recases identifiers for code
generators. It has three layers:

- **Character predicates.** `isSeparator` and `isWordBreak`.
- **Single-pass recasers.**
  - `SnakeCase` maps each rune on its own.
  - `camelAndPascalCase` is a scan that carries the previous rune. `CamelCase` and `PascalCase` are its entry points.
  - `FieldName` post-filters the Pascal-cased text with a regular expression.
  - `JSONFieldName` post-filters the snake-cased text with a regular expression, then replaces `"__"` by `"_"` in a single pass.
- **The decomposer `PascalCaseToSnakeCase`.** It cuts a compact identifier into words at its word breaks and joins the lower-cased words with `'_'`. A break is an upper-case letter, or the first digit of a run of digits. At each break it first tries to peel off an initialism, using `startsWithInitialism` and the `commonInitialisms` table.

The project has seven modules:

- `Runes`: ASCII classification and case mapping.
- `Text`: filtering, deleting, concatenating and joining.
- `Initialisms`: word breaks, the table and `startsWithInitialism`.
- `Decompose`: the decomposer.
- `Casing`: the recasers and the two post-filters.
- `Vectors`: the library's test vectors, plus inputs that show how the code behaves at its edges.
- `RoundTrip`: where Pascal-casing followed by decomposing equals snake-casing.

Each loop of the source is a Dafny method with invariants. Each method is proved equal to a specification function:

- `StartsWithInitialism` is proved equal to `Initialism`.
- `PascalCaseToSnakeCase` is proved equal to `Decomposed`.
- `JoinLowered` is proved equal to the lowered join.
- `CamelAndPascalCase` is proved equal to `Recase`.

Lemmas then prove what those functions mean. For the decomposer:

- the words are non-empty;
- the words concatenate back to the input, so the output is the lower-cased input with `'_'` between the words;
- a non-empty initialism can only be found at the first break after the word start, so the code's jump `i += len(initialism) - 1; lastPos = i` ends the word exactly where the initialism ends.

Behaviour at the edges, proved as lemmas:

- **Longest table entry wins.** `"HTTPServer"` decomposes to `"https_erver"`, because `"HTTPS"` is a table entry and is longer than `"HTTP"`.
- **The initialism heuristic fires on digits.** On `"DE002…"` it returns `"DE"`, because `'0'` is also a break.
- **The heuristic keeps the last capital back.** `"ABC"` decomposes to `"ab_c"`.
- **Decomposing Pascal-cased text is snake-casing it: proved on words of two or more letters.** Take lower-case words of at least two letters, separated by single spaces. For every such text, Pascal-casing and then decomposing equals snake-casing. Single-letter words can break this when neighbouring words form a run that looks like an initialism:
  - `"a b c"` gives `"ab_c"`, because three leading breaks set off the heuristic, while snake-casing gives `"a_b_c"`;
  - `"i d"` gives `"id"`, because the Pascal-cased `"ID"` is a table entry, while snake-casing gives `"i_d"`;
  - `"a bc"` still round-trips to `"a_bc"`, because its two leading breaks are too few for the heuristic.
- **A leading separator spends the first-rune rule.** The mapping closure clears `isFirst` on the first rune even when that rune is a separator. The letter after a leading `' '` or `'_'` is then title-cased, because it follows a separator. So `CamelCase(" ab")` is `"Ab"`: a camel-cased result can start with a capital.
- **A field name can start with a digit.** Neither the recasing nor the filter moves or drops a leading digit, so `FieldName("1st")` is `"1st"`. The output is therefore not always a valid Go identifier.
- **`JSONFieldName` keeps a leading `'_'`.** Only the regex alternative `_$` removes an underscore, and it matches at the end of the text only.
- **`JSONFieldName` halves a run of underscores once.** A run of k underscores becomes ⌈k/2⌉, so `"a   b"` gives `"a__b"`.

## Model

| member | source | states |
|---|---|---|
| Runes.ToLower | utils.go:83 | an upper-case ASCII letter becomes its lower-case letter, any other char is unchanged |
| Runes.ToTitle | utils.go:64 | a lower-case ASCII letter becomes its upper-case letter, any other char is unchanged |
| Runes.LowerAppend | utils.go:127 | `strings.ToLower` distributes over concatenation, so lower-casing the joined words equals joining the lower-cased ones |
| Runes.CaseMappingKeepsClass | utils.go:83 | case mapping keeps a char's letter or digit class, and lower-casing after either mapping equals lower-casing alone |
| Text.FilterMembers | utils.go:17 | a char survives the regexp filter exactly when it was in the text and is in the kept class |
| Text.DeleteMembers | utils.go:70-71 | `strings.Replace(s, c, "", -1)` removes every `c` and keeps every other char that occurs |
| Text.DeleteAppend | utils.go:70-71 | deleting a char distributes over concatenation |
| Casing.IsSeparator | utils.go:88-90 | true exactly when the char is neither an ASCII letter nor an ASCII digit |
| Casing.SeparatorUnderCaseMapping | utils.go:88-90 | a separator stays a separator under case mapping, and a non-separator stays a non-separator; `' '` and `'_'` are separators |
| Casing.SnakeRune | utils.go:79-84 | the closure yields `'_'` exactly for a separator, and always a char of `[a-z0-9_]` |
| Casing.SnakeCase | utils.go:77-86 | same length as the input; `'_'` exactly at separators; the lower-cased input char elsewhere; only `[a-z0-9_]` chars |
| Casing.SnakeCaseIdempotent | utils.go:77-86 | snake-casing twice equals snake-casing once |
| Casing.MapCase | utils.go:48-68 | the `strings.Map` pass, as a text of the same length whose each position is the closure's output for that rune, its predecessor and whether it comes first |
| Casing.MapCaseAt | utils.go:43-68 | position 0 is lower-cased (camel) or title-cased (Pascal); a position after a separator is title-cased; every other position is the input char |
| Casing.MapCaseLower | utils.go:48-68 | the mapping only changes case: lower-casing its output equals lower-casing the input |
| Casing.Recase | utils.go:70-73 | the result of `camelAndPascalCase` holds no `' '` and no `'_'` |
| Casing.RecaseKeepsText | utils.go:41-74 | lower-cased, the result is the lower-cased input with every `' '` and `'_'` removed |
| Casing.RecaseFirst | utils.go:54-71 | an input starting with a letter or digit gives a non-empty result that starts with that char, lower-cased (camel) or title-cased (Pascal) |
| Casing.RecaseLeadingSeparator | utils.go:54-71 | with a leading `' '` or `'_'` followed by a letter or digit, the result is non-empty and starts with that char title-cased, in camel mode too |
| Casing.CamelAndPascalCase | utils.go:41-74 | the loop carrying `prev` and `isFirst`, followed by the two replaces, returns `Recase(s, isCamel)` |
| Casing.CamelCase | utils.go:32-34 | returns the camel recasing; a leading letter or digit comes out lower-cased |
| Casing.PascalCase | utils.go:37-39 | returns the Pascal recasing; a leading letter or digit comes out title-cased |
| Casing.FieldName | utils.go:15-19 | returns the Pascal recasing filtered to `[A-Za-z0-9]`, and every output char is in that class |
| Casing.FieldNameLeadingDigit | utils.go:15-19 | an input that starts with a digit gives a non-empty field name that starts with that digit |
| Casing.FieldNameKeepsText | utils.go:15-19 | lower-cased, a field name is exactly the input's letters and digits in order |
| Casing.JsonFilter | utils.go:24 | after the `jsonFieldNameRE` replace only `[a-z0-9_]` chars remain |
| Casing.JsonFilterOnSnake | utils.go:23-24 | on snake_case text, the regexp removes a final `'_'` and nothing else |
| Casing.ReplacePairs | utils.go:25 | the `"__"` to `"_"` pass never lengthens the text |
| Casing.ReplacePairsMembers | utils.go:25 | the pass keeps the set of chars that occur |
| Casing.ReplacePairsAppend | utils.go:25 | a prefix with no `"__"` and no final `'_'` passes through, and the pass restarts after it |
| Casing.ReplacePairsNoPairs | utils.go:25 | text with no `"__"` is left unchanged |
| Casing.ReplacePairsRun | utils.go:25 | a run of k underscores becomes ⌈k/2⌉ underscores |
| Casing.JSONFieldName | utils.go:22-29 | a JSON field name holds only `[a-z0-9_]` chars |
| Casing.JSONFieldNameOfSnake | utils.go:22-29 | the JSON field name is the snake-cased input, without a final `'_'`, passed through the `"__"` replace |
| Casing.JSONFieldNameIsSnake | utils.go:22-29 | when the snake-cased input has no `"__"` and no final `'_'`, the JSON field name equals it |
| Initialisms.CommonInitialisms | utils.go:176-215 | the 38 keys of the map, as a set |
| Initialisms.IsWordBreak | utils.go:133-143 | true exactly when the char is an upper-case letter, or a digit at the start or after a non-digit |
| Initialisms.CommonInitialismsWellShaped | utils.go:176-215 | every table entry has 2 to 5 chars, and its first two are upper-case letters |
| Initialisms.DigitRunBreaksOnce | utils.go:133-143 | in a run of digits only the first digit is a break; a lower-case letter is never a break |
| Initialisms.SuffixBreaks | utils.go:133-143 | a break away from position 0 depends only on the char and its predecessor, so a suffix has the same breaks there |
| Initialisms.LongestTablePrefixSpec | utils.go:148-152 | the lookup finds a table entry that prefixes `s` and no longer one, or 0 when there is none |
| Initialisms.BreakRunFromSpec | utils.go:155-165 | the counting loop yields the length of the leading run of breaks, capped at 5 |
| Initialisms.Initialism | utils.go:146-172 | the result is a prefix of `s` of at most 5 chars |
| Initialisms.InitialismSpec | utils.go:146-172 | a leading run of breaks always exists; the longest table prefix wins; with none, a run of n > 2 leading breaks gives its first n-1 chars, and anything else gives `""` |
| Initialisms.BreakRunUnique | utils.go:155-165 | the leading run of breaks has one length |
| Initialisms.InitialismAtFirstBreak | utils.go:102-107 | a non-empty initialism has at least 2 chars, and position 1 is a break |
| Initialisms.StartsWithInitialism | utils.go:146-172 | the two loops return `Initialism(s)` |
| Decompose.NextBreak | utils.go:99-100 | the first break at or after `j`: no break before it, and a break at it unless it is the end |
| Decompose.NextBreakUnique | utils.go:99-100 | any position with no break before it and a break or the end at it is the next break |
| Decompose.CutAt | utils.go:100-113 | the word that starts at `p` ends strictly after `p` and within `s` |
| Decompose.WordsFromTile | utils.go:99-120 | the collected words concatenate back to the rest of the input |
| Decompose.WordsFromCons | utils.go:99-120 | the words from `p` are the word up to the cut at `p`, followed by the words from that cut |
| Decompose.WordsFromNonEmpty | utils.go:99-120 | no collected word is empty |
| Decompose.CutAtBreak | utils.go:102-107 | at the first break `i` after `lastPos`, an initialism implies `i == lastPos + 1`; the jump to `i + len - 1` ends the word where the initialism ends, and a plain word ends at `i` |
| Decompose.PastNonBreak | utils.go:99-100 | a position that is not a break is passed over by the scan |
| Decompose.CutAtEnd | utils.go:117-120 | with no break after `lastPos`, the rest of the input is one word |
| Decompose.InitialismStep | utils.go:102-108 | taking the initialism and jumping keeps the words collected so far plus the words still to come equal to all the words |
| Decompose.WordStep | utils.go:111-113 | cutting `s[lastPos:i]` keeps that same equality |
| Decompose.EndStep | utils.go:117-120 | after the loop the last word is `s[lastPos:]`, or there is none when that is empty |
| Decompose.JoinStep | utils.go:122-128 | each join step appends `'_'` (after the first word) and the lower-cased word |
| Decompose.PascalCaseToSnakeCase | utils.go:93-131 | the scan and join loops return `Decomposed(s)` |
| Decompose.JoinLowered | utils.go:122-128 | the join loop returns the lower-cased words with `'_'` between neighbours |
| Decompose.JoinLower | utils.go:122-128 | joining lower-cased words equals lower-casing the joined words |
| Decompose.Decomposed | utils.go:93-131 | the decomposer's result: the words cut from the input with the library's table, lower-cased and joined by `'_'` |
| Decompose.DecomposedIsLoweredJoin | utils.go:93-131 | the output is the lower-cased join of non-empty words that tile the input |
| Vectors.DecomposeThisIsATest | utils_test.go:114-117 | `"ThisIsATest"` decomposes to `"this_is_a_test"` |
| Vectors.DecomposeHTTPBuffer | utils_test.go:118-121 | `"HTTPBuffer"` decomposes to `"http_buffer"` |
| Vectors.InitialismDE002 | utils.go:154-169 | on `"DE002PrimaryAccountNumber"` the table has no entry, and three leading breaks make the heuristic return `"DE"` |
| Vectors.DecomposeDE002 | utils_test.go:122-125 | `"DE002PrimaryAccountNumber"` decomposes to `"de_002_primary_account_number"` |
| Vectors.DecomposeFABScott | utils_test.go:126-129 | `"FABScott"` decomposes to `"fab_scott"` |
| Vectors.DecomposeEmpty | utils.go:117-120 | the empty text decomposes to the empty text |
| Vectors.DecomposeHTTPServer | utils.go:148-152 | `"HTTPServer"` decomposes to `"https_erver"`, because the longest table entry wins |
| Vectors.DecomposeABC | utils.go:154-169 | `"ABC"` decomposes to `"ab_c"`, because the heuristic returns one char fewer than the run of breaks |
| Vectors.SnakeCaseVectors | utils_test.go:90-97 | `"this is a test"` and `"This is a test"` snake-case to `"this_is_a_test"` |
| Vectors.PascalThisIsATest | utils_test.go:70-73 | `"this is a test"` Pascal-cases to `"ThisIsATest"` |
| Vectors.FieldNameThisIsATest | utils_test.go:14-17 | the field name of `"this is a test"` is `"ThisIsATest"` |
| Vectors.FieldNameThisIsASlashTest | utils_test.go:18-21 | the field name of `"this is a/test"` is `"ThisIsATest"`: the regexp removes the `'/'` |
| Vectors.CamelLeadingSpace | utils.go:41-74 | `" ab"` camel-cases to `"Ab"`: the leading space uses up the first-rune rule |
| Vectors.FieldNameFirst | utils.go:15-19 | the field name of `"1st"` is `"1st"`, which starts with a digit |
| Vectors.JSONFieldNameThisIsATest | utils_test.go:38-41 | the JSON field name of `"this is a test"` is `"this_is_a_test"` |
| Vectors.JSONFieldNameThisIsASlashTest | utils_test.go:42-45 | the JSON field name of `"this is a/test"` is `"this_is_a_test"` |
| Vectors.JSONFieldNameDoubleSpace | utils_test.go:46-49 | the JSON field name of `"this is  a/test"` is `"this_is_a_test"`: the `"__"` is halved |
| Vectors.JSONFieldNameTrailingSpace | utils_test.go:50-53 | the JSON field name of `"this is a test "` is `"this_is_a_test"`: the final `'_'` is dropped |
| Vectors.JSONFieldNameLeadingUnderscore | utils.go:11 | the JSON field name of `"_a"` is `"_a"`: `_$` removes only a final underscore |
| Vectors.JSONFieldNameThreeSpaces | utils.go:25 | the JSON field name of `"a   b"` is `"a__b"`: the replace makes a single pass |
| Vectors.PascalThenDecomposeABC | utils.go:92-93 | `"a b c"` snake-cases to `"a_b_c"`, but Pascal-casing then decomposing it gives `"ab_c"` |
| Vectors.PascalThenDecomposeIsNotSnake | utils.go:92-93 | there is an input where decomposing its Pascal-cased form differs from its snake_case |
| Vectors.PascalThenDecomposeABc | utils.go:93-131 | `"a bc"` round-trips: decomposing its Pascal-cased `"ABc"` gives `"a_bc"`, its snake_case |
| Vectors.PascalThenDecomposeID | utils.go:146-152 | `"i d"` snake-cases to `"i_d"`, but its Pascal-cased `"ID"` is a table entry and decomposes to `"id"` |
| RoundTrip.SnakeCaseSpacedWords | utils.go:77-86 | snake-casing lower-case words separated by single spaces puts `'_'` between the words |
| RoundTrip.MapCaseAfterSeparator | utils.go:48-68 | in Pascal mode, after a separator the mapping starts afresh: the mapping of `a + b` is the mapping of `a` followed by the mapping of `b` |
| RoundTrip.MapCaseSpacedWords | utils.go:48-68 | mapping spaced lower-case words in Pascal mode title-cases the first letter of each word and keeps the spaces |
| RoundTrip.DeleteSpacesJoin | utils.go:70 | removing the spaces from words that hold none, joined by single spaces, concatenates the words |
| RoundTrip.RecaseSpacedWords | utils.go:37-74 | Pascal-casing spaced lower-case words concatenates the words, each with its first letter title-cased |
| RoundTrip.TitleWordNoInitialism | utils.go:146-172 | no initialism is found at a word of one capital followed by lower-case letters |
| RoundTrip.TitleWordNextBreak | utils.go:99-100 | after the capital of such a word, the next break is where the next capital or the end is |
| RoundTrip.TitleWordCutAt | utils.go:100-113 | the decomposer's word at such a word ends right after it |
| RoundTrip.WordsOfTitleWords | utils.go:93-120 | the decomposer cuts concatenated words of one capital and then lower-case letters back into exactly those words |
| RoundTrip.LowerCapitalized | utils.go:127 | lower-casing each capitalized lower-case word gives the words back |
| RoundTrip.PascalThenDecomposeIsSnake | utils.go:93-131 | on lower-case words of two or more letters separated by single spaces, decomposing the Pascal-cased text equals snake-casing the text |

## Left out

- Unicode. Classification and case mapping are ASCII-only: letters are `A-Z`/`a-z` and digits are `0-9`. Every other char is a separator and is never a word break. Go classifies non-ASCII letters and digits with its Unicode tables, and then `isSeparator` and `isWordBreak` would differ. On ASCII, `unicode.ToTitle` equals upper-casing.
- Byte versus rune indices in `PascalCaseToSnakeCase` (`s[lastPos:]`, `len(initialism)` count bytes; `rs[i]` counts runes). On ASCII text the two coincide, so the model uses one index. Multi-byte UTF-8 input, where the source slices mid-rune, is not modelled.
- Invalid UTF-8 and the `utf8.RuneError` replacement that `strings.Map` and `[]rune` perform are not modelled. The same goes for `strings.Map` dropping a rune when its closure returns a negative value, which the closures here never do.
- The `regexp` engine. The two expressions on utils.go:10-11 are modelled by filters with the same effect:
  - `[^A-Za-z0-9]+` becomes a filter to `[A-Za-z0-9]`;
  - `[^a-z0-9_]+|_$` becomes "drop a final `'_'`, then keep `[a-z0-9_]`".
- The `defer` closure of `camelAndPascalCase` is modelled as the loop variable `prev`, updated after each char is mapped.
- In `PascalCaseToSnakeCase`, the join loop (utils.go:122-128) is the separate method `Decompose.JoinLowered`, which `Decompose.PascalCaseToSnakeCase` calls.
- The specification functions of the initialism lookup take the table as a parameter. The source has one global map; `Initialisms.CommonInitialisms` is that map as a set of its keys.
- The `testing` and `testify` harness of utils_test.go. Its vectors are lemmas in `Vectors`, stated on the specification functions that the methods are proved equal to.
