# Method-signature parser and delimiter splitter, in Dafny

This project models the two utilities of the `com.epam.mjc` string-processing exercise
and proves what they do:

- `StringSplitter.splitByDelimiters` joins every delimiter string into one string and
  hands it to `java.util.StringTokenizer`, so every character of every delimiter string
  separates tokens. The result is the list of maximal non-empty runs of other characters,
  in source order.
- `MethodParser.parseFunction` reads a Java-like method signature with six independent
  "first match" regex scans (`parseSourceString`): the method name, the argument text,
  the type and name of each `", "`-separated argument fragment, the access modifier and
  the return type. A missing name, argument text, argument type or argument name makes
  `Objects.requireNonNull` throw; the modifier and the return type are simply left null.

Modules, one per concern:

| file | module | contents |
|---|---|---|
| `wrappers.dfy` | `Wrappers` | `Option` and `Result` |
| `java_text.dfy` | `JavaText` | the regex character classes, `String.trim`, and `String.split(", ")` with its dropping of trailing empty strings |
| `patterns.dfy` | `Patterns` | the six regular expressions as explicit scanners (`MatchAt`), a declarative reading of each (`Matches`), the leftmost-start search of `Matcher.find`, and `ParseSourceString` |
| `method_parser.dfy` | `MethodParser` | `Argument`, `MethodSignature`, `ParseError`; `Parse`, the specification of `parseFunction`; `ParseFunction`, its loop; the field-by-field lemmas |
| `string_splitter.dfy` | `StringSplitter` | the delimiter set, the specification `Tokens`, the imperative `SplitByDelimiters` with the StringTokenizer loop, and the lemmas about tokens |
| `rendering.dfy` | `Rendering` | the documented signature format written out from a `MethodSignature`, the round trip through `Parse`, and the three documented examples |

How the regular expressions are read. Each pattern is a scanner that returns, for one
start index, the end of the match that java.util.regex reports there. Its greedy
quantifiers make that the longest span the pattern matches at that index;
`MatchAtIsLongest` proves that for all six patterns. `Matcher.find` then takes the
leftmost start index. Some details of the Java text are modelled exactly:

- `\\s` is `[ \t\n\x0B\f\r]` and `\\w` is `[a-zA-Z_0-9]`.
- `$` also matches in front of a final line terminator.
- Lookahead and lookbehind conditions are checked where the regex checks them.
- `String.trim` removes code points up to U+0020.
- In `",\s"` (line 38) and `"(^\s*[a-zA-Z]+)"` (line 41) the `\s` sits in a Java string
  literal with a single backslash. It is the string escape for one space, so the split
  separator is exactly comma-space and the type pattern allows only leading spaces.

Where the prose description of the parser and the Java code differ, the model follows
the code:

- A one-word argument fragment such as `"x"` does not fail. The type pattern and the
  name pattern both match the word, so type and name are both that word
  (`OneWordFragment`).
- The access modifier is the first lowercase run that *starts* with `private`, `public`
  or `protected`, anywhere in the string. In `"void publicize()"` it is `"publicize"`.
  It is not an exact-word match.
- The access modifier and the return type are not trimmed. In `"public  void f()"` the
  return type is `" void"`.
- An empty delimiter collection gives `[source]` only for a non-empty source. An empty
  source always gives no tokens.

## Model

| member | source | states |
|---|---|---|
| JavaText.TrimStart | src/main/java/com/epam/mjc/MethodParser.java:32 | the front half of String.trim: the result is a suffix of the input, everything cut off is a code point up to U+0020, and the result does not start with one |
| JavaText.TrimEnd | src/main/java/com/epam/mjc/MethodParser.java:32 | the back half of String.trim: the result is a prefix of the input, everything cut off is a code point up to U+0020, and the result does not end with one |
| JavaText.Trim | src/main/java/com/epam/mjc/MethodParser.java:32 | String.trim: the result neither starts nor ends with a code point up to U+0020, and it is the input less a leading and a trailing run of such code points |
| JavaText.TrimIdentity | src/main/java/com/epam/mjc/MethodParser.java:32 | a string that neither starts nor ends with a trimmable code point is its own trim |
| JavaText.TrimStartDrops | src/main/java/com/epam/mjc/MethodParser.java:32 | trimming the front removes exactly the leading run of trimmable code points |
| JavaText.TrimEndDrops | src/main/java/com/epam/mjc/MethodParser.java:32 | trimming the back removes exactly the trailing run of trimmable code points |
| JavaText.TrimLettersThenSpaces | src/main/java/com/epam/mjc/MethodParser.java:32 | a letter run followed by `\s` characters trims to the letters, which is how the name match loses its trailing whitespace |
| JavaText.TrimSliceLettersThenSpaces | src/main/java/com/epam/mjc/MethodParser.java:42 | the same for a slice: letters then `\s` in s[i..e] trim to s[i..j] |
| JavaText.TrimBlanksThenLetters | src/main/java/com/epam/mjc/MethodParser.java:41 | leading spaces then a letter run trim to the letter run |
| JavaText.TrimSliceBlanksThenLetters | src/main/java/com/epam/mjc/MethodParser.java:41 | the same for a prefix s[..e] of the fragment, which is what the type match is |
| JavaText.CommaSpacePieces | src/main/java/com/epam/mjc/MethodParser.java:38 | the cutting step of String.split(", ") before trailing empty strings are dropped: there is always at least one piece (JoinOfPieces and PiecesHaveNoCommaSpace state what the pieces are) |
| JavaText.JoinOfPieces | src/main/java/com/epam/mjc/MethodParser.java:38 | joining the pieces around every ", " with ", " gives the string back |
| JavaText.PiecesHaveNoCommaSpace | src/main/java/com/epam/mjc/MethodParser.java:38 | no piece cut at the occurrences of ", " contains ", " |
| JavaText.DropTrailingEmpty | src/main/java/com/epam/mjc/MethodParser.java:38 | split with limit 0 keeps a prefix of the pieces, everything it drops is empty, and the last piece it keeps is not empty |
| JavaText.SplitOnCommaSpace | src/main/java/com/epam/mjc/MethodParser.java:38 | String.split(", "): no fragment contains ", ", and a single fragment is the whole input or non-empty |
| JavaText.PiecesOfJoin | src/main/java/com/epam/mjc/MethodParser.java:38 | cutting at ", " recovers exactly the pieces of a join when no piece contains a comma |
| JavaText.SplitOfJoin | src/main/java/com/epam/mjc/MethodParser.java:38 | String.split(", ") recovers comma-free pieces from their join when the last piece is not empty |
| JavaText.JoinLast | src/main/java/com/epam/mjc/MethodParser.java:38 | a join of two or more pieces is the join of all but the last, then ", ", then the last piece |
| JavaText.JoinOfSplit | src/main/java/com/epam/mjc/MethodParser.java:38 | joining the fragments that split returns gives the (trimmed) argument text back |
| Patterns.SpacesThenWord | src/main/java/com/epam/mjc/MethodParser.java:52-53 | the `\s*\w+` part of the return-type pattern: a match from index i is non-empty and ends inside the string (ReturnTypeAfterModifier and ReturnTypeAtStart state its text) |
| Patterns.MatchAt | src/main/java/com/epam/mjc/MethodParser.java:32-53 | the scanner for each of the six patterns: a match found at index i ends at or after i and inside the string (MatchAtIsLongest states that it is the longest match the pattern has there) |
| Patterns.RunEnd | src/main/java/com/epam/mjc/MethodParser.java:32 | a greedy quantifier over one character class: every character up to the end is in the class, and the character at the end is not |
| Patterns.RunIsMaximal | src/main/java/com/epam/mjc/MethodParser.java:32 | no run of the class from the same start goes past the end RunEnd reports |
| Patterns.RunSkip | src/main/java/com/epam/mjc/MethodParser.java:32 | a run of the class that is not followed by a class character ends where RunEnd says |
| Patterns.KeywordIsLower | src/main/java/com/epam/mjc/MethodParser.java:50 | the keyword lookahead of the modifier pattern holding at an index means a keyword occurs there and its characters are lowercase |
| Patterns.MethodNameIsLongest | src/main/java/com/epam/mjc/MethodParser.java:32 | the name scanner reports a span `[a-zA-Z]+\s*(?=\()` matches, and it matches no longer span from that start |
| Patterns.ArgumentListIsLongest | src/main/java/com/epam/mjc/MethodParser.java:34 | the same for `(?<=\()[a-zA-Z\s,]*(?=\))` |
| Patterns.ArgumentTypeIsLongest | src/main/java/com/epam/mjc/MethodParser.java:41 | the same for `^ *[a-zA-Z]+` |
| Patterns.ArgumentNameIsLongest | src/main/java/com/epam/mjc/MethodParser.java:42 | the same for `[a-zA-Z]+\s*$` |
| Patterns.AccessModifierIsLongest | src/main/java/com/epam/mjc/MethodParser.java:50 | the same for the modifier pattern: a keyword lookahead, then `[a-z]+` |
| Patterns.ReturnTypeIsLongest | src/main/java/com/epam/mjc/MethodParser.java:52-53 | the same for both alternatives of the return-type pattern |
| Patterns.MatchAtIsLongest | src/main/java/com/epam/mjc/MethodParser.java:32-53 | for every pattern and start index, the scanner gives the longest span the pattern matches there, and nothing when it matches nothing there |
| Patterns.FirstFrom | src/main/java/com/epam/mjc/MethodParser.java:64-68 | the search returns the first index with a hit and no hit before it, or nothing when no index has a hit |
| Patterns.FirstMatchFrom | src/main/java/com/epam/mjc/MethodParser.java:62-65 | the scanner hits at the start the search returns and nowhere before it; with no result, it hits nowhere |
| Patterns.ParseSourceStringIsFind | src/main/java/com/epam/mjc/MethodParser.java:58-69 | parseSourceString gives null exactly when the pattern matches nowhere, and otherwise the text of the leftmost-longest match |
| Patterns.FirstMatchIsLeftmostLongest | src/main/java/com/epam/mjc/MethodParser.java:64-65 | the search finds a match exactly when the pattern matches somewhere, and what it finds starts leftmost and is the longest at that start |
| Patterns.LeftmostLongestIsUnique | src/main/java/com/epam/mjc/MethodParser.java:64-65 | any leftmost-longest match is the text parseSourceString returns |
| Patterns.FirstHit | src/main/java/com/epam/mjc/MethodParser.java:64-65 | a scanner hit with no hit further left is the text parseSourceString returns |
| MethodParser.ParseArgument | src/main/java/com/epam/mjc/MethodParser.java:41-43 | one iteration of the loop: a fragment fails only with the requireNonNull error for its own missing type or its own missing name (ArgumentFields states when each happens and what a success holds) |
| MethodParser.ArgumentTypeMatch | src/main/java/com/epam/mjc/MethodParser.java:41 | a found type match is the fragment's prefix made of spaces and then a maximal letter run |
| MethodParser.ArgumentTypeIsLeadingRun | src/main/java/com/epam/mjc/MethodParser.java:41 | the trimmed type is the non-empty letter run that the fragment starts with, after leading spaces |
| MethodParser.NameScanStart | src/main/java/com/epam/mjc/MethodParser.java:42 | the leftmost name match starts a letter run, never inside one |
| MethodParser.ArgumentNameMatch | src/main/java/com/epam/mjc/MethodParser.java:42 | a found name match is a letter run that starts a run, followed by `\s` characters up to a point where `$` holds |
| MethodParser.ArgumentNameIsTrailingRun | src/main/java/com/epam/mjc/MethodParser.java:42 | the trimmed name is the non-empty letter run the fragment ends with, up to trailing `\s` |
| MethodParser.ArgumentFields | src/main/java/com/epam/mjc/MethodParser.java:41-43 | a fragment fails on its type exactly when the type pattern matches nowhere in it. It fails on its name exactly when the type is found and the name pattern matches nowhere. Otherwise its type is the leading letter run and its name the trailing one |
| MethodParser.OneWordFragment | src/main/java/com/epam/mjc/MethodParser.java:41-42 | a one-word fragment gives that word as both type and name |
| MethodParser.TypeOfTwoWords | src/main/java/com/epam/mjc/MethodParser.java:41 | in "T N" the type pattern first matches T |
| MethodParser.NameOfTwoWords | src/main/java/com/epam/mjc/MethodParser.java:42 | in "T N" the name pattern first matches N |
| MethodParser.TwoWordFragment | src/main/java/com/epam/mjc/MethodParser.java:41-43 | a fragment "T N" of two letter words becomes the argument (T, N) |
| MethodParser.Fragments | src/main/java/com/epam/mjc/MethodParser.java:36-38 | there are no fragments exactly when the trimmed argument text is empty. Otherwise the fragments join back with ", " to the trimmed text, and none contains ", " |
| MethodParser.ParseEach | src/main/java/com/epam/mjc/MethodParser.java:40-44 | the loop succeeds exactly when every fragment parses, giving one argument per fragment in order; otherwise it gives the error of the first fragment that fails |
| MethodParser.ParseEachExtends | src/main/java/com/epam/mjc/MethodParser.java:43 | one more fragment that parses appends its argument to the list |
| MethodParser.ParseEachAll | src/main/java/com/epam/mjc/MethodParser.java:40-44 | when fragment k parses to argument k for every k, the loop gives exactly that list |
| MethodParser.ParseEachStops | src/main/java/com/epam/mjc/MethodParser.java:41-42 | the first fragment that fails decides the error |
| MethodParser.ParseSteps | src/main/java/com/epam/mjc/MethodParser.java:28-46 | the steps of parseFunction in order: it fails on the name exactly when the name match is null, on the argument text exactly when the name is found and the argument-text match is null, and any other failure is the first failing fragment's |
| MethodParser.ArgumentsFailOnFragment | src/main/java/com/epam/mjc/MethodParser.java:40-44 | a failing loop fails at a first failing fragment, with that fragment's error, which is a missing argument type or argument name |
| MethodParser.ParseFailures | src/main/java/com/epam/mjc/MethodParser.java:32-44 | the parse fails on the name exactly when the name pattern matches nowhere. It fails on the argument text exactly when the name is found and the list pattern matches nowhere. Any other failure is the first failing fragment's |
| MethodParser.MethodNameMatch | src/main/java/com/epam/mjc/MethodParser.java:32 | a found name match is leftmost-longest: letters, then `\s` characters, with '(' after them |
| MethodParser.MethodNameField | src/main/java/com/epam/mjc/MethodParser.java:32 | the method name is a non-empty letter run that starts the leftmost name match, followed there only by `\s` |
| MethodParser.ArgumentsField | src/main/java/com/epam/mjc/MethodParser.java:34-44 | the argument text is the leftmost-longest `(...)` span of letters, `\s` and commas. There is one argument per fragment, in order, each the leading and trailing letter run of its fragment. Empty parentheses give no arguments |
| MethodParser.AccessModifierField | src/main/java/com/epam/mjc/MethodParser.java:50 | the modifier is absent exactly when no keyword occurs anywhere. Otherwise it is the lowercase run at the first keyword occurrence and starts with that keyword |
| MethodParser.ReturnTypeSkipsModifier | src/main/java/com/epam/mjc/MethodParser.java:52 | after a keyword and one `\s` at the start, the return type is the `\s*\w+` text right after them |
| MethodParser.ReturnTypeAfterModifier | src/main/java/com/epam/mjc/MethodParser.java:52 | that text is optional `\s` and a maximal `\w` run, not trimmed |
| MethodParser.ReturnTypeFromStart | src/main/java/com/epam/mjc/MethodParser.java:53 | without a keyword at the start, the return type is the `\s*\w+` text at the start |
| MethodParser.ReturnTypeAtStart | src/main/java/com/epam/mjc/MethodParser.java:53 | that text is optional `\s` and a maximal `\w` run, not trimmed |
| MethodParser.ParseFunction | src/main/java/com/epam/mjc/MethodParser.java:28-56 | the Java method's steps and loop compute exactly Parse: same failures in the same order, arguments appended one per fragment, and modifier and return type set last |
| StringSplitter.Concat | src/main/java/com/epam/mjc/StringSplitter.java:21-23 | Collectors.joining(): a character occurs in the joined delimiter string exactly when it occurs in one of the delimiter strings |
| StringSplitter.DelimiterChars | src/main/java/com/epam/mjc/StringSplitter.java:21-25 | the separator set holds exactly the characters of the delimiter strings |
| StringSplitter.DelimiterCharsAreJoined | src/main/java/com/epam/mjc/StringSplitter.java:21-25 | the separator set holds exactly the characters of the joined delimiter string given to the tokenizer |
| StringSplitter.RunLength | src/main/java/com/epam/mjc/StringSplitter.java:25 | the run of non-delimiters at the front stops at the first delimiter or at the end |
| StringSplitter.Tokens | src/main/java/com/epam/mjc/StringSplitter.java:25-29 | every token is non-empty and contains no delimiter character |
| StringSplitter.SkipDelimiters | src/main/java/com/epam/mjc/StringSplitter.java:27 | the scan skips exactly the delimiters at the current position |
| StringSplitter.ScanToken | src/main/java/com/epam/mjc/StringSplitter.java:28 | the scan stops at the first delimiter or at the end |
| StringSplitter.TokensSkip | src/main/java/com/epam/mjc/StringSplitter.java:27-28 | skipping delimiters does not change the remaining tokens |
| StringSplitter.TokensRun | src/main/java/com/epam/mjc/StringSplitter.java:28 | a maximal run of non-delimiters is the next token |
| StringSplitter.SplitByDelimiters | src/main/java/com/epam/mjc/StringSplitter.java:18-32 | the while loop collects exactly the tokens of the source under the delimiter characters |
| StringSplitter.ConcatTokens | src/main/java/com/epam/mjc/StringSplitter.java:27-29 | the tokens joined in order are the source with every delimiter character removed |
| StringSplitter.TokensTokenize | src/main/java/com/epam/mjc/StringSplitter.java:25-29 | the source is the tokens laid out between runs of delimiters, with a non-empty run between neighbouring tokens, so each token is bounded by a delimiter or an edge on both sides |
| StringSplitter.TokenizationIsUnique | src/main/java/com/epam/mjc/StringSplitter.java:25-29 | any such layout of the source has exactly the tokens the split finds, so the tokens are the maximal runs |
| StringSplitter.EdgeCases | src/main/java/com/epam/mjc/StringSplitter.java:21-29 | an empty source gives no tokens. A non-empty source without delimiter characters, in particular under no delimiters at all, gives itself as the only token |
| StringSplitter.SameCharactersSameTokens | src/main/java/com/epam/mjc/StringSplitter.java:21-25 | delimiter collections with the same characters, however grouped, give the same tokens |
| StringSplitter.ReorderedDelimiters | src/main/java/com/epam/mjc/StringSplitter.java:21-25 | reordering the delimiter collection does not change the tokens |
| StringSplitter.DelimiterCharsExample | src/main/java/com/epam/mjc/StringSplitter.java:21-23 | {",", ";"} and {",;"} give the same two separator characters |
| StringSplitter.SplitExample | src/main/java/com/epam/mjc/StringSplitter.java:11-17 | "a,b;;c" split by "," and ";" or by ",;" gives a, b, c in order |
| Rendering.NameOfLayout | src/main/java/com/epam/mjc/MethodParser.java:32 | in a prefix of words and spaces followed by name(...), the name pattern first matches the name |
| Rendering.ArgumentTextOfLayout | src/main/java/com/epam/mjc/MethodParser.java:34 | in the same layout, the argument-list pattern first matches everything between the parentheses |
| Rendering.FragmentsOfArgumentText | src/main/java/com/epam/mjc/MethodParser.java:36-38 | the rendered argument text splits back into one "type name" fragment per argument |
| Rendering.ParseRenderedArguments | src/main/java/com/epam/mjc/MethodParser.java:40-44 | the loop reads the rendered fragments back into the same arguments |
| Rendering.ModifierPresent | src/main/java/com/epam/mjc/MethodParser.java:50 | a keyword and a space at the start are the modifier |
| Rendering.ModifierAbsent | src/main/java/com/epam/mjc/MethodParser.java:50 | with no keyword anywhere, the modifier is absent |
| Rendering.RenderedName | src/main/java/com/epam/mjc/MethodParser.java:32 | the name pattern reads back the rendered method name |
| Rendering.RenderedArgumentText | src/main/java/com/epam/mjc/MethodParser.java:34 | the argument-list pattern reads back the rendered argument text |
| Rendering.RenderedModifier | src/main/java/com/epam/mjc/MethodParser.java:50 | the modifier pattern reads back the rendered modifier, or nothing when there is none |
| Rendering.ReturnTypeAfterKeyword | src/main/java/com/epam/mjc/MethodParser.java:52 | after "keyword " the return-type pattern reads the following `\w` word |
| Rendering.ReturnTypeFirst | src/main/java/com/epam/mjc/MethodParser.java:53 | with no keyword present, the return-type pattern reads the `\w` word at the start |
| Rendering.RenderedReturnType | src/main/java/com/epam/mjc/MethodParser.java:52-53 | the return-type pattern reads back the rendered return type |
| Rendering.ParseFromFields | src/main/java/com/epam/mjc/MethodParser.java:28-56 | when each pattern reads back its field, parseFunction assembles exactly that signature |
| Rendering.RoundTrip | src/main/java/com/epam/mjc/MethodParser.java:13-53 | every signature written in the documented format parses back to itself. That format is an optional keyword, a `\w` return type, letter-word names and "type name" arguments separated by ", ", with no keyword anywhere else when the modifier is absent |
| Rendering.LogExample | src/main/java/com/epam/mjc/MethodParser.java:21 | "private void log(String value)" parses to private, void, log, [(String, value)] |
| Rendering.DistortExample | src/main/java/com/epam/mjc/MethodParser.java:22 | "Vector3 distort(int x, int y, int z, float magnitude)" parses to no modifier, Vector3, distort and the four arguments in order |
| Rendering.CurrentDateTimeExample | src/main/java/com/epam/mjc/MethodParser.java:23 | "public DateTime getCurrentDateTime()" parses to public, DateTime, getCurrentDateTime and no arguments |

## Left out

- java.util.regex in general is not modelled. Only the six patterns of `parseFunction` are, each as a hand-written scanner. That each scanner returns the span the backtracking matcher reports rests on the greedy-longest argument in `MatchAtIsLongest`, not on a model of the engine.
- Character classes are the ASCII ones of the default flags; Unicode character classes are not modelled. A `char` here is a Unicode scalar value, so a supplementary character is one `char`, as `StringTokenizer` treats a surrogate pair in the delimiters as one code point. A Java `String` may also hold an unpaired surrogate, which this model cannot represent.
- `java.util.StringTokenizer` and `Collectors.joining` are modelled by what they return: a character-set tokenizer and plain concatenation. Their internal cursor fields are not modelled.
- `null` arguments to either method are not modelled; both Java methods would throw. The `NullPointerException`s of `Objects.requireNonNull` are the `Failure` values of `ParseError`.
- `MethodSignature` and `MethodSignature.Argument` are not part of this model. Their constructor and the two setters are modelled as datatype values and field updates. The object identity and mutability of the Java objects are not modelled.
- The `ArrayList`s built by both methods are modelled as sequences that the loops extend. The Java `List` objects and their aliasing are not modelled.
