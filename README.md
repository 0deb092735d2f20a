# G4 abstraction: CLI templates and the G4 logger, modelled in Dafny

This project models two parts of the G4 abstraction library.

**The CLI factory** (`CliFactory`) turns a command-line template such as
`{{$ --Url:https://example.com --Timeout:30 }}` into a case-insensitive dictionary.
The steps, in order:

1. Take the text between the first `{{$` and the last `}}` and trim it.
2. Find each nested `{{$...}}` expression and replace it with the Base64 text of its
   UTF-8 bytes (its placeholder).
3. Cut the body into `--key:value` arguments.
4. Group the arguments by their upper-cased key. Each key is turned into PascalCase
   (`HTTP METHOD` becomes `HttpMethod`). A group's value is the single value it holds,
   or a JSON array when it holds several.
5. Serialise the dictionary to JSON, put the nested expressions back in place of their
   placeholders, parse the JSON again and copy it into a case-insensitive dictionary.

`ConfirmCli` says whether a text holds a template at all.

**The logger** (`G4Logger`) works in two stages.

- *Filters.* An entry passes the level filter when its level is not `None` and either it
  is at least `Information` or it equals the level configured for the logger or for
  `Default`. An entry passes the event-id filter when the configured id is 0 or equals
  the event's id.
- *Readable layout.* This is the default entry format:
  - a header with the three-letter level abbreviation and the time stamp;
  - the standard properties (`Logger`, `LogLevel`, `TimeStamp`, `MachineName`,
    `Message`), each padded to the longest key;
  - every other property on a line with its line breaks removed;
  - an exception block, when the entry carries an exception.

`FormatFields` merges the key/value pairs of a structured `$(...)` state into the
entry's fields, skipping `{OriginalFormat}`.

Layout of the Dafny project:

| file | module | what it holds |
|---|---|---|
| wrappers.dfy | `Wrappers` | `Option` and `Result` |
| chars.dfy | `Chars` | .NET white space, the ASCII character classes of the regexes, ASCII case mapping, `OrdinalIgnoreCase` equality |
| strings.dfy | `Strings` | `Trim`, occurrence search, ordinal `String.Replace`, and the replace-and-restore round trip |
| dictionary.dfy | `Dictionaries` | `Dictionary<string, V>` with an ordinal or ignore-case comparer, as an insertion-ordered value |
| base64.dfy | `Base64` | UTF-8 encoding and decoding, Base64 encoding and decoding, placeholders |
| json.dfy | `Json` | the default `System.Text.Json` string escaping, serialisation of string objects and arrays, the object parser |
| cli_patterns.dfy | `CliPatterns` | the five regular-expression properties of `CliFactory`, each written as a scanner |
| pascal_case.dfy | `PascalCase` | `ConvertToPascalCase`, step by step |
| grouping.dfy | `Grouping` | LINQ `GroupBy` over the argument keys |
| cli_factory.dfy | `CliFactory` | the nested-expression map, the key/value export, `ConvertToDictionary` |
| logger.dfy | `LogLevels`, `Logger` | the filters, the abbreviations, the padding, the readable layout (a `StringBuilder` class), `FormatFields` (a fields class) |

The source's loops are Dafny methods, each proved equal to a specification function:

- `ExportNestedExpressions`, `ExportKeyValues`, `ConvertToDictionary` and its two
  `Replace` loops;
- `AddDefaults`, `ConvertToReadableString` and `FormatFields`.

The properties are proved about those functions.

## Model

| member | source | states |
|---|---|---|
| Chars.ToUpper | src/G4.Abstraction.Cli/CliFactory.cs:206 | A lower-case ASCII letter becomes its capital. Every other character is kept. |
| Chars.ToLower | src/G4.Abstraction.Cli/CliFactory.cs:184 | A capital ASCII letter becomes its lower-case letter. Every other character is kept. |
| Chars.Upper | src/G4.Abstraction.Cli/CliFactory.cs:206 | `ToUpper` of a text keeps its length and upper-cases each character in place. |
| Chars.UpperIdempotent | src/G4.Abstraction.Cli/CliFactory.cs:206 | Upper-casing an upper-cased key changes nothing. |
| Chars.UpperOfLower | src/G4.Abstraction.Cli/CliFactory.cs:184 | Lower-casing a text never changes what it upper-cases to, so it never changes its ignore-case identity. |
| Strings.Trim | src/G4.Abstraction.Cli/CliFactory.cs:109 | The result has no white space at either end and is no longer than the input. All-white-space input trims to "". |
| Strings.TrimSurrounded | src/G4.Abstraction.Cli/CliFactory.cs:122 | Trimming removes exactly the white space around an already-trimmed text. |
| Strings.IndexOfChar | src/G4.Abstraction.Cli/CliFactory.cs:33 | Returns the first occurrence of a character, with none before it, or the end of the text when there is none. The key pattern `^[^:]*` stops at the first `:`, and the word split (line 180) cuts at the first `_`. |
| Strings.IndexOfCharAfter | src/G4.Abstraction.Cli/CliFactory.cs:33 | A prefix without the character moves its first occurrence along by the prefix's length. |
| Strings.FindFirst | src/G4.Abstraction.Cli/CliFactory.cs:21 | Returns the first occurrence at or after the start, with none before it. `None` means there is no occurrence. |
| Strings.FindLast | src/G4.Abstraction.Cli/CliFactory.cs:21 | Returns the last occurrence, with none after it. `None` means there is no occurrence. |
| Strings.ReplaceAtFirst | src/G4.Abstraction.Cli/CliFactory.cs:115 | `Replace` keeps the text before the first occurrence, puts the new value there and carries on after the match. |
| Strings.ReplaceAbsent | src/G4.Abstraction.Cli/CliFactory.cs:115 | `Replace` of a text that does not occur changes nothing. |
| Strings.ReplaceRoundTrip | src/G4.Abstraction.Cli/CliFactory.cs:113-135 | Replacing an expression by its placeholder and then the placeholder back by the expression restores the text. This holds when the placeholder does not already occur and no expression is preceded by a placeholder character. |
| Strings.Utf16Length | src/G4.Abstraction.Logging/G4Logger.cs:260 | `.Length` counts UTF-16 code units: between the character count and twice it, and equal to the character count if and only if every character lies in the Basic Multilingual Plane. |
| Strings.Utf16LengthConcat | src/G4.Abstraction.Logging/G4Logger.cs:332 | The UTF-16 length of a concatenation is the sum of the parts' lengths. |
| Strings.Utf16LengthUpper | src/G4.Abstraction.Logging/G4Logger.cs:260 | Upper-casing a key keeps its UTF-16 length. |
| Strings.PrefixOccurrences | src/G4.Abstraction.Cli/CliFactory.cs:45 | The occurrences in a prefix are exactly the occurrences of the whole text that end inside the prefix. |
| Strings.NoPairNoOccurrence | src/G4.Abstraction.Cli/CliFactory.cs:134 | A text in which two adjacent characters of a pattern never appear side by side does not contain the pattern. |
| Strings.ReplaceAfterPrefix | src/G4.Abstraction.Cli/CliFactory.cs:115 | When the prefix holds no first character of the searched text, `Replace` of a text that follows the prefix and ends the input rewrites just that text. |
| Dictionaries.Empty | src/G4.Abstraction.Cli/CliFactory.cs:105 | A new dictionary has no entries and the requested comparer. |
| Dictionaries.IndexOf | src/G4.Abstraction.Cli/CliFactory.cs:155 | Finds the entry whose key the comparer matches, with no earlier match. `None` means no entry matches. |
| Dictionaries.Set | src/G4.Abstraction.Cli/CliFactory.cs:155 | The indexer's setter keeps the entry count for a present key and appends `(k, v)` for a new one. |
| Dictionaries.SetEntries | src/G4.Abstraction.Cli/CliFactory.cs:215-225 | Setting a value keeps every existing key's text and position. Only the entry matching `k` can change its value. |
| Dictionaries.SetThenGet | src/G4.Abstraction.Cli/CliFactory.cs:223-225 | After `d[k] = v`, a lookup of `k'` gives `v` when the comparer matches `k'` with `k`, and the old result otherwise. |
| Dictionaries.SetKeepsKeysDistinct | src/G4.Abstraction.Cli/CliFactory.cs:151 | The setter never creates two keys the comparer matches. |
| Dictionaries.SameKeySymmetric | src/G4.Abstraction.Cli/CliFactory.cs:151 | Key comparison, ordinal or ignore-case, is symmetric. |
| Dictionaries.SameKeyTransitive | src/G4.Abstraction.Cli/CliFactory.cs:151 | Key comparison, ordinal or ignore-case, is transitive. |
| Dictionaries.IndexOfIs | src/G4.Abstraction.Cli/CliFactory.cs:155 | The first entry the comparer matches is the one found. |
| Dictionaries.Keys | src/G4.Abstraction.Logging/G4Logger.cs:257 | `Keys` lists every entry's key, in order. |
| Base64.Utf8Char | src/G4.Abstraction.Cli/CliFactory.cs:155 | A character is encoded in 1 to 4 UTF-8 bytes. |
| Base64.Utf8 | src/G4.Abstraction.Cli/CliFactory.cs:155 | A text's UTF-8 bytes number between its length and four times its length. |
| Base64.DecodeOneOfChar | src/G4.Abstraction.Cli/CliFactory.cs:155 | The bytes of any character decode back to that character and consume exactly its bytes. |
| Base64.Utf8RoundTrip | src/G4.Abstraction.Cli/CliFactory.cs:155 | Decoding the UTF-8 bytes of a text gives the text back. |
| Base64.DigitValue | src/G4.Abstraction.Cli/CliFactory.cs:155 | Reading a Base64 digit gives the 6-bit value that writes it. |
| Base64.Encode | src/G4.Abstraction.Cli/CliFactory.cs:155 | `Convert.ToBase64String` yields 4 characters per started group of 3 bytes. Every character is a Base64 digit or `=`. |
| Base64.EncodeRoundTrip | src/G4.Abstraction.Cli/CliFactory.cs:155 | Decoding the Base64 text of any byte sequence gives the bytes back. |
| Base64.Placeholder | src/G4.Abstraction.Cli/CliFactory.cs:155 | A non-empty expression has a non-empty placeholder made only of Base64 characters. |
| Base64.PlaceholderInjective | src/G4.Abstraction.Cli/CliFactory.cs:155 | For well-formed text (sequences of Unicode scalar values), two expressions share a placeholder if and only if they are equal. |
| Base64.Utf8OfTemplateOpen | src/G4.Abstraction.Cli/CliFactory.cs:155 | A text starting with `{{$` has the three UTF-8 bytes 0x7B, 0x7B, 0x24 first. |
| Base64.PlaceholderStart | src/G4.Abstraction.Cli/CliFactory.cs:155 | The placeholder of a text starting with `{{$` starts with `e3sk`. |
| Json.HexValue | src/G4.Abstraction.Cli/CliFactory.cs:138 | A hexadecimal digit reads as a value below 16. |
| Json.EscapeChar | src/G4.Abstraction.Cli/CliFactory.cs:129 | A character is written as itself if and only if it is plain (printable ASCII other than the quote, the backslash and `& ' + < >` and the backtick). Otherwise it becomes a backslash escape. |
| Json.EscapeString | src/G4.Abstraction.Cli/CliFactory.cs:129 | Escaping never shortens a text. |
| Json.EscapeStringConcat | src/G4.Abstraction.Cli/CliFactory.cs:129 | Escaping a concatenation escapes each part. |
| Json.EscapePlain | src/G4.Abstraction.Cli/CliFactory.cs:129 | A text of plain characters is written unchanged. |
| Json.EscapeUnchanged | src/G4.Abstraction.Cli/CliFactory.cs:129-134 | Escaping leaves a text unchanged if and only if all its characters are plain. |
| Json.ParseEscapeOf | src/G4.Abstraction.Cli/CliFactory.cs:138 | Every escape the serialiser writes, including surrogate pairs, reads back as the character it escapes. |
| Json.ParseStringBodyOf | src/G4.Abstraction.Cli/CliFactory.cs:138 | An escaped string body followed by the closing quote reads back as the string. The rest of the input is left alone. |
| Json.ParseStringOf | src/G4.Abstraction.Cli/CliFactory.cs:129-138 | A quoted JSON string reads back as the original string, leaving the rest of the input. |
| Json.ParseMembersOf | src/G4.Abstraction.Cli/CliFactory.cs:129-138 | The serialised members of an object read back as the same members, in order. |
| Json.ParseObjectRoundTrip | src/G4.Abstraction.Cli/CliFactory.cs:129-138 | Deserialising the serialisation of any string-to-string object gives back its entries, in order. |
| Json.ParseRawBody | src/G4.Abstraction.Cli/CliFactory.cs:138 | A string body with no quote, backslash or control character reads back as itself, up to the closing quote. |
| Json.ParseRawObject | src/G4.Abstraction.Cli/CliFactory.cs:138 | `{"k":"v"}` with such raw texts reads back as the one member `(k, v)`. |
| Json.PlainIsRaw | src/G4.Abstraction.Cli/CliFactory.cs:129 | A text the serialiser writes unchanged needs no escape when read back. |
| Json.BackslashIsEscape | src/G4.Abstraction.Cli/CliFactory.cs:134-138 | A backslash restored into the JSON text starts an escape: a restored `\t` is read back as a tab. |
| CliPatterns.TemplateSpan | src/G4.Abstraction.Cli/CliFactory.cs:21 | The template match starts right after the first `{{$` and ends at the last `}}`. |
| CliPatterns.TemplateSpanExists | src/G4.Abstraction.Cli/CliFactory.cs:21 | The template regex matches if and only if some `}}` starts at or after the end of some `{{$`. |
| CliPatterns.WrappedSpan | src/G4.Abstraction.Cli/CliFactory.cs:21 | A text that starts with `{{$` and ends with `}}` is template from after `{{$` to before the final `}}`. |
| CliPatterns.LastAtEnd | src/G4.Abstraction.Cli/CliFactory.cs:21 | A text ending with a pattern finds its last occurrence at the end. |
| CliPatterns.ConfirmCli | src/G4.Abstraction.Cli/CliFactory.cs:59-73 | True if and only if the text is not null and has a `{{$` followed, at or after its end, by `}}`. |
| CliPatterns.ExtractTemplate | src/G4.Abstraction.Cli/CliFactory.cs:109 | The clean template is the trimmed text of the template match, or "" when there is no match. It is always trimmed. |
| CliPatterns.ExtractWrapped | src/G4.Abstraction.Cli/CliFactory.cs:109 | A trimmed body wrapped in `{{$`, white space, white space and `}}` is extracted exactly, whatever `{{$` or `}}` it holds. |
| CliPatterns.LineEnd | src/G4.Abstraction.Cli/CliFactory.cs:45 | Returns the first line feed at or after a position, or the end of the text. |
| CliPatterns.NestedMatchEnd | src/G4.Abstraction.Cli/CliFactory.cs:45 | A match starts with `{{$` and ends with `}}`, with no line feed between. It ends at the last `}}` of the line (the greedy `.*`), and there is no match exactly when `{{$` is missing or no `}}` follows on its line. |
| CliPatterns.NestedExpressions | src/G4.Abstraction.Cli/CliFactory.cs:45-148 | Every nested match is `{{$`, then text without a line feed, then `}}`. |
| CliPatterns.NoNestedExpressions | src/G4.Abstraction.Cli/CliFactory.cs:45-148 | A text without `{{$` has no nested expressions. |
| CliPatterns.NestedExpressionsSkip | src/G4.Abstraction.Cli/CliFactory.cs:45-148 | Positions where no match begins are passed over by the scan. |
| CliPatterns.NoMatchBeforeExpression | src/G4.Abstraction.Cli/CliFactory.cs:45 | No match begins inside a text without `{{`. |
| CliPatterns.ExpressionOnOneLine | src/G4.Abstraction.Cli/CliFactory.cs:45 | The line of an expression that ends the text runs to the end of the text. |
| CliPatterns.MatchOfTrailingExpression | src/G4.Abstraction.Cli/CliFactory.cs:45 | An expression that ends the text is matched from its `{{$` to its end. |
| CliPatterns.NestedExpressionsOfOne | src/G4.Abstraction.Cli/CliFactory.cs:45-148 | One expression after a text without `{` is the only match, taken whole even when it holds `{{$` or `}}` of its own. |
| CliPatterns.GreedyOnOneLine | src/G4.Abstraction.Cli/CliFactory.cs:45 | `{{$a}} {{$b}}` on one line is a single match, not two. |
| CliPatterns.WhiteSpaceEnd | src/G4.Abstraction.Cli/CliFactory.cs:27 | `\s+` covers the run of white space from a position and stops at the first non-white character. |
| CliPatterns.ArgumentEnd | src/G4.Abstraction.Cli/CliFactory.cs:27 | The lazy argument match ends at the first place where the next `--` argument starts or the text ends. |
| CliPatterns.MatchStartsAre | src/G4.Abstraction.Cli/CliFactory.cs:27-119 | The argument matches begin at `--` lookbehind positions, in order and without overlap, and every such position the scan passes over lies inside a match. |
| CliPatterns.MatchStartsCons | src/G4.Abstraction.Cli/CliFactory.cs:27-119 | A match followed by the scan resumed after it keeps the three scan properties. |
| CliPatterns.ConsStartsFrom | src/G4.Abstraction.Cli/CliFactory.cs:27-119 | Adding the match at a `--` position keeps every start at a lookbehind position. |
| CliPatterns.ConsDisjoint | src/G4.Abstraction.Cli/CliFactory.cs:27-119 | A match that ends before the later ones keeps the matches disjoint. |
| CliPatterns.ConsCovers | src/G4.Abstraction.Cli/CliFactory.cs:27-119 | The positions passed over after a match are inside it or covered by the later matches. |
| CliPatterns.CoversFrom | src/G4.Abstraction.Cli/CliFactory.cs:27-119 | A position where no argument can start may be added to the front of the range the matches cover. |
| CliPatterns.ArgumentMatchesAt | src/G4.Abstraction.Cli/CliFactory.cs:119 | Each match is the text from its start to the end of the lazy argument match, one match per start. |
| CliPatterns.NonBlank | src/G4.Abstraction.Cli/CliFactory.cs:122-123 | The positions kept by the filter: in range, increasing, and exactly the matches that are not blank after trimming. |
| CliPatterns.NonBlankShift | src/G4.Abstraction.Cli/CliFactory.cs:122-123 | The kept positions among the matches after the first, shifted by one, are kept positions of the whole list, and every kept position after the first is among them. |
| CliPatterns.TrimAndDropEmpty | src/G4.Abstraction.Cli/CliFactory.cs:122-123 | Each kept argument is trimmed and not empty, and none is added. |
| CliPatterns.TrimAndDropEmptyIs | src/G4.Abstraction.Cli/CliFactory.cs:120-123 | The arguments are exactly the trimmed matches that are not empty, in order. |
| CliPatterns.TrimShift | src/G4.Abstraction.Cli/CliFactory.cs:120-123 | The trimmed matches kept from the matches after the first are the trimmed matches of the whole list at the shifted positions. |
| CliPatterns.TrimAndDropNothing | src/G4.Abstraction.Cli/CliFactory.cs:120-123 | Matches that are already trimmed and non-empty are kept unchanged. |
| CliPatterns.Arguments | src/G4.Abstraction.Cli/CliFactory.cs:119-123 | Every argument taken from the body is non-empty and trimmed. |
| CliPatterns.ArgumentsAre | src/G4.Abstraction.Cli/CliFactory.cs:119-123 | The arguments are the trimmed non-empty matches, each running from a `--` position to the end of the lazy match. |
| CliPatterns.TwoArgumentEnds | src/G4.Abstraction.Cli/CliFactory.cs:27 | In `--a:1 --b:2` the first argument ends before ` --b` and the second at the end. |
| CliPatterns.TwoArgumentMatches | src/G4.Abstraction.Cli/CliFactory.cs:119 | `--a:1 --b:2` gives the two matches `a:1` and `b:2`. |
| CliPatterns.TwoArguments | src/G4.Abstraction.Cli/CliFactory.cs:119-123 | `--a:1 --b:2` gives the arguments `a:1` and `b:2`. |
| CliPatterns.OneArgument | src/G4.Abstraction.Cli/CliFactory.cs:119-123 | `--` and a text without white space, not ending in `-`, gives that text as the single argument. |
| CliPatterns.NoArgumentMatches | src/G4.Abstraction.Cli/CliFactory.cs:27-119 | A body without `--` yields no arguments. |
| CliPatterns.ColonIndexUpper | src/G4.Abstraction.Cli/CliFactory.cs:206 | Upper-casing an argument does not move its first `:`. |
| CliPatterns.KeyOfPrefix | src/G4.Abstraction.Cli/CliFactory.cs:33-206 | An argument's key is the upper-cased text before its first `:`. |
| CliPatterns.KeyValueSplit | src/G4.Abstraction.Cli/CliFactory.cs:39-200 | An argument with a `:` is key text, `:` and value, with nothing lost. Without a `:` the value is "". |
| CliPatterns.KeyValueOf | src/G4.Abstraction.Cli/CliFactory.cs:33-39 | `k:v`, where `k` has no colon, has key `Upper(k)` and value `v` (which may contain further colons). |
| CliPatterns.KeyWithoutValue | src/G4.Abstraction.Cli/CliFactory.cs:33-39 | A bare `k` has key `Upper(k)` and value "". |
| PascalCase.RemoveInvalid | src/G4.Abstraction.Cli/CliFactory.cs:170-178 | Only `_`, ASCII letters and digits are kept. |
| PascalCase.Words | src/G4.Abstraction.Cli/CliFactory.cs:180 | Splitting on `_` while dropping empty entries gives non-empty words without `_`. |
| PascalCase.FlattenWords | src/G4.Abstraction.Cli/CliFactory.cs:180 | Joining the words gives the text without its underscores. |
| PascalCase.SanitizedLetters | src/G4.Abstraction.Cli/CliFactory.cs:170-178 | Marking white space, removing invalid characters and dropping underscores leaves exactly the ASCII letters and digits of the input, in order. |
| PascalCase.CapitalizeFirst | src/G4.Abstraction.Cli/CliFactory.cs:172-182 | Capitalising the first letter keeps the length. |
| PascalCase.CapsTailFrom | src/G4.Abstraction.Cli/CliFactory.cs:173 | Finds the first position after a capital from which the word holds only capitals and digits to its end. |
| PascalCase.UpperAfterDigit | src/G4.Abstraction.Cli/CliFactory.cs:174-186 | Exactly the lower-case letters right after a digit are capitalised. |
| PascalCase.InnerCapsMatch | src/G4.Abstraction.Cli/CliFactory.cs:175 | A match of the inner-capitals regex follows a capital and spans capitals only. |
| PascalCase.LowerInnerCaps | src/G4.Abstraction.Cli/CliFactory.cs:175-188 | Each character is kept, or is a capital after a capital turned to lower case. |
| PascalCase.UpperNormalizeWord | src/G4.Abstraction.Cli/CliFactory.cs:182-188 | The four per-word steps change the case of letters and nothing else. |
| PascalCase.PascalCaseLetters | src/G4.Abstraction.Cli/CliFactory.cs:167-192 | Up to case, the PascalCase key is exactly the ASCII letters and digits of the input. |
| PascalCase.PascalCaseAlphabet | src/G4.Abstraction.Cli/CliFactory.cs:167-192 | The key holds only ASCII letters and digits, one for each letter or digit of the input. |
| PascalCase.PascalCaseShape | src/G4.Abstraction.Cli/CliFactory.cs:172-186 | The key does not start with a lower-case letter and has no lower-case letter right after a digit. |
| PascalCase.NormalizeUpperWord | src/G4.Abstraction.Cli/CliFactory.cs:173-188 | A word of capitals and digits becomes capitalised: its first capital is kept and later letters are lower-cased, except a letter after a digit. |
| PascalCase.OneWord | src/G4.Abstraction.Cli/CliFactory.cs:178-191 | An input of letters and digits only is one word, normalised. |
| PascalCase.TwoWords | src/G4.Abstraction.Cli/CliFactory.cs:171-191 | Two alphanumeric words separated by a space become the two normalised words joined. |
| PascalCase.SeparatorUnderscores | src/G4.Abstraction.Cli/CliFactory.cs:170-178 | A run of white space and underscores becomes underscores only, at least as many as it had characters. |
| PascalCase.WordsAfterUnderscores | src/G4.Abstraction.Cli/CliFactory.cs:180 | Leading underscores produce no word. |
| PascalCase.MarkSeparated | src/G4.Abstraction.Cli/CliFactory.cs:171 | Marking white space in a separator between two words of letters and digits changes only the separator. |
| PascalCase.RemoveInvalidSeparated | src/G4.Abstraction.Cli/CliFactory.cs:172 | Removing invalid characters from a separator between two words of letters and digits changes only the separator. |
| PascalCase.WordsSeparated | src/G4.Abstraction.Cli/CliFactory.cs:180 | Two non-empty words of letters and digits separated by underscores split into exactly those two words. |
| PascalCase.TwoWordsApart | src/G4.Abstraction.Cli/CliFactory.cs:167-192 | Two words of letters and digits separated by any run of white space and underscores become the two normalised words joined. |
| PascalCase.ExampleHttpMethod | src/G4.Abstraction.Cli/CliFactory.cs:167-192 | `HTTP METHOD` becomes `HttpMethod`. |
| PascalCase.ExampleApp9Name | src/G4.Abstraction.Cli/CliFactory.cs:173-186 | `APP9NAME` becomes `App9Name`. |
| PascalCase.ExampleAbc | src/G4.Abstraction.Cli/CliFactory.cs:183-184 | `ABC` becomes `Abc`, as the comment says. |
| PascalCase.ExampleAb9Cd | src/G4.Abstraction.Cli/CliFactory.cs:185-186 | `Ab9cd` becomes `Ab9Cd`, as the comment says. |
| PascalCase.ExampleABcDEf | src/G4.Abstraction.Cli/CliFactory.cs:187-188 | `ABcDEf` stays `ABcDEf`. The regex as written does not produce the `AbcDef` its comment names. |
| PascalCase.NotIdempotent | src/G4.Abstraction.Cli/CliFactory.cs:167-192 | The conversion is not idempotent: `A B` becomes `AB`, which becomes `Ab`. |
| Grouping.GroupIndex | src/G4.Abstraction.Cli/CliFactory.cs:206 | Returns the group already holding a key, if any. `None` means no group has it. |
| Grouping.Filter | src/G4.Abstraction.Cli/CliFactory.cs:206 | A key's arguments are at most all the arguments. |
| Grouping.DistinctKeysAre | src/G4.Abstraction.Cli/CliFactory.cs:206 | The group keys have no duplicates and are exactly the keys of the arguments. |
| Grouping.GroupByIs | src/G4.Abstraction.Cli/CliFactory.cs:206 | The groups are the distinct keys in order of first appearance. Each group holds every argument with that key, in input order. |
| Grouping.FilterNonEmpty | src/G4.Abstraction.Cli/CliFactory.cs:206-219 | The group of an argument's own key is never empty. |
| Grouping.GroupsNonEmpty | src/G4.Abstraction.Cli/CliFactory.cs:206-219 | Every group is non-empty and all its arguments share its key, so the empty-group branch never runs. |
| Grouping.FilterKeys | src/G4.Abstraction.Cli/CliFactory.cs:206 | A group holds only arguments with its key. |
| Grouping.SameGroup | src/G4.Abstraction.Cli/CliFactory.cs:206 | Arguments whose key texts are equal ignoring case fall into the same group. |
| CliFactory.ExpressionMap | src/G4.Abstraction.Cli/CliFactory.cs:148-156 | The nested-expression map ignores case. Its keys and values are non-empty, and every key is one of the matches. |
| CliFactory.ExportNestedExpressions | src/G4.Abstraction.Cli/CliFactory.cs:145-160 | The loop builds exactly the map of every nested match to its placeholder. |
| CliFactory.ExpressionMapDistinct | src/G4.Abstraction.Cli/CliFactory.cs:151 | No two keys of the map are equal ignoring case. |
| CliFactory.ExpressionMapContains | src/G4.Abstraction.Cli/CliFactory.cs:152-156 | Every nested match has an entry. |
| CliFactory.ExpressionMapValues | src/G4.Abstraction.Cli/CliFactory.cs:155 | Each value is the placeholder of a match that equals its key ignoring case. With case variants, the value may come from a later variant. |
| CliFactory.ExpressionMapPlaceholders | src/G4.Abstraction.Cli/CliFactory.cs:155 | Without case variants among the matches, each key maps to its own placeholder. |
| CliFactory.PlaceholderThroughJson | src/G4.Abstraction.Cli/CliFactory.cs:129-155 | A placeholder survives JSON serialisation, and so can be restored, if and only if it contains no `+`. |
| CliFactory.Values | src/G4.Abstraction.Cli/CliFactory.cs:225 | Gives each argument's value, in order. |
| CliFactory.KeyValueMap | src/G4.Abstraction.Cli/CliFactory.cs:203 | The results dictionary ignores case. |
| CliFactory.ExportKeyValues | src/G4.Abstraction.Cli/CliFactory.cs:163-230 | The loop over the groups builds exactly `KeyValueMap` of the groups. |
| CliFactory.KeyValueMapNext | src/G4.Abstraction.Cli/CliFactory.cs:206-226 | Each group sets its PascalCase key to its single value or to the JSON array of its values. |
| CliFactory.KeyValueMapGet | src/G4.Abstraction.Cli/CliFactory.cs:203-226 | A lookup gives the value of the last group whose PascalCase key matches, ignoring case, so later groups overwrite earlier ones. |
| CliFactory.KeyValueMapDistinct | src/G4.Abstraction.Cli/CliFactory.cs:203-225 | The results never hold two keys equal ignoring case. |
| CliFactory.LastValueAt | src/G4.Abstraction.Cli/CliFactory.cs:223-225 | The last matching group determines the value. |
| CliFactory.LookupKey | src/G4.Abstraction.Cli/CliFactory.cs:206-225 | Take an argument whose PascalCase key clashes with no other key. The results map that key to the value of all the arguments sharing its key. |
| CliFactory.ReplaceAllNext | src/G4.Abstraction.Cli/CliFactory.cs:113-116 | Each step of the hiding loop replaces one expression by its placeholder. |
| CliFactory.RestoreAllNext | src/G4.Abstraction.Cli/CliFactory.cs:132-135 | Each step of the restoring loop replaces one placeholder by its expression. |
| CliFactory.HideNestedExpressions | src/G4.Abstraction.Cli/CliFactory.cs:113-116 | The loop replaces every key of the map by its value, in map order. |
| CliFactory.RestoreNestedExpressions | src/G4.Abstraction.Cli/CliFactory.cs:132-135 | The loop replaces every value of the map by its key, in map order. |
| CliFactory.FromMembers | src/G4.Abstraction.Cli/CliFactory.cs:138 | The deserialised dictionary compares keys ordinally. |
| CliFactory.FromMembersDistinct | src/G4.Abstraction.Cli/CliFactory.cs:138 | Members whose names are distinct ignoring case are kept as they are, in order. |
| CliFactory.CopyIgnoreCaseIs | src/G4.Abstraction.Cli/CliFactory.cs:141 | The ignore-case copy holds the same entries when no two keys are equal ignoring case. Otherwise it fails, as the constructor throws. |
| CliFactory.KeysDistinctNames | src/G4.Abstraction.Cli/CliFactory.cs:141 | An ignore-case dictionary's keys are pairwise distinct ignoring case. |
| CliFactory.ConvertToDictionary | src/G4.Abstraction.Cli/CliFactory.cs:80-142 | Computes exactly the conversion: template, hidden expressions, arguments, grouping, JSON, restoration, ignore-case copy. A null or empty text gives an empty ignore-case dictionary. |
| CliFactory.ConvertWithoutNested | src/G4.Abstraction.Cli/CliFactory.cs:103-142 | Without nested expressions, the conversion succeeds and equals the grouped key/value map of the template's arguments: the JSON step changes nothing. |
| CliFactory.ConvertWithoutTemplate | src/G4.Abstraction.Cli/CliFactory.cs:103-142 | A text without a template converts to an empty dictionary. |
| CliFactory.ConvertLookup | src/G4.Abstraction.Cli/CliFactory.cs:80-142 | Consider a template without nested expressions and an argument whose PascalCase key clashes with no other. The conversion succeeds and maps that key to the argument's value, or to the JSON array of the values of all the arguments with its key. |
| CliFactory.TemplateOfOne | src/G4.Abstraction.Cli/CliFactory.cs:109 | `{{$ --k:e }}` has the clean template `--k:e`. |
| CliFactory.FindOne | src/G4.Abstraction.Cli/CliFactory.cs:145-156 | In `--k:e`, with `k` a key holding no white space, `:` or `{`, the nested-expression map has the single entry of `e` and its placeholder. |
| CliFactory.ReplaceOne | src/G4.Abstraction.Cli/CliFactory.cs:113-116 | Hiding that expression turns `--k:e` into `--k:` and the placeholder. |
| CliFactory.HideOne | src/G4.Abstraction.Cli/CliFactory.cs:112-116 | Both at once: the map has one entry, and the hidden body is `--k:` and the placeholder. |
| CliFactory.ExportOne | src/G4.Abstraction.Cli/CliFactory.cs:119-126 | The single argument `k:placeholder` gives the one result `(PascalCase key, placeholder)`. |
| CliFactory.KeyHoldsNoPlaceholder | src/G4.Abstraction.Cli/CliFactory.cs:134-155 | No PascalCase key contains the placeholder of a nested expression: the placeholder has a lower-case `s` right after the digit `3`, which a PascalCase key never has. |
| CliFactory.PlaceholderNotInHead | src/G4.Abstraction.Cli/CliFactory.cs:132-135 | A placeholder does not occur in the JSON object's text before its value, given it does not occur in the key. |
| CliFactory.RestoreInRawObject | src/G4.Abstraction.Cli/CliFactory.cs:132-135 | Restoring the expression in `{"key":"placeholder"}` rewrites the value only. |
| CliFactory.JsonOfOne | src/G4.Abstraction.Cli/CliFactory.cs:129-138 | Serialising the one member, restoring the expression and parsing gives the member with the expression as its value. |
| CliFactory.CopyOne | src/G4.Abstraction.Cli/CliFactory.cs:141 | The ignore-case copy of one member holds it, and a lookup of its key gives its value. |
| CliFactory.ConvertNestedRoundTrip | src/G4.Abstraction.Cli/CliFactory.cs:100-142 | `{{$ --k:e }}`, with `k` a key holding no white space, `:` or `{`, and `e` one nested expression that needs no JSON escape and whose placeholder has no `+`, converts to the single entry (PascalCase of `k`, `e`): the expression is hidden, carried through the argument scan and the JSON text, and comes back whole. |
| Logger.Configuration | src/G4.Abstraction.Logging/G4Logger.cs:213-216 | Uses the configured levels, or an ignore-case map holding only `Default` = `Information`. |
| Logger.ConfirmLogLevel | src/G4.Abstraction.Logging/G4Logger.cs:204-225 | `None` is never enabled, and any other level from `Information` up always is. A lower level is enabled if and only if it equals the level configured for the logger's name or for `Default`. |
| Logger.DefaultConfiguration | src/G4.Abstraction.Logging/G4Logger.cs:213-224 | Without a configuration, exactly the levels at or above `Information`, other than `None`, are enabled. |
| Logger.ConfiguredLevelEnabled | src/G4.Abstraction.Logging/G4Logger.cs:219-224 | The level configured for a logger is always enabled for it. |
| Logger.EventIdAdmits | src/G4.Abstraction.Logging/G4Logger.cs:108-111 | A configured event id of 0 admits every event. Any other admits exactly its own id. |
| Logger.Admits | src/G4.Abstraction.Logging/G4Logger.cs:102-111 | An entry that is written has a level other than `None` and a matching event id. With no event filter, every level from `Information` up is written. |
| Logger.GetLogLevel | src/G4.Abstraction.Logging/G4Logger.cs:339-348 | Each named level has its own three-letter abbreviation. `Trace` and every unnamed value give `TRC`. |
| Logger.AbbreviationsDistinct | src/G4.Abstraction.Logging/G4Logger.cs:339-348 | The named levels from `Trace` to `Critical` never share an abbreviation. |
| Logger.GetIndentation | src/G4.Abstraction.Logging/G4Logger.cs:329-336 | The padding is spaces that bring the key's UTF-16 length to the maximum length. It fails, as `new string(' ', n)` throws, exactly when the key is longer. |
| Logger.MaxLength | src/G4.Abstraction.Logging/G4Logger.cs:257-260 | The maximum is the UTF-16 length of some key and at least every key's UTF-16 length. It is undefined, as `Max` throws, exactly for no keys. |
| Logger.KeyLineAligned | src/G4.Abstraction.Logging/G4Logger.cs:156-166 | A property line is four spaces, the key, its padding of spaces, `: `, the value and the line break. The text before the colon is 4 + the maximum length in UTF-16 code units whatever the key, so every colon sits in the same column. |
| Logger.KeyLineLayout | src/G4.Abstraction.Logging/G4Logger.cs:156-166 | Where each piece of a property line lies: the key after four spaces, the padding, the `: ` and then the value and line break. |
| Logger.AlignedWidth | src/G4.Abstraction.Logging/G4Logger.cs:156-166 | A line whose key and padding fill `maxLength` UTF-16 units has 4 + maxLength units before its `:`. |
| Logger.SpacedWidth | src/G4.Abstraction.Logging/G4Logger.cs:260-332 | Four spaces, a key and a padding of spaces measure 4 + the key's UTF-16 length + the padding. |
| Logger.SurrogatePairIndentation | src/G4.Abstraction.Logging/G4Logger.cs:329-336 | A key of one character outside the Basic Multilingual Plane counts as 2: padding it to 2 gives no spaces and padding it to 1 fails. |
| Logger.Pairs | src/G4.Abstraction.Logging/G4Logger.cs:246-263 | The detailed lines cover exactly the entries whose key is not one of the six standard keys (ordinal match). |
| Logger.MaxLengthFits | src/G4.Abstraction.Logging/G4Logger.cs:257-279 | The computed maximum covers every key, so no padding in the entry fails. |
| Logger.Readable | src/G4.Abstraction.Logging/G4Logger.cs:228-286 | No entry results exactly when the message is empty or has no time stamp. An entry starts with the level/time-stamp header and, when there is an exception, ends with the exception block; without one it is exactly the header, the default lines and the detail lines. |
| Logger.NewLineRemoved | src/G4.Abstraction.Logging/G4Logger.cs:278 | With a one-character line break, a detail value keeps no line break. |
| Logger.CarriageReturnNewLineSurvives | src/G4.Abstraction.Logging/G4Logger.cs:278 | With `\r\n` as the line break, the single `Replace` pass can leave a `\r\n` in a detail value. |
| Logger.StringBuilder.constructor | src/G4.Abstraction.Logging/G4Logger.cs:269 | A builder starts with the given text. |
| Logger.StringBuilder.Append | src/G4.Abstraction.Logging/G4Logger.cs:159-164 | `Append` adds the text at the end. |
| Logger.StringBuilder.AppendLine | src/G4.Abstraction.Logging/G4Logger.cs:165 | `AppendLine` adds the text and then the line break. |
| Logger.AddKey | src/G4.Abstraction.Logging/G4Logger.cs:156-166 | Appends exactly the aligned line for the key and its value. |
| Logger.AddIfPresent | src/G4.Abstraction.Logging/G4Logger.cs:176-200 | Appends the key's line when the message holds the key, and nothing otherwise. |
| Logger.AddDefaults | src/G4.Abstraction.Logging/G4Logger.cs:153-201 | Appends the lines of `Logger`, `LogLevel`, `TimeStamp`, `MachineName` and `Message`, in that order, each only when present. |
| Logger.AddExceptionEntry | src/G4.Abstraction.Logging/G4Logger.cs:231-243 | Appends the ruled `- Exception(s) -` header, then the exception text and a line break. |
| Logger.AddDetails | src/G4.Abstraction.Logging/G4Logger.cs:275-280 | Appends one aligned line per pair, with line breaks removed from the value. |
| Logger.ConvertToReadableString | src/G4.Abstraction.Logging/G4Logger.cs:228-286 | The builder calls produce exactly the readable entry. |
| Logger.CopyPairs | src/G4.Abstraction.Logging/G4Logger.cs:310-320 | Copying the pairs keeps the fields' comparer. |
| Logger.CopyPairsNext | src/G4.Abstraction.Logging/G4Logger.cs:310-320 | Each pair is copied into the fields unless its key is `{OriginalFormat}`, in any case. |
| Logger.CopyPairsGet | src/G4.Abstraction.Logging/G4Logger.cs:310-320 | After the copy, a key holds the value of its last pair, or its old value when no pair has it. |
| Logger.FormatFieldsSpec | src/G4.Abstraction.Logging/G4Logger.cs:289-326 | Anything other than a `$(...)` pair list leaves the fields unchanged. Otherwise every key takes its last pair's value, and `Message` becomes the text of its value, "" when absent. |
| Logger.OriginalFormatSkipped | src/G4.Abstraction.Logging/G4Logger.cs:312-316 | The `{OriginalFormat}` field is never changed by the merge. |
| Logger.OriginalFormatNotPaired | src/G4.Abstraction.Logging/G4Logger.cs:313 | No pair is ever taken for `{OriginalFormat}`. |
| Logger.Fields.constructor | src/G4.Abstraction.Logging/G4Logger.cs:289 | The fields object holds the given entries. |
| Logger.Fields.Put | src/G4.Abstraction.Logging/G4Logger.cs:319 | `fields[key] = value` sets one entry through the dictionary setter. |
| Logger.FormatFields | src/G4.Abstraction.Logging/G4Logger.cs:289-326 | The loop leaves the fields equal to the merged fields of the state. |

## Left out

- The .NET regular-expression engine. Each of the five patterns, and the ones inside
  `ConvertToPascalCase`, is written as a scanner. Only the behaviour of these patterns
  is modelled, not arbitrary patterns passed to the private `ConvertToDictionary`
  overload.
- Base64.PlaceholderInjective: holds only for well-formed text, because strings are
  modelled as sequences of Unicode scalar values. A .NET `string` may also hold an
  unpaired surrogate, which `Encoding.UTF8.GetBytes` writes as the bytes of U+FFFD. Two
  expressions such as `{{$\uD800}}` and `{{$\uFFFD}}` then share a placeholder, and the
  first restoring `Replace` writes one of them back into both values. The model has no
  such texts.
- Case mapping and the `\w`, `[a-z]` and `[A-Z]` classes are ASCII-only. Culture-aware
  `ToUpper`/`ToLower` of non-ASCII letters is not modelled.
- `JsonSerializer` is modelled for what the conversion uses:
  - serialising an object or array of strings with the default escaping, and parsing
    such an object back;
  - numbers, nested values and comments are not modelled;
  - a `null` member value, which the deserialiser accepts and stores as `null`, makes
    the model's parser fail, so the conversion returns `Err(InvalidJson)` where the
    source would return a dictionary holding `null`;
  - a JSON text the parser rejects becomes an error result.
- Placeholders containing `+` (see `CliFactory.PlaceholderThroughJson`). The
  serialiser writes `+` as the escape `\u002B`, so the restoring `Replace` does not find such a
  placeholder. The value then keeps the placeholder text after parsing. The model
  computes exactly that; it does not claim the expression comes back in that case.
- Exceptions are error results.
  - `ConvertToDictionary` returns `Err` where the source throws: unparsable JSON after
    restoration, or two keys equal ignoring case in the final copy.
  - `GetIndentation` and `MaxLength` return `None` where `new string(' ', n)` and
    `Max` throw.
  - `Readable` returns `None` for an empty message or a missing time stamp.
  - `Log` catches these and raises `LogError`; that event is left out.
- `Log` as a whole is left out: the clock (`DateTime.UtcNow`), `Environment.MachineName`,
  the formatter delegate, the `LogCreating`/`LogCreated`/`LogError` events,
  `WriteTrace` and the trace listeners. Its two filters are `Logger.Admits`, and the
  entry's values are parameters of `ConvertToReadableString`.
- The JSON, SIMPLE and XML entry formats of `Log` are left out. Only the default
  readable layout is modelled.
- `Environment.NewLine` is a parameter (`newLine`).
- Objects in the log message are modelled as their text (`Option<string>`, `None` for
  `null`), since `$"{value}"` and `StringBuilder.Append(object)` only use that text.
- Recognising a state as `IReadOnlyList<KeyValuePair<string, object>>` is a datatype
  case (`State.KeyValuePairs`) rather than a runtime type test.
- `IsEnabled` is `ConfirmLogLevel` itself.
- `BeginScope`, `InitializeTraceListener`, `NewLogger`, the logger provider and the
  settings files are I/O or configuration plumbing and are not part of this model.
- `LogLevel` is modelled as a 32-bit enum value compared by its integer order.
- Logger.Readable: states the header, the exception block, the whole entry when there
  is no exception, and when an entry is produced. The exact text with an exception is
  fixed by `Logger.ConvertToReadableString`'s equality with it and by the per-step
  methods' contracts.
- CliFactory.ConvertToDictionary: the end-to-end round trip for nested expressions is
  proved only in `CliFactory.ConvertNestedRoundTrip`, i.e. for one argument `--k:e`
  with one nested expression `e`. It does not cover:
  - several expressions at once: interference between placeholders of different
    expressions is not analysed;
  - a placeholder containing `+`: the serialiser escapes it, and it is not restored;
  - an expression holding `"`, `\` or a control character: the restored text is read
    as JSON, so such characters are reinterpreted or make the conversion fail with
    `InvalidJson`;
  - a key holding a `{`, which could begin a nested expression of its own. A key with
    white space or `:` is not read back as written by the source either: the argument
    or the key ends there.

### Where the code and its documentation differ (the model follows the code)

- The conversion is not total: unparsable restored JSON and clashing keys make the
  source throw, and the model returns an error result.
- `ConvertToPascalCase` is not idempotent (`PascalCase.NotIdempotent`).
- The comment's `ABcDEf -> AbcDef` is not what the regex does (`PascalCase.ExampleABcDEf`).
- The nested-expression pattern is used without `Singleline`, so `.` stops at a line
  feed.
- `$` in the argument pattern also matches before a final line feed.
- A nested expression is put back into the JSON text without escaping, and that text
  is then parsed. A `\` inside the expression therefore starts a JSON escape
  (`Json.BackslashIsEscape`: `C:\temp` comes back with a tab). A `"` ends the string
  early, which usually makes the parse fail (`InvalidJson`). The expression is not
  always returned character for character.
- With a `\r\n` line break, removing line breaks from detail values is a single
  `Replace` pass, which can leave a line break behind
  (`Logger.CarriageReturnNewLineSurvives`).
