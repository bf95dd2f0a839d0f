# minigrep line search, modelled in Dafny

This project models the line search of `minigrep` from chapter 12 of the
Rust book, together with `longest` from the chapter 10 lifetimes example.

- `Config::build` checks the number of command-line arguments. It takes the
  query and the file path from them, and builds a `Config`.
- `search` and `search_case_insensitive` walk the lines of a text with a
  zero-based index and keep the lines that contain the query. The
  case-insensitive search compares the lowered line with the lowered query.
- Each kept line becomes a display form:
  - with highlighting, every occurrence of the match is marked and the line
    keeps its indentation;
  - without highlighting, the line is trimmed;
  - with line numbers on, the entry is prefixed with `"{index} : "`.
- The entries are collected in source order.
- `longest` returns the longer of two strings, comparing their `str::len`
  byte lengths. On a tie it returns the second one.

Both searches are methods with a `while` loop. Each is proved against the
specification function `Minigrep.SearchResults`, and the properties of the
search are lemmas about that function. The standard-library pieces the
search relies on are modelled as functions, each in its own module, with
lemmas about them:

- `str::lines` in `LineSplit`;
- `str::contains` and `str::find` in `Substrings`;
- `str::replace` in `Replace`, specified by cutting the string at the
  pattern (`Split`) and joining the pieces with the replacement (`Join`);
- `str::trim` in `Whitespace`;
- ASCII `to_lowercase` in `Ascii`;
- decimal formatting of the index in `Decimal`;
- UTF-8 byte lengths in `Utf8`.

The module `MinigrepExamples` restates the unit tests of `lib.rs` as lemmas
about `SearchResults`.

Conventions of the model:

- Strings are sequences of Unicode scalar values (`seq<char>`).
- The green colouring of a match is written `Mark(s) == "[" + s + "]"`.
- The environment variables `IGNORE_CASE` and `SHOW_LINE_NUMBERS` are
  boolean parameters that say whether `env::var` succeeds for each of them
  (the variable is set and its value is valid Unicode).

## Model

| member | source | states |
|---|---|---|
| Minigrep.Build | chapter-12/minigrep/src/lib.rs:14-32 | an error exactly when fewer than two arguments follow the program name, with the message "Insufficient arguments. Expected 2, received n"; otherwise the query is `args[1]`, the file path `args[2]`, and the two flags say whether `env::var` succeeds for `IGNORE_CASE` and `SHOW_LINE_NUMBERS` (the variable is set and its value is valid Unicode) |
| Minigrep.BuildIgnoresExtraArguments | chapter-12/minigrep/src/lib.rs:22-23 | arguments after the file path do not change the result |
| Minigrep.Matches | chapter-12/minigrep/src/lib.rs:59 | the line test: for the exact search, the query occurs in the line at some offset; for the case-insensitive search (the lowered `contains` at line 84), some slice of the line equals the query up to case |
| Minigrep.Mark | chapter-12/minigrep/src/lib.rs:62 | the stand-in for `green()`: the text between an opening and a closing bracket, two characters longer |
| Minigrep.Highlight | chapter-12/minigrep/src/lib.rs:61-62 | defines the highlighted line: `replace` of the query by its marked form in the exact search, and of the original-cased text at the first match by its marked form in the case-insensitive one (lines 85-90); its meaning is stated by `ExactHighlightMarksEveryOccurrence` and `InsensitiveHighlightMarksEveryCopy` |
| Minigrep.Numbered | chapter-12/minigrep/src/lib.rs:68 | `format!("{} : {}", index, body)`: the result starts with digits that read back as the index, then " : ", then the body unchanged |
| Minigrep.Entry | chapter-12/minigrep/src/lib.rs:60-71 | the display form of a kept line (also lines 85-99): with line numbers on, it starts with the index in digits and " : "; with neither highlighting nor line numbers, it is the slice of the line after its indentation, with no white space at either end and only white space after it |
| Minigrep.EntryNumbered | chapter-12/minigrep/src/lib.rs:67-68 | with line numbers on, an entry is the entry without line numbers prefixed by `"{index} : "` (also lines 95-96) |
| Minigrep.MatchOffset | chapter-12/minigrep/src/lib.rs:86 | the offset at which the lowered query is found: the slice there equals the query up to case, and no earlier offset has such a slice |
| Minigrep.LowerMatchesAt | chapter-12/minigrep/src/lib.rs:84-86 | a slice of the line equals the query up to case exactly when the lowered query occurs in the lowered line at that offset |
| Minigrep.MatchOffsetIsFind | chapter-12/minigrep/src/lib.rs:86 | the match offset is the first offset at which `find` finds the lowered query in the lowered line |
| Minigrep.MatchedSliceIsQueryUpToCase | chapter-12/minigrep/src/lib.rs:86-87 | the corrected marked text is as long as the query, lowers to the lowered query, and is the text of the line at the offset where `find` finds the lowered query in the lowered line |
| Minigrep.MatchedSlice | chapter-12/minigrep/src/lib.rs:86-87 | the corrected original-cased text at the first match: as long as the query, equal to it up to case, and the text of the line at the first offset whose slice equals the query up to case (`MatchOffset`) |
| Minigrep.MatchedSliceAsWritten | chapter-12/minigrep/src/lib.rs:86-87 | the text the code as written takes, skipping the byte offset of the match as characters and taking the query's byte length as characters: a slice of the line no longer than the lowered query's byte length |
| Minigrep.AsWrittenAgreesOnAscii | chapter-12/minigrep/src/lib.rs:86-87 | on ASCII text, the slice the code as written takes (byte offset used as a character count) is the intended one |
| Minigrep.AsWrittenMarksWrongSlice | chapter-12/minigrep/src/lib.rs:86-87 | for the line "é rust" and the query "rust", the code as written takes "ust", which is not the query in any casing; the intended slice is "rust" |
| Minigrep.NumberedInjective | chapter-12/minigrep/src/lib.rs:67-68 | a numbered entry determines both its line index and its content |
| Minigrep.SearchResults | chapter-12/minigrep/src/lib.rs:57-76 | a search never returns more entries than there are lines |
| Minigrep.SearchResultsStep | chapter-12/minigrep/src/lib.rs:58-72 | one more line either appends its entry at the end, when it matches, or leaves the results unchanged |
| Minigrep.SearchResultsSnoc | chapter-12/minigrep/src/lib.rs:58-72 | searching a text with one more line at the end appends at most that line's entry, at the index of that line |
| Minigrep.MatchingIndices | chapter-12/minigrep/src/lib.rs:58-59 | the indices of exactly the lines that match, in strictly increasing order |
| Minigrep.SearchResultsAreEntries | chapter-12/minigrep/src/lib.rs:58-72 | the search is a filter followed by a map: as many entries as matching lines, and the j-th entry is the display form of the j-th matching line at that line's index |
| Minigrep.SensitiveKeptByInsensitive | chapter-12/minigrep/src/lib.rs:59 | every line the exact search keeps, the case-insensitive search keeps as well |
| Minigrep.PlainEntriesAreTrimmed | chapter-12/minigrep/src/lib.rs:64-65 | without highlighting and line numbers, each entry is its line trimmed, with no white space at either end |
| Minigrep.ExactHighlightMarksEveryOccurrence | chapter-12/minigrep/src/lib.rs:61-62 | with highlighting and without line numbers, an exact-search entry at any index is its untrimmed line cut at every occurrence of the query, with the marked query put back into each cut; joining the pieces with the query gives the line back, and no piece contains the query |
| Minigrep.InsensitiveHighlightMarksEveryCopy | chapter-12/minigrep/src/lib.rs:86-89 | with highlighting and without line numbers, a case-insensitive entry at any index is its untrimmed line cut at every copy of the original-cased text found at the first match, with that text marked in each cut; joining the pieces with that text gives the line back, and no piece contains it |
| Minigrep.ExactEntry | chapter-12/minigrep/src/lib.rs:59-72 | the loop body of `search` builds the display form of a line that contains the query |
| Minigrep.Search | chapter-12/minigrep/src/lib.rs:56-77 | the loop returns exactly the search results of the lines of the text, and no more entries than lines |
| Minigrep.MarkFirstMatch | chapter-12/minigrep/src/lib.rs:86-89 | lowering, finding and cutting out the original-cased match, then replacing it everywhere, is the case-insensitive highlight |
| Minigrep.InsensitiveEntry | chapter-12/minigrep/src/lib.rs:84-100 | the loop body of `search_case_insensitive` builds the display form of a kept line |
| Minigrep.SearchCaseInsensitive | chapter-12/minigrep/src/lib.rs:79-105 | the loop, with the query lowered once, returns exactly the case-insensitive search results of the lines of the text, and no more entries than lines |
| Substrings.FindFirst | chapter-12/minigrep/src/lib.rs:86 | `find`: an offset at which the pattern occurs with no occurrence before it, or none when the pattern occurs nowhere |
| Substrings.Contains | chapter-12/minigrep/src/lib.rs:59 | `contains` (here and on the lowered line at line 84): computed from `find`, and holds exactly when the pattern occurs at some offset |
| Substrings.EmptyAlwaysContained | chapter-12/minigrep/src/lib.rs:59 | the empty query is found at offset 0 of every line, so it keeps every line |
| Substrings.ContainsLower | chapter-12/minigrep/src/lib.rs:84 | an occurrence survives lowering both sides |
| Substrings.LoweringAddsMatches | chapter-12/minigrep/src/lib.rs:84 | the converse fails: "Duct tape." does not contain "duct", but its lowered form does |
| Substrings.MissingFirstChar | chapter-12/minigrep/src/lib.rs:59 | a string without the first character of the pattern does not contain it |
| Substrings.ContainsSkipsPrefix | chapter-12/minigrep/src/lib.rs:59 | a prefix without the first character of the pattern does not change whether the pattern is contained |
| Ascii.Lower | chapter-12/minigrep/src/lib.rs:80-84 | lowering keeps the length and lowers each character on its own |
| Ascii.LowerSlice | chapter-12/minigrep/src/lib.rs:84-87 | lowering commutes with slicing, so an offset in the lowered line names the same characters in the original |
| Ascii.LowerIdempotent | chapter-12/minigrep/src/lib.rs:80-84 | lowering twice is lowering once |
| Ascii.LowerAppend | chapter-12/minigrep/src/lib.rs:84 | lowering a concatenation lowers each part |
| Replace.Split | chapter-12/minigrep/src/lib.rs:62 | part of the specification of `replace`: the pieces between the leftmost non-overlapping occurrences of the pattern (for an empty pattern, an empty piece, then one piece per character, then a second empty piece); there is at least one piece and the first is a prefix of the string |
| Replace.Join | chapter-12/minigrep/src/lib.rs:62 | part of the specification of `replace`: defines the pieces with the separator between each two neighbours; its meaning is stated by `SplitJoinRoundTrip` and `ReplaceIsJoinOfSplit` |
| Replace.ReplaceAll | chapter-12/minigrep/src/lib.rs:62 | defines `replace` (also at line 89) one step at a time: at an occurrence of the pattern emit the replacement and skip the pattern, otherwise copy one character; its meaning is stated by `ReplaceIsJoinOfSplit` and `ReplaceAtFirst` |
| Replace.SplitAtFirst | chapter-12/minigrep/src/lib.rs:62 | the leftmost rule: `split` cuts at the first offset that `find` reports, and splits the rest after that occurrence |
| Replace.ReplaceAtFirst | chapter-12/minigrep/src/lib.rs:62 | `replace` copies the text before the first occurrence that `find` reports, emits the replacement in its place and carries on after it |
| Replace.ReplaceOverlapExample | chapter-12/minigrep/src/lib.rs:89 | example: overlapping occurrences are replaced from the left, so replacing "aa" in "abaaa" by "[aa]" gives "ab[aa]a" |
| Replace.ReplaceIsJoinOfSplit | chapter-12/minigrep/src/lib.rs:62 | `replace` is `split` on the pattern followed by `join` with the replacement, for empty and non-empty patterns |
| Replace.SplitJoinRoundTrip | chapter-12/minigrep/src/lib.rs:62 | joining the split pieces with the pattern gives the string back |
| Replace.ReplaceWithItself | chapter-12/minigrep/src/lib.rs:62 | replacing a pattern by itself changes nothing |
| Replace.SplitPiecesAreFree | chapter-12/minigrep/src/lib.rs:62 | no piece that `split` cuts out still contains a non-empty pattern |
| Replace.ReplaceWithoutMatch | chapter-12/minigrep/src/lib.rs:62 | without an occurrence of a non-empty pattern, `replace` changes nothing |
| Replace.ReplaceEmptyIsJoin | chapter-12/minigrep/src/lib.rs:62 | with an empty pattern, `replace` puts the replacement before every character and at the end: the characters joined with the replacement, between two empty pieces |
| Replace.ReplaceEmptyPatternExample | chapter-12/minigrep/src/lib.rs:62 | example: replacing the empty pattern in "ab" with "X" gives "XaXbX" |
| Replace.ReplaceSkipsPrefix | chapter-12/minigrep/src/lib.rs:62 | `replace` copies a prefix without the first character of the pattern unchanged |
| Replace.ReplaceAtMatch | chapter-12/minigrep/src/lib.rs:62 | at an occurrence of the pattern, `replace` emits the replacement and carries on after it |
| Whitespace.Trim | chapter-12/minigrep/src/lib.rs:65 | the result is a slice of the line with no white space at either end, and only white space is cut off before and after it |
| Whitespace.TrimTidy | chapter-12/minigrep/src/lib.rs:65 | a line with no white space at either end is left as it is |
| Whitespace.TrimIdempotent | chapter-12/minigrep/src/lib.rs:65 | trimming twice is trimming once |
| Whitespace.TrimIndented | chapter-12/minigrep/src/lib.rs:92 | white space in front of a tidy text is all that trimming removes |
| Decimal.NatToString | chapter-12/minigrep/src/lib.rs:68 | the index is written as digits only, with no leading zero unless it is zero |
| Decimal.ParseOfNatToString | chapter-12/minigrep/src/lib.rs:68 | reading the written index back gives the index |
| Decimal.NatToStringInjective | chapter-12/minigrep/src/lib.rs:68 | different indices are written differently |
| Utf8.ByteLen | chapter-12/minigrep/src/lib.rs:86-87 | the UTF-8 length of a string is at least its number of characters, with equality exactly when every character is ASCII |
| LineSplit.Lines | chapter-12/minigrep/src/lib.rs:58 | `lines` gives no lines for an empty text, and no line contains a newline |
| LineSplit.LinesOfJoin | chapter-12/minigrep/src/lib.rs:58 | the lines of lines joined with newlines are those lines again, when the last one is not empty and none ends in a carriage return |
| LineSplit.LinesJoinRoundTrip | chapter-12/minigrep/src/lib.rs:58 | a text without carriage returns is its lines joined with newlines, plus its final newline if it has one |
| LineSplit.LinesCrLf | chapter-12/minigrep/src/lib.rs:58 | a line ended by "\r\n" becomes the first line with its "\r" removed |
| LineSplit.LoneCrKept | chapter-12/minigrep/src/lib.rs:58 | example: a "\r" that is not followed by "\n" stays in the line ("a\r" is the one line "a\r") |
| LineSplit.LinesCons | chapter-12/minigrep/src/lib.rs:58 | a line followed by a newline becomes the first line of the text |
| MinigrepExamples.PoemLines | chapter-12/minigrep/src/lib.rs:116-120 | the three-line poem of the tests splits into its three lines |
| MinigrepExamples.OneResult | chapter-12/minigrep/src/lib.rs:113-125 | the highlighted exact search for "duct" in the poem gives the single entry "safe, fast, pro[duct]ive." |
| MinigrepExamples.CaseSensitive | chapter-12/minigrep/src/lib.rs:127-142 | the plain exact search for "duct" gives only "safe, fast, productive.", not "Duct tape." |
| MinigrepExamples.CaseInsensitive | chapter-12/minigrep/src/lib.rs:144-159 | the plain case-insensitive search for "rUsT" in the indented poem gives "Rust:" and "Trust me.": the first poem line has no indentation (the string continuation strips it), and "Trust me." is trimmed of its indentation |
| MinigrepExamples.LineNumberPrefix | chapter-12/minigrep/src/lib.rs:67-68 | with line numbers on, a kept second line is prefixed with "1 : " |
| MinigrepExamples.EmptyText | chapter-12/minigrep/src/lib.rs:57-76 | an empty text gives no results, whatever the query and the options |
| MinigrepExamples.HighlightKeepsIndentation | chapter-12/minigrep/src/lib.rs:61-66 | a highlighted entry keeps the indentation of its line and a plain entry loses it |
| MinigrepExamples.MatchAtStart | chapter-12/minigrep/src/lib.rs:86 | a line that starts with the query up to case is matched at offset 0 |
| MinigrepExamples.RustRustSlice | chapter-12/minigrep/src/lib.rs:86-87 | in "Rust rust" the text taken at the match is "Rust", the first casing |
| MinigrepExamples.InsensitiveMarksFirstCasingOnly | chapter-12/minigrep/src/lib.rs:86-89 | highlighting "rust" in "Rust rust" gives "[Rust] rust": only the casing found first is marked |
| Lifetimes.Longest | chapter-10/lifetimes/src/main.rs:1-7 | the result is one of the two arguments, with at least as many bytes as either; on a tie it is the second |
| Lifetimes.LongestFirstIffLonger | chapter-10/lifetimes/src/main.rs:2-6 | for different strings, the first is returned exactly when it has strictly more bytes |
| Lifetimes.LongestLengthSymmetric | chapter-10/lifetimes/src/main.rs:2-6 | swapping the arguments keeps the byte length of the result |
| Lifetimes.LongestTieNotSymmetric | chapter-10/lifetimes/src/main.rs:2-6 | swapping the arguments does not keep the result itself: on a tie each order returns its second argument |
| Lifetimes.LongestCountsBytes | chapter-10/lifetimes/src/main.rs:2 | bytes decide, not characters: "éé" beats "abc" |
| Lifetimes.LongestOnAscii | chapter-10/lifetimes/src/main.rs:2-6 | on ASCII strings the comparison is by number of characters |

## Left out

- `run` in `lib.rs` reads the file, prints the entries and prints "No matches found". It is I/O and is not modelled. `run` always passes `colored = true`; the model keeps `colored` as a parameter.
- The reads of `IGNORE_CASE` and `SHOW_LINE_NUMBERS` are environment lookups. `Minigrep.Build` takes whether `env::var` succeeds for each of them (the variable is set and its value is valid Unicode) as a boolean parameter.
- `chapter-12/minigrep/src/main.rs` (argument collection, `eprintln!`, `process::exit`) is not part of this model, and neither is `main` in the lifetimes example. Both are I/O glue.
- The `colored` crate's ANSI escape sequences are replaced by the bracket marker `Mark`.
- Minigrep.Build: requires at least one argument (the program name). With none, `args.len() - 1` underflows, which panics in a debug build.
- Ascii.Lower: folds only the ASCII capitals. Full Unicode `to_lowercase` can change the length of a string, and that is not modelled. In the model a line and its lowered form therefore have the same offsets.
- `str::contains` and `str::find` are modelled on characters, not bytes. `find`'s byte offset appears only in `Minigrep.MatchedSliceAsWritten`, through `Utf8.ByteLen`.
- Minigrep.SearchCaseInsensitive: takes the original-cased text at the character offset of the match, which is the corrected behaviour. On a line with non-ASCII text before the match, the program as written takes a different slice, as the row under "## Findings" shows; the loop does not model that.

## Findings

| source | as written | input that shows it | evidently intended | confidence | as-written member | corrected member |
|---|---|---|---|---|---|---|
| chapter-12/minigrep/src/lib.rs:86-87 | the byte offset from `find` is used as a character count in `chars().skip(idx)`, and `query.len()` bytes are taken as characters | line "é rust", query "rust", highlighting on: the text taken is "ust" | skip and take characters, so the text taken is "rust", the query up to case | not executed | Minigrep.AsWrittenMarksWrongSlice | Minigrep.MatchedSliceIsQueryUpToCase |
