/** The line search of minigrep: `Config::build`, `search` and
    `search_case_insensitive`. A search walks the lines of the text with a
    zero-based index, keeps the lines that contain the query, turns each kept
    line into its display form and collects those in source order. */
module Minigrep {
  import opened Ascii
  import opened Substrings
  import opened Replace
  import opened Whitespace
  import opened Decimal
  import opened LineSplit
  import opened Utf8

  datatype Result<T> = Ok(value: T) | Err(error: string)

  datatype Config = Config(query: string, filePath: string, ignoreCase: bool, showLineNumbers: bool)

  /** `Config::build`: `args[0]` is the program name, the query and the file
      path are the next two arguments, and any further ones are ignored.
      `ignoreCaseSet` and `showLineNumbersSet` say whether `env::var`
      succeeds for IGNORE_CASE and SHOW_LINE_NUMBERS: the variable is set and
      its value is valid Unicode. */
  function Build(args: seq<string>, ignoreCaseSet: bool, showLineNumbersSet: bool): (r: Result<Config>)
    requires |args| >= 1
    ensures r.Err? <==> |args| < 3
    ensures r.Err? ==> r.error == "Insufficient arguments. Expected 2, received " + NatToString(|args| - 1)
    ensures r.Ok? ==> r.value.query == args[1] && r.value.filePath == args[2]
    ensures r.Ok? ==> r.value.ignoreCase == ignoreCaseSet && r.value.showLineNumbers == showLineNumbersSet
  {
    if |args| - 1 < 2 then
      Err("Insufficient arguments. Expected 2, received " + NatToString(|args| - 1))
    else
      Ok(Config(args[1], args[2], ignoreCaseSet, showLineNumbersSet))
  }

  /** Arguments after the file path do not change the configuration. */
  lemma BuildIgnoresExtraArguments(args: seq<string>, extra: seq<string>, ic: bool, ln: bool)
    requires |args| >= 3
    ensures Build(args + extra, ic, ln) == Build(args, ic, ln)
  {
  }

  /** The display options of one search: which search runs, whether matches
      are highlighted and whether lines carry their index. */
  datatype Options = Options(ignoreCase: bool, colored: bool, showLineNumbers: bool)

  /** The green colouring the `colored` crate puts around a match, written as
      brackets. */
  function Mark(s: string): (m: string)
    ensures |m| == |s| + 2 && m[1..|m| - 1] == s
    ensures m[0] == '[' && m[|m| - 1] == ']'
  {
    "[" + s + "]"
  }

  /** Whether a line is kept: it contains the query, or in the
      case-insensitive search its lowered form contains the lowered query. */
  function Matches(line: string, query: string, ignoreCase: bool): (b: bool)
    ensures !ignoreCase ==> (b <==> exists k :: OccursAt(line, query, k))
    ensures ignoreCase ==> (b <==> exists k: nat :: MatchesAt(line, query, k))
  {
    if ignoreCase then
      assert forall k: nat :: MatchesAt(line, query, k) <==> OccursAt(Lower(line), Lower(query), k) by {
        forall k: nat { LowerMatchesAt(line, query, k); }
      }
      Contains(Lower(line), Lower(query))
    else
      Contains(line, query)
  }

  /** The slice of `line` at offset `j` is the query up to ASCII case. */
  predicate MatchesAt(line: string, query: string, j: nat) {
    j + |query| <= |line| && Lower(line[j..j + |query|]) == Lower(query)
  }

  /** Where the case-insensitive search finds the query in a line: the first
      offset at which the slice of the line, lowered, is the lowered query. */
  function MatchOffset(line: string, query: string): (k: nat)
    requires Contains(Lower(line), Lower(query))
    ensures MatchesAt(line, query, k)
    ensures forall j: nat :: j < k ==> !MatchesAt(line, query, j)
  {
    var k := FindFirst(Lower(line), Lower(query)).value;
    assert forall j: nat :: j <= k ==> (MatchesAt(line, query, j) <==> OccursAt(Lower(line), Lower(query), j)) by {
      forall j: nat | j <= k { LowerMatchesAt(line, query, j); }
    }
    k
  }

  lemma LowerMatchesAt(line: string, query: string, j: nat)
    ensures MatchesAt(line, query, j) <==> OccursAt(Lower(line), Lower(query), j)
  {
    if j + |query| <= |line| {
      LowerSlice(line, j, j + |query|);
    }
  }

  /** The original-cased text of that match: the text at the first offset
      where the line holds the query up to case. */
  function MatchedSlice(line: string, query: string): (o: string)
    requires Contains(Lower(line), Lower(query))
    ensures |o| == |query| && Lower(o) == Lower(query)
    ensures OccursAt(line, o, MatchOffset(line, query))
  {
    var k := MatchOffset(line, query);
    line[k..k + |query|]
  }

  /** The marked text has the query's length, differs from it only in case,
      and is the text at the first offset where `find` finds the lowered query
      in the lowered line. */
  lemma MatchedSliceIsQueryUpToCase(line: string, query: string)
    requires Contains(Lower(line), Lower(query))
    ensures |MatchedSlice(line, query)| == |query|
    ensures Lower(MatchedSlice(line, query)) == Lower(query)
    ensures OccursAt(line, MatchedSlice(line, query), FindFirst(Lower(line), Lower(query)).value)
    ensures Contains(line, MatchedSlice(line, query))
  {
    MatchOffsetIsFind(line, query);
  }

  /** `search_case_insensitive` as written: `find` gives a byte offset into
      the lowered line, which is then used to skip that many characters, and
      `query.len()` bytes are taken as characters. */
  function MatchedSliceAsWritten(line: string, query: string): (o: string)
    requires Contains(Lower(line), Lower(query))
    ensures |o| <= ByteLen(Lower(query)) && Contains(line, o)
  {
    var k := FindFirst(Lower(line), Lower(query)).value;
    var skip := ByteLen(Lower(line)[..k]);
    var take := ByteLen(Lower(query));
    var from := if skip < |line| then skip else |line|;
    var to := if skip + take < |line| then skip + take else |line|;
    assert OccursAt(line, line[from..to], from);
    line[from..to]
  }

  /** On ASCII text bytes and characters coincide, and the code as written
      marks the intended slice. */
  lemma AsWrittenAgreesOnAscii(line: string, query: string)
    requires Contains(Lower(line), Lower(query))
    requires forall i :: 0 <= i < |line| ==> IsAscii(line[i])
    requires forall i :: 0 <= i < |query| ==> IsAscii(query[i])
    ensures MatchedSliceAsWritten(line, query) == MatchedSlice(line, query)
  {
    var ll, lq := Lower(line), Lower(query);
    var k := FindFirst(ll, lq).value;
    assert OccursAt(ll, lq, k);
    LoweredAsciiBytes(line, k);
    LoweredAsciiBytes(query, |query|);
    assert lq[..|query|] == lq;
    MatchOffsetIsFind(line, query);
  }

  /** Lowering keeps ASCII text ASCII, so a prefix of lowered ASCII text takes
      one byte per character. */
  lemma LoweredAsciiBytes(s: string, k: nat)
    requires k <= |s| && forall i :: 0 <= i < |s| ==> IsAscii(s[i])
    ensures ByteLen(Lower(s)[..k]) == k
  {
    var t := Lower(s)[..k];
    forall i | 0 <= i < |t| ensures IsAscii(t[i]) {
      assert t[i] == LowerChar(s[i]);
    }
  }

  /** A two-byte character before the match shifts the marked slice: for the
      query "rust" in "\u{e9} rust" the code as written marks "ust", which is
      not the query in any casing. */
  lemma AsWrittenMarksWrongSlice(line: string, query: string)
    requires line == "\U{00E9} rust" && query == "rust"
    ensures Contains(Lower(line), Lower(query))
      && MatchedSliceAsWritten(line, query) == "ust"
      && MatchedSlice(line, query) == "rust"
      && Lower(MatchedSliceAsWritten(line, query)) != Lower(query)
  {
    AccentedFind(line, query);
    AccentedBytes(line, query);
    MatchOffsetIsFind(line, query);
    assert line[3..6] == "ust";
    assert line[2..6] == "rust";
    assert Lower("ust") != Lower("rust");
  }

  /** In the accented line the query starts at the third character. */
  lemma AccentedFind(line: string, query: string)
    requires line == "\U{00E9} rust" && query == "rust"
    ensures FindFirst(Lower(line), Lower(query)) == Some(2)
  {
    LowerNoUpper(line);
    LowerNoUpper(query);
    assert OccursAt(line, query, 2) by {
      assert line[2..6] == query;
    }
    assert !OccursAt(line, query, 0) by {
      assert line[0..4][0] != query[0];
    }
    assert !OccursAt(line, query, 1) by {
      assert line[1..5][0] != query[0];
    }
  }

  /** The two characters before the match take three bytes. */
  lemma AccentedBytes(line: string, query: string)
    requires line == "\U{00E9} rust" && query == "rust"
    ensures ByteLen(Lower(line)[..2]) == 3 && ByteLen(Lower(query)) == 4
  {
    LowerNoUpper(line);
    LowerNoUpper(query);
    assert line[..2] == "\U{00E9} ";
  }

  /** A kept line with every match marked: in the exact search every
      occurrence of the query; in the case-insensitive search every occurrence
      of the original-cased text at the first match. */
  function Highlight(line: string, query: string, ignoreCase: bool): string
    requires Matches(line, query, ignoreCase)
  {
    if ignoreCase then
      var original := MatchedSlice(line, query);
      ReplaceAll(line, original, Mark(original))
    else
      ReplaceAll(line, query, Mark(query))
  }

  /** `format!("{} : {}", index, body)`. */
  function Numbered(index: nat, body: string): (n: string)
    ensures |NatToString(index)| + 3 <= |n|
    ensures AllDigits(n[..|NatToString(index)|]) && ParseDecimal(n[..|NatToString(index)|]) == index
    ensures n[|NatToString(index)|..|NatToString(index)| + 3] == " : "
    ensures n[|NatToString(index)| + 3..] == body
  {
    var d := NatToString(index);
    ParseOfNatToString(index);
    assert (d + " : " + body)[..|d|] == d;
    d + " : " + body
  }

  /** The numeral ends where the first non-digit stands, so the index and the
      content can both be read back from a numbered entry. */
  lemma {:induction false} NumberedInjective(i: nat, b: string, j: nat, c: string)
    requires Numbered(i, b) == Numbered(j, c)
    ensures i == j && b == c
  {
    var di, dj := NatToString(i), NatToString(j);
    var e := Numbered(i, b);
    NumeralEndsAtSpace(i, b);
    NumeralEndsAtSpace(j, c);
    assert |di| == |dj|;
    assert di == e[..|di|] == dj;
    NatToStringInjective(i, j);
    assert b == e[|di| + 3..] == c;
  }

  lemma NumeralEndsAtSpace(i: nat, b: string)
    ensures var d, e := NatToString(i), Numbered(i, b);
      |d| < |e| && !IsDigit(e[|d|]) && forall k :: 0 <= k < |d| ==> IsDigit(e[k])
  {
  }

  /** The display form of a kept line: trimmed when not highlighted,
      highlighted and untrimmed otherwise, then prefixed with its index when
      line numbers are on. */
  function Entry(line: string, index: nat, query: string, opts: Options): (e: string)
    requires Matches(line, query, opts.ignoreCase)
    ensures opts.showLineNumbers ==> |NatToString(index)| + 3 <= |e|
    ensures opts.showLineNumbers ==>
      AllDigits(e[..|NatToString(index)|]) && ParseDecimal(e[..|NatToString(index)|]) == index
    ensures opts.showLineNumbers ==> e[|NatToString(index)|..|NatToString(index)| + 3] == " : "
    ensures !opts.colored && !opts.showLineNumbers ==> Tidy(e)
    ensures !opts.colored && !opts.showLineNumbers ==>
      Indent(line) + |e| <= |line| && e == line[Indent(line)..Indent(line) + |e|]
    ensures !opts.colored && !opts.showLineNumbers ==>
      forall i :: Indent(line) + |e| <= i < |line| ==> IsWhitespace(line[i])
  {
    if !opts.colored then
      if opts.showLineNumbers then Numbered(index, Trim(line)) else Trim(line)
    else
      var body := Highlight(line, query, opts.ignoreCase);
      if opts.showLineNumbers then Numbered(index, body) else body
  }

  /** With line numbers on, an entry is the entry without line numbers,
      prefixed with its index and " : ". */
  lemma EntryNumbered(line: string, index: nat, query: string, ignoreCase: bool, colored: bool)
    requires Matches(line, query, ignoreCase)
    ensures Entry(line, index, query, Options(ignoreCase, colored, true))
      == Numbered(index, Entry(line, index, query, Options(ignoreCase, colored, false)))
  {
  }

  /** The result of a search over `lines`: the display forms of the kept
      lines, in source order. */
  function SearchResults(lines: seq<string>, query: string, opts: Options): (r: seq<string>)
    ensures |r| <= |lines|
    decreases |lines|
  {
    if lines == [] then []
    else
      var n := |lines| - 1;
      SearchResults(lines[..n], query, opts)
        + (if Matches(lines[n], query, opts.ignoreCase) then [Entry(lines[n], n, query, opts)] else [])
  }

  /** One more line either adds its entry at the end or adds nothing. */
  lemma SearchResultsStep(lines: seq<string>, index: nat, query: string, opts: Options)
    requires index < |lines|
    ensures SearchResults(lines[..index + 1], query, opts)
      == SearchResults(lines[..index], query, opts)
         + (if Matches(lines[index], query, opts.ignoreCase) then [Entry(lines[index], index, query, opts)] else [])
  {
    assert lines[..index + 1][..index] == lines[..index];
  }

  /** Searching one more line at the end. */
  lemma SearchResultsSnoc(lines: seq<string>, line: string, query: string, opts: Options)
    ensures SearchResults(lines + [line], query, opts)
      == SearchResults(lines, query, opts)
         + (if Matches(line, query, opts.ignoreCase) then [Entry(line, |lines|, query, opts)] else [])
  {
    assert (lines + [line])[..|lines|] == lines;
  }

  /** The indices of the kept lines, in increasing order. */
  function MatchingIndices(lines: seq<string>, query: string, ignoreCase: bool): (ix: seq<nat>)
    ensures forall j :: 0 <= j < |ix| ==> ix[j] < |lines| && Matches(lines[ix[j]], query, ignoreCase)
    ensures forall j, k :: 0 <= j < k < |ix| ==> ix[j] < ix[k]
    ensures forall i :: 0 <= i < |lines| && Matches(lines[i], query, ignoreCase) ==> i in ix
    decreases |lines|
  {
    if lines == [] then []
    else
      var n := |lines| - 1;
      var pre := MatchingIndices(lines[..n], query, ignoreCase);
      var last := if Matches(lines[n], query, ignoreCase) then [n] else [];
      KeptIndicesGrow(lines, query, ignoreCase, pre, last);
      pre + last
  }

  /** Appending the last line's index, when it is kept, to the kept indices
      of the other lines. */
  lemma KeptIndicesGrow(lines: seq<string>, query: string, ignoreCase: bool, pre: seq<nat>, last: seq<nat>)
    requires lines != []
    requires forall j :: 0 <= j < |pre| ==> pre[j] < |lines| - 1 && Matches(lines[..|lines| - 1][pre[j]], query, ignoreCase)
    requires forall j, k :: 0 <= j < k < |pre| ==> pre[j] < pre[k]
    requires forall i :: 0 <= i < |lines| - 1 && Matches(lines[..|lines| - 1][i], query, ignoreCase) ==> i in pre
    requires last == if Matches(lines[|lines| - 1], query, ignoreCase) then [|lines| - 1] else []
    ensures forall j :: 0 <= j < |pre + last| ==> (pre + last)[j] < |lines| && Matches(lines[(pre + last)[j]], query, ignoreCase)
    ensures forall j, k :: 0 <= j < k < |pre + last| ==> (pre + last)[j] < (pre + last)[k]
    ensures forall i :: 0 <= i < |lines| && Matches(lines[i], query, ignoreCase) ==> i in pre + last
  {
    var n := |lines| - 1;
    assert forall i :: 0 <= i < n ==> lines[..n][i] == lines[i];
  }

  /** A search is a filter followed by a map: its j-th entry is the display
      form of the j-th kept line, at that line's index. */
  lemma {:induction false} SearchResultsAreEntries(lines: seq<string>, query: string, opts: Options)
    ensures var ix, r := MatchingIndices(lines, query, opts.ignoreCase), SearchResults(lines, query, opts);
      |r| == |ix| && forall j :: 0 <= j < |ix| ==> r[j] == Entry(lines[ix[j]], ix[j], query, opts)
    decreases |lines|
  {
    if lines != [] {
      var n := |lines| - 1;
      var pre := lines[..n];
      SearchResultsAreEntries(pre, query, opts);
      var ixp, rp := MatchingIndices(pre, query, opts.ignoreCase), SearchResults(pre, query, opts);
      var ix, r := MatchingIndices(lines, query, opts.ignoreCase), SearchResults(lines, query, opts);
      forall j | 0 <= j < |ixp| ensures r[j] == Entry(lines[ix[j]], ix[j], query, opts) {
        assert ix[j] == ixp[j] && r[j] == rp[j];
        assert pre[ixp[j]] == lines[ixp[j]];
      }
    }
  }

  /** Every line the exact search keeps, the case-insensitive search keeps. */
  lemma SensitiveKeptByInsensitive(lines: seq<string>, query: string)
    ensures forall i :: i in MatchingIndices(lines, query, false) ==> i in MatchingIndices(lines, query, true)
  {
    var ix := MatchingIndices(lines, query, false);
    forall i | i in ix ensures i in MatchingIndices(lines, query, true) {
      ContainsLower(lines[i], query);
    }
  }

  /** Without highlighting and line numbers every entry is its line trimmed:
      no white space at either end. */
  lemma PlainEntriesAreTrimmed(lines: seq<string>, query: string, ignoreCase: bool)
    ensures var ix, r := MatchingIndices(lines, query, ignoreCase), SearchResults(lines, query, Options(ignoreCase, false, false));
      |r| == |ix| && forall j :: 0 <= j < |ix| ==> r[j] == Trim(lines[ix[j]]) && Tidy(r[j])
  {
    SearchResultsAreEntries(lines, query, Options(ignoreCase, false, false));
  }

  /** With highlighting in the exact search, an entry is its untrimmed line
      cut at every occurrence of the query and put back together with the
      marked query in each cut; no piece holds the query any more. */
  lemma ExactHighlightMarksEveryOccurrence(line: string, index: nat, query: string)
    requires query != [] && Contains(line, query)
    ensures Entry(line, index, query, Options(false, true, false)) == Join(Split(line, query), Mark(query))
    ensures Join(Split(line, query), query) == line
    ensures forall i :: 0 <= i < |Split(line, query)| ==> !Contains(Split(line, query)[i], query)
  {
    ReplaceIsJoinOfSplit(line, query, Mark(query));
    SplitJoinRoundTrip(line, query);
    SplitPiecesAreFree(line, query);
  }

  /** With highlighting in the case-insensitive search, an entry is its
      untrimmed line cut at every copy of the original-cased text at the first
      match, with that text marked in each cut; no piece holds that text any
      more, while other casings of the query are left as they are. */
  lemma InsensitiveHighlightMarksEveryCopy(line: string, index: nat, query: string)
    requires query != [] && Contains(Lower(line), Lower(query))
    ensures var o := MatchedSlice(line, query);
      Entry(line, index, query, Options(true, true, false)) == Join(Split(line, o), Mark(o))
    ensures var o := MatchedSlice(line, query); Join(Split(line, o), o) == line
    ensures var o := MatchedSlice(line, query);
      forall i :: 0 <= i < |Split(line, o)| ==> !Contains(Split(line, o)[i], o)
  {
    var o := MatchedSlice(line, query);
    MatchedSliceIsQueryUpToCase(line, query);
    ReplaceIsJoinOfSplit(line, o, Mark(o));
    SplitJoinRoundTrip(line, o);
    SplitPiecesAreFree(line, o);
  }

  /** The display form `search` builds for a line that contains the query:
      every occurrence marked, or the line trimmed, then numbered. */
  method ExactEntry(line: string, index: nat, query: string, colored: bool, showLineNumbers: bool)
    returns (updated: string)
    requires Contains(line, query)
    ensures updated == Entry(line, index, query, Options(false, colored, showLineNumbers))
  {
    if colored {
      updated := ReplaceAll(line, query, Mark(query));
    } else {
      updated := Trim(line);
    }
    if showLineNumbers {
      updated := Numbered(index, updated);
    }
  }

  /** The search `search` runs: exact matching. */
  method Search(query: string, contents: string, colored: bool, showLineNumbers: bool)
    returns (results: seq<string>)
    ensures results == SearchResults(Lines(contents), query, Options(false, colored, showLineNumbers))
    ensures |results| <= |Lines(contents)|
  {
    var lines := Lines(contents);
    ghost var opts := Options(false, colored, showLineNumbers);
    results := [];
    var index := 0;
    while index < |lines|
      invariant index <= |lines|
      invariant results == SearchResults(lines[..index], query, opts)
    {
      var line := lines[index];
      SearchResultsStep(lines, index, query, opts);
      if Contains(line, query) {
        var updated := ExactEntry(line, index, query, colored, showLineNumbers);
        results := results + [updated];
      }
      index := index + 1;
    }
    assert lines[..index] == lines;
  }

  /** The match offset is the one `find` gives in the lowered line. */
  lemma MatchOffsetIsFind(line: string, query: string)
    requires Contains(Lower(line), Lower(query))
    ensures MatchOffset(line, query) == FindFirst(Lower(line), Lower(query)).value
  {
  }

  /** The highlighting step of `search_case_insensitive`: find the lowered
      query in the lowered line, take the original-cased text at that offset
      and mark every occurrence of it. */
  method MarkFirstMatch(line: string, lowered: string, query: string, q: string) returns (marked: string)
    requires lowered == Lower(line) && q == Lower(query) && Contains(lowered, q)
    ensures marked == Highlight(line, query, true)
  {
    var idx := FindFirst(lowered, q).value;
    MatchOffsetIsFind(line, query);
    assert idx == MatchOffset(line, query) && |q| == |query|;
    var original := line[idx..idx + |q|];
    assert original == MatchedSlice(line, query);
    marked := ReplaceAll(line, original, Mark(original));
  }

  /** The display form `search_case_insensitive` builds for a line whose
      lowered form contains the lowered query. */
  method InsensitiveEntry(line: string, lowered: string, index: nat, query: string, q: string,
                          colored: bool, showLineNumbers: bool)
    returns (updated: string)
    requires lowered == Lower(line) && q == Lower(query) && Contains(lowered, q)
    ensures updated == Entry(line, index, query, Options(true, colored, showLineNumbers))
  {
    if colored {
      updated := MarkFirstMatch(line, lowered, query, q);
    } else {
      updated := Trim(line);
    }
    if showLineNumbers {
      updated := Numbered(index, updated);
    }
  }

  /** The search `search_case_insensitive` runs: the query is lowered once,
      each line is lowered before the test, and the highlight goes around the
      original-cased text at the first match. */
  method SearchCaseInsensitive(query: string, contents: string, colored: bool, showLineNumbers: bool)
    returns (results: seq<string>)
    ensures results == SearchResults(Lines(contents), query, Options(true, colored, showLineNumbers))
    ensures |results| <= |Lines(contents)|
  {
    var q := Lower(query);
    var lines := Lines(contents);
    ghost var opts := Options(true, colored, showLineNumbers);
    results := [];
    var index := 0;
    while index < |lines|
      invariant index <= |lines|
      invariant results == SearchResults(lines[..index], query, opts)
    {
      var line := lines[index];
      var lowered := Lower(line);
      SearchResultsStep(lines, index, query, opts);
      if Contains(lowered, q) {
        var updated := InsensitiveEntry(line, lowered, index, query, q, colored, showLineNumbers);
        results := results + [updated];
      }
      index := index + 1;
    }
    assert lines[..index] == lines;
  }
}
