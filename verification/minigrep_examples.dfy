/** The unit tests of minigrep and a few more worked cases. Each text is given
    as its lines joined with "\n"; the results are those of the search that
    `Minigrep.Search` and `Minigrep.SearchCaseInsensitive` are proved to
    compute. Each small lemma below settles one fact about one line; where a
    line is long it is passed in as a parameter equal to its text, which keeps
    the solver from expanding recursive functions over the literal. */
module MinigrepExamples {
  import opened Ascii
  import opened Substrings
  import opened Replace
  import opened Whitespace
  import opened LineSplit
  import opened Minigrep

  const Poem: seq<string> := ["Rust:", "safe, fast, productive.", "Pick three."]

  lemma PoemLines()
    ensures Lines(Join(Poem, "\n")) == Poem
  {
    LinesOfJoin(Poem);
  }

  /** The lines of the tests that lack "duct": none holds a small 'd'. */
  lemma PoemLacksDuct(l0: string, l2: string, tape: string)
    requires l0 == "Rust:" && l2 == "Pick three." && tape == "Duct tape."
    ensures !Contains(l0, "duct") && !Contains(l2, "duct") && !Contains(tape, "duct")
  {
    MissingFirstChar(l0, "duct");
    MissingFirstChar(l2, "duct");
    MissingFirstChar(tape, "duct");
  }

  lemma ProductiveHasDuct()
    ensures Contains("safe, fast, productive.", "duct")
  {
    assert OccursAt("safe, fast, productive.", "duct", 15);
  }

  lemma ProductiveSplit()
    ensures "safe, fast, productive." == "safe, fast, pro" + ("duct" + "ive.")
    ensures "safe, fast, pro" + (Mark("duct") + "ive.") == "safe, fast, pro[duct]ive."
  {
  }

  lemma MarkAfterPrefix(x: string, y: string)
    requires x == "safe, fast, pro" && y == "ive."
    ensures ReplaceAll(x + ("duct" + y), "duct", Mark("duct")) == x + (Mark("duct") + y)
  {
    ReplaceSkipsPrefix(x, "duct" + y, "duct", Mark("duct"));
    ReplaceAtMatch(y, "duct", Mark("duct"));
    MissingFirstChar(y, "duct");
    ReplaceWithoutMatch(y, "duct", Mark("duct"));
  }

  lemma ProductiveMarked()
    ensures ReplaceAll("safe, fast, productive.", "duct", Mark("duct")) == "safe, fast, pro[duct]ive."
  {
    MarkAfterPrefix("safe, fast, pro", "ive.");
    ProductiveSplit();
  }

  /** Test `one_result`: with highlighting the kept line is whole and its
      "duct" is marked. */
  lemma OneResult()
    ensures SearchResults(Lines(Join(Poem, "\n")), "duct", Options(false, true, false))
      == ["safe, fast, pro[duct]ive."]
  {
    PoemLines();
    var opts := Options(false, true, false);
    PoemLacksDuct("Rust:", "Pick three.", "Duct tape.");
    ProductiveHasDuct();
    ProductiveMarked();
    SearchResultsSnoc([], Poem[0], "duct", opts);
    SearchResultsSnoc([Poem[0]], Poem[1], "duct", opts);
    SearchResultsSnoc([Poem[0], Poem[1]], Poem[2], "duct", opts);
    assert [Poem[0], Poem[1]] + [Poem[2]] == Poem;
  }

  /** Searching a single matching line gives its entry. */
  lemma KeepOnly(l0: string, q: string, opts: Options)
    requires Matches(l0, q, opts.ignoreCase)
    ensures SearchResults([l0], q, opts) == [Entry(l0, 0, q, opts)]
  {
    assert [l0][..0] == [];
  }

  /** Of three lines only the first matches. */
  lemma KeepFirstOfThree(l0: string, l1: string, l2: string, q: string, opts: Options)
    requires Matches(l0, q, opts.ignoreCase) && !Matches(l1, q, opts.ignoreCase)
    requires !Matches(l2, q, opts.ignoreCase)
    ensures SearchResults([l0, l1, l2], q, opts) == [Entry(l0, 0, q, opts)]
  {
    KeepOnly(l0, q, opts);
    SearchResultsSnoc([l0], l1, q, opts);
    assert [l0] + [l1] == [l0, l1];
    SearchResultsSnoc([l0, l1], l2, q, opts);
    assert [l0, l1] + [l2] == [l0, l1, l2];
  }

  /** Of four lines the first and the last match. */
  lemma KeepFirstAndLast(l0: string, l1: string, l2: string, l3: string, q: string, opts: Options)
    requires Matches(l0, q, opts.ignoreCase) && !Matches(l1, q, opts.ignoreCase)
    requires !Matches(l2, q, opts.ignoreCase) && Matches(l3, q, opts.ignoreCase)
    ensures SearchResults([l0, l1, l2, l3], q, opts) == [Entry(l0, 0, q, opts), Entry(l3, 3, q, opts)]
  {
    var first, all := [l0, l1, l2], [l0, l1, l2, l3];
    assert first + [l3] == all;
    KeepFirstOfThree(l0, l1, l2, q, opts);
    SearchResultsSnoc(first, l3, q, opts);
  }

  lemma PoemAndTapeLines()
    ensures Lines(Join(Poem + ["Duct tape."], "\n")) == Poem + ["Duct tape."]
  {
    LinesOfJoin(Poem + ["Duct tape."]);
  }

  lemma ProductiveTrimmed()
    ensures Trim("safe, fast, productive.") == "safe, fast, productive."
  {
    TrimTidy("safe, fast, productive.");
  }

  /** Of three lines only the middle one matches. */
  lemma KeepMiddle(l0: string, l1: string, l2: string, q: string, opts: Options)
    requires !Matches(l0, q, opts.ignoreCase) && Matches(l1, q, opts.ignoreCase)
    requires !Matches(l2, q, opts.ignoreCase)
    ensures SearchResults([l0, l1, l2], q, opts) == [Entry(l1, 1, q, opts)]
  {
    assert SearchResults([l0], q, opts) == [] by {
      assert [l0][..0] == [];
    }
    SearchResultsSnoc([l0], l1, q, opts);
    assert [l0] + [l1] == [l0, l1];
    SearchResultsSnoc([l0, l1], l2, q, opts);
    assert [l0, l1] + [l2] == [l0, l1, l2];
  }

  lemma PoemPlainResults(l0: string, l1: string, l2: string)
    requires l0 == "Rust:" && l1 == "safe, fast, productive." && l2 == "Pick three."
    ensures SearchResults([l0, l1, l2], "duct", Options(false, false, false)) == [l1]
  {
    PoemLacksDuct("Rust:", "Pick three.", "Duct tape.");
    ProductiveHasDuct();
    KeepMiddle(l0, l1, l2, "duct", Options(false, false, false));
    ProductiveTrimmed();
  }

  /** Test `case_sensitive`: "Duct tape." is not kept for "duct", and the
      kept line is trimmed. */
  lemma CaseSensitive()
    ensures SearchResults(Lines(Join(Poem + ["Duct tape."], "\n")), "duct", Options(false, false, false))
      == ["safe, fast, productive."]
  {
    PoemAndTapeLines();
    PoemPlainResults(Poem[0], Poem[1], Poem[2]);
    assert [Poem[0], Poem[1], Poem[2]] == Poem;
    PoemLacksDuct("Rust:", "Pick three.", "Duct tape.");
    SearchResultsSnoc(Poem, "Duct tape.", "duct", Options(false, false, false));
  }

  const Indented: seq<string> :=
    ["Rust:", "        safe, fast, productive.", "        Pick three.", "        Trust me."]

  lemma IndentedLines()
    ensures Lines(Join(Indented, "\n")) == Indented
  {
    LinesOfJoin(Indented);
  }

  lemma QueryLowered(q: string)
    requires q == "rUsT"
    ensures Lower(q) == "rust"
  {
  }

  lemma RustMatches(s: string, q: string)
    requires s == "Rust:" && q == "rUsT"
    ensures Matches(s, q, true)
  {
    QueryLowered(q);
    assert Lower(s) == "rust:";
    assert OccursAt("rust:", "rust", 0);
  }

  /** `y` starts with an "r" that is not followed by a "u", and holds no
      other "r". */
  lemma NoRustAfterHead(y: string)
    requires |y| >= 2 && y[1] != 'u' && forall i :: 1 <= i < |y| ==> y[i] != 'r'
    ensures !Contains(y, "rust")
  {
    assert !OccursAt(y, "rust", 0) by {
      if |y| >= 4 { assert y[..4][1] == y[1]; }
    }
    ContainsStep(y, "rust");
    MissingFirstChar(y[1..], "rust");
  }

  /** An "r"-free prefix cannot hold the start of "rust". */
  lemma NoRustPastPrefix(t: string, n: nat)
    requires n <= |t| && forall k :: 0 <= k < n ==> t[k] != 'r'
    requires !Contains(t[n..], "rust")
    ensures !Contains(t, "rust")
  {
    ContainsSkipsPrefix(t[..n], t[n..], "rust");
    assert t[..n] + t[n..] == t;
  }

  lemma PickTail(s: string)
    requires s == "        Pick three."
    ensures |s| == 19 && s[15..] == "ree."
  {
  }

  lemma PickHead(s: string)
    requires s == "        Pick three."
    ensures forall k :: 0 <= k < 15 ==> Lower(s)[k] != 'r'
  {
    forall k | 0 <= k < 15 ensures Lower(s)[k] != 'r' {
      assert s[k] != 'r' && s[k] != 'R';
    }
  }

  lemma PickLacksRust(s: string)
    requires s == "        Pick three."
    ensures !Contains(Lower(s), "rust")
  {
    PickTail(s);
    LowerTail(s, 15);
    PickHead(s);
    NoRustAfterHead(Lower(s)[15..]);
    NoRustPastPrefix(Lower(s), 15);
  }

  lemma SafeHead(s: string)
    requires s == "        safe, fast, productive."
    ensures forall k :: 0 <= k < 21 ==> s[k] != 'r'
  {
  }

  lemma SafeTail(s: string)
    requires s == "        safe, fast, productive."
    ensures s[21..] == "roductive."
  {
  }

  lemma SafeLacksRust(s: string)
    requires s == "        safe, fast, productive."
    ensures !Contains(s, "rust")
  {
    SafeHead(s);
    SafeTail(s);
    NoRustAfterHead(s[21..]);
    NoRustPastPrefix(s, 21);
  }

  lemma SafeNoCapitals(s: string)
    requires s == "        safe, fast, productive."
    ensures forall k :: 0 <= k < |s| ==> !IsUpper(s[k])
  {
  }

  lemma SafeLowered(s: string)
    requires s == "        safe, fast, productive."
    ensures Lower(s) == s
  {
    SafeNoCapitals(s);
    LowerNoUpper(s);
  }

  lemma TrustMatches(s: string)
    requires s == "        Trust me."
    ensures Contains(Lower(s), "rust")
  {
    TrustSlice(s);
    LowerSlice(s, 9, 13);
    LowerNoUpper("rust");
    assert OccursAt(Lower(s), "rust", 9);
  }

  lemma TrustSlice(s: string)
    requires s == "        Trust me."
    ensures |s| == 17 && s[9..13] == "rust"
  {
  }

  /** Which of the indented lines hold "rUsT" up to case. */
  lemma IndentedKept(l0: string, l1: string, l2: string, l3: string, q: string)
    requires l0 == "Rust:" && l1 == "        safe, fast, productive."
    requires l2 == "        Pick three." && l3 == "        Trust me." && q == "rUsT"
    ensures Matches(l0, q, true) && !Matches(l1, q, true)
    ensures !Matches(l2, q, true) && Matches(l3, q, true)
  {
    RustMatches(l0, q);
    QueryLowered(q);
    SafeLowered(l1);
    SafeLacksRust(l1);
    PickLacksRust(l2);
    TrustMatches(l3);
  }

  lemma TrustTrimmed(l: string)
    requires l == "        Trust me."
    ensures Trim(l) == "Trust me."
  {
    assert l == "        " + "Trust me.";
    TrimIndented("        ", "Trust me.");
  }

  lemma RustTrimmed(l: string)
    requires l == "Rust:"
    ensures Trim(l) == l
  {
    TrimTidy(l);
  }

  /** Test `case_insensitive`: "rUsT" keeps "Rust:" and "Trust me.". The
      string continuation leaves the first line unindented; the indentation
      of "Trust me." is trimmed. */
  lemma CaseInsensitive()
    ensures SearchResults(Lines(Join(Indented, "\n")), "rUsT", Options(true, false, false))
      == ["Rust:", "Trust me."]
  {
    IndentedLines();
    var l0, l1, l2, l3 := Indented[0], Indented[1], Indented[2], Indented[3];
    IndentedKept(l0, l1, l2, l3, "rUsT");
    KeepFirstAndLast(l0, l1, l2, l3, "rUsT", Options(true, false, false));
    RustTrimmed(l0);
    TrustTrimmed(l3);
    assert [l0, l1, l2, l3] == Indented;
  }

  lemma PickLines()
    ensures Lines(Join(["Rust:", "Pick three."], "\n")) == ["Rust:", "Pick three."]
  {
    LinesOfJoin(["Rust:", "Pick three."]);
  }

  lemma PickKept()
    ensures !Contains("Rust:", "Pick") && Contains("Pick three.", "Pick")
    ensures Trim("Pick three.") == "Pick three."
  {
    MissingFirstChar("Rust:", "Pick");
    assert OccursAt("Pick three.", "Pick", 0);
    TrimTidy("Pick three.");
  }

  lemma PickNumbered()
    ensures Numbered(1, "Pick three.") == "1 : Pick three."
  {
  }

  /** With line numbers on, an entry carries its zero-based line index. */
  lemma LineNumberPrefix()
    ensures SearchResults(Lines(Join(["Rust:", "Pick three."], "\n")), "Pick", Options(false, false, true))
      == ["1 : Pick three."]
  {
    PickLines();
    PickKept();
    PickNumbered();
    var opts := Options(false, false, true);
    SearchResultsSnoc([], "Rust:", "Pick", opts);
    SearchResultsSnoc(["Rust:"], "Pick three.", "Pick", opts);
  }

  /** An empty text gives no entries, whatever the query and the options. */
  lemma EmptyText(query: string, opts: Options)
    ensures SearchResults(Lines(""), query, opts) == []
  {
  }

  lemma IndentedDuctMarked()
    ensures ReplaceAll("  duct", "duct", Mark("duct")) == "  [duct]"
  {
    assert "  duct" == "  " + ("duct" + "");
    ReplaceSkipsPrefix("  ", "duct" + "", "duct", Mark("duct"));
    ReplaceAtMatch("", "duct", Mark("duct"));
  }

  /** Highlighting does not trim: the indentation of a kept line stays. */
  lemma HighlightKeepsIndentation()
    ensures Contains("  duct", "duct")
    ensures Entry("  duct", 0, "duct", Options(false, true, false)) == "  [duct]"
    ensures Entry("  duct", 0, "duct", Options(false, false, false)) == "duct"
  {
    assert OccursAt("  duct", "duct", 2);
    IndentedDuctMarked();
    assert "  duct" == "  " + "duct";
    TrimIndented("  ", "duct");
  }

  /** A match at offset 0 is the first one. */
  lemma MatchAtStart(line: string, query: string)
    requires MatchesAt(line, query, 0)
    ensures Contains(Lower(line), Lower(query)) && MatchOffset(line, query) == 0
  {
    LowerMatchesAt(line, query, 0);
  }

  lemma RustRustSlice(line: string, query: string)
    requires line == "Rust rust" && query == "rust"
    ensures Contains(Lower(line), Lower(query)) && MatchedSlice(line, query) == line[..4]
  {
    assert line[..4] == "Rust";
    assert Lower("Rust") == query && Lower(query) == query;
    MatchAtStart(line, query);
  }

  lemma MarkFirstRust(x: string, y: string)
    requires x == "Rust" && y == " rust"
    ensures ReplaceAll(x + y, x, Mark(x)) == Mark(x) + y
  {
    ReplaceAtMatch(y, x, Mark(x));
    MissingFirstChar(y, x);
    ReplaceWithoutMatch(y, x, Mark(x));
  }

  /** In the case-insensitive search only the casing found first is marked:
      a later "rust" in another casing stays unmarked. */
  lemma InsensitiveMarksFirstCasingOnly(line: string, query: string)
    requires line == "Rust rust" && query == "rust"
    ensures Contains(Lower(line), Lower(query))
      && Highlight(line, query, true) == "[Rust] rust"
  {
    RustRustSlice(line, query);
    var o, rest := line[..4], line[4..];
    assert Highlight(line, query, true) == ReplaceAll(line, o, Mark(o));
    assert o == "Rust" && rest == " rust" && line == o + rest;
    MarkFirstRust(o, rest);
    MarkedRust(o, rest);
  }

  lemma MarkedRust(o: string, rest: string)
    requires o == "Rust" && rest == " rust"
    ensures Mark(o) + rest == "[Rust] rust"
  {
  }
}
