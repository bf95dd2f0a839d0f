/** `str::lines`: split at "\n", drop a "\r" just before it, and do not
    produce an empty line after a final "\n". */
module LineSplit {
  import Replace

  /** The offset of the first "\n" in `s`, or `|s|` when there is none. */
  function NextNewline(s: string): (k: nat)
    ensures k <= |s|
    ensures k < |s| ==> s[k] == '\n'
    ensures forall i :: 0 <= i < k ==> s[i] != '\n'
  {
    if s == [] || s[0] == '\n' then 0 else NextNewline(s[1..]) + 1
  }

  /** A line that ended in "\r\n" loses its "\r". */
  function StripCr(line: string): string {
    if line != [] && line[|line| - 1] == '\r' then line[..|line| - 1] else line
  }

  function Lines(s: string): (ls: seq<string>)
    ensures ls == [] <==> s == []
    ensures forall i :: 0 <= i < |ls| ==> '\n' !in ls[i]
    decreases |s|
  {
    if s == [] then []
    else
      var k := NextNewline(s);
      if k == |s| then [s]
      else [StripCr(s[..k])] + Lines(s[k + 1..])
  }

  lemma {:induction false} NextNewlineAfter(line: string, rest: string)
    requires '\n' !in line
    ensures NextNewline(line + "\n" + rest) == |line|
    decreases |line|
  {
    if line != [] {
      assert (line + "\n" + rest)[1..] == line[1..] + "\n" + rest;
      NextNewlineAfter(line[1..], rest);
    }
  }

  /** A line followed by "\n" becomes the first line, unless it ends in "\r". */
  lemma LinesCons(line: string, rest: string)
    requires '\n' !in line && (line == [] || line[|line| - 1] != '\r')
    ensures Lines(line + "\n" + rest) == [line] + Lines(rest)
  {
    var s := line + "\n" + rest;
    NextNewlineAfter(line, rest);
    assert s[..|line|] == line && s[|line| + 1..] == rest;
  }

  /** A line ended by "\r\n" becomes the first line without its "\r". */
  lemma LinesCrLf(line: string, rest: string)
    requires '\n' !in line
    ensures Lines(line + "\r\n" + rest) == [line] + Lines(rest)
  {
    var s := line + "\r\n" + rest;
    assert '\n' !in line + "\r";
    NextNewlineAfter(line + "\r", rest);
    assert s == (line + "\r") + "\n" + rest;
    assert s[..|line| + 1] == line + "\r" && s[|line| + 2..] == rest;
  }

  /** A carriage return not followed by "\n" stays in its line. */
  lemma LoneCrKept(line: string)
    requires line == "a\r"
    ensures Lines(line) == [line]
  {
    assert '\n' !in line;
  }

  /** Text without "\n" is a single line. */
  lemma LinesSingle(line: string)
    requires line != [] && '\n' !in line
    ensures Lines(line) == [line]
  {
  }

  /** A line that may stand in a text as it is: no "\n" in it and no "\r"
      at its end. */
  predicate PlainLine(line: string) {
    '\n' !in line && (line == [] || line[|line| - 1] != '\r')
  }

  /** Splitting lines joined with "\n" gives the lines back, as long as the
      last one is not empty. */
  lemma {:induction false} LinesOfJoin(ls: seq<string>)
    requires |ls| >= 1 && ls[|ls| - 1] != []
    requires forall i :: 0 <= i < |ls| ==> PlainLine(ls[i])
    ensures Lines(Replace.Join(ls, "\n")) == ls
    decreases |ls|
  {
    if |ls| == 1 {
      LinesSingle(ls[0]);
    } else {
      var rest := ls[1..];
      assert forall i :: 0 <= i < |rest| ==> rest[i] == ls[i + 1];
      LinesOfJoin(rest);
      assert Replace.Join(ls, "\n") == ls[0] + "\n" + Replace.Join(rest, "\n");
      LinesCons(ls[0], Replace.Join(rest, "\n"));
      assert [ls[0]] + rest == ls;
    }
  }

  /** Joining the lines of a text whose first "\n" is at `k`, not at its end. */
  lemma JoinLinesAt(s: string, k: nat)
    requires k == NextNewline(s) && k + 1 < |s| && (k == 0 || s[k - 1] != '\r')
    ensures Replace.Join(Lines(s), "\n") == s[..k] + "\n" + Replace.Join(Lines(s[k + 1..]), "\n")
  {
    assert StripCr(s[..k]) == s[..k];
    assert Lines(s) == [s[..k]] + Lines(s[k + 1..]);
    Replace.JoinCons(s[..k], Lines(s[k + 1..]), "\n");
  }

  lemma Regroup(a: string, b: string, c: string)
    ensures (a + b) + c == a + (b + c)
  {
  }

  /** A text is the part before its "\n" at `k`, the "\n", and the rest. */
  lemma CutAtNewline(s: string, k: nat)
    requires k < |s| && s[k] == '\n'
    ensures s[..k] + "\n" + s[k + 1..] == s
  {
  }

  /** Text without carriage returns is its lines joined with "\n", plus the
      final "\n" when it has one. */
  lemma {:induction false} LinesJoinRoundTrip(s: string)
    requires s != [] && forall i :: 0 <= i < |s| ==> s[i] != '\r'
    ensures Replace.Join(Lines(s), "\n") + (if s[|s| - 1] == '\n' then "\n" else "") == s
    decreases |s|
  {
    var k := NextNewline(s);
    if k == |s| {
      assert Lines(s) == [s];
    } else if k + 1 == |s| {
      assert Lines(s) == [s[..k]] by {
        assert StripCr(s[..k]) == s[..k];
      }
      assert s == s[..k] + "\n";
    } else {
      var rest := s[k + 1..];
      var tail := if s[|s| - 1] == '\n' then "\n" else "";
      var joined := Replace.Join(Lines(rest), "\n");
      assert rest[|rest| - 1] == s[|s| - 1];
      LinesJoinRoundTrip(rest);
      JoinLinesAt(s, k);
      Regroup(s[..k] + "\n", joined, tail);
      CutAtNewline(s, k);
    }
  }
}
