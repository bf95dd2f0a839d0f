/** `str::split` with a string pattern, joining with a separator, and
    `str::replace`, which the search uses to wrap matches in a marker. */
module Replace {
  import opened Substrings

  /** One piece per character, followed by an empty piece. */
  function CharPieces(s: string): (parts: seq<string>)
    ensures |parts| == |s| + 1
  {
    if s == [] then [[]] else [[s[0]]] + CharPieces(s[1..])
  }

  /** The pieces of `s` between the leftmost non-overlapping occurrences of
      `p`. An empty pattern matches at every character boundary, so `s` falls
      apart into single characters between two empty pieces. */
  function Split(s: string, p: string): (parts: seq<string>)
    ensures |parts| >= 1
    ensures |parts[0]| <= |s| && parts[0] == s[..|parts[0]|]
    decreases |s|
  {
    if p == [] then [[]] + CharPieces(s)
    else if |s| < |p| then [s]
    else if s[..|p|] == p then [[]] + Split(s[|p|..], p)
    else
      var rest := Split(s[1..], p);
      [[s[0]] + rest[0]] + rest[1..]
  }

  /** The pieces with `sep` between each two neighbours. */
  function Join(parts: seq<string>, sep: string): (s: string)
    requires |parts| >= 1
  {
    if |parts| == 1 then parts[0] else parts[0] + sep + Join(parts[1..], sep)
  }

  /** `s` with every leftmost non-overlapping occurrence of `p` replaced by `r`
      (`str::replace`); with an empty `p`, `r` goes before every character and
      at the end. */
  function ReplaceAll(s: string, p: string, r: string): (t: string)
    decreases |s|
  {
    if p == [] then (if s == [] then r else r + [s[0]] + ReplaceAll(s[1..], p, r))
    else if |s| < |p| then s
    else if s[..|p|] == p then r + ReplaceAll(s[|p|..], p, r)
    else [s[0]] + ReplaceAll(s[1..], p, r)
  }

  /** Joining a first part in front of the rest. */
  lemma JoinCons(x: string, t: seq<string>, sep: string)
    requires |t| >= 1
    ensures Join([x] + t, sep) == x + sep + Join(t, sep)
  {
    assert ([x] + t)[1..] == t;
  }

  lemma JoinPrepend(x: string, y: string, t: seq<string>, sep: string)
    ensures Join([x + y] + t, sep) == x + Join([y] + t, sep)
  {
    if t != [] {
      assert ([x + y] + t)[1..] == t == ([y] + t)[1..];
    }
  }

  /** With an empty pattern `replace` joins the characters with `r`, between
      two empty pieces. */
  lemma {:induction false} ReplaceEmptyIsJoin(s: string, r: string)
    ensures ReplaceAll(s, [], r) == Join([[]] + CharPieces(s), r)
    decreases |s|
  {
    if s != [] {
      var tail := CharPieces(s[1..]);
      ReplaceEmptyIsJoin(s[1..], r);
      assert CharPieces(s) == [[s[0]]] + tail;
      JoinCons([], [[s[0]]] + tail, r);
      JoinCons([s[0]], tail, r);
      JoinCons([], tail, r);
      calc {
        Join([[]] + CharPieces(s), r);
        r + Join([[s[0]]] + tail, r);
        r + ([s[0]] + r + Join(tail, r));
        r + [s[0]] + Join([[]] + tail, r);
        ReplaceAll(s, [], r);
      }
    }
  }

  /** `replace` is `split` followed by `join`: the replacement goes exactly
      between the pieces that `split` cuts out. */
  lemma {:induction false} ReplaceIsJoinOfSplit(s: string, p: string, r: string)
    ensures ReplaceAll(s, p, r) == Join(Split(s, p), r)
    decreases |s|
  {
    if p == [] {
      ReplaceEmptyIsJoin(s, r);
    } else if |s| < |p| {
      assert Split(s, p) == [s];
    } else if s[..|p|] == p {
      ReplaceIsJoinOfSplit(s[|p|..], p, r);
      ReplaceJoinAtMatch(s, p, r);
    } else {
      ReplaceIsJoinOfSplit(s[1..], p, r);
      ReplaceJoinPastHead(s, p, r);
    }
  }

  /** The step of `ReplaceIsJoinOfSplit` where `s` starts with `p`. */
  lemma ReplaceJoinAtMatch(s: string, p: string, r: string)
    requires p != [] && |p| <= |s| && s[..|p|] == p
    requires ReplaceAll(s[|p|..], p, r) == Join(Split(s[|p|..], p), r)
    ensures ReplaceAll(s, p, r) == Join(Split(s, p), r)
  {
    var rest := Split(s[|p|..], p);
    assert Split(s, p) == [[]] + rest;
    JoinCons([], rest, r);
  }

  /** The step of `ReplaceIsJoinOfSplit` where `s` does not start with `p`. */
  lemma ReplaceJoinPastHead(s: string, p: string, r: string)
    requires p != [] && |p| <= |s| && s[..|p|] != p
    requires ReplaceAll(s[1..], p, r) == Join(Split(s[1..], p), r)
    ensures ReplaceAll(s, p, r) == Join(Split(s, p), r)
  {
    var rest := Split(s[1..], p);
    assert Split(s, p) == [[s[0]] + rest[0]] + rest[1..];
    assert [rest[0]] + rest[1..] == rest;
    JoinPrepend([s[0]], rest[0], rest[1..], r);
  }

  /** `split` cuts at the first occurrence that `find` reports and carries on
      after it: the leftmost rule, so overlapping occurrences are taken from
      the left. */
  lemma {:induction false} SplitAtFirst(s: string, p: string, k: nat)
    requires p != [] && FindFirst(s, p) == Some(k)
    ensures Split(s, p) == [s[..k]] + Split(s[k + |p|..], p)
    decreases |s|, 1
  {
    assert OccursAt(s, p, k);
    if s[..|p|] == p {
      assert OccursAt(s, p, 0) && k == 0;
      assert Split(s, p) == [[]] + Split(s[|p|..], p);
      assert s[..k] == [] && s[k + |p|..] == s[|p|..];
    } else {
      var t := s[1..];
      FindAfterHead(s, p);
      TailOfTail(s, k + |p|);
      SplitAtFirstRest(t, p, k - 1, s[k + |p|..]);
      var rest, after := Split(t, p), Split(s[k + |p|..], p);
      assert rest[0] == t[..k - 1] && rest[1..] == after;
      HeadAndPrefix(s, k);
      assert Split(s, p) == [[s[0]] + rest[0]] + rest[1..];
      assert Split(s, p) == [s[..k]] + after;
    }
  }

  /** The first cut in `t`, with the rest after it named `u`. */
  lemma {:induction false} SplitAtFirstRest(t: string, p: string, j: nat, u: string)
    requires p != [] && FindFirst(t, p) == Some(j)
    requires j + |p| <= |t| && u == t[j + |p|..]
    ensures Split(t, p) == [t[..j]] + Split(u, p)
    decreases |t|, 2
  {
    SplitAtFirst(t, p, j);
  }

  lemma TailOfTail(s: string, i: nat)
    requires 1 <= i <= |s|
    ensures s[1..][i - 1..] == s[i..]
  {
  }

  lemma HeadAndPrefix(s: string, k: nat)
    requires 1 <= k <= |s|
    ensures [s[0]] + s[1..][..k - 1] == s[..k]
  {
  }

  /** When `s` does not start with `p`, `find` in `s` is one past `find` in
      its tail. */
  lemma FindAfterHead(s: string, p: string)
    requires p != [] && FindFirst(s, p).Some? && s[..|p|] != p
    ensures FindFirst(s, p).value >= 1 && FindFirst(s[1..], p) == Some(FindFirst(s, p).value - 1)
  {
  }

  /** `replace` copies the text before the first occurrence, emits `r` in its
      place and carries on after it. */
  lemma ReplaceAtFirst(s: string, p: string, r: string, k: nat)
    requires p != [] && FindFirst(s, p) == Some(k)
    ensures ReplaceAll(s, p, r) == s[..k] + r + ReplaceAll(s[k + |p|..], p, r)
  {
    var rest := s[k + |p|..];
    SplitAtFirst(s, p, k);
    ReplaceIsJoinOfSplit(s, p, r);
    ReplaceIsJoinOfSplit(rest, p, r);
    JoinCons(s[..k], Split(rest, p), r);
  }

  /** Overlapping occurrences are replaced from the left: in "abaaa" the
      pattern "aa" is replaced at offset 2, not at offset 3. */
  lemma ReplaceOverlapExample(s: string, p: string)
    requires s == "abaaa" && p == "aa"
    ensures ReplaceAll(s, p, "[aa]") == "ab[aa]a"
  {
    assert FindFirst(s, p) == Some(2) by {
      assert OccursAt(s, p, 2) by { assert s[2..4] == p; }
      assert !OccursAt(s, p, 0) by { assert s[0..2][1] != p[1]; }
      assert !OccursAt(s, p, 1) by { assert s[1..3][0] != p[0]; }
    }
    ReplaceAtFirst(s, p, "[aa]", 2);
    assert s[4..] == "a" && s[..2] == "ab";
  }

  /** Joining the pieces back with the pattern gives the string back. */
  lemma {:induction false} SplitJoinRoundTrip(s: string, p: string)
    ensures Join(Split(s, p), p) == s
  {
    ReplaceIsJoinOfSplit(s, p, p);
    ReplaceWithItself(s, p);
  }

  /** Replacing a pattern by itself changes nothing. */
  lemma {:induction false} ReplaceWithItself(s: string, p: string)
    ensures ReplaceAll(s, p, p) == s
    decreases |s|
  {
    if p == [] {
      if s != [] {
        ReplaceWithItself(s[1..], p);
        assert s == [s[0]] + s[1..];
      }
    } else if |s| < |p| {
    } else if s[..|p|] == p {
      ReplaceWithItself(s[|p|..], p);
      assert s == s[..|p|] + s[|p|..];
    } else {
      ReplaceWithItself(s[1..], p);
      assert s == [s[0]] + s[1..];
    }
  }

  /** No piece that `split` cuts out still contains a non-empty pattern, so
      `replace` leaves no occurrence of it between the replacements. */
  lemma {:induction false} SplitPiecesAreFree(s: string, p: string)
    requires p != []
    ensures forall i :: 0 <= i < |Split(s, p)| ==> !Contains(Split(s, p)[i], p)
    decreases |s|
  {
    var parts := Split(s, p);
    if |s| < |p| {
    } else if s[..|p|] == p {
      SplitPiecesAreFree(s[|p|..], p);
      assert forall i :: 1 <= i < |parts| ==> parts[i] == Split(s[|p|..], p)[i - 1];
    } else {
      SplitPiecesAreFree(s[1..], p);
      var rest := Split(s[1..], p);
      var first := [s[0]] + rest[0];
      assert parts[0] == first;
      forall k ensures !OccursAt(first, p, k) {
        if k == 0 {
          if |p| <= |first| {
            assert first[..|p|] == s[..|p|];
          }
        } else if k > 0 {
          OccursShift(first, p, k);
          assert first[1..] == rest[0];
        }
      }
      assert forall i :: 1 <= i < |parts| ==> parts[i] == rest[i];
    }
  }

  /** Without an occurrence of a non-empty pattern, `replace` is the identity. */
  lemma {:induction false} ReplaceWithoutMatch(s: string, p: string, r: string)
    requires p != [] && !Contains(s, p)
    ensures ReplaceAll(s, p, r) == s
  {
    SplitWithoutMatch(s, p);
    ReplaceIsJoinOfSplit(s, p, r);
  }

  lemma {:induction false} SplitWithoutMatch(s: string, p: string)
    requires p != [] && !Contains(s, p)
    ensures Split(s, p) == [s]
    decreases |s|
  {
    if |s| >= |p| {
      assert !OccursAt(s, p, 0);
      forall j ensures !OccursAt(s[1..], p, j) {
        if j >= 0 { OccursShift(s, p, j + 1); }
      }
      SplitWithoutMatch(s[1..], p);
      assert s[..|p|] != p;
      assert [s[0]] + s[1..] == s;
    }
  }

  /** With an empty pattern the replacement lands at every character boundary. */
  lemma ReplaceEmptyPatternExample()
    ensures ReplaceAll("ab", "", "X") == "XaXbX"
  {
  }

  /** `replace` copies a prefix that lacks the first character of `p`. */
  lemma {:induction false} ReplaceSkipsPrefix(x: string, y: string, p: string, r: string)
    requires p != [] && forall k :: 0 <= k < |x| ==> x[k] != p[0]
    ensures ReplaceAll(x + y, p, r) == x + ReplaceAll(y, p, r)
    decreases |x|
  {
    if x == [] {
      assert x + y == y;
    } else {
      var s := x + y;
      assert s[0] == x[0] && s[1..] == x[1..] + y;
      ReplaceHead(s, p, r);
      ReplaceSkipsPrefix(x[1..], y, p, r);
      calc {
        ReplaceAll(s, p, r);
        [x[0]] + ReplaceAll(x[1..] + y, p, r);
        [x[0]] + (x[1..] + ReplaceAll(y, p, r));
        ([x[0]] + x[1..]) + ReplaceAll(y, p, r);
        { assert [x[0]] + x[1..] == x; }
        x + ReplaceAll(y, p, r);
      }
    }
  }

  /** A string that does not start with the first character of `p` keeps its
      first character. */
  lemma ReplaceHead(s: string, p: string, r: string)
    requires s != [] && p != [] && s[0] != p[0]
    ensures ReplaceAll(s, p, r) == [s[0]] + ReplaceAll(s[1..], p, r)
  {
    if |s| < |p| {
      assert ReplaceAll(s[1..], p, r) == s[1..];
      assert [s[0]] + s[1..] == s;
    } else {
      assert s[..|p|][0] == s[0];
    }
  }

  /** At an occurrence of `p`, `replace` emits `r` and carries on after it. */
  lemma ReplaceAtMatch(y: string, p: string, r: string)
    requires p != []
    ensures ReplaceAll(p + y, p, r) == r + ReplaceAll(y, p, r)
  {
    assert (p + y)[..|p|] == p && (p + y)[|p|..] == y;
  }
}
