/** Substring search: `str::contains` and `str::find`, with offsets counted in
    characters. */
module Substrings {
  import opened Ascii

  datatype Option<T> = None | Some(value: T)

  /** `p` occurs in `s` starting at offset `k`. */
  predicate OccursAt(s: string, p: string, k: int) {
    0 <= k && k + |p| <= |s| && s[k..k + |p|] == p
  }

  /** The first offset at which `p` occurs in `s`, if any (`str::find`). */
  function FindFirst(s: string, p: string): (r: Option<nat>)
    ensures r.Some? ==> OccursAt(s, p, r.value)
    ensures r.Some? ==> forall j :: 0 <= j < r.value ==> !OccursAt(s, p, j)
    ensures r.None? ==> forall j :: !OccursAt(s, p, j)
    decreases |s|
  {
    if |s| < |p| then None
    else if s[..|p|] == p then Some(0)
    else
      assert forall j :: 1 <= j ==> (OccursAt(s, p, j) <==> OccursAt(s[1..], p, j - 1)) by {
        forall j | 1 <= j { OccursShift(s, p, j); }
      }
      match FindFirst(s[1..], p)
      case None => None
      case Some(k) => Some(k + 1)
  }

  /** Dropping the first character moves every later occurrence one to the left. */
  lemma OccursShift(s: string, p: string, j: int)
    requires 1 <= j && s != []
    ensures OccursAt(s, p, j) <==> OccursAt(s[1..], p, j - 1)
  {
    if j + |p| <= |s| {
      var a, b := s[j..j + |p|], s[1..][j - 1..j - 1 + |p|];
      forall i | 0 <= i < |p| ensures a[i] == b[i] {
        assert a[i] == s[j + i] && b[i] == s[1..][j - 1 + i];
      }
      assert a == b;
    }
  }

  /** A string that lacks the first character of `p` cannot contain `p`. */
  lemma MissingFirstChar(s: string, p: string)
    requires p != [] && forall i :: 0 <= i < |s| ==> s[i] != p[0]
    ensures !Contains(s, p)
  {
    forall k | 0 <= k && k + |p| <= |s| ensures !OccursAt(s, p, k) {
      assert s[k..k + |p|][0] == s[k];
    }
  }

  /** `s` contains `p` as a contiguous substring (`str::contains`): `find`
      succeeds exactly when `p` occurs at some offset. */
  function Contains(s: string, p: string): (b: bool)
    ensures b <==> exists k :: OccursAt(s, p, k)
  {
    var r := FindFirst(s, p);
    r.Some? && OccursAt(s, p, r.value)
  }

  /** The empty string occurs everywhere, so an empty query keeps every line. */
  lemma EmptyAlwaysContained(s: string)
    ensures FindFirst(s, []) == Some(0)
  {
    assert OccursAt(s, [], 0);
  }

  /** An occurrence survives lowering both sides: every line the exact search
      keeps, the case-insensitive search keeps too. */
  lemma {:induction false} ContainsLower(s: string, p: string)
    requires Contains(s, p)
    ensures Contains(Lower(s), Lower(p))
  {
    var k := FindFirst(s, p).value;
    LowerSlice(s, k, k + |p|);
    assert OccursAt(Lower(s), Lower(p), k);
  }

  /** The converse fails: lowering can create a match. */
  lemma LoweringAddsMatches(line: string, query: string)
    requires line == "Duct tape." && query == "duct"
    ensures !Contains(line, query) && Contains(Lower(line), Lower(query))
  {
    MissingFirstChar(line, query);
    LowerNoUpper(query);
    LowerSlice(line, 0, 4);
    assert line[..4] == "Duct";
    assert OccursAt(Lower(line), query, 0);
  }

  /** A prefix without the first character of `p` cannot hold the start of
      an occurrence of `p`. */
  lemma {:induction false} ContainsSkipsPrefix(x: string, y: string, p: string)
    requires p != [] && forall k :: 0 <= k < |x| ==> x[k] != p[0]
    ensures Contains(x + y, p) <==> Contains(y, p)
    decreases |x|
  {
    if x == [] {
      assert x + y == y;
    } else {
      var s := x + y;
      assert s[1..] == x[1..] + y;
      assert !OccursAt(s, p, 0) by {
        if |p| <= |s| { assert s[..|p|][0] == x[0]; }
      }
      ContainsStep(s, p);
      ContainsSkipsPrefix(x[1..], y, p);
      assert Contains(s, p) <==> Contains(x[1..] + y, p);
    }
  }

  /** A string that does not start with `p` contains it exactly when its tail
      does. */
  lemma ContainsStep(s: string, p: string)
    requires s != [] && !OccursAt(s, p, 0)
    ensures Contains(s, p) <==> Contains(s[1..], p)
  {
  }
}
