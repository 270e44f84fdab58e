/**
 * The string rewrite inside `moveElement` (GitgraphUI.tsx): the first match of
 * the regular expression `translate\(([\d\.]+),` in an element's `transform`
 * becomes `translate(<x>,`; a missing or empty transform counts as
 * "translate(0, 0)".
 *
 * A regular-expression search tries each start position in turn; at a start
 * position the greedy `[\d\.]+` can only give back characters that are
 * themselves digits or dots, so the pattern matches there exactly when the
 * maximal run of digits and dots after "translate(" is non-empty and is
 * followed by a comma.
 */
module Transforms {
  import opened JsValues
  import Offsets

  const Prefix: string := "translate("

  /** The characters of the class `[\d\.]`. */
  predicate IsRunChar(c: char) {
    IsDigit(c) || c == '.'
  }

  /** The end of the maximal run of digits and dots starting at `j`. */
  function RunEnd(s: string, j: nat): (e: nat)
    requires j <= |s|
    ensures j <= e <= |s|
    decreases |s| - j
  {
    if j < |s| && IsRunChar(s[j]) then RunEnd(s, j + 1) else j
  }

  lemma {:induction false} RunEndSpec(s: string, j: nat)
    requires j <= |s|
    ensures forall m :: j <= m < RunEnd(s, j) ==> IsRunChar(s[m])
    ensures RunEnd(s, j) < |s| ==> !IsRunChar(s[RunEnd(s, j)])
    decreases |s| - j
  {
    if j < |s| && IsRunChar(s[j]) {
      RunEndSpec(s, j + 1);
    }
  }

  /** The pattern matches at `p`: "translate(", a non-empty run of digits and dots, then a comma. */
  predicate MatchAt(s: string, p: nat) {
    && OccursAt(s, Prefix, p)
    && p + |Prefix| < |s|
    && IsRunChar(s[p + |Prefix|])
    && RunEnd(s, p + |Prefix|) < |s|
    && s[RunEnd(s, p + |Prefix|)] == ','
  }

  /** The first start position at or after `from` where the pattern matches. */
  function FirstMatch(s: string, from: nat): (r: Option<nat>)
    requires from <= |s|
    ensures r.Some? ==> from <= r.value && r.value + |Prefix| < |s|
    decreases |s| - from
  {
    if MatchAt(s, from) then Some(from)
    else if from == |s| then None
    else FirstMatch(s, from + 1)
  }

  lemma {:induction false} FirstMatchSpec(s: string, from: nat)
    requires from <= |s|
    ensures FirstMatch(s, from).Some? ==> MatchAt(s, FirstMatch(s, from).value)
    ensures FirstMatch(s, from).Some? ==> forall q :: from <= q < FirstMatch(s, from).value ==> !MatchAt(s, q)
    ensures FirstMatch(s, from).None? ==> forall q :: from <= q ==> !MatchAt(s, q)
    decreases |s| - from
  {
    if !MatchAt(s, from) && from < |s| {
      FirstMatchSpec(s, from + 1);
    }
  }

  /** The search finds `p` when the pattern matches there and nowhere before. */
  lemma FirstMatchIs(s: string, p: nat)
    requires MatchAt(s, p)
    requires forall q :: 0 <= q < p ==> !MatchAt(s, q)
    ensures FirstMatch(s, 0) == Some(p)
  {
    FirstMatchSpec(s, 0);
  }

  /** `transform.replace(/translate\(([\d\.]+),/, `translate(${x},`)` */
  function Rewrite(s: string, x: int): string {
    match FirstMatch(s, 0)
    case None => s
    case Some(p) => s[..p] + Prefix + IntToString(x) + s[RunEnd(s, p + |Prefix|)..]
  }

  /** The transform `moveElement` writes: the rewrite of the current one, "translate(0, 0)" when there is none. */
  function MoveTransform(transform: Option<string>, x: int): string {
    var current := if transform.None? || transform.value == "" then "translate(0, 0)" else transform.value;
    Rewrite(current, x)
  }

  // ---------------------------------------------------------------------------
  // What the rewrite does to the transforms this component renders

  /** In `translate(a, b)` the only '(' is the one of the prefix. */
  lemma OnlyParenthesis(a: int, b: int)
    ensures forall k :: 0 <= k < |Offsets.RowTransform(a, b)| && Offsets.RowTransform(a, b)[k] == '(' ==> k == 9
  {
    var t := Offsets.RowTransform(a, b);
    var sa, sb := IntToString(a), IntToString(b);
    IntToStringShape(a);
    IntToStringShape(b);
    assert t == Prefix + sa + ", " + sb + ")";
    forall k | 10 <= k < 10 + |sa|
      ensures t[k] != '('
    {
      assert t[k] == sa[k - 10];
    }
    forall k | 12 + |sa| <= k < 12 + |sa| + |sb|
      ensures t[k] != '('
    {
      assert t[k] == sb[k - 12 - |sa|];
    }
  }

  /** The four parts of `a + b + c + e`, recovered by slicing. */
  lemma Slices<T>(a: seq<T>, b: seq<T>, c: seq<T>, e: seq<T>)
    ensures var t := a + b + c + e;
            && t[..|a|] == a
            && t[|a|..|a| + |b|] == b
            && t[|a| + |b|..|a| + |b| + |c|] == c
            && t[|a| + |b| + |c|..] == e
  {
  }

  /**
   * Text laid out as `a`, "translate(", a non-empty run of digits `d`, then a
   * comma: the pattern matches right after `a`, and its run is exactly `d`.
   */
  lemma MatchOfPieces(t: string, a: string, d: string, rest: string)
    requires |d| > 0 && AllDigits(d)
    requires |rest| > 0 && rest[0] == ','
    requires t == a + Prefix + d + rest
    ensures MatchAt(t, |a|)
    ensures RunEnd(t, |a| + |Prefix|) == |a| + |Prefix| + |d|
    ensures t[..|a|] == a
    ensures t[|a| + |Prefix| + |d|..] == rest
  {
    Slices(a, Prefix, d, rest);
    assert t[|a|..|a| + |Prefix|] == Prefix;
    assert AllDigits(t[|a| + |Prefix|..|a| + |Prefix| + |d|]);
    assert t[|a| + |Prefix| + |d|] == ',';
    MatchThrough(t, |a|, |a| + |Prefix| + |d|);
  }

  /** "translate(" at `p`, a non-empty run of digits up to `k`, and a comma at `k`: the pattern matches at `p`. */
  lemma MatchThrough(t: string, p: nat, k: nat)
    requires p + |Prefix| < k < |t|
    requires t[p..p + |Prefix|] == Prefix && AllDigits(t[p + |Prefix|..k]) && t[k] == ','
    ensures MatchAt(t, p) && RunEnd(t, p + |Prefix|) == k
  {
    assert t[p + |Prefix|] == t[p + |Prefix|..k][0];
    DigitsRunEnd(t, p + |Prefix|, k);
  }

  /** A run of digits followed by a character that is neither a digit nor a dot ends there. */
  lemma DigitsRunEnd(t: string, j: nat, k: nat)
    requires j <= k < |t|
    requires AllDigits(t[j..k])
    requires !IsRunChar(t[k])
    ensures RunEnd(t, j) == k
  {
    forall m | j <= m < k
      ensures IsRunChar(t[m])
    {
      assert t[m] == t[j..k][m - j];
    }
    RunEndAt(t, j, k);
  }

  /** The decimal text of a non-negative number is a non-empty run of digits. */
  lemma NonNegativeDigits(x: int)
    requires x >= 0
    ensures |IntToString(x)| > 0 && AllDigits(IntToString(x))
  {
    NatToDigitsShape(x);
  }

  /** What follows the first component of a rendered transform: `, <b>)`. */
  function SecondPart(b: int): string {
    ", " + IntToString(b) + ")"
  }

  /** A rendered transform, cut into the pieces the match sees. */
  lemma RenderedPieces(a: int, b: int)
    ensures Offsets.RowTransform(a, b) == [] + Prefix + IntToString(a) + SecondPart(b)
  {
  }

  /** Moving a rendered `translate(a, b)` with a ≥ 0 gives `translate(x, b)`: only the first component changes. */
  lemma MoveRendered(a: int, b: int, x: int)
    requires a >= 0
    ensures Rewrite(Offsets.RowTransform(a, b), x) == Offsets.RowTransform(x, b)
  {
    var t := Offsets.RowTransform(a, b);
    RenderedPieces(a, b);
    RenderedPieces(x, b);
    NonNegativeDigits(a);
    MatchOfPieces(t, [], IntToString(a), SecondPart(b));
    FirstMatchIs(t, 0);
    assert t[..0] == [];
  }

  /** The run from `j` ends at `k` when everything in between is a run character and `s[k]` is not. */
  lemma {:induction false} RunEndAt(s: string, j: nat, k: nat)
    requires j <= k < |s|
    requires forall m :: j <= m < k ==> IsRunChar(s[m])
    requires !IsRunChar(s[k])
    ensures RunEnd(s, j) == k
    decreases k - j
  {
    if j < k {
      RunEndAt(s, j + 1, k);
    }
  }

  /** A missing transform is moved as `translate(0, 0)` is: it becomes `translate(x, 0)`. */
  lemma MoveMissing(x: int)
    ensures MoveTransform(None, x) == Offsets.RowTransform(x, 0)
    ensures MoveTransform(Some(""), x) == Offsets.RowTransform(x, 0)
  {
    assert Offsets.RowTransform(0, 0) == "translate(0, 0)";
    MoveRendered(0, 0, x);
  }

  /** A negative first component does not match `[\d\.]+`: the transform is left as it is. */
  lemma NegativeStays(a: int, b: int, x: int)
    requires a < 0
    ensures Rewrite(Offsets.RowTransform(a, b), x) == Offsets.RowTransform(a, b)
  {
    var t := Offsets.RowTransform(a, b);
    OnlyParenthesis(a, b);
    IntToStringShape(a);
    assert t[10] == IntToString(a)[0];
    forall q | 0 <= q
      ensures !MatchAt(t, q)
    {
      if OccursAt(t, Prefix, q) {
        assert t[q + 9] == t[q..q + 10][9] == '(';
      }
    }
    FirstMatchSpec(t, 0);
  }

  // ---------------------------------------------------------------------------
  // Moving twice

  /** Two strings that agree up to and including a non-run character at `k` have the same run ends before it. */
  lemma {:induction false} RunEndLocal(s: string, t: string, j: nat, k: nat)
    requires j <= k < |s| && k < |t|
    requires s[..k + 1] == t[..k + 1]
    requires !IsRunChar(t[k])
    ensures RunEnd(s, j) == RunEnd(t, j) <= k
    decreases k - j
  {
    assert s[j] == s[..k + 1][j] == t[..k + 1][j] == t[j];
    if j < k && IsRunChar(t[j]) {
      RunEndLocal(s, t, j + 1, k);
    }
  }

  /** "translate(" does not overlap itself: two occurrences are at least its length apart. */
  lemma PrefixApart(s: string, q: nat, p: nat)
    requires q < p && OccursAt(s, Prefix, q) && OccursAt(s, Prefix, p)
    ensures q + |Prefix| <= p
  {
    assert s[p] == s[p..p + 10][0] == 't';
    assert s[p + 1] == s[p..p + 10][1] == 'r';
    assert forall m :: q <= m < q + 10 ==> s[m] == s[q..q + 10][m - q] == Prefix[m - q];
    assert forall d :: 0 < d < 9 ==> Prefix[d] != 't' || Prefix[d + 1] != 'r';
    assert Prefix[9] != 't';
  }

  /**
   * Text that agrees with `s` before `p` and has "translate(" at `p` matches
   * before `p` only where `s` does.
   */
  lemma MatchBefore(s: string, t: string, q: nat, p: nat)
    requires q < p && OccursAt(s, Prefix, p)
    requires p + |Prefix| <= |t| && t[..p] == s[..p] && t[p..p + |Prefix|] == Prefix
    ensures MatchAt(t, q) ==> MatchAt(s, q)
  {
    if MatchAt(t, q) {
      assert OccursAt(t, Prefix, p);
      PrefixApart(t, q, p);
      assert t[p] == t[p..p + 10][0] == 't';
      assert s[p] == s[p..p + 10][0] == 't';
      assert s[..p + 1] == t[..p + 1] by {
        assert s[..p + 1] == s[..p] + [s[p]];
        assert t[..p + 1] == t[..p] + [t[p]];
      }
      RunEndLocal(s, t, q + 10, p);
      var e := RunEnd(t, q + 10);
      assert e != p;
      assert s[e] == s[..p][e] == t[..p][e] == t[e];
      assert s[q + 10] == s[..p][q + 10] == t[..p][q + 10] == t[q + 10];
      assert s[q..q + 10] == s[..p][q..q + 10] == t[..p][q..q + 10] == t[q..q + 10];
    }
  }

  /**
   * After a move to a non-negative x the next move rewrites the same place:
   * moving to x1 and then to x2 is moving to x2.
   */
  lemma MoveOverwrites(s: string, x1: int, x2: int)
    requires x1 >= 0
    ensures Rewrite(Rewrite(s, x1), x2) == Rewrite(s, x2)
  {
    FirstMatchSpec(s, 0);
    if FirstMatch(s, 0).Some? {
      var p := FirstMatch(s, 0).value;
      var e := RunEnd(s, p + 10);
      var d := IntToString(x1);
      var rest := s[e..];
      var t := s[..p] + Prefix + d + rest;
      assert Rewrite(s, x1) == t;
      NonNegativeDigits(x1);
      MatchOfPieces(t, s[..p], d, rest);
      assert t[p..p + 10] == Prefix;
      forall q | 0 <= q < p
        ensures !MatchAt(t, q)
      {
        MatchBefore(s, t, q, p);
      }
      FirstMatchIs(t, p);
    } else {
      assert Rewrite(s, x1) == s;
    }
  }

  /** Moving twice to the same non-negative x is moving once. */
  lemma MoveIdempotent(transform: Option<string>, x: int)
    requires x >= 0
    ensures Rewrite(MoveTransform(transform, x), x) == MoveTransform(transform, x)
  {
    var current := if transform.None? || transform.value == "" then "translate(0, 0)" else transform.value;
    MoveOverwrites(current, x, x);
  }
}
