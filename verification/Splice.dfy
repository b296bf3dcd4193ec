/** Range edits on a text: splicing them in from the right is the same as
    substituting all of them at once. */
module Splice {
  import opened Prelude

  datatype Edit = Edit(start: nat, end: nat, replacement: string)

  /** Edits in order, disjoint, from position from on and within length n. */
  predicate Placed(n: nat, edits: seq<Edit>, from: nat)
    decreases |edits|
  {
    if edits == [] then from <= n
    else from <= edits[0].start <= edits[0].end && Placed(n, edits[1..], edits[0].end)
  }

  lemma {:induction false} PlacedBounds(n: nat, edits: seq<Edit>, from: nat)
    requires Placed(n, edits, from)
    ensures from <= n
    ensures forall e | e in edits :: from <= e.start <= e.end <= n
    decreases |edits|
  {
    if edits != [] {
      PlacedBounds(n, edits[1..], edits[0].end);
      assert forall e | e in edits :: e == edits[0] || e in edits[1..];
    }
  }

  /** Simultaneous substitution in the text from position from on. */
  function Substitute(text: string, edits: seq<Edit>, from: nat): string
    requires Placed(|text|, edits, from)
    decreases |edits|
  {
    PlacedBounds(|text|, edits, from);
    if edits == [] then text[from..]
    else text[from..edits[0].start] + (edits[0].replacement + Substitute(text, edits[1..], edits[0].end))
  }

  /** String slicing with both ends clamped to the text. */
  function Clamp(text: string, at: nat): nat { if at <= |text| then at else |text| }

  function SliceTo(text: string, end: nat): string { text[..Clamp(text, end)] }

  function SliceFrom(text: string, start: nat): string { text[Clamp(text, start)..] }

  lemma {:induction false} PlacedSuffix(n: nat, edits: seq<Edit>, from: nat, i: nat)
    requires Placed(n, edits, from) && i < |edits|
    ensures edits[i].start <= edits[i].end && Placed(n, edits[i + 1..], edits[i].end)
    decreases i
  {
    if i > 0 {
      PlacedSuffix(n, edits[1..], edits[0].end, i - 1);
      assert edits[1..][i..] == edits[i + 1..];
    }
  }

  lemma GlueSlices(text: string, a: nat, b: nat, c: nat)
    requires a <= b <= c <= |text|
    ensures text[a..c] == text[a..b] + text[b..c]
  {
  }

  lemma SubstituteSkips(text: string, edits: seq<Edit>, from: nat, at: nat)
    requires from <= at && Placed(|text|, edits, at)
    ensures at <= |text| && Placed(|text|, edits, from)
    ensures Substitute(text, edits, from) == text[from..at] + Substitute(text, edits, at)
  {
    PlacedBounds(|text|, edits, at);
    if edits == [] {
      GlueSlices(text, from, at, |text|);
    } else {
      var e := edits[0];
      assert e in edits;
      GlueSlices(text, from, at, e.start);
      Glue(text[from..at], text[at..e.start], e.replacement + Substitute(text, edits[1..], e.end));
    }
  }

  /** Edits with their ends brought back to the end of a text of length n. */
  function Cropped(n: nat, edits: seq<Edit>): seq<Edit> {
    seq(|edits|, i requires 0 <= i < |edits| =>
      Edit(edits[i].start, if edits[i].end <= n then edits[i].end else n, edits[i].replacement))
  }

  /** Placed in a text of length n, but that the last may reach past its end. */
  predicate PlacedOrPast(n: nat, edits: seq<Edit>) {
    Placed(n, Cropped(n, edits), 0) && forall i | 0 <= i < |edits| - 1 :: edits[i].end <= n
  }

  lemma PlacedNeedsNoCrop(n: nat, edits: seq<Edit>)
    requires Placed(n, edits, 0)
    ensures Cropped(n, edits) == edits && PlacedOrPast(n, edits)
  {
    PlacedBounds(n, edits, 0);
    assert forall i | 0 <= i < |edits| :: edits[i] in edits;
    assert forall i | 0 <= i < |edits| :: Cropped(n, edits)[i] == edits[i];
  }

  /** The right-to-left loop.  Each step splices one edit into what the steps
      before it have made, at positions of the original text. */
  method ApplyFromRight(text: string, edits: seq<Edit>) returns (edited: string)
    ensures PlacedOrPast(|text|, edits) ==> edited == Substitute(text, Cropped(|text|, edits), 0)
    ensures Placed(|text|, edits, 0) ==> edited == Substitute(text, edits, 0)
  {
    edited := text;
    ghost var ordered, cropped := PlacedOrPast(|text|, edits), Cropped(|text|, edits);
    ghost var at := |text|;
    if ordered {
      PlacedBounds(|text|, cropped, 0);
      assert cropped[|edits|..] == [];
    }
    for i := |edits| downto 0
      invariant ordered ==> at <= |text| && (if i == |edits| then at == |text| else at == cropped[i].start)
      invariant ordered ==> Placed(|text|, cropped[i..], at)
      invariant ordered ==> edited == text[..at] + Substitute(text, cropped[i..], at)
    {
      var e := edits[i];
      if ordered {
        LastMayReachPast(text, edits, i, edited);
      }
      edited := SliceTo(edited, e.start) + e.replacement + SliceFrom(edited, e.end);
      if ordered {
        PlacedPair(|text|, cropped, i);
        SpliceStep(text, cropped[i], cropped[i + 1..], at);
        assert cropped[i..] == [cropped[i]] + cropped[i + 1..];
        at := e.start;
      }
    }
    if ordered {
      assert cropped[0..] == cropped;
      SubstituteSkips(text, cropped, 0, at);
      assert text[..at] == text[0..at];
    }
    if Placed(|text|, edits, 0) {
      PlacedNeedsNoCrop(|text|, edits);
    }
  }

  /** Slicing from past the end of a text is slicing from its end. */
  lemma LastMayReachPast(text: string, edits: seq<Edit>, i: nat, edited: string)
    requires PlacedOrPast(|text|, edits) && i < |edits|
    requires i == |edits| - 1 ==> |edited| == |text|
    ensures SliceFrom(edited, edits[i].end) == SliceFrom(edited, Cropped(|text|, edits)[i].end)
  {
  }

  lemma {:induction false} SpliceStep(text: string, e: Edit, later: seq<Edit>, at: nat)
    requires e.start <= e.end <= at && Placed(|text|, later, at)
    ensures at <= |text| && Placed(|text|, [e] + later, e.start)
    ensures var right := text[..at] + Substitute(text, later, at);
      SliceTo(right, e.start) + e.replacement + SliceFrom(right, e.end)
      == text[..e.start] + Substitute(text, [e] + later, e.start)
  {
    PlacedBounds(|text|, later, at);
    SubstituteSkips(text, later, e.end, at);
    SpliceSlices(text, e, at, Substitute(text, later, at));
    SubstituteFirst(text, e, later);
    Glue(text[..e.start], e.replacement, Substitute(text, later, e.end));
  }

  lemma {:induction false} SubstituteFirst(text: string, e: Edit, later: seq<Edit>)
    requires e.start <= e.end && Placed(|text|, later, e.end)
    ensures Placed(|text|, [e] + later, e.start)
    ensures Substitute(text, [e] + later, e.start) == e.replacement + Substitute(text, later, e.end)
  {
    PlacedBounds(|text|, later, e.end);
    assert ([e] + later)[1..] == later;
    assert text[e.start..e.start] == [];
  }

  lemma PlacedPair(n: nat, edits: seq<Edit>, i: nat)
    requires Placed(n, edits, 0) && i < |edits|
    ensures edits[i].start <= edits[i].end <= n
    ensures i + 1 < |edits| ==> edits[i].end <= edits[i + 1].start
  {
    PlacedSuffix(n, edits, 0, i);
    PlacedBounds(n, edits[i + 1..], edits[i].end);
    assert i + 1 < |edits| ==> edits[i + 1] == edits[i + 1..][0];
  }

  lemma SpliceSlices(text: string, e: Edit, at: nat, tail: string)
    requires e.start <= e.end <= at <= |text|
    ensures SliceTo(text[..at] + tail, e.start) == text[..e.start]
    ensures SliceFrom(text[..at] + tail, e.end) == text[e.end..at] + tail
  {
  }

  // ----------------------------------------------------- reading the result

  /** Nothing of the edits reaches across position at, which the first k edits
      lie before. */
  predicate Cut(edits: seq<Edit>, k: nat, at: nat) {
    k <= |edits|
    && (forall e | e in edits[..k] :: e.end <= at)
    && (forall e | e in edits[k..] :: e.start >= at)
  }

  lemma {:induction false} CutPlaces(n: nat, edits: seq<Edit>, from: nat, k: nat, at: nat)
    requires Placed(n, edits, from) && from <= at <= n && Cut(edits, k, at)
    ensures Placed(at, edits[..k], from) && Placed(n, edits[k..], at)
    decreases |edits|
  {
    if k == 0 {
      assert edits[0..] == edits && edits[..0] == [];
      assert edits != [] ==> edits[0] in edits[0..];
    } else {
      assert edits[..k][0] == edits[0] && edits[0] in edits[..k];
      assert edits[..k][1..] == edits[1..][..k - 1] && edits[k..] == edits[1..][k - 1..];
      assert forall x | x in edits[1..][..k - 1] :: x in edits[..k];
      CutPlaces(n, edits[1..], edits[0].end, k - 1, at);
    }
  }

  /** A position between two groups of edits divides the result: what is left
      of it depends on the text and the edits left of it only. */
  lemma {:induction false} SubstituteSplits(text: string, left: seq<Edit>, right: seq<Edit>, from: nat, at: nat)
    requires at <= |text| && Placed(at, left, from) && Placed(|text|, right, at)
    ensures Placed(|text|, left + right, from)
    ensures Substitute(text, left + right, from)
         == Substitute(text[..at], left, from) + Substitute(text, right, at)
    decreases |left|
  {
    PlacedBounds(at, left, from);
    if left == [] {
      assert left + right == right;
      SubstituteSkips(text, right, from, at);
      assert text[..at][from..] == text[from..at];
    } else {
      var e, rest := left[0], left[1..];
      assert e in left;
      assert (left + right)[0] == e && (left + right)[1..] == rest + right;
      SubstituteSplits(text, rest, right, e.end, at);
      var l, r := Substitute(text[..at], rest, e.end), Substitute(text, right, at);
      PrefixSlice(text, at, from, e.start);
      Glue(e.replacement, l, r);
      Glue(text[from..e.start], e.replacement + l, r);
    }
  }

  lemma PrefixSlice(text: string, at: nat, a: nat, b: nat)
    requires a <= b <= at <= |text|
    ensures text[..at][a..b] == text[a..b]
  {
  }

  /** A stretch of text between two positions that no edit reaches across
      shows up in the result in one piece, edited by what lies inside it. */
  lemma StretchInResult(
    text: string, left: seq<Edit>, inside: seq<Edit>, right: seq<Edit>, a: nat, b: nat)
    requires a <= b <= |text|
    requires Placed(a, left, 0) && Placed(b, inside, a) && Placed(|text|, right, b)
    ensures Placed(|text|, left + inside + right, 0)
    ensures Substitute(text, left + inside + right, 0)
         == Substitute(text[..a], left, 0)
            + (Substitute(text[..b], inside, a) + Substitute(text, right, b))
  {
    SubstituteSplits(text[..b], left, inside, 0, a);
    assert text[..b][..a] == text[..a];
    SubstituteSplits(text, left + inside, right, 0, b);
    Glue(Substitute(text[..a], left, 0), Substitute(text[..b], inside, a), Substitute(text, right, b));
  }

  /** The text between positions a and b, edited, is a piece of the result: the
      first j edits come out left of it and those from k on right of it. */
  predicate ShowsAt(text: string, edits: seq<Edit>, j: nat, a: nat, k: nat, b: nat, piece: string)
    requires Placed(|text|, edits, 0)
  {
    && j <= k <= |edits| && a <= b <= |text|
    && Placed(a, edits[..j], 0) && Placed(|text|, edits[k..], b)
    && Substitute(text, edits, 0)
       == Substitute(text[..a], edits[..j], 0) + (piece + Substitute(text, edits[k..], b))
  }

  /** Edits in order do not reach across each other's ends. */
  lemma EditIsCut(n: nat, edits: seq<Edit>, i: nat)
    requires Placed(n, edits, 0) && i < |edits|
    ensures edits[i].start <= edits[i].end <= n
    ensures Cut(edits, i, edits[i].start) && Cut(edits, i + 1, edits[i].end)
  {
    PlacedSuffix(n, edits, 0, i);
    PlacedBounds(n, edits[i + 1..], edits[i].end);
    forall e | e in edits[..i]
      ensures e.end <= edits[i].start
    {
      var k :| 0 <= k < i && edits[k] == e;
      PlacedSuffix(n, edits, 0, k);
      PlacedBounds(n, edits[k + 1..], e.end);
      assert edits[i] == edits[k + 1..][i - k - 1];
    }
    assert edits[i..] == [edits[i]] + edits[i + 1..];
    assert edits[..i + 1] == edits[..i] + [edits[i]];
  }

  ghost predicate Shows(text: string, edits: seq<Edit>, a: nat, b: nat, piece: string)
    requires Placed(|text|, edits, 0)
  {
    exists j, k :: ShowsAt(text, edits, j, a, k, b, piece)
  }

  /** An edit shows as its replacement. */
  lemma EditShows(text: string, edits: seq<Edit>, m: nat)
    requires Placed(|text|, edits, 0) && m < |edits|
    ensures Shows(text, edits, edits[m].start, edits[m].end, edits[m].replacement)
  {
    var e := edits[m];
    EditIsCut(|text|, edits, m);
    CutShows(text, edits, m, e.start, m + 1, e.end);
    assert edits[m..m + 1] == [e];
    OneEdit(text[..e.end], e);
  }

  lemma OneEdit(text: string, e: Edit)
    requires e.start <= e.end == |text|
    ensures Placed(|text|, [e], e.start)
    ensures Substitute(text, [e], e.start) == e.replacement
  {
    assert text[e.start..e.start] == [] && text[e.end..] == [];
  }

  lemma CutTwicePlaces(n: nat, edits: seq<Edit>, j: nat, a: nat, k: nat, b: nat)
    requires Placed(n, edits, 0) && a <= b <= n && j <= k
    requires Cut(edits, j, a) && Cut(edits, k, b)
    ensures Placed(a, edits[..j], 0) && Placed(b, edits[j..k], a) && Placed(n, edits[k..], b)
  {
    assert edits[..k][..j] == edits[..j] && edits[..k][j..] == edits[j..k];
    assert forall e | e in edits[j..k] :: e in edits[j..];
    CutPlaces(n, edits, 0, k, b);
    CutPlaces(b, edits[..k], 0, j, a);
  }

  lemma CutShows(text: string, edits: seq<Edit>, j: nat, a: nat, k: nat, b: nat)
    requires Placed(|text|, edits, 0) && a <= b <= |text| && j <= k
    requires Cut(edits, j, a) && Cut(edits, k, b)
    ensures Placed(b, edits[j..k], a)
    ensures ShowsAt(text, edits, j, a, k, b, Substitute(text[..b], edits[j..k], a))
  {
    CutTwicePlaces(|text|, edits, j, a, k, b);
    ThreeParts(edits, j, k);
    StretchInResult(text, edits[..j], edits[j..k], edits[k..], a, b);
  }

  lemma ThreeParts<T>(s: seq<T>, j: nat, k: nat)
    requires j <= k <= |s|
    ensures s[..j] + s[j..k] + s[k..] == s
  {
  }

  /** By how much edits lengthen a text. */
  function Growth(edits: seq<Edit>): int {
    if edits == [] then 0
    else |edits[0].replacement| - (edits[0].end - edits[0].start) + Growth(edits[1..])
  }

  lemma {:induction false} SubstituteLength(text: string, edits: seq<Edit>, from: nat)
    requires Placed(|text|, edits, from)
    ensures |Substitute(text, edits, from)| == |text| - from + Growth(edits)
    decreases |edits|
  {
    PlacedBounds(|text|, edits, from);
    if edits != [] {
      SubstituteLength(text, edits[1..], edits[0].end);
    }
  }

  predicate Disjoint(a: Edit, b: Edit) {
    a.end <= b.start || b.end <= a.start
  }

  /** Ordering disjoint non-empty ranges by start is enough to place them. */
  lemma {:induction false} OrderedIsPlaced(n: nat, edits: seq<Edit>, from: nat)
    requires from <= n
    requires forall e | e in edits :: from <= e.start < e.end <= n
    requires forall i, j | 0 <= i < j < |edits| :: edits[i].start <= edits[j].start && Disjoint(edits[i], edits[j])
    ensures Placed(n, edits, from)
    decreases |edits|
  {
    if edits != [] {
      assert edits[0] in edits;
      forall e | e in edits[1..]
        ensures edits[0].end <= e.start < e.end <= n
      {
        var i :| 0 <= i < |edits[1..]| && edits[1..][i] == e;
        assert edits[i + 1] == e && e in edits;
      }
      OrderedIsPlaced(n, edits[1..], edits[0].end);
    }
  }
}
