/** Block ranges are measured on the answer as written, but pruning applies them
    to its canonical text, where citations have been rewritten and blanks been
    trimmed.  Exactly when an edit still takes out the text it was made for. */
module Offsets {
  import opened Splice
  import opened Markup

  // ------------------------------------------------------ where positions move

  /** By how much the rewrites left of a position lengthen the text. */
  function GrowthLeft(rewrites: seq<Edit>, at: nat): int {
    if rewrites == [] || rewrites[0].end > at then 0
    else |rewrites[0].replacement| - (rewrites[0].end - rewrites[0].start) + GrowthLeft(rewrites[1..], at)
  }

  function LeftOf(rewrites: seq<Edit>, at: nat): (k: nat)
    ensures k <= |rewrites|
  {
    if rewrites == [] || rewrites[0].end > at then 0 else 1 + LeftOf(rewrites[1..], at)
  }

  /** No rewrite reaches across the position. */
  predicate Uncrossed(rewrites: seq<Edit>, at: nat) {
    forall e | e in rewrites :: e.end <= at || at <= e.start
  }

  /** Where a position ends up before blanks are trimmed off the front. */
  function Moved(rewrites: seq<Edit>, at: nat): int { at + GrowthLeft(rewrites, at) }

  lemma {:induction false} UncrossedIsCut(n: nat, rewrites: seq<Edit>, from: nat, at: nat)
    requires Placed(n, rewrites, from) && from <= at <= n && Uncrossed(rewrites, at)
    ensures Cut(rewrites, LeftOf(rewrites, at), at)
    ensures forall e | e in rewrites[LeftOf(rewrites, at)..] :: e.end > at
    ensures Growth(rewrites[..LeftOf(rewrites, at)]) == GrowthLeft(rewrites, at)
    decreases |rewrites|
  {
    PlacedBounds(n, rewrites, from);
    if rewrites != [] {
      var e, rest := rewrites[0], rewrites[1..];
      PlacedBounds(n, rest, e.end);
      assert e in rewrites && rewrites == [e] + rest;
      if e.end <= at {
        UncrossedIsCut(n, rest, e.end, at);
        var k := LeftOf(rest, at);
        assert rewrites[..k + 1] == [e] + rest[..k] && rewrites[k + 1..] == rest[k..];
      }
    }
  }

  lemma {:induction false} LeftOfGrows(rewrites: seq<Edit>, a: nat, b: nat)
    requires a <= b
    ensures LeftOf(rewrites, a) <= LeftOf(rewrites, b)
  {
    if rewrites != [] && rewrites[0].end <= a {
      LeftOfGrows(rewrites[1..], a, b);
    }
  }

  ghost predicate Stretch(original: string, rewrites: seq<Edit>, a: nat, b: nat) {
    && Placed(|original|, rewrites, 0) && a <= b <= |original|
    && Uncrossed(rewrites, a) && Uncrossed(rewrites, b)
  }

  lemma StretchPlaces(original: string, rewrites: seq<Edit>, a: nat, b: nat)
    requires Stretch(original, rewrites, a, b)
    ensures var j, k := LeftOf(rewrites, a), LeftOf(rewrites, b);
      j <= k && Cut(rewrites, j, a) && Cut(rewrites, k, b) && Placed(b, rewrites[j..k], a)
  {
    UncrossedIsCut(|original|, rewrites, 0, a);
    UncrossedIsCut(|original|, rewrites, 0, b);
    LeftOfGrows(rewrites, a, b);
    CutTwicePlaces(|original|, rewrites, LeftOf(rewrites, a), a, LeftOf(rewrites, b), b);
  }

  /** What a stretch of the answer as written becomes: itself with the
      rewrites inside it. */
  ghost function Rewritten(original: string, rewrites: seq<Edit>, a: nat, b: nat): string
    requires Stretch(original, rewrites, a, b)
  {
    StretchPlaces(original, rewrites, a, b);
    Substitute(original[..b], rewrites[LeftOf(rewrites, a)..LeftOf(rewrites, b)], a)
  }

  /** It stands between the places to which its ends have moved. */
  lemma RewrittenIsSlice(original: string, rewrites: seq<Edit>, a: nat, b: nat)
    requires Stretch(original, rewrites, a, b)
    ensures var full := Substitute(original, rewrites, 0);
      && 0 <= Moved(rewrites, a) <= Moved(rewrites, b) <= |full|
      && full[Moved(rewrites, a)..Moved(rewrites, b)] == Rewritten(original, rewrites, a, b)
  {
    var j, k := LeftOf(rewrites, a), LeftOf(rewrites, b);
    StretchPlaces(original, rewrites, a, b);
    CutShows(original, rewrites, j, a, k, b);
    PlaceOfPrefix(original, rewrites, a);
    PlaceOfPrefix(original, rewrites, b);
    var left, piece := Substitute(original[..a], rewrites[..j], 0), Rewritten(original, rewrites, a, b);
    SubstituteLength(original[..b], rewrites[j..k], a);
    assert rewrites[..k] == rewrites[..j] + rewrites[j..k];
    GrowthJoins(rewrites[..j], rewrites[j..k]);
    PieceAt(left, piece, Substitute(original, rewrites[k..], b));
  }

  lemma PieceAt(left: string, piece: string, right: string)
    ensures (left + (piece + right))[|left|..|left| + |piece|] == piece
  {
  }

  lemma PlaceOfPrefix(original: string, rewrites: seq<Edit>, at: nat)
    requires Placed(|original|, rewrites, 0) && at <= |original| && Uncrossed(rewrites, at)
    ensures Placed(at, rewrites[..LeftOf(rewrites, at)], 0)
    ensures |Substitute(original[..at], rewrites[..LeftOf(rewrites, at)], 0)| == Moved(rewrites, at)
    ensures Growth(rewrites[..LeftOf(rewrites, at)]) == GrowthLeft(rewrites, at)
  {
    UncrossedIsCut(|original|, rewrites, 0, at);
    CutPlaces(|original|, rewrites, 0, LeftOf(rewrites, at), at);
    SubstituteLength(original[..at], rewrites[..LeftOf(rewrites, at)], 0);
  }

  lemma {:induction false} GrowthJoins(a: seq<Edit>, b: seq<Edit>)
    ensures Growth(a + b) == Growth(a) + Growth(b)
  {
    if a == [] {
      assert a + b == b;
    } else {
      assert (a + b)[1..] == a[1..] + b;
      GrowthJoins(a[1..], b);
    }
  }

  // -------------------------------------- which edits take out what they are for

  /** The rewrites of a parse: in order, apart, and none of them empty. */
  ghost predicate GoodRewrites(original: string, rewrites: seq<Edit>) {
    Placed(|original|, rewrites, 0) && forall e | e in rewrites :: e.start < e.end
  }

  /** An edit whose range is a stretch that is not blank once rewritten. */
  ghost predicate OfStretch(original: string, rewrites: seq<Edit>, e: Edit) {
    Stretch(original, rewrites, e.start, e.end) && !Blank(Rewritten(original, rewrites, e.start, e.end))
  }

  function Canonical(original: string, rewrites: seq<Edit>): string
    requires Placed(|original|, rewrites, 0)
  {
    Trim(Substitute(original, rewrites, 0))
  }

  lemma EndsAreStretches(original: string, rewrites: seq<Edit>, at: nat)
    requires Placed(|original|, rewrites, 0) && at <= |original| && Uncrossed(rewrites, at)
    ensures Stretch(original, rewrites, 0, at) && Stretch(original, rewrites, at, |original|)
  {
    PlacedBounds(|original|, rewrites, 0);
  }

  ghost function LeftText(original: string, rewrites: seq<Edit>, at: nat): string
    requires Placed(|original|, rewrites, 0) && at <= |original| && Uncrossed(rewrites, at)
  {
    EndsAreStretches(original, rewrites, at);
    Rewritten(original, rewrites, 0, at)
  }

  ghost function RightText(original: string, rewrites: seq<Edit>, at: nat): string
    requires Placed(|original|, rewrites, 0) && at <= |original| && Uncrossed(rewrites, at)
  {
    EndsAreStretches(original, rewrites, at);
    Rewritten(original, rewrites, at, |original|)
  }

  /** Slicing the canonical text at the ends of the edit leaves exactly what
      stood left and right of its range in the answer, rewritten and trimmed. */
  ghost predicate TakesItsText(original: string, rewrites: seq<Edit>, e: Edit) {
    && Stretch(original, rewrites, e.start, e.end)
    && var canonical := Canonical(original, rewrites);
    && SliceTo(canonical, e.start) == TrimStart(LeftText(original, rewrites, e.start))
    && SliceFrom(canonical, e.end) == TrimEnd(RightText(original, rewrites, e.end))
  }

  /** The rewrites left of each end lengthen the text by just what is trimmed
      off its front; it is enough that the range begins the answer, or that
      nothing but blanks follows it and it reaches the end of the canonical text. */
  ghost predicate StaysPut(original: string, rewrites: seq<Edit>, e: Edit) {
    && Stretch(original, rewrites, e.start, e.end)
    && var trimmed := LeadingBlanks(Substitute(original, rewrites, 0));
    && (e.start == 0 || GrowthLeft(rewrites, e.start) == trimmed)
    && (if Blank(RightText(original, rewrites, e.end)) then |Canonical(original, rewrites)| <= e.end
        else GrowthLeft(rewrites, e.end) == trimmed)
  }

  /** The exact condition, for every edit of every answer. */
  lemma TakesItsTextExactlyWhen(original: string, rewrites: seq<Edit>, e: Edit)
    requires GoodRewrites(original, rewrites) && OfStretch(original, rewrites, e)
    ensures TakesItsText(original, rewrites, e) <==> StaysPut(original, rewrites, e)
  {
    var full := Substitute(original, rewrites, 0);
    var x, y := Moved(rewrites, e.start), Moved(rewrites, e.end);
    EndsAreSlices(original, rewrites, e);
    LeftRemains(full, x, y, e.start);
    RightRemains(full, x, y, e.end);
  }

  /** Everything about the edit read off the rewritten text. */
  lemma EndsAreSlices(original: string, rewrites: seq<Edit>, e: Edit)
    requires GoodRewrites(original, rewrites) && OfStretch(original, rewrites, e)
    ensures var full, x, y := Substitute(original, rewrites, 0), Moved(rewrites, e.start), Moved(rewrites, e.end);
      && 0 <= x <= y <= |full| && !Blank(full[x..y])
      && LeftText(original, rewrites, e.start) == full[..x]
      && RightText(original, rewrites, e.end) == full[y..]
      && (e.start == 0 ==> x == 0)
  {
    RewrittenIsSlice(original, rewrites, e.start, e.end);
    StartAndEnd(original, rewrites);
    EndsAreStretches(original, rewrites, e.start);
    EndsAreStretches(original, rewrites, e.end);
    RewrittenIsSlice(original, rewrites, 0, e.start);
    RewrittenIsSlice(original, rewrites, e.end, |original|);
  }

  lemma StartAndEnd(original: string, rewrites: seq<Edit>)
    requires GoodRewrites(original, rewrites)
    ensures Moved(rewrites, 0) == 0 && Moved(rewrites, |original|) == |Substitute(original, rewrites, 0)|
  {
    assert rewrites != [] ==> rewrites[0] in rewrites;
    AllAreLeft(|original|, rewrites, 0);
    SubstituteLength(original, rewrites, 0);
  }

  lemma {:induction false} AllAreLeft(n: nat, rewrites: seq<Edit>, from: nat)
    requires Placed(n, rewrites, from)
    ensures GrowthLeft(rewrites, n) == Growth(rewrites)
    decreases |rewrites|
  {
    PlacedBounds(n, rewrites, from);
    if rewrites != [] {
      assert rewrites[0] in rewrites;
      AllAreLeft(n, rewrites[1..], rewrites[0].end);
    }
  }

  /** Trimming a text that is not blank between x and y. */
  lemma TrimAround(full: string, x: nat, y: nat)
    requires x <= y <= |full| && !Blank(full[x..y])
    ensures var l, t := LeadingBlanks(full), TrailingBlanks(full);
      l < y && x < |full| - t && l < |full| - t && Trim(full) == full[l..|full| - t]
  {
    var l, t := LeadingBlanks(full), TrailingBlanks(full);
    LeadingBlanksLead(full);
    TrailingBlanksTrail(full);
    var i :| 0 <= i < y - x && !IsSpace(full[x..y][i]);
    assert !IsSpace(full[x + i]);
    TrimEndOfSuffix(full, |full| - t, l);
  }

  lemma TrimStartOfPrefix(full: string, l: nat, x: nat)
    requires l <= |full| && x <= |full| && BlankFrom(full, 0, l) && (l < |full| ==> !IsSpace(full[l]))
    ensures TrimStart(full[..x]) == full[if l < x then l else x..x]
  {
    TrimStartCuts(full[..x], if l < x then l else x);
  }

  lemma TrimEndOfSuffix(full: string, r: nat, y: nat)
    requires r <= |full| && y <= |full| && BlankFrom(full, r, |full|) && (r > 0 ==> !IsSpace(full[r - 1]))
    ensures TrimEnd(full[y..]) == full[y..if y < r then r else y]
  {
    TrimEndCuts(full[y..], if y < r then r - y else 0);
  }

  lemma BlankSuffix(full: string, y: nat)
    requires y <= |full|
    ensures TrailingBlanks(full) <= |full| && (Blank(full[y..]) <==> |full| - TrailingBlanks(full) <= y)
  {
    var t := TrailingBlanks(full);
    TrailingBlanksTrail(full);
    if y < |full| - t {
      assert full[y..][|full| - t - 1 - y] == full[|full| - t - 1];
    }
  }

  lemma LeftRemains(full: string, x: nat, y: nat, start: nat)
    requires x <= y <= |full| && !Blank(full[x..y]) && (start == 0 ==> x == 0)
    ensures SliceTo(Trim(full), start) == TrimStart(full[..x]) <==> start == 0 || x - start == LeadingBlanks(full)
  {
    TrimAround(full, x, y);
    LeadingBlanksLead(full);
    TrimStartOfPrefix(full, LeadingBlanks(full), x);
    FrontsAgree(full, LeadingBlanks(full), |full| - TrailingBlanks(full), x, start);
  }

  /** How much is left of a position, in the piece of a text from l up to r. */
  lemma FrontsAgree(full: string, l: nat, r: nat, x: nat, start: nat)
    requires l < r <= |full| && x < r && (start == 0 ==> x == 0)
    ensures SliceTo(full[l..r], start) == full[if l < x then l else x..x] <==> start == 0 || x - start == l
  {
    var piece, p := full[l..r], if l < x then x - l else 0;
    assert full[if l < x then l else x..x] == piece[..p];
    PrefixesDiffer(piece, Clamp(piece, start), p);
  }

  lemma RightRemains(full: string, x: nat, y: nat, end: nat)
    requires x <= y <= |full| && !Blank(full[x..y])
    ensures SliceFrom(Trim(full), end) == TrimEnd(full[y..]) <==>
            if Blank(full[y..]) then |Trim(full)| <= end else y - end == LeadingBlanks(full)
  {
    TrimAround(full, x, y);
    TrailingBlanksTrail(full);
    TrimEndOfSuffix(full, |full| - TrailingBlanks(full), y);
    BlankSuffix(full, y);
    BacksAgree(full, LeadingBlanks(full), |full| - TrailingBlanks(full), y, end);
  }

  lemma BacksAgree(full: string, l: nat, r: nat, y: nat, end: nat)
    requires l < r <= |full| && l < y <= |full|
    ensures SliceFrom(full[l..r], end) == full[y..if y < r then r else y]
       <==> if r <= y then r - l <= end else y - end == l
  {
    var piece := full[l..r];
    var p := if y < r then y - l else |piece|;
    assert full[y..if y < r then r else y] == piece[p..];
    PrefixesDiffer(piece, Clamp(piece, end), p);
  }

  lemma PrefixesDiffer(s: string, a: nat, b: nat)
    requires a <= |s| && b <= |s|
    ensures s[..a] == s[..b] <==> a == b
    ensures s[a..] == s[b..] <==> a == b
  {
    assert |s[..a]| == a && |s[..b]| == b && |s[a..]| == |s| - a && |s[b..]| == |s| - b;
  }
}
