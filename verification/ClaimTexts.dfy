/** What claim texts are made of: the flattened text of a block, the text of a
    sentence without its markers, and where blanks are left between words. */
module ClaimTexts {
  import opened Prelude
  import opened Splice
  import opened Markup
  import opened Claims

  // ------------------------------------------------------------- the flat text

  /** What each span contributes: its text, or its canonical markers. */
  function Pieces(spans: seq<Span>): seq<string> {
    seq(|spans|, i requires 0 <= i < |spans| =>
      if spans[i].Text? then spans[i].text else Markers(spans[i].numbers))
  }

  /** The i-th span is a citation, and this is its place in the text. */
  ghost predicate IsPlaceOf(spans: seq<Span>, text: string, i: nat, c: FlatCitation) {
    && i < |spans| && spans[i].Citation? && c.numbers == spans[i].numbers
    && c.start <= c.end <= |text| && text[c.start..c.end] == Markers(c.numbers)
    && JoinedBy(text[..c.start], Pieces(spans[..i]), "")
  }

  /** Citations at these spans, in order, which are all there are. */
  ghost predicate ArePlaces(spans: seq<Span>, f: Flattened, at: seq<nat>) {
    && |at| == |f.citations| && (forall j, k | 0 <= j < k < |at| :: at[j] < at[k])
    && (forall k | 0 <= k < |at| :: IsPlaceOf(spans, f.text, at[k], f.citations[k]))
    && (forall i: nat | i < |spans| :: i in at <==> spans[i].Citation?)
  }

  lemma {:induction false} JoinedWithOneMore(text: string, parts: seq<string>, more: string)
    requires JoinedBy(text, parts, "")
    ensures JoinedBy(text + more, parts + [more], "")
    decreases |parts|
  {
    if parts == [] {
      assert text + more == more && parts + [more] == [more];
    } else {
      var n, rest := |parts[0]|, if |parts| == 1 then "" else text[|parts[0]|..];
      assert text == parts[0] + rest;
      JoinedWithOneMore(rest, parts[1..], more);
      JoinOneMore(parts[0], "", rest + more, parts[1..] + [more]);
      assert parts[0] + "" + (rest + more) == text + more;
      assert [parts[0]] + (parts[1..] + [more]) == parts + [more];
    }
  }

  /** The flattened text is what its spans contribute, one after the other, and
      its citations stand where their spans do. */
  lemma {:induction false} FlattenMeans(spans: seq<Span>) returns (at: seq<nat>)
    ensures JoinedBy(Flatten(spans).text, Pieces(spans), "")
    ensures ArePlaces(spans, Flatten(spans), at)
  {
    if spans == [] {
      at := [];
    } else {
      var n := |spans| - 1;
      var before := FlattenMeans(spans[..n]);
      FlattenStep(spans);
      at := if spans[n].Citation? then before + [n] else before;
      OneMorePiece(spans, Flatten(spans[..n]), Flatten(spans));
      OneMorePlace(spans, Flatten(spans[..n]), Flatten(spans), before);
    }
  }

  lemma FlattenStep(spans: seq<Span>)
    requires spans != []
    ensures IsOneMore(spans, Flatten(spans[..|spans| - 1]), Flatten(spans))
  {
  }

  /** What the last span adds to a flattened text. */
  ghost predicate IsOneMore(spans: seq<Span>, before: Flattened, after: Flattened) {
    && spans != []
    && var n := |spans| - 1;
    && after.text == before.text + Pieces(spans)[n]
    && after.citations == before.citations
         + (if spans[n].Citation? then [FlatCitation(|before.text|, |after.text|, spans[n].numbers)] else [])
  }

  lemma OneMorePiece(spans: seq<Span>, before: Flattened, after: Flattened)
    requires IsOneMore(spans, before, after) && JoinedBy(before.text, Pieces(spans[..|spans| - 1]), "")
    ensures JoinedBy(after.text, Pieces(spans), "")
  {
    var n := |spans| - 1;
    JoinedWithOneMore(before.text, Pieces(spans[..n]), Pieces(spans)[n]);
    assert Pieces(spans) == Pieces(spans[..n]) + [Pieces(spans)[n]];
  }

  lemma OneMorePlace(spans: seq<Span>, before: Flattened, after: Flattened, at: seq<nat>)
    requires IsOneMore(spans, before, after) && JoinedBy(before.text, Pieces(spans[..|spans| - 1]), "")
    requires ArePlaces(spans[..|spans| - 1], before, at)
    ensures var n := |spans| - 1; ArePlaces(spans, after, if spans[n].Citation? then at + [n] else at)
  {
    var n := |spans| - 1;
    EarlierPlaces(spans, before, after.text, at);
    if spans[n].Citation? {
      LastPlace(spans, n, before.text, after.text);
      AddPlace(spans, before.citations, after, at, after.citations[|before.citations|]);
    } else {
      assert after.citations == before.citations;
    }
  }

  lemma EarlierPlaces(spans: seq<Span>, before: Flattened, longer: string, at: seq<nat>)
    requires spans != [] && before.text <= longer && ArePlaces(spans[..|spans| - 1], before, at)
    ensures forall k | 0 <= k < |at| :: at[k] < |spans| - 1 && IsPlaceOf(spans, longer, at[k], before.citations[k])
    ensures forall i: nat | i < |spans| - 1 :: i in at <==> spans[i].Citation?
  {
    var n := |spans| - 1;
    assert forall i: nat | i < n :: spans[..n][i] == spans[i];
    forall k | 0 <= k < |at|
      ensures at[k] < n && IsPlaceOf(spans, longer, at[k], before.citations[k])
    {
      PlaceStays(spans, n, before.text, longer, at[k], before.citations[k]);
    }
  }

  lemma AddPlace(spans: seq<Span>, earlier: seq<FlatCitation>, after: Flattened, at: seq<nat>, last: FlatCitation)
    requires spans != [] && |at| == |earlier| && after.citations == earlier + [last]
    requires forall j, k | 0 <= j < k < |at| :: at[j] < at[k]
    requires forall k | 0 <= k < |at| :: at[k] < |spans| - 1 && IsPlaceOf(spans, after.text, at[k], earlier[k])
    requires forall i: nat | i < |spans| - 1 :: i in at <==> spans[i].Citation?
    requires spans[|spans| - 1].Citation? && IsPlaceOf(spans, after.text, |spans| - 1, last)
    ensures ArePlaces(spans, after, at + [|spans| - 1])
  {
  }

  lemma PlaceStays(spans: seq<Span>, n: nat, text: string, longer: string, i: nat, c: FlatCitation)
    requires n < |spans| && IsPlaceOf(spans[..n], text, i, c) && text <= longer
    ensures IsPlaceOf(spans, longer, i, c)
  {
    assert spans[..n][..i] == spans[..i];
    assert longer[..c.start] == text[..c.start] && longer[c.start..c.end] == text[c.start..c.end];
  }

  lemma LastPlace(spans: seq<Span>, n: nat, text: string, longer: string)
    requires n < |spans| && spans[n].Citation? && longer == text + Markers(spans[n].numbers)
    requires JoinedBy(text, Pieces(spans[..n]), "")
    ensures IsPlaceOf(spans, longer, n, FlatCitation(|text|, |longer|, spans[n].numbers))
  {
    assert longer[..|text|] == text && longer[|text|..|longer|] == Markers(spans[n].numbers);
  }

  // -------------------------------------------------- a sentence without markers

  /** A position inside a marker that lies in the sentence. */
  predicate IsCut(f: Flattened, r: Range, p: nat) {
    exists c | c in f.citations :: r.start <= c.start && c.end <= r.end && c.start <= p < c.end
  }

  /** The characters from a to b at positions that are not cut. */
  function Without(text: string, cut: nat -> bool, a: nat, b: nat): string
    requires a <= b <= |text|
    decreases b - a
  {
    if a == b then [] else (if cut(a) then [] else [text[a]]) + Without(text, cut, a + 1, b)
  }

  lemma {:induction false} WithoutJoins(text: string, cut: nat -> bool, a: nat, m: nat, b: nat)
    requires a <= m <= b <= |text|
    ensures Without(text, cut, a, b) == Without(text, cut, a, m) + Without(text, cut, m, b)
    decreases m - a
  {
    if a < m {
      WithoutJoins(text, cut, a + 1, m, b);
    }
  }

  lemma {:induction false} NothingCut(text: string, cut: nat -> bool, a: nat, b: nat)
    requires a <= b <= |text| && forall p | a <= p < b :: !cut(p)
    ensures Without(text, cut, a, b) == text[a..b]
    decreases b - a
  {
    if a < b {
      NothingCut(text, cut, a + 1, b);
      assert text[a..b] == [text[a]] + text[a + 1..b];
    }
  }

  lemma {:induction false} AllCut(text: string, cut: nat -> bool, a: nat, b: nat)
    requires a <= b <= |text| && forall p | a <= p < b :: cut(p)
    ensures Without(text, cut, a, b) == []
    decreases b - a
  {
    if a < b {
      AllCut(text, cut, a + 1, b);
    }
  }

  ghost predicate InCut(cuts: seq<Edit>, p: nat) {
    exists k :: 0 <= k < |cuts| && cuts[k].start <= p < cuts[k].end
  }

  ghost predicate Deletes(cuts: seq<Edit>) {
    forall k | 0 <= k < |cuts| :: cuts[k].replacement == ""
  }

  lemma {:induction false} DeletingLeavesRest(text: string, cut: nat -> bool, cuts: seq<Edit>, from: nat)
    requires Deletes(cuts) && Placed(|text|, cuts, from)
    requires forall p | from <= p < |text| :: cut(p) <==> InCut(cuts, p)
    ensures from <= |text| && Substitute(text, cuts, from) == Without(text, cut, from, |text|)
    decreases |cuts|
  {
    PlacedBounds(|text|, cuts, from);
    if cuts == [] {
      NothingCut(text, cut, from, |text|);
    } else {
      FirstOfCuts(|text|, cuts, from);
      assert Deletes(cuts[1..]);
      DeletingLeavesRest(text, cut, cuts[1..], cuts[0].end);
      CutFirst(text, cut, from, cuts[0].start, cuts[0].end, |text|);
      FirstDeletion(text, cuts, from);
    }
  }

  lemma FirstDeletion(text: string, cuts: seq<Edit>, from: nat)
    requires cuts != [] && cuts[0].replacement == "" && Placed(|text|, cuts, from) && cuts[0].start <= |text|
    ensures Substitute(text, cuts, from) == text[from..cuts[0].start] + Substitute(text, cuts[1..], cuts[0].end)
  {
  }

  lemma CutFirst(text: string, cut: nat -> bool, from: nat, start: nat, end: nat, to: nat)
    requires from <= start <= end <= to <= |text|
    requires (forall p | from <= p < start :: !cut(p)) && (forall p | start <= p < end :: cut(p))
    ensures Without(text, cut, from, to) == text[from..start] + Without(text, cut, end, to)
  {
    NothingCut(text, cut, from, start);
    AllCut(text, cut, start, end);
    WithoutJoins(text, cut, from, start, to);
    WithoutJoins(text, cut, start, end, to);
  }

  lemma FirstOfCuts(n: nat, cuts: seq<Edit>, from: nat)
    requires cuts != [] && Placed(n, cuts, from)
    ensures from <= cuts[0].start <= cuts[0].end <= n
    ensures forall p | from <= p < cuts[0].start :: !InCut(cuts, p)
    ensures forall p | cuts[0].start <= p < cuts[0].end :: InCut(cuts, p)
    ensures forall p | cuts[0].end <= p < n :: InCut(cuts, p) <==> InCut(cuts[1..], p)
  {
    PlacedBounds(n, cuts[1..], cuts[0].end);
    forall k | 0 < k < |cuts|
      ensures cuts[0].end <= cuts[k].start
    {
      assert cuts[1..][k - 1] == cuts[k] && cuts[k] in cuts[1..];
    }
    forall p | cuts[0].end <= p < n
      ensures InCut(cuts, p) <==> InCut(cuts[1..], p)
    {
      if k :| 0 <= k < |cuts| && cuts[k].start <= p < cuts[k].end {
        assert cuts[1..][k - 1] == cuts[k];
      }
      if k :| 0 <= k < |cuts[1..]| && cuts[1..][k].start <= p < cuts[1..][k].end {
        assert cuts[k + 1] == cuts[1..][k];
      }
    }
  }

  lemma {:induction false} CitationsInAre(citations: seq<FlatCitation>, r: Range)
    ensures forall c :: c in CitationsIn(citations, r) <==> c in citations && r.start <= c.start && c.end <= r.end
  {
    if citations != [] {
      CitationsInAre(citations[1..], r);
      assert citations == [citations[0]] + citations[1..];
    }
  }

  /** What is left of a sentence once its markers are cut out, before its blanks
      are normalized: all its characters but those in a marker of its own. */
  lemma ClaimTextMeans(f: Flattened, r: Range)
    requires WellMarked(f) && r.start <= r.end <= |f.text|
    ensures var own, sentence := CitationsIn(f.citations, r), f.text[r.start..r.end];
      && AllHeld(own, r) && Placed(|sentence|, MarkerCuts(own, r), 0)
      && Substitute(sentence, MarkerCuts(own, r), 0)
         == Without(sentence, (p: nat) => IsCut(f, r, r.start + p), 0, |sentence|)
  {
    OwnCuts(f, r);
    DeletingLeavesRest(f.text[r.start..r.end], (p: nat) => IsCut(f, r, r.start + p),
                       MarkerCuts(CitationsIn(f.citations, r), r), 0);
  }

  lemma OwnCuts(f: Flattened, r: Range)
    requires WellMarked(f) && r.start <= r.end <= |f.text|
    ensures var own := CitationsIn(f.citations, r);
      && AllHeld(own, r) && Placed(r.end - r.start, MarkerCuts(own, r), 0) && Deletes(MarkerCuts(own, r))
      && forall p: nat :: IsCut(f, r, r.start + p) <==> InCut(MarkerCuts(own, r), p)
  {
    OwnCutsArePlaced(f, r);
    CitationsInAre(f.citations, r);
    CutsAreMarkers(f, r, CitationsIn(f.citations, r));
  }

  lemma CutsAreMarkers(f: Flattened, r: Range, own: seq<FlatCitation>)
    requires AllHeld(own, r)
    requires forall c :: c in own <==> c in f.citations && r.start <= c.start && c.end <= r.end
    ensures Deletes(MarkerCuts(own, r))
    ensures forall p: nat :: IsCut(f, r, r.start + p) <==> InCut(MarkerCuts(own, r), p)
  {
    var cuts := MarkerCuts(own, r);
    forall p: nat
      ensures IsCut(f, r, r.start + p) <==> InCut(cuts, p)
    {
      if c :| c in f.citations && r.start <= c.start && c.end <= r.end && c.start <= r.start + p < c.end {
        assert c in own;
        var k :| 0 <= k < |own| && own[k] == c;
        assert cuts[k].start <= p < cuts[k].end;
      }
      if k :| 0 <= k < |cuts| && cuts[k].start <= p < cuts[k].end {
        assert own[k] in own && Holds(r, own[k]);
      }
    }
  }

  // ------------------------------------------------------------ blanks that stay

  /** For each visible character whether a blank stands right before it. */
  function Gaps(s: string): seq<bool> {
    if s == [] then []
    else if IsSpace(s[0]) then AfterBlank(Gaps(s[1..]))
    else [false] + Gaps(s[1..])
  }

  function AfterBlank(gaps: seq<bool>): seq<bool> {
    if gaps == [] then [] else [true] + gaps[1..]
  }

  /** Gaps that do not stand before punctuation. */
  function Tightened(gaps: seq<bool>, visible: string): seq<bool> {
    seq(|gaps|, i requires 0 <= i < |gaps| => gaps[i] && !(i < |visible| && IsPunctuation(visible[i])))
  }

  lemma {:induction false} GapsCount(s: string)
    ensures |Gaps(s)| == |Visible(s)|
  {
    if s != [] {
      GapsCount(s[1..]);
    }
  }

  lemma {:induction false} CollapseKeepsGaps(s: string)
    ensures Gaps(Collapse(s)) == Gaps(s)
  {
    if s != [] {
      CollapseKeepsGaps(s[1..]);
      if IsSpace(s[0]) && |s| > 1 && IsSpace(s[1]) {
        assert Gaps(s[1..]) == AfterBlank(Gaps(s[1..][1..]));
      }
    }
  }

  lemma {:induction false} TightenTightensGaps(s: string)
    requires SinglySpaced(s)
    ensures Gaps(Tighten(s)) == Tightened(Gaps(s), Visible(s))
  {
    if s != [] {
      TightenTightensGaps(s[1..]);
      GapsCount(s[1..]);
      if IsSpace(s[0]) {
        BlankTightens(s);
      }
    }
  }

  lemma BlankTightens(s: string)
    requires s != [] && SinglySpaced(s) && IsSpace(s[0])
    requires Gaps(Tighten(s[1..])) == Tightened(Gaps(s[1..]), Visible(s[1..]))
    ensures Gaps(Tighten(s)) == Tightened(Gaps(s), Visible(s))
  {
    var rest := s[1..];
    GapsCount(rest);
    if rest != [] {
      assert !IsSpace(rest[0]) && Visible(rest)[0] == rest[0] && Gaps(rest)[0] == false;
      assert MeetsPunctuation(rest) <==> IsPunctuation(rest[0]);
      TightenedAfterBlank(Gaps(rest), Visible(rest));
    }
    assert Visible(s) == Visible(rest);
  }

  /** A blank before the first character makes a gap, but not before punctuation. */
  lemma TightenedAfterBlank(gaps: seq<bool>, visible: string)
    requires gaps != [] && !gaps[0] && |visible| == |gaps|
    ensures Tightened(AfterBlank(gaps), visible)
         == if IsPunctuation(visible[0]) then Tightened(gaps, visible) else AfterBlank(Tightened(gaps, visible))
  {
  }

  lemma {:induction false} GapsBeforeBlanks(s: string, k: nat)
    requires k <= |s| && BlankFrom(s, k, |s|)
    ensures Gaps(s[..k]) == Gaps(s)
    decreases k
  {
    if k == 0 {
      BlankHasNoGaps(s);
    } else {
      GapsBeforeBlanks(s[1..], k - 1);
      assert s[..k][1..] == s[1..][..k - 1] && s[..k][0] == s[0];
    }
  }

  lemma {:induction false} BlankHasNoGaps(s: string)
    requires Blank(s)
    ensures Gaps(s) == []
  {
    if s != [] {
      BlankHasNoGaps(s[1..]);
    }
  }

  lemma {:induction false} StartLosesGap(s: string)
    ensures Gaps(TrimStart(s)) == if Gaps(s) == [] then [] else [false] + Gaps(s)[1..]
  {
    if s != [] && IsSpace(s[0]) {
      StartLosesGap(s[1..]);
    }
  }

  /** In a normalized text a blank stands before a visible character exactly if
      one stood there before, and the character is neither the first nor a
      punctuation mark. */
  lemma NormalizedKeepsGaps(s: string)
    ensures Visible(Normalized(s)) == Visible(s)
    ensures |Gaps(Normalized(s))| == |Gaps(s)| == |Visible(s)|
    ensures forall i | 0 <= i < |Gaps(s)| ::
              Gaps(Normalized(s))[i] <==> i > 0 && Gaps(s)[i] && Visible(s)[i] !in ",.;:!?"
  {
    var collapsed := Collapse(s);
    NormalizedIsTidy(s);
    GapsCount(s);
    CollapseSpacesSingly(s);
    CollapseKeepsGaps(s);
    TightenTightensGaps(collapsed);
    StartLosesGap(Tighten(collapsed));
    var started := TrimStart(Tighten(collapsed));
    TrailingBlanksTrail(started);
    GapsBeforeBlanks(started, |started| - TrailingBlanks(started));
  }
}
