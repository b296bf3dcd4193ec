/** Where the citations of a text are put.  Candidates are read off the source,
    but looked up in the parsed text, each at its first occurrence after the one
    before it: exactly when that is its own place, and that it always is where
    the parsed text is the source. */
module CitationPlaces {
  import opened Prelude
  import opened Markup

  // ------------------------------------------------------------ the lookup

  ghost predicate NoneIn(value: string, marker: string, from: nat, to: nat) {
    forall p | from <= p < to :: !OccursAt(value, marker, p)
  }

  lemma {:induction false} FirstMeans(value: string, marker: string, from: nat, at: nat)
    requires from <= at && OccursAt(value, marker, at)
    ensures FirstOccurrence(value, marker, from) == Some(at) <==> NoneIn(value, marker, from, at)
    decreases at - from
  {
    if from < at && !OccursAt(value, marker, from) {
      FirstMeans(value, marker, from + 1, at);
    }
  }

  /** The candidates really stand at these places, in order and apart. */
  ghost predicate StandAt(value: string, candidates: seq<Candidate>, own: seq<nat>) {
    |own| <= |candidates|
    && (own == [] ||
        var n := |own| - 1;
        && StandAt(value, candidates, own[..n])
        && EndOfLast(candidates, own[..n]) <= own[n] && OccursAt(value, candidates[n].marker, own[n]))
  }

  /** No marker occurs between the end of the one before it and its own place. */
  ghost predicate NoneBefore(value: string, candidates: seq<Candidate>, own: seq<nat>) {
    |own| <= |candidates|
    && (own == [] ||
        var n := |own| - 1;
        && NoneBefore(value, candidates, own[..n])
        && NoneIn(value, candidates[n].marker, EndOfLast(candidates, own[..n]), own[n]))
  }

  lemma {:induction false} FoundAtOwnExactlyWhen(value: string, candidates: seq<Candidate>, own: seq<nat>)
    requires StandAt(value, candidates, own)
    ensures FoundAt(value, candidates, own) <==> NoneBefore(value, candidates, own)
    decreases |own|
  {
    if own != [] {
      var n := |own| - 1;
      FoundAtOwnExactlyWhen(value, candidates, own[..n]);
      FirstMeans(value, candidates[n].marker, EndOfLast(candidates, own[..n]), own[n]);
    }
  }

  /** Every citation is put at its own place exactly if no marker occurs earlier,
      after the one before it. */
  lemma PutInPlaceExactlyWhen(value: string, candidates: seq<Candidate>, own: seq<nat>, places: seq<nat>)
    requires StandAt(value, candidates, own) && FoundAt(value, candidates, places)
    requires |own| == |candidates| == |places|
    ensures places == own <==> NoneBefore(value, candidates, own)
  {
    FoundAtOwnExactlyWhen(value, candidates, own);
    if NoneBefore(value, candidates, own) {
      FoundOnce(value, candidates, own, places);
    }
  }

  /** For one: in a source that begins with an entity the second marker is the
      only candidate, but it is found where the entity was. */
  lemma EntityMisplacesCitation(places: seq<nat>)
    requires var c := Candidate(22, 25, false, "[1]");
      |places| == 1 && FoundAt("[1] first. Second [1].", [c], places)
    ensures var c := Candidate(22, 25, false, "[1]");
      && TakenFrom("&#91;1] first. Second [1].", c)
      && StandAt("[1] first. Second [1].", [c], [18])
      && places == [0]
  {
    var c := Candidate(22, 25, false, "[1]");
    assert places[..0] == [] && [18][..0] == [];
    assert OccursAt("[1] first. Second [1].", "[1]", 0);
    assert SlashesBefore("&#91;1] first. Second [1].", 22) == 0;
  }

  // ---------------------------------------------------------- closed markers

  predicate IsBreak(c: char) { c == '\r' || c == '\n' }

  /** The first closing bracket from a position on, on its line. */
  function CloseOf(value: string, at: nat): Option<nat>
    decreases |value| - at
  {
    if at >= |value| || IsBreak(value[at]) then None
    else if value[at] == ']' then Some(at)
    else CloseOf(value, at + 1)
  }

  lemma {:induction false} CloseIs(value: string, at: nat, q: nat)
    requires at <= q < |value| && value[q] == ']'
    requires forall x | at <= x < q :: value[x] != ']' && !IsBreak(value[x])
    ensures CloseOf(value, at) == Some(q)
    decreases q - at
  {
    if at < q {
      CloseIs(value, at + 1, q);
    }
  }

  lemma {:induction false} CloseMeans(value: string, at: nat)
    requires CloseOf(value, at).Some?
    ensures var q := CloseOf(value, at).value;
      && at <= q < |value| && value[q] == ']'
      && forall x | at <= x < q :: value[x] != ']' && !IsBreak(value[x]) && CloseOf(value, x) == Some(q)
    decreases |value| - at
  {
    if value[at] != ']' {
      CloseMeans(value, at + 1);
    }
  }

  predicate HasDigit(value: string, a: nat, b: nat)
    requires b <= |value|
  {
    exists d | a <= d < b :: IsDigit(value[d])
  }

  /** The pattern of citation markers: a bracket, a digit, and the first closing
      bracket after it, on one line. */
  function MarkerEnd(value: string, p: nat): Option<nat> {
    if p < |value| && value[p] == '[' && CloseOf(value, p + 1).Some?
       && CloseOf(value, p + 1).value < |value| && HasDigit(value, p + 1, CloseOf(value, p + 1).value)
    then CloseOf(value, p + 1) else None
  }

  /** Scanning a text for that pattern from left to right. */
  function ScanMarkers(value: string, from: nat): seq<Range>
    decreases |value| - from
  {
    if from >= |value| then []
    else if MarkerEnd(value, from).Some? && from < MarkerEnd(value, from).value then
      [Range(from, MarkerEnd(value, from).value + 1)] + ScanMarkers(value, MarkerEnd(value, from).value + 1)
    else ScanMarkers(value, from + 1)
  }

  lemma MarkerMeans(value: string, p: nat)
    requires MarkerEnd(value, p).Some?
    ensures var q := MarkerEnd(value, p).value;
      && p < q < |value| && value[p] == '[' && value[q] == ']'
      && forall x | p < x < q :: value[x] != ']' && !IsBreak(value[x]) && CloseOf(value, x) == Some(q)
  {
    CloseMeans(value, p + 1);
  }

  /** Whatever matches the pattern lies in a match with the same end. */
  lemma {:induction false} ScanCovers(value: string, from: nat, p: nat) returns (m: Range)
    requires from <= p && MarkerEnd(value, p).Some?
    ensures m in ScanMarkers(value, from) && m.start <= p && m.end == MarkerEnd(value, p).value + 1
    ensures MarkerEnd(value, m.start) == MarkerEnd(value, p)
    decreases |value| - from
  {
    MarkerMeans(value, p);
    if MarkerEnd(value, from).Some? {
      MarkerMeans(value, from);
      var q := MarkerEnd(value, from).value;
      if p <= q {
        assert from < p ==> CloseOf(value, p) == Some(q);
        m := Range(from, q + 1);
      } else {
        m := ScanCovers(value, q + 1, p);
      }
    } else {
      m := ScanCovers(value, from + 1, p);
    }
  }

  lemma OneMoreMatch(value: string, m: Range, later: seq<Range>)
    requires MatchesOf(value, later) && m.start < m.end <= |value| && forall r | r in later :: m.end <= r.start
    ensures MatchesOf(value, [m] + later)
  {
    assert forall i | 0 <= i < |later| :: later[i] in later;
  }

  /** Its matches are matches of a pattern: in order, apart, and all of that kind. */
  lemma {:induction false} ScanIsMatches(value: string, from: nat)
    ensures MatchesOf(value, ScanMarkers(value, from))
    ensures forall m | m in ScanMarkers(value, from) ::
              from <= m.start && MarkerEnd(value, m.start).Some? && m.end == MarkerEnd(value, m.start).value + 1
    decreases |value| - from
  {
    if from < |value| {
      if MarkerEnd(value, from).Some? {
        MarkerMeans(value, from);
        var end := MarkerEnd(value, from).value + 1;
        ScanIsMatches(value, end);
        OneMoreMatch(value, Range(from, end), ScanMarkers(value, end));
      } else {
        ScanIsMatches(value, from + 1);
      }
    }
  }

  /** The pattern of the original: a bracket, characters but closing brackets and
      line breaks with a digit among them, and a closing bracket. */
  ghost predicate FitsPattern(value: string, a: nat, b: nat) {
    && a + 2 < b <= |value| && value[a] == '[' && value[b - 1] == ']'
    && (forall x | a < x < b - 1 :: value[x] != ']' && value[x] != '\r' && value[x] != '\n')
    && (exists d :: a < d < b - 1 && '0' <= value[d] <= '9')
  }

  lemma MarkerEndExactlyWhen(value: string, a: nat, b: nat)
    requires b > 0
    ensures MarkerEnd(value, a) == Some(b - 1) <==> FitsPattern(value, a, b)
  {
    if MarkerEnd(value, a) == Some(b - 1) {
      MarkerMeans(value, a);
    }
    if FitsPattern(value, a, b) {
      CloseIs(value, a + 1, b - 1);
    }
  }

  /** Scanning finds just what fits the pattern; and whatever fits it lies in a
      match with the same end. */
  lemma ScanFindsPattern(value: string)
    ensures forall m | m in ScanMarkers(value, 0) :: FitsPattern(value, m.start, m.end)
    ensures forall a: nat, b: nat | FitsPattern(value, a, b) ::
              exists m :: m in ScanMarkers(value, 0) && m.start <= a && m.end == b
  {
    ScanIsMatches(value, 0);
    forall m | m in ScanMarkers(value, 0)
      ensures FitsPattern(value, m.start, m.end)
    {
      MarkerEndExactlyWhen(value, m.start, m.end);
    }
    forall a: nat, b: nat | FitsPattern(value, a, b)
      ensures exists m :: m in ScanMarkers(value, 0) && m.start <= a && m.end == b
    {
      MarkerEndExactlyWhen(value, a, b);
      var m := ScanCovers(value, 0, a);
    }
  }

  /** An opening that no bracket closes on its line. */
  lemma OpensAtExactlyWhen(value: string, p: nat)
    ensures OpensAt(value, p) <==>
            && p + 1 < |value| && value[p] == '[' && '0' <= value[p + 1] <= '9'
            && forall q | p < q < |value| && value[q] == ']' ::
                 exists x :: p < x < q && (value[x] == '\r' || value[x] == '\n')
  {
    if CloseOf(value, p + 1).Some? {
      CloseMeans(value, p + 1);
    }
    if q :| p < q < |value| && value[q] == ']' && forall x | p < x < q :: !IsBreak(value[x]) {
      ClosesBy(value, p + 1, q);
    }
  }

  lemma {:induction false} ClosesBy(value: string, at: nat, q: nat)
    requires at <= q < |value| && value[q] == ']' && forall x | at <= x < q :: !IsBreak(value[x])
    ensures CloseOf(value, at).Some?
    decreases q - at
  {
    if at < q && value[at] != ']' {
      ClosesBy(value, at + 1, q);
    }
  }

  // ------------------------------------------ where the text is its own source

  /** A closed marker or a range of them: it begins with a marker, and every
      bracket in it closes in it. */
  ghost predicate Bracketed(value: string, start: nat, end: nat) {
    && start < end <= |value|
    && MarkerEnd(value, start).Some? && MarkerEnd(value, start).value < end
    && forall x | start <= x < end && value[x] == '[' ::
         CloseOf(value, x + 1).Some? && CloseOf(value, x + 1).value < end
  }

  /** An unclosed marker: a bracket and a digit, no bracket more in it, and none
      that closes on its line. */
  ghost predicate Open(value: string, start: nat, end: nat) {
    && start + 1 < end <= |value|
    && OpensAt(value, start)
    && forall x | start < x < end :: value[x] != '[' && !IsBreak(value[x])
  }

  predicate OpensAt(value: string, p: nat) {
    p + 1 < |value| && value[p] == '[' && IsDigit(value[p + 1]) && CloseOf(value, p + 1) == None
  }

  /** No bracket is escaped, as in any text that parsing leaves as it is. */
  ghost predicate NoneEscaped(value: string) {
    forall p | 0 <= p < |value| && value[p] == '[' :: !Escaped(value, p)
  }

  /** Candidates as they are read off a text that is not rejected: each is a
      closed or an unclosed marker, no match of the marker pattern is lost
      except to one it overlaps, and neither is any bracket that stays open and
      is not escaped. */
  ghost predicate AsRead(value: string, candidates: seq<Candidate>) {
    && ReadOff(value, candidates)
    && (forall i | 0 <= i < |candidates| ::
          Bracketed(value, candidates[i].start, candidates[i].end) || Open(value, candidates[i].start, candidates[i].end))
    && (forall m | m in ScanMarkers(value, 0) :: Covers(candidates, m))
    && (forall p: nat | OpensAt(value, p) && !Escaped(value, p) :: OpenIsCovered(value, candidates, p))
  }

  ghost predicate OpenIsCovered(value: string, candidates: seq<Candidate>, p: nat) {
    exists e: nat :: Open(value, p, e) && Covers(candidates, Range(p, e))
  }

  function EndBefore(candidates: seq<Candidate>, i: nat): nat
    requires i <= |candidates|
  {
    if i == 0 then 0 else candidates[i - 1].end
  }

  /** A candidate that ends after the gap in front of another one has begun does
      not begin before that one. */
  lemma BeginsAfterGap(value: string, candidates: seq<Candidate>, i: nat, k: Candidate)
    requires ReadOff(value, candidates) && i < |candidates| && k in candidates && EndBefore(candidates, i) < k.end
    ensures candidates[i].start <= k.start
  {
    var j :| 0 <= j < |candidates| && candidates[j] == k;
    assert TakenFrom(value, candidates[i]) && (i > 0 ==> TakenFrom(value, candidates[i - 1]));
  }

  /** A candidate that overlaps a marker reaches its end. */
  lemma ReachesEnd(value: string, start: nat, end: nat, s: nat)
    requires Bracketed(value, start, end) || Open(value, start, end)
    requires MarkerEnd(value, s).Some? && s < end && start <= MarkerEnd(value, s).value
    ensures MarkerEnd(value, s).value < end
  {
    MarkerMeans(value, s);
    if Bracketed(value, start, end) {
      MarkerMeans(value, start);
      var x := if start < s then s else start;
      assert value[x] == '[';
    }
  }

  /** A marker does not end in the gap in front of a candidate. */
  lemma MarkerEndsAfterGap(value: string, candidates: seq<Candidate>, i: nat, p: nat)
    requires AsRead(value, candidates) && i < |candidates| && EndBefore(candidates, i) <= p
    requires MarkerEnd(value, p).Some?
    ensures candidates[i].start <= MarkerEnd(value, p).value
  {
    var m := ScanCovers(value, 0, p);
    MarkerMeans(value, p);
    MarkerMeans(value, m.start);
    var k :| k in candidates && (Represents(k, m) || Overlaps(k, m));
    var j :| 0 <= j < |candidates| && candidates[j] == k;
    ReachesEnd(value, k.start, k.end, m.start);
    BeginsAfterGap(value, candidates, i, k);
  }

  /** An unclosed marker does not begin there. */
  lemma OpenBeginsAfterGap(value: string, candidates: seq<Candidate>, i: nat, p: nat)
    requires AsRead(value, candidates) && i < |candidates| && EndBefore(candidates, i) <= p && OpensAt(value, p)
    requires !Escaped(value, p)
    ensures candidates[i].start <= p
  {
    assert OpenIsCovered(value, candidates, p);
    var e: nat :| Open(value, p, e) && Covers(candidates, Range(p, e));
    var k :| k in candidates && (Represents(k, Range(p, e)) || Overlaps(k, Range(p, e)));
    BeginsAfterGap(value, candidates, i, k);
    assert value[candidates[i].start] == '[';
  }

  lemma SameText(value: string, c: Candidate, p: nat)
    requires TakenFrom(value, c) && OccursAt(value, c.marker, p)
    ensures forall y | c.start <= y < c.end :: value[y] == value[p + (y - c.start)]
  {
    forall y | c.start <= y < c.end
      ensures value[y] == value[p + (y - c.start)]
    {
      assert value[p..p + |c.marker|][y - c.start] == value[c.start..c.end][y - c.start];
    }
  }

  /** A marker ends alike wherever its text occurs. */
  lemma MarkerMoves(value: string, c: Candidate, p: nat)
    requires TakenFrom(value, c) && OccursAt(value, c.marker, p)
    requires MarkerEnd(value, c.start).Some? && MarkerEnd(value, c.start).value < c.end
    ensures MarkerEnd(value, p) == Some(p + (MarkerEnd(value, c.start).value - c.start))
  {
    var q := MarkerEnd(value, c.start).value;
    var d := q - c.start;
    MarkerMeans(value, c.start);
    SameText(value, c, p);
    forall x | p + 1 <= x < p + d
      ensures value[x] != ']' && !IsBreak(value[x])
    {
      assert value[c.start + (x - p)] == value[x];
    }
    assert value[p + d] == value[q];
    CloseIs(value, p + 1, p + d);
    var at :| c.start + 1 <= at < q && IsDigit(value[at]);
    assert value[p + (at - c.start)] == value[at];
  }

  /** A marker does not occur in the gap in front of it. */
  lemma OccursAfterGap(value: string, candidates: seq<Candidate>, i: nat, p: nat)
    requires AsRead(value, candidates) && i < |candidates| && EndBefore(candidates, i) <= p
    requires OccursAt(value, candidates[i].marker, p)
    requires NoneEscaped(value)
    ensures candidates[i].start <= p
  {
    var c := candidates[i];
    if Bracketed(value, c.start, c.end) {
      MarkerMoves(value, c, p);
      MarkerMeans(value, p);
      MarkerMeans(value, c.start);
      MarkerEndsAfterGap(value, candidates, i, p);
      assert value[c.start] == '[';
    } else {
      OpenOccursAfterGap(value, candidates, i, p);
    }
  }

  lemma OpenOccursAfterGap(value: string, candidates: seq<Candidate>, i: nat, p: nat)
    requires AsRead(value, candidates) && i < |candidates| && EndBefore(candidates, i) <= p
    requires OccursAt(value, candidates[i].marker, p) && Open(value, candidates[i].start, candidates[i].end)
    requires NoneEscaped(value)
    ensures candidates[i].start <= p
  {
    var c := candidates[i];
    SameText(value, c, p);
    assert value[c.start] == '[' && IsDigit(value[c.start + 1]);
    if CloseOf(value, p + 1) == None {
      OpenBeginsAfterGap(value, candidates, i, p);
    } else {
      CloseMeans(value, p + 1);
      assert value[p + 1] == value[c.start + 1];
      assert HasDigit(value, p + 1, CloseOf(value, p + 1).value);
      MarkerEndsAfterGap(value, candidates, i, p);
    }
  }

  function Starts(candidates: seq<Candidate>, n: nat): seq<nat>
    requires n <= |candidates|
  {
    seq(n, i requires 0 <= i < n => candidates[i].start)
  }

  lemma StartsStep(value: string, candidates: seq<Candidate>, n: nat)
    requires ReadOff(value, candidates) && 0 < n <= |candidates|
    ensures Starts(candidates, n)[..n - 1] == Starts(candidates, n - 1)
    ensures EndOfLast(candidates, Starts(candidates, n)) == EndBefore(candidates, n)
    ensures EndBefore(candidates, n - 1) <= candidates[n - 1].start
    ensures OccursAt(value, candidates[n - 1].marker, candidates[n - 1].start)
  {
    assert TakenFrom(value, candidates[n - 1]);
  }

  lemma NoneInGap(value: string, candidates: seq<Candidate>, i: nat)
    requires AsRead(value, candidates) && NoneEscaped(value) && i < |candidates|
    ensures NoneIn(value, candidates[i].marker, EndBefore(candidates, i), candidates[i].start)
  {
    forall p | EndBefore(candidates, i) <= p < candidates[i].start
      ensures !OccursAt(value, candidates[i].marker, p)
    {
      if OccursAt(value, candidates[i].marker, p) {
        OccursAfterGap(value, candidates, i, p);
      }
    }
  }

  lemma {:induction false} StartsStand(value: string, candidates: seq<Candidate>, n: nat)
    requires ReadOff(value, candidates) && n <= |candidates|
    ensures StandAt(value, candidates, Starts(candidates, n))
  {
    if n > 0 {
      StartsStand(value, candidates, n - 1);
      StartsStep(value, candidates, n);
      if n > 1 {
        StartsStep(value, candidates, n - 1);
      }
    }
  }

  lemma {:induction false} NoneBeforeStarts(value: string, candidates: seq<Candidate>, n: nat)
    requires ReadOff(value, candidates) && n <= |candidates|
    requires forall i | 0 <= i < n :: NoneIn(value, candidates[i].marker, EndBefore(candidates, i), candidates[i].start)
    ensures NoneBefore(value, candidates, Starts(candidates, n))
  {
    if n > 0 {
      NoneBeforeStarts(value, candidates, n - 1);
      StartsStep(value, candidates, n);
      if n > 1 {
        StartsStep(value, candidates, n - 1);
      }
    }
  }

  /** Where the parsed text is its source, with nothing escaped in it, every
      citation is put at its own place. */
  lemma SourceTextKeepsPlaces(value: string, candidates: seq<Candidate>, places: seq<nat>)
    requires AsRead(value, candidates) && NoneEscaped(value)
    requires FoundAt(value, candidates, places) && |places| == |candidates|
    ensures places == Starts(candidates, |candidates|)
  {
    forall i | 0 <= i < |candidates|
      ensures NoneIn(value, candidates[i].marker, EndBefore(candidates, i), candidates[i].start)
    {
      NoneInGap(value, candidates, i);
    }
    StartsStand(value, candidates, |candidates|);
    NoneBeforeStarts(value, candidates, |candidates|);
    PutInPlaceExactlyWhen(value, candidates, Starts(candidates, |candidates|), places);
  }

  // ----------------------------------------------------------- a whole text node

  /** Matches of the patterns for ranges and for unclosed markers in a source
      that is not rejected: a bracket that stays open begins such a match, unless
      it is escaped. */
  ghost predicate Matched(
    source: string, rangeMatches: seq<Range>, unclosedMatches: seq<Range>, maximum: Option<nat>)
  {
    && MatchesOf(source, rangeMatches) && MatchesOf(source, unclosedMatches)
    && (forall m | m in rangeMatches :: Bracketed(source, m.start, m.end))
    && (forall m | m in unclosedMatches :: Open(source, m.start, m.end))
    && (forall p: nat | OpensAt(source, p) && !Escaped(source, p) :: maximum.Some? && Begun(unclosedMatches, p))
  }

  ghost predicate Begun(matches: seq<Range>, p: nat) {
    exists m | m in matches :: m.start == p
  }

  lemma MarkerIsBracketed(value: string, p: nat)
    requires MarkerEnd(value, p).Some?
    ensures Bracketed(value, p, MarkerEnd(value, p).value + 1)
  {
    MarkerMeans(value, p);
  }

  /** What the candidates are that are read off such a source. */
  lemma ReadingIsAsRead(
    source: string, rangeMatches: seq<Range>, repairable: Range -> bool, unclosedMatches: seq<Range>,
    maximum: Option<nat>, candidates: seq<Candidate>)
    requires Matched(source, rangeMatches, unclosedMatches, maximum) && ReadOff(source, candidates)
    requires ReadBy(candidates, rangeMatches, repairable, ScanMarkers(source, 0), unclosedMatches, maximum)
    ensures AsRead(source, candidates)
  {
    forall i | 0 <= i < |candidates|
      ensures Bracketed(source, candidates[i].start, candidates[i].end) || Open(source, candidates[i].start, candidates[i].end)
    {
      assert candidates[i] in candidates;
      CandidateIsMatch(
        candidates, rangeMatches, repairable, ScanMarkers(source, 0), unclosedMatches, maximum, candidates[i]);
      MatchIsMarker(source, rangeMatches, unclosedMatches, maximum, candidates[i]);
    }
    forall m | m in ScanMarkers(source, 0) || (maximum.Some? && m in unclosedMatches)
      ensures Covers(candidates, m)
    {
      MatchIsCovered(candidates, rangeMatches, repairable, ScanMarkers(source, 0), unclosedMatches, maximum, m);
    }
    forall p: nat | OpensAt(source, p) && !Escaped(source, p)
      ensures OpenIsCovered(source, candidates, p)
    {
      OpeningIsCovered(source, rangeMatches, unclosedMatches, maximum, candidates, p);
    }
  }

  lemma MatchIsMarker(
    source: string, rangeMatches: seq<Range>, unclosedMatches: seq<Range>, maximum: Option<nat>, c: Candidate)
    requires Matched(source, rangeMatches, unclosedMatches, maximum)
    requires var m := Range(c.start, c.end);
      m in ScanMarkers(source, 0) || (maximum.Some? && (m in unclosedMatches || m in rangeMatches))
    ensures Bracketed(source, c.start, c.end) || Open(source, c.start, c.end)
  {
    if Range(c.start, c.end) in ScanMarkers(source, 0) {
      ScanIsMatches(source, 0);
      MarkerIsBracketed(source, c.start);
    }
  }

  lemma OpeningIsCovered(
    source: string, rangeMatches: seq<Range>, unclosedMatches: seq<Range>, maximum: Option<nat>,
    candidates: seq<Candidate>, p: nat)
    requires Matched(source, rangeMatches, unclosedMatches, maximum) && OpensAt(source, p)
    requires !Escaped(source, p)
    requires maximum.Some? ==> forall m | m in unclosedMatches :: Covers(candidates, m)
    ensures OpenIsCovered(source, candidates, p)
  {
    assert Begun(unclosedMatches, p);
    var m :| m in unclosedMatches && m.start == p;
    assert m == Range(p, m.end) && Open(source, p, m.end);
  }

  /** A whole text node: its source is read, its text cut into spans.  Where the
      text is its source nothing fails but numbers that are not accepted, and
      every citation is put at its own place. */
  method AppendTextNode(
    spans: seq<Span>, source: string, value: string, rangeMatches: seq<Range>, repairable: Range -> bool,
    unclosedMatches: seq<Range>, legal: Candidate -> bool, parse: string -> Option<seq<nat>>, maximum: Option<nat>)
    returns (r: Result<seq<Span>, MarkupError>, candidates: seq<Candidate>)
    requires Matched(source, rangeMatches, unclosedMatches, maximum)
    ensures AsRead(source, candidates)
    ensures r.Ok? ==> AllFound(value, candidates) && AllAccepted(candidates, legal, parse, maximum)
    ensures r.Ok? ==> Made(r.value).text == Made(spans).text + value
    ensures value == source ==> (r.Ok? <==> AllAccepted(candidates, legal, parse, maximum))
    ensures value == source && NoneEscaped(source) && r.Ok? ==>
              Made(r.value).citations == Made(spans).citations
                + Cited(candidates, Starts(candidates, |candidates|), |Made(spans).text|, legal, parse)
  {
    ScanIsMatches(source, 0);
    candidates := ReadCitationCandidates(
      source, rangeMatches, repairable, ScanMarkers(source, 0), unclosedMatches, maximum);
    ReadingIsAsRead(source, rangeMatches, repairable, unclosedMatches, maximum, candidates);
    ghost var places;
    r, places := AppendCitationAwareText(spans, value, candidates, legal, parse, maximum);
    if value == source {
      var _ := CandidatesAreFound(source, candidates, |candidates|);
      if r.Ok? && NoneEscaped(source) {
        SourceTextKeepsPlaces(source, candidates, places);
      }
    }
  }
}
