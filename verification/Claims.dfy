/** Cutting a block's text into sentences so that every citation belongs to one
    of them.  Which periods end no sentence is a free function. */
module Claims {
  import opened Prelude
  import opened Markup
  import opened Sorting
  import opened Splice

  datatype FlatCitation = FlatCitation(start: nat, end: nat, numbers: seq<nat>)

  datatype Flattened = Flattened(text: string, citations: seq<FlatCitation>)

  // ----------------------------------------------------------------- flattening

  function Flatten(spans: seq<Span>): Flattened {
    if spans == [] then Flattened("", [])
    else
      var before := Flatten(spans[..|spans| - 1]);
      match spans[|spans| - 1]
      case Text(text) => Flattened(before.text + text, before.citations)
      case Citation(_, numbers) =>
        var text := before.text + Markers(numbers);
        Flattened(text, before.citations + [FlatCitation(|before.text|, |text|, numbers)])
  }

  method FlattenInlineSpans(spans: seq<Span>) returns (flattened: Flattened)
    ensures flattened == Flatten(spans)
  {
    var text := "";
    var citations: seq<FlatCitation> := [];
    for i := 0 to |spans|
      invariant Flattened(text, citations) == Flatten(spans[..i])
    {
      assert spans[..i + 1][..i] == spans[..i];
      match spans[i] {
        case Text(t) => text := text + t;
        case Citation(_, numbers) =>
          var start := |text|;
          text := text + Markers(numbers);
          citations := citations + [FlatCitation(start, |text|, numbers)];
      }
    }
    assert spans[..|spans|] == spans;
    flattened := Flattened(text, citations);
  }

  predicate MarkerChar(c: char) { IsDigit(c) || c == '[' || c == ']' || c == ' ' }

  predicate MarkerAt(text: string, c: FlatCitation) {
    && c.start < c.end <= |text|
    && text[c.start] == '['
    && forall i | c.start <= i < c.end :: MarkerChar(text[i])
  }

  /** Markers stand in the text in order and apart. */
  predicate WellMarked(f: Flattened) {
    && (forall k | 0 <= k < |f.citations| :: MarkerAt(f.text, f.citations[k]))
    && (forall j, k | 0 <= j < k < |f.citations| :: f.citations[j].end <= f.citations[k].start)
  }

  predicate CarriesNumbers(span: Span) {
    span.Citation? ==> span.numbers != []
  }

  lemma {:induction false} MarkersLookLikeMarkers(numbers: seq<nat>)
    requires numbers != []
    ensures Markers(numbers) != [] && Markers(numbers)[0] == '['
    ensures forall c | c in Markers(numbers) :: MarkerChar(c)
  {
    assert forall c | c in Marker(numbers[0]) :: c == '[' || c in Decimal(numbers[0]) || c == ']';
    if |numbers| > 1 {
      MarkersLookLikeMarkers(numbers[1..]);
      var tail := Markers(numbers[1..]);
      assert forall c | c in Markers(numbers) :: c in Marker(numbers[0]) || c == ' ' || c in tail;
    }
  }

  /** Citations that carry a number at least are well marked; a marker without
      a number would be empty, and the loop that skips markers never end. */
  lemma {:induction false} FlattenIsWellMarked(spans: seq<Span>)
    requires forall s | s in spans :: CarriesNumbers(s)
    ensures WellMarked(Flatten(spans))
    ensures forall c | c in Flatten(spans).citations :: c.end <= |Flatten(spans).text|
  {
    if spans != [] {
      var n := |spans| - 1;
      assert spans == spans[..n] + [spans[n]];
      FlattenIsWellMarked(spans[..n]);
      var before, after := Flatten(spans[..n]), Flatten(spans);
      if spans[n].Citation? {
        assert CarriesNumbers(spans[n]);
        OldMarkersStay(before, Markers(spans[n].numbers));
        MarkerIsAdded(before.text, spans[n].numbers);
      } else {
        OldMarkersStay(before, spans[n].text);
      }
    }
  }

  lemma OldMarkersStay(f: Flattened, more: string)
    requires WellMarked(f)
    ensures forall k | 0 <= k < |f.citations| :: MarkerAt(f.text + more, f.citations[k])
  {
    assert (f.text + more)[..|f.text|] == f.text;
  }

  lemma MarkerIsAdded(text: string, numbers: seq<nat>)
    requires numbers != []
    ensures var longer := text + Markers(numbers); MarkerAt(longer, FlatCitation(|text|, |longer|, numbers))
  {
    var longer := text + Markers(numbers);
    MarkersLookLikeMarkers(numbers);
    forall i | |text| <= i < |longer|
      ensures MarkerChar(longer[i])
    {
      assert longer[i] == Markers(numbers)[i - |text|];
    }
  }

  // ------------------------------------------------------------------ sentences

  predicate IsTerminal(c: char) { c == '.' || c == '!' || c == '?' }

  predicate IsQuote(c: char) { c == '"' || c == '\'' || c == '\U{2019}' || c == '\U{201D}' }

  predicate IsBlank(c: char) { c == '\t' || c == ' ' }

  function Skip(text: string, skipped: char -> bool, i: nat): (j: nat)
    requires i <= |text|
    ensures i <= j <= |text|
    ensures forall k | i <= k < j :: skipped(text[k])
    ensures j < |text| ==> !skipped(text[j])
    decreases |text| - i
  {
    if i < |text| && skipped(text[i]) then Skip(text, skipped, i + 1) else i
  }

  method SkipWhile(text: string, skipped: char -> bool, i: nat) returns (j: nat)
    requires i <= |text|
    ensures j == Skip(text, skipped, i)
  {
    j := i;
    while j < |text| && skipped(text[j])
      invariant i <= j <= |text| && Skip(text, skipped, j) == Skip(text, skipped, i)
    {
      j := j + 1;
    }
  }

  function CitationAt(citations: seq<FlatCitation>, at: nat): (c: Option<FlatCitation>)
    ensures c.Some? ==> c.value in citations && c.value.start == at
    ensures c.None? ==> forall x | x in citations :: x.start != at
  {
    if citations == [] then None
    else if citations[0].start == at then Some(citations[0])
    else CitationAt(citations[1..], at)
  }

  method FindCitation(citations: seq<FlatCitation>, at: nat) returns (c: Option<FlatCitation>)
    ensures c == CitationAt(citations, at)
  {
    for i := 0 to |citations|
      invariant CitationAt(citations[i..], at) == CitationAt(citations, at)
    {
      assert citations[i..][1..] == citations[i + 1..];
      if citations[i].start == at {
        return Some(citations[i]);
      }
    }
    c := None;
  }

  /** Past all markers that follow each other from at on, and blanks after them. */
  function AfterCitations(f: Flattened, at: nat): (end: nat)
    requires WellMarked(f) && at <= |f.text|
    ensures at <= end <= |f.text|
    decreases |f.text| - at
  {
    match CitationAt(f.citations, at)
    case None => at
    case Some(c) =>
      assert MarkerAt(f.text, c);
      AfterCitations(f, Skip(f.text, IsBlank, c.end))
  }

  function SentenceEnd(f: Flattened, start: nat): (end: nat)
    requires WellMarked(f) && start <= |f.text|
    ensures start <= end <= |f.text|
  {
    var end := Skip(f.text, IsQuote, start);
    var cursor := Skip(f.text, IsBlank, end);
    if CitationAt(f.citations, cursor).Some? then AfterCitations(f, cursor)
    else Skip(f.text, IsSpace, end)
  }

  method ReadSentenceEndAfterCitations(f: Flattened, start: nat) returns (sentenceEnd: nat)
    requires WellMarked(f) && start <= |f.text|
    ensures sentenceEnd == SentenceEnd(f, start)
  {
    var end := SkipWhile(f.text, IsQuote, start);
    var cursor := SkipWhile(f.text, IsBlank, end);
    ghost var firstEnd, first := end, cursor;
    var foundCitation := false;
    var matching := FindCitation(f.citations, cursor);
    while matching.Some?
      invariant cursor <= |f.text| && matching == CitationAt(f.citations, cursor)
      invariant AfterCitations(f, cursor) == AfterCitations(f, first)
      invariant foundCitation || matching.Some? <==> CitationAt(f.citations, first).Some?
      invariant !foundCitation ==> cursor == first && end == firstEnd
      decreases |f.text| - cursor
    {
      assert MarkerAt(f.text, matching.value);
      foundCitation := true;
      end := matching.value.end;
      cursor := SkipWhile(f.text, IsBlank, matching.value.end);
      matching := FindCitation(f.citations, cursor);
    }
    if foundCitation {
      return cursor;
    }
    sentenceEnd := SkipWhile(f.text, IsSpace, end);
  }

  predicate EndsSentence(f: Flattened, nonTerminal: (Flattened, nat) -> bool, index: nat)
    requires index < |f.text|
  {
    IsTerminal(f.text[index]) && !(f.text[index] == '.' && nonTerminal(f, index))
  }

  /** The sentences from index on, the current one having begun at start. */
  function Sentences(
    f: Flattened, nonTerminal: (Flattened, nat) -> bool, start: nat, index: nat): seq<Range>
    requires WellMarked(f) && start <= index <= |f.text|
    decreases |f.text| - index
  {
    if index == |f.text| then (if start < |f.text| then [Range(start, |f.text|)] else [])
    else if !EndsSentence(f, nonTerminal, index) then Sentences(f, nonTerminal, start, index + 1)
    else
      var end := SentenceEnd(f, index + 1);
      [Range(start, end)] + Sentences(f, nonTerminal, end, end)
  }

  method ReadSentenceRanges(f: Flattened, nonTerminal: (Flattened, nat) -> bool)
    returns (ranges: seq<Range>)
    requires WellMarked(f)
    ensures ranges == Sentences(f, nonTerminal, 0, 0)
    ensures forall r | r in ranges ::
              EndsAtMark(f, nonTerminal, r) || (r.end == |f.text| && NoMark(f, nonTerminal, r.start, r.end))
  {
    SentencesEndAtMarks(f, nonTerminal, 0, 0);
    ranges := [];
    var sentenceStart, index := 0, 0;
    while index < |f.text|
      invariant 0 <= sentenceStart <= index <= |f.text|
      invariant ranges + Sentences(f, nonTerminal, sentenceStart, index) == Sentences(f, nonTerminal, 0, 0)
      decreases |f.text| - index
    {
      if !IsTerminal(f.text[index]) {
        index := index + 1;
        continue;
      }
      if f.text[index] == '.' && nonTerminal(f, index) {
        index := index + 1;
        continue;
      }
      var sentenceEnd := ReadSentenceEndAfterCitations(f, index + 1);
      Glue(ranges, [Range(sentenceStart, sentenceEnd)], Sentences(f, nonTerminal, sentenceEnd, sentenceEnd));
      ranges := ranges + [Range(sentenceStart, sentenceEnd)];
      sentenceStart, index := sentenceEnd, sentenceEnd;
    }
    if sentenceStart < |f.text| {
      ranges := ranges + [Range(sentenceStart, |f.text|)];
    }
  }

  // ------------------------------------------------------ sentences and markers

  /** Non-empty ranges, one after the other, from position from to position to. */
  predicate Tiles(ranges: seq<Range>, from: nat, to: nat) {
    if ranges == [] then from == to
    else ranges[0].start == from && from < ranges[0].end && Tiles(ranges[1..], ranges[0].end, to)
  }

  /** No marker has this position inside it. */
  predicate Between(f: Flattened, at: nat) {
    forall c | c in f.citations :: at <= c.start || c.end <= at
  }

  lemma MarkerEndIsBetween(f: Flattened, c: FlatCitation)
    requires WellMarked(f) && c in f.citations
    ensures c.end <= |f.text| && Between(f, c.end)
  {
    assert MarkerAt(f.text, c);
    forall d | d in f.citations
      ensures c.end <= d.start || d.end <= c.end
    {
      var j :| 0 <= j < |f.citations| && f.citations[j] == c;
      var k :| 0 <= k < |f.citations| && f.citations[k] == d;
      assert j < k || j == k || k < j;
    }
  }

  lemma {:induction false} AfterCitationsIsBetween(f: Flattened, at: nat)
    requires WellMarked(f) && at <= |f.text| && Between(f, at)
    ensures Between(f, AfterCitations(f, at))
    decreases |f.text| - at
  {
    var found := CitationAt(f.citations, at);
    if found.Some? {
      assert MarkerAt(f.text, found.value);
      MarkerEndIsBetween(f, found.value);
      AfterCitationsIsBetween(f, Skip(f.text, IsBlank, found.value.end));
    }
  }

  lemma SentenceEndIsBetween(f: Flattened, index: nat)
    requires WellMarked(f) && index < |f.text| && IsTerminal(f.text[index])
    ensures Between(f, SentenceEnd(f, index + 1))
  {
    forall c | c in f.citations
      ensures index + 1 <= c.start || c.end <= index + 1
    {
      assert MarkerAt(f.text, c);
      assert c.start <= index < c.end ==> MarkerChar(f.text[index]);
    }
    var end := Skip(f.text, IsQuote, index + 1);
    AfterCitationsIsBetween(f, Skip(f.text, IsBlank, end));
  }

  /** Sentences tile the text, and none begins or ends inside a marker. */
  lemma {:induction false} SentencesTile(
    f: Flattened, nonTerminal: (Flattened, nat) -> bool, start: nat, index: nat)
    requires WellMarked(f) && start <= index <= |f.text| && Between(f, start)
    ensures var ranges := Sentences(f, nonTerminal, start, index);
      && Tiles(ranges, start, |f.text|)
      && forall r | r in ranges :: r.start < r.end <= |f.text| && Between(f, r.start) && Between(f, r.end)
    decreases |f.text| - index
  {
    if index == |f.text| {
      forall c | c in f.citations
        ensures c.end <= |f.text|
      {
        assert MarkerAt(f.text, c);
      }
    } else if !EndsSentence(f, nonTerminal, index) {
      SentencesTile(f, nonTerminal, start, index + 1);
    } else {
      var end := SentenceEnd(f, index + 1);
      SentenceEndIsBetween(f, index);
      SentencesTile(f, nonTerminal, end, end);
      var rest := Sentences(f, nonTerminal, end, end);
      assert ([Range(start, end)] + rest)[1..] == rest;
    }
  }

  // ------------------------------------------------ what a sentence ends with

  /** A mark that ends a sentence. */
  ghost predicate IsMark(f: Flattened, nonTerminal: (Flattened, nat) -> bool, i: nat) {
    i < |f.text| && f.text[i] in ".!?" && !(f.text[i] == '.' && nonTerminal(f, i))
  }

  ghost predicate Quoted(text: string, a: nat, b: nat)
    requires b <= |text|
  {
    forall k | a <= k < b :: text[k] in "\"'\U{2019}\U{201D}"
  }

  ghost predicate Tabbed(text: string, a: nat, b: nat)
    requires b <= |text|
  {
    forall k | a <= k < b :: text[k] == ' ' || text[k] == '\t'
  }

  /** A citation with only quotes, then tabs and spaces, between it and a mark. */
  ghost predicate FollowsMark(f: Flattened, i: nat, c: FlatCitation) {
    c in f.citations && i < c.start <= |f.text|
    && exists m: nat :: i < m <= c.start && Quoted(f.text, i + 1, m) && Tabbed(f.text, m, c.start)
  }

  /** A citation with only tabs and spaces between it and another one before it. */
  ghost predicate FollowsCitation(f: Flattened, c: FlatCitation, d: FlatCitation) {
    d in f.citations && c.end <= d.start <= |f.text| && Tabbed(f.text, c.end, d.start)
  }

  ghost predicate InCitation(f: Flattened, p: nat) {
    exists c | c in f.citations :: c.start <= p < c.end
  }

  /** The end of a sentence with a mark: it takes all citations that follow the
      mark, and all that follow these, with the blanks after them; without any it
      takes the white space after the mark; and it takes nothing else but quotes
      right after the mark. */
  ghost predicate TakesWhatFollows(f: Flattened, i: nat, end: nat) {
    && i < end <= |f.text|
    && (forall c | FollowsMark(f, i, c) :: c.end <= end)
    && (forall c, d | c in f.citations && i < c.start && c.end <= end && FollowsCitation(f, c, d) :: d.end <= end)
    && (end < |f.text| ==> f.text[end] != ' ' && f.text[end] != '\t')
    && ((forall c | c in f.citations :: !FollowsMark(f, i, c)) ==> end < |f.text| ==> !IsSpace(f.text[end]))
    && (forall p | i < p < end ::
          || Quoted(f.text, i + 1, p + 1) || Tabbed(f.text, p, p + 1) || InCitation(f, p)
          || (IsSpace(f.text[p]) && forall c | c in f.citations :: !FollowsMark(f, i, c)))
  }

  lemma {:induction false} SkipIs(text: string, skipped: char -> bool, i: nat, j: nat)
    requires i <= j <= |text| && (j < |text| ==> !skipped(text[j])) && forall k | i <= k < j :: skipped(text[k])
    ensures Skip(text, skipped, i) == j
    decreases j - i
  {
    if i < j {
      SkipIs(text, skipped, i + 1, j);
    }
  }

  /** A citation that follows a mark begins where the search for one looks. */
  lemma FollowerIsFound(f: Flattened, i: nat, c: FlatCitation)
    requires WellMarked(f) && i < |f.text| && FollowsMark(f, i, c)
    ensures c.start == Skip(f.text, IsBlank, Skip(f.text, IsQuote, i + 1))
  {
    assert MarkerAt(f.text, c);
    var m: nat :| i < m <= c.start && Quoted(f.text, i + 1, m) && Tabbed(f.text, m, c.start);
    SkipIs(f.text, IsQuote, i + 1, m);
    SkipIs(f.text, IsBlank, m, c.start);
  }

  lemma FoundFollows(f: Flattened, i: nat, c: FlatCitation)
    requires WellMarked(f) && i < |f.text| && c in f.citations
    requires c.start == Skip(f.text, IsBlank, Skip(f.text, IsQuote, i + 1))
    ensures FollowsMark(f, i, c)
  {
    var m := Skip(f.text, IsQuote, i + 1);
    assert Quoted(f.text, i + 1, m) && Tabbed(f.text, m, c.start);
  }

  lemma SameStart(f: Flattened, c: FlatCitation, d: FlatCitation)
    requires WellMarked(f) && c in f.citations && d in f.citations && c.start <= d.start < c.end
    ensures c == d
  {
    assert MarkerAt(f.text, c) && MarkerAt(f.text, d);
    var j :| 0 <= j < |f.citations| && f.citations[j] == c;
    var k :| 0 <= k < |f.citations| && f.citations[k] == d;
    assert j < k || j == k || k < j;
  }

  /** What a run of citations takes. */
  ghost predicate TakesRun(f: Flattened, at: nat, end: nat) {
    && at <= end <= |f.text|
    && (forall c | c in f.citations && c.start == at :: c.end <= end)
    && (forall c, d | c in f.citations && at <= c.start && c.end <= end && FollowsCitation(f, c, d) :: d.end <= end)
    && (end < |f.text| ==> f.text[end] != ' ' && f.text[end] != '\t')
    && (forall p | at <= p < end :: Tabbed(f.text, p, p + 1) || InCitation(f, p))
  }

  lemma {:induction false} AfterCitationsTakesRun(f: Flattened, at: nat)
    requires WellMarked(f) && at <= |f.text| && (at < |f.text| ==> !IsBlank(f.text[at]))
    ensures TakesRun(f, at, AfterCitations(f, at))
    decreases |f.text| - at
  {
    var found := CitationAt(f.citations, at);
    if found.Some? {
      assert MarkerAt(f.text, found.value);
      var next := Skip(f.text, IsBlank, found.value.end);
      AfterCitationsTakesRun(f, next);
      RunGoesOn(f, found.value, next, AfterCitations(f, next));
    } else {
      forall c | c in f.citations
        ensures c.start < c.end
      {
        assert MarkerAt(f.text, c);
      }
    }
  }

  lemma RunGoesOn(f: Flattened, c0: FlatCitation, next: nat, end: nat)
    requires WellMarked(f) && c0 in f.citations && c0.end <= |f.text|
    requires next == Skip(f.text, IsBlank, c0.end) && TakesRun(f, next, end)
    ensures TakesRun(f, c0.start, end)
  {
    assert MarkerAt(f.text, c0);
    forall c | c in f.citations && c0.start <= c.start
      ensures c == c0 || next <= c.start
    {
      assert MarkerAt(f.text, c);
      if c.start < c0.end {
        SameStart(f, c0, c);
      }
    }
    forall d | FollowsCitation(f, c0, d)
      ensures d.end <= end
    {
      assert MarkerAt(f.text, d);
      SkipIs(f.text, IsBlank, c0.end, d.start);
    }
    forall p | c0.start <= p < next
      ensures Tabbed(f.text, p, p + 1) || InCitation(f, p)
    {
      assert p < c0.end ==> InCitation(f, p);
    }
  }

  /** The end of a sentence is what it should be. */
  lemma SentenceTakesWhatFollows(f: Flattened, i: nat)
    requires WellMarked(f) && i < |f.text|
    ensures TakesWhatFollows(f, i, SentenceEnd(f, i + 1))
  {
    var quoted := Skip(f.text, IsQuote, i + 1);
    var cursor := Skip(f.text, IsBlank, quoted);
    var found := CitationAt(f.citations, cursor);
    forall c | FollowsMark(f, i, c)
      ensures c.start == cursor
    {
      FollowerIsFound(f, i, c);
    }
    if found.Some? {
      FoundFollows(f, i, found.value);
      AfterCitationsTakesRun(f, cursor);
      BeforeRun(f, i, quoted, cursor, AfterCitations(f, cursor));
    } else {
      NoRun(f, i, quoted, Skip(f.text, IsSpace, quoted));
    }
  }

  lemma BeforeRun(f: Flattened, i: nat, quoted: nat, cursor: nat, end: nat)
    requires WellMarked(f) && i < quoted <= cursor <= |f.text|
    requires Quoted(f.text, i + 1, quoted) && Tabbed(f.text, quoted, cursor) && TakesRun(f, cursor, end)
    requires exists c | c in f.citations :: FollowsMark(f, i, c)
    requires forall c | FollowsMark(f, i, c) :: c.start == cursor
    ensures TakesWhatFollows(f, i, end)
  {
    forall c | c in f.citations && i < c.start
      ensures cursor <= c.start
    {
      assert MarkerAt(f.text, c);
    }
  }

  lemma NoRun(f: Flattened, i: nat, quoted: nat, end: nat)
    requires WellMarked(f) && i < quoted <= end <= |f.text| && Quoted(f.text, i + 1, quoted)
    requires (forall k | quoted <= k < end :: IsSpace(f.text[k])) && (end < |f.text| ==> !IsSpace(f.text[end]))
    requires forall c | c in f.citations :: !FollowsMark(f, i, c)
    ensures TakesWhatFollows(f, i, end)
  {
    forall c | c in f.citations && i < c.start
      ensures end <= c.start && c.start < c.end
    {
      assert MarkerAt(f.text, c);
    }
  }

  /** A sentence ends with the first mark in it and what follows that. */
  ghost predicate EndsAtMark(f: Flattened, nonTerminal: (Flattened, nat) -> bool, r: Range) {
    exists i: nat :: IsFirstMark(f, nonTerminal, r.start, i) && TakesWhatFollows(f, i, r.end)
  }

  ghost predicate IsFirstMark(f: Flattened, nonTerminal: (Flattened, nat) -> bool, from: nat, i: nat) {
    from <= i && IsMark(f, nonTerminal, i) && NoMark(f, nonTerminal, from, i)
  }

  ghost predicate NoMark(f: Flattened, nonTerminal: (Flattened, nat) -> bool, from: nat, to: nat) {
    forall k: nat | from <= k < to :: !IsMark(f, nonTerminal, k)
  }

  /** Every sentence ends so, but for a last one that has no mark. */
  lemma {:induction false} SentencesEndAtMarks(
    f: Flattened, nonTerminal: (Flattened, nat) -> bool, start: nat, index: nat)
    requires WellMarked(f) && start <= index <= |f.text| && NoMark(f, nonTerminal, start, index)
    ensures forall r | r in Sentences(f, nonTerminal, start, index) ::
              EndsAtMark(f, nonTerminal, r) || (r.end == |f.text| && NoMark(f, nonTerminal, r.start, r.end))
    decreases |f.text| - index
  {
    if index < |f.text| {
      if !EndsSentence(f, nonTerminal, index) {
        SentencesEndAtMarks(f, nonTerminal, start, index + 1);
      } else {
        var end := SentenceEnd(f, index + 1);
        SentenceTakesWhatFollows(f, index);
        SentencesEndAtMarks(f, nonTerminal, end, end);
        assert IsFirstMark(f, nonTerminal, start, index);
        assert EndsAtMark(f, nonTerminal, Range(start, end));
      }
    }
  }

  predicate Holds(r: Range, c: FlatCitation) { r.start <= c.start && c.end <= r.end }

  /** The citations that a sentence is given. */
  function CitationsIn(citations: seq<FlatCitation>, r: Range): seq<FlatCitation> {
    if citations == [] then []
    else (if Holds(r, citations[0]) then [citations[0]] else []) + CitationsIn(citations[1..], r)
  }

  function Gather(citations: seq<FlatCitation>, ranges: seq<Range>): seq<FlatCitation> {
    if ranges == [] then [] else CitationsIn(citations, ranges[0]) + Gather(citations, ranges[1..])
  }

  predicate InOrder(citations: seq<FlatCitation>) {
    && (forall k | 0 <= k < |citations| :: citations[k].start < citations[k].end)
    && (forall j, k | 0 <= j < k < |citations| :: citations[j].end <= citations[k].start)
  }

  lemma {:induction false} GatherSkipsEarlier(c: FlatCitation, rest: seq<FlatCitation>, ranges: seq<Range>, from: nat, to: nat)
    requires Tiles(ranges, from, to) && c.start < from
    ensures Gather([c] + rest, ranges) == Gather(rest, ranges)
    decreases |ranges|
  {
    if ranges != [] {
      assert ([c] + rest)[1..] == rest;
      GatherSkipsEarlier(c, rest, ranges[1..], ranges[0].end, to);
    }
  }

  lemma {:induction false} NoneInRange(citations: seq<FlatCitation>, r: Range)
    requires forall c | c in citations :: !Holds(r, c)
    ensures CitationsIn(citations, r) == []
  {
    if citations != [] {
      assert citations[0] in citations;
      NoneInRange(citations[1..], r);
    }
  }

  /** The first citation belongs to the first range, or all to later ones. */
  lemma GatherFirst(c: FlatCitation, rest: seq<FlatCitation>, ranges: seq<Range>, from: nat, to: nat)
    requires ranges != [] && Tiles(ranges, from, to)
    requires from <= c.start < c.end <= ranges[0].end
    ensures Gather([c] + rest, ranges) == [c] + Gather(rest, ranges)
  {
    var r := ranges[0];
    assert ([c] + rest)[1..] == rest;
    GatherSkipsEarlier(c, rest, ranges[1..], r.end, to);
    assert CitationsIn([c] + rest, r) == [c] + CitationsIn(rest, r);
    Glue([c], CitationsIn(rest, r), Gather(rest, ranges[1..]));
  }

  /** No citation is lost, repeated or moved: reading the sentences in order
      and the citations of each in order gives back all citations in order. */
  lemma {:induction false} GatherAll(
    citations: seq<FlatCitation>, ranges: seq<Range>, from: nat, to: nat)
    requires InOrder(citations) && Tiles(ranges, from, to)
    requires forall c | c in citations :: from <= c.start && c.end <= to
    requires forall r, c | r in ranges && c in citations :: r.end <= c.start || c.end <= r.end
    ensures Gather(citations, ranges) == citations
    decreases |ranges|, |citations|
  {
    if citations == [] {
      GatherNothing(ranges);
    } else {
      var c, rest := citations[0], citations[1..];
      assert c in citations && [c] + rest == citations;
      if ranges != [] {
        assert ranges[0] in ranges;
        if c.start < ranges[0].end {
          GatherAll(rest, ranges, from, to);
          GatherFirst(c, rest, ranges, from, to);
        } else {
          AllLater(citations, ranges[0]);
          NoneInRange(citations, ranges[0]);
          GatherAll(citations, ranges[1..], ranges[0].end, to);
        }
      }
    }
  }

  lemma AllLater(citations: seq<FlatCitation>, r: Range)
    requires InOrder(citations) && citations != [] && r.end <= citations[0].start
    ensures forall c | c in citations :: r.end <= c.start && !Holds(r, c)
  {
    forall c | c in citations
      ensures r.end <= c.start && !Holds(r, c)
    {
      var k :| 0 <= k < |citations| && citations[k] == c;
      assert k > 0 ==> citations[0].end <= citations[k].start;
    }
  }

  lemma {:induction false} GatherNothing(ranges: seq<Range>)
    ensures Gather([], ranges) == []
  {
    if ranges != [] {
      GatherNothing(ranges[1..]);
    }
  }

  /** Whatever periods count as final: the sentences of a flattened block tile
      its text, and share out its citations without losing or repeating one. */
  lemma {:induction false} EveryCitationInOneSentence(spans: seq<Span>, nonTerminal: (Flattened, nat) -> bool)
    requires forall s | s in spans :: CarriesNumbers(s)
    ensures var f := Flatten(spans);
      && WellMarked(f)
      && var ranges := Sentences(f, nonTerminal, 0, 0);
      && Tiles(ranges, 0, |f.text|)
      && (forall r | r in ranges :: Between(f, r.start) && Between(f, r.end))
      && Gather(f.citations, ranges) == f.citations
  {
    var f := Flatten(spans);
    FlattenIsWellMarked(spans);
    SentencesTile(f, nonTerminal, 0, 0);
    forall c | c in f.citations
      ensures c.start < c.end
    {
      assert MarkerAt(f.text, c);
    }
    GatherAll(f.citations, Sentences(f, nonTerminal, 0, 0), 0, |f.text|);
  }

  function NumbersOf(citations: seq<FlatCitation>): seq<nat> {
    if citations == [] then [] else citations[0].numbers + NumbersOf(citations[1..])
  }

  /** The distinct numbers of a sentence's citations, in order of appearance. */
  method ReadSentenceCitationNumbers(f: Flattened, sentence: Range) returns (numbers: seq<nat>)
    ensures numbers == Unique(NumbersOf(CitationsIn(f.citations, sentence)))
  {
    numbers := [];
    var seen: set<nat> := {};
    ghost var read: seq<nat> := [];
    for i := 0 to |f.citations|
      invariant numbers == Unique(read) && forall x :: x in seen <==> x in read
      invariant read + NumbersOf(CitationsIn(f.citations[i..], sentence))
             == NumbersOf(CitationsIn(f.citations, sentence))
    {
      var c := f.citations[i];
      ghost var later := CitationsIn(f.citations[i + 1..], sentence);
      assert f.citations[i..][1..] == f.citations[i + 1..];
      if c.start < sentence.start || c.end > sentence.end {
        assert CitationsIn(f.citations[i..], sentence) == [] + later == later;
        continue;
      }
      numbers, seen := AddNumbers(numbers, seen, c.numbers, read);
      NumbersStep(c, later);
      Glue(read, c.numbers, NumbersOf(later));
      read := read + c.numbers;
    }
    assert f.citations[|f.citations|..] == [];
    assert read + [] == read;
  }

  lemma NumbersStep(c: FlatCitation, later: seq<FlatCitation>)
    ensures NumbersOf([c] + later) == c.numbers + NumbersOf(later)
  {
    assert ([c] + later)[1..] == later;
  }

  method AddNumbers(numbers: seq<nat>, seen: set<nat>, values: seq<nat>, ghost read: seq<nat>)
    returns (extended: seq<nat>, known: set<nat>)
    requires numbers == Unique(read) && forall x :: x in seen <==> x in read
    ensures extended == Unique(read + values) && forall x :: x in known <==> x in read + values
  {
    extended, known := numbers, seen;
    assert read + values[..0] == read;
    for j := 0 to |values|
      invariant extended == Unique(read + values[..j])
      invariant forall x :: x in known <==> x in read + values[..j]
    {
      ghost var before := read + values[..j];
      assert read + values[..j + 1] == before + [values[j]];
      assert (before + [values[j]])[..|before|] == before;
      if values[j] !in known {
        known := known + {values[j]};
        extended := extended + [values[j]];
      }
    }
    assert values[..|values|] == values;
  }

  // ------------------------------------------------------------- claim texts

  /** Cutting markers out of a sentence, at positions within it. */
  function MarkerCuts(citations: seq<FlatCitation>, r: Range): seq<Edit>
    requires AllHeld(citations, r)
  {
    seq(|citations|, k requires 0 <= k < |citations| =>
      assert Holds(r, citations[k]);
      Edit(citations[k].start - r.start, citations[k].end - r.start, ""))
  }

  predicate AllHeld(citations: seq<FlatCitation>, r: Range) {
    forall k | 0 <= k < |citations| :: Holds(r, citations[k]) && citations[k].start < citations[k].end
  }

  lemma {:induction false} CitationsInFacts(citations: seq<FlatCitation>, r: Range)
    requires InOrder(citations)
    ensures InOrder(CitationsIn(citations, r))
    ensures forall c | c in CitationsIn(citations, r) :: c in citations && Holds(r, c)
  {
    if citations != [] {
      var rest := CitationsIn(citations[1..], r);
      CitationsInFacts(citations[1..], r);
      forall k | 0 <= k < |rest|
        ensures citations[0].end <= rest[k].start
      {
        assert rest[k] in citations[1..];
      }
    }
  }

  lemma {:induction false} MarkerCutsArePlaced(citations: seq<FlatCitation>, r: Range, from: nat)
    requires InOrder(citations) && r.start <= r.end && from <= r.end - r.start
    requires forall k | 0 <= k < |citations| :: Holds(r, citations[k]) && r.start + from <= citations[k].start
    ensures Placed(r.end - r.start, MarkerCuts(citations, r), from)
    decreases |citations|
  {
    if citations != [] {
      MarkerCutsArePlaced(citations[1..], r, citations[0].end - r.start);
      assert MarkerCuts(citations, r)[1..] == MarkerCuts(citations[1..], r);
    }
  }

  predicate StartsLater(a: FlatCitation, b: FlatCitation) { a.start >= b.start }

  lemma {:induction false} SortReverses(citations: seq<FlatCitation>)
    requires InOrder(citations)
    ensures Sort(StartsLater, citations) == Reverse(citations)
  {
    if citations == [] {
    } else {
      var rest := citations[1..];
      SortReverses(rest);
      InsertLast(citations[0], Reverse(rest));
      ReverseOfMore(citations[0], rest);
      assert citations == [citations[0]] + rest;
    }
  }

  lemma ReverseOfMore<T>(x: T, rest: seq<T>)
    ensures Reverse([x] + rest) == Reverse(rest) + [x]
  {
  }

  lemma {:induction false} InsertLast(c: FlatCitation, later: seq<FlatCitation>)
    requires forall k | 0 <= k < |later| :: c.start < later[k].start
    ensures Insert(StartsLater, c, later) == later + [c]
  {
    if later != [] {
      InsertLast(c, later[1..]);
      assert later == [later[0]] + later[1..];
    }
  }

  lemma OwnCutsArePlaced(f: Flattened, sentence: Range)
    requires WellMarked(f) && sentence.start <= sentence.end
    ensures var own := CitationsIn(f.citations, sentence);
      && AllHeld(own, sentence) && Sort(StartsLater, own) == Reverse(own)
      && Placed(sentence.end - sentence.start, MarkerCuts(own, sentence), 0)
  {
    var own := CitationsIn(f.citations, sentence);
    assert forall k | 0 <= k < |f.citations| :: MarkerAt(f.text, f.citations[k]);
    CitationsInFacts(f.citations, sentence);
    assert forall k | 0 <= k < |own| :: own[k] in own;
    SortReverses(own);
    MarkerCutsArePlaced(own, sentence, 0);
  }

  /** The text of a claim: its sentence with its own markers cut out, all at
      once, and its blanks normalized. */
  method ReadClaimText(f: Flattened, sentence: Range) returns (text: string)
    requires WellMarked(f) && sentence.start <= sentence.end <= |f.text|
    ensures var own := CitationsIn(f.citations, sentence);
      && AllHeld(own, sentence)
      && Placed(sentence.end - sentence.start, MarkerCuts(own, sentence), 0)
      && text == Normalized(Substitute(f.text[sentence.start..sentence.end], MarkerCuts(own, sentence), 0))
  {
    var own := ReadOwnCitations(f.citations, sentence);
    var lastFirst := Sort(StartsLater, own);
    OwnCutsArePlaced(f, sentence);
    var cut := CutMarkers(f.text[sentence.start..sentence.end], sentence, lastFirst, own);
    text := Normalized(cut);
  }

  method ReadOwnCitations(citations: seq<FlatCitation>, r: Range) returns (own: seq<FlatCitation>)
    ensures own == CitationsIn(citations, r)
  {
    own := [];
    for i := 0 to |citations|
      invariant own + CitationsIn(citations[i..], r) == CitationsIn(citations, r)
    {
      assert citations[i..][1..] == citations[i + 1..];
      if Holds(r, citations[i]) {
        Glue(own, [citations[i]], CitationsIn(citations[i + 1..], r));
        own := own + [citations[i]];
      } else {
        assert CitationsIn(citations[i..], r) == [] + CitationsIn(citations[i + 1..], r);
      }
    }
    assert citations[|citations|..] == [] && own + [] == own;
  }

  /** Each step cuts one marker, the last one first. */
  method CutMarkers(sentence: string, r: Range, lastFirst: seq<FlatCitation>, ghost own: seq<FlatCitation>)
    returns (text: string)
    requires |sentence| == r.end - r.start && lastFirst == Reverse(own)
    requires AllHeld(own, r)
    requires Placed(|sentence|, MarkerCuts(own, r), 0)
    ensures text == Substitute(sentence, MarkerCuts(own, r), 0)
  {
    var cuts := MarkerCuts(Reverse(lastFirst), r);
    assert Reverse(lastFirst) == own;
    text := ApplyFromRight(sentence, cuts);
  }

  // ------------------------------------------------------- normalizing blanks

  /** Runs of blanks become single spaces. */
  function Collapse(s: string): string {
    if s == [] then []
    else if !IsSpace(s[0]) then [s[0]] + Collapse(s[1..])
    else if |s| > 1 && IsSpace(s[1]) then Collapse(s[1..])
    else [' '] + Collapse(s[1..])
  }

  predicate IsPunctuation(c: char) { c in ",.;:!?" }

  /** Only tabs and spaces stand before a punctuation mark here. */
  predicate MeetsPunctuation(s: string) {
    s != [] && (IsPunctuation(s[0]) || ((s[0] == '\t' || s[0] == ' ') && MeetsPunctuation(s[1..])))
  }

  /** Tabs and spaces before punctuation are dropped. */
  function Tighten(s: string): string {
    if s == [] then []
    else if (s[0] == '\t' || s[0] == ' ') && MeetsPunctuation(s[1..]) then Tighten(s[1..])
    else [s[0]] + Tighten(s[1..])
  }

  function Normalized(s: string): string { Trim(Tighten(Collapse(s))) }

  /** Blanks are single spaces. */
  ghost predicate SinglySpaced(s: string) {
    forall i | 0 <= i < |s| && IsSpace(s[i]) :: s[i] == ' ' && (i + 1 < |s| ==> !IsSpace(s[i + 1]))
  }

  ghost predicate NoGaps(s: string) {
    forall i | 0 <= i < |s| - 1 && IsSpace(s[i]) :: !IsPunctuation(s[i + 1])
  }

  /** Single spaces, none of them at an end or before punctuation. */
  ghost predicate Tidy(s: string) {
    SinglySpaced(s) && NoGaps(s) && (s != [] ==> !IsSpace(s[0]) && !IsSpace(s[|s| - 1]))
  }

  /** What is left of a text without its blanks. */
  function Visible(s: string): string {
    if s == [] then [] else (if IsSpace(s[0]) then [] else [s[0]]) + Visible(s[1..])
  }

  lemma {:induction false} CollapseSpacesSingly(s: string)
    ensures SinglySpaced(Collapse(s)) && Visible(Collapse(s)) == Visible(s)
    ensures s != [] ==> Collapse(s) != [] && (IsSpace(Collapse(s)[0]) <==> IsSpace(s[0]))
  {
    if s != [] {
      CollapseSpacesSingly(s[1..]);
    }
  }

  lemma {:induction false} TightenLeavesNoGaps(s: string)
    requires SinglySpaced(s)
    ensures SinglySpaced(Tighten(s)) && NoGaps(Tighten(s)) && Visible(Tighten(s)) == Visible(s)
    ensures s != [] && !IsSpace(s[0]) ==> Tighten(s) != [] && Tighten(s)[0] == s[0]
  {
    if s != [] {
      TightenLeavesNoGaps(s[1..]);
    }
  }

  lemma {:induction false} VisibleJoins(a: string, b: string)
    ensures Visible(a + b) == Visible(a) + Visible(b)
  {
    if a == [] {
      assert a + b == b;
    } else {
      assert (a + b)[1..] == a[1..] + b;
      VisibleJoins(a[1..], b);
    }
  }

  lemma {:induction false} BlankIsInvisible(s: string)
    requires Blank(s)
    ensures Visible(s) == []
  {
    if s != [] {
      BlankIsInvisible(s[1..]);
    }
  }

  lemma TrimTidies(s: string)
    requires SinglySpaced(s) && NoGaps(s)
    ensures Tidy(Trim(s)) && Visible(Trim(s)) == Visible(s)
  {
    StartTidies(s);
    EndTidies(TrimStart(s));
  }

  lemma StartTidies(s: string)
    requires SinglySpaced(s) && NoGaps(s)
    ensures var t := TrimStart(s);
      SinglySpaced(t) && NoGaps(t) && (t != [] ==> !IsSpace(t[0])) && Visible(t) == Visible(s)
  {
    var l := LeadingBlanks(s);
    LeadingBlanksLead(s);
    assert s == s[..l] + s[l..];
    VisibleJoins(s[..l], s[l..]);
    BlankIsInvisible(s[..l]);
  }

  lemma EndTidies(s: string)
    requires SinglySpaced(s) && NoGaps(s) && (s != [] ==> !IsSpace(s[0]))
    ensures Tidy(TrimEnd(s)) && Visible(TrimEnd(s)) == Visible(s)
  {
    var k := |s| - TrailingBlanks(s);
    TrailingBlanksTrail(s);
    VisibleBeforeBlanks(s, k);
    PrefixStaysSpaced(s, k);
  }

  lemma VisibleBeforeBlanks(s: string, k: nat)
    requires k <= |s| && BlankFrom(s, k, |s|)
    ensures Visible(s[..k]) == Visible(s)
  {
    assert s == s[..k] + s[k..];
    VisibleJoins(s[..k], s[k..]);
    BlankIsInvisible(s[k..]);
  }

  lemma PrefixStaysSpaced(s: string, k: nat)
    requires k <= |s| && SinglySpaced(s) && NoGaps(s)
    ensures SinglySpaced(s[..k]) && NoGaps(s[..k])
  {
  }

  /** Claim texts are tidy, and nothing but blanks is lost or added. */
  lemma NormalizedIsTidy(s: string)
    ensures Tidy(Normalized(s)) && Visible(Normalized(s)) == Visible(s)
  {
    CollapseSpacesSingly(s);
    TightenLeavesNoGaps(Collapse(s));
    TrimTidies(Tighten(Collapse(s)));
  }

  lemma {:induction false} TidyStays(s: string)
    requires SinglySpaced(s) && NoGaps(s)
    ensures Collapse(s) == s && Tighten(s) == s
  {
    if s != [] {
      TidyStays(s[1..]);
    }
  }

  /** Tidy texts, and no others, stay as they are. */
  lemma NormalizedExactlyWhenTidy(s: string)
    ensures Normalized(s) == s <==> Tidy(s)
  {
    NormalizedIsTidy(s);
    if Tidy(s) {
      TidyStays(s);
    }
  }
}
