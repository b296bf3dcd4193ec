/** Pruning an answer as it was written: what the edits are meant to make of
    it, what that keeps and cuts, and exactly when the code makes it. */
module PrunedAnswer {
  import opened Prelude
  import opened Splice
  import opened Markup
  import opened Coverage
  import opened Offsets

  // ------------------------------------------------------- what pruning means

  function Place(rewrites: seq<Edit>, at: nat): nat {
    if Moved(rewrites, at) >= 0 then Moved(rewrites, at) else 0
  }

  function MovedEdit(rewrites: seq<Edit>, e: Edit): Edit {
    Edit(Place(rewrites, e.start), Place(rewrites, e.end), e.replacement)
  }

  function MovedEdits(rewrites: seq<Edit>, edits: seq<Edit>): seq<Edit> {
    seq(|edits|, i requires 0 <= i < |edits| => MovedEdit(rewrites, edits[i]))
  }

  /** Edits at stretches of the answer, in order. */
  ghost predicate AtStretches(original: string, rewrites: seq<Edit>, edits: seq<Edit>, from: nat) {
    Placed(|original|, edits, from) && forall e | e in edits :: OfStretch(original, rewrites, e)
  }

  lemma {:induction false} MovedIsPlaced(original: string, rewrites: seq<Edit>, edits: seq<Edit>, from: nat)
    requires GoodRewrites(original, rewrites) && AtStretches(original, rewrites, edits, from)
    requires Uncrossed(rewrites, from)
    ensures Placed(|Substitute(original, rewrites, 0)|, MovedEdits(rewrites, edits), Place(rewrites, from))
    decreases |edits|
  {
    PlacedBounds(|original|, edits, from);
    PlacesGrow(original, rewrites, from, from);
    if edits != [] {
      var e := edits[0];
      assert e in edits && forall x | x in edits[1..] :: x in edits;
      PlacesGrow(original, rewrites, from, e.start);
      PlacesGrow(original, rewrites, e.start, e.end);
      MovedIsPlaced(original, rewrites, edits[1..], e.end);
      assert MovedEdits(rewrites, edits)[1..] == MovedEdits(rewrites, edits[1..]);
    }
  }

  lemma PlacesGrow(original: string, rewrites: seq<Edit>, a: nat, b: nat)
    requires Stretch(original, rewrites, a, b)
    ensures Place(rewrites, a) <= Place(rewrites, b) <= |Substitute(original, rewrites, 0)|
  {
    RewrittenIsSlice(original, rewrites, a, b);
  }

  lemma NothingCrossesTheStart(original: string, rewrites: seq<Edit>)
    requires GoodRewrites(original, rewrites)
    ensures Uncrossed(rewrites, 0) && Place(rewrites, 0) == 0
  {
    PlacedBounds(|original|, rewrites, 0);
    StartAndEnd(original, rewrites);
  }

  /** The rewritten answer with each edit at the place its range has moved to. */
  ghost function Meant(original: string, rewrites: seq<Edit>, edits: seq<Edit>): string
    requires GoodRewrites(original, rewrites) && AtStretches(original, rewrites, edits, 0)
  {
    NothingCrossesTheStart(original, rewrites);
    MovedIsPlaced(original, rewrites, edits, 0);
    Substitute(Substitute(original, rewrites, 0), MovedEdits(rewrites, edits), 0)
  }

  // --------------------------------------------------- when the code makes it

  ghost predicate AllStayPut(original: string, rewrites: seq<Edit>, edits: seq<Edit>) {
    forall e | e in edits :: StaysPut(original, rewrites, e)
  }

  function Crop(n: nat, at: nat): nat { if at <= n then at else n }

  /** The end of a moved edit m, and that of the edit e that it was, in the text
      of length n that begins at position l: the same place, or nothing but
      blanks follows. */
  ghost predicate EndsAlike(full: string, l: nat, n: nat, m: Edit, e: Edit) {
    && m.end <= |full| && 0 < e.end
    && if Blank(full[m.end..]) then n <= e.end else m.end == l + e.end && e.end <= n
  }

  ghost predicate Alike(full: string, l: nat, n: nat, m: Edit, e: Edit) {
    && m.replacement == e.replacement && m.start <= m.end && e.start < n
    && m.start == (if e.start == 0 then 0 else l + e.start)
    && EndsAlike(full, l, n, m, e)
    && !Blank(full[m.start..])
  }

  /** Moved edits and the edits they were, one by one and in order. */
  ghost predicate AllAlike(full: string, l: nat, n: nat, moved: seq<Edit>, edits: seq<Edit>) {
    && |moved| == |edits|
    && (forall i | 0 <= i < |edits| :: Alike(full, l, n, moved[i], edits[i]))
    && (forall i | 0 <= i < |edits| :: edits[i].start <= edits[i].end)
    && (forall i | 0 <= i < |edits| - 1 :: edits[i].end <= edits[i + 1].start)
  }

  ghost predicate TrimsTo(full: string, l: nat, n: nat) {
    l + n <= |full| && Blank(full[l + n..])
  }

  lemma StayingIsAlike(original: string, rewrites: seq<Edit>, e: Edit)
    requires GoodRewrites(original, rewrites) && OfStretch(original, rewrites, e) && StaysPut(original, rewrites, e)
    ensures var full, n := Substitute(original, rewrites, 0), |Canonical(original, rewrites)|;
      var l := LeadingBlanks(full);
      && TrimsTo(full, l, n) && Canonical(original, rewrites) == full[l..l + n]
      && Alike(full, l, n, MovedEdit(rewrites, e), e)
  {
    var full := Substitute(original, rewrites, 0);
    EndsAreSlices(original, rewrites, e);
    AlikeNumbers(full, MovedEdit(rewrites, e), e);
  }

  lemma AlikeNumbers(full: string, m: Edit, e: Edit)
    requires m.start <= m.end <= |full| && !Blank(full[m.start..m.end]) && m.replacement == e.replacement
    requires e.start == 0 ==> m.start == 0
    requires e.start == 0 || m.start - e.start == LeadingBlanks(full)
    requires if Blank(full[m.end..]) then |Trim(full)| <= e.end else m.end - e.end == LeadingBlanks(full)
    ensures var l, n := LeadingBlanks(full), |Trim(full)|;
      TrimsTo(full, l, n) && Trim(full) == full[l..l + n] && Alike(full, l, n, m, e)
  {
    TrimAround(full, m.start, m.end);
    BlankSuffix(full, |full| - TrailingBlanks(full));
    BlankSuffix(full, m.end);
    BlankSuffix(full, m.start);
  }

  /** What follows an edit. */
  lemma {:induction false} AfterEdit(
    full: string, l: nat, canonical: string, m: Edit, e: Edit, moved: seq<Edit>, edits: seq<Edit>)
    returns (blanks: string)
    requires TrimsTo(full, l, |canonical|) && canonical == full[l..l + |canonical|]
    requires EndsAlike(full, l, |canonical|, m, e) && AllAlike(full, l, |canonical|, moved, edits)
    requires Placed(|full|, moved, m.end) && (edits != [] ==> e.end <= edits[0].start)
    ensures Blank(blanks) && GoesOnAlike(full, canonical, m.end, moved, e.end, edits, "", blanks)
    decreases |edits|
  {
    if edits == [] {
      blanks := AfterLast(full, l, canonical, m, e);
    } else {
      AlikeRest(full, l, |canonical|, moved, edits);
      blanks := AfterEdit(full, l, canonical, moved[0], edits[0], moved[1..], edits[1..]);
      OneMoreEdit(full, l, canonical, m, e, moved, edits, blanks);
    }
  }

  lemma OneMoreEdit(
    full: string, l: nat, canonical: string, m: Edit, e: Edit, moved: seq<Edit>, edits: seq<Edit>, blanks: string)
    requires TrimsTo(full, l, |canonical|) && canonical == full[l..l + |canonical|]
    requires EndsAlike(full, l, |canonical|, m, e) && AllAlike(full, l, |canonical|, moved, edits)
    requires Placed(|full|, moved, m.end) && edits != [] && e.end <= edits[0].start
    requires GoesOnAlike(full, canonical, moved[0].end, moved[1..], edits[0].end, edits[1..], "", blanks)
    ensures GoesOnAlike(full, canonical, m.end, moved, e.end, edits, "", blanks)
  {
    assert Alike(full, l, |canonical|, moved[0], edits[0]);
    BetweenEdits(full, l, canonical, m, e, moved[0], edits[0]);
    GoOnAlike(full, canonical, m.end, moved, e.end, edits, "", blanks);
  }

  /** From y on the moved edits make of the full text what the edits make of the
      canonical text from its position end on, but for some text on both sides. */
  ghost predicate GoesOnAlike(
    full: string, canonical: string, y: nat, moved: seq<Edit>, end: nat, edits: seq<Edit>, front: string, blanks: string)
  {
    && Placed(|full|, moved, y)
    && Placed(|canonical|, Cropped(|canonical|, edits), Crop(|canonical|, end))
    && Substitute(full, moved, y)
       == front + Substitute(canonical, Cropped(|canonical|, edits), Crop(|canonical|, end)) + blanks
  }

  lemma GoOnAlike(
    full: string, canonical: string, y: nat, moved: seq<Edit>, end: nat, edits: seq<Edit>, front: string, blanks: string)
    requires moved != [] && edits != [] && Placed(|full|, moved, y) && moved[0].start <= |full|
    requires moved[0].replacement == edits[0].replacement
    requires end <= edits[0].start <= edits[0].end && edits[0].start <= |canonical|
    requires full[y..moved[0].start] == front + canonical[end..edits[0].start]
    requires GoesOnAlike(full, canonical, moved[0].end, moved[1..], edits[0].end, edits[1..], "", blanks)
    ensures GoesOnAlike(full, canonical, y, moved, end, edits, front, blanks)
  {
    CroppedParts(|canonical|, edits);
    SameEdits(full, canonical, moved, Cropped(|canonical|, edits), y, end, front, blanks);
  }

  lemma AfterLast(full: string, l: nat, canonical: string, m: Edit, e: Edit) returns (blanks: string)
    requires TrimsTo(full, l, |canonical|) && canonical == full[l..l + |canonical|]
    requires EndsAlike(full, l, |canonical|, m, e)
    ensures Blank(blanks) && GoesOnAlike(full, canonical, m.end, [], e.end, [], "", blanks)
  {
    blanks := if Blank(full[m.end..]) then full[m.end..] else full[l + |canonical|..];
  }

  lemma BetweenEdits(full: string, l: nat, canonical: string, m: Edit, e: Edit, next: Edit, nextEdit: Edit)
    requires TrimsTo(full, l, |canonical|) && canonical == full[l..l + |canonical|]
    requires EndsAlike(full, l, |canonical|, m, e) && Alike(full, l, |canonical|, next, nextEdit)
    requires m.end <= next.start && e.end <= nextEdit.start
    ensures e.end <= |canonical| && full[m.end..next.start] == "" + canonical[e.end..nextEdit.start]
  {
    BlankSuffix(full, m.end);
    BlankSuffix(full, next.start);
    SliceOfSlice(full, l, l + |canonical|, e.end, nextEdit.start);
  }

  lemma SliceOfSlice(s: string, l: nat, r: nat, a: nat, b: nat)
    requires l <= r <= |s| && a <= b <= r - l
    ensures s[l + a..l + b] == "" + s[l..r][a..b]
  {
    var piece, same := s[l..r][a..b], s[l + a..l + b];
    assert forall i | 0 <= i < b - a :: piece[i] == s[l + a + i] && same[i] == s[l + a + i];
    assert piece == same;
  }

  lemma CroppedParts(n: nat, edits: seq<Edit>)
    requires edits != []
    ensures Cropped(n, edits)[0] == Edit(edits[0].start, Crop(n, edits[0].end), edits[0].replacement)
    ensures Cropped(n, edits)[1..] == Cropped(n, edits[1..])
  {
  }

  lemma AlikeRest(full: string, l: nat, n: nat, moved: seq<Edit>, edits: seq<Edit>)
    requires AllAlike(full, l, n, moved, edits) && edits != []
    ensures Alike(full, l, n, moved[0], edits[0]) && AllAlike(full, l, n, moved[1..], edits[1..])
    ensures |edits| > 1 ==> edits[0].end <= edits[1..][0].start
  {
    var rest := edits[1..];
    forall i | 0 <= i < |rest| - 1
      ensures rest[i].end <= rest[i + 1].start
    {
      assert rest[i] == edits[i + 1];
    }
  }

  /** Two texts whose first edits put in the same, after the same but for some
      text in front, and which go on the same but for some at the end. */
  lemma SameEdits(
    a: string, b: string, edits: seq<Edit>, others: seq<Edit>, from: nat, start: nat, front: string, back: string)
    requires edits != [] && others != [] && Placed(|a|, edits, from) && edits[0].start <= |a|
    requires start <= others[0].start <= others[0].end <= |b| && Placed(|b|, others[1..], others[0].end)
    requires a[from..edits[0].start] == front + b[start..others[0].start]
    requires edits[0].replacement == others[0].replacement
    requires Substitute(a, edits[1..], edits[0].end) == Substitute(b, others[1..], others[0].end) + back
    ensures Placed(|b|, others, start)
    ensures Substitute(a, edits, from) == front + Substitute(b, others, start) + back
  {
    GlueAround(front, b[start..others[0].start], others[0].replacement,
               Substitute(b, others[1..], others[0].end), back);
  }

  lemma GlueAround(front: string, a: string, b: string, c: string, back: string)
    ensures (front + a) + (b + (c + back)) == front + (a + (b + c)) + back
  {
  }

  /** Where all edits stay put, pruning makes of the canonical text what it is
      meant to make of the answer. */
  lemma StayingMakesTheMeant(original: string, rewrites: seq<Edit>, edits: seq<Edit>)
    requires GoodRewrites(original, rewrites) && AtStretches(original, rewrites, edits, 0)
    requires AllStayPut(original, rewrites, edits)
    ensures var canonical := Canonical(original, rewrites);
      && PlacedOrPast(|canonical|, edits)
      && Trim(Substitute(canonical, Cropped(|canonical|, edits), 0)) == Trim(Meant(original, rewrites, edits))
  {
    var full := Substitute(original, rewrites, 0);
    if edits == [] {
      TrimIsStable(full);
    } else {
      var moved := MovedEdits(rewrites, edits);
      StayingAreAlike(original, rewrites, edits);
      NothingCrossesTheStart(original, rewrites);
      MovedIsPlaced(original, rewrites, edits, 0);
      FromTheFirst(full, LeadingBlanks(full), Canonical(original, rewrites), moved, edits);
    }
  }

  lemma StayingAreAlike(original: string, rewrites: seq<Edit>, edits: seq<Edit>)
    requires GoodRewrites(original, rewrites) && AtStretches(original, rewrites, edits, 0) && edits != []
    requires AllStayPut(original, rewrites, edits)
    ensures var full, n := Substitute(original, rewrites, 0), |Canonical(original, rewrites)|;
      var l := LeadingBlanks(full);
      && TrimsTo(full, l, n) && Canonical(original, rewrites) == full[l..l + n]
      && AllAlike(full, l, n, MovedEdits(rewrites, edits), edits)
  {
    forall i | 0 <= i < |edits|
      ensures Alike(Substitute(original, rewrites, 0), LeadingBlanks(Substitute(original, rewrites, 0)),
                    |Canonical(original, rewrites)|, MovedEdits(rewrites, edits)[i], edits[i])
    {
      assert edits[i] in edits;
      StayingIsAlike(original, rewrites, edits[i]);
    }
    assert edits[0] in edits;
    StayingIsAlike(original, rewrites, edits[0]);
    forall i | 0 <= i < |edits|
      ensures edits[i].start <= edits[i].end && (i < |edits| - 1 ==> edits[i].end <= edits[i + 1].start)
    {
      PlacedPair(|original|, edits, i);
    }
  }

  lemma FromTheFirst(full: string, l: nat, canonical: string, moved: seq<Edit>, edits: seq<Edit>)
    requires l == LeadingBlanks(full) && TrimsTo(full, l, |canonical|) && canonical == full[l..l + |canonical|]
    requires AllAlike(full, l, |canonical|, moved, edits)
    requires edits != [] && Placed(|full|, moved, 0)
    ensures PlacedOrPast(|canonical|, edits)
    ensures Trim(Substitute(canonical, Cropped(|canonical|, edits), 0)) == Trim(Substitute(full, moved, 0))
  {
    var n, e := |canonical|, edits[0];
    AlikeRest(full, l, n, moved, edits);
    var back := AfterEdit(full, l, canonical, moved[0], e, moved[1..], edits[1..]);
    var front := BeforeFirst(full, l, canonical, moved[0], e);
    GoOnAlike(full, canonical, 0, moved, 0, edits, front, back);
    TrimForgetsBlanks(front, Substitute(canonical, Cropped(n, edits), 0), back);
    OnlyLastReachesPast(full, l, n, moved, edits);
  }

  lemma BeforeFirst(full: string, l: nat, canonical: string, m: Edit, e: Edit) returns (front: string)
    requires l == LeadingBlanks(full) && TrimsTo(full, l, |canonical|) && canonical == full[l..l + |canonical|]
    requires Alike(full, l, |canonical|, m, e)
    ensures Blank(front) && full[0..m.start] == front + canonical[0..e.start]
  {
    LeadingBlanksLead(full);
    front := if e.start == 0 then "" else full[..l];
  }

  lemma OnlyLastReachesPast(full: string, l: nat, n: nat, moved: seq<Edit>, edits: seq<Edit>)
    requires AllAlike(full, l, n, moved, edits)
    ensures forall i | 0 <= i < |edits| - 1 :: edits[i].end <= n
  {
    forall i | 0 <= i < |edits| - 1
      ensures edits[i].end <= n
    {
      assert Alike(full, l, n, moved[i + 1], edits[i + 1]);
    }
  }

  // ------------------------------------------------------- the edits of pruning

  /** What the parser guarantees of an answer: rewrites and block ranges do not
      cut into each other, ranges nest, and no block is blank. */
  ghost predicate AsParsed(original: string, rewrites: seq<Edit>, blocks: seq<Block>) {
    && GoodRewrites(original, rewrites) && WellNested(blocks, |original|)
    && forall b | b in blocks ::
         && OfStretch(original, rewrites, Edit(b.sourceStart, b.sourceEnd, ""))
         && Uncrossed(rewrites, b.removalStart) && Uncrossed(rewrites, b.removalEnd)
  }

  /** The edits that pruning carries out. */
  function PruningEdits(blocks: seq<Block>, claims: seq<Claim>): seq<Edit>
    requires Located(blocks, claims)
  {
    var kept := SafeEdits(Edits(blocks, claims));
    if kept.None? then [] else Ranges(kept.value)
  }

  lemma WiderIsNotBlank(original: string, rewrites: seq<Edit>, a: nat, e: Edit, b: nat)
    requires GoodRewrites(original, rewrites) && OfStretch(original, rewrites, e)
    requires a <= e.start && e.end <= b <= |original| && Uncrossed(rewrites, a) && Uncrossed(rewrites, b)
    ensures OfStretch(original, rewrites, Edit(a, b, ""))
  {
    var full := Substitute(original, rewrites, 0);
    RewrittenIsSlice(original, rewrites, a, e.start);
    RewrittenIsSlice(original, rewrites, e.start, e.end);
    RewrittenIsSlice(original, rewrites, e.end, b);
    RewrittenIsSlice(original, rewrites, a, b);
    WiderSlice(full, Place(rewrites, a), Place(rewrites, e.start), Place(rewrites, e.end), Place(rewrites, b));
  }

  lemma WiderSlice(s: string, a: nat, b: nat, c: nat, d: nat)
    requires a <= b <= c <= d <= |s| && !Blank(s[b..c])
    ensures !Blank(s[a..d])
  {
    var i :| 0 <= i < c - b && !IsSpace(s[b..c][i]);
    assert s[a..d][b + i - a] == s[b..c][i];
  }

  lemma PruningIsAtStretches(original: string, rewrites: seq<Edit>, blocks: seq<Block>, claims: seq<Claim>)
    requires AsParsed(original, rewrites, blocks) && Located(blocks, claims)
    requires !RemovesGroundedBlock(Edits(blocks, claims), blocks, claims)
    ensures SafeEdits(Edits(blocks, claims)).Some?
    ensures AtStretches(original, rewrites, PruningEdits(blocks, claims), 0)
  {
    PruningIsSafe(blocks, claims, |original|);
    var kept, ranges := SafeEdits(Edits(blocks, claims)).value, PruningEdits(blocks, claims);
    forall e | e in ranges
      ensures OfStretch(original, rewrites, e)
    {
      var i :| 0 <= i < |kept| && kept[i].edit == e;
      assert kept[i] in kept && kept[i] in Edits(blocks, claims);
      EditIsAtStretch(original, rewrites, blocks, claims, kept[i]);
    }
  }

  lemma EditIsAtStretch(
    original: string, rewrites: seq<Edit>, blocks: seq<Block>, claims: seq<Claim>, e: BlockEdit)
    requires AsParsed(original, rewrites, blocks) && Located(blocks, claims) && e in Edits(blocks, claims)
    ensures OfStretch(original, rewrites, e.edit)
  {
    OrderIsLocated(blocks, claims);
    EditsAreOwn(blocks, claims, BlockOrder(claims));
    OwnEditShape(blocks, claims, e);
    var b := blocks[e.blockIndex];
    assert b in blocks;
    WiderIsNotBlank(original, rewrites, b.removalStart, Edit(b.sourceStart, b.sourceEnd, ""), b.removalEnd);
  }

  /** Every edit of pruning takes out exactly the text it was made for if and
      only if the rewrites leave all their ranges where they were. */
  lemma PruningTakesItsTextExactlyWhen(
    original: string, rewrites: seq<Edit>, blocks: seq<Block>, claims: seq<Claim>)
    requires AsParsed(original, rewrites, blocks) && Located(blocks, claims)
    requires !RemovesGroundedBlock(Edits(blocks, claims), blocks, claims)
    ensures (forall e | e in PruningEdits(blocks, claims) :: TakesItsText(original, rewrites, e))
       <==> AllStayPut(original, rewrites, PruningEdits(blocks, claims))
  {
    PruningIsAtStretches(original, rewrites, blocks, claims);
    forall e | e in PruningEdits(blocks, claims)
      ensures TakesItsText(original, rewrites, e) <==> StaysPut(original, rewrites, e)
    {
      TakesItsTextExactlyWhen(original, rewrites, e);
    }
  }

  /** What is meant to be left of an answer. */
  ghost function MeantAnswer(
    original: string, rewrites: seq<Edit>, blocks: seq<Block>, claims: seq<Claim>): string
    requires AsParsed(original, rewrites, blocks) && Located(blocks, claims)
    requires !RemovesGroundedBlock(Edits(blocks, claims), blocks, claims)
  {
    PruningIsAtStretches(original, rewrites, blocks, claims);
    Meant(original, rewrites, PruningEdits(blocks, claims))
  }

  /** From the answer as written to the pruned one. */
  method PruneGeneratedAnswer(
    markdown: string, replacements: seq<Edit>, blocks: seq<Block>, claims: seq<Claim>)
    returns (pruned: Option<string>)
    requires Located(blocks, claims)
    ensures Edits(blocks, claims) == [] || RemovesGroundedBlock(Edits(blocks, claims), blocks, claims) ==> pruned == None
    ensures var rewrites := LeftToRight(replacements);
      && AsParsed(markdown, rewrites, blocks) && DisjointRanges(|markdown|, replacements)
      && Edits(blocks, claims) != [] && !RemovesGroundedBlock(Edits(blocks, claims), blocks, claims)
      && AllStayPut(markdown, rewrites, PruningEdits(blocks, claims)) ==>
        var body := Trim(MeantAnswer(markdown, rewrites, blocks, claims));
        pruned == if body == "" then None else Some(WithHeading(body))
  {
    var canonical := CanonicalizeCitations(markdown, replacements);
    pruned := PruneUncited(canonical, blocks, claims);
    ghost var rewrites := LeftToRight(replacements);
    if AsParsed(markdown, rewrites, blocks) && DisjointRanges(|markdown|, replacements)
       && !RemovesGroundedBlock(Edits(blocks, claims), blocks, claims)
       && AllStayPut(markdown, rewrites, PruningEdits(blocks, claims)) {
      PruningIsAtStretches(markdown, rewrites, blocks, claims);
      StayingMakesTheMeant(markdown, rewrites, PruningEdits(blocks, claims));
    }
  }

  // ------------------------------------------------ what becomes of each block

  /** The text a block should leave behind: all of it, its citations rewritten,
      or only its cited claims. */
  ghost function LeftOfBlock(
    original: string, rewrites: seq<Edit>, blocks: seq<Block>, claims: seq<Claim>, index: nat): string
    requires AsParsed(original, rewrites, blocks) && index < |blocks|
  {
    var b := blocks[index];
    assert b in blocks;
    if AllCited(claims, index) then Rewritten(original, rewrites, b.sourceStart, b.sourceEnd) else CitedText(claims, index)
  }

  /** A piece stands somewhere in a text. */
  ghost predicate StandsIn(piece: string, text: string) {
    exists left, right :: text == left + (piece + right)
  }

  /** No grounded block is lost or mangled: what every block with a cited claim,
      unless it is a table row, should leave behind stands in the pruned answer
      in one piece. */
  lemma GroundedBlockStands(
    original: string, rewrites: seq<Edit>, blocks: seq<Block>, claims: seq<Claim>, index: nat)
    requires AsParsed(original, rewrites, blocks) && Located(blocks, claims)
    requires !RemovesGroundedBlock(Edits(blocks, claims), blocks, claims)
    requires index < |blocks| && blocks[index].kind != TableRow && HasCitedClaim(claims, index)
    ensures StandsIn(Trim(LeftOfBlock(original, rewrites, blocks, claims, index)),
                     WithHeading(Trim(MeantAnswer(original, rewrites, blocks, claims))))
  {
    var full, moved := Substitute(original, rewrites, 0), MovedEdits(rewrites, PruningEdits(blocks, claims));
    var b, piece := blocks[index], LeftOfBlock(original, rewrites, blocks, claims, index);
    PruningIsAtStretches(original, rewrites, blocks, claims);
    NothingCrossesTheStart(original, rewrites);
    MovedIsPlaced(original, rewrites, PruningEdits(blocks, claims), 0);
    if AllCited(claims, index) {
      UntouchedBlockShows(original, rewrites, blocks, claims, index);
    } else {
      RewrittenBlockShows(original, rewrites, blocks, claims, index);
    }
    ShownPieceStands(full, moved, Place(rewrites, b.sourceStart), Place(rewrites, b.sourceEnd), piece);
  }

  lemma UntouchedBlockShows(
    original: string, rewrites: seq<Edit>, blocks: seq<Block>, claims: seq<Claim>, index: nat)
    requires AsParsed(original, rewrites, blocks) && Located(blocks, claims)
    requires !RemovesGroundedBlock(Edits(blocks, claims), blocks, claims)
    requires index < |blocks| && HasCitedClaim(claims, index) && AllCited(claims, index)
    requires AtStretches(original, rewrites, PruningEdits(blocks, claims), 0)
    requires Placed(|Substitute(original, rewrites, 0)|, MovedEdits(rewrites, PruningEdits(blocks, claims)), 0)
    ensures Shows(Substitute(original, rewrites, 0), MovedEdits(rewrites, PruningEdits(blocks, claims)),
                  Place(rewrites, blocks[index].sourceStart), Place(rewrites, blocks[index].sourceEnd),
                  LeftOfBlock(original, rewrites, blocks, claims, index))
  {
    var b, moved := blocks[index], MovedEdits(rewrites, PruningEdits(blocks, claims));
    assert b in blocks;
    RewrittenIsSlice(original, rewrites, b.sourceStart, b.sourceEnd);
    forall m | m in moved
      ensures Clear(m.start, m.end, Place(rewrites, b.sourceStart), Place(rewrites, b.sourceEnd))
    {
      MovedEditClears(original, rewrites, blocks, claims, index, m);
    }
    ClearStretchShows(Substitute(original, rewrites, 0), moved,
                      Place(rewrites, b.sourceStart), Place(rewrites, b.sourceEnd));
  }

  lemma MovedEditClears(
    original: string, rewrites: seq<Edit>, blocks: seq<Block>, claims: seq<Claim>, index: nat, m: Edit)
    requires AsParsed(original, rewrites, blocks) && Located(blocks, claims)
    requires !RemovesGroundedBlock(Edits(blocks, claims), blocks, claims)
    requires index < |blocks| && HasCitedClaim(claims, index) && AllCited(claims, index)
    requires AtStretches(original, rewrites, PruningEdits(blocks, claims), 0)
    requires m in MovedEdits(rewrites, PruningEdits(blocks, claims))
    ensures Clear(m.start, m.end,
                  Place(rewrites, blocks[index].sourceStart), Place(rewrites, blocks[index].sourceEnd))
  {
    var b, ranges := blocks[index], PruningEdits(blocks, claims);
    assert b in blocks;
    var i :| 0 <= i < |ranges| && MovedEdits(rewrites, ranges)[i] == m;
    assert ranges[i] in ranges;
    RangeClears(blocks, claims, |original|, index, i);
    MovingKeepsClear(original, rewrites, ranges[i], b.sourceStart, b.sourceEnd);
  }

  lemma RangeClears(blocks: seq<Block>, claims: seq<Claim>, n: nat, index: nat, i: nat)
    requires Located(blocks, claims) && WellNested(blocks, n)
    requires !RemovesGroundedBlock(Edits(blocks, claims), blocks, claims)
    requires index < |blocks| && HasCitedClaim(claims, index) && AllCited(claims, index)
    requires i < |PruningEdits(blocks, claims)|
    ensures var e := PruningEdits(blocks, claims)[i];
      Clear(e.start, e.end, blocks[index].sourceStart, blocks[index].sourceEnd)
  {
    PruningIsSafe(blocks, claims, n);
    var kept := SafeEdits(Edits(blocks, claims)).value;
    assert kept[i] in kept;
    KeptEditClears(blocks, claims, n, index, kept[i]);
  }

  lemma MovingKeepsClear(original: string, rewrites: seq<Edit>, e: Edit, a: nat, b: nat)
    requires Stretch(original, rewrites, e.start, e.end) && Stretch(original, rewrites, a, b)
    requires Clear(e.start, e.end, a, b)
    ensures Clear(Place(rewrites, e.start), Place(rewrites, e.end), Place(rewrites, a), Place(rewrites, b))
  {
    if e.end <= a {
      PlacesGrow(original, rewrites, e.end, a);
    } else {
      PlacesGrow(original, rewrites, b, e.start);
    }
  }

  /** What no edit touches shows as it is. */
  lemma ClearStretchShows(text: string, edits: seq<Edit>, a: nat, b: nat)
    requires Placed(|text|, edits, 0) && a < b <= |text|
    requires forall e | e in edits :: Clear(e.start, e.end, a, b)
    ensures Shows(text, edits, a, b, text[a..b])
  {
    var j := LeftOf(edits, a);
    UncrossedIsCut(|text|, edits, 0, a);
    assert forall e | e in edits[j..] :: e in edits;
    CutShows(text, edits, j, a, j, b);
    assert edits[j..j] == [];
    assert text[..b][a..] == text[a..b];
  }

  lemma RewrittenBlockShows(
    original: string, rewrites: seq<Edit>, blocks: seq<Block>, claims: seq<Claim>, index: nat)
    requires AsParsed(original, rewrites, blocks) && Located(blocks, claims)
    requires !RemovesGroundedBlock(Edits(blocks, claims), blocks, claims)
    requires index < |blocks| && blocks[index].kind != TableRow
    requires HasCitedClaim(claims, index) && !AllCited(claims, index)
    requires AtStretches(original, rewrites, PruningEdits(blocks, claims), 0)
    requires Placed(|Substitute(original, rewrites, 0)|, MovedEdits(rewrites, PruningEdits(blocks, claims)), 0)
    ensures Shows(Substitute(original, rewrites, 0), MovedEdits(rewrites, PruningEdits(blocks, claims)),
                  Place(rewrites, blocks[index].sourceStart), Place(rewrites, blocks[index].sourceEnd),
                  CitedText(claims, index))
  {
    var m := RewriteOfBlock(blocks, claims, |original|, index);
    EditShows(Substitute(original, rewrites, 0), MovedEdits(rewrites, PruningEdits(blocks, claims)), m);
  }

  lemma RewriteOfBlock(blocks: seq<Block>, claims: seq<Claim>, n: nat, index: nat) returns (m: nat)
    requires Located(blocks, claims) && WellNested(blocks, n)
    requires !RemovesGroundedBlock(Edits(blocks, claims), blocks, claims)
    requires index < |blocks| && blocks[index].kind != TableRow
    requires HasCitedClaim(claims, index) && !AllCited(claims, index)
    ensures m < |PruningEdits(blocks, claims)|
    ensures PruningEdits(blocks, claims)[m]
         == Edit(blocks[index].sourceStart, blocks[index].sourceEnd, CitedText(claims, index))
  {
    PruningIsSafe(blocks, claims, n);
    BlockIsRewritten(blocks, claims, index);
    var e := BlockEdit(index, Edit(blocks[index].sourceStart, blocks[index].sourceEnd, CitedText(claims, index)));
    var kept := SafeEdits(Edits(blocks, claims)).value;
    m :| 0 <= m < |kept| && kept[m] == e;
  }

  /** A piece of a text is still there, but for its own blanks, once the text is
      trimmed and has its heading. */
  lemma ShownPieceStands(text: string, edits: seq<Edit>, a: nat, b: nat, piece: string)
    requires Placed(|text|, edits, 0) && Shows(text, edits, a, b, piece)
    ensures StandsIn(Trim(piece), WithHeading(Trim(Substitute(text, edits, 0))))
  {
    var j: nat, k: nat :| ShowsAt(text, edits, j, a, k, b, piece);
    var left, right := TrimmedPiece(Substitute(text[..a], edits[..j], 0), piece, Substitute(text, edits[k..], b));
    var body := Trim(Substitute(text, edits, 0));
    var heading := if WithHeading(body) == body then "" else PARTIAL_ANSWER_HEADING + "\n\n";
    Glue(heading, left, Trim(piece) + right);
    assert WithHeading(body) == (heading + left) + (Trim(piece) + right);
  }

  lemma TrimmedPiece(before: string, piece: string, after: string) returns (left: string, right: string)
    ensures Trim(before + (piece + after)) == left + (Trim(piece) + right)
  {
    if Trim(piece) == "" {
      left, right := Trim(before + (piece + after)), "";
    } else {
      var x, y := TrimMeans(piece);
      var core := Trim(piece);
      left, right := TrimStart(before + x), TrimEnd(y + after);
      assert before + (piece + after) == (before + x) + (core + (y + after));
      StartStops(before + x, core + (y + after));
      EndStops(left + core, y + after);
      Glue(left, core, y + after);
      Glue(left, core, right);
    }
  }

  /** A block with cited and uncited claims leaves its cited claims and nothing
      else: in the meant answer its stretch is their pieces, each the text of a
      claim, a space and its markers, in order, with one space between them. */
  lemma RewrittenBlockLeavesItsCitedClaims(
    original: string, rewrites: seq<Edit>, blocks: seq<Block>, claims: seq<Claim>, index: nat)
    returns (at: seq<nat>, text: string)
    requires AsParsed(original, rewrites, blocks) && Located(blocks, claims)
    requires !RemovesGroundedBlock(Edits(blocks, claims), blocks, claims)
    requires index < |blocks| && blocks[index].kind != TableRow
    requires HasCitedClaim(claims, index) && !AllCited(claims, index)
    ensures CitedIndexes(claims, index, at) && JoinedBy(text, ClaimPieces(claims, at), " ")
    ensures Placed(|Substitute(original, rewrites, 0)|, MovedEdits(rewrites, PruningEdits(blocks, claims)), 0)
    ensures Shows(Substitute(original, rewrites, 0), MovedEdits(rewrites, PruningEdits(blocks, claims)),
                  Place(rewrites, blocks[index].sourceStart), Place(rewrites, blocks[index].sourceEnd), text)
    ensures StandsIn(text, MeantAnswer(original, rewrites, blocks, claims))
    ensures StandsIn(Trim(text), WithHeading(Trim(MeantAnswer(original, rewrites, blocks, claims))))
  {
    var full, moved := Substitute(original, rewrites, 0), MovedEdits(rewrites, PruningEdits(blocks, claims));
    var a, b := Place(rewrites, blocks[index].sourceStart), Place(rewrites, blocks[index].sourceEnd);
    PruningIsAtStretches(original, rewrites, blocks, claims);
    NothingCrossesTheStart(original, rewrites);
    MovedIsPlaced(original, rewrites, PruningEdits(blocks, claims), 0);
    at := CitedTextIsMadeOf(claims, index);
    text := CitedText(claims, index);
    RewrittenBlockShows(original, rewrites, blocks, claims, index);
    ShownPieceStands(full, moved, a, b, text);
    var j: nat, k: nat :| ShowsAt(full, moved, j, a, k, b, text);
  }

  /** No cited claim of a rewritten block is lost: its text, a space and its
      markers stand in the meant answer. */
  lemma CitedClaimStands(
    original: string, rewrites: seq<Edit>, blocks: seq<Block>, claims: seq<Claim>, i: nat)
    requires AsParsed(original, rewrites, blocks) && Located(blocks, claims)
    requires !RemovesGroundedBlock(Edits(blocks, claims), blocks, claims)
    requires i < |claims| && claims[i].citationNumbers != []
    requires blocks[claims[i].blockIndex].kind != TableRow && !AllCited(claims, claims[i].blockIndex)
    ensures StandsIn(claims[i].text + " " + Markers(claims[i].citationNumbers),
                     MeantAnswer(original, rewrites, blocks, claims))
  {
    var index := claims[i].blockIndex;
    assert claims[i] in claims && HasCitedClaim(claims, index);
    var at, text := RewrittenBlockLeavesItsCitedClaims(original, rewrites, blocks, claims, index);
    assert i in at;
    var k :| 0 <= k < |at| && at[k] == i;
    PieceStands(text, ClaimPieces(claims, at), k);
    StandsFurther(ClaimPieces(claims, at)[k], text, MeantAnswer(original, rewrites, blocks, claims));
  }

  lemma {:induction false} PieceStands(text: string, pieces: seq<string>, k: nat)
    requires JoinedBy(text, pieces, " ") && k < |pieces|
    ensures StandsIn(pieces[k], text)
    decreases |pieces|
  {
    var n := |pieces[0]| + 1;
    if |pieces| == 1 {
      assert text == [] + (pieces[0] + []);
    } else if k == 0 {
      assert text == [] + (pieces[0] + (" " + text[n..]));
    } else {
      PieceStands(text[n..], pieces[1..], k - 1);
      assert text == text[..n] + (text[n..] + []);
      StandsFurther(pieces[k], text[n..], text);
    }
  }

  lemma StandsFurther(piece: string, text: string, whole: string)
    requires StandsIn(piece, text) && StandsIn(text, whole)
    ensures StandsIn(piece, whole)
  {
    var a, d :| text == a + (piece + d);
    var x, y :| whole == x + (text + y);
    assert whole == (x + a) + (piece + (d + y));
  }

  /** No uncited text is left: a block with claims of which none is cited, or a
      table row with an uncited one, lies in a range of which the pruned answer
      has nothing; it is made of what stands left and right of that range. */
  lemma UncitedBlockIsCut(
    original: string, rewrites: seq<Edit>, blocks: seq<Block>, claims: seq<Claim>, index: nat)
    requires AsParsed(original, rewrites, blocks) && Located(blocks, claims)
    requires !RemovesGroundedBlock(Edits(blocks, claims), blocks, claims)
    requires index < |blocks| && !AllCited(claims, index)
    requires blocks[index].kind == TableRow || !HasCitedClaim(claims, index)
    ensures exists m ::
              && 0 <= m < |PruningEdits(blocks, claims)|
              && PruningEdits(blocks, claims)[m].start <= blocks[index].removalStart
              && blocks[index].removalEnd <= PruningEdits(blocks, claims)[m].end
              && MadeWithout(original, rewrites, PruningEdits(blocks, claims), m,
                             MeantAnswer(original, rewrites, blocks, claims))
  {
    PruningIsAtStretches(original, rewrites, blocks, claims);
    var m := RemovalOf(blocks, claims, |original|, index);
    RemovalLeavesNothing(original, rewrites, PruningEdits(blocks, claims), m);
  }

  /** The edit that removes a block, or the larger one that it lies in. */
  lemma RemovalOf(blocks: seq<Block>, claims: seq<Claim>, n: nat, index: nat) returns (m: nat)
    requires Located(blocks, claims) && WellNested(blocks, n)
    requires !RemovesGroundedBlock(Edits(blocks, claims), blocks, claims)
    requires index < |blocks| && !AllCited(claims, index)
    requires blocks[index].kind == TableRow || !HasCitedClaim(claims, index)
    ensures m < |PruningEdits(blocks, claims)|
    ensures var e := PruningEdits(blocks, claims)[m];
      e.start <= blocks[index].removalStart && blocks[index].removalEnd <= e.end && e.replacement == ""
  {
    PruningIsSafe(blocks, claims, n);
    BlockIsRemoved(blocks, claims, index);
    var e := BlockEdit(index, Edit(blocks[index].removalStart, blocks[index].removalEnd, ""));
    m := CoverOf(SafeEdits(Edits(blocks, claims)).value, e);
  }

  lemma CoverOf(kept: seq<BlockEdit>, e: BlockEdit) returns (m: nat)
    requires Accounted(kept, e) && e.edit.replacement == ""
    ensures m < |kept| && CoveredRemoval(e, kept[m])
  {
    var k :| k in kept && (k.edit == e.edit || CoveredRemoval(e, k));
    m :| 0 <= m < |kept| && kept[m] == k;
  }

  /** A text made of what two edited sides of an edit come to. */
  ghost predicate MadeWithout(original: string, rewrites: seq<Edit>, edits: seq<Edit>, m: nat, made: string)
    requires Placed(|original|, rewrites, 0) && m < |edits|
  {
    var full, moved := Substitute(original, rewrites, 0), MovedEdits(rewrites, edits);
    var cut := moved[m];
    && cut.start <= cut.end <= |full| && Placed(cut.start, moved[..m], 0) && Placed(|full|, moved[m + 1..], cut.end)
    && made == Substitute(full[..cut.start], moved[..m], 0) + Substitute(full, moved[m + 1..], cut.end)
  }

  lemma RemovalLeavesNothing(original: string, rewrites: seq<Edit>, edits: seq<Edit>, m: nat)
    requires GoodRewrites(original, rewrites) && AtStretches(original, rewrites, edits, 0)
    requires m < |edits| && edits[m].replacement == ""
    ensures MadeWithout(original, rewrites, edits, m, Meant(original, rewrites, edits))
  {
    var full, moved := Substitute(original, rewrites, 0), MovedEdits(rewrites, edits);
    NothingCrossesTheStart(original, rewrites);
    MovedIsPlaced(original, rewrites, edits, 0);
    var cut := moved[m];
    EditIsCut(|full|, moved, m);
    CutShows(full, moved, m, cut.start, m + 1, cut.end);
    assert moved[m..m + 1] == [cut];
    OneEdit(full[..cut.end], cut);
  }
}
