/** Pruning an answer down to what it cites: uncited claims are cut out of the
    Markdown by range edits.  The block tree and the claims located in it come
    from the parser. */
module Coverage {
  import opened Prelude
  import opened Sorting
  import opened Splice
  import opened Markup

  const PARTIAL_ANSWER_HEADING := "## Partial answer from cited information"

  datatype BlockKind = Paragraph | ListItem | TableRow | OtherBlock

  datatype Block = Block(
    kind: BlockKind, sourceStart: nat, sourceEnd: nat, removalStart: nat, removalEnd: nat)

  datatype Claim = Claim(blockIndex: nat, text: string, citationNumbers: seq<nat>)

  datatype BlockEdit = BlockEdit(blockIndex: nat, edit: Edit)

  // -------------------------------------------------------------- the edits

  predicate IsCited(c: Claim) { c.citationNumbers != [] }

  function ClaimsOf(claims: seq<Claim>, block: nat): seq<Claim> {
    if claims == [] then []
    else
      var before := ClaimsOf(claims[..|claims| - 1], block);
      var last := claims[|claims| - 1];
      if last.blockIndex == block then before + [last] else before
  }

  function CitedOnly(claims: seq<Claim>): seq<Claim> {
    if claims == [] then []
    else
      var before := CitedOnly(claims[..|claims| - 1]);
      var last := claims[|claims| - 1];
      if IsCited(last) then before + [last] else before
  }

  function RenderClaim(c: Claim): string { c.text + " " + Markers(c.citationNumbers) }

  function RenderCitedClaims(claims: seq<Claim>): string {
    if claims == [] then ""
    else if |claims| == 1 then RenderClaim(claims[0])
    else RenderClaim(claims[0]) + " " + RenderCitedClaims(claims[1..])
  }

  /** The markers of some numbers, one each. */
  function MarkerPieces(numbers: seq<nat>): seq<string> {
    seq(|numbers|, i requires 0 <= i < |numbers| => "[" + Decimal(numbers[i]) + "]")
  }

  lemma {:induction false} MarkersAreJoined(numbers: seq<nat>)
    ensures JoinedBy(Markers(numbers), MarkerPieces(numbers), " ")
  {
    if |numbers| > 1 {
      MarkersAreJoined(numbers[1..]);
      JoinOneMore(Marker(numbers[0]), " ", Markers(numbers[1..]), MarkerPieces(numbers[1..]));
      assert MarkerPieces(numbers) == [Marker(numbers[0])] + MarkerPieces(numbers[1..]);
    }
  }

  /** The indexes of the cited claims of a block, in order. */
  ghost predicate CitedIndexes(claims: seq<Claim>, block: nat, at: seq<nat>) {
    && (forall k | 0 <= k < |at| :: at[k] < |claims|)
    && (forall i, j | 0 <= i < j < |at| :: at[i] < at[j])
    && (forall i: nat | i < |claims| ::
          i in at <==> claims[i].blockIndex == block && claims[i].citationNumbers != [])
  }

  /** The text and the markers of each of these claims. */
  function ClaimPieces(claims: seq<Claim>, at: seq<nat>): seq<string>
    requires forall k | 0 <= k < |at| :: at[k] < |claims|
  {
    seq(|at|, k requires 0 <= k < |at| => claims[at[k]].text + " " + Markers(claims[at[k]].citationNumbers))
  }

  /** What becomes of one block: nothing, removal, or only its cited claims. */
  function EditOf(block: Block, index: nat, claims: seq<Claim>): Option<BlockEdit> {
    var cited := CitedOnly(claims);
    if |cited| == |claims| then None
    else if block.kind == TableRow || cited == [] then
      Some(BlockEdit(index, Edit(block.removalStart, block.removalEnd, "")))
    else
      Some(BlockEdit(index, Edit(block.sourceStart, block.sourceEnd, RenderCitedClaims(cited))))
  }

  /** The blocks that have claims, in order of their first. */
  function BlockOrder(claims: seq<Claim>): seq<nat> {
    Unique(BlockIndexes(claims))
  }

  function BlockIndexes(claims: seq<Claim>): seq<nat> {
    seq(|claims|, i requires 0 <= i < |claims| => claims[i].blockIndex)
  }

  predicate Located(blocks: seq<Block>, claims: seq<Claim>) {
    forall c | c in claims :: c.blockIndex < |blocks|
  }

  predicate AllBelow(order: seq<nat>, n: nat) {
    forall i | 0 <= i < |order| :: order[i] < n
  }

  function EditsFor(blocks: seq<Block>, claims: seq<Claim>, order: seq<nat>): seq<BlockEdit>
    requires AllBelow(order, |blocks|)
  {
    if order == [] then []
    else
      var last := order[|order| - 1];
      var edit := EditOf(blocks[last], last, ClaimsOf(claims, last));
      EditsFor(blocks, claims, order[..|order| - 1]) + (if edit.Some? then [edit.value] else [])
  }

  predicate Swallows(e: BlockEdit, blocks: seq<Block>, c: Claim)
    requires c.blockIndex < |blocks|
  {
    && e.edit.replacement == "" && c.blockIndex != e.blockIndex && IsCited(c)
    && blocks[c.blockIndex].sourceStart >= e.edit.start
    && blocks[c.blockIndex].sourceEnd <= e.edit.end
  }

  // ------------------------------------------------------------ normalizing

  predicate EditLeq(a: BlockEdit, b: BlockEdit) {
    a.edit.start < b.edit.start || (a.edit.start == b.edit.start && a.edit.end >= b.edit.end)
  }

  lemma EditOrder()
    ensures TotalOrder(EditLeq)
  {
  }

  predicate CoveredRemoval(e: BlockEdit, cover: BlockEdit) {
    cover.edit.replacement == "" && cover.edit.start <= e.edit.start && e.edit.end <= cover.edit.end
  }

  /** Goes through sorted edits, keeping those that do not run into the last
      one kept; None if one does and is neither its copy nor covered by it. */
  function Normalize(kept: seq<BlockEdit>, rest: seq<BlockEdit>): Option<seq<BlockEdit>>
    decreases |rest|
  {
    if rest == [] then Some(kept)
    else if kept == [] || rest[0].edit.start >= kept[|kept| - 1].edit.end then
      Normalize(kept + [rest[0]], rest[1..])
    else if rest[0].edit == kept[|kept| - 1].edit then Normalize(kept, rest[1..])
    else if kept[|kept| - 1].edit.replacement == "" && rest[0].edit.end <= kept[|kept| - 1].edit.end then
      Normalize(kept, rest[1..])
    else None
  }

  function SafeEdits(edits: seq<BlockEdit>): Option<seq<BlockEdit>> {
    Normalize([], Sort(EditLeq, edits))
  }

  function Ranges(edits: seq<BlockEdit>): seq<Edit> {
    seq(|edits|, i requires 0 <= i < |edits| => edits[i].edit)
  }

  // -------------------------------------------------------------- the result

  /** Everything pruning decides, as one expression. */
  function Edits(blocks: seq<Block>, claims: seq<Claim>): seq<BlockEdit>
    requires Located(blocks, claims)
  {
    OrderIsLocated(blocks, claims);
    EditsFor(blocks, claims, BlockOrder(claims))
  }

  predicate RemovesGroundedBlock(edits: seq<BlockEdit>, blocks: seq<Block>, claims: seq<Claim>)
    requires Located(blocks, claims)
  {
    exists e, c | e in edits && c in claims :: Swallows(e, blocks, c)
  }

  lemma OrderIsLocated(blocks: seq<Block>, claims: seq<Claim>)
    requires Located(blocks, claims)
    ensures AllBelow(BlockOrder(claims), |blocks|)
    ensures forall b :: b in BlockOrder(claims) <==> exists c | c in claims :: c.blockIndex == b
    ensures forall i, j | 0 <= i < j < |BlockOrder(claims)| :: BlockOrder(claims)[i] != BlockOrder(claims)[j]
  {
    UniqueFacts(BlockIndexes(claims));
    forall b
      ensures b in BlockIndexes(claims) <==> exists c | c in claims :: c.blockIndex == b
    {
      if b in BlockIndexes(claims) {
        var i :| 0 <= i < |claims| && BlockIndexes(claims)[i] == b;
        assert claims[i] in claims;
      }
      if c :| c in claims && c.blockIndex == b {
        var i :| 0 <= i < |claims| && claims[i] == c;
        assert BlockIndexes(claims)[i] == b;
      }
    }
    assert forall i | 0 <= i < |BlockOrder(claims)| :: BlockOrder(claims)[i] in BlockOrder(claims);
  }

  /** The body under its heading, unless it begins with it. */
  function WithHeading(body: string): (headed: string)
    ensures headed == PARTIAL_ANSWER_HEADING || PARTIAL_ANSWER_HEADING + "\n" <= headed
    ensures |body| <= |headed| && headed[|headed| - |body|..] == body
    ensures PARTIAL_ANSWER_HEADING + "\n" <= body || body == PARTIAL_ANSWER_HEADING <==> headed == body
  {
    if body == PARTIAL_ANSWER_HEADING || PARTIAL_ANSWER_HEADING + "\n" <= body then body
    else PARTIAL_ANSWER_HEADING + "\n\n" + body
  }

  // ------------------------------------------------------------- the methods

  method GroupClaims(claims: seq<Claim>) returns (order: seq<nat>, groups: map<nat, seq<Claim>>)
    ensures order == BlockOrder(claims)
    ensures forall b :: b in groups <==> b in order
    ensures forall b | b in groups :: groups[b] == ClaimsOf(claims, b)
  {
    order, groups := [], map[];
    for i := 0 to |claims|
      invariant order == BlockOrder(claims[..i])
      invariant forall b :: b in groups <==> b in BlockIndexes(claims[..i])
      invariant forall b :: ClaimsOf(claims[..i], b) == if b in groups then groups[b] else []
    {
      var c := claims[i];
      assert claims[..i + 1][..i] == claims[..i];
      assert BlockIndexes(claims[..i + 1]) == BlockIndexes(claims[..i]) + [c.blockIndex];
      assert BlockIndexes(claims[..i + 1])[..i] == BlockIndexes(claims[..i]);
      if c.blockIndex in groups {
        groups := groups[c.blockIndex := groups[c.blockIndex] + [c]];
      } else {
        order := order + [c.blockIndex];
        groups := groups[c.blockIndex := [c]];
      }
    }
    assert claims[..|claims|] == claims;
    UniqueFacts(BlockIndexes(claims));
  }

  method CollectEdits(blocks: seq<Block>, claims: seq<Claim>) returns (edits: seq<BlockEdit>)
    requires Located(blocks, claims)
    ensures edits == Edits(blocks, claims)
  {
    var order, groups := GroupClaims(claims);
    OrderIsLocated(blocks, claims);
    edits := [];
    for i := 0 to |order|
      invariant edits == EditsFor(blocks, claims, order[..i])
    {
      assert order[..i + 1][..i] == order[..i];
      assert order[i] in order;
      var edit := EditBlock(blocks[order[i]], order[i], groups[order[i]]);
      if edit.Some? {
        edits := edits + [edit.value];
      }
    }
    assert order[..|order|] == order;
  }

  method EditBlock(block: Block, index: nat, claims: seq<Claim>) returns (edit: Option<BlockEdit>)
    ensures edit == EditOf(block, index, claims)
  {
    var cited, hasUncited := SplitCited(claims);
    if !hasUncited {
      return None;
    }
    if block.kind == TableRow || cited == [] {
      return Some(BlockEdit(index, Edit(block.removalStart, block.removalEnd, "")));
    }
    edit := Some(BlockEdit(index, Edit(block.sourceStart, block.sourceEnd, RenderCitedClaims(cited))));
  }

  method SplitCited(claims: seq<Claim>) returns (cited: seq<Claim>, hasUncited: bool)
    ensures cited == CitedOnly(claims) && hasUncited == (|cited| != |claims|)
  {
    cited, hasUncited := [], false;
    for j := 0 to |claims|
      invariant cited == CitedOnly(claims[..j])
      invariant |cited| <= j && (hasUncited <==> |cited| < j)
    {
      assert claims[..j + 1][..j] == claims[..j];
      if !IsCited(claims[j]) {
        hasUncited := true;
      } else {
        cited := cited + [claims[j]];
      }
    }
    assert claims[..|claims|] == claims;
  }

  method NormalizeEdits(edits: seq<BlockEdit>) returns (safe: Option<seq<BlockEdit>>)
    ensures safe == SafeEdits(edits)
  {
    var sorted := Sort(EditLeq, edits);
    var normalized: seq<BlockEdit> := [];
    assert sorted[0..] == sorted;
    for i := 0 to |sorted|
      invariant Normalize(normalized, sorted[i..]) == Normalize([], sorted)
    {
      var e := sorted[i];
      assert sorted[i..][1..] == sorted[i + 1..];
      if normalized == [] || e.edit.start >= normalized[|normalized| - 1].edit.end {
        normalized := normalized + [e];
        continue;
      }
      var previous := normalized[|normalized| - 1];
      if e.edit == previous.edit {
        continue;
      }
      if previous.edit.replacement == "" && e.edit.end <= previous.edit.end {
        continue;
      }
      return None;
    }
    assert sorted[|sorted|..] == [];
    safe := Some(normalized);
  }

  /** The pruned answer, or None where the answer is left alone.  The text is
      the canonical Markdown of the parse. */
  method PruneUncited(text: string, blocks: seq<Block>, claims: seq<Claim>) returns (pruned: Option<string>)
    requires Located(blocks, claims)
    ensures pruned.Some? ==>
              && !RemovesGroundedBlock(Edits(blocks, claims), blocks, claims)
              && SafeEdits(Edits(blocks, claims)).Some?
    ensures var edits := Edits(blocks, claims);
      SafeEdits(edits).Some? && PlacedOrPast(|text|, Ranges(SafeEdits(edits).value)) ==>
        var body := Trim(Substitute(text, Cropped(|text|, Ranges(SafeEdits(edits).value)), 0));
        pruned == if edits == [] || RemovesGroundedBlock(edits, blocks, claims) || body == "" then None
                  else Some(WithHeading(body))
  {
    var edits := CollectEdits(blocks, claims);
    if edits == [] || (exists e, c | e in edits && c in claims :: Swallows(e, blocks, c)) {
      return None;
    }
    var safe := NormalizeEdits(edits);
    if safe.None? {
      return None;
    }
    var edited := ApplyFromRight(text, Ranges(safe.value));
    var body := Trim(edited);
    if body == "" {
      return None;
    }
    pruned := Some(WithHeading(body));
  }

  // ------------------------------------------------- what normalizing keeps

  /** Each range ends before the next begins. */
  ghost predicate InOrder(edits: seq<BlockEdit>) {
    && (forall i | 0 <= i < |edits| :: edits[i].edit.start <= edits[i].edit.end)
    && (forall i, j | 0 <= i < j < |edits| :: edits[i].edit.end <= edits[j].edit.start)
  }

  /** An edit is kept, or it is a copy of a kept one, or lies in a kept removal. */
  ghost predicate Accounted(kept: seq<BlockEdit>, e: BlockEdit) {
    exists k | k in kept :: k.edit == e.edit || CoveredRemoval(e, k)
  }

  ghost predicate SortedAfter(kept: seq<BlockEdit>, rest: seq<BlockEdit>) {
    && SortedBy(EditLeq, rest)
    && (forall k, e | k in kept && e in rest :: EditLeq(k, e))
    && (forall e | e in rest :: e.edit.start <= e.edit.end)
  }

  /** What normalizing makes of the rest, given what it has kept. */
  ghost predicate Accounts(kept: seq<BlockEdit>, rest: seq<BlockEdit>, out: seq<BlockEdit>) {
    && kept <= out && InOrder(out)
    && (forall e | e in out :: e in kept || e in rest)
    && (forall e | e in rest :: Accounted(out, e))
  }

  lemma {:induction false} NormalizeAccounts(kept: seq<BlockEdit>, rest: seq<BlockEdit>)
    requires InOrder(kept) && SortedAfter(kept, rest)
    requires Normalize(kept, rest).Some?
    ensures Accounts(kept, rest, Normalize(kept, rest).value)
    decreases |rest|
  {
    if rest != [] {
      var e := rest[0];
      SortedRest(kept, rest);
      if kept == [] || e.edit.start >= kept[|kept| - 1].edit.end {
        NormalizeAccounts(kept + [e], rest[1..]);
        KeptAccounts(kept, rest, Normalize(kept, rest).value);
      } else {
        NormalizeAccounts(kept, rest[1..]);
        DroppedAccounts(kept, rest, Normalize(kept, rest).value);
      }
    }
  }

  lemma KeptAccounts(kept: seq<BlockEdit>, rest: seq<BlockEdit>, out: seq<BlockEdit>)
    requires rest != [] && Accounts(kept + [rest[0]], rest[1..], out)
    ensures Accounts(kept, rest, out)
  {
    var e := rest[0];
    assert rest == [e] + rest[1..];
    assert out[|kept|] == (kept + [e])[|kept|];
    assert kept <= kept + [e];
    KeptIsAccounted(out, |kept|, e);
  }

  lemma DroppedAccounts(kept: seq<BlockEdit>, rest: seq<BlockEdit>, out: seq<BlockEdit>)
    requires rest != [] && Accounts(kept, rest[1..], out) && kept != []
    requires rest[0].edit == kept[|kept| - 1].edit || CoveredRemoval(rest[0], kept[|kept| - 1])
    ensures Accounts(kept, rest, out)
  {
    assert rest == [rest[0]] + rest[1..];
    KeptIsAccounted(out, |kept| - 1, rest[0]);
  }

  lemma SortedRest(kept: seq<BlockEdit>, rest: seq<BlockEdit>)
    requires InOrder(kept) && SortedAfter(kept, rest) && rest != []
    ensures SortedAfter(kept, rest[1..])
    ensures kept == [] || rest[0].edit.start >= kept[|kept| - 1].edit.end ==>
              InOrder(kept + [rest[0]]) && SortedAfter(kept + [rest[0]], rest[1..])
    ensures kept != [] ==> EditLeq(kept[|kept| - 1], rest[0])
  {
    var e := rest[0];
    assert e in rest && forall x | x in rest[1..] :: x in rest && EditLeq(e, x);
    assert kept != [] ==> kept[|kept| - 1] in kept;
    assert forall k | k in kept + [e] :: k in kept || k == e;
  }

  lemma KeptIsAccounted(out: seq<BlockEdit>, i: nat, e: BlockEdit)
    requires i < |out| && (out[i].edit == e.edit || CoveredRemoval(e, out[i]))
    ensures Accounted(out, e)
  {
    assert out[i] in out;
  }

  lemma {:induction false} InOrderIsPlaced(n: nat, edits: seq<BlockEdit>, from: nat)
    requires InOrder(edits) && from <= n
    requires forall e | e in edits :: from <= e.edit.start && e.edit.end <= n
    ensures Placed(n, Ranges(edits), from)
    decreases |edits|
  {
    if edits != [] {
      assert edits[0] in edits;
      forall e | e in edits[1..]
        ensures edits[0].edit.end <= e.edit.start && e.edit.end <= n
      {
        var i :| 0 <= i < |edits[1..]| && edits[1..][i] == e;
        assert edits[i + 1] == e && e in edits;
      }
      InOrderIsPlaced(n, edits[1..], edits[0].edit.end);
      assert Ranges(edits)[1..] == Ranges(edits[1..]);
    }
  }

  // ----------------------------------------------------- how blocks are nested

  ghost predicate Inside(a: nat, b: nat, c: nat, d: nat) { c <= a && b <= d }

  ghost predicate Clear(a: nat, b: nat, c: nat, d: nat) { b <= c || d <= a }

  /** What the parser guarantees of its ranges: a block lies in its own removal
      range, sources do not overlap, and removal ranges nest. */
  ghost predicate WellNested(blocks: seq<Block>, n: nat) {
    && (forall b | b in blocks ::
          b.removalStart <= b.sourceStart < b.sourceEnd <= b.removalEnd <= n)
    && (forall i, j | 0 <= i < j < |blocks| ::
          Clear(blocks[i].sourceStart, blocks[i].sourceEnd, blocks[j].sourceStart, blocks[j].sourceEnd))
    && (forall i, j | 0 <= i < |blocks| && 0 <= j < |blocks| ::
          || Inside(blocks[j].sourceStart, blocks[j].sourceEnd, blocks[i].removalStart, blocks[i].removalEnd)
          || Clear(blocks[j].sourceStart, blocks[j].sourceEnd, blocks[i].removalStart, blocks[i].removalEnd))
    && (forall i, j | 0 <= i < |blocks| && 0 <= j < |blocks| ::
          || Inside(blocks[j].removalStart, blocks[j].removalEnd, blocks[i].removalStart, blocks[i].removalEnd)
          || Inside(blocks[i].removalStart, blocks[i].removalEnd, blocks[j].removalStart, blocks[j].removalEnd)
          || Clear(blocks[j].removalStart, blocks[j].removalEnd, blocks[i].removalStart, blocks[i].removalEnd))
  }

  /** The edit of a block is the one its own claims ask for. */
  ghost predicate OwnEdit(blocks: seq<Block>, claims: seq<Claim>, e: BlockEdit) {
    && e.blockIndex < |blocks|
    && EditOf(blocks[e.blockIndex], e.blockIndex, ClaimsOf(claims, e.blockIndex)) == Some(e)
  }

  lemma {:induction false} EditsAreOwn(blocks: seq<Block>, claims: seq<Claim>, order: seq<nat>)
    requires AllBelow(order, |blocks|)
    ensures forall e | e in EditsFor(blocks, claims, order) :: OwnEdit(blocks, claims, e)
    ensures forall b | b in order && EditOf(blocks[b], b, ClaimsOf(claims, b)).Some? ::
              EditOf(blocks[b], b, ClaimsOf(claims, b)).value in EditsFor(blocks, claims, order)
  {
    if order != [] {
      var n := |order| - 1;
      EditsAreOwn(blocks, claims, order[..n]);
      assert order == order[..n] + [order[n]];
    }
  }

  lemma {:induction false} ClaimsOfMembers(claims: seq<Claim>, block: nat)
    ensures forall c :: c in ClaimsOf(claims, block) <==> c in claims && c.blockIndex == block
  {
    if claims != [] {
      var n := |claims| - 1;
      ClaimsOfMembers(claims[..n], block);
      assert claims == claims[..n] + [claims[n]];
    }
  }

  lemma {:induction false} CitedOnlyMembers(claims: seq<Claim>)
    ensures forall c :: c in CitedOnly(claims) <==> c in claims && IsCited(c)
    ensures |CitedOnly(claims)| <= |claims|
    ensures |CitedOnly(claims)| == |claims| <==> forall c | c in claims :: IsCited(c)
  {
    if claims != [] {
      var n := |claims| - 1;
      CitedOnlyMembers(claims[..n]);
      assert claims == claims[..n] + [claims[n]];
    }
  }

  lemma RenderedIsNotEmpty(claims: seq<Claim>)
    requires claims != []
    ensures RenderCitedClaims(claims) != ""
  {
    assert |RenderClaim(claims[0])| >= 1;
  }

  /** What an own edit looks like. */
  lemma OwnEditShape(blocks: seq<Block>, claims: seq<Claim>, e: BlockEdit)
    requires OwnEdit(blocks, claims, e)
    ensures var b := blocks[e.blockIndex];
      if e.edit.replacement == "" then e.edit.start == b.removalStart && e.edit.end == b.removalEnd
      else && e.edit == Edit(b.sourceStart, b.sourceEnd, RenderCitedClaims(CitedOnly(ClaimsOf(claims, e.blockIndex))))
           && exists c | c in claims :: c.blockIndex == e.blockIndex && IsCited(c)
  {
    var cited := CitedOnly(ClaimsOf(claims, e.blockIndex));
    if e.edit.replacement != "" {
      CitedOnlyMembers(ClaimsOf(claims, e.blockIndex));
      ClaimsOfMembers(claims, e.blockIndex);
      assert cited[0] in cited;
    } else if cited != [] && blocks[e.blockIndex].kind != TableRow {
      RenderedIsNotEmpty(cited);
    }
  }

  /** Where no grounded block would be swallowed, two edits of different blocks
      clash in no way but one: they lie apart, or one is a removal inside or
      equal to another removal. */
  lemma EditsNest(blocks: seq<Block>, claims: seq<Claim>, n: nat, d: BlockEdit, e: BlockEdit)
    requires Located(blocks, claims) && WellNested(blocks, n)
    requires OwnEdit(blocks, claims, d) && OwnEdit(blocks, claims, e)
    requires forall c | c in claims :: !Swallows(d, blocks, c) && !Swallows(e, blocks, c)
    ensures d.edit.start < d.edit.end <= n && e.edit.start < e.edit.end <= n
    ensures d.blockIndex != e.blockIndex ==>
              || Clear(d.edit.start, d.edit.end, e.edit.start, e.edit.end)
              || (d.edit.replacement == "" && e.edit.replacement == ""
                  && (CoveredRemoval(d, e) || CoveredRemoval(e, d)))
  {
    OwnEditShape(blocks, claims, d);
    OwnEditShape(blocks, claims, e);
    var i, j := d.blockIndex, e.blockIndex;
    assert blocks[i] in blocks && blocks[j] in blocks;
    if i != j {
      if d.edit.replacement != "" && e.edit.replacement == "" {
        var c :| c in claims && c.blockIndex == i && IsCited(c);
        assert !Swallows(e, blocks, c);
      }
      if e.edit.replacement != "" && d.edit.replacement == "" {
        var c :| c in claims && c.blockIndex == j && IsCited(c);
        assert !Swallows(d, blocks, c);
      }
    }
  }

  ghost predicate Compatible(d: BlockEdit, e: BlockEdit) {
    && d.edit.start < d.edit.end && e.edit.start < e.edit.end
    && (|| Clear(d.edit.start, d.edit.end, e.edit.start, e.edit.end)
        || (d.edit.replacement == "" && e.edit.replacement == ""
            && (CoveredRemoval(d, e) || CoveredRemoval(e, d))))
  }

  lemma {:induction false} NormalizeSucceeds(kept: seq<BlockEdit>, rest: seq<BlockEdit>)
    requires SortedBy(EditLeq, rest) && forall k, e | k in kept && e in rest :: EditLeq(k, e)
    requires forall k, e | k in kept && e in rest :: Compatible(k, e)
    requires Pairwise(Compatible, rest)
    ensures Normalize(kept, rest).Some?
    decreases |rest|
  {
    if rest != [] {
      var e := rest[0];
      assert e in rest;
      forall x | x in rest[1..]
        ensures EditLeq(e, x) && Compatible(e, x)
      {
        var i :| 0 <= i < |rest[1..]| && rest[1..][i] == x;
        assert rest[i + 1] == x;
      }
      if kept == [] || e.edit.start >= kept[|kept| - 1].edit.end {
        assert forall k | k in kept + [e] :: k in kept || k == e;
        NormalizeSucceeds(kept + [e], rest[1..]);
      } else {
        var last := kept[|kept| - 1];
        assert last in kept && EditLeq(last, e) && Compatible(last, e);
        NormalizeSucceeds(kept, rest[1..]);
      }
    }
  }

  lemma {:induction false} EditsOfDifferentBlocks(
    blocks: seq<Block>, claims: seq<Claim>, order: seq<nat>)
    requires AllBelow(order, |blocks|)
    requires forall i, j | 0 <= i < j < |order| :: order[i] != order[j]
    ensures forall e | e in EditsFor(blocks, claims, order) :: e.blockIndex in order
    ensures Pairwise((d: BlockEdit, e: BlockEdit) => d.blockIndex != e.blockIndex,
                     EditsFor(blocks, claims, order))
  {
    if order != [] {
      var n := |order| - 1;
      EditsOfDifferentBlocks(blocks, claims, order[..n]);
      assert order == order[..n] + [order[n]];
      assert order[n] !in order[..n];
      var edit := EditOf(blocks[order[n]], order[n], ClaimsOf(claims, order[n]));
      assert edit.Some? ==> edit.value.blockIndex == order[n];
    }
  }

  lemma EditsAreCompatible(blocks: seq<Block>, claims: seq<Claim>, n: nat)
    requires Located(blocks, claims) && WellNested(blocks, n)
    requires !RemovesGroundedBlock(Edits(blocks, claims), blocks, claims)
    ensures Pairwise(Compatible, Edits(blocks, claims))
    ensures forall e | e in Edits(blocks, claims) :: e.edit.start < e.edit.end <= n
  {
    var edits := Edits(blocks, claims);
    OrderIsLocated(blocks, claims);
    EditsAreOwn(blocks, claims, BlockOrder(claims));
    EditsOfDifferentBlocks(blocks, claims, BlockOrder(claims));
    forall i, j | 0 <= i < j < |edits|
      ensures Compatible(edits[i], edits[j])
    {
      EditsNest(blocks, claims, n, edits[i], edits[j]);
    }
    forall e | e in edits
      ensures e.edit.start < e.edit.end <= n
    {
      EditsNest(blocks, claims, n, e, e);
    }
  }

  /** Compatible edits normalize, and normalizing loses only covered ones. */
  lemma CompatibleEditsAreSafe(edits: seq<BlockEdit>)
    requires Pairwise(Compatible, edits) && forall e | e in edits :: e.edit.start <= e.edit.end
    ensures SafeEdits(edits).Some? && InOrder(SafeEdits(edits).value)
    ensures forall e | e in SafeEdits(edits).value :: e in edits
    ensures forall e | e in edits :: Accounted(SafeEdits(edits).value, e)
  {
    var sorted := Sort(EditLeq, edits);
    EditOrder();
    SortSorts(EditLeq, edits);
    SortKeepsElements(EditLeq, edits);
    SortKeepsPairwise(EditLeq, Compatible, edits);
    NormalizeSucceeds([], sorted);
    NormalizeAccounts([], sorted);
  }

  /** What pruning decides is always carried out: unless a removal would
      swallow a block that has citations, the edits never clash, what is kept
      of them is disjoint, and every edit that is not kept is a copy of a kept
      one or lies in a kept removal; every rewrite is kept. */
  lemma PruningIsSafe(blocks: seq<Block>, claims: seq<Claim>, n: nat)
    requires Located(blocks, claims) && WellNested(blocks, n)
    requires !RemovesGroundedBlock(Edits(blocks, claims), blocks, claims)
    ensures SafeEdits(Edits(blocks, claims)).Some?
    ensures var edits, kept := Edits(blocks, claims), SafeEdits(Edits(blocks, claims)).value;
      && InOrder(kept) && Placed(n, Ranges(kept), 0)
      && (forall e | e in kept :: e in edits)
      && (forall e | e in edits :: Accounted(kept, e))
      && (forall e | e in edits && e.edit.replacement != "" :: e in kept)
  {
    var edits := Edits(blocks, claims);
    EditsAreCompatible(blocks, claims, n);
    CompatibleEditsAreSafe(edits);
    var kept := SafeEdits(edits).value;
    InOrderIsPlaced(n, kept, 0);
    forall e | e in edits && e.edit.replacement != ""
      ensures e in kept
    {
      RewriteIsKept(blocks, claims, n, kept, e);
    }
  }

  lemma RewriteIsKept(
    blocks: seq<Block>, claims: seq<Claim>, n: nat, kept: seq<BlockEdit>, e: BlockEdit)
    requires Located(blocks, claims) && WellNested(blocks, n)
    requires !RemovesGroundedBlock(Edits(blocks, claims), blocks, claims)
    requires e in Edits(blocks, claims) && e.edit.replacement != "" && Accounted(kept, e)
    requires forall k | k in kept :: k in Edits(blocks, claims)
    ensures e in kept
  {
    OrderIsLocated(blocks, claims);
    EditsAreOwn(blocks, claims, BlockOrder(claims));
    var k :| k in kept && (k.edit == e.edit || CoveredRemoval(e, k));
    EditsNest(blocks, claims, n, e, k);
    assert k.blockIndex == e.blockIndex;
    assert k == e;
  }

  // ------------------------------------------------ what becomes of each block

  /** The claims of a block that carry citations, as pruning writes them. */
  function CitedText(claims: seq<Claim>, block: nat): string {
    RenderCitedClaims(CitedOnly(ClaimsOf(claims, block)))
  }

  function Rendered(claims: seq<Claim>): seq<string> {
    seq(|claims|, k requires 0 <= k < |claims| => claims[k].text + " " + Markers(claims[k].citationNumbers))
  }

  lemma {:induction false} RenderedIsJoined(claims: seq<Claim>)
    ensures JoinedBy(RenderCitedClaims(claims), Rendered(claims), " ")
  {
    if |claims| > 1 {
      RenderedIsJoined(claims[1..]);
      JoinOneMore(RenderClaim(claims[0]), " ", RenderCitedClaims(claims[1..]), Rendered(claims[1..]));
      assert Rendered(claims) == [RenderClaim(claims[0])] + Rendered(claims[1..]);
    }
  }

  function CitedAt(claims: seq<Claim>, block: nat): seq<nat> {
    if claims == [] then []
    else
      var n := |claims| - 1;
      CitedAt(claims[..n], block)
      + (if claims[n].blockIndex == block && IsCited(claims[n]) then [n] else [])
  }

  lemma {:induction false} CitedAtIndexes(claims: seq<Claim>, block: nat)
    ensures CitedIndexes(claims, block, CitedAt(claims, block))
  {
    if claims != [] {
      var n := |claims| - 1;
      CitedAtIndexes(claims[..n], block);
      assert forall i: nat | i < n :: claims[..n][i] == claims[i];
    }
  }

  lemma {:induction false} CitedOnlyJoins(claims: seq<Claim>, last: Claim)
    ensures CitedOnly(claims + [last]) == CitedOnly(claims) + (if IsCited(last) then [last] else [])
  {
    assert (claims + [last])[..|claims|] == claims;
  }

  lemma RenderedJoins(a: seq<Claim>, b: seq<Claim>)
    ensures Rendered(a + b) == Rendered(a) + Rendered(b)
  {
  }

  lemma {:induction false} CitedClaimsInOrder(claims: seq<Claim>, block: nat)
    requires forall k | 0 <= k < |CitedAt(claims, block)| :: CitedAt(claims, block)[k] < |claims|
    ensures Rendered(CitedOnly(ClaimsOf(claims, block))) == ClaimPieces(claims, CitedAt(claims, block))
  {
    if claims != [] {
      var n := |claims| - 1;
      var own, at := ClaimsOf(claims[..n], block), CitedAt(claims[..n], block);
      CitedAtIndexes(claims[..n], block);
      CitedClaimsInOrder(claims[..n], block);
      PiecesOfPrefix(claims, n, at);
      if claims[n].blockIndex == block {
        CitedOnlyJoins(own, claims[n]);
        RenderedJoins(CitedOnly(own), [claims[n]]);
      }
    }
  }

  lemma PiecesOfPrefix(claims: seq<Claim>, n: nat, at: seq<nat>)
    requires n <= |claims| && forall k | 0 <= k < |at| :: at[k] < n
    ensures ClaimPieces(claims[..n], at) == ClaimPieces(claims, at)
    ensures n < |claims| ==>
              ClaimPieces(claims, at + [n]) == ClaimPieces(claims, at) + Rendered([claims[n]])
  {
  }

  /** The cited text of a block is made of its cited claims, each with its text,
      a space and its markers, in order, with one space between them. */
  lemma CitedTextIsMadeOf(claims: seq<Claim>, block: nat) returns (at: seq<nat>)
    ensures CitedIndexes(claims, block, at)
    ensures JoinedBy(CitedText(claims, block), ClaimPieces(claims, at), " ")
  {
    at := CitedAt(claims, block);
    CitedAtIndexes(claims, block);
    CitedClaimsInOrder(claims, block);
    RenderedIsJoined(CitedOnly(ClaimsOf(claims, block)));
  }

  ghost predicate HasCitedClaim(claims: seq<Claim>, block: nat) {
    exists c | c in claims :: c.blockIndex == block && IsCited(c)
  }

  ghost predicate AllCited(claims: seq<Claim>, block: nat) {
    forall c | c in claims && c.blockIndex == block :: IsCited(c)
  }

  /** No edit touches a block whose claims are all cited. */
  lemma KeptEditClears(blocks: seq<Block>, claims: seq<Claim>, n: nat, index: nat, e: BlockEdit)
    requires Located(blocks, claims) && WellNested(blocks, n)
    requires !RemovesGroundedBlock(Edits(blocks, claims), blocks, claims)
    requires index < |blocks| && HasCitedClaim(claims, index) && AllCited(claims, index)
    requires e in Edits(blocks, claims)
    ensures e.edit.start < e.edit.end
    ensures Clear(e.edit.start, e.edit.end, blocks[index].sourceStart, blocks[index].sourceEnd)
  {
    OrderIsLocated(blocks, claims);
    EditsAreOwn(blocks, claims, BlockOrder(claims));
    OwnEditShape(blocks, claims, e);
    EditsNest(blocks, claims, n, e, e);
    ClaimsOfMembers(claims, index);
    CitedOnlyMembers(ClaimsOf(claims, index));
    assert e.blockIndex != index;
    var c :| c in claims && c.blockIndex == index && IsCited(c);
    assert !Swallows(e, blocks, c);
  }

  /** A block that has a cited and an uncited claim, and is no table row, is rewritten. */
  lemma BlockIsRewritten(blocks: seq<Block>, claims: seq<Claim>, index: nat)
    requires Located(blocks, claims) && index < |blocks| && blocks[index].kind != TableRow
    requires HasCitedClaim(claims, index) && !AllCited(claims, index)
    ensures CitedText(claims, index) != ""
    ensures BlockEdit(index, Edit(blocks[index].sourceStart, blocks[index].sourceEnd, CitedText(claims, index)))
            in Edits(blocks, claims)
  {
    OrderIsLocated(blocks, claims);
    EditsAreOwn(blocks, claims, BlockOrder(claims));
    ClaimsOfMembers(claims, index);
    CitedOnlyMembers(ClaimsOf(claims, index));
    var cited := CitedOnly(ClaimsOf(claims, index));
    var c :| c in claims && c.blockIndex == index && IsCited(c);
    assert c in cited;
    RenderedIsNotEmpty(cited);
    assert index in BlockOrder(claims);
  }

  /** A block without a cited claim, or a table row with an uncited one, is removed. */
  lemma BlockIsRemoved(blocks: seq<Block>, claims: seq<Claim>, index: nat)
    requires Located(blocks, claims) && index < |blocks| && !AllCited(claims, index)
    requires blocks[index].kind == TableRow || !HasCitedClaim(claims, index)
    ensures BlockEdit(index, Edit(blocks[index].removalStart, blocks[index].removalEnd, ""))
            in Edits(blocks, claims)
  {
    OrderIsLocated(blocks, claims);
    EditsAreOwn(blocks, claims, BlockOrder(claims));
    ClaimsOfMembers(claims, index);
    CitedOnlyMembers(ClaimsOf(claims, index));
    var cited := CitedOnly(ClaimsOf(claims, index));
    assert cited != [] ==> cited[0] in cited;
    assert index in BlockOrder(claims);
  }

  /** Exactly the blocks with an uncited claim are edited: one that is a table
      row, or has no cited claim, is removed, any other is left its cited claims. */
  lemma EditedExactlyWhen(blocks: seq<Block>, claims: seq<Claim>, e: BlockEdit)
    requires Located(blocks, claims)
    ensures e in Edits(blocks, claims) <==>
            && e.blockIndex < |blocks|
            && (exists c | c in claims :: c.blockIndex == e.blockIndex && c.citationNumbers == [])
            && var b := blocks[e.blockIndex];
               if b.kind == TableRow
                  || (forall c | c in claims && c.blockIndex == e.blockIndex :: c.citationNumbers == [])
               then e.edit == Edit(b.removalStart, b.removalEnd, "")
               else e.edit == Edit(b.sourceStart, b.sourceEnd, CitedText(claims, e.blockIndex))
  {
    OrderIsLocated(blocks, claims);
    EditsAreOwn(blocks, claims, BlockOrder(claims));
    var cited := CitedOnly(ClaimsOf(claims, e.blockIndex));
    ClaimsOfMembers(claims, e.blockIndex);
    CitedOnlyMembers(ClaimsOf(claims, e.blockIndex));
    assert cited != [] ==> cited[0] in cited;
  }

  /** Block i, which has an uncited claim, would be removed: it is a table row
      or has no cited claim. */
  ghost predicate IsRemoved(blocks: seq<Block>, claims: seq<Claim>, i: nat) {
    && i < |blocks|
    && (exists c | c in claims :: c.blockIndex == i && c.citationNumbers == [])
    && (blocks[i].kind == TableRow || forall c | c in claims && c.blockIndex == i :: c.citationNumbers == [])
  }

  /** Pruning is given up exactly if the range of a block to be removed holds
      another block with a cited claim. */
  lemma RefusedExactlyWhen(blocks: seq<Block>, claims: seq<Claim>)
    requires Located(blocks, claims)
    ensures RemovesGroundedBlock(Edits(blocks, claims), blocks, claims) <==>
            exists i: nat, c | IsRemoved(blocks, claims, i) && c in claims ::
              && c.blockIndex != i && c.citationNumbers != []
              && blocks[i].removalStart <= blocks[c.blockIndex].sourceStart
              && blocks[c.blockIndex].sourceEnd <= blocks[i].removalEnd
  {
    if RemovesGroundedBlock(Edits(blocks, claims), blocks, claims) {
      var e, c :| e in Edits(blocks, claims) && c in claims && Swallows(e, blocks, c);
      EditedExactlyWhen(blocks, claims, e);
      RewriteLeavesText(blocks, claims, e);
      assert IsRemoved(blocks, claims, e.blockIndex);
    }
    forall i: nat, c | IsRemoved(blocks, claims, i) && c in claims && c.blockIndex != i && c.citationNumbers != []
                       && blocks[i].removalStart <= blocks[c.blockIndex].sourceStart
                       && blocks[c.blockIndex].sourceEnd <= blocks[i].removalEnd
      ensures RemovesGroundedBlock(Edits(blocks, claims), blocks, claims)
    {
      var e := BlockEdit(i, Edit(blocks[i].removalStart, blocks[i].removalEnd, ""));
      EditedExactlyWhen(blocks, claims, e);
      assert Swallows(e, blocks, c);
    }
  }

  lemma RewriteLeavesText(blocks: seq<Block>, claims: seq<Claim>, e: BlockEdit)
    requires Located(blocks, claims) && e in Edits(blocks, claims) && e.edit.replacement == ""
    ensures IsRemoved(blocks, claims, e.blockIndex)
    ensures e.edit == Edit(blocks[e.blockIndex].removalStart, blocks[e.blockIndex].removalEnd, "")
  {
    EditedExactlyWhen(blocks, claims, e);
    if !IsRemoved(blocks, claims, e.blockIndex) {
      ClaimsOfMembers(claims, e.blockIndex);
      CitedOnlyMembers(ClaimsOf(claims, e.blockIndex));
      RenderedIsNotEmpty(CitedOnly(ClaimsOf(claims, e.blockIndex)));
    }
  }
}
