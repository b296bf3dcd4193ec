/** Answers of two paragraphs, the second without citations, whose first
    citation changes its length when it is rewritten. */
module ShiftedRanges {
  import opened Prelude
  import opened Sorting
  import opened Splice
  import opened Markup
  import opened Coverage
  import opened Offsets
  import opened PrunedAnswer

  /** Two paragraphs: one that ends in text after its citation, and an uncited one. */
  function TwoParagraphs(head: string, citation: string, tail: string, last: string): string {
    head + (citation + (tail + last))
  }

  /** Uncited text that survives pruning.  Where rewriting the citations of the
      first paragraph lengthens it by at least the length of the uncited
      paragraph after it, the removal range of that paragraph lies wholly
      before it in the canonical text, and the paragraph is kept whole. */
  lemma UncitedClaimSurvives(
    head: string, written: string, numbers: seq<nat>, tail: string, last: string,
    blocks: seq<Block>, claims: seq<Claim>)
    requires TwoParagraphAnswer(head, written, numbers, tail, last, blocks, claims)
    requires |Markers(numbers)| >= |written| + |last|
    ensures Located(blocks, claims) && !RemovesGroundedBlock(Edits(blocks, claims), blocks, claims)
    ensures var canonical := TwoParagraphs(head, Markers(numbers), tail, last);
      var removal := RemovalOfSecond(blocks);
      && SafeEdits(Edits(blocks, claims)) == Some([BlockEdit(1, removal)])
      && Placed(|canonical|, [removal], 0)
      && exists front :: WithHeading(Trim(Substitute(canonical, [removal], 0))) == front + last
  {
    var whole := head + Markers(numbers) + tail;
    var a, b := blocks[1].removalStart, blocks[1].removalEnd;
    EditsOfTwo(blocks, claims);
    FrontAndLast(head, Markers(numbers), tail, last);
    RemovalMisses(whole, last, a, b);
    NothingToTrim((whole[..a] + whole[b..]) + last);
    HeadingBefore(whole[..a] + whole[b..], last);
  }

  lemma HeadingBefore(front: string, last: string)
    ensures exists before :: WithHeading(front + last) == before + last
  {
    if WithHeading(front + last) != front + last {
      Glue(PARTIAL_ANSWER_HEADING + "\n\n", front, last);
      assert WithHeading(front + last) == (PARTIAL_ANSWER_HEADING + "\n\n" + front) + last;
    }
  }

  /** The blocks and claims of such an answer as the parser gives them: the
      first paragraph ends after its citation, the second is the last text. */
  ghost predicate TwoParagraphAnswer(
    head: string, written: string, numbers: seq<nat>, tail: string, last: string,
    blocks: seq<Block>, claims: seq<Claim>)
  {
    && head != "" && !IsSpace(head[0]) && last != "" && !IsSpace(last[|last| - 1])
    && written != "" && numbers != []
    && |blocks| == 2 && |claims| == 2
    && claims[0].blockIndex == 0 && claims[0].citationNumbers == numbers
    && claims[1].blockIndex == 1 && claims[1].citationNumbers == []
    && (forall b | b in blocks ::
          b.kind == Paragraph && b.sourceStart == b.removalStart && b.sourceEnd == b.removalEnd)
    && 0 == blocks[0].sourceStart < blocks[0].sourceEnd
    && |head| + |written| <= blocks[0].sourceEnd <= blocks[1].sourceStart
    && blocks[1].sourceStart == |head| + |written| + |tail|
    && blocks[1].sourceEnd == blocks[1].sourceStart + |last|
  }

  /** In the answer as written those ranges are as they should be. */
  lemma TwoParagraphsAsWritten(
    head: string, written: string, numbers: seq<nat>, tail: string, last: string,
    blocks: seq<Block>, claims: seq<Claim>)
    requires TwoParagraphAnswer(head, written, numbers, tail, last, blocks, claims)
    ensures var original := TwoParagraphs(head, written, tail, last);
      var rewrite := RewriteOf(head, written, numbers);
      && WellNested(blocks, |original|)
      && original[blocks[1].sourceStart..blocks[1].sourceEnd] == last
      && Placed(|original|, [rewrite], 0)
      && Trim(Substitute(original, [rewrite], 0)) == TwoParagraphs(head, Markers(numbers), tail, last)
  {
    FrontAndLast(head, written, tail, last);
    RewrittenWhole(head, written, numbers, tail, last);
    FrontAndLast(head, Markers(numbers), tail, last);
    NothingToTrim(head + Markers(numbers) + tail + last);
  }

  lemma FrontAndLast(head: string, citation: string, tail: string, last: string)
    ensures TwoParagraphs(head, citation, tail, last) == head + citation + tail + last
  {
  }

  lemma {:induction false} RemovalMisses(front: string, last: string, a: nat, b: nat)
    requires a <= b <= |front|
    ensures Placed(|front + last|, [Edit(a, b, "")], 0)
    ensures Substitute(front + last, [Edit(a, b, "")], 0) == (front[..a] + front[b..]) + last
  {
    var text, e := front + last, Edit(a, b, "");
    assert [e][1..] == [];
    assert text[0..a] == front[..a] && text[b..] == front[b..] + last;
    Glue(front[..a], front[b..], last);
  }

  /** The rewriting of the citation and the removal of the second paragraph. */
  function RewriteOf(head: string, written: string, numbers: seq<nat>): Edit {
    Edit(|head|, |head| + |written|, Markers(numbers))
  }

  function RemovalOfSecond(blocks: seq<Block>): Edit
    requires |blocks| == 2
  {
    Edit(blocks[1].removalStart, blocks[1].removalEnd, "")
  }

  lemma GrowthOfOne(r: Edit, at: nat)
    ensures GrowthLeft([r], at) == if r.end > at then 0 else |r.replacement| - (r.end - r.start)
  {
    assert GrowthLeft([r][1..], at) == 0;
  }

  /** They are as parsed: the general theorems on pruning apply to them. */
  lemma TwoParagraphsAreParsed(
    head: string, written: string, numbers: seq<nat>, tail: string, last: string,
    blocks: seq<Block>, claims: seq<Claim>)
    requires TwoParagraphAnswer(head, written, numbers, tail, last, blocks, claims)
    ensures AsParsed(TwoParagraphs(head, written, tail, last), [RewriteOf(head, written, numbers)], blocks)
  {
    var original, rewrite := TwoParagraphs(head, written, tail, last), RewriteOf(head, written, numbers);
    TwoParagraphsAsWritten(head, written, numbers, tail, last, blocks, claims);
    FirstIsStretch(head, written, numbers, tail, last, blocks[0].sourceEnd);
    LastIsStretch(head, written, numbers, tail, last);
    assert blocks[0] in blocks && blocks[1] in blocks;
    assert forall b | b in blocks :: b == blocks[0] || b == blocks[1];
  }

  lemma RewrittenWhole(head: string, written: string, numbers: seq<nat>, tail: string, last: string)
    requires written != "" && head != ""
    ensures var original, rewrite := TwoParagraphs(head, written, tail, last), RewriteOf(head, written, numbers);
      && GoodRewrites(original, [rewrite])
      && Substitute(original, [rewrite], 0) == TwoParagraphs(head, Markers(numbers), tail, last)
      && |original| == |head| + |written| + |tail| + |last|
  {
    FrontAndLast(head, written, tail, last);
    assert [RewriteOf(head, written, numbers)][1..] == [];
  }

  lemma FirstIsStretch(
    head: string, written: string, numbers: seq<nat>, tail: string, last: string, end: nat)
    requires written != "" && head != "" && !IsSpace(head[0])
    requires |head| + |written| <= end <= |head| + |written| + |tail| + |last|
    ensures OfStretch(TwoParagraphs(head, written, tail, last), [RewriteOf(head, written, numbers)], Edit(0, end, ""))
  {
    var original, rewrite := TwoParagraphs(head, written, tail, last), RewriteOf(head, written, numbers);
    RewrittenWhole(head, written, numbers, tail, last);
    RewrittenIsSlice(original, [rewrite], 0, end);
    GrowthOfOne(rewrite, 0);
    GrowthOfOne(rewrite, end);
    var full := Substitute(original, [rewrite], 0);
    assert full[0..Moved([rewrite], end)][0] == head[0];
  }

  lemma LastIsStretch(head: string, written: string, numbers: seq<nat>, tail: string, last: string)
    requires written != "" && head != "" && last != "" && !IsSpace(last[|last| - 1])
    ensures var original, start := TwoParagraphs(head, written, tail, last), |head| + |written| + |tail|;
      OfStretch(original, [RewriteOf(head, written, numbers)], Edit(start, start + |last|, ""))
  {
    var original, rewrite := TwoParagraphs(head, written, tail, last), RewriteOf(head, written, numbers);
    var start := |head| + |written| + |tail|;
    RewrittenWhole(head, written, numbers, tail, last);
    RewrittenIsSlice(original, [rewrite], start, start + |last|);
    GrowthOfOne(rewrite, start);
    GrowthOfOne(rewrite, start + |last|);
    FrontAndLast(head, Markers(numbers), tail, last);
    var full, x := Substitute(original, [rewrite], 0), Moved([rewrite], start);
    assert full[x..x + |last|] == last;
  }

  /** In all these answers pruning takes out just the uncited paragraph exactly
      if rewriting the citation before it keeps the citation's length. */
  lemma SecondIsCutExactlyWhen(
    head: string, written: string, numbers: seq<nat>, tail: string, last: string,
    blocks: seq<Block>, claims: seq<Claim>)
    requires TwoParagraphAnswer(head, written, numbers, tail, last, blocks, claims)
    ensures TakesItsText(TwoParagraphs(head, written, tail, last), [RewriteOf(head, written, numbers)],
                         RemovalOfSecond(blocks))
       <==> |Markers(numbers)| == |written|
  {
    var original, rewrite := TwoParagraphs(head, written, tail, last), RewriteOf(head, written, numbers);
    assert blocks[1] in blocks;
    RewrittenWhole(head, written, numbers, tail, last);
    LastIsStretch(head, written, numbers, tail, last);
    FrontAndLast(head, Markers(numbers), tail, last);
    NothingToTrim(head + Markers(numbers) + tail + last);
    LastRangeIsRightExactlyWhen(original, rewrite, RemovalOfSecond(blocks));
  }

  /** With one rewrite and nothing to trim, a range that ends the answer is right
      exactly if the rewrite keeps its length. */
  lemma LastRangeIsRightExactlyWhen(original: string, rewrite: Edit, e: Edit)
    requires GoodRewrites(original, [rewrite]) && OfStretch(original, [rewrite], e)
    requires 0 < rewrite.end <= e.start && e.end == |original|
    requires LeadingBlanks(Substitute(original, [rewrite], 0)) == 0
    requires Canonical(original, [rewrite]) == Substitute(original, [rewrite], 0)
    ensures TakesItsText(original, [rewrite], e) <==> |rewrite.replacement| == rewrite.end - rewrite.start
  {
    TakesItsTextExactlyWhen(original, [rewrite], e);
    EndsAreSlices(original, [rewrite], e);
    StartAndEnd(original, [rewrite]);
    GrowthOfOne(rewrite, e.start);
    GrowthOfOne(rewrite, e.end);
  }

  lemma NothingToTrim(s: string)
    requires s != "" && !IsSpace(s[0]) && !IsSpace(s[|s| - 1])
    ensures LeadingBlanks(s) == 0 && Trim(s) == s
  {
  }

  /** For one: of "A [1,2]." and, after a blank line, "B." pruning takes out the
      blank line and leaves the uncited "B." behind. */
  lemma SuchAnAnswerExists(blocks: seq<Block>, claims: seq<Claim>)
    requires blocks == [Block(Paragraph, 0, 8, 0, 8), Block(Paragraph, 10, 12, 10, 12)]
    requires claims == [Claim(0, "A.", [1, 2]), Claim(1, "B.", [])]
    ensures TwoParagraphs("A ", "[1,2]", ".\n\n", "B.") == "A [1,2].\n\nB."
    ensures TwoParagraphAnswer("A ", "[1,2]", [1, 2], ".\n\n", "B.", blocks, claims)
    ensures Located(blocks, claims) && PruningEdits(blocks, claims) == [Edit(10, 12, "")]
    ensures Markers([1, 2]) == "[1] [2]" && |Markers([1, 2])| >= |"[1,2]"| + |"B."|
    ensures Placed(14, [Edit(10, 12, "")], 0)
    ensures Substitute("A [1] [2].\n\nB.", [Edit(10, 12, "")], 0) == "A [1] [2].B."
  {
    MarkersOfTwo();
    EditsOfTwo(blocks, claims);
    RemovalMisses("A [1] [2].\n\n", "B.", 10, 12);
  }

  lemma MarkersOfTwo()
    ensures Markers([1, 2]) == "[1] [2]"
  {
    assert Decimal(1) == "1" && Decimal(2) == "2";
    assert [1, 2][1..] == [2];
    assert Marker(1) == "[1]" && Marker(2) == "[2]";
  }

  lemma EditsOfTwo(blocks: seq<Block>, claims: seq<Claim>)
    requires |blocks| == 2 && |claims| == 2 && blocks[1].kind == Paragraph
    requires claims[0].blockIndex == 0 && claims[1].blockIndex == 1
    requires claims[0].citationNumbers != [] && claims[1].citationNumbers == []
    requires blocks[1].removalStart > blocks[0].sourceStart
    ensures Located(blocks, claims)
    ensures var removal := BlockEdit(1, Edit(blocks[1].removalStart, blocks[1].removalEnd, ""));
      Edits(blocks, claims) == [removal] && SafeEdits(Edits(blocks, claims)) == Some([removal])
    ensures !RemovesGroundedBlock(Edits(blocks, claims), blocks, claims)
  {
    OrderOfTwo(claims);
    CitedOnlyMembers([claims[0]]);
    CitedOnlyMembers([claims[1]]);
    var e := BlockEdit(1, Edit(blocks[1].removalStart, blocks[1].removalEnd, ""));
    assert forall c :: c !in CitedOnly([claims[1]]);
    assert CitedOnly([claims[1]]) == [];
    assert EditOf(blocks[0], 0, [claims[0]]) == None && EditOf(blocks[1], 1, [claims[1]]) == Some(e);
    OrderIsLocated(blocks, claims);
    assert [0, 1][..1] == [0] && [0][..0] == [];
    assert EditsFor(blocks, claims, [0]) == [];
    assert Edits(blocks, claims) == [e];
    OneEditIsSafe(e);
  }

  lemma OrderOfTwo(claims: seq<Claim>)
    requires |claims| == 2 && claims[0].blockIndex == 0 && claims[1].blockIndex == 1
    ensures BlockOrder(claims) == [0, 1]
    ensures ClaimsOf(claims, 0) == [claims[0]] && ClaimsOf(claims, 1) == [claims[1]]
  {
    assert claims[..1] == [claims[0]];
    assert BlockIndexes(claims) == [0, 1];
    UniqueOfTwo();
    ClaimsOfOne(claims[0], 0);
    ClaimsOfOne(claims[0], 1);
  }

  lemma UniqueOfTwo()
    ensures Unique<nat>([0, 1]) == [0, 1]
  {
    assert [0, 1][..1] == [0] && [0][..0] == [];
    assert Unique([0]) == [0];
  }

  lemma ClaimsOfOne(c: Claim, block: nat)
    ensures ClaimsOf([c], block) == if c.blockIndex == block then [c] else []
  {
    assert [c][..0] == [];
  }

  lemma OneEditIsSafe(e: BlockEdit)
    ensures SafeEdits([e]) == Some([e])
  {
    assert [e][1..] == [] && Sort(EditLeq, []) == [];
    assert Sort(EditLeq, [e]) == [e];
    var none: seq<BlockEdit> := [];
    assert none + [e] == [e];
    assert Normalize([e], none) == Some([e]);
  }
}
