/** Scoring claims against evidence: equal pairs are sent to the model once and
    every item gets the verdict on its pair. */
module HhemScoring {
  import opened Prelude

  /** What the model says of one item; it may find it too long for its context. */
  datatype Verdict = Scored(supportProbability: real) | ModelContextCapacity

  datatype ScoreItem = ScoreItem(claim: string, evidence: string, id: string)

  datatype ScoreResult = ScoreResult(id: string, verdict: Verdict)

  datatype Pair = Pair(claim: string, evidence: string)

  function ContentOf(item: ScoreItem): Pair { Pair(item.claim, item.evidence) }

  function Contents(items: seq<ScoreItem>): seq<Pair> {
    seq(|items|, i requires 0 <= i < |items| => ContentOf(items[i]))
  }

  /** The verdict listed for an id: the last one. */
  function VerdictOf(results: seq<ScoreResult>, id: string): Option<Verdict> {
    if results == [] then None
    else
      var last := results[|results| - 1];
      if last.id == id then Some(last.verdict) else VerdictOf(results[..|results| - 1], id)
  }

  /** Items with the same id are the same. */
  ghost predicate Consistent(items: seq<ScoreItem>) {
    forall i, j | 0 <= i < |items| && 0 <= j < |items| && items[i].id == items[j].id ::
      items[i].claim == items[j].claim && items[i].evidence == items[j].evidence
  }

  /** A service whose verdict on an item depends on its claim and evidence
      only; None is an item that it omits. */
  ghost predicate JudgesByContent(score: seq<ScoreItem> -> seq<ScoreResult>, judge: Pair -> Option<Verdict>) {
    forall items: seq<ScoreItem>, item: ScoreItem | Consistent(items) && item in items ::
      VerdictOf(score(items), item.id) == judge(Pair(item.claim, item.evidence))
  }

  datatype Group = Group(item: ScoreItem, resultIds: seq<string>)

  /** The ids of the items with some content, in order. */
  function IdsWith(items: seq<ScoreItem>, content: Pair): seq<string> {
    if items == [] then []
    else
      var last := items[|items| - 1];
      IdsWith(items[..|items| - 1], content) + (if ContentOf(last) == content then [last.id] else [])
  }

  lemma {:induction false} IdsWithMembers(items: seq<ScoreItem>, content: Pair)
    ensures forall id :: id in IdsWith(items, content) <==>
              exists k | 0 <= k < |items| :: ContentOf(items[k]) == content && items[k].id == id
  {
    if items != [] {
      var n := |items| - 1;
      IdsWithMembers(items[..n], content);
      forall id
        ensures id in IdsWith(items, content) <==>
                exists k | 0 <= k < |items| :: ContentOf(items[k]) == content && items[k].id == id
      {
        if k :| 0 <= k < n && ContentOf(items[..n][k]) == content && items[..n][k].id == id {
          assert ContentOf(items[k]) == content;
        }
        if k :| 0 <= k < |items| && ContentOf(items[k]) == content && items[k].id == id && k < n {
          assert ContentOf(items[..n][k]) == content;
        }
      }
    }
  }

  function GroupItems(groups: seq<Group>): seq<ScoreItem> {
    seq(|groups|, i requires 0 <= i < |groups| => groups[i].item)
  }

  /** One group for each content, in order of first occurrence, holding the
      ids of the items with that content. */
  ghost predicate Grouped(items: seq<ScoreItem>, groups: seq<Group>) {
    && Contents(GroupItems(groups)) == Unique(Contents(items))
    && (forall g | g in groups :: g.item in items && g.resultIds == IdsWith(items, ContentOf(g.item)))
  }

  ghost predicate Positions(groups: seq<Group>, positions: map<Pair, nat>) {
    && (forall i | 0 <= i < |groups| :: ContentOf(groups[i].item) in positions && positions[ContentOf(groups[i].item)] == i)
    && (forall c | c in positions :: positions[c] < |groups| && ContentOf(groups[positions[c]].item) == c)
  }

  lemma GroupStep(items: seq<ScoreItem>, k: nat, groups: seq<Group>, positions: map<Pair, nat>)
    requires k < |items| && Grouped(items[..k], groups) && Positions(groups, positions)
    ensures var c := ContentOf(items[k]);
      Unique(Contents(items[..k + 1]))
      == Unique(Contents(items[..k])) + (if c in positions then [] else [c])
    ensures forall c :: IdsWith(items[..k + 1], c)
              == IdsWith(items[..k], c) + (if ContentOf(items[k]) == c then [items[k].id] else [])
    ensures ContentOf(items[k]) !in positions ==> IdsWith(items[..k], ContentOf(items[k])) == []
  {
    var c := ContentOf(items[k]);
    assert items[..k + 1][..k] == items[..k];
    assert Contents(items[..k + 1]) == Contents(items[..k]) + [c];
    assert Contents(items[..k + 1])[..k] == Contents(items[..k]);
    UniqueFacts(Contents(items[..k]));
    assert forall x :: x in positions <==> x in Contents(GroupItems(groups)) by {
      forall x | x in positions
        ensures x in Contents(GroupItems(groups))
      {
        assert Contents(GroupItems(groups))[positions[x]] == x;
      }
    }
    IdsWithMembers(items[..k], c);
    if c !in positions && IdsWith(items[..k], c) != [] {
      var id := IdsWith(items[..k], c)[0];
      assert id in IdsWith(items[..k], c);
      var j :| 0 <= j < k && ContentOf(items[..k][j]) == c;
      assert Contents(items[..k])[j] == c;
    }
  }

  method GroupByContent(items: seq<ScoreItem>) returns (groups: seq<Group>)
    ensures Grouped(items, groups)
  {
    groups := [];
    var positions: map<Pair, nat> := map[];
    assert Contents(GroupItems([])) == [] && Unique(Contents(items[..0])) == [];
    for k := 0 to |items|
      invariant Grouped(items[..k], groups) && Positions(groups, positions)
    {
      var item := items[k];
      GroupStep(items, k, groups, positions);
      assert forall x | x in items[..k] :: x in items[..k + 1];
      if ContentOf(item) in positions {
        var at := positions[ContentOf(item)];
        AddToGroup(items, k, groups, positions);
        groups := groups[at := groups[at].(resultIds := groups[at].resultIds + [item.id])];
        continue;
      }
      assert items[..k + 1][k] == item;
      NewGroup(items, k, groups, positions);
      positions := positions[ContentOf(item) := |groups|];
      groups := groups + [Group(item, [item.id])];
    }
    assert items[..|items|] == items;
  }

  lemma AddToGroup(items: seq<ScoreItem>, k: nat, groups: seq<Group>, positions: map<Pair, nat>)
    requires k < |items| && Grouped(items[..k], groups) && Positions(groups, positions)
    requires ContentOf(items[k]) in positions
    ensures var at := positions[ContentOf(items[k])];
      var more := groups[at := groups[at].(resultIds := groups[at].resultIds + [items[k].id])];
      Grouped(items[..k + 1], more) && Positions(more, positions)
  {
    GroupStep(items, k, groups, positions);
    var at := positions[ContentOf(items[k])];
    var more := groups[at := groups[at].(resultIds := groups[at].resultIds + [items[k].id])];
    assert GroupItems(more) == GroupItems(groups);
    assert items[..k + 1] == items[..k] + [items[k]];
    forall g | g in more
      ensures g.item in items[..k + 1] && g.resultIds == IdsWith(items[..k + 1], ContentOf(g.item))
    {
      var i :| 0 <= i < |more| && more[i] == g;
      assert groups[i] in groups;
      assert i != at ==> ContentOf(groups[i].item) != ContentOf(items[k]);
    }
  }

  lemma NewGroup(items: seq<ScoreItem>, k: nat, groups: seq<Group>, positions: map<Pair, nat>)
    requires k < |items| && Grouped(items[..k], groups) && Positions(groups, positions)
    requires ContentOf(items[k]) !in positions
    ensures var more := groups + [Group(items[k], [items[k].id])];
      Grouped(items[..k + 1], more) && Positions(more, positions[ContentOf(items[k]) := |groups|])
  {
    GroupStep(items, k, groups, positions);
    var added := Group(items[k], [items[k].id]);
    assert Contents(GroupItems(groups + [added])) == Contents(GroupItems(groups)) + [ContentOf(items[k])];
    assert items[..k + 1] == items[..k] + [items[k]];
    OldGroupsStay(items, k, groups, positions);
    NewPosition(groups, positions, added);
  }

  lemma OldGroupsStay(items: seq<ScoreItem>, k: nat, groups: seq<Group>, positions: map<Pair, nat>)
    requires k < |items| && Grouped(items[..k], groups) && Positions(groups, positions)
    requires ContentOf(items[k]) !in positions
    ensures forall g | g in groups ::
              g.item in items[..k + 1] && g.resultIds == IdsWith(items[..k + 1], ContentOf(g.item))
  {
    GroupStep(items, k, groups, positions);
    assert items[..k + 1] == items[..k] + [items[k]];
    forall g | g in groups
      ensures g.item in items[..k + 1] && g.resultIds == IdsWith(items[..k + 1], ContentOf(g.item))
    {
      var i :| 0 <= i < |groups| && groups[i] == g;
      assert ContentOf(g.item) != ContentOf(items[k]);
    }
  }

  lemma NewPosition(groups: seq<Group>, positions: map<Pair, nat>, added: Group)
    requires Positions(groups, positions) && ContentOf(added.item) !in positions
    ensures Positions(groups + [added], positions[ContentOf(added.item) := |groups|])
  {
  }

  function VerdictMap(results: seq<ScoreResult>): map<string, Verdict> {
    if results == [] then map[]
    else
      var last := results[|results| - 1];
      VerdictMap(results[..|results| - 1])[last.id := last.verdict]
  }

  lemma {:induction false} VerdictMapFinds(results: seq<ScoreResult>)
    ensures forall id :: VerdictOf(results, id)
                      == if id in VerdictMap(results) then Some(VerdictMap(results)[id]) else None
  {
    if results != [] {
      VerdictMapFinds(results[..|results| - 1]);
    }
  }

  /** A result was fanned out from one of the first n groups. */
  ghost predicate FannedOut(
    r: ScoreResult, groups: seq<Group>, n: nat, unique: seq<ScoreResult>)
    requires n <= |groups|
  {
    exists i | 0 <= i < n :: r.id in groups[i].resultIds && VerdictOf(unique, groups[i].item.id) == Some(r.verdict)
  }

  method FanOut(groups: seq<Group>, unique: seq<ScoreResult>) returns (results: seq<ScoreResult>)
    ensures forall r :: r in results <==> FannedOut(r, groups, |groups|, unique)
  {
    VerdictMapFinds(unique);
    var byId := VerdictMap(unique);
    results := [];
    for i := 0 to |groups|
      invariant forall r :: r in results <==> FannedOut(r, groups, i, unique)
    {
      var g := groups[i];
      ghost var before := results;
      if g.item.id in byId {
        var verdict := byId[g.item.id];
        for k := 0 to |g.resultIds|
          invariant forall r :: r in results <==>
                      r in before || (r.verdict == verdict && r.id in g.resultIds[..k])
        {
          assert g.resultIds[..k + 1] == g.resultIds[..k] + [g.resultIds[k]];
          results := results + [ScoreResult(g.resultIds[k], verdict)];
        }
        assert g.resultIds[..|g.resultIds|] == g.resultIds;
      }
      forall r
        ensures r in results <==> FannedOut(r, groups, i + 1, unique)
      {
      }
    }
  }

  /** Scores each distinct pair of claim and evidence once, in order of first
      occurrence, and gives every item the verdict on its pair. */
  method ScoreUniqueHhemItems(
    items: seq<ScoreItem>, score: seq<ScoreItem> -> seq<ScoreResult>, ghost judge: Pair -> Option<Verdict>)
    returns (results: seq<ScoreResult>, sent: seq<ScoreItem>)
    requires Consistent(items) && JudgesByContent(score, judge)
    ensures Contents(sent) == Unique(Contents(items))
    ensures forall item | item in items :: VerdictOf(results, item.id) == judge(Pair(item.claim, item.evidence))
    ensures forall item | item in items :: VerdictOf(results, item.id) == VerdictOf(score(items), item.id)
    ensures forall i, j | 0 <= i < j < |sent| :: sent[i].claim != sent[j].claim || sent[i].evidence != sent[j].evidence
  {
    var groups := GroupByContent(items);
    sent := GroupItems(groups);
    var unique := score(sent);
    results := FanOut(groups, unique);
    SentIsConsistent(items, groups);
    SentIsDistinct(items, groups);
    forall item | item in items
      ensures VerdictOf(results, item.id) == judge(ContentOf(item))
    {
      EveryItemGetsItsVerdict(items, groups, unique, results, judge, item);
    }
  }

  lemma SentIsDistinct(items: seq<ScoreItem>, groups: seq<Group>)
    requires Grouped(items, groups)
    ensures var sent := GroupItems(groups);
      forall i, j | 0 <= i < j < |sent| :: sent[i].claim != sent[j].claim || sent[i].evidence != sent[j].evidence
  {
    var sent := GroupItems(groups);
    UniqueFacts(Contents(items));
    forall i, j | 0 <= i < j < |sent|
      ensures sent[i].claim != sent[j].claim || sent[i].evidence != sent[j].evidence
    {
      assert Contents(sent)[i] != Contents(sent)[j];
    }
  }

  lemma SentIsConsistent(items: seq<ScoreItem>, groups: seq<Group>)
    requires Consistent(items) && Grouped(items, groups)
    ensures Consistent(GroupItems(groups))
    ensures forall i | 0 <= i < |groups| :: groups[i].item in GroupItems(groups)
  {
    var sent := GroupItems(groups);
    forall i | 0 <= i < |groups|
      ensures groups[i].item in sent && sent[i] in items
    {
      assert sent[i] == groups[i].item && groups[i] in groups;
    }
    forall i, j | 0 <= i < |sent| && 0 <= j < |sent| && sent[i].id == sent[j].id
      ensures ContentOf(sent[i]) == ContentOf(sent[j])
    {
      var a :| 0 <= a < |items| && items[a] == sent[i];
      var b :| 0 <= b < |items| && items[b] == sent[j];
    }
  }

  lemma EveryItemGetsItsVerdict(
    items: seq<ScoreItem>, groups: seq<Group>, unique: seq<ScoreResult>, results: seq<ScoreResult>,
    judge: Pair -> Option<Verdict>, item: ScoreItem)
    requires Consistent(items) && Grouped(items, groups) && item in items
    requires forall r :: r in results <==> FannedOut(r, groups, |groups|, unique)
    requires forall g | g in groups :: VerdictOf(unique, g.item.id) == judge(ContentOf(g.item))
    ensures VerdictOf(results, item.id) == judge(ContentOf(item))
  {
    forall r | r in results && r.id == item.id
      ensures Some(r.verdict) == judge(ContentOf(item))
    {
      var i :| 0 <= i < |groups| && r.id in groups[i].resultIds
               && VerdictOf(unique, groups[i].item.id) == Some(r.verdict);
      assert groups[i] in groups;
      IdsWithMembers(items, ContentOf(groups[i].item));
      var k :| 0 <= k < |items| && ContentOf(items[k]) == ContentOf(groups[i].item) && items[k].id == r.id;
    }
    if judge(ContentOf(item)).Some? {
      var i := GroupOf(items, groups, item);
      var r := ScoreResult(item.id, judge(ContentOf(item)).value);
      assert groups[i] in groups;
      assert FannedOut(r, groups, |groups|, unique);
    }
    VerdictIsCommon(results, item.id, judge(ContentOf(item)));
  }

  lemma GroupOf(items: seq<ScoreItem>, groups: seq<Group>, item: ScoreItem) returns (i: nat)
    requires Grouped(items, groups) && item in items
    ensures i < |groups| && ContentOf(groups[i].item) == ContentOf(item) && item.id in groups[i].resultIds
  {
    var k :| 0 <= k < |items| && items[k] == item;
    assert Contents(items)[k] == ContentOf(item);
    UniqueFacts(Contents(items));
    assert ContentOf(item) in Contents(GroupItems(groups));
    i :| 0 <= i < |groups| && Contents(GroupItems(groups))[i] == ContentOf(item);
    assert groups[i] in groups;
    IdsWithMembers(items, ContentOf(item));
  }

  lemma {:induction false} VerdictIsCommon(results: seq<ScoreResult>, id: string, verdict: Option<Verdict>)
    requires forall r | r in results && r.id == id :: Some(r.verdict) == verdict
    ensures VerdictOf(results, id) == if exists r | r in results :: r.id == id then verdict else None
  {
    if results != [] {
      var n := |results| - 1;
      assert results == results[..n] + [results[n]];
      VerdictIsCommon(results[..n], id, verdict);
    }
  }
}
