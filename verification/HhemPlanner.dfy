/** The batch planner and scorer of the hallucination model service.  Token
    counting and prediction are free functions. */
module HhemPlanner {
  import opened Prelude
  import opened Sorting

  const MODEL_MAX_INPUT_TOKENS: int := 4_096

  datatype ScoreItem = ScoreItem(id: string, evidence: string, claim: string)

  datatype Measured = Measured(item: ScoreItem, tokens: int)

  datatype Limits = Limits(batchSize: int, paddedTokens: int, attentionCells: int)

  datatype ScoreError = TokenRange(id: string) | MemoryBudget(id: string) | ModelOutput

  // ------------------------------------------------------------ sorting keys

  predicate StringLeq(a: string, b: string) {
    a == [] || (b != [] && (a[0] < b[0] || (a[0] == b[0] && StringLeq(a[1..], b[1..]))))
  }

  predicate KeyLeq(a: Measured, b: Measured) {
    a.tokens < b.tokens || (a.tokens == b.tokens && StringLeq(a.item.id, b.item.id))
  }

  lemma {:induction false} StringLeqTotal(a: string, b: string)
    ensures StringLeq(a, b) || StringLeq(b, a)
  {
    if a != [] && b != [] {
      StringLeqTotal(a[1..], b[1..]);
    }
  }

  lemma {:induction false} StringLeqTransitive(a: string, b: string, c: string)
    requires StringLeq(a, b) && StringLeq(b, c)
    ensures StringLeq(a, c)
  {
    if a != [] && a[0] == b[0] == c[0] {
      StringLeqTransitive(a[1..], b[1..], c[1..]);
    }
  }

  lemma KeyOrder()
    ensures TotalOrder(KeyLeq)
  {
    forall a, b
      ensures KeyLeq(a, b) || KeyLeq(b, a)
    {
      StringLeqTotal(a.item.id, b.item.id);
    }
    forall a, b, c | KeyLeq(a, b) && KeyLeq(b, c)
      ensures KeyLeq(a, c)
    {
      if a.tokens == b.tokens == c.tokens {
        StringLeqTransitive(a.item.id, b.item.id, c.item.id);
      }
    }
  }

  // -------------------------------------------------------------- the limits

  function MaxTokens(batch: seq<Measured>): int {
    if batch == [] then 0
    else Max(MaxTokens(batch[..|batch| - 1]), batch[|batch| - 1].tokens)
  }

  predicate Within(lim: Limits, size: int, tokens: int) {
    size <= lim.batchSize && size * tokens <= lim.paddedTokens && size * tokens * tokens <= lim.attentionCells
  }

  predicate Feasible(lim: Limits, batch: seq<Measured>) {
    Within(lim, |batch|, MaxTokens(batch))
  }

  predicate FitsAlone(lim: Limits, m: Measured) {
    m.tokens <= lim.paddedTokens && m.tokens * m.tokens <= lim.attentionCells
  }

  lemma {:induction false} MaxTokensBounds(batch: seq<Measured>)
    requires forall m | m in batch :: m.tokens >= 0
    ensures MaxTokens(batch) >= 0
    ensures forall m | m in batch :: m.tokens <= MaxTokens(batch)
    ensures batch != [] ==> exists m | m in batch :: m.tokens == MaxTokens(batch)
  {
    if batch != [] {
      var n := |batch| - 1;
      assert forall m | m in batch :: m in batch[..n] || m == batch[n];
      MaxTokensBounds(batch[..n]);
      assert batch[n] in batch;
    }
  }

  lemma Times(a: int, b: int, c: int)
    requires a <= b && 0 <= c
    ensures a * c <= b * c
  {
  }

  lemma WithinShrinks(lim: Limits, size: int, tokens: int, smaller: int, fewer: int)
    requires Within(lim, size, tokens)
    requires 0 <= smaller <= size && 0 <= fewer <= tokens
    ensures Within(lim, smaller, fewer)
  {
    Times(smaller, size, fewer);
    Times(fewer, tokens, size);
    Times(smaller * fewer, size * tokens, fewer);
    Times(0, size, tokens);
    Times(fewer, tokens, size * tokens);
  }

  // ---------------------------------------------------------------- the plan

  /** Greedy packing of sorted items, current being the batch that is open. */
  function Pack(lim: Limits, current: seq<Measured>, rest: seq<Measured>): seq<seq<Measured>>
    decreases |rest|
  {
    if rest == [] then (if current == [] then [] else [current])
    else if current != []
         && !Within(lim, |current| + 1, Max(MaxTokens(current), rest[0].tokens)) then
      [current] + Pack(lim, [rest[0]], rest[1..])
    else
      Pack(lim, current + [rest[0]], rest[1..])
  }

  function Flatten<T>(batches: seq<seq<T>>): seq<T> {
    if batches == [] then [] else batches[0] + Flatten(batches[1..])
  }

  function Measure(count: (string, string) -> int, items: seq<ScoreItem>): seq<Measured> {
    seq(|items|, i requires 0 <= i < |items| =>
      Measured(items[i], count(items[i].evidence, items[i].claim)))
  }

  predicate InRange(tokens: int) {
    1 <= tokens <= MODEL_MAX_INPUT_TOKENS
  }

  function Sorted(measured: seq<Measured>): seq<Measured> {
    Sort(KeyLeq, measured)
  }

  function FirstOutOfRange(measured: seq<Measured>): Option<Measured> {
    if measured == [] then None
    else if !InRange(measured[0].tokens) then Some(measured[0])
    else FirstOutOfRange(measured[1..])
  }

  /** The plan, or why there is none. */
  function Plan(lim: Limits, measured: seq<Measured>): Result<seq<seq<Measured>>, ScoreError> {
    var bad := FirstOutOfRange(measured);
    var sorted := Sorted(measured);
    if bad.Some? then Err(TokenRange(bad.value.item.id))
    else if sorted != [] && !FitsAlone(lim, sorted[0]) then Err(MemoryBudget(sorted[0].item.id))
    else Ok(Pack(lim, [], sorted))
  }

  predicate AllInRange(measured: seq<Measured>) {
    forall m | m in measured :: InRange(m.tokens)
  }

  lemma {:induction false} NoneOutOfRange(measured: seq<Measured>)
    ensures FirstOutOfRange(measured).None? <==> AllInRange(measured)
  {
    if measured != [] {
      NoneOutOfRange(measured[1..]);
      assert forall m | m in measured :: m == measured[0] || m in measured[1..];
      assert measured[0] in measured;
    }
  }

  lemma SortedFacts(measured: seq<Measured>)
    ensures multiset(Sorted(measured)) == multiset(measured) && |Sorted(measured)| == |measured|
    ensures SortedBy(KeyLeq, Sorted(measured))
    ensures AllInRange(measured) ==> AllInRange(Sorted(measured))
  {
    KeyOrder();
    SortSorts(KeyLeq, measured);
    SortPermutes(KeyLeq, measured);
    SortKeepsElements(KeyLeq, measured);
  }

  // ---------------------------------------------- the plan divides the items

  lemma {:induction false} PackDivides(lim: Limits, current: seq<Measured>, rest: seq<Measured>)
    ensures Flatten(Pack(lim, current, rest)) == current + rest
    ensures forall b | b in Pack(lim, current, rest) :: b != []
    decreases |rest|
  {
    if rest == [] {
      if current != [] {
        assert Flatten([current]) == current + Flatten<Measured>([]);
      }
    } else if current != []
              && !Within(lim, |current| + 1, Max(MaxTokens(current), rest[0].tokens)) {
      PackDivides(lim, [rest[0]], rest[1..]);
      var tail := Pack(lim, [rest[0]], rest[1..]);
      assert ([current] + tail)[1..] == tail;
      assert [rest[0]] + rest[1..] == rest;
    } else {
      PackDivides(lim, current + [rest[0]], rest[1..]);
      assert current + [rest[0]] + rest[1..] == current + rest;
    }
  }

  /** Every batch with at least two items obeys the three limits. */
  lemma {:induction false} PackRespectsLimits(lim: Limits, current: seq<Measured>, rest: seq<Measured>)
    requires |current| <= 1 || Feasible(lim, current)
    ensures forall b | b in Pack(lim, current, rest) :: |b| <= 1 || Feasible(lim, b)
    decreases |rest|
  {
    if rest != [] {
      if current != []
         && !Within(lim, |current| + 1, Max(MaxTokens(current), rest[0].tokens)) {
        PackRespectsLimits(lim, [rest[0]], rest[1..]);
      } else {
        var longer := current + [rest[0]];
        assert longer[..|longer| - 1] == current;
        PackRespectsLimits(lim, longer, rest[1..]);
      }
    }
  }

  lemma {:induction false} FlattenMember<T>(batches: seq<seq<T>>, x: T)
    ensures x in Flatten(batches) <==> exists b | b in batches :: x in b
  {
    if batches != [] {
      FlattenMember(batches[1..], x);
      if b :| b in batches && x in b {
        assert b == batches[0] || b in batches[1..];
      }
      if b :| b in batches[1..] && x in b {
        assert b in batches;
      }
      assert batches[0] in batches;
    }
  }

  /** A plan is a division of the items, in (tokens, id) order, into batches of
      which every one that holds two items or more obeys the three limits. */
  lemma PlanIsPartition(lim: Limits, measured: seq<Measured>)
    requires Plan(lim, measured).Ok?
    ensures var batches := Plan(lim, measured).value;
      && Flatten(batches) == Sorted(measured)
      && SortedBy(KeyLeq, Flatten(batches))
      && multiset(Flatten(batches)) == multiset(measured)
      && (forall b | b in batches :: b != [] && (|b| == 1 || Feasible(lim, b)))
  {
    SortedFacts(measured);
    PackDivides(lim, [], Sorted(measured));
    PackRespectsLimits(lim, [], Sorted(measured));
    assert [] + Sorted(measured) == Sorted(measured);
  }

  /** A batch obeys the limits only if each of its items would alone. */
  lemma FeasibleMembersFit(lim: Limits, batch: seq<Measured>)
    requires Feasible(lim, batch) && AllInRange(batch)
    ensures forall m | m in batch :: FitsAlone(lim, m)
  {
    MaxTokensBounds(batch);
    forall m | m in batch
      ensures FitsAlone(lim, m)
    {
      WithinShrinks(lim, |batch|, MaxTokens(batch), 1, m.tokens);
    }
  }

  /** Items that a batch of one may hold. */
  predicate EachFitsAlone(lim: Limits, measured: seq<Measured>) {
    forall m | m in measured :: FitsAlone(lim, m)
  }

  lemma PlanMembers(lim: Limits, measured: seq<Measured>, m: Measured)
    requires Plan(lim, measured).Ok?
    ensures m in measured <==> exists b | b in Plan(lim, measured).value :: m in b
  {
    var batches := Plan(lim, measured).value;
    PlanIsPartition(lim, measured);
    FlattenMember(batches, m);
    assert m in measured <==> m in multiset(measured);
    assert m in Flatten(batches) <==> m in multiset(Flatten(batches));
  }

  lemma FeasiblePlanFits(lim: Limits, measured: seq<Measured>)
    requires Plan(lim, measured).Ok?
    requires forall b | b in Plan(lim, measured).value :: Feasible(lim, b)
    ensures EachFitsAlone(lim, measured)
  {
    NoneOutOfRange(measured);
    forall m | m in measured
      ensures FitsAlone(lim, m)
    {
      PlanMembers(lim, measured, m);
      var b :| b in Plan(lim, measured).value && m in b;
      forall x | x in b
        ensures InRange(x.tokens)
      {
        PlanMembers(lim, measured, x);
      }
      FeasibleMembersFit(lim, b);
    }
  }

  lemma FittingPlanIsFeasible(lim: Limits, measured: seq<Measured>)
    requires lim.batchSize >= 1 && Plan(lim, measured).Ok?
    requires EachFitsAlone(lim, measured)
    ensures forall b | b in Plan(lim, measured).value :: Feasible(lim, b)
  {
    PlanIsPartition(lim, measured);
    NoneOutOfRange(measured);
    forall b: seq<Measured> | b in Plan(lim, measured).value
      ensures Feasible(lim, b)
    {
      assert b[0] in b;
      PlanMembers(lim, measured, b[0]);
      assert |b| == 1 ==> MaxTokens(b) == Max(MaxTokens(b[..0]), b[0].tokens);
    }
  }

  /** The memory check runs on the first item of the first batch only.  So a
      plan obeys all limits exactly when every item fits alone; an item that
      does not, but is not the smallest, gets an oversized batch of its own. */
  lemma LimitsHoldIffEachFits(lim: Limits, measured: seq<Measured>)
    requires lim.batchSize >= 1 && Plan(lim, measured).Ok?
    ensures (forall b | b in Plan(lim, measured).value :: Feasible(lim, b))
        <==> EachFitsAlone(lim, measured)
  {
    if forall b | b in Plan(lim, measured).value :: Feasible(lim, b) {
      FeasiblePlanFits(lim, measured);
    }
    if EachFitsAlone(lim, measured) {
      FittingPlanIsFeasible(lim, measured);
    }
  }

  lemma OversizedBatchExists()
    ensures var lim := Limits(20, 10, 1_000_000);
      var small := Measured(ScoreItem("a", "", ""), 1);
      var large := Measured(ScoreItem("b", "", ""), 100);
      && Plan(lim, [small, large]) == Ok([[small], [large]])
      && !Feasible(lim, [large])
      && Plan(lim, [large]) == Err(MemoryBudget("b"))
  {
    var lim := Limits(20, 10, 1_000_000);
    var small := Measured(ScoreItem("a", "", ""), 1);
    var large := Measured(ScoreItem("b", "", ""), 100);
    var both := [small, large];
    assert both[1..] == [large] && [large][1..] == [];
    assert Sorted([large]) == Insert(KeyLeq, large, Sorted([])) == [large];
    assert Sorted(both) == Insert(KeyLeq, small, Sorted([large])) == both;
    assert MaxTokens([small]) == 1 by {
      assert [small][..0] == [];
    }
    assert Pack(lim, [], both) == Pack(lim, [small], [large]);
    assert Pack(lim, [small], [large]) == [[small]] + Pack(lim, [large], []);
    assert MaxTokens([large]) == 100 by {
      assert [large][..0] == [];
    }
    assert FirstOutOfRange(both) == FirstOutOfRange([large]) == FirstOutOfRange([]) == None;
    assert Pack(lim, [large], []) == [[large]];
    assert [[small]] + [[large]] == [[small], [large]];
    assert FitsAlone(lim, both[0]);
    assert Plan(lim, both) == Ok(Pack(lim, [], both));
    assert Plan(lim, [large]) == Err(MemoryBudget("b"));
    assert !Within(lim, 1, 100);
  }

  /** Planning gives up on memory exactly when no item at all fits alone. */
  lemma MemoryErrorIffNoneFits(lim: Limits, measured: seq<Measured>)
    requires AllInRange(measured) && measured != []
    ensures Plan(lim, measured).Err? <==> forall m | m in measured :: !FitsAlone(lim, m)
  {
    NoneOutOfRange(measured);
    SortedFacts(measured);
    SortKeepsElements(KeyLeq, measured);
    var sorted := Sorted(measured);
    assert sorted[0] in sorted;
    if !FitsAlone(lim, sorted[0]) {
      forall m | m in measured
        ensures !FitsAlone(lim, m)
      {
        var j :| 0 <= j < |sorted| && sorted[j] == m;
        Times(sorted[0].tokens, m.tokens, sorted[0].tokens);
        Times(sorted[0].tokens, m.tokens, m.tokens);
      }
    }
  }

  // ---------------------------------------------- what the planner's terms mean

  /** Ids are compared character by character. */
  lemma {:induction false} StringLeqExactlyWhen(a: string, b: string)
    ensures StringLeq(a, b) <==> a <= b || exists k :: FirstLess(a, b, k)
  {
    if a != [] && b != [] && a[0] == b[0] {
      StringLeqExactlyWhen(a[1..], b[1..]);
      assert a <= b <==> a[1..] <= b[1..];
      forall k
        ensures FirstLess(a[1..], b[1..], k) <==> k >= 0 && FirstLess(a, b, k + 1)
      {
        FirstLessStep(a, b, k);
      }
      if k :| FirstLess(a, b, k) {
        assert FirstLess(a[1..], b[1..], k - 1);
      }
    } else if a != [] && b != [] {
      assert FirstLess(a, b, 0) <==> a[0] < b[0];
    }
  }

  ghost predicate FirstLess(a: string, b: string, k: int) {
    0 <= k < |a| && k < |b| && a[..k] == b[..k] && a[k] < b[k]
  }

  lemma FirstLessStep(a: string, b: string, k: int)
    requires a != [] && b != [] && a[0] == b[0]
    ensures FirstLess(a[1..], b[1..], k) <==> k >= 0 && FirstLess(a, b, k + 1)
  {
    if 0 <= k < |a| - 1 && k < |b| - 1 {
      assert a[..k + 1] == [a[0]] + a[1..][..k] && b[..k + 1] == [b[0]] + b[1..][..k];
      assert a[..k + 1][1..] == a[1..][..k] && b[..k + 1][1..] == b[1..][..k];
    }
  }

  /** Shorter items come first, and those of one length by their ids. */
  ghost predicate InTokenOrder(s: seq<Measured>) {
    forall i, j | 0 <= i < j < |s| ::
      s[i].tokens < s[j].tokens || (s[i].tokens == s[j].tokens && StringLeq(s[i].item.id, s[j].item.id))
  }

  lemma PlanIsInTokenOrder(lim: Limits, measured: seq<Measured>)
    requires Plan(lim, measured).Ok?
    ensures InTokenOrder(Flatten(Plan(lim, measured).value))
  {
    PlanIsPartition(lim, measured);
  }

  /** A batch is within the limits exactly if it has no more items than allowed,
      and padded to any of its items it has no more tokens and attention cells. */
  lemma FeasibleExactlyWhen(lim: Limits, batch: seq<Measured>)
    requires batch != [] && forall m | m in batch :: m.tokens >= 0
    ensures Feasible(lim, batch) <==>
            && |batch| <= lim.batchSize
            && forall m | m in batch ::
                 && |batch| * m.tokens <= lim.paddedTokens
                 && |batch| * m.tokens * m.tokens <= lim.attentionCells
  {
    MaxTokensBounds(batch);
    if Feasible(lim, batch) {
      forall m | m in batch
        ensures |batch| * m.tokens <= lim.paddedTokens && |batch| * m.tokens * m.tokens <= lim.attentionCells
      {
        WithinShrinks(lim, |batch|, MaxTokens(batch), |batch|, m.tokens);
      }
    }
  }

  /** Whether the model takes an item, by the tokens of its evidence and claim. */
  ghost predicate Takes(count: (string, string) -> int, x: ScoreItem) {
    1 <= count(x.evidence, x.claim) <= 4_096
  }

  /** The first item that the model does not take. */
  ghost predicate IsFirstBad(count: (string, string) -> int, items: seq<ScoreItem>, i: int) {
    && 0 <= i < |items| && !Takes(count, items[i])
    && forall j | 0 <= j < i :: Takes(count, items[j])
  }

  lemma {:induction false} FirstBadIsFound(count: (string, string) -> int, items: seq<ScoreItem>)
    ensures FirstOutOfRange(Measure(count, items)).None? <==> forall i | 0 <= i < |items| :: Takes(count, items[i])
    ensures FirstOutOfRange(Measure(count, items)).Some? ==>
              exists i :: IsFirstBad(count, items, i)
                          && items[i].id == FirstOutOfRange(Measure(count, items)).value.item.id
  {
    if items != [] {
      var measured := Measure(count, items);
      assert measured[1..] == Measure(count, items[1..]);
      if Takes(count, items[0]) {
        FirstBadIsFound(count, items[1..]);
        assert forall i | 1 <= i < |items| :: items[i] == items[1..][i - 1];
        if FirstOutOfRange(measured).Some? {
          var i :| IsFirstBad(count, items[1..], i)
                   && items[1..][i].id == FirstOutOfRange(measured[1..]).value.item.id;
          assert IsFirstBad(count, items, i + 1);
        }
      } else {
        assert IsFirstBad(count, items, 0);
      }
    }
  }

  /** Planning fails exactly for an item the model does not take, the first of
      which it names, or when not one item fits into the memory limits alone. */
  lemma PlanFailsExactlyWhen(lim: Limits, count: (string, string) -> int, items: seq<ScoreItem>)
    ensures var plan := Plan(lim, Measure(count, items));
      && (plan.Err? && plan.error.TokenRange? <==> exists i :: 0 <= i < |items| && !Takes(count, items[i]))
      && (plan.Err? && plan.error.TokenRange? ==>
            exists i :: IsFirstBad(count, items, i) && items[i].id == plan.error.id)
      && (plan.Err? && !plan.error.TokenRange? <==>
            && items != [] && (forall i | 0 <= i < |items| :: Takes(count, items[i]))
            && forall i | 0 <= i < |items| ::
                 var tokens := count(items[i].evidence, items[i].claim);
                 tokens > lim.paddedTokens || tokens * tokens > lim.attentionCells)
  {
    var measured := Measure(count, items);
    FirstBadIsFound(count, items);
    NoneOutOfRange(measured);
    if AllInRange(measured) && items != [] {
      MemoryErrorIffNoneFits(lim, measured);
      NoneFitsExactlyWhen(lim, count, items);
    }
    SortedFacts(measured);
  }

  lemma NoneFitsExactlyWhen(lim: Limits, count: (string, string) -> int, items: seq<ScoreItem>)
    ensures (forall m | m in Measure(count, items) :: !FitsAlone(lim, m)) <==>
            forall i | 0 <= i < |items| ::
              var tokens := count(items[i].evidence, items[i].claim);
              tokens > lim.paddedTokens || tokens * tokens > lim.attentionCells
  {
    var measured := Measure(count, items);
    forall i | 0 <= i < |items|
      ensures measured[i] in measured && measured[i].tokens == count(items[i].evidence, items[i].claim)
    {
    }
    forall m | m in measured
      ensures exists i :: 0 <= i < |items| && measured[i] == m && m.tokens == count(items[i].evidence, items[i].claim)
    {
      var i :| 0 <= i < |measured| && measured[i] == m;
    }
  }

  /** What goes to the model at once: one item, or some that obey the limits. */
  lemma PlannedBatchesFit(
    lim: Limits, count: (string, string) -> int, items: seq<ScoreItem>, batch: seq<ScoreItem>)
    requires Plan(lim, Measure(count, items)).Ok? && batch in BatchItems(Plan(lim, Measure(count, items)).value)
    ensures batch != []
    ensures |batch| == 1 || |batch| <= lim.batchSize
    ensures |batch| == 1 || forall x | x in batch ::
              && |batch| * count(x.evidence, x.claim) <= lim.paddedTokens
              && |batch| * count(x.evidence, x.claim) * count(x.evidence, x.claim) <= lim.attentionCells
  {
    var measured := Measure(count, items);
    var batches := Plan(lim, measured).value;
    var k :| 0 <= k < |batches| && BatchItems(batches)[k] == batch;
    var b := batches[k];
    assert b in batches;
    PlanIsPartition(lim, measured);
    NoneOutOfRange(measured);
    forall m | m in b
      ensures m.tokens == count(m.item.evidence, m.item.claim) && m.tokens >= 0
    {
      PlanMembers(lim, measured, m);
      var i :| 0 <= i < |measured| && measured[i] == m;
    }
    FeasibleExactlyWhen(lim, b);
    forall x | x in batch
      ensures exists m | m in b :: m.item == x
    {
      var i :| 0 <= i < |batch| && batch[i] == x;
      assert b[i] in b;
    }
  }

  /** Scores are usable exactly if there is one for each pair sent, between 0 and 1. */
  lemma UsableExactlyWhen(
    predict: seq<(string, string)> -> seq<real>, batch: seq<ScoreItem>, sent: seq<(string, string)>)
    requires |sent| == |batch| && forall j | 0 <= j < |batch| :: sent[j] == (batch[j].evidence, batch[j].claim)
    ensures Usable(predict, batch) <==>
            |predict(sent)| == |batch| && forall j | 0 <= j < |batch| :: 0.0 <= predict(sent)[j] <= 1.0
  {
    assert sent == Pairs(batch);
  }

  // ------------------------------------------ no division has fewer batches

  predicate MaxLeq(a: seq<Measured>, b: seq<Measured>) {
    MaxTokens(a) <= MaxTokens(b)
  }

  lemma {:induction false} FlattenAppend<T>(a: seq<seq<T>>, b: seq<seq<T>>)
    ensures Flatten(a + b) == Flatten(a) + Flatten(b)
  {
    if a == [] {
      assert a + b == b;
    } else {
      assert (a + b)[1..] == a[1..] + b;
      FlattenAppend(a[1..], b);
    }
  }

  lemma {:induction false} FlattenInsert(g: seq<Measured>, groups: seq<seq<Measured>>)
    ensures multiset(Flatten(Insert(MaxLeq, g, groups))) == multiset(g) + multiset(Flatten(groups))
  {
    if groups == [] || MaxLeq(g, groups[0]) {
      assert ([g] + groups)[1..] == groups;
    } else {
      var rest := Insert(MaxLeq, g, groups[1..]);
      FlattenInsert(g, groups[1..]);
      assert ([groups[0]] + rest)[1..] == rest;
    }
  }

  /** Putting groups in order of their longest item changes no group. */
  lemma {:induction false} FlattenSort(groups: seq<seq<Measured>>)
    ensures multiset(Flatten(Sort(MaxLeq, groups))) == multiset(Flatten(groups))
  {
    if groups != [] {
      FlattenSort(groups[1..]);
      FlattenInsert(groups[0], Sort(MaxLeq, groups[1..]));
    }
  }

  /** How many items the first b groups hold. */
  function Covered(groups: seq<seq<Measured>>, b: nat): nat
    requires b <= |groups|
  {
    |Flatten(groups[..b])|
  }

  lemma CoveredNext(groups: seq<seq<Measured>>, b: nat)
    requires b < |groups|
    ensures Covered(groups, b + 1) == Covered(groups, b) + |groups[b]|
  {
    assert groups[..b + 1] == groups[..b] + [groups[b]];
    FlattenAppend(groups[..b], [groups[b]]);
    assert Flatten([groups[b]]) == groups[b];
  }

  /** A division of sorted items into feasible groups, ordered by longest item. */
  ghost predicate Division(lim: Limits, sorted: seq<Measured>, groups: seq<seq<Measured>>) {
    && SortedBy(KeyLeq, sorted) && AllInRange(sorted)
    && SortedBy(MaxLeq, groups)
    && multiset(Flatten(groups)) == multiset(sorted)
    && forall g | g in groups :: Feasible(lim, g)
  }

  lemma DivisionMembers(lim: Limits, sorted: seq<Measured>, groups: seq<seq<Measured>>, g: seq<Measured>)
    requires Division(lim, sorted, groups) && g in groups
    ensures forall m | m in g :: m in sorted && m.tokens >= 1
  {
    forall m | m in g
      ensures m in sorted
    {
      FlattenMember(groups, m);
      assert m in multiset(Flatten(groups));
    }
  }

  lemma FirstGroupsNoLonger(lim: Limits, sorted: seq<Measured>, groups: seq<seq<Measured>>, b: nat)
    requires Division(lim, sorted, groups) && b < |groups|
    ensures forall m | m in Flatten(groups[..b + 1]) :: m.tokens <= MaxTokens(groups[b])
  {
    forall m | m in Flatten(groups[..b + 1])
      ensures m.tokens <= MaxTokens(groups[b])
    {
      FlattenMember(groups[..b + 1], m);
      var i :| 0 <= i <= b && m in groups[i];
      DivisionMembers(lim, sorted, groups, groups[i]);
      MaxTokensBounds(groups[i]);
      assert i < b ==> MaxLeq(groups[i], groups[b]);
    }
  }

  predicate TokensLeq(a: Measured, b: Measured) {
    a.tokens <= b.tokens
  }

  /** Exchange: whatever items the first b + 1 groups hold, at least as many
      leading items of the sorted list are no longer than the longest of them. */
  lemma PrefixNoLonger(lim: Limits, sorted: seq<Measured>, groups: seq<seq<Measured>>, b: nat)
    requires Division(lim, sorted, groups) && b < |groups| && Covered(groups, b + 1) > 0
    ensures Covered(groups, b + 1) <= |sorted|
    ensures sorted[Covered(groups, b + 1) - 1].tokens <= MaxTokens(groups[b])
  {
    var first := Flatten(groups[..b + 1]);
    var others := Flatten(groups[b + 1..]);
    assert groups == groups[..b + 1] + groups[b + 1..];
    FlattenAppend(groups[..b + 1], groups[b + 1..]);
    assert multiset(sorted) == multiset(first) + multiset(others);
    assert |multiset(sorted)| == |sorted|;
    FirstGroupsNoLonger(lim, sorted, groups, b);
    var longest := Measured(ScoreItem("", "", ""), MaxTokens(groups[b]));
    RankBound(TokensLeq, sorted, longest, multiset(first));
  }

  /** Greedy stays ahead: with b groups used up by the batches already closed,
      the batches still to come are at most as many as the groups left. */
  lemma {:induction false} StaysAhead(
    lim: Limits, sorted: seq<Measured>, groups: seq<seq<Measured>>,
    closed: seq<Measured>, current: seq<Measured>, rest: seq<Measured>, b: nat)
    requires Division(lim, sorted, groups)
    requires sorted == closed + current + rest && current != []
    requires b <= |groups| && Covered(groups, b) <= |closed|
    ensures |Pack(lim, current, rest)| <= |groups| - b
    decreases |rest|
  {
    assert |multiset(sorted)| == |multiset(Flatten(groups))|;
    assert groups[..|groups|] == groups;
    if rest != [] {
      if !Within(lim, |current| + 1, Max(MaxTokens(current), rest[0].tokens)) {
        FlushOutlastsGroup(lim, sorted, groups, closed, current, rest, b);
        assert sorted == closed + current + [rest[0]] + rest[1..];
        StaysAhead(lim, sorted, groups, closed + current, [rest[0]], rest[1..], b + 1);
      } else {
        assert sorted == closed + (current + [rest[0]]) + rest[1..];
        StaysAhead(lim, sorted, groups, closed, current + [rest[0]], rest[1..], b);
      }
    }
  }

  lemma OpenBatchNoLonger(closed: seq<Measured>, current: seq<Measured>, rest: seq<Measured>)
    requires SortedBy(KeyLeq, closed + current + rest) && AllInRange(closed + current + rest)
    requires current != [] && rest != []
    ensures 0 <= MaxTokens(current) <= rest[0].tokens
  {
    var all := closed + current + rest;
    assert all[|closed| + |current|] == rest[0];
    assert rest[0] in all;
    forall m | m in current
      ensures 0 <= m.tokens <= rest[0].tokens
    {
      var j :| 0 <= j < |current| && current[j] == m;
      assert all[|closed| + j] == m;
      assert m in all;
    }
    MaxTokensBounds(current);
  }

  /** When the planner closes a batch, it has covered at least one more group. */
  lemma {:induction false} FlushOutlastsGroup(
    lim: Limits, sorted: seq<Measured>, groups: seq<seq<Measured>>,
    closed: seq<Measured>, current: seq<Measured>, rest: seq<Measured>, b: nat)
    requires Division(lim, sorted, groups)
    requires sorted == closed + current + rest && current != [] && rest != []
    requires b < |groups| && Covered(groups, b) <= |closed|
    requires !Within(lim, |current| + 1, Max(MaxTokens(current), rest[0].tokens))
    ensures Covered(groups, b + 1) <= |closed| + |current|
  {
    OpenBatchNoLonger(closed, current, rest);
    if Covered(groups, b + 1) > |closed| + |current| {
      CoveredNext(groups, b);
      assert sorted[|closed| + |current|] == rest[0];
      CoveredNoLonger(lim, sorted, groups, b, |closed| + |current|);
      assert groups[b] in groups;
      WithinShrinks(lim, |groups[b]|, MaxTokens(groups[b]), |current| + 1, rest[0].tokens);
    }
  }

  lemma CoveredNoLonger(lim: Limits, sorted: seq<Measured>, groups: seq<seq<Measured>>, b: nat, at: nat)
    requires Division(lim, sorted, groups) && b < |groups| && at < Covered(groups, b + 1)
    ensures at < |sorted| && sorted[at].tokens <= MaxTokens(groups[b])
  {
    PrefixNoLonger(lim, sorted, groups, b);
    var last := Covered(groups, b + 1) - 1;
    assert at < last ==> KeyLeq(sorted[at], sorted[last]);
  }

  lemma DividedItemsFit(lim: Limits, measured: seq<Measured>, groups: seq<seq<Measured>>)
    requires AllInRange(measured)
    requires multiset(Flatten(groups)) == multiset(measured)
    requires forall g | g in groups :: Feasible(lim, g)
    ensures EachFitsAlone(lim, measured)
  {
    forall m | m in measured
      ensures FitsAlone(lim, m)
    {
      assert m in multiset(Flatten(groups));
      FlattenMember(groups, m);
      var g :| g in groups && m in g;
      forall x | x in g
        ensures InRange(x.tokens)
      {
        FlattenMember(groups, x);
        assert x in multiset(Flatten(groups));
      }
      FeasibleMembersFit(lim, g);
    }
  }

  /** The planner is optimal: no division of the same items into groups that
      obey the three limits has fewer groups, however the items are spread over
      the groups.  (Where there is such a division every item fits alone.) */
  lemma {:induction false} PlanIsOptimal(lim: Limits, measured: seq<Measured>, groups: seq<seq<Measured>>)
    requires AllInRange(measured)
    requires multiset(Flatten(groups)) == multiset(measured)
    requires forall g | g in groups :: Feasible(lim, g)
    ensures EachFitsAlone(lim, measured) && Plan(lim, measured).Ok?
    ensures |Plan(lim, measured).value| <= |groups|
  {
    DividedItemsFit(lim, measured, groups);
    NoneOutOfRange(measured);
    SortedFacts(measured);
    if measured != [] {
      MemoryErrorIffNoneFits(lim, measured);
      assert measured[0] in measured;
      OrderedDivision(lim, measured, groups);
      SortPermutes(MaxLeq, groups);
      PackNeedsFewest(lim, Sorted(measured), Sort(MaxLeq, groups));
    }
  }

  lemma PackNeedsFewest(lim: Limits, sorted: seq<Measured>, groups: seq<seq<Measured>>)
    requires Division(lim, sorted, groups) && sorted != []
    ensures |Pack(lim, [], sorted)| <= |groups|
  {
    assert sorted == [] + [sorted[0]] + sorted[1..];
    StaysAhead(lim, sorted, groups, [], [sorted[0]], sorted[1..], 0);
    assert [] + [sorted[0]] == [sorted[0]];
  }

  lemma {:induction false} OrderedDivision(lim: Limits, measured: seq<Measured>, groups: seq<seq<Measured>>)
    requires AllInRange(measured)
    requires multiset(Flatten(groups)) == multiset(measured)
    requires forall g | g in groups :: Feasible(lim, g)
    ensures Division(lim, Sorted(measured), Sort(MaxLeq, groups))
  {
    SortedFacts(measured);
    SortSorts(MaxLeq, groups);
    SortKeepsElements(MaxLeq, groups);
    FlattenSort(groups);
  }

  // -------------------------------------------------------------- the scorer

  /** One result per request item: its probability, or None where the item has
      more tokens than the model takes. */
  datatype ScoreResult = ScoreResult(id: string, probability: Option<real>)

  function Items(batch: seq<Measured>): seq<ScoreItem> {
    seq(|batch|, i requires 0 <= i < |batch| => batch[i].item)
  }

  function BatchItems(batches: seq<seq<Measured>>): seq<seq<ScoreItem>> {
    seq(|batches|, i requires 0 <= i < |batches| => Items(batches[i]))
  }

  function Pairs(items: seq<ScoreItem>): seq<(string, string)> {
    seq(|items|, i requires 0 <= i < |items| => (items[i].evidence, items[i].claim))
  }

  predicate UsableScores(scores: seq<real>, expected: nat) {
    |scores| == expected && forall i | 0 <= i < |scores| :: 0.0 <= scores[i] <= 1.0
  }

  ghost predicate DistinctIds(items: seq<ScoreItem>) {
    forall i, j | 0 <= i < j < |items| :: items[i].id != items[j].id
  }

  /** The model gave item that score, when it saw the batch numbered b. */
  predicate ScoredIn(
    predict: seq<(string, string)> -> seq<real>, batch: seq<ScoreItem>, item: ScoreItem, score: real)
  {
    var scores := predict(Pairs(batch));
    |scores| == |batch| && exists j | 0 <= j < |batch| :: batch[j] == item && scores[j] == score
  }

  predicate Scored(
    predict: seq<(string, string)> -> seq<real>, batches: seq<seq<ScoreItem>>, item: ScoreItem, score: real)
  {
    exists b | 0 <= b < |batches| :: ScoredIn(predict, batches[b], item, score)
  }

  /** A model that judges every pair of evidence and claim by itself. */
  ghost predicate JudgesPairs(predict: seq<(string, string)> -> seq<real>, judge: (string, string) -> real) {
    forall pairs: seq<(string, string)> ::
      && |predict(pairs)| == |pairs|
      && forall j | 0 <= j < |pairs| :: predict(pairs)[j] == judge(pairs[j].0, pairs[j].1)
  }

  /** The score of an item is the judgement on its own evidence and claim, in
      this order, whatever batch it was in. */
  lemma ScoredIsJudged(
    predict: seq<(string, string)> -> seq<real>, judge: (string, string) -> real, batches: seq<seq<ScoreItem>>,
    item: ScoreItem, score: real)
    requires JudgesPairs(predict, judge) && Scored(predict, batches, item, score)
    ensures score == judge(item.evidence, item.claim)
  {
    var b :| 0 <= b < |batches| && ScoredIn(predict, batches[b], item, score);
    var j :| 0 <= j < |batches[b]| && batches[b][j] == item && predict(Pairs(batches[b]))[j] == score;
    assert Pairs(batches[b])[j] == (item.evidence, item.claim);
  }

  predicate Usable(predict: seq<(string, string)> -> seq<real>, batch: seq<ScoreItem>) {
    UsableScores(predict(Pairs(batch)), |batch|)
  }

  function Scorable(count: (string, string) -> int, items: seq<ScoreItem>): seq<ScoreItem> {
    if items == [] then []
    else (if count(items[0].evidence, items[0].claim) > MODEL_MAX_INPUT_TOKENS then [] else [items[0]])
         + Scorable(count, items[1..])
  }

  lemma {:induction false} ScorableMembers(count: (string, string) -> int, items: seq<ScoreItem>)
    ensures forall x :: x in Scorable(count, items)
              <==> x in items && count(x.evidence, x.claim) <= MODEL_MAX_INPUT_TOKENS
  {
    if items != [] {
      ScorableMembers(count, items[1..]);
      assert forall x :: x in items <==> x == items[0] || x in items[1..];
    }
  }

  lemma {:induction false} ScorableStep(count: (string, string) -> int, items: seq<ScoreItem>, i: nat)
    requires i < |items|
    ensures Scorable(count, items[..i + 1])
         == Scorable(count, items[..i]) + Scorable(count, [items[i]])
  {
    if i == 0 {
      assert items[..1] == [items[0]] && items[..0] == [];
    } else {
      assert items[..i + 1][1..] == items[1..][..i];
      assert items[..i][1..] == items[1..][..i - 1];
      ScorableStep(count, items[1..], i - 1);
    }
  }

  lemma PlannedItems(lim: Limits, count: (string, string) -> int, items: seq<ScoreItem>, x: ScoreItem)
    requires Plan(lim, Measure(count, items)).Ok?
    ensures x in items
        <==> exists b | b in BatchItems(Plan(lim, Measure(count, items)).value) :: x in b
  {
    var measured := Measure(count, items);
    var batches := Plan(lim, measured).value;
    var m := Measured(x, count(x.evidence, x.claim));
    if x in items {
      var i :| 0 <= i < |items| && items[i] == x;
      assert measured[i] == m;
      PlanMembers(lim, measured, m);
      var k, j :| 0 <= k < |batches| && 0 <= j < |batches[k]| && batches[k][j] == m;
      assert BatchItems(batches)[k][j] == x;
      assert BatchItems(batches)[k] in BatchItems(batches);
    }
    if b :| b in BatchItems(batches) && x in b {
      var k, j :| 0 <= k < |batches| && 0 <= j < |batches[k]| && batches[k][j].item == x;
      assert batches[k] in batches && batches[k][j] in batches[k];
      PlanMembers(lim, measured, batches[k][j]);
    }
  }

  class ModelScorer {
    const countTokens: (string, string) -> int
    const predict: seq<(string, string)> -> seq<real>
    const lim: Limits

    constructor (
      countTokens: (string, string) -> int, predict: seq<(string, string)> -> seq<real>, lim: Limits)
      requires lim.batchSize >= 1 && lim.paddedTokens >= 1 && lim.attentionCells >= 1
      ensures this.countTokens == countTokens && this.predict == predict && this.lim == lim
    {
      this.countTokens, this.predict, this.lim := countTokens, predict, lim;
    }

    /** Scores a request whose ids the decoder has found distinct.  The answer
        has one result per item in request order, each carrying the score the
        model gave to that very item. */
    method Score(items: seq<ScoreItem>) returns (r: Result<seq<ScoreResult>, ScoreError>)
      requires lim.batchSize >= 1 && DistinctIds(items)
      ensures var plan := Plan(lim, Measure(countTokens, Scorable(countTokens, items)));
        && (r.Err? <==> plan.Err? || exists b | b in BatchItems(plan.value) :: !Usable(predict, b))
        && (plan.Err? ==> r == Err(plan.error))
        && (r.Ok? ==>
              && |r.value| == |items|
              && forall i | 0 <= i < |items| ::
                   && r.value[i].id == items[i].id
                   && r.value[i].probability.None?
                        == (countTokens(items[i].evidence, items[i].claim) > MODEL_MAX_INPUT_TOKENS)
                   && (r.value[i].probability.Some? ==>
                         Scored(predict, BatchItems(plan.value), items[i], r.value[i].probability.value)))
      ensures r.Ok? ==> forall judge | JudgesPairs(predict, judge) ::
                forall i | 0 <= i < |items| && r.value[i].probability.Some? ::
                  r.value[i].probability.value == judge(items[i].evidence, items[i].claim)
    {
      var scorable, capacityFailures := SeparateItems(items);
      var planned := PlanBatches(scorable);
      if planned.Err? {
        return Err(planned.error);
      }
      var scoring := ScoreBatches(planned.value);
      if scoring.Err? {
        return Err(scoring.error);
      }
      EachItemScored(items, planned.value, scoring.value);
      var results := BuildResults(items, capacityFailures, scoring.value);
      forall judge, i | JudgesPairs(predict, judge) && 0 <= i < |items| && results[i].probability.Some?
        ensures results[i].probability.value == judge(items[i].evidence, items[i].claim)
      {
        ScoredIsJudged(predict, judge, planned.value, items[i], results[i].probability.value);
      }
      r := Ok(results);
    }

    /** Sets aside the items that are too long for the model. */
    method SeparateItems(items: seq<ScoreItem>) returns (scorable: seq<ScoreItem>, capacityFailures: set<string>)
      requires DistinctIds(items)
      ensures scorable == Scorable(countTokens, items)
      ensures forall k | 0 <= k < |items| ::
                items[k].id in capacityFailures
                <==> countTokens(items[k].evidence, items[k].claim) > MODEL_MAX_INPUT_TOKENS
    {
      scorable, capacityFailures := [], {};
      for i := 0 to |items|
        invariant scorable == Scorable(countTokens, items[..i])
        invariant forall k | 0 <= k < i ::
                    items[k].id in capacityFailures
                    <==> countTokens(items[k].evidence, items[k].claim) > MODEL_MAX_INPUT_TOKENS
        invariant forall id | id in capacityFailures :: exists k | 0 <= k < i :: items[k].id == id
      {
        ScorableStep(countTokens, items, i);
        if countTokens(items[i].evidence, items[i].claim) > MODEL_MAX_INPUT_TOKENS {
          capacityFailures := capacityFailures + {items[i].id};
        } else {
          scorable := scorable + [items[i]];
        }
      }
      assert items[..|items|] == items;
    }

    /** One result per item, in request order. */
    method BuildResults(items: seq<ScoreItem>, capacityFailures: set<string>, probabilityById: map<string, real>)
      returns (results: seq<ScoreResult>)
      requires forall i | 0 <= i < |items| :: items[i].id in capacityFailures || items[i].id in probabilityById
      ensures |results| == |items|
      ensures forall k | 0 <= k < |items| ::
                results[k] == ScoreResult(items[k].id,
                  if items[k].id in capacityFailures then None else Some(probabilityById[items[k].id]))
    {
      results := [];
      for i := 0 to |items|
        invariant |results| == i
        invariant forall k | 0 <= k < i ::
                    results[k] == ScoreResult(items[k].id,
                      if items[k].id in capacityFailures then None else Some(probabilityById[items[k].id]))
      {
        if items[i].id in capacityFailures {
          results := results + [ScoreResult(items[i].id, None)];
        } else {
          results := results + [ScoreResult(items[i].id, Some(probabilityById[items[i].id]))];
        }
      }
    }

    /** Runs the model on every batch and files each score under its item's id. */
    method ScoreBatches(batches: seq<seq<ScoreItem>>) returns (r: Result<map<string, real>, ScoreError>)
      ensures r.Err? <==> exists b | b in batches :: !Usable(predict, b)
      ensures r.Ok? ==> forall b, x | b in batches && x in b :: x.id in r.value
      ensures r.Ok? ==> forall id | id in r.value ::
                exists x: ScoreItem :: x.id == id && Scored(predict, batches, x, r.value[id])
    {
      var byId: map<string, real> := map[];
      for k := 0 to |batches|
        invariant forall b | b in batches[..k] :: Usable(predict, b)
        invariant forall b, x | b in batches[..k] && x in b :: x.id in byId
        invariant forall id | id in byId ::
                    exists x: ScoreItem :: x.id == id && Scored(predict, batches, x, byId[id])
      {
        var scores := predict(Pairs(batches[k]));
        if !UsableScores(scores, |batches[k]|) {
          assert batches[k] in batches && !Usable(predict, batches[k]);
          return Err(ModelOutput);
        }
        for j := 0 to |batches[k]|
          invariant forall b, x | b in batches[..k] && x in b :: x.id in byId
          invariant forall x | x in batches[k][..j] :: x.id in byId
          invariant forall id | id in byId ::
                      exists x: ScoreItem :: x.id == id && Scored(predict, batches, x, byId[id])
        {
          assert ScoredIn(predict, batches[k], batches[k][j], scores[j]);
          byId := byId[batches[k][j].id := scores[j]];
        }
        assert batches[k][..|batches[k]|] == batches[k];
        assert batches[..k + 1] == batches[..k] + [batches[k]];
      }
      assert batches[..|batches|] == batches;
      r := Ok(byId);
    }

    lemma EachItemScored(items: seq<ScoreItem>, batches: seq<seq<ScoreItem>>, byId: map<string, real>)
      requires DistinctIds(items)
      requires Plan(lim, Measure(countTokens, Scorable(countTokens, items))).Ok?
      requires batches == BatchItems(Plan(lim, Measure(countTokens, Scorable(countTokens, items))).value)
      requires forall b, x | b in batches && x in b :: x.id in byId
      requires forall id | id in byId ::
                 exists x: ScoreItem :: x.id == id && Scored(predict, batches, x, byId[id])
      ensures forall i | 0 <= i < |items|
                && countTokens(items[i].evidence, items[i].claim) <= MODEL_MAX_INPUT_TOKENS ::
                items[i].id in byId && Scored(predict, batches, items[i], byId[items[i].id])
    {
      var scorable := Scorable(countTokens, items);
      ScorableMembers(countTokens, items);
      forall i | 0 <= i < |items|
        && countTokens(items[i].evidence, items[i].claim) <= MODEL_MAX_INPUT_TOKENS
        ensures items[i].id in byId && Scored(predict, batches, items[i], byId[items[i].id])
      {
        PlannedItems(lim, countTokens, scorable, items[i]);
        var x: ScoreItem :| x.id == items[i].id && Scored(predict, batches, x, byId[items[i].id]);
        var b :| 0 <= b < |batches| && ScoredIn(predict, batches[b], x, byId[items[i].id]);
        assert batches[b] in batches;
        PlannedItems(lim, countTokens, scorable, x);
        assert x in items;
      }
    }

    method MeasureItems(items: seq<ScoreItem>) returns (r: Result<seq<Measured>, ScoreError>)
      ensures var all := Measure(countTokens, items);
        r == if FirstOutOfRange(all).Some? then Err(TokenRange(FirstOutOfRange(all).value.item.id))
             else Ok(all)
    {
      ghost var all := Measure(countTokens, items);
      var measured: seq<Measured> := [];
      for i := 0 to |items|
        invariant measured == all[..i]
        invariant FirstOutOfRange(all) == FirstOutOfRange(all[i..])
      {
        var tokens := countTokens(items[i].evidence, items[i].claim);
        assert all[i..][1..] == all[i + 1..];
        if !InRange(tokens) {
          return Err(TokenRange(items[i].id));
        }
        measured := measured + [Measured(items[i], tokens)];
      }
      assert all[..|items|] == all && all[|items|..] == [];
      r := Ok(measured);
    }

    method PlanBatches(items: seq<ScoreItem>) returns (r: Result<seq<seq<ScoreItem>>, ScoreError>)
      requires lim.batchSize >= 1
      ensures var plan := Plan(lim, Measure(countTokens, items));
        r == if plan.Err? then Err(plan.error) else Ok(BatchItems(plan.value))
    {
      var measuring := MeasureItems(items);
      if measuring.Err? {
        return Err(measuring.error);
      }
      NoneOutOfRange(measuring.value);
      SortedFacts(measuring.value);
      r := PackBatches(Sort(KeyLeq, measuring.value));
    }

    /** The packing loop, on measured items in their final order. */
    method PackBatches(measured: seq<Measured>) returns (r: Result<seq<seq<ScoreItem>>, ScoreError>)
      requires lim.batchSize >= 1 && AllInRange(measured)
      ensures r == if measured != [] && !FitsAlone(lim, measured[0])
                   then Err(MemoryBudget(measured[0].item.id))
                   else Ok(BatchItems(Pack(lim, [], measured)))
    {
      assert measured[0..] == measured;
      var batches: seq<seq<ScoreItem>> := [];
      var currentItems: seq<ScoreItem> := [];
      var currentMaxTokens := 0;
      ghost var closed: seq<seq<Measured>>, current: seq<Measured> := [], [];
      for i := 0 to |measured|
        invariant currentItems == Items(current) && batches == BatchItems(closed)
        invariant currentMaxTokens == MaxTokens(current)
        invariant closed + Pack(lim, current, measured[i..]) == Pack(lim, [], measured)
        invariant if i == 0 then current == [] else current != [] && FitsAlone(lim, measured[0])
      {
        var item, tokens := measured[i].item, measured[i].tokens;
        assert measured[i] in measured;
        var size := |currentItems| + 1;
        var longest := Max(currentMaxTokens, tokens);
        var exceedsMemory :=
          size * longest > lim.paddedTokens || size * longest * longest > lim.attentionCells;
        if currentItems == [] && exceedsMemory {
          return Err(MemoryBudget(item.id));
        }
        assert measured[i..][1..] == measured[i + 1..];
        if currentItems != [] && (size > lim.batchSize || exceedsMemory) {
          BatchClosed(closed, current);
          batches := batches + [currentItems];
          closed, current := closed + [current], [];
          currentItems, currentMaxTokens := [], 0;
        }
        ItemAdded(current, measured[i]);
        current := current + [measured[i]];
        currentItems := currentItems + [item];
        currentMaxTokens := Max(currentMaxTokens, tokens);
      }
      assert measured[|measured|..] == [];
      if currentItems != [] {
        BatchClosed(closed, current);
        batches := batches + [currentItems];
      }
      r := Ok(batches);
    }
  }

  lemma BatchClosed(closed: seq<seq<Measured>>, current: seq<Measured>)
    ensures BatchItems(closed + [current]) == BatchItems(closed) + [Items(current)]
  {
  }

  lemma ItemAdded(current: seq<Measured>, m: Measured)
    ensures MaxTokens(current + [m]) == Max(MaxTokens(current), m.tokens)
    ensures Items(current + [m]) == Items(current) + [m.item]
    ensures current == [] ==> current + [m] == [m]
  {
    assert (current + [m])[..|current|] == current;
  }
}
