/** Fitting retrieved evidence into the context of a model: evidence is taken
    in order of rank while it fits, then widened in the same order while that
    still fits. */
module ContextBudget {
  import opened Prelude

  datatype Configuration = Configuration(minimumOutputTokens: int, providerSafetyMarginTokens: int)

  /** The two forms in which a piece of evidence can be sent, each in parts. */
  datatype SourceContent = SourceContent(primary: seq<string>, expanded: Option<seq<string>>)

  datatype Item = Item(evidenceSha256: string, elementId: string, retrievalWindowId: string)

  datatype Decision = Decision(item: Item, included: bool, retrievalRank: nat, tokenUpperBound: nat)

  datatype Budget = Budget(
    availableInputTokens: int, decisions: seq<Decision>, expandedRetrievalWindowIds: seq<string>,
    inputTokenUpperBound: int, selected: seq<Item>)

  datatype BudgetError = InvalidConfiguration | SourcesDoNotMatch | MinimumStructuredOutput | NoCompleteEvidenceWindow

  function Tokens(count: string -> nat, content: seq<string>): nat {
    if content == [] then 0 else Tokens(count, content[..|content| - 1]) + count(content[|content| - 1])
  }

  method CountContentTokens(count: string -> nat, content: seq<string>) returns (tokens: nat)
    ensures tokens == Tokens(count, content)
  {
    tokens := 0;
    for i := 0 to |content|
      invariant tokens == Tokens(count, content[..i])
    {
      assert content[..i + 1][..i] == content[..i];
      tokens := tokens + count(content[i]);
    }
    assert content[..|content|] == content;
  }

  // ------------------------------------------------------------ what is chosen

  /** What the forms of a piece of evidence cost. */
  datatype Entry = Entry(primary: nat, expanded: Option<nat>) {
    /** By how much the wider form costs more, if there is one. */
    function Extra(): int { if expanded.None? then 0 else expanded.value - primary }
  }

  /** The entries in order of rank, the cost of everything else, and the limit. */
  datatype Request = Request(entries: seq<Entry>, fixed: nat, available: int)

  /** The cost after the first pass has been over n entries. */
  function FirstPass(r: Request, n: nat): int
    requires n <= |r.entries|
    decreases n, 0
  {
    if n == 0 then r.fixed
    else FirstPass(r, n - 1) + (if Picked(r, n - 1) then r.entries[n - 1].primary else 0)
  }

  /** An entry is taken if it fits beside those taken before it. */
  predicate Picked(r: Request, i: nat)
    requires i < |r.entries|
    decreases i, 1
  {
    FirstPass(r, i) + r.entries[i].primary <= r.available
  }

  /** The cost after the second pass has been over n entries. */
  function SecondPass(r: Request, n: nat): int
    requires n <= |r.entries|
    decreases n, 0
  {
    if n == 0 then FirstPass(r, |r.entries|)
    else SecondPass(r, n - 1) + (if Widened(r, n - 1) then r.entries[n - 1].Extra() else 0)
  }

  /** A taken entry is widened if that costs more and still fits. */
  predicate Widened(r: Request, i: nat)
    requires i < |r.entries|
    decreases i, 1
  {
    Picked(r, i) && r.entries[i].Extra() > 0 && SecondPass(r, i) + r.entries[i].Extra() <= r.available
  }

  lemma {:induction false} FirstPassGrows(r: Request, i: nat, n: nat)
    requires i <= n <= |r.entries|
    ensures FirstPass(r, i) <= FirstPass(r, n)
    ensures r.fixed <= r.available ==> FirstPass(r, n) <= r.available
  {
    if i < n {
      FirstPassGrows(r, i, n - 1);
    } else if n > 0 {
      FirstPassGrows(r, n - 1, n - 1);
    }
  }

  lemma {:induction false} SecondPassGrows(r: Request, i: nat, n: nat)
    requires i <= n <= |r.entries| && r.fixed <= r.available
    ensures FirstPass(r, |r.entries|) <= SecondPass(r, i) <= SecondPass(r, n) <= r.available
  {
    if i < n {
      SecondPassGrows(r, i, n - 1);
    } else if n > 0 {
      SecondPassGrows(r, n - 1, n - 1);
    } else {
      FirstPassGrows(r, |r.entries|, |r.entries|);
    }
  }

  /** What is sent of an entry. */
  function ChosenCost(r: Request, i: nat): nat
    requires i < |r.entries|
  {
    if !Picked(r, i) then 0
    else if Widened(r, i) && r.entries[i].expanded.Some? then r.entries[i].expanded.value
    else r.entries[i].primary
  }

  function ChosenTotal(r: Request, n: nat): nat
    requires n <= |r.entries|
  {
    if n == 0 then 0 else ChosenTotal(r, n - 1) + ChosenCost(r, n - 1)
  }

  lemma {:induction false} CostsAddUp(r: Request, n: nat)
    requires n <= |r.entries|
    ensures r.fixed + ChosenTotal(r, n)
         == FirstPass(r, n) + (SecondPass(r, n) - FirstPass(r, |r.entries|))
  {
    if n > 0 {
      CostsAddUp(r, n - 1);
    }
  }

  /** The final bound is the cost of exactly what is sent, it is within the
      limit, and the request cannot be extended: neither by an entry that was
      passed over nor by a wider form that was not taken. */
  lemma PlanIsMaximal(r: Request)
    requires r.fixed <= r.available
    ensures var bound := SecondPass(r, |r.entries|);
      && bound == r.fixed + ChosenTotal(r, |r.entries|) && bound <= r.available
      && (forall i | 0 <= i < |r.entries| && !Picked(r, i) :: bound + r.entries[i].primary > r.available)
      && (forall i | 0 <= i < |r.entries| && Picked(r, i) && !Widened(r, i) && r.entries[i].Extra() > 0 ::
            bound + r.entries[i].Extra() > r.available)
  {
    var n := |r.entries|;
    CostsAddUp(r, n);
    SecondPassGrows(r, n, n);
    forall i | 0 <= i < n
      ensures FirstPass(r, i) <= SecondPass(r, n) && SecondPass(r, i) <= SecondPass(r, n)
    {
      FirstPassGrows(r, i, n);
      SecondPassGrows(r, i, n);
    }
  }

  /** Nothing is taken exactly if no entry fits alone. */
  lemma {:induction false} NothingPicked(r: Request, n: nat)
    requires n <= |r.entries|
    ensures Indexes(r, n) == [] <==> forall i | 0 <= i < n :: r.fixed + r.entries[i].primary > r.available
    ensures Indexes(r, n) == [] ==> FirstPass(r, n) == r.fixed
  {
    if n > 0 {
      NothingPicked(r, n - 1);
    }
  }

  // ------------------------------------------------------------------ the passes

  /** The taken entries among the first n, in order. */
  function Indexes(r: Request, n: nat): (indexes: seq<nat>)
    requires n <= |r.entries|
    ensures forall k | 0 <= k < |indexes| :: indexes[k] < n && Picked(r, indexes[k])
  {
    if n == 0 then [] else Indexes(r, n - 1) + (if Picked(r, n - 1) then [n - 1] else [])
  }

  /** The widened entries among the first n, in order. */
  function WidenedIndexes(r: Request, n: nat): (indexes: seq<nat>)
    requires n <= |r.entries|
    ensures forall k | 0 <= k < |indexes| :: indexes[k] < n && Widened(r, indexes[k])
  {
    if n == 0 then [] else WidenedIndexes(r, n - 1) + (if Widened(r, n - 1) then [n - 1] else [])
  }

  function EntryOf(count: string -> nat, content: SourceContent): Entry {
    Entry(Tokens(count, content.primary),
          if content.expanded.None? then None else Some(Tokens(count, content.expanded.value)))
  }

  function RequestOf(count: string -> nat, contents: seq<SourceContent>, fixed: nat, available: int): (r: Request)
    ensures |r.entries| == |contents|
  {
    Request(seq(|contents|, i requires 0 <= i < |contents| => EntryOf(count, contents[i])), fixed, available)
  }

  method SelectPrimaries(
    count: string -> nat, retrieved: seq<Item>, contents: seq<SourceContent>, fixed: nat, available: int)
    returns (decisions: seq<Decision>, indexes: seq<nat>, bound: int)
    requires |contents| == |retrieved|
    ensures var r := RequestOf(count, contents, fixed, available);
      && indexes == Indexes(r, |contents|) && bound == FirstPass(r, |contents|)
      && |decisions| == |retrieved|
      && forall i | 0 <= i < |retrieved| ::
           decisions[i] == Decision(retrieved[i], Picked(r, i), i + 1, r.entries[i].primary)
  {
    decisions, indexes, bound := [], [], fixed;
    ghost var r := RequestOf(count, contents, fixed, available);
    for index := 0 to |retrieved|
      invariant indexes == Indexes(r, index) && bound == FirstPass(r, index)
      invariant |decisions| == index
      invariant forall i | 0 <= i < index ::
                  decisions[i] == Decision(retrieved[i], Picked(r, i), i + 1, r.entries[i].primary)
    {
      var tokens := CountContentTokens(count, contents[index].primary);
      var fits := bound + tokens <= available;
      decisions := decisions + [Decision(retrieved[index], fits, index + 1, tokens)];
      if !fits {
        continue;
      }
      indexes := indexes + [index];
      bound := bound + tokens;
    }
  }

  /** Between two taken entries nothing is widened. */
  lemma {:induction false} NextIndex(r: Request, n: nat, from: nat, k: nat)
    requires from <= n <= |r.entries| && k < |Indexes(r, n)| && Indexes(r, n)[..k] == Indexes(r, from)
    ensures var i := Indexes(r, n)[k];
      && from <= i < n && Indexes(r, n)[..k + 1] == Indexes(r, i + 1)
      && SecondPass(r, i) == SecondPass(r, from) && WidenedIndexes(r, i) == WidenedIndexes(r, from)
  {
    assert |Indexes(r, from)| == k;
    if !Picked(r, n - 1) {
      assert from < n;
      NextIndex(r, n - 1, from, k);
    } else if k == |Indexes(r, n)| - 1 {
      assert Indexes(r, n)[..k] == Indexes(r, n - 1);
      assert Indexes(r, n)[..k + 1] == Indexes(r, n);
      assert from < n;
      NothingBetween(r, from, n - 1);
    } else {
      assert Indexes(r, n)[..k] == Indexes(r, n - 1)[..k];
      assert Indexes(r, n)[..k + 1] == Indexes(r, n - 1)[..k + 1];
      if from == n {
        assert false;
      }
      NextIndex(r, n - 1, from, k);
    }
  }

  lemma {:induction false} NothingBetween(r: Request, from: nat, n: nat)
    requires from <= n <= |r.entries| && Indexes(r, from) == Indexes(r, n)
    ensures SecondPass(r, n) == SecondPass(r, from) && WidenedIndexes(r, n) == WidenedIndexes(r, from)
  {
    if from < n {
      IndexesGrow(r, from, n - 1);
      NothingBetween(r, from, n - 1);
    }
  }

  lemma {:induction false} IndexesGrow(r: Request, from: nat, n: nat)
    requires from <= n <= |r.entries|
    ensures Indexes(r, from) <= Indexes(r, n)
  {
    if from < n {
      IndexesGrow(r, from, n - 1);
    }
  }

  method CountAdditionalTokens(count: string -> nat, content: SourceContent) returns (additional: int)
    requires content.expanded.Some?
    ensures additional == EntryOf(count, content).Extra()
  {
    var primaryTokens: int := CountContentTokens(count, content.primary);
    var expandedTokens: int := CountContentTokens(count, content.expanded.value);
    additional := expandedTokens as int - primaryTokens as int;
  }

  method ExpandSelected(
    count: string -> nat, contents: seq<SourceContent>, indexes: seq<nat>, primaryBound: int,
    fixed: nat, available: int)
    returns (expanded: seq<nat>, bound: int)
    requires var r := RequestOf(count, contents, fixed, available);
      indexes == Indexes(r, |contents|) && primaryBound == FirstPass(r, |contents|)
    ensures var r := RequestOf(count, contents, fixed, available);
      expanded == WidenedIndexes(r, |contents|) && bound == SecondPass(r, |contents|)
  {
    expanded, bound := [], primaryBound;
    ghost var r := RequestOf(count, contents, fixed, available);
    ghost var done: nat := 0;
    for k := 0 to |indexes|
      invariant done <= |contents| && indexes[..k] == Indexes(r, done)
      invariant expanded == WidenedIndexes(r, done) && bound == SecondPass(r, done)
    {
      var index := indexes[k];
      NextIndex(r, |contents|, done, k);
      done := index + 1;
      var content := contents[index];
      if content.expanded.None? {
        continue;
      }
      var additional := CountAdditionalTokens(count, content);
      if additional <= 0 || bound + additional > available {
        continue;
      }
      expanded := expanded + [index];
      bound := bound + additional;
    }
    assert indexes[..|indexes|] == indexes;
    NothingBetween(r, done, |contents|);
  }

  // -------------------------------------------------------------------- the plan

  predicate ValidConfiguration(c: Configuration) {
    c.minimumOutputTokens >= 1 && c.providerSafetyMarginTokens >= 0
  }

  function Available(capacity: int, c: Configuration): int {
    capacity - c.providerSafetyMarginTokens - c.minimumOutputTokens
  }

  /** Which error a request ends in, if any. */
  function ErrorOf(r: Request, c: Configuration, items: nat): Option<BudgetError> {
    if !ValidConfiguration(c) then Some(InvalidConfiguration)
    else if |r.entries| != items then Some(SourcesDoNotMatch)
    else if r.fixed > r.available then Some(MinimumStructuredOutput)
    else if items > 0 && forall i | 0 <= i < items :: r.fixed + r.entries[i].primary > r.available then
      Some(NoCompleteEvidenceWindow)
    else None
  }

  predicate PlannedAs(b: Budget, r: Request, retrieved: seq<Item>)
    requires |retrieved| == |r.entries|
  {
    var n := |r.entries|;
    var picks, wide := Indexes(r, n), WidenedIndexes(r, n);
    && b.availableInputTokens == r.available && b.inputTokenUpperBound == SecondPass(r, n)
    && |b.decisions| == n
    && (forall i | 0 <= i < n :: b.decisions[i] == Decision(retrieved[i], Picked(r, i), i + 1, r.entries[i].primary))
    && |b.selected| == |picks| && (forall k | 0 <= k < |picks| :: b.selected[k] == retrieved[picks[k]])
    && |b.expandedRetrievalWindowIds| == |wide|
    && (forall k | 0 <= k < |wide| :: b.expandedRetrievalWindowIds[k] == retrieved[wide[k]].retrievalWindowId)
  }

  method PlanAnswerRequest(
    count: string -> nat, capacity: int, configuration: Configuration, fixedContent: seq<string>,
    contents: seq<SourceContent>, retrieved: seq<Item>)
    returns (planned: Result<Budget, BudgetError>)
    ensures var r := RequestOf(count, contents, Tokens(count, fixedContent), Available(capacity, configuration));
      var error := ErrorOf(r, configuration, |retrieved|);
      if error.Some? then planned == Err(error.value)
      else planned.Ok? && |retrieved| == |r.entries| && PlannedAs(planned.value, r, retrieved)
  {
    if configuration.minimumOutputTokens < 1 || configuration.providerSafetyMarginTokens < 0 {
      return Err(InvalidConfiguration);
    }
    if |contents| != |retrieved| {
      return Err(SourcesDoNotMatch);
    }
    var fixed := CountContentTokens(count, fixedContent);
    var capacityAfterSafety := capacity - configuration.providerSafetyMarginTokens;
    if capacityAfterSafety - fixed < configuration.minimumOutputTokens {
      return Err(MinimumStructuredOutput);
    }
    var available := capacityAfterSafety - configuration.minimumOutputTokens;
    var decisions, indexes, primaryBound := SelectPrimaries(count, retrieved, contents, fixed, available);
    NothingPicked(RequestOf(count, contents, fixed, available), |contents|);
    if |retrieved| > 0 && indexes == [] {
      return Err(NoCompleteEvidenceWindow);
    }
    var expanded, bound := ExpandSelected(count, contents, indexes, primaryBound, fixed, available);
    var selected := seq(|indexes|, k requires 0 <= k < |indexes| => retrieved[indexes[k]]);
    var windows := seq(|expanded|, k requires 0 <= k < |expanded| => retrieved[expanded[k]].retrievalWindowId);
    planned := Ok(Budget(available, decisions, windows, bound, selected));
  }

  // -------------------------------------------------------- what a plan means

  lemma {:induction false} TokensAddUp(count: string -> nat, content: seq<string>, more: seq<string>)
    ensures Tokens(count, content + more) == Tokens(count, content) + Tokens(count, more)
    ensures forall part :: Tokens(count, [part]) == count(part)
  {
    if more == [] {
      assert content + more == content;
    } else {
      var n := |more| - 1;
      TokensAddUp(count, content, more[..n]);
      assert (content + more)[..|content| + n] == content + more[..n];
    }
  }

  /** What the included entries cost in their primary form. */
  function Spent(decisions: seq<Decision>): nat {
    if decisions == [] then 0
    else
      var last := decisions[|decisions| - 1];
      Spent(decisions[..|decisions| - 1]) + (if last.included then last.tokenUpperBound else 0)
  }

  /** By how much the wider form of a source costs more. */
  function Extra(count: string -> nat, content: SourceContent): int {
    if content.expanded.None? then 0 else Tokens(count, content.expanded.value) - Tokens(count, content.primary)
  }

  /** What those of the first n sources cost more that are sent in their wider form. */
  function ExtraSpent(count: string -> nat, contents: seq<SourceContent>, wide: seq<nat>, n: nat): int
    requires n <= |contents|
  {
    if n == 0 then 0
    else ExtraSpent(count, contents, wide, n - 1) + (if n - 1 in wide then Extra(count, contents[n - 1]) else 0)
  }

  /** Some indexes below n, rising. */
  ghost predicate Rising(at: seq<nat>, n: nat) {
    && (forall k | 0 <= k < |at| :: at[k] < n)
    && (forall i, j | 0 <= i < j < |at| :: at[i] < at[j])
  }

  /** What is taken in the first pass: each source that fits beside those taken
      before it. */
  ghost predicate TakenAs(
    count: string -> nat, contents: seq<SourceContent>, retrieved: seq<Item>, fixed: nat, limit: int,
    b: Budget, taken: seq<nat>)
    requires |contents| == |retrieved|
  {
    var n := |retrieved|;
    && |b.decisions| == n
    && (forall i | 0 <= i < n ::
          var cost := Tokens(count, contents[i].primary);
          b.decisions[i] == Decision(retrieved[i], fixed + Spent(b.decisions[..i]) + cost <= limit, i + 1, cost))
    && Rising(taken, n) && |b.selected| == |taken|
    && (forall k | 0 <= k < |taken| :: b.selected[k] == retrieved[taken[k]])
    && (forall i: nat | i < n :: i in taken <==> b.decisions[i].included)
  }

  /** What is widened in the second pass: in the same order each taken source
      whose wider form costs more and fits. */
  ghost predicate WidenedAs(
    count: string -> nat, contents: seq<SourceContent>, retrieved: seq<Item>, spent: nat, limit: int,
    b: Budget, taken: seq<nat>, wide: seq<nat>)
    requires |contents| == |retrieved|
  {
    var n := |retrieved|;
    && Rising(wide, n) && |b.expandedRetrievalWindowIds| == |wide|
    && (forall k | 0 <= k < |wide| :: b.expandedRetrievalWindowIds[k] == retrieved[wide[k]].retrievalWindowId)
    && (forall i: nat | i < n :: i in wide <==>
          var extra := Extra(count, contents[i]);
          i in taken && extra > 0 && spent + ExtraSpent(count, contents, wide, i) + extra <= limit)
    && b.inputTokenUpperBound == spent + ExtraSpent(count, contents, wide, n)
  }

  /** A planned request takes what fits in order of rank, then widens in the
      same order what still fits; it costs what its parts cost and leaves the
      margin and the smallest answer free. */
  lemma PlanMeans(
    count: string -> nat, capacity: int, configuration: Configuration, fixedContent: seq<string>,
    contents: seq<SourceContent>, retrieved: seq<Item>, b: Budget) returns (taken: seq<nat>, wide: seq<nat>)
    requires |contents| == |retrieved| && Tokens(count, fixedContent) <= Available(capacity, configuration)
    requires PlannedAs(b, RequestOf(count, contents, Tokens(count, fixedContent), Available(capacity, configuration)), retrieved)
    ensures var fixed := Tokens(count, fixedContent);
      var limit := capacity - configuration.providerSafetyMarginTokens - configuration.minimumOutputTokens;
      && TakenAs(count, contents, retrieved, fixed, limit, b, taken)
      && WidenedAs(count, contents, retrieved, fixed + Spent(b.decisions), limit, b, taken, wide)
      && b.availableInputTokens == limit && b.inputTokenUpperBound <= limit
  {
    var n := |retrieved|;
    var r := RequestOf(count, contents, Tokens(count, fixedContent), Available(capacity, configuration));
    taken, wide := Indexes(r, n), WidenedIndexes(r, n);
    TakenInOrder(count, contents, r, retrieved, b);
    WidenedInOrder(count, contents, r, retrieved, b);
    SecondPassGrows(r, n, n);
  }

  lemma TakenInOrder(
    count: string -> nat, contents: seq<SourceContent>, r: Request, retrieved: seq<Item>, b: Budget)
    requires |contents| == |retrieved| && r == RequestOf(count, contents, r.fixed, r.available)
    requires PlannedAs(b, r, retrieved)
    ensures TakenAs(count, contents, retrieved, r.fixed, r.available, b, Indexes(r, |retrieved|))
    ensures r.fixed + Spent(b.decisions) == FirstPass(r, |retrieved|)
  {
    IndexesAre(r, |retrieved|);
    assert b.decisions[..|retrieved|] == b.decisions;
    forall i | 0 <= i <= |retrieved|
      ensures r.fixed + Spent(b.decisions[..i]) == FirstPass(r, i)
    {
      SpentIsFirstPass(r, b.decisions, i);
    }
  }

  lemma WidenedInOrder(
    count: string -> nat, contents: seq<SourceContent>, r: Request, retrieved: seq<Item>, b: Budget)
    requires |contents| == |retrieved| && r == RequestOf(count, contents, r.fixed, r.available)
    requires PlannedAs(b, r, retrieved) && FirstPass(r, |retrieved|) >= 0
    ensures WidenedAs(count, contents, retrieved, FirstPass(r, |retrieved|), r.available, b,
                      Indexes(r, |retrieved|), WidenedIndexes(r, |retrieved|))
  {
    IndexesAre(r, |retrieved|);
    WidenedIndexesAre(r, |retrieved|);
    forall i | 0 <= i <= |retrieved|
      ensures FirstPass(r, |retrieved|) + ExtraSpent(count, contents, WidenedIndexes(r, |retrieved|), i)
           == SecondPass(r, i)
    {
      ExtraSpentIsSecondPass(count, contents, r, WidenedIndexes(r, |retrieved|), i);
    }
  }

  lemma {:induction false} SpentIsFirstPass(r: Request, decisions: seq<Decision>, n: nat)
    requires n <= |decisions| == |r.entries|
    requires forall i | 0 <= i < |decisions| ::
               decisions[i].included == Picked(r, i) && decisions[i].tokenUpperBound == r.entries[i].primary
    ensures r.fixed + Spent(decisions[..n]) == FirstPass(r, n)
  {
    if n > 0 {
      SpentIsFirstPass(r, decisions, n - 1);
      assert decisions[..n][..n - 1] == decisions[..n - 1];
    }
  }

  lemma {:induction false} IndexesAre(r: Request, n: nat)
    requires n <= |r.entries|
    ensures Rising(Indexes(r, n), n)
    ensures forall i: nat | i < n :: i in Indexes(r, n) <==> Picked(r, i)
  {
    if n > 0 {
      IndexesAre(r, n - 1);
    }
  }

  lemma {:induction false} WidenedIndexesAre(r: Request, n: nat)
    requires n <= |r.entries|
    ensures Rising(WidenedIndexes(r, n), n)
    ensures forall i: nat | i < n :: i in WidenedIndexes(r, n) <==> Widened(r, i)
  {
    if n > 0 {
      WidenedIndexesAre(r, n - 1);
    }
  }

  lemma {:induction false} ExtraSpentIsSecondPass(
    count: string -> nat, contents: seq<SourceContent>, r: Request, wide: seq<nat>, n: nat)
    requires n <= |contents| == |r.entries|
    requires forall i: nat | i < |contents| :: r.entries[i].Extra() == Extra(count, contents[i])
    requires forall i: nat | i < |contents| :: i in wide <==> Widened(r, i)
    ensures FirstPass(r, |r.entries|) + ExtraSpent(count, contents, wide, n) == SecondPass(r, n)
  {
    if n > 0 {
      ExtraSpentIsSecondPass(count, contents, r, wide, n - 1);
    }
  }

  /** A request fails exactly on a configuration without room for an answer or
      with a negative margin, on sources that do not match what was retrieved,
      where the prompt leaves less than the margin and the smallest answer, and
      where not one source fits beside it. */
  lemma PlanFailsExactlyWhen(
    count: string -> nat, capacity: int, c: Configuration, fixedContent: seq<string>,
    contents: seq<SourceContent>, items: nat)
    ensures var fixed := Tokens(count, fixedContent);
      var error := ErrorOf(RequestOf(count, contents, fixed, Available(capacity, c)), c, items);
      var left := capacity - c.providerSafetyMarginTokens - fixed;
      && (error == Some(InvalidConfiguration) <==> c.minimumOutputTokens < 1 || c.providerSafetyMarginTokens < 0)
      && (error == Some(SourcesDoNotMatch) <==>
            1 <= c.minimumOutputTokens && 0 <= c.providerSafetyMarginTokens && |contents| != items)
      && (error == Some(MinimumStructuredOutput) <==>
            && 1 <= c.minimumOutputTokens && 0 <= c.providerSafetyMarginTokens && |contents| == items
            && left < c.minimumOutputTokens)
      && (error == Some(NoCompleteEvidenceWindow) <==>
            && 1 <= c.minimumOutputTokens && 0 <= c.providerSafetyMarginTokens && |contents| == items > 0
            && left >= c.minimumOutputTokens
            && forall i | 0 <= i < items :: Tokens(count, contents[i].primary) > left - c.minimumOutputTokens)
  {
    var r := RequestOf(count, contents, Tokens(count, fixedContent), Available(capacity, c));
    assert forall i | 0 <= i < |contents| :: r.entries[i].primary == Tokens(count, contents[i].primary);
  }
}
