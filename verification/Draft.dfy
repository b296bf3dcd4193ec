/** Answer drafts and the evidence their statements refer to.  Several
    references can stand for one retrieved element; the first is canonical. */
module Draft {
  import opened Prelude
  import opened PublishedModel

  datatype Evidence = Evidence(ref: string, element: Element)

  datatype DraftStatement = DraftStatement(
    evidenceRefs: seq<string>, content: string, presentation: Presentation, section: Section)

  datatype ConflictScope = ConflictScope(context: string, scope: string, conditions: string, timePeriod: string)

  datatype Position = Position(claim: string, evidenceRefs: seq<string>)

  datatype ConflictGroup = ConflictGroup(sharedScope: ConflictScope, positions: seq<Position>, explanation: string)

  datatype AnswerDraft =
    | Uncited(content: string)
    | Answered(statements: seq<DraftStatement>, conflictGroups: seq<ConflictGroup>)

  datatype SourceError = UnavailableEvidence(ref: string) | MismatchedReferences | NoDirectAnswer | InvalidDocument

  // --------------------------------------------------------------- references

  /** The element a reference stands for: the last one listed under it. */
  function ElementOf(request: seq<Evidence>, ref: string): Option<Element> {
    if request == [] then None
    else
      var last := request[|request| - 1];
      if last.ref == ref then Some(last.element) else ElementOf(request[..|request| - 1], ref)
  }

  /** The first reference listed for an element. */
  function FirstRef(request: seq<Evidence>, element: Element): Option<string> {
    if request == [] then None
    else
      var earlier := FirstRef(request[..|request| - 1], element);
      var last := request[|request| - 1];
      if earlier.Some? then earlier else if last.element == element then Some(last.ref) else None
  }

  predicate Known(request: seq<Evidence>, refs: seq<string>) {
    forall r | r in refs :: ElementOf(request, r).Some?
  }

  function Canonical(request: seq<Evidence>, ref: string): string {
    match ElementOf(request, ref)
    case None => ref
    case Some(e) => var first := FirstRef(request, e); if first.Some? then first.value else ref
  }

  function Canonicals(request: seq<Evidence>, refs: seq<string>): seq<string> {
    seq(|refs|, i requires 0 <= i < |refs| => Canonical(request, refs[i]))
  }

  /** One reference per element, in order of first mention. */
  function Compact(request: seq<Evidence>, refs: seq<string>): seq<string> {
    Unique(Canonicals(request, refs))
  }

  lemma {:induction false} ElementsAreListed(request: seq<Evidence>, ref: string)
    ensures ElementOf(request, ref).Some? <==> exists e | e in request :: e.ref == ref
    ensures ElementOf(request, ref).Some? ==> FirstRef(request, ElementOf(request, ref).value).Some?
  {
    if request != [] {
      var n := |request| - 1;
      ElementsAreListed(request[..n], ref);
      assert request == request[..n] + [request[n]];
    }
  }

  lemma {:induction false} FirstRefIsListed(request: seq<Evidence>, element: Element)
    ensures FirstRef(request, element).Some? ==> Evidence(FirstRef(request, element).value, element) in request
    ensures FirstRef(request, element).None? ==> forall e | e in request :: e.element != element
  {
    if request != [] {
      var n := |request| - 1;
      FirstRefIsListed(request[..n], element);
      assert request == request[..n] + [request[n]];
    }
  }

  predicate DistinctRefs(request: seq<Evidence>) {
    forall i, j | 0 <= i < j < |request| :: request[i].ref != request[j].ref
  }

  lemma {:induction false} RefsStandForOne(request: seq<Evidence>)
    requires DistinctRefs(request)
    ensures forall e | e in request :: ElementOf(request, e.ref) == Some(e.element)
  {
    if request != [] {
      var n := |request| - 1;
      RefsStandForOne(request[..n]);
      assert request == request[..n] + [request[n]];
    }
  }

  /** The canonical reference of a known one is listed, for the same element. */
  lemma CanonicalKeepsElement(request: seq<Evidence>, ref: string)
    requires DistinctRefs(request) && ElementOf(request, ref).Some?
    ensures ElementOf(request, Canonical(request, ref)) == ElementOf(request, ref)
    ensures FirstRef(request, ElementOf(request, ref).value) == Some(Canonical(request, ref))
  {
    var e := ElementOf(request, ref).value;
    ElementsAreListed(request, ref);
    FirstRefIsListed(request, e);
    RefsStandForOne(request);
    assert ElementOf(request, Evidence(Canonical(request, ref), e).ref) == Some(e);
  }

  function ElementsMeant(request: seq<Evidence>, refs: seq<string>): set<Element> {
    set i | 0 <= i < |refs| && ElementOf(request, refs[i]).Some? :: ElementOf(request, refs[i]).value
  }

  /** Compacting references keeps the elements they mean, and repeats none. */
  lemma CompactKeepsElements(request: seq<Evidence>, refs: seq<string>)
    requires DistinctRefs(request) && Known(request, refs)
    ensures Known(request, Compact(request, refs))
    ensures ElementsMeant(request, Compact(request, refs)) == ElementsMeant(request, refs)
    ensures forall i, j | 0 <= i < j < |Compact(request, refs)| ::
              ElementOf(request, Compact(request, refs)[i]) != ElementOf(request, Compact(request, refs)[j])
    ensures Compact(request, refs) == [] <==> refs == []
  {
    var all, compact := Canonicals(request, refs), Compact(request, refs);
    UniqueFacts(all);
    forall c | c in compact
      ensures exists i | 0 <= i < |refs| :: c == all[i]
    {
      assert c in all;
    }
    forall i | 0 <= i < |refs|
      ensures ElementOf(request, all[i]) == ElementOf(request, refs[i]) && ElementOf(request, refs[i]).Some?
      ensures FirstRef(request, ElementOf(request, refs[i]).value) == Some(all[i])
    {
      assert refs[i] in refs;
      CanonicalKeepsElement(request, refs[i]);
    }
    CompactMeansTheSame(request, refs);
    forall i, j | 0 <= i < j < |compact|
      ensures ElementOf(request, compact[i]) != ElementOf(request, compact[j])
    {
      assert compact[i] in compact && compact[j] in compact;
    }
    assert refs != [] ==> all[0] in all;
  }

  lemma CompactMeansTheSame(request: seq<Evidence>, refs: seq<string>)
    requires forall i | 0 <= i < |refs| ::
               ElementOf(request, Canonicals(request, refs)[i]) == ElementOf(request, refs[i])
    ensures ElementsMeant(request, Compact(request, refs)) == ElementsMeant(request, refs)
  {
    var all, compact := Canonicals(request, refs), Compact(request, refs);
    UniqueFacts(all);
    forall e
      ensures e in ElementsMeant(request, compact) <==> e in ElementsMeant(request, refs)
    {
      if e in ElementsMeant(request, compact) {
        var k :| 0 <= k < |compact| && ElementOf(request, compact[k]) == Some(e);
        assert compact[k] in all;
        var i :| 0 <= i < |all| && all[i] == compact[k];
        assert ElementOf(request, refs[i]) == Some(e);
      }
      if e in ElementsMeant(request, refs) {
        var i :| 0 <= i < |refs| && ElementOf(request, refs[i]) == Some(e);
        assert all[i] in compact;
        var k :| 0 <= k < |compact| && compact[k] == all[i];
        assert ElementOf(request, compact[k]) == Some(e);
      }
    }
  }

  // ----------------------------------------------- the statements of a draft

  function RenderScope(s: ConflictScope): string {
    "Shared scope - context: " + s.context + "; scope: " + s.scope
    + "; conditions: " + s.conditions + "; time period: " + s.timePeriod + "."
  }

  function PositionRefs(positions: seq<Position>): seq<string> {
    if positions == [] then []
    else PositionRefs(positions[..|positions| - 1]) + positions[|positions| - 1].evidenceRefs
  }

  function Bullets(positions: seq<Position>): seq<DraftStatement> {
    seq(|positions|, i requires 0 <= i < |positions| =>
      DraftStatement(positions[i].evidenceRefs, positions[i].claim, Bullet, ConflictingEvidence))
  }

  function Opening(g: ConflictGroup): DraftStatement {
    DraftStatement(PositionRefs(g.positions), RenderScope(g.sharedScope), Paragraph, ConflictingEvidence)
  }

  function Closing(g: ConflictGroup): DraftStatement {
    DraftStatement(PositionRefs(g.positions), g.explanation, Paragraph, ConflictingEvidence)
  }

  /** A conflict group as statements: its scope, its positions, its explanation. */
  function Expand(g: ConflictGroup): seq<DraftStatement> {
    [Opening(g)] + Bullets(g.positions) + [Closing(g)]
  }

  predicate KeySeen(groups: seq<ConflictGroup>, key: ConflictGroup -> string, k: string) {
    exists g | g in groups :: key(g) == k
  }

  /** Groups with the key of an earlier one are passed over. */
  function ExpandGroups(groups: seq<ConflictGroup>, key: ConflictGroup -> string): seq<DraftStatement> {
    if groups == [] then []
    else
      var earlier, last := groups[..|groups| - 1], groups[|groups| - 1];
      ExpandGroups(earlier, key)
      + (if KeySeen(earlier, key, key(last)) then [] else Expand(last))
  }

  /** Everything an answered draft states, with the references as drafted. */
  function Sources(draft: AnswerDraft, key: ConflictGroup -> string): seq<DraftStatement>
    requires draft.Answered?
  {
    draft.statements + ExpandGroups(draft.conflictGroups, key)
  }

  function Prepare(request: seq<Evidence>, s: DraftStatement): DraftStatement {
    s.(evidenceRefs := Compact(request, s.evidenceRefs))
  }

  function PrepareAll(request: seq<Evidence>, statements: seq<DraftStatement>): seq<DraftStatement> {
    seq(|statements|, i requires 0 <= i < |statements| => Prepare(request, statements[i]))
  }

  predicate AllKnown(request: seq<Evidence>, statements: seq<DraftStatement>) {
    forall i | 0 <= i < |statements| :: Known(request, statements[i].evidenceRefs)
  }

  // ---------------------------------------------------------------- the methods

  ghost predicate IsCanonical(refs: map<Element, string>, request: seq<Evidence>) {
    forall e :: FirstRef(request, e) == if e in refs then Some(refs[e]) else None
  }

  method CreateRequestEvidence(retrieved: seq<Element>, refs: seq<string>)
    returns (r: Result<seq<Evidence>, SourceError>)
    ensures r.Ok? <==> |refs| == |retrieved|
    ensures r.Ok? ==> |r.value| == |retrieved|
    ensures r.Ok? ==> forall i | 0 <= i < |retrieved| :: r.value[i] == Evidence(refs[i], retrieved[i])
  {
    if |refs| != |retrieved| {
      return Err(MismatchedReferences);
    }
    var request: seq<Evidence> := [];
    for i := 0 to |retrieved|
      invariant |request| == i
      invariant forall k | 0 <= k < i :: request[k] == Evidence(refs[k], retrieved[k])
    {
      request := request + [Evidence(refs[i], retrieved[i])];
    }
    r := Ok(request);
  }

  method CreateCanonicalEvidenceRefs(request: seq<Evidence>) returns (refs: map<Element, string>)
    ensures IsCanonical(refs, request)
  {
    refs := map[];
    for i := 0 to |request|
      invariant IsCanonical(refs, request[..i])
    {
      assert request[..i + 1][..i] == request[..i];
      if request[i].element !in refs {
        refs := refs[request[i].element := request[i].ref];
      }
    }
    assert request[..|request|] == request;
  }

  method EvidenceByRef(request: seq<Evidence>) returns (elements: map<string, Element>)
    ensures forall r :: ElementOf(request, r) == if r in elements then Some(elements[r]) else None
  {
    elements := map[];
    for i := 0 to |request|
      invariant forall r :: ElementOf(request[..i], r) == if r in elements then Some(elements[r]) else None
    {
      assert request[..i + 1][..i] == request[..i];
      elements := elements[request[i].ref := request[i].element];
    }
    assert request[..|request|] == request;
  }

  method CompactStatementEvidence(refs: seq<string>, request: seq<Evidence>, canonical: map<Element, string>)
    returns (r: Result<seq<string>, SourceError>)
    requires IsCanonical(canonical, request)
    ensures r.Ok? <==> Known(request, refs)
    ensures r.Ok? ==> r.value == Compact(request, refs)
  {
    var elementByRef := EvidenceByRef(request);
    var selected: seq<string> := [];
    var seen: set<string> := {};
    for i := 0 to |refs|
      invariant Known(request, refs[..i])
      invariant selected == Compact(request, refs[..i])
      invariant forall x :: x in seen <==> x in selected
    {
      if refs[i] !in elementByRef {
        assert refs[i] in refs;
        return Err(UnavailableEvidence(refs[i]));
      }
      // The lookups below cannot fail: what stands for something has a
      // canonical reference, and that reference stands for something.
      CanonicalIsListed(request, refs, i);
      var ref := canonical[elementByRef[refs[i]]];
      if ref !in seen {
        seen := seen + {ref};
        assert ref in elementByRef;
        selected := selected + [ref];
      }
    }
    assert refs[..|refs|] == refs;
    r := Ok(selected);
  }

  lemma CanonicalIsListed(request: seq<Evidence>, refs: seq<string>, i: nat)
    requires i < |refs| && ElementOf(request, refs[i]).Some? && Known(request, refs[..i])
    ensures FirstRef(request, ElementOf(request, refs[i]).value) == Some(Canonical(request, refs[i]))
    ensures ElementOf(request, Canonical(request, refs[i])).Some?
    ensures Known(request, refs[..i + 1])
    ensures Compact(request, refs[..i + 1])
         == var before, last := Compact(request, refs[..i]), Canonical(request, refs[i]);
            if last in before then before else before + [last]
  {
    var e := ElementOf(request, refs[i]).value;
    ElementsAreListed(request, refs[i]);
    FirstRefIsListed(request, e);
    ElementsAreListed(request, Canonical(request, refs[i]));
    assert Canonicals(request, refs[..i + 1])[..i] == Canonicals(request, refs[..i]);
    UniqueFacts(Canonicals(request, refs[..i]));
  }

  lemma {:induction false} UniqueAbsorbs<T>(a: seq<T>, b: seq<T>)
    ensures Unique(a + Unique(b)) == Unique(a + b)
  {
    if b == [] {
      assert Unique(b) == [];
    } else {
      var n := |b| - 1;
      var before, x := Unique(b[..n]), b[n];
      UniqueAbsorbs(a, b[..n]);
      UniqueFacts(b[..n]);
      assert b == b[..n] + [x];
      Glue(a, b[..n], [x]);
      Glue(a, before, [x]);
    }
  }

  /** Adds what is new of some references to those a group already has. */
  method MergeRefs(merged: seq<string>, refs: seq<string>) returns (extended: seq<string>)
    requires Unique(merged) == merged
    ensures extended == Unique(merged + refs)
  {
    extended := merged;
    assert merged + refs[..0] == merged;
    for i := 0 to |refs|
      invariant extended == Unique(merged + refs[..i])
    {
      UniqueFacts(merged + refs[..i]);
      assert refs[..i + 1] == refs[..i] + [refs[i]];
      Glue(merged, refs[..i], [refs[i]]);
      if refs[i] !in extended {
        extended := extended + [refs[i]];
      }
    }
    assert refs[..|refs|] == refs;
  }

  lemma {:induction false} UniqueIsStable<T>(s: seq<T>)
    ensures Unique(Unique(s)) == Unique(s)
  {
    UniqueAbsorbs([], s);
    assert [] + Unique(s) == Unique(s) && [] + s == s;
  }

  lemma GroupRefsStep(request: seq<Evidence>, done: seq<string>, more: seq<string>)
    ensures Unique(Compact(request, done) + Compact(request, more)) == Compact(request, done + more)
  {
    var a, b := Canonicals(request, done), Canonicals(request, more);
    UniqueAbsorbs(Compact(request, done), b);
    assert Canonicals(request, done + more) == a + b;
    UniqueAbsorbsLeft(a, b);
  }

  lemma {:induction false} UniqueAbsorbsLeft<T>(a: seq<T>, b: seq<T>)
    ensures Unique(Unique(a) + b) == Unique(a + b)
  {
    if b == [] {
      UniqueIsStable(a);
      assert Unique(a) + b == Unique(a) && a + b == a;
    } else {
      var n := |b| - 1;
      var x := b[n];
      UniqueAbsorbsLeft(a, b[..n]);
      UniqueFacts(a);
      assert b == b[..n] + [x];
      Glue(a, b[..n], [x]);
      Glue(Unique(a), b[..n], [x]);
    }
  }

  method ReadGroupRefs(positions: seq<Position>, request: seq<Evidence>, canonical: map<Element, string>)
    returns (r: Result<seq<string>, SourceError>)
    requires IsCanonical(canonical, request)
    ensures r.Ok? <==> Known(request, PositionRefs(positions))
    ensures r.Ok? ==> r.value == Compact(request, PositionRefs(positions))
  {
    var merged: seq<string> := [];
    assert Canonicals(request, []) == [];
    for i := 0 to |positions|
      invariant Known(request, PositionRefs(positions[..i]))
      invariant merged == Compact(request, PositionRefs(positions[..i]))
    {
      assert positions[..i + 1][..i] == positions[..i];
      var refs := CompactStatementEvidence(positions[i].evidenceRefs, request, canonical);
      if refs.Err? {
        UnknownStays(request, positions, i + 1);
        return Err(refs.error);
      }
      UniqueIsStable(Canonicals(request, PositionRefs(positions[..i])));
      GroupRefsStep(request, PositionRefs(positions[..i]), positions[i].evidenceRefs);
      merged := MergeRefs(merged, refs.value);
    }
    assert positions[..|positions|] == positions;
    r := Ok(merged);
  }

  lemma {:induction false} UnknownStays(request: seq<Evidence>, positions: seq<Position>, k: nat)
    requires k <= |positions| && !Known(request, PositionRefs(positions[..k]))
    ensures !Known(request, PositionRefs(positions))
    decreases |positions|
  {
    if k == |positions| {
      assert positions[..k] == positions;
    } else {
      assert positions[..|positions| - 1][..k] == positions[..k];
      UnknownStays(request, positions[..|positions| - 1], k);
    }
  }

  lemma {:induction false} PositionRefsKnown(request: seq<Evidence>, positions: seq<Position>)
    ensures Known(request, PositionRefs(positions)) <==>
            forall i | 0 <= i < |positions| :: Known(request, positions[i].evidenceRefs)
  {
    if positions != [] {
      var n := |positions| - 1;
      PositionRefsKnown(request, positions[..n]);
      assert PositionRefs(positions) == PositionRefs(positions[..n]) + positions[n].evidenceRefs;
    }
  }

  method AppendPreparedConflictGroup(
    prepared: seq<DraftStatement>, group: ConflictGroup, request: seq<Evidence>, canonical: map<Element, string>)
    returns (r: Result<seq<DraftStatement>, SourceError>)
    requires IsCanonical(canonical, request)
    ensures r.Ok? <==> AllKnown(request, Expand(group))
    ensures r.Ok? ==> r.value == prepared + PrepareAll(request, Expand(group))
  {
    GroupKnown(request, group);
    var groupRefs := ReadGroupRefs(group.positions, request, canonical);
    if groupRefs.Err? {
      return Err(groupRefs.error);
    }
    PositionRefsKnown(request, group.positions);
    var bullets: seq<DraftStatement> := [];
    for i := 0 to |group.positions|
      invariant bullets == PrepareAll(request, Bullets(group.positions)[..i])
    {
      var p := group.positions[i];
      var refs := CompactStatementEvidence(p.evidenceRefs, request, canonical);
      bullets := bullets + [DraftStatement(refs.value, p.claim, Bullet, ConflictingEvidence)];
    }
    var opening := Opening(group).(evidenceRefs := groupRefs.value);
    var closing := Closing(group).(evidenceRefs := groupRefs.value);
    assert PrepareAll(request, Expand(group)) == [opening] + bullets + [closing];
    r := Ok(prepared + ([opening] + bullets + [closing]));
  }

  lemma GroupKnown(request: seq<Evidence>, group: ConflictGroup)
    ensures AllKnown(request, Expand(group)) <==> Known(request, PositionRefs(group.positions))
  {
    PositionRefsKnown(request, group.positions);
    var all := Expand(group);
    assert all[0] == Opening(group);
    forall i | 0 <= i < |group.positions|
      ensures all[i + 1].evidenceRefs == group.positions[i].evidenceRefs
    {
    }
  }

  /** Every statement that the draft makes, its references compacted. */
  method PrepareDraftStatements(draft: AnswerDraft, key: ConflictGroup -> string, request: seq<Evidence>)
    returns (r: Result<seq<DraftStatement>, SourceError>)
    requires draft.Answered?
    ensures r.Ok? <==> AllKnown(request, Sources(draft, key))
    ensures r.Ok? ==> r.value == PrepareAll(request, Sources(draft, key))
  {
    var canonical := CreateCanonicalEvidenceRefs(request);
    var prepared: seq<DraftStatement> := [];
    for i := 0 to |draft.statements|
      invariant AllKnown(request, draft.statements[..i])
      invariant prepared == PrepareAll(request, draft.statements[..i])
    {
      var s := draft.statements[i];
      var refs := CompactStatementEvidence(s.evidenceRefs, request, canonical);
      if refs.Err? {
        assert Sources(draft, key)[i] == s;
        return Err(refs.error);
      }
      prepared := prepared + [s.(evidenceRefs := refs.value)];
    }
    assert draft.statements[..|draft.statements|] == draft.statements;
    r := AppendGroups(prepared, draft.conflictGroups, key, request, canonical);
    var groups := ExpandGroups(draft.conflictGroups, key);
    AllKnownJoins(request, draft.statements, groups);
    PreparedJoins(request, [], draft.statements, groups);
  }

  lemma AllKnownJoins(request: seq<Evidence>, a: seq<DraftStatement>, b: seq<DraftStatement>)
    ensures AllKnown(request, a + b) <==> AllKnown(request, a) && AllKnown(request, b)
  {
    assert forall i | 0 <= i < |a| :: (a + b)[i] == a[i];
    assert forall i | 0 <= i < |b| :: (a + b)[|a| + i] == b[i];
  }

  method AppendGroups(
    prepared: seq<DraftStatement>, groups: seq<ConflictGroup>, key: ConflictGroup -> string,
    request: seq<Evidence>, canonical: map<Element, string>)
    returns (r: Result<seq<DraftStatement>, SourceError>)
    requires IsCanonical(canonical, request)
    ensures r.Ok? <==> AllKnown(request, ExpandGroups(groups, key))
    ensures r.Ok? ==> r.value == prepared + PrepareAll(request, ExpandGroups(groups, key))
  {
    var extended := prepared;
    var seen: set<string> := {};
    for i := 0 to |groups|
      invariant AllKnown(request, ExpandGroups(groups[..i], key))
      invariant extended == prepared + PrepareAll(request, ExpandGroups(groups[..i], key))
      invariant forall k :: k in seen <==> KeySeen(groups[..i], key, k)
    {
      GroupsStep(groups, i, key);
      var groupKey := key(groups[i]);
      if groupKey in seen {
        continue;
      }
      seen := seen + {groupKey};
      var before, more := ExpandGroups(groups[..i], key), Expand(groups[i]);
      AllKnownJoins(request, before, more);
      var appended := AppendPreparedConflictGroup(extended, groups[i], request, canonical);
      if appended.Err? {
        UnknownGroupStays(request, groups, i + 1, key);
        return Err(appended.error);
      }
      PreparedJoins(request, prepared, before, more);
      extended := appended.value;
    }
    assert groups[..|groups|] == groups;
    r := Ok(extended);
  }

  lemma GroupsStep(groups: seq<ConflictGroup>, i: nat, key: ConflictGroup -> string)
    requires i < |groups|
    ensures ExpandGroups(groups[..i + 1], key)
         == ExpandGroups(groups[..i], key)
            + (if KeySeen(groups[..i], key, key(groups[i])) then [] else Expand(groups[i]))
    ensures forall k :: KeySeen(groups[..i + 1], key, k) <==> KeySeen(groups[..i], key, k) || k == key(groups[i])
  {
    assert groups[..i + 1][..i] == groups[..i];
    assert groups[..i + 1] == groups[..i] + [groups[i]];
  }

  lemma PreparedJoins(
    request: seq<Evidence>, prepared: seq<DraftStatement>, a: seq<DraftStatement>, b: seq<DraftStatement>)
    ensures prepared + PrepareAll(request, a) + PrepareAll(request, b) == prepared + PrepareAll(request, a + b)
  {
  }

  lemma {:induction false} UnknownStaysWithOneMore(
    request: seq<Evidence>, groups: seq<ConflictGroup>, key: ConflictGroup -> string)
    requires groups != [] && !AllKnown(request, ExpandGroups(groups[..|groups| - 1], key))
    ensures !AllKnown(request, ExpandGroups(groups, key))
  {
    var n := |groups| - 1;
    var last := if KeySeen(groups[..n], key, key(groups[n])) then [] else Expand(groups[n]);
    AllKnownJoins(request, ExpandGroups(groups[..n], key), last);
  }

  lemma {:induction false} UnknownGroupStays(
    request: seq<Evidence>, groups: seq<ConflictGroup>, k: nat, key: ConflictGroup -> string)
    requires k <= |groups| && !AllKnown(request, ExpandGroups(groups[..k], key))
    ensures !AllKnown(request, ExpandGroups(groups, key))
    decreases |groups|
  {
    if k == |groups| {
      assert groups[..k] == groups;
    } else {
      assert groups[..|groups| - 1][..k] == groups[..k];
      UnknownGroupStays(request, groups[..|groups| - 1], k, key);
      UnknownStaysWithOneMore(request, groups, key);
    }
  }

  // ---------------------------------------------------- what a draft comes to

  /** A conflict group is stated as its scope, each of its positions with its
      own evidence, and its explanation; the two outer statements have the
      evidence of all positions. */
  lemma GroupMeans(g: ConflictGroup)
    ensures var all, n := Expand(g), |g.positions|;
      && |all| == n + 2
      && all[0].content == "Shared scope - context: " + g.sharedScope.context + "; scope: " + g.sharedScope.scope
                           + "; conditions: " + g.sharedScope.conditions
                           + "; time period: " + g.sharedScope.timePeriod + "."
      && (forall i | 0 <= i < n ::
            all[i + 1].content == g.positions[i].claim && all[i + 1].evidenceRefs == g.positions[i].evidenceRefs
            && all[i + 1].presentation == Bullet)
      && all[n + 1].content == g.explanation
      && all[0].presentation == Paragraph && all[n + 1].presentation == Paragraph
      && all[0].evidenceRefs == all[n + 1].evidenceRefs
      && (forall r :: r in all[0].evidenceRefs <==> exists p | p in g.positions :: r in p.evidenceRefs)
      && (forall s | s in all :: s.section == ConflictingEvidence)
  {
    forall r
      ensures r in PositionRefs(g.positions) <==> exists p | p in g.positions :: r in p.evidenceRefs
    {
      PositionRefsMembers(g.positions, r);
    }
  }

  lemma {:induction false} PositionRefsMembers(positions: seq<Position>, r: string)
    ensures r in PositionRefs(positions) <==> exists p | p in positions :: r in p.evidenceRefs
  {
    if positions != [] {
      var n := |positions| - 1;
      PositionRefsMembers(positions[..n], r);
      assert positions == positions[..n] + [positions[n]];
    }
  }

  /** No earlier group has the key of this one. */
  ghost predicate FirstWithKey(groups: seq<ConflictGroup>, key: ConflictGroup -> string, i: nat) {
    i < |groups| && forall j | 0 <= j < i :: key(groups[j]) != key(groups[i])
  }

  function ExpandedAt(groups: seq<ConflictGroup>, at: seq<nat>): seq<DraftStatement>
    requires forall k | 0 <= k < |at| :: at[k] < |groups|
  {
    if at == [] then [] else ExpandedAt(groups, at[..|at| - 1]) + Expand(groups[at[|at| - 1]])
  }

  ghost predicate FirstOnes(groups: seq<ConflictGroup>, key: ConflictGroup -> string, at: seq<nat>) {
    && (forall k | 0 <= k < |at| :: at[k] < |groups|)
    && (forall i, j | 0 <= i < j < |at| :: at[i] < at[j])
    && (forall i: nat :: i in at <==> FirstWithKey(groups, key, i))
  }

  /** Exactly the groups whose key no earlier one has are stated, in order. */
  lemma {:induction false} DistinctGroupsAreStated(groups: seq<ConflictGroup>, key: ConflictGroup -> string)
    returns (at: seq<nat>)
    ensures FirstOnes(groups, key, at)
    ensures ExpandGroups(groups, key) == ExpandedAt(groups, at)
  {
    if groups == [] {
      at := [];
    } else {
      var n := |groups| - 1;
      at := DistinctGroupsAreStated(groups[..n], key);
      FirstOnesStep(groups, key, at);
      ExpandedAtPrefix(groups, n, at);
      if !KeySeen(groups[..n], key, key(groups[n])) {
        OneMoreExpanded(groups, at, n);
        at := at + [n];
      }
    }
  }

  lemma OneMoreExpanded(groups: seq<ConflictGroup>, at: seq<nat>, n: nat)
    requires n < |groups| && forall k | 0 <= k < |at| :: at[k] < |groups|
    ensures ExpandedAt(groups, at + [n]) == ExpandedAt(groups, at) + Expand(groups[n])
  {
    assert (at + [n])[..|at|] == at;
  }

  lemma FirstOnesStep(groups: seq<ConflictGroup>, key: ConflictGroup -> string, before: seq<nat>)
    requires groups != [] && FirstOnes(groups[..|groups| - 1], key, before)
    ensures var n := |groups| - 1;
      FirstOnes(groups, key, if KeySeen(groups[..n], key, key(groups[n])) then before else before + [n])
  {
    var n := |groups| - 1;
    assert forall j | 0 <= j < n :: groups[..n][j] == groups[j] && groups[j] in groups[..n];
    forall i: nat | i < n
      ensures FirstWithKey(groups, key, i) <==> FirstWithKey(groups[..n], key, i)
    {
    }
  }

  lemma {:induction false} ExpandedAtPrefix(groups: seq<ConflictGroup>, n: nat, at: seq<nat>)
    requires n <= |groups| && forall k | 0 <= k < |at| :: at[k] < n
    ensures ExpandedAt(groups[..n], at) == ExpandedAt(groups, at)
  {
    if at != [] {
      ExpandedAtPrefix(groups, n, at[..|at| - 1]);
    }
  }

  /** Compacted references keep the order in which their elements are first
      meant, and each is the first one listed for its element. */
  lemma CompactKeepsOrder(request: seq<Evidence>, refs: seq<string>, i: nat, j: nat) returns (a: nat)
    requires DistinctRefs(request) && Known(request, refs) && i < j < |Compact(request, refs)|
    ensures a < |refs| && ElementOf(request, refs[a]) == ElementOf(request, Compact(request, refs)[i])
    ensures forall b | 0 <= b <= a :: ElementOf(request, refs[b]) != ElementOf(request, Compact(request, refs)[j])
  {
    var all, compact := Canonicals(request, refs), Compact(request, refs);
    a := UniqueInOrder(all, i, j);
    UniqueFacts(all);
    assert compact[j] in all;
    var c :| 0 <= c < |all| && all[c] == compact[j];
    assert refs[a] in refs && refs[c] in refs;
    CanonicalKeepsElement(request, refs[a]);
    CanonicalKeepsElement(request, refs[c]);
    forall b | 0 <= b <= a
      ensures ElementOf(request, refs[b]) != ElementOf(request, compact[j])
    {
      assert refs[b] in refs && all[b] in all[..a + 1];
      CanonicalKeepsElement(request, refs[b]);
    }
  }
}
