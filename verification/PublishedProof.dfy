/** What a compiled answer guarantees: exactly when it passes the validator,
    which citations it lists, and that its statements cite what was drafted. */
module PublishedProof {
  import opened Prelude
  import opened PublishedModel
  import opened Draft
  import opened Labels
  import opened Published
  import Markup

  ghost predicate Injective(newId: nat -> string) {
    forall i: nat, j: nat | i != j :: newId(i) != newId(j)
  }

  // ------------------------------------------------------------- the citations

  lemma {:induction false} CitationNumbers(request: seq<Evidence>, used: set<string>, newId: nat -> string)
    ensures var citations := CitationsFor(request, used, newId);
      && (forall k | 0 <= k < |citations| :: citations[k].number == k + 1 && citations[k].id == newId(k))
      && (forall c | c in citations :: c.number > 0)
  {
    if request != [] {
      var before, citations := CitationsFor(request[..|request| - 1], used, newId), CitationsFor(request, used, newId);
      CitationNumbers(request[..|request| - 1], used, newId);
      forall k | 0 <= k < |citations|
        ensures citations[k].number == k + 1 && citations[k].id == newId(k)
      {
        assert if k < |before| then citations[k] == before[k] else k == |before|;
      }
    }
  }

  /** References and citations stand in a one to one relation. */
  ghost predicate OneToOne(citations: seq<Citation>, byRef: map<string, Citation>) {
    && (forall r | r in byRef :: byRef[r] in citations)
    && (forall c | c in citations :: exists r :: r in byRef && byRef[r] == c)
    && (forall r, q | r in byRef && q in byRef && r != q :: byRef[r].number != byRef[q].number)
  }

  lemma {:induction false} CitationsAreOneToOne(request: seq<Evidence>, used: set<string>, newId: nat -> string)
    requires DistinctRefs(request)
    ensures OneToOne(CitationsFor(request, used, newId), CitationByRef(request, used, newId))
  {
    if request != [] {
      var n := |request| - 1;
      var last := request[n];
      CitationsAreOneToOne(request[..n], used, newId);
      CitationNumbers(request[..n], used, newId);
      CitationByRefKeys(request[..n], used, newId);
      if last.ref in used {
        var count := |CitationsFor(request[..n], used, newId)|;
        OneMoreEntry(CitationsFor(request[..n], used, newId), CitationByRef(request[..n], used, newId),
                     last.ref, Citation(newId(count), count + 1, last.element));
      }
    }
  }

  /** A used reference is cited for the element it stands for. */
  lemma {:induction false} CitationsKeepElements(request: seq<Evidence>, used: set<string>, newId: nat -> string)
    requires DistinctRefs(request)
    ensures forall e | e in request && e.ref in used ::
              && e.ref in CitationByRef(request, used, newId)
              && CitationByRef(request, used, newId)[e.ref].element == e.element
  {
    if request != [] {
      var n := |request| - 1;
      CitationsKeepElements(request[..n], used, newId);
      assert request == request[..n] + [request[n]];
    }
  }

  lemma OneMoreEntry(citations: seq<Citation>, byRef: map<string, Citation>, ref: string, c: Citation)
    requires OneToOne(citations, byRef) && ref !in byRef
    requires forall k | 0 <= k < |citations| :: citations[k].number != c.number
    ensures OneToOne(citations + [c], byRef[ref := c])
  {
    var more := byRef[ref := c];
    forall x | x in citations + [c]
      ensures exists r :: r in more && more[r] == x
    {
      if x in citations {
        var r :| r in byRef && byRef[r] == x;
        assert more[r] == x;
      } else {
        assert more[ref] == x;
      }
    }
  }

  // ------------------------------------------------------------- the statements

  function ElementsCited(ids: seq<string>, citations: seq<Citation>): set<Element> {
    set k | 0 <= k < |citations| && citations[k].id in ids :: citations[k].element
  }

  lemma {:induction false} InSectionMembers(statements: seq<DraftStatement>, direct: nat, section: Section)
    ensures forall s | s in InSection(statements, direct, section) :: s.section == section
    ensures forall s :: s in InSection(statements, direct, section) <==>
              s.section == section && exists i | 0 <= i < |statements| :: i != direct && statements[i] == s
  {
    if statements != [] {
      var n := |statements| - 1;
      var earlier := statements[..n];
      InSectionMembers(earlier, direct, section);
      forall s
        ensures s in InSection(statements, direct, section) <==>
                s.section == section && exists i | 0 <= i < |statements| :: i != direct && statements[i] == s
      {
        if i :| 0 <= i < |statements| && i != direct && statements[i] == s && i < n {
          assert earlier[i] == s;
        }
        if i :| 0 <= i < n && i != direct && earlier[i] == s {
          assert statements[i] == s;
        }
      }
    }
  }

  lemma ArrangeMembers(statements: seq<DraftStatement>, direct: nat)
    ensures forall s :: s in Arrange(statements, direct) <==>
              exists i | 0 <= i < |statements| :: i != direct && statements[i] == s
  {
    InSectionMembers(statements, direct, Answer);
    InSectionMembers(statements, direct, KeyPoints);
    InSectionMembers(statements, direct, ConflictingEvidence);
    forall s
      ensures s in Arrange(statements, direct) <==>
              exists i | 0 <= i < |statements| :: i != direct && statements[i] == s
    {
      assert s.section == Answer || s.section == KeyPoints || s.section == ConflictingEvidence;
    }
  }

  /** Arranging loses and repeats nothing. */
  lemma ArrangePermutes(statements: seq<DraftStatement>, direct: nat)
    requires direct < |statements|
    ensures multiset(Arrange(statements, direct)) == multiset(statements) - multiset{statements[direct]}
  {
    SectionsPermute(statements, direct);
    assert multiset(Arrange(statements, direct)) + multiset{statements[direct]} == multiset(statements);
  }

  lemma {:induction false} SectionsPermute(statements: seq<DraftStatement>, direct: nat)
    ensures multiset(InSection(statements, direct, Answer)) + multiset(InSection(statements, direct, KeyPoints))
            + multiset(InSection(statements, direct, ConflictingEvidence))
            + (if direct < |statements| then multiset{statements[direct]} else multiset{})
         == multiset(statements)
  {
    if statements != [] {
      var n := |statements| - 1;
      SectionsPermute(statements[..n], direct);
      assert statements == statements[..n] + [statements[n]];
      if n != direct {
        AddsToOwnSection(statements, direct, Answer);
        AddsToOwnSection(statements, direct, KeyPoints);
        AddsToOwnSection(statements, direct, ConflictingEvidence);
      }
    }
  }

  lemma AddsToOwnSection(statements: seq<DraftStatement>, direct: nat, section: Section)
    requires statements != [] && |statements| - 1 != direct
    ensures var n := |statements| - 1;
      multiset(InSection(statements, direct, section))
      == multiset(InSection(statements[..n], direct, section))
         + (if statements[n].section == section then multiset{statements[n]} else multiset{})
  {
  }

  lemma {:induction false} InSectionPrepared(
    request: seq<Evidence>, sources: seq<DraftStatement>, direct: nat, section: Section)
    ensures InSection(PrepareAll(request, sources), direct, section)
         == PrepareAll(request, InSection(sources, direct, section))
  {
    if sources != [] {
      var n := |sources| - 1;
      InSectionPrepared(request, sources[..n], direct, section);
      assert PrepareAll(request, sources)[..n] == PrepareAll(request, sources[..n]);
    }
  }

  lemma ArrangePrepared(request: seq<Evidence>, sources: seq<DraftStatement>, direct: nat)
    ensures Arrange(PrepareAll(request, sources), direct) == PrepareAll(request, Arrange(sources, direct))
  {
    InSectionPrepared(request, sources, direct, Answer);
    InSectionPrepared(request, sources, direct, KeyPoints);
    InSectionPrepared(request, sources, direct, ConflictingEvidence);
  }

  lemma SectionsAreOrdered(statements: seq<DraftStatement>, direct: nat, byRef: map<string, Citation>)
    ensures InSectionOrder(StatementsFor(Arrange(statements, direct), byRef))
  {
    var a := InSection(statements, direct, Answer);
    var k := InSection(statements, direct, KeyPoints);
    var c := InSection(statements, direct, ConflictingEvidence);
    InSectionMembers(statements, direct, Answer);
    InSectionMembers(statements, direct, KeyPoints);
    InSectionMembers(statements, direct, ConflictingEvidence);
    forall i | 0 <= i < |a + k + c|
      ensures Rank((a + k + c)[i].section) == if i < |a| then 0 else if i < |a| + |k| then 1 else 2
    {
      assert (a + k + c)[i] == if i < |a| then a[i] else if i < |a| + |k| then k[i - |a|] else c[i - |a| - |k|];
    }
  }

  // --------------------------------------------------- what one statement cites

  /** The citations of a used statement: each listed once, and for exactly the
      elements that the drafted references mean. */
  lemma StatementCites(request: seq<Evidence>, used: set<string>, newId: nat -> string, refs: seq<string>)
    requires DistinctRefs(request) && Injective(newId) && Known(request, refs)
    requires forall r | r in Compact(request, refs) :: r in used
    ensures var citations := CitationsFor(request, used, newId);
      var ids := CitationIds(Compact(request, refs), CitationByRef(request, used, newId));
      && NoRepeats(ids) && (forall id | id in ids :: id in IdsOf(citations))
      && (ids == [] <==> refs == [])
      && ElementsCited(ids, citations) == ElementsMeant(request, refs)
  {
    var citations, byRef := CitationsFor(request, used, newId), CitationByRef(request, used, newId);
    var compact := Compact(request, refs);
    CitationsAreOneToOne(request, used, newId);
    CitationsKeepElements(request, used, newId);
    CompactKeepsElements(request, refs);
    forall r | r in compact
      ensures r in byRef && ElementOf(request, r) == Some(byRef[r].element)
    {
      CompactIsListed(request, refs, r);
      RefsStandForOne(request);
    }
    IdsTellApart(request, used, newId);
    UniqueFacts(Canonicals(request, refs));
    RefsToIds(citations, byRef, compact);
    RefsToElements(request, citations, byRef, compact);
  }

  /** Listed citations are as different as their references. */
  lemma IdsTellApart(request: seq<Evidence>, used: set<string>, newId: nat -> string)
    requires DistinctRefs(request) && Injective(newId)
    ensures var citations, byRef := CitationsFor(request, used, newId), CitationByRef(request, used, newId);
      && DistinctCitations(citations)
      && (forall r | r in byRef :: byRef[r] in citations)
      && (forall r, q | r in byRef && q in byRef && r != q :: byRef[r].id != byRef[q].id)
  {
    var citations, byRef := CitationsFor(request, used, newId), CitationByRef(request, used, newId);
    CitationsAreOneToOne(request, used, newId);
    CitationNumbers(request, used, newId);
    forall i, j | 0 <= i < j < |citations|
      ensures citations[i].id != citations[j].id && citations[i].number != citations[j].number
    {
      assert newId(i) != newId(j);
    }
    forall r, q | r in byRef && q in byRef && r != q
      ensures byRef[r].id != byRef[q].id
    {
      var i :| 0 <= i < |citations| && citations[i] == byRef[r];
      var j :| 0 <= j < |citations| && citations[j] == byRef[q];
      assert i < j || j < i;
    }
  }

  lemma RefsToIds(citations: seq<Citation>, byRef: map<string, Citation>, refs: seq<string>)
    requires forall r | r in byRef :: byRef[r] in citations
    requires forall r, q | r in byRef && q in byRef && r != q :: byRef[r].id != byRef[q].id
    requires forall r | r in refs :: r in byRef
    requires forall i, j | 0 <= i < j < |refs| :: refs[i] != refs[j]
    ensures NoRepeats(CitationIds(refs, byRef))
    ensures forall id | id in CitationIds(refs, byRef) :: id in IdsOf(citations)
  {
    var ids := CitationIds(refs, byRef);
    forall i | 0 <= i < |refs|
      ensures refs[i] in byRef && ids[i] == byRef[refs[i]].id && ids[i] in IdsOf(citations)
    {
      assert refs[i] in refs;
      var k :| 0 <= k < |citations| && citations[k] == byRef[refs[i]];
      assert IdsOf(citations)[k] == ids[i];
    }
  }

  lemma RefsToElements(
    request: seq<Evidence>, citations: seq<Citation>, byRef: map<string, Citation>, refs: seq<string>)
    requires DistinctCitations(citations) && forall r | r in byRef :: byRef[r] in citations
    requires forall r | r in refs :: r in byRef && ElementOf(request, r) == Some(byRef[r].element)
    ensures ElementsCited(CitationIds(refs, byRef), citations) == ElementsMeant(request, refs)
  {
    var ids := CitationIds(refs, byRef);
    forall e
      ensures e in ElementsCited(ids, citations) <==> e in ElementsMeant(request, refs)
    {
      if e in ElementsCited(ids, citations) {
        var k :| 0 <= k < |citations| && citations[k].id in ids && citations[k].element == e;
        var i :| 0 <= i < |ids| && ids[i] == citations[k].id;
        assert refs[i] in refs;
        var m :| 0 <= m < |citations| && citations[m] == byRef[refs[i]];
        assert m == k;
        assert ElementOf(request, refs[i]) == Some(e);
      }
      if e in ElementsMeant(request, refs) {
        var i :| 0 <= i < |refs| && ElementOf(request, refs[i]) == Some(e);
        assert refs[i] in refs;
        var k :| 0 <= k < |citations| && citations[k] == byRef[refs[i]];
        assert ids[i] == citations[k].id;
      }
    }
  }

  // --------------------------------------------------------------- the document

  /** An answer that can be published: its direct answer is not blank, and
      every other statement has content and evidence. */
  predicate Publishable(sources: seq<DraftStatement>, direct: nat)
    requires direct < |sources|
  {
    && Markup.Trim(sources[direct].content) != ""
    && forall i | 0 <= i < |sources| && i != direct ::
         sources[i].evidenceRefs != [] && Markup.Trim(sources[i].content) != ""
  }

  /** A request whose evidence each has its own reference, known to the draft. */
  ghost predicate GoodRequest(
    request: seq<Evidence>, sources: seq<DraftStatement>, direct: nat, newId: nat -> string)
  {
    DistinctRefs(request) && Injective(newId) && AllKnown(request, sources) && direct < |sources|
  }

  /** Statement i of the document, and the source it was made from. */
  lemma DocumentStatement(
    request: seq<Evidence>, sources: seq<DraftStatement>, direct: nat, newId: nat -> string, i: nat)
    requires GoodRequest(request, sources, direct, newId) && i < |Arrange(sources, direct)|
    ensures var document := Compiled(request, PrepareAll(request, sources), direct, newId);
      var source := Arrange(sources, direct)[i];
      && |document.statements| == |Arrange(sources, direct)|
      && var s := document.statements[i];
        && s.content == source.content && s.presentation == source.presentation && s.section == source.section
        && CitesOnly(s, IdsOf(document.citations))
        && (s.citationIds == [] <==> source.evidenceRefs == [])
        && ElementsCited(s.citationIds, document.citations) == ElementsMeant(request, source.evidenceRefs)
  {
    var prepared, source := PrepareAll(request, sources), Arrange(sources, direct)[i];
    var used := UsedRefs(prepared, direct);
    ArrangePrepared(request, sources, direct);
    ArrangeMembers(sources, direct);
    assert source in Arrange(sources, direct);
    var at :| 0 <= at < |sources| && at != direct && sources[at] == source;
    forall r | r in Compact(request, source.evidenceRefs)
      ensures r in used
    {
      assert r in prepared[at].evidenceRefs;
      assert Uses(prepared, direct, r);
    }
    StatementCites(request, used, newId, source.evidenceRefs);
  }

  /** The references of a compiled document are always valid. */
  lemma CompiledReferencesAreValid(
    request: seq<Evidence>, sources: seq<DraftStatement>, direct: nat, newId: nat -> string)
    requires GoodRequest(request, sources, direct, newId)
    ensures ReferencesValid(Compiled(request, PrepareAll(request, sources), direct, newId))
  {
    var prepared := PrepareAll(request, sources);
    var document := Compiled(request, prepared, direct, newId);
    var used := UsedRefs(prepared, direct);
    IdsTellApart(request, used, newId);
    SectionsAreOrdered(prepared, direct, CitationByRef(request, used, newId));
    forall s | s in document.statements
      ensures CitesOnly(s, IdsOf(document.citations))
    {
      var i :| 0 <= i < |document.statements| && document.statements[i] == s;
      ArrangePrepared(request, sources, direct);
      DocumentStatement(request, sources, direct, newId, i);
    }
    forall c | c in document.citations
      ensures CitedBy(c.id, document.statements)
    {
      CitationIsUsed(request, prepared, direct, newId, c);
    }
  }

  lemma CitationIsUsed(
    request: seq<Evidence>, prepared: seq<DraftStatement>, direct: nat, newId: nat -> string, c: Citation)
    requires DistinctRefs(request) && direct < |prepared|
    requires c in Compiled(request, prepared, direct, newId).citations
    ensures CitedBy(c.id, Compiled(request, prepared, direct, newId).statements)
  {
    var document := Compiled(request, prepared, direct, newId);
    var used := UsedRefs(prepared, direct);
    var byRef := CitationByRef(request, used, newId);
    CitationsAreOneToOne(request, used, newId);
    CitationByRefKeys(request, used, newId);
    var r :| r in byRef && byRef[r] == c;
    var i :| 0 <= i < |prepared| && i != direct && r in prepared[i].evidenceRefs;
    var k := ArrangedAt(prepared, direct, i);
    var m :| 0 <= m < |prepared[i].evidenceRefs| && prepared[i].evidenceRefs[m] == r;
    assert document.statements[k].citationIds[m] == c.id;
    assert document.statements[k] in document.statements;
  }

  lemma ArrangedAt(statements: seq<DraftStatement>, direct: nat, i: nat) returns (k: nat)
    requires i < |statements| && i != direct
    ensures k < |Arrange(statements, direct)| && Arrange(statements, direct)[k] == statements[i]
  {
    ArrangeMembers(statements, direct);
    assert statements[i] in Arrange(statements, direct);
    k :| 0 <= k < |Arrange(statements, direct)| && Arrange(statements, direct)[k] == statements[i];
  }

  /** A draft compiles to a document that the validator accepts exactly if its
      direct answer has content and every other statement has content and
      evidence: no reference that a draft can make goes wrong. */
  lemma PublishedExactlyWhen(
    request: seq<Evidence>, sources: seq<DraftStatement>, direct: nat, newId: nat -> string)
    requires GoodRequest(request, sources, direct, newId)
    ensures ValidDocument(Compiled(request, PrepareAll(request, sources), direct, newId)) <==>
            Publishable(sources, direct)
  {
    var document := Compiled(request, PrepareAll(request, sources), direct, newId);
    CompiledReferencesAreValid(request, sources, direct, newId);
    CitationNumbers(request, UsedRefs(PrepareAll(request, sources), direct), newId);
    CompiledMirrors(request, sources, direct, newId);
    if ValidDocument(document) {
      ValidIsPublishable(document, sources, direct);
    }
    if Publishable(sources, direct) {
      PublishableIsValid(document, sources, direct);
    }
  }

  lemma CompiledMirrors(
    request: seq<Evidence>, sources: seq<DraftStatement>, direct: nat, newId: nat -> string)
    requires GoodRequest(request, sources, direct, newId)
    ensures Mirrors(Compiled(request, PrepareAll(request, sources), direct, newId), Arrange(sources, direct))
  {
    var document, arranged := Compiled(request, PrepareAll(request, sources), direct, newId), Arrange(sources, direct);
    ArrangePrepared(request, sources, direct);
    forall i | 0 <= i < |arranged|
      ensures document.statements[i].content == arranged[i].content
      ensures document.statements[i].citationIds == [] <==> arranged[i].evidenceRefs == []
    {
      DocumentStatement(request, sources, direct, newId, i);
    }
  }

  ghost predicate Mirrors(document: Document, arranged: seq<DraftStatement>) {
    && |document.statements| == |arranged|
    && forall i | 0 <= i < |arranged| ::
         && document.statements[i].content == arranged[i].content
         && (document.statements[i].citationIds == [] <==> arranged[i].evidenceRefs == [])
  }

  lemma ValidIsPublishable(document: Document, sources: seq<DraftStatement>, direct: nat)
    requires direct < |sources| && Mirrors(document, Arrange(sources, direct)) && ValidDocument(document)
    requires document.content == sources[direct].content
    ensures Publishable(sources, direct)
  {
    forall i | 0 <= i < |sources| && i != direct
      ensures sources[i].evidenceRefs != [] && Markup.Trim(sources[i].content) != ""
    {
      var k := ArrangedAt(sources, direct, i);
      assert document.statements[k] in document.statements;
    }
  }

  lemma PublishableIsValid(document: Document, sources: seq<DraftStatement>, direct: nat)
    requires direct < |sources| && Mirrors(document, Arrange(sources, direct)) && Publishable(sources, direct)
    requires document.content == sources[direct].content
    requires ReferencesValid(document) && forall c | c in document.citations :: c.number > 0
    ensures ValidDocument(document)
  {
    ArrangeMembers(sources, direct);
    var arranged := Arrange(sources, direct);
    forall s | s in document.statements
      ensures s.citationIds != [] && Markup.Trim(s.content) != ""
    {
      var k :| 0 <= k < |arranged| && document.statements[k] == s;
      assert arranged[k] in arranged;
    }
    if document.statements != [] {
      var s := document.statements[0];
      assert s in document.statements && s.citationIds[0] in s.citationIds;
      assert s.citationIds[0] in IdsOf(document.citations);
    }
    if document.citations != [] {
      assert document.citations[0] in document.citations;
      assert CitedBy(document.citations[0].id, document.statements);
    }
  }

  // ------------------------------------------------------- which elements, in order

  function ElementsOf(request: seq<Evidence>): seq<Element> {
    seq(|request|, i requires 0 <= i < |request| => request[i].element)
  }

  function CitedElements(citations: seq<Citation>): seq<Element> {
    seq(|citations|, i requires 0 <= i < |citations| => citations[i].element)
  }

  /** The members of a sequence that are wanted, in order. */
  function Retain<T(==)>(s: seq<T>, wanted: set<T>): seq<T> {
    if s == [] then []
    else
      var before := Retain(s[..|s| - 1], wanted);
      if s[|s| - 1] in wanted then before + [s[|s| - 1]] else before
  }

  /** The elements that the statements other than the direct answer refer to. */
  function Referenced(request: seq<Evidence>, sources: seq<DraftStatement>, direct: nat): set<Element> {
    set i, k | 0 <= i < |sources| && i != direct && 0 <= k < |sources[i].evidenceRefs|
               && ElementOf(request, sources[i].evidenceRefs[k]).Some?
      :: ElementOf(request, sources[i].evidenceRefs[k]).value
  }

  /** The citations are exactly the referenced elements, numbered from one in
      the order in which they were retrieved. */
  lemma CitationsAreTheReferenced(
    request: seq<Evidence>, sources: seq<DraftStatement>, direct: nat, newId: nat -> string)
    requires GoodRequest(request, sources, direct, newId)
    ensures var citations := Compiled(request, PrepareAll(request, sources), direct, newId).citations;
      && CitedElements(citations) == Retain(Unique(ElementsOf(request)), Referenced(request, sources, direct))
      && (forall k | 0 <= k < |citations| :: citations[k].number == k + 1)
  {
    var used := UsedRefs(PrepareAll(request, sources), direct);
    var wanted := Referenced(request, sources, direct);
    CitationNumbers(request, used, newId);
    forall i | 0 <= i < |request|
      ensures request[i].ref in used <==> request[i].element in wanted && request[i].element !in ElementsOf(request[..i])
    {
      UsedMeansReferenced(request, sources, direct, request[i].ref);
      FirstRefIsFirst(request, i);
    }
    CitedInOrder(request, used, wanted, newId);
  }

  /** A reference is used exactly if it is the canonical one of an element that
      is referenced. */
  lemma UsedMeansReferenced(request: seq<Evidence>, sources: seq<DraftStatement>, direct: nat, ref: string)
    requires DistinctRefs(request) && AllKnown(request, sources)
    ensures ref in UsedRefs(PrepareAll(request, sources), direct) <==>
            exists e | e in Referenced(request, sources, direct) :: FirstRef(request, e) == Some(ref)
  {
    var prepared := PrepareAll(request, sources);
    if Uses(prepared, direct, ref) {
      var i :| 0 <= i < |prepared| && i != direct && ref in prepared[i].evidenceRefs;
      UniqueFacts(Canonicals(request, sources[i].evidenceRefs));
      var k :| 0 <= k < |sources[i].evidenceRefs| && Canonicals(request, sources[i].evidenceRefs)[k] == ref;
      assert sources[i].evidenceRefs[k] in sources[i].evidenceRefs;
      CanonicalKeepsElement(request, sources[i].evidenceRefs[k]);
      assert ElementOf(request, sources[i].evidenceRefs[k]).value in Referenced(request, sources, direct);
    }
    if e :| e in Referenced(request, sources, direct) && FirstRef(request, e) == Some(ref) {
      var i, k :| 0 <= i < |sources| && i != direct && 0 <= k < |sources[i].evidenceRefs|
                  && ElementOf(request, sources[i].evidenceRefs[k]) == Some(e);
      UniqueFacts(Canonicals(request, sources[i].evidenceRefs));
      assert Canonicals(request, sources[i].evidenceRefs)[k] == ref;
      assert ref in prepared[i].evidenceRefs;
    }
  }

  lemma {:induction false} FirstRefIsFirst(request: seq<Evidence>, i: nat)
    requires DistinctRefs(request) && i < |request|
    ensures forall e :: FirstRef(request, e) == Some(request[i].ref) <==>
              e == request[i].element && e !in ElementsOf(request[..i])
    decreases |request|
  {
    var n := |request| - 1;
    assert request == request[..n] + [request[n]];
    forall e
      ensures FirstRef(request, e) == Some(request[i].ref) <==>
              e == request[i].element && e !in ElementsOf(request[..i])
    {
      FirstRefIsListed(request[..n], e);
      if i < n {
        FirstRefIsFirst(request[..n], i);
        assert request[..n][..i] == request[..i];
      } else {
        ListedElements(request[..n], e);
      }
    }
  }

  lemma {:induction false} ListedElements(request: seq<Evidence>, element: Element)
    ensures FirstRef(request, element).Some? <==> element in ElementsOf(request)
  {
    FirstRefIsListed(request, element);
    if element in ElementsOf(request) {
      var i :| 0 <= i < |request| && ElementsOf(request)[i] == element;
      assert request[i] in request;
    }
    if FirstRef(request, element).Some? {
      var i :| 0 <= i < |request| && request[i] == Evidence(FirstRef(request, element).value, element);
      assert ElementsOf(request)[i] == element;
    }
  }

  lemma RetainSnoc<T>(s: seq<T>, x: T, wanted: set<T>)
    ensures Retain(s + [x], wanted) == Retain(s, wanted) + (if x in wanted then [x] else [])
  {
    assert (s + [x])[..|s|] == s;
  }

  lemma CitedSnoc(request: seq<Evidence>, used: set<string>, newId: nat -> string)
    requires request != []
    ensures var n := |request| - 1;
      CitedElements(CitationsFor(request, used, newId))
      == CitedElements(CitationsFor(request[..n], used, newId))
         + (if request[n].ref in used then [request[n].element] else [])
  {
  }

  lemma {:induction false} CitedInOrder(
    request: seq<Evidence>, used: set<string>, wanted: set<Element>, newId: nat -> string)
    requires forall i | 0 <= i < |request| ::
               request[i].ref in used <==>
               request[i].element in wanted && request[i].element !in ElementsOf(request[..i])
    ensures CitedElements(CitationsFor(request, used, newId)) == Retain(Unique(ElementsOf(request)), wanted)
  {
    if request != [] {
      var n := |request| - 1;
      assert forall i | 0 <= i < n :: request[..n][..i] == request[..i];
      CitedInOrder(request[..n], used, wanted, newId);
      assert ElementsOf(request)[..n] == ElementsOf(request[..n]);
      RetainSnoc(Unique(ElementsOf(request[..n])), request[n].element, wanted);
      CitedSnoc(request, used, newId);
    } else {
      assert Unique(ElementsOf(request)) == [];
    }
  }

  // ------------------------------------------------------------------- altogether

  /** Every published statement says what was drafted and cites exactly the
      elements the draft referred to; none is lost or added. */
  lemma StatementsAreFaithful(
    request: seq<Evidence>, sources: seq<DraftStatement>, direct: nat, newId: nat -> string)
    requires GoodRequest(request, sources, direct, newId)
    ensures multiset(Arrange(sources, direct)) == multiset(sources) - multiset{sources[direct]}
    ensures var document := Compiled(request, PrepareAll(request, sources), direct, newId);
      && |document.statements| == |Arrange(sources, direct)|
      && forall i | 0 <= i < |document.statements| ::
           && document.statements[i].content == Arrange(sources, direct)[i].content
           && document.statements[i].presentation == Arrange(sources, direct)[i].presentation
           && document.statements[i].section == Arrange(sources, direct)[i].section
           && ElementsCited(document.statements[i].citationIds, document.citations)
              == ElementsMeant(request, Arrange(sources, direct)[i].evidenceRefs)
  {
    ArrangePermutes(sources, direct);
    ArrangePrepared(request, sources, direct);
    forall i | 0 <= i < |Arrange(sources, direct)|
      ensures var document := Compiled(request, PrepareAll(request, sources), direct, newId);
        && document.statements[i].content == Arrange(sources, direct)[i].content
        && document.statements[i].presentation == Arrange(sources, direct)[i].presentation
        && document.statements[i].section == Arrange(sources, direct)[i].section
        && ElementsCited(document.statements[i].citationIds, document.citations)
           == ElementsMeant(request, Arrange(sources, direct)[i].evidenceRefs)
    {
      DocumentStatement(request, sources, direct, newId, i);
    }
  }

  /** What makes compiling a draft fail, and nothing else: a reference that is
      not known, no direct answer, or a statement without content or evidence. */
  lemma {:induction false} CompilesExactlyWhen(
    r: Result<Document, SourceError>, request: seq<Evidence>, sources: seq<DraftStatement>, newId: nat -> string)
    requires IsCompiled(r, request, sources, newId) && DistinctRefs(request) && Injective(newId)
    ensures r.Ok? <==>
            && AllKnown(request, sources)
            && DirectIndex(sources).Some? && DirectIndex(sources).value < |sources|
            && Publishable(sources, DirectIndex(sources).value)
  {
    DirectFacts(sources);
    if AllKnown(request, sources) && DirectIndex(sources).Some? {
      PublishedExactlyWhen(request, sources, DirectIndex(sources).value, newId);
    }
  }

  /** A draft that compiles becomes an answered document, with citations and
      statements, exactly if it states more than its direct answer. */
  lemma AnsweredExactlyWhen(
    request: seq<Evidence>, sources: seq<DraftStatement>, direct: nat, newId: nat -> string)
    requires GoodRequest(request, sources, direct, newId) && Publishable(sources, direct)
    ensures var document := Compiled(request, PrepareAll(request, sources), direct, newId);
      && (document.citations == [] <==> |sources| == 1)
      && (document.statements == [] <==> |sources| == 1)
  {
    var document := Compiled(request, PrepareAll(request, sources), direct, newId);
    PublishedExactlyWhen(request, sources, direct, newId);
    CompiledMirrors(request, sources, direct, newId);
    ArrangePermutes(sources, direct);
    assert |multiset(Arrange(sources, direct))| == |Arrange(sources, direct)|;
    assert |multiset(sources)| == |sources|;
  }

  /** A conflict group states at least two things. */
  lemma {:induction false} SoleSource(draft: AnswerDraft, key: ConflictGroup -> string)
    requires draft.Answered?
    ensures draft.conflictGroups != [] ==> |ExpandGroups(draft.conflictGroups, key)| >= 2
    ensures |Sources(draft, key)| == 1 <==> |draft.statements| == 1 && draft.conflictGroups == []
    decreases |draft.conflictGroups|
  {
    var groups := draft.conflictGroups;
    if |groups| > 1 {
      SoleSource(draft.(conflictGroups := groups[..|groups| - 1]), key);
    } else if |groups| == 1 {
      assert groups[..0] == [] && ExpandGroups([], key) == [];
      assert Expand(groups[0])[0] == Opening(groups[0]);
    }
  }

  /** What compiling a draft returns has citations exactly if the draft has more
      than one statement or a conflict group. */
  lemma CompilesToAnsweredExactlyWhen(
    r: Result<Document, SourceError>, request: seq<Evidence>, draft: AnswerDraft, key: ConflictGroup -> string,
    newId: nat -> string)
    requires draft.Answered? && DistinctRefs(request) && Injective(newId)
    requires IsCompiled(r, request, Sources(draft, key), newId) && r.Ok?
    ensures r.value.citations != [] <==> |draft.statements| > 1 || draft.conflictGroups != []
    ensures r.value.statements != [] <==> |draft.statements| > 1 || draft.conflictGroups != []
  {
    var sources := Sources(draft, key);
    DirectFacts(sources);
    var direct := DirectIndex(sources).value;
    CompilesExactlyWhen(r, request, sources, newId);
    AnsweredExactlyWhen(request, sources, direct, newId);
    SoleSource(draft, key);
  }

  /** For one: an answered draft of the single statement "Yes." compiles, and the
      document has neither citations nor statements. */
  lemma SoleStatementCompilesUncited(
    r: Result<Document, SourceError>, request: seq<Evidence>, key: ConflictGroup -> string, newId: nat -> string)
    requires DistinctRefs(request) && Injective(newId)
    requires IsCompiled(r, request, Sources(Answered([DraftStatement([], "Yes.", Paragraph, Answer)], []), key), newId)
    ensures r == Ok(Document("Yes.", [], []))
  {
    var draft := Answered([DraftStatement([], "Yes.", Paragraph, Answer)], []);
    var sources := Sources(draft, key);
    assert sources == [draft.statements[0]];
    assert sources[..0] == [] && DirectIndex([]) == None;
    assert DirectIndex(sources) == Some(0);
    assert Markup.Trim("Yes.") == "Yes.";
    CompilesExactlyWhen(r, request, sources, newId);
    CompilesToAnsweredExactlyWhen(r, request, draft, key, newId);
    assert Compiled(request, PrepareAll(request, sources), 0, newId).content == "Yes.";
  }

  /** Without references of its own a request gets distinct labels, so the
      hypotheses above come down to known references. */
  lemma DefaultReferencesAreGood(retrieved: seq<Element>)
    ensures |RefsFor(None, |retrieved|)| == |retrieved|
    ensures DistinctRefs(Pair(RefsFor(None, |retrieved|), retrieved))
  {
    ReferencesAreDistinct(|retrieved|);
  }
}
