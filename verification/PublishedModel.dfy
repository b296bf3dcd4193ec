/** The published answer document and the check that it must pass: what a
    statement cites exists, once, and what is listed is cited. */
module PublishedModel {
  import opened Prelude
  import opened Markup

  datatype Presentation = Paragraph | Bullet

  datatype Section = Answer | KeyPoints | ConflictingEvidence

  /** The position in the canonical order of sections. */
  function Rank(section: Section): nat {
    match section
    case Answer => 0
    case KeyPoints => 1
    case ConflictingEvidence => 2
  }

  /** What identifies a retrieved element. */
  datatype Element = Element(versionId: string, documentId: string, elementId: string)

  datatype Citation = Citation(id: string, number: int, element: Element)

  datatype Statement = Statement(citationIds: seq<string>, content: string, presentation: Presentation, section: Section)

  datatype Document = Document(content: string, citations: seq<Citation>, statements: seq<Statement>)

  // ------------------------------------------------------------ what is valid

  predicate DistinctCitations(citations: seq<Citation>) {
    forall i, j | 0 <= i < j < |citations| ::
      citations[i].id != citations[j].id && citations[i].number != citations[j].number
  }

  predicate InSectionOrder(statements: seq<Statement>) {
    forall i, j | 0 <= i < j < |statements| :: Rank(statements[i].section) <= Rank(statements[j].section)
  }

  predicate NoRepeats(ids: seq<string>) {
    forall i, j | 0 <= i < j < |ids| :: ids[i] != ids[j]
  }

  function IdsOf(citations: seq<Citation>): seq<string> {
    seq(|citations|, i requires 0 <= i < |citations| => citations[i].id)
  }

  predicate CitesOnly(s: Statement, ids: seq<string>) {
    NoRepeats(s.citationIds) && forall id | id in s.citationIds :: id in ids
  }

  predicate CitedBy(id: string, statements: seq<Statement>) {
    exists s | s in statements :: id in s.citationIds
  }

  predicate ReferencesValid(document: Document) {
    && DistinctCitations(document.citations)
    && InSectionOrder(document.statements)
    && (forall s | s in document.statements :: CitesOnly(s, IdsOf(document.citations)))
    && (forall c | c in document.citations :: CitedBy(c.id, document.statements))
  }

  /** The two shapes of the schema: an answer without citations and statements,
      or one with both. */
  predicate ShapeValid(document: Document) {
    && Trim(document.content) != ""
    && (|| (document.citations == [] && document.statements == [])
        || (&& document.citations != [] && document.statements != []
            && (forall c | c in document.citations :: c.number > 0)
            && (forall s | s in document.statements :: s.citationIds != [] && Trim(s.content) != "")))
  }

  /** Only answers come before an answer, and only conflicting evidence after such. */
  ghost predicate SectionsInOrder(statements: seq<Statement>) {
    forall i, j | 0 <= i < j < |statements| ::
      && (statements[j].section == Answer ==> statements[i].section == Answer)
      && (statements[i].section == ConflictingEvidence ==> statements[j].section == ConflictingEvidence)
  }

  /** The rules on references, one by one. */
  ghost predicate ReferencesMeet(document: Document) {
    var citations, statements := document.citations, document.statements;
    && (forall i, j | 0 <= i < j < |citations| ::
          citations[i].id != citations[j].id && citations[i].number != citations[j].number)
    && SectionsInOrder(statements)
    && (forall s, i, j | s in statements && 0 <= i < j < |s.citationIds| :: s.citationIds[i] != s.citationIds[j])
    && (forall s, id | s in statements && id in s.citationIds :: exists c | c in citations :: c.id == id)
    && (forall c | c in citations :: exists s | s in statements :: c.id in s.citationIds)
  }

  lemma ReferencesValidExactlyWhen(document: Document)
    ensures ReferencesValid(document) <==> ReferencesMeet(document)
  {
    var citations, statements := document.citations, document.statements;
    IdsAre(citations);
    SectionsExactlyWhen(statements);
    forall s | s in statements
      ensures CitesOnly(s, IdsOf(citations)) <==>
              && (forall i, j | 0 <= i < j < |s.citationIds| :: s.citationIds[i] != s.citationIds[j])
              && (forall id | id in s.citationIds :: exists c | c in citations :: c.id == id)
    {
    }
  }

  lemma IdsAre(citations: seq<Citation>)
    ensures forall id :: id in IdsOf(citations) <==> exists c | c in citations :: c.id == id
  {
    forall id
      ensures id in IdsOf(citations) <==> exists c | c in citations :: c.id == id
    {
      if c :| c in citations && c.id == id {
        var i :| 0 <= i < |citations| && citations[i] == c;
        assert IdsOf(citations)[i] == id;
      }
    }
  }

  lemma SectionsExactlyWhen(statements: seq<Statement>)
    ensures InSectionOrder(statements) <==> SectionsInOrder(statements)
  {
    forall i, j | 0 <= i < j < |statements|
      ensures Rank(statements[i].section) <= Rank(statements[j].section) <==>
              && (statements[j].section == Answer ==> statements[i].section == Answer)
              && (statements[i].section == ConflictingEvidence ==> statements[j].section == ConflictingEvidence)
    {
    }
  }

  predicate ValidDocument(document: Document) {
    ShapeValid(document) && (document.citations != [] ==> ReferencesValid(document))
  }

  /** The rules of the schema, one by one. */
  ghost predicate MeetsSchema(document: Document) {
    && !Blank(document.content)
    && (document.citations == [] <==> document.statements == [])
    && (forall c | c in document.citations :: c.number >= 1)
    && (forall s | s in document.statements :: s.citationIds != [] && !Blank(s.content))
    && ReferencesMeet(document)
  }

  lemma ValidExactlyWhen(document: Document)
    ensures ValidDocument(document) <==> MeetsSchema(document)
  {
    ReferencesValidExactlyWhen(document);
    var _, _ := TrimMeans(document.content);
    forall s | s in document.statements
      ensures Trim(s.content) != "" <==> !Blank(s.content)
    {
      var _, _ := TrimMeans(s.content);
    }
    assert document.citations == [] && document.statements == [] ==> ReferencesMeet(document);
  }

  function TrimStatement(s: Statement): Statement { s.(content := Trim(s.content)) }

  /** Decoding trims every content. */
  function Trimmed(document: Document): Document {
    Document(
      Trim(document.content), document.citations,
      seq(|document.statements|, i requires 0 <= i < |document.statements| => TrimStatement(document.statements[i])))
  }

  // -------------------------------------------------------------- the validator

  datatype Issue =
    | RepeatedId(id: string)
    | RepeatedNumber(number: int)
    | SectionOrder
    | MissingCitation(id: string)
    | RepeatedReference(id: string)
    | Unreferenced(id: string)

  /** The check reports nothing exactly for documents with valid references. */
  method ValidatePublishedDocumentReferences(document: Document) returns (issues: seq<Issue>)
    ensures issues == [] <==> ReferencesValid(document)
    ensures issues == [] <==> ReferencesMeet(document)
  {
    ReferencesValidExactlyWhen(document);
    var found, citationIds := CheckCitations(document.citations);
    issues := found;
    var referenced: set<string> := {};
    var previousSectionIndex: int := -1;
    var i := 0;
    while i < |document.statements|
      invariant 0 <= i <= |document.statements|
      invariant previousSectionIndex
             == if i == 0 then -1 else Rank(document.statements[i - 1].section)
      invariant issues == [] <==> found == [] && FineUpTo(document.statements, i, IdsOf(document.citations))
      invariant forall id :: id in referenced <==> exists k | 0 <= k < i :: id in document.statements[k].citationIds
    {
      var s := document.statements[i];
      if Rank(s.section) < previousSectionIndex {
        issues := issues + [SectionOrder];
      }
      previousSectionIndex := Rank(s.section);
      var more := CheckStatement(s, citationIds, document.citations);
      OneMoreFine(document.statements, i, IdsOf(document.citations));
      issues := issues + more;
      referenced := referenced + (set id | id in s.citationIds);
      i := i + 1;
    }
    var unreferenced := CheckReferenced(document.citations, referenced);
    issues := issues + unreferenced;
    PairsInOrder(document.statements);
    assert forall k | 0 <= k < i :: document.statements[k] in document.statements;
    forall id
      ensures id in referenced <==> CitedBy(id, document.statements)
    {
    }
  }

  predicate FineUpTo(statements: seq<Statement>, i: nat, ids: seq<string>)
    requires i <= |statements|
  {
    && (forall k | 0 < k < i :: InOrderAt(statements, k))
    && (forall k | 0 <= k < i :: CitesOnly(statements[k], ids))
  }

  lemma OneMoreFine(statements: seq<Statement>, i: nat, ids: seq<string>)
    requires i < |statements|
    ensures FineUpTo(statements, i + 1, ids) <==>
            && FineUpTo(statements, i, ids)
            && (i > 0 ==> InOrderAt(statements, i)) && CitesOnly(statements[i], ids)
  {
  }

  predicate InOrderAt(statements: seq<Statement>, k: nat)
    requires 0 < k < |statements|
  {
    Rank(statements[k - 1].section) <= Rank(statements[k].section)
  }

  lemma {:induction false} PairsInOrder(statements: seq<Statement>)
    ensures InSectionOrder(statements) <==> forall k | 0 < k < |statements| :: InOrderAt(statements, k)
  {
    if forall k | 0 < k < |statements| :: InOrderAt(statements, k) {
      forall i, j | 0 <= i < j < |statements|
        ensures Rank(statements[i].section) <= Rank(statements[j].section)
      {
        NeighboursToPairs(statements, i, j);
      }
    }
  }

  lemma {:induction false} NeighboursToPairs(statements: seq<Statement>, i: nat, j: nat)
    requires i <= j < |statements|
    requires forall k | 0 < k < |statements| :: InOrderAt(statements, k)
    ensures Rank(statements[i].section) <= Rank(statements[j].section)
    decreases j
  {
    if i < j {
      NeighboursToPairs(statements, i, j - 1);
      assert InOrderAt(statements, j);
    }
  }

  method CheckCitations(citations: seq<Citation>) returns (issues: seq<Issue>, ids: set<string>)
    ensures issues == [] <==> DistinctCitations(citations)
    ensures forall id :: id in ids <==> id in IdsOf(citations)
  {
    issues, ids := [], {};
    var numbers: set<int> := {};
    for i := 0 to |citations|
      invariant issues == [] <==> DistinctCitations(citations[..i])
      invariant forall id :: id in ids <==> exists k | 0 <= k < i :: citations[k].id == id
      invariant forall n :: n in numbers <==> exists k | 0 <= k < i :: citations[k].number == n
    {
      var c := citations[i];
      if c.id in ids {
        issues := issues + [RepeatedId(c.id)];
      }
      if c.number in numbers {
        issues := issues + [RepeatedNumber(c.number)];
      }
      ids, numbers := ids + {c.id}, numbers + {c.number};
    }
    assert citations[..|citations|] == citations;
    forall id
      ensures id in ids <==> id in IdsOf(citations)
    {
      if id in ids {
        var k :| 0 <= k < |citations| && citations[k].id == id;
        assert IdsOf(citations)[k] == id;
      }
    }
  }

  method CheckStatement(s: Statement, citationIds: set<string>, ghost citations: seq<Citation>)
    returns (issues: seq<Issue>)
    requires forall id :: id in citationIds <==> id in IdsOf(citations)
    ensures issues == [] <==> CitesOnly(s, IdsOf(citations))
  {
    issues := [];
    var seen: set<string> := {};
    for i := 0 to |s.citationIds|
      invariant issues == [] <==>
                && NoRepeats(s.citationIds[..i])
                && forall k | 0 <= k < i :: s.citationIds[k] in citationIds
      invariant forall id :: id in seen <==> exists k | 0 <= k < i :: s.citationIds[k] == id
    {
      var id := s.citationIds[i];
      if id !in citationIds {
        issues := issues + [MissingCitation(id)];
      }
      if id in seen {
        issues := issues + [RepeatedReference(id)];
      }
      seen := seen + {id};
    }
    assert s.citationIds[..|s.citationIds|] == s.citationIds;
    assert forall k | 0 <= k < |s.citationIds| :: s.citationIds[k] in s.citationIds;
  }

  method CheckReferenced(citations: seq<Citation>, referenced: set<string>) returns (issues: seq<Issue>)
    ensures issues == [] <==> forall c | c in citations :: c.id in referenced
  {
    issues := [];
    for i := 0 to |citations|
      invariant issues == [] <==> forall k | 0 <= k < i :: citations[k].id in referenced
    {
      if citations[i].id !in referenced {
        issues := issues + [Unreferenced(citations[i].id)];
      }
    }
    assert forall k | 0 <= k < |citations| :: citations[k] in citations;
  }

  /** Accepts exactly the valid documents. */
  method DecodePublishedAnswerDocument(value: Document) returns (document: Option<Document>)
    ensures document == if ValidDocument(value) then Some(Trimmed(value)) else None
    ensures document.Some? <==> MeetsSchema(value)
    ensures document.Some? ==>
              && document.value.citations == value.citations && document.value.content == Trim(value.content)
              && |document.value.statements| == |value.statements|
              && forall i | 0 <= i < |value.statements| ::
                   document.value.statements[i] == value.statements[i].(content := Trim(value.statements[i].content))
  {
    ValidExactlyWhen(value);
    if !ShapeValid(value) {
      return None;
    }
    if value.citations != [] {
      var issues := ValidatePublishedDocumentReferences(value);
      if issues != [] {
        return None;
      }
    }
    document := Some(Trimmed(value));
  }

  /** Decoding what was decoded changes nothing and never fails. */
  lemma DecodingIsStable(document: Document)
    requires ValidDocument(document)
    ensures ValidDocument(Trimmed(document)) && Trimmed(Trimmed(document)) == Trimmed(document)
  {
    var again := Trimmed(document);
    TrimIsStable(document.content);
    forall i | 0 <= i < |document.statements|
      ensures again.statements[i] == TrimStatement(document.statements[i])
      ensures TrimStatement(again.statements[i]) == again.statements[i] && document.statements[i] in document.statements
    {
      TrimIsStable(document.statements[i].content);
    }
    assert Trimmed(again) == again;
    if document.citations != [] {
      ReferencesSurvive(document);
    }
  }

  lemma ReferencesSurvive(document: Document)
    requires ReferencesValid(document)
    ensures ReferencesValid(Trimmed(document))
  {
    var again := Trimmed(document);
    forall s | s in again.statements
      ensures CitesOnly(s, IdsOf(again.citations))
    {
      var i :| 0 <= i < |again.statements| && again.statements[i] == s;
      assert document.statements[i] in document.statements;
    }
    forall c | c in again.citations
      ensures CitedBy(c.id, again.statements)
    {
      var s :| s in document.statements && c.id in s.citationIds;
      var i :| 0 <= i < |document.statements| && document.statements[i] == s;
      assert again.statements[i] in again.statements && c.id in again.statements[i].citationIds;
    }
  }

  // ------------------------------------------------------------ reading it back

  datatype AnswerClaim = AnswerClaim(claimIndex: nat, claim: string, citationNumbers: seq<int>)

  /** The number listed for an id: the last one. */
  function NumberOf(citations: seq<Citation>, id: string): Option<int> {
    if citations == [] then None
    else
      var last := citations[|citations| - 1];
      if last.id == id then Some(last.number) else NumberOf(citations[..|citations| - 1], id)
  }

  function NumberById(citations: seq<Citation>): map<string, int> {
    if citations == [] then map[]
    else
      var last := citations[|citations| - 1];
      NumberById(citations[..|citations| - 1])[last.id := last.number]
  }

  lemma {:induction false} NumberByIdFinds(citations: seq<Citation>)
    ensures forall id ::
              NumberOf(citations, id) == if id in NumberById(citations) then Some(NumberById(citations)[id]) else None
  {
    if citations != [] {
      NumberByIdFinds(citations[..|citations| - 1]);
    }
  }

  /** Where ids are distinct every citation is found under its own. */
  lemma {:induction false} NumberOfCitation(citations: seq<Citation>)
    ensures forall id :: NumberOf(citations, id).Some? <==> id in IdsOf(citations)
    ensures DistinctCitations(citations) ==> forall c | c in citations :: NumberOf(citations, c.id) == Some(c.number)
  {
    if citations != [] {
      var n := |citations| - 1;
      var earlier, last := citations[..n], citations[n];
      assert citations == earlier + [last];
      NumberOfCitation(earlier);
      assert IdsOf(citations) == IdsOf(earlier) + [last.id];
    }
  }

  predicate NumbersOf(numbers: seq<int>, ids: seq<string>, citations: seq<Citation>) {
    && |numbers| == |ids|
    && forall k | 0 <= k < |ids| :: NumberOf(citations, ids[k]) == Some(numbers[k])
  }

  predicate ClaimOf(c: AnswerClaim, s: Statement, index: nat, citations: seq<Citation>) {
    c.claimIndex == index && c.claim == s.content && NumbersOf(c.citationNumbers, s.citationIds, citations)
  }

  /** A citation is listed with this id and this number. */
  ghost predicate IsListed(citations: seq<Citation>, id: string, number: int) {
    exists c | c in citations :: c.id == id && c.number == number
  }

  lemma {:induction false} NumbersAreListed(citations: seq<Citation>)
    ensures forall id | NumberOf(citations, id).Some? :: IsListed(citations, id, NumberOf(citations, id).value)
  {
    if citations != [] {
      var n := |citations| - 1;
      NumbersAreListed(citations[..n]);
      assert citations == citations[..n] + [citations[n]];
      forall id | NumberOf(citations, id).Some?
        ensures IsListed(citations, id, NumberOf(citations, id).value)
      {
        if citations[n].id != id {
          assert NumberOf(citations[..n], id) == NumberOf(citations, id);
          assert IsListed(citations[..n], id, NumberOf(citations, id).value);
        }
      }
    }
  }

  /** Nothing that a statement names is missing. */
  predicate Complete(document: Document) {
    forall i, k | 0 <= i < |document.statements| && 0 <= k < |document.statements[i].citationIds| ::
      NumberOf(document.citations, document.statements[i].citationIds[k]).Some?
  }

  lemma ValidIsComplete(document: Document)
    requires ValidDocument(document)
    ensures Complete(document) && (document.citations == [] ==> document.statements == [])
  {
    NumberOfCitation(document.citations);
    forall i, k | 0 <= i < |document.statements| && 0 <= k < |document.statements[i].citationIds|
      ensures NumberOf(document.citations, document.statements[i].citationIds[k]).Some?
    {
      assert document.statements[i] in document.statements;
      assert document.statements[i].citationIds[k] in document.statements[i].citationIds;
    }
  }

  method ReadNumbers(ids: seq<string>, numberById: map<string, int>, ghost citations: seq<Citation>)
    returns (numbers: Option<seq<int>>)
    requires numberById == NumberById(citations)
    ensures numbers.Some? <==> forall k | 0 <= k < |ids| :: NumberOf(citations, ids[k]).Some?
    ensures numbers.Some? ==> NumbersOf(numbers.value, ids, citations)
  {
    NumberByIdFinds(citations);
    var read: seq<int> := [];
    for k := 0 to |ids|
      invariant |read| == k
      invariant forall m | 0 <= m < k :: NumberOf(citations, ids[m]) == Some(read[m])
    {
      if ids[k] !in numberById {
        return None;
      }
      read := read + [numberById[ids[k]]];
    }
    numbers := Some(read);
  }

  /** The claims of a document: one a statement, in order, with the numbers of
      the citations it names; none at all without citations.  It fails exactly
      if a statement names a citation that is missing, and so never for a valid
      document, of which every statement becomes a claim. */
  method ReadPublishedAnswerClaims(document: Document) returns (claims: Option<seq<AnswerClaim>>)
    ensures claims.Some? <==> document.citations == [] || Complete(document)
    ensures claims.Some? ==> |claims.value| == if document.citations == [] then 0 else |document.statements|
    ensures claims.Some? ==> forall i | 0 <= i < |claims.value| ::
              ClaimOf(claims.value[i], document.statements[i], i, document.citations)
    ensures claims.Some? ==> forall i | 0 <= i < |claims.value| ::
              && claims.value[i].claimIndex == i && claims.value[i].claim == document.statements[i].content
              && |claims.value[i].citationNumbers| == |document.statements[i].citationIds|
              && forall k | 0 <= k < |document.statements[i].citationIds| ::
                   IsListed(document.citations, document.statements[i].citationIds[k], claims.value[i].citationNumbers[k])
    ensures ValidDocument(document) ==> claims.Some? && |claims.value| == |document.statements|
  {
    if ValidDocument(document) {
      ValidIsComplete(document);
    }
    NumbersAreListed(document.citations);
    if document.citations == [] {
      return Some([]);
    }
    var numberById := NumberById(document.citations);
    var read: seq<AnswerClaim> := [];
    for i := 0 to |document.statements|
      invariant |read| == i
      invariant forall k | 0 <= k < i :: ClaimOf(read[k], document.statements[k], k, document.citations)
    {
      var s := document.statements[i];
      var numbers := ReadNumbers(s.citationIds, numberById, document.citations);
      if numbers.None? {
        return None;
      }
      read := read + [AnswerClaim(i, s.content, numbers.value)];
    }
    claims := Some(read);
  }
}
