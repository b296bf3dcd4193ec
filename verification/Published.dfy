/** Compiling an answer draft into the document that is published: which
    citations it lists, in which order, and what its statements cite. */
module Published {
  import opened Prelude
  import opened PublishedModel
  import opened Draft
  import opened Labels

  // ---------------------------------------------------------- what is compiled

  /** The first paragraph of the answer section. */
  function DirectIndex(statements: seq<DraftStatement>): Option<nat> {
    if statements == [] then None
    else
      var n := |statements| - 1;
      var earlier := DirectIndex(statements[..n]);
      if earlier.Some? then earlier
      else if IsDirect(statements[n]) then Some(n) else None
  }

  predicate IsDirect(s: DraftStatement) { s.section == Answer && s.presentation == Paragraph }

  predicate Uses(prepared: seq<DraftStatement>, direct: nat, ref: string) {
    exists i | 0 <= i < |prepared| && i != direct :: ref in prepared[i].evidenceRefs
  }

  function UsedRefs(prepared: seq<DraftStatement>, direct: nat): set<string> {
    set i, k | 0 <= i < |prepared| && i != direct && 0 <= k < |prepared[i].evidenceRefs|
      :: prepared[i].evidenceRefs[k]
  }

  function CitationsFor(request: seq<Evidence>, used: set<string>, newId: nat -> string): seq<Citation> {
    if request == [] then []
    else
      var before := CitationsFor(request[..|request| - 1], used, newId);
      var last := request[|request| - 1];
      if last.ref in used then before + [Citation(newId(|before|), |before| + 1, last.element)] else before
  }

  function CitationByRef(request: seq<Evidence>, used: set<string>, newId: nat -> string): map<string, Citation> {
    if request == [] then map[]
    else
      var before := request[..|request| - 1];
      var last := request[|request| - 1];
      var count := |CitationsFor(before, used, newId)|;
      var earlier := CitationByRef(before, used, newId);
      if last.ref in used then earlier[last.ref := Citation(newId(count), count + 1, last.element)] else earlier
  }

  /** The statements of one section, without the direct answer. */
  function InSection(statements: seq<DraftStatement>, direct: nat, section: Section): seq<DraftStatement> {
    if statements == [] then []
    else
      var n := |statements| - 1;
      var before := InSection(statements[..n], direct, section);
      if n != direct && statements[n].section == section then before + [statements[n]] else before
  }

  /** All statements but the direct answer, section by section. */
  function Arrange(statements: seq<DraftStatement>, direct: nat): seq<DraftStatement> {
    InSection(statements, direct, Answer) + InSection(statements, direct, KeyPoints)
    + InSection(statements, direct, ConflictingEvidence)
  }

  function CitationIds(refs: seq<string>, citations: map<string, Citation>): seq<string> {
    seq(|refs|, i requires 0 <= i < |refs| => if refs[i] in citations then citations[refs[i]].id else "")
  }

  function StatementFor(s: DraftStatement, citations: map<string, Citation>): Statement {
    Statement(CitationIds(s.evidenceRefs, citations), s.content, s.presentation, s.section)
  }

  function StatementsFor(statements: seq<DraftStatement>, citations: map<string, Citation>): seq<Statement> {
    seq(|statements|, i requires 0 <= i < |statements| => StatementFor(statements[i], citations))
  }

  /** The document before it is decoded. */
  function Compiled(request: seq<Evidence>, prepared: seq<DraftStatement>, direct: nat, newId: nat -> string): Document
    requires direct < |prepared|
  {
    var used := UsedRefs(prepared, direct);
    Document(
      prepared[direct].content,
      CitationsFor(request, used, newId),
      StatementsFor(Arrange(prepared, direct), CitationByRef(request, used, newId)))
  }

  function Pair(refs: seq<string>, retrieved: seq<Element>): seq<Evidence>
    requires |refs| == |retrieved|
  {
    seq(|refs|, i requires 0 <= i < |refs| => Evidence(refs[i], retrieved[i]))
  }

  // ---------------------------------------------------------------- the methods

  method ReadDirectAnswerIndex(statements: seq<DraftStatement>) returns (index: Option<nat>)
    ensures index == DirectIndex(statements)
    ensures index.None? <==>
              forall i | 0 <= i < |statements| :: !(statements[i].section == Answer && statements[i].presentation == Paragraph)
    ensures index.Some? ==>
              && index.value < |statements|
              && statements[index.value].section == Answer && statements[index.value].presentation == Paragraph
              && forall i | 0 <= i < index.value ::
                   !(statements[i].section == Answer && statements[i].presentation == Paragraph)
  {
    for i := 0 to |statements|
      invariant DirectIndex(statements[..i]) == None
      invariant forall k | 0 <= k < i :: !(statements[k].section == Answer && statements[k].presentation == Paragraph)
    {
      assert statements[..i + 1][..i] == statements[..i];
      if IsDirect(statements[i]) {
        DirectIsFirst(statements, i + 1);
        return Some(i);
      }
    }
    assert statements[..|statements|] == statements;
    index := None;
  }

  lemma {:induction false} DirectIsFirst(statements: seq<DraftStatement>, k: nat)
    requires k <= |statements| && DirectIndex(statements[..k]).Some?
    ensures DirectIndex(statements) == DirectIndex(statements[..k])
    decreases |statements|
  {
    if k == |statements| {
      assert statements[..k] == statements;
    } else {
      assert statements[..|statements| - 1][..k] == statements[..k];
      DirectIsFirst(statements[..|statements| - 1], k);
    }
  }

  lemma {:induction false} DirectFacts(statements: seq<DraftStatement>)
    ensures DirectIndex(statements).Some? <==> exists s | s in statements :: IsDirect(s)
    ensures DirectIndex(statements).Some? ==>
              DirectIndex(statements).value < |statements| && IsDirect(statements[DirectIndex(statements).value])
  {
    if statements != [] {
      var n := |statements| - 1;
      DirectFacts(statements[..n]);
      assert statements == statements[..n] + [statements[n]];
    }
  }

  method ReadReferencedEvidence(prepared: seq<DraftStatement>, direct: nat) returns (used: set<string>)
    ensures used == UsedRefs(prepared, direct)
  {
    used := {};
    for i := 0 to |prepared|
      invariant used == UsedRefs(prepared[..i], direct)
    {
      ghost var before := used;
      var refs := if i == direct then [] else prepared[i].evidenceRefs;
      for k := 0 to |refs|
        invariant used == before + set m | 0 <= m < k :: refs[m]
      {
        used := used + {refs[k]};
      }
    }
    assert prepared[..|prepared|] == prepared;
  }

  method NumberCitations(request: seq<Evidence>, used: set<string>, newId: nat -> string)
    returns (citations: seq<Citation>, byRef: map<string, Citation>)
    ensures citations == CitationsFor(request, used, newId)
    ensures byRef == CitationByRef(request, used, newId)
  {
    citations, byRef := [], map[];
    for i := 0 to |request|
      invariant citations == CitationsFor(request[..i], used, newId)
      invariant byRef == CitationByRef(request[..i], used, newId)
    {
      assert request[..i + 1][..i] == request[..i];
      if request[i].ref in used {
        var citation := Citation(newId(|citations|), |citations| + 1, request[i].element);
        citations := citations + [citation];
        byRef := byRef[request[i].ref := citation];
      }
    }
    assert request[..|request|] == request;
  }

  method ReadCitationIds(refs: seq<string>, byRef: map<string, Citation>) returns (ids: Option<seq<string>>)
    ensures ids.Some? <==> forall r | r in refs :: r in byRef
    ensures ids.Some? ==> ids.value == CitationIds(refs, byRef)
  {
    var read: seq<string> := [];
    for k := 0 to |refs|
      invariant forall m | 0 <= m < k :: refs[m] in byRef
      invariant read == CitationIds(refs[..k], byRef)
    {
      if refs[k] !in byRef {
        return None;
      }
      read := read + [byRef[refs[k]].id];
    }
    assert refs[..|refs|] == refs;
    ids := Some(read);
  }

  ghost predicate AllCitable(prepared: seq<DraftStatement>, direct: nat, byRef: map<string, Citation>) {
    forall i | 0 <= i < |prepared| && i != direct :: forall r | r in prepared[i].evidenceRefs :: r in byRef
  }

  /** The statements of one section, appended to those before. */
  method AppendSection(
    statements: seq<Statement>, prepared: seq<DraftStatement>, direct: nat, section: Section,
    byRef: map<string, Citation>)
    returns (extended: seq<Statement>)
    requires AllCitable(prepared, direct, byRef)
    ensures extended == statements + StatementsFor(InSection(prepared, direct, section), byRef)
  {
    extended := statements;
    for i := 0 to |prepared|
      invariant extended == statements + StatementsFor(InSection(prepared[..i], direct, section), byRef)
    {
      assert prepared[..i + 1][..i] == prepared[..i];
      if i == direct || prepared[i].section != section {
        continue;
      }
      // Every reference is available: it was collected from these statements.
      var ids := ReadCitationIds(prepared[i].evidenceRefs, byRef);
      extended := extended + [Statement(ids.value, prepared[i].content, prepared[i].presentation, prepared[i].section)];
    }
    assert prepared[..|prepared|] == prepared;
  }

  /** The references of a request: those given, or as many labels as elements. */
  function RefsFor(evidenceRefs: Option<seq<string>>, count: nat): seq<string> {
    if evidenceRefs.Some? then evidenceRefs.value else References(count)
  }

  /** Compiles a draft.  The id of the k-th citation made is newId(k), and
      groupKey tells conflict groups apart. */
  method CompileAnswerDraft(
    draft: AnswerDraft, retrieved: seq<Element>, evidenceRefs: Option<seq<string>>,
    groupKey: ConflictGroup -> string, newId: nat -> string)
    returns (r: Result<Document, SourceError>)
    ensures draft.Uncited? ==> r == Ok(Document(draft.content, [], []))
    ensures draft.Answered? && |RefsFor(evidenceRefs, |retrieved|)| != |retrieved| ==> r.Err?
    ensures draft.Answered? && |RefsFor(evidenceRefs, |retrieved|)| == |retrieved| ==>
              IsCompiled(r, Pair(RefsFor(evidenceRefs, |retrieved|), retrieved), Sources(draft, groupKey), newId)
  {
    if draft.Uncited? {
      return Ok(Document(draft.content, [], []));
    }
    var refs: seq<string>;
    match evidenceRefs {
      case Some(given) => refs := given;
      case None => refs := CreateEvidenceReferences(|retrieved|);
    }
    var paired := CreateRequestEvidence(retrieved, refs);
    if paired.Err? {
      return Err(paired.error);
    }
    var request := paired.value;
    assert request == Pair(refs, retrieved);
    var attempt := PrepareDraftStatements(draft, groupKey, request);
    if attempt.Err? {
      return Err(attempt.error);
    }
    var prepared := attempt.value;
    var directIndex := ReadDirectAnswerIndex(prepared);
    DirectIsKept(request, Sources(draft, groupKey));
    if directIndex.None? {
      return Err(NoDirectAnswer);
    }
    DirectFacts(prepared);
    r := CompileStatements(request, prepared, directIndex.value, newId, Sources(draft, groupKey));
  }

  /** What compiling sources against the evidence of a request gives. */
  predicate IsCompiled(
    r: Result<Document, SourceError>, request: seq<Evidence>, sources: seq<DraftStatement>, newId: nat -> string)
  {
    var direct := DirectIndex(sources);
    if !AllKnown(request, sources) || direct.None? then r.Err?
    else
      && direct.value < |sources|
      && var document := Compiled(request, PrepareAll(request, sources), direct.value, newId);
        r == if ValidDocument(document) then Ok(Trimmed(document)) else Err(InvalidDocument)
  }

  lemma {:induction false} DirectIsKept(request: seq<Evidence>, sources: seq<DraftStatement>)
    ensures DirectIndex(PrepareAll(request, sources)) == DirectIndex(sources)
  {
    if sources != [] {
      var n := |sources| - 1;
      DirectIsKept(request, sources[..n]);
      assert PrepareAll(request, sources)[..n] == PrepareAll(request, sources[..n]);
    }
  }

  method CompileStatements(
    request: seq<Evidence>, prepared: seq<DraftStatement>, direct: nat, newId: nat -> string,
    ghost sources: seq<DraftStatement>)
    returns (r: Result<Document, SourceError>)
    requires direct < |prepared|
    requires AllKnown(request, sources) && prepared == PrepareAll(request, sources)
    ensures var document := Compiled(request, prepared, direct, newId);
      r == if ValidDocument(document) then Ok(Trimmed(document)) else Err(InvalidDocument)
  {
    var used := ReadReferencedEvidence(prepared, direct);
    var citations, byRef := NumberCitations(request, used, newId);
    UsedIsCitable(request, sources, direct, newId);
    var statements := AppendSection([], prepared, direct, Answer, byRef);
    statements := AppendSection(statements, prepared, direct, KeyPoints, byRef);
    statements := AppendSection(statements, prepared, direct, ConflictingEvidence, byRef);
    var document := Document(prepared[direct].content, citations, statements);
    SectionsJoin(InSection(prepared, direct, Answer), InSection(prepared, direct, KeyPoints),
                 InSection(prepared, direct, ConflictingEvidence), byRef);
    var decoded := DecodePublishedAnswerDocument(document);
    r := if decoded.None? then Err(InvalidDocument) else Ok(decoded.value);
  }

  lemma SectionsJoin(
    a: seq<DraftStatement>, k: seq<DraftStatement>, c: seq<DraftStatement>, byRef: map<string, Citation>)
    ensures [] + StatementsFor(a, byRef) + StatementsFor(k, byRef) + StatementsFor(c, byRef)
         == StatementsFor(a + k + c, byRef)
  {
  }

  lemma {:induction false} CitationByRefKeys(request: seq<Evidence>, used: set<string>, newId: nat -> string)
    ensures forall r :: r in CitationByRef(request, used, newId) <==> r in used && exists e | e in request :: e.ref == r
  {
    if request != [] {
      var n := |request| - 1;
      CitationByRefKeys(request[..n], used, newId);
      assert request == request[..n] + [request[n]];
    }
  }

  lemma UsedIsCitable(request: seq<Evidence>, sources: seq<DraftStatement>, direct: nat, newId: nat -> string)
    requires AllKnown(request, sources)
    ensures var prepared := PrepareAll(request, sources);
      AllCitable(prepared, direct, CitationByRef(request, UsedRefs(prepared, direct), newId))
  {
    var prepared := PrepareAll(request, sources);
    var used := UsedRefs(prepared, direct);
    CitationByRefKeys(request, used, newId);
    forall i, r | 0 <= i < |prepared| && i != direct && r in prepared[i].evidenceRefs
      ensures r in CitationByRef(request, used, newId)
    {
      assert Uses(prepared, direct, r);
      CompactIsListed(request, sources[i].evidenceRefs, r);
    }
  }

  lemma CompactIsListed(request: seq<Evidence>, refs: seq<string>, ref: string)
    requires Known(request, refs) && ref in Compact(request, refs)
    ensures exists e | e in request :: e.ref == ref
  {
    UniqueFacts(Canonicals(request, refs));
    var i :| 0 <= i < |refs| && Canonicals(request, refs)[i] == ref;
    assert refs[i] in refs;
    ElementsAreListed(request, refs[i]);
    FirstRefIsListed(request, ElementOf(request, refs[i]).value);
  }
}
