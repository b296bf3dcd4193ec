/** Verifying the claims of an answer against what they cite: the checks are
    what scoring every citation of every claim by itself would give. */
module ClaimVerification {
  import opened Prelude
  import opened Markup
  import opened HhemScoring

  // ------------------------------------------------------------------ preparing

  datatype Evidence = TextEvidence(text: string) | ImageEvidence

  datatype Source = Source(citationNumber: nat, sectionPath: seq<string>, evidence: Evidence)

  datatype AnswerClaim = AnswerClaim(claimIndex: nat, claim: string, citationNumbers: seq<nat>)

  datatype Outcome =
    | NotEvaluated(reason: string)
    | VerifierIncompatible
    | Supported(supportProbability: real)
    | Unsupported(supportProbability: real)

  datatype Prepared =
    | Direct(claim: AnswerClaim, citationNumber: Option<nat>, outcome: Outcome)
    | Model(claim: AnswerClaim, number: nat, item: ScoreItem)

  datatype DataError = DuplicatedClaim(claimIndex: nat) | UnavailableCitation(number: nat) | OmittedScore(claimIndex: nat)

  const NO_CITATION := NotEvaluated("The claim has no citation to verify.")

  const CONTEXT_CAPACITY := NotEvaluated("The evidence unit exceeds the HHEM model context capacity.")

  function Join(parts: seq<string>, separator: string): string {
    if parts == [] then "" else if |parts| == 1 then parts[0] else parts[0] + separator + Join(parts[1..], separator)
  }

  function EvidenceUnit(source: Source): string
    requires source.evidence.TextEvidence?
  {
    "[Citation " + Decimal(source.citationNumber) + "]"
    + (if source.sectionPath == [] then "" else "\n" + "Section: " + Join(source.sectionPath, " > "))
    + "\n" + source.evidence.text
  }

  function ItemId(claimIndex: nat, number: nat): string {
    "claim-" + Decimal(claimIndex) + ("-citation-" + Decimal(number))
  }

  /** The source listed under a number: the last one. */
  function SourceOf(sources: seq<Source>, number: nat): Option<Source> {
    if sources == [] then None
    else
      var last := sources[|sources| - 1];
      if last.citationNumber == number then Some(last) else SourceOf(sources[..|sources| - 1], number)
  }

  /** How one citation of a claim is dealt with.  The limit gives the reason
      for which an item is too large to be sent, if it is. */
  function PreparedOne(
    claim: AnswerClaim, number: nat, sources: seq<Source>, limit: ScoreItem -> Option<string>): Prepared
    requires SourceOf(sources, number).Some?
  {
    var source := SourceOf(sources, number).value;
    if source.evidence.ImageEvidence? then Direct(claim, Some(number), VerifierIncompatible)
    else
      var item := ScoreItem(claim.claim, EvidenceUnit(source), ItemId(claim.claimIndex, number));
      var failure := limit(item);
      if failure.Some? then Direct(claim, Some(number), NotEvaluated(failure.value)) else Model(claim, number, item)
  }

  predicate Cites(claim: AnswerClaim, sources: seq<Source>) {
    forall k | 0 <= k < |claim.citationNumbers| :: SourceOf(sources, claim.citationNumbers[k]).Some?
  }

  function PreparedFor(claim: AnswerClaim, sources: seq<Source>, limit: ScoreItem -> Option<string>): seq<Prepared>
    requires Cites(claim, sources)
  {
    if claim.citationNumbers == [] then [Direct(claim, None, NO_CITATION)]
    else seq(|claim.citationNumbers|, k requires 0 <= k < |claim.citationNumbers| =>
               PreparedOne(claim, claim.citationNumbers[k], sources, limit))
  }

  predicate AllCite(claims: seq<AnswerClaim>, sources: seq<Source>) {
    forall i | 0 <= i < |claims| :: Cites(claims[i], sources)
  }

  predicate DistinctIndexes(claims: seq<AnswerClaim>) {
    forall i, j | 0 <= i < j < |claims| :: claims[i].claimIndex != claims[j].claimIndex
  }

  function PreparedAll(claims: seq<AnswerClaim>, sources: seq<Source>, limit: ScoreItem -> Option<string>): seq<Prepared>
    requires AllCite(claims, sources)
  {
    if claims == [] then []
    else PreparedAll(claims[..|claims| - 1], sources, limit) + PreparedFor(claims[|claims| - 1], sources, limit)
  }

  function SourceMap(sources: seq<Source>): map<nat, Source> {
    if sources == [] then map[]
    else SourceMap(sources[..|sources| - 1])[sources[|sources| - 1].citationNumber := sources[|sources| - 1]]
  }

  lemma {:induction false} SourceMapFinds(sources: seq<Source>)
    ensures forall n :: SourceOf(sources, n) == if n in SourceMap(sources) then Some(SourceMap(sources)[n]) else None
  {
    if sources != [] {
      SourceMapFinds(sources[..|sources| - 1]);
    }
  }

  method PrepareClaimVerifications(
    claims: seq<AnswerClaim>, sources: seq<Source>, limit: ScoreItem -> Option<string>)
    returns (r: Result<seq<Prepared>, DataError>)
    ensures r.Ok? <==> DistinctIndexes(claims) && AllCite(claims, sources)
    ensures r.Ok? ==> r.value == PreparedAll(claims, sources, limit)
  {
    var sourceByNumber := SourceMap(sources);
    SourceMapFinds(sources);
    var seen: set<nat> := {};
    var prepared: seq<Prepared> := [];
    for i := 0 to |claims|
      invariant SeenOnce(claims, i, seen)
      invariant AllCite(claims[..i], sources) && prepared == PreparedAll(claims[..i], sources, limit)
    {
      var claim := claims[i];
      OneMoreSeen(claims, i, seen);
      if claim.claimIndex in seen {
        return Err(DuplicatedClaim(claim.claimIndex));
      }
      seen := seen + {claim.claimIndex};
      var one := PrepareClaim(claim, sources, sourceByNumber, limit);
      if one.Err? {
        return Err(one.error);
      }
      OneMoreClaim(claims, i, sources, limit);
      prepared := prepared + one.value;
    }
    assert claims[..|claims|] == claims;
    r := Ok(prepared);
  }

  /** The first claims have indexes of their own, which are those seen. */
  ghost predicate SeenOnce(claims: seq<AnswerClaim>, n: nat, seen: set<nat>)
    requires n <= |claims|
  {
    DistinctIndexes(claims[..n]) && forall x :: x in seen <==> exists k | 0 <= k < n :: claims[k].claimIndex == x
  }

  lemma OneMoreSeen(claims: seq<AnswerClaim>, i: nat, seen: set<nat>)
    requires i < |claims| && SeenOnce(claims, i, seen)
    ensures if claims[i].claimIndex in seen then !DistinctIndexes(claims)
            else SeenOnce(claims, i + 1, seen + {claims[i].claimIndex})
  {
    assert forall k | 0 <= k < i :: claims[..i + 1][k] == claims[..i][k];
  }

  lemma OneMoreClaim(claims: seq<AnswerClaim>, i: nat, sources: seq<Source>, limit: ScoreItem -> Option<string>)
    requires i < |claims| && AllCite(claims[..i], sources) && Cites(claims[i], sources)
    ensures AllCite(claims[..i + 1], sources)
    ensures PreparedAll(claims[..i + 1], sources, limit)
         == PreparedAll(claims[..i], sources, limit) + PreparedFor(claims[i], sources, limit)
  {
    assert claims[..i + 1][..i] == claims[..i];
  }

  method PrepareClaim(
    claim: AnswerClaim, ghost sources: seq<Source>, sourceByNumber: map<nat, Source>,
    limit: ScoreItem -> Option<string>)
    returns (r: Result<seq<Prepared>, DataError>)
    requires forall n :: SourceOf(sources, n) == if n in sourceByNumber then Some(sourceByNumber[n]) else None
    ensures r.Ok? <==> Cites(claim, sources)
    ensures r.Ok? ==> r.value == PreparedFor(claim, sources, limit)
  {
    if claim.citationNumbers == [] {
      return Ok([Direct(claim, None, NO_CITATION)]);
    }
    var prepared: seq<Prepared> := [];
    for k := 0 to |claim.citationNumbers|
      invariant |prepared| == k
      invariant forall m | 0 <= m < k ::
                  && SourceOf(sources, claim.citationNumbers[m]).Some?
                  && prepared[m] == PreparedOne(claim, claim.citationNumbers[m], sources, limit)
    {
      var number := claim.citationNumbers[k];
      if number !in sourceByNumber {
        return Err(UnavailableCitation(number));
      }
      var source := sourceByNumber[number];
      if source.evidence.ImageEvidence? {
        prepared := prepared + [Direct(claim, Some(number), VerifierIncompatible)];
        continue;
      }
      var item := ScoreItem(claim.claim, EvidenceUnit(source), ItemId(claim.claimIndex, number));
      var failure := limit(item);
      prepared := prepared + [
        if failure.Some? then Direct(claim, Some(number), NotEvaluated(failure.value)) else Model(claim, number, item)];
    }
    r := Ok(prepared);
  }

  // ------------------------------------------------------------- ids tell apart

  lemma {:induction false} DigitsBeforeDash(a: string, b: string, x: string, y: string)
    requires (forall c | c in a :: IsDigit(c)) && (forall c | c in b :: IsDigit(c))
    requires x != [] && y != [] && x[0] == '-' && y[0] == '-' && a + x == b + y
    ensures a == b && x == y
    decreases |a|
  {
    assert a != [] ==> a[0] in a;
    assert b != [] ==> b[0] in b;
    assert (a + x)[0] == (b + y)[0];
    assert a == [] <==> b == [];
    if a == [] {
      assert a + x == x && b + y == y;
    } else {
      assert (a + x)[1..] == a[1..] + x && (b + y)[1..] == b[1..] + y;
      DigitsBeforeDash(a[1..], b[1..], x, y);
      assert a == [a[0]] + a[1..] && b == [b[0]] + b[1..];
    }
  }

  /** Ids tell claims and citations apart. */
  lemma ItemIdIsInjective(i: nat, m: nat, j: nat, n: nat)
    requires ItemId(i, m) == ItemId(j, n)
    ensures i == j && m == n
  {
    var x, y := "-citation-" + Decimal(m), "-citation-" + Decimal(n);
    Glue("claim-", Decimal(i), x);
    Glue("claim-", Decimal(j), y);
    assert Decimal(i) + x == ItemId(i, m)[6..] && Decimal(j) + y == ItemId(j, n)[6..];
    DigitsBeforeDash(Decimal(i), Decimal(j), x, y);
    assert Decimal(m) == x[10..] && Decimal(n) == y[10..];
    ReadDecimalInverts(i);
    ReadDecimalInverts(j);
    ReadDecimalInverts(m);
    ReadDecimalInverts(n);
  }

  // ------------------------------------------------------------------ the checks

  datatype Unit = Unit(citationNumber: nat, outcome: Outcome, unitId: string)

  datatype Status = FullySupported | PartiallySupported | NotSupported | Unverified

  datatype Check = Check(claim: AnswerClaim, evidenceUnits: seq<Unit>, status: Status)

  predicate AnySupported(units: seq<Unit>) { exists u | u in units :: u.outcome.Supported? }

  predicate AnyUnsupported(units: seq<Unit>) { exists u | u in units :: u.outcome.Unsupported? }

  function StatusOf(units: seq<Unit>): Status {
    if AnySupported(units) then if AnyUnsupported(units) then PartiallySupported else FullySupported
    else if AnyUnsupported(units) then NotSupported else Unverified
  }

  function Judged(verdict: Verdict, supportThreshold: real): Outcome {
    match verdict
    case ModelContextCapacity => CONTEXT_CAPACITY
    case Scored(p) => if p >= supportThreshold then Supported(p) else Unsupported(p)
  }

  /** What one prepared citation contributes, given the verdicts; a claim
      without citations contributes nothing. */
  function UnitsFrom(p: Prepared, verdict: Option<Verdict>, supportThreshold: real): seq<Unit> {
    match p
    case Direct(claim, number, outcome) =>
      if number.None? then [] else [Unit(number.value, outcome, ItemId(claim.claimIndex, number.value))]
    case Model(claim, number, item) =>
      if verdict.None? then [] else [Unit(number, Judged(verdict.value, supportThreshold), item.id)]
  }

  function VerdictFor(p: Prepared, scores: seq<ScoreResult>): Option<Verdict> {
    if p.Model? then VerdictOf(scores, p.item.id) else None
  }

  /** The units of one claim, in order. */
  function UnitsOf(prepared: seq<Prepared>, scores: seq<ScoreResult>, supportThreshold: real, index: nat): seq<Unit> {
    if prepared == [] then []
    else
      var n := |prepared| - 1;
      var last := prepared[n];
      UnitsOf(prepared[..n], scores, supportThreshold, index)
      + (if last.claim.claimIndex == index then UnitsFrom(last, VerdictFor(last, scores), supportThreshold) else [])
  }

  function Indexes(prepared: seq<Prepared>): seq<nat> {
    seq(|prepared|, i requires 0 <= i < |prepared| => prepared[i].claim.claimIndex)
  }

  function LastClaim(prepared: seq<Prepared>, index: nat): Option<AnswerClaim> {
    if prepared == [] then None
    else
      var last := prepared[|prepared| - 1].claim;
      if last.claimIndex == index then Some(last) else LastClaim(prepared[..|prepared| - 1], index)
  }

  predicate AllScored(prepared: seq<Prepared>, scores: seq<ScoreResult>) {
    forall i | 0 <= i < |prepared| && prepared[i].Model? :: VerdictOf(scores, prepared[i].item.id).Some?
  }

  method ReadStatus(units: seq<Unit>) returns (status: Status)
    ensures status == StatusOf(units)
  {
    var supportedCount, unsupportedCount := 0, 0;
    for i := 0 to |units|
      invariant supportedCount >= 0 && unsupportedCount >= 0
      invariant supportedCount > 0 <==> exists k | 0 <= k < i :: units[k].outcome.Supported?
      invariant unsupportedCount > 0 <==> exists k | 0 <= k < i :: units[k].outcome.Unsupported?
    {
      if units[i].outcome.Supported? {
        supportedCount := supportedCount + 1;
      } else if units[i].outcome.Unsupported? {
        unsupportedCount := unsupportedCount + 1;
      }
    }
    assert forall k | 0 <= k < |units| :: units[k] in units;
    status := Unverified;
    if supportedCount > 0 && unsupportedCount == 0 {
      status := FullySupported;
    } else if supportedCount > 0 {
      status := PartiallySupported;
    } else if unsupportedCount > 0 {
      status := NotSupported;
    }
  }

  method ReadUnits(p: Prepared, scoreById: map<string, Verdict>, supportThreshold: real)
    returns (units: Option<seq<Unit>>)
    ensures units.None? <==> p.Model? && p.item.id !in scoreById
    ensures units.Some? ==>
      var verdict := if p.Model? && p.item.id in scoreById then Some(scoreById[p.item.id]) else None;
      units.value == UnitsFrom(p, verdict, supportThreshold)
  {
    match p {
      case Direct(claim, number, outcome) =>
        units := Some(if number.None? then [] else [Unit(number.value, outcome, ItemId(claim.claimIndex, number.value))]);
      case Model(_, number, item) =>
        if item.id !in scoreById {
          return None;
        }
        units := Some([Unit(number, Judged(scoreById[item.id], supportThreshold), item.id)]);
    }
  }

  lemma UnitsStep(prepared: seq<Prepared>, i: nat, scores: seq<ScoreResult>, supportThreshold: real)
    requires i < |prepared|
    ensures forall x: nat :: UnitsOf(prepared[..i + 1], scores, supportThreshold, x)
              == UnitsOf(prepared[..i], scores, supportThreshold, x)
                 + (if prepared[i].claim.claimIndex == x
                    then UnitsFrom(prepared[i], VerdictFor(prepared[i], scores), supportThreshold) else [])
    ensures AllScored(prepared[..i], scores) ==>
              (AllScored(prepared[..i + 1], scores) <==>
               (prepared[i].Model? ==> VerdictOf(scores, prepared[i].item.id).Some?))
  {
    var longer := prepared[..i + 1];
    assert longer[..i] == prepared[..i] && longer[i] == prepared[i] && |longer| - 1 == i;
    assert forall k | 0 <= k < i :: longer[k] == prepared[..i][k];
  }

  /** The units of every claim, filed under its index. */
  method FileUnits(prepared: seq<Prepared>, scores: seq<ScoreResult>, supportThreshold: real)
    returns (r: Result<map<nat, seq<Unit>>, DataError>)
    ensures r.Ok? <==> AllScored(prepared, scores)
    ensures r.Ok? ==> forall x: nat ::
              UnitsOf(prepared, scores, supportThreshold, x) == if x in r.value then r.value[x] else []
  {
    VerdictMapFinds(scores);
    var scoreById := VerdictMap(scores);
    var units: map<nat, seq<Unit>> := map[];
    for i := 0 to |prepared|
      invariant AllScored(prepared[..i], scores)
      invariant forall x: nat ::
                  UnitsOf(prepared[..i], scores, supportThreshold, x) == if x in units then units[x] else []
    {
      UnitsStep(prepared, i, scores, supportThreshold);
      var index := prepared[i].claim.claimIndex;
      var more := ReadUnits(prepared[i], scoreById, supportThreshold);
      if more.None? {
        return Err(OmittedScore(index));
      }
      units := units[index := (if index in units then units[index] else []) + more.value];
    }
    assert prepared[..|prepared|] == prepared;
    r := Ok(units);
  }

  lemma IndexesStep(prepared: seq<Prepared>, i: nat)
    requires i < |prepared|
    ensures var before, index := Unique(Indexes(prepared[..i])), prepared[i].claim.claimIndex;
      Unique(Indexes(prepared[..i + 1])) == if index in before then before else before + [index]
    ensures forall x: nat :: LastClaim(prepared[..i + 1], x)
                     == if x == prepared[i].claim.claimIndex then Some(prepared[i].claim) else LastClaim(prepared[..i], x)
  {
    var longer := prepared[..i + 1];
    assert longer[..i] == prepared[..i] && longer[i] == prepared[i] && |longer| - 1 == i;
    assert Indexes(longer) == Indexes(prepared[..i]) + [prepared[i].claim.claimIndex];
    assert Indexes(longer)[..i] == Indexes(prepared[..i]);
    UniqueFacts(Indexes(prepared[..i]));
    forall x: nat
      ensures LastClaim(longer, x)
           == if x == prepared[i].claim.claimIndex then Some(prepared[i].claim) else LastClaim(prepared[..i], x)
    {
      assert longer[|longer| - 1].claim == prepared[i].claim;
    }
  }

  /** The claims that were prepared, each once, in order of first occurrence. */
  method ReadUniqueClaims(prepared: seq<Prepared>) returns (order: seq<nat>, claims: map<nat, AnswerClaim>)
    ensures order == Unique(Indexes(prepared))
    ensures forall x :: LastClaim(prepared, x) == if x in claims then Some(claims[x]) else None
    ensures forall x | x in order :: x in claims
  {
    order, claims := [], map[];
    assert Indexes(prepared[..0]) == [];
    for i := 0 to |prepared|
      invariant order == Unique(Indexes(prepared[..i]))
      invariant forall x :: LastClaim(prepared[..i], x) == if x in claims then Some(claims[x]) else None
      invariant forall x :: x in claims <==> x in order
    {
      var claim := prepared[i].claim;
      IndexesStep(prepared, i);
      if claim.claimIndex !in claims {
        order := order + [claim.claimIndex];
      }
      claims := claims[claim.claimIndex := claim];
    }
    assert prepared[..|prepared|] == prepared;
  }

  method BuildClaimVerificationResults(prepared: seq<Prepared>, scores: seq<ScoreResult>, supportThreshold: real)
    returns (r: Result<seq<Check>, DataError>)
    ensures r.Ok? <==> AllScored(prepared, scores)
    ensures r.Ok? ==> |r.value| == |Unique(Indexes(prepared))|
    ensures r.Ok? ==> forall k | 0 <= k < |r.value| ::
              IsCheck(r.value[k], Unique(Indexes(prepared))[k], prepared, scores, supportThreshold)
  {
    var filed := FileUnits(prepared, scores, supportThreshold);
    if filed.Err? {
      return Err(filed.error);
    }
    var order, claims := ReadUniqueClaims(prepared);
    var results := BuildChecks(order, claims, filed.value);
    forall k | 0 <= k < |order|
      ensures IsCheck(results[k], order[k], prepared, scores, supportThreshold)
    {
      assert order[k] in order;
    }
    r := Ok(results);
  }

  /** What is filed under an index. */
  function FiledUnder(filed: map<nat, seq<Unit>>, index: nat): seq<Unit> {
    if index in filed then filed[index] else []
  }

  method BuildChecks(order: seq<nat>, claims: map<nat, AnswerClaim>, filed: map<nat, seq<Unit>>)
    returns (results: seq<Check>)
    requires forall x | x in order :: x in claims
    ensures |results| == |order|
    ensures forall k | 0 <= k < |order| ::
              && order[k] in order
              && results[k] == Check(claims[order[k]], FiledUnder(filed, order[k]), StatusOf(FiledUnder(filed, order[k])))
  {
    results := [];
    for k := 0 to |order|
      invariant |results| == k
      invariant forall m | 0 <= m < k ::
                  && order[m] in order
                  && results[m] == Check(claims[order[m]], FiledUnder(filed, order[m]), StatusOf(FiledUnder(filed, order[m])))
    {
      assert order[k] in order;
      var units := FiledUnder(filed, order[k]);
      var status := ReadStatus(units);
      results := results + [Check(claims[order[k]], units, status)];
    }
  }

  predicate IsCheck(
    c: Check, index: nat, prepared: seq<Prepared>, scores: seq<ScoreResult>, supportThreshold: real)
  {
    && LastClaim(prepared, index) == Some(c.claim)
    && c.evidenceUnits == UnitsOf(prepared, scores, supportThreshold, index)
    && c.status == StatusOf(c.evidenceUnits)
  }

  // ------------------------------------------------- what checking comes down to

  /** The verdict on one citation of a claim, taken by itself. */
  function DirectUnit(
    claim: AnswerClaim, number: nat, sources: seq<Source>, limit: ScoreItem -> Option<string>,
    judge: Pair -> Option<Verdict>, supportThreshold: real): seq<Unit>
    requires SourceOf(sources, number).Some?
  {
    var p := PreparedOne(claim, number, sources, limit);
    UnitsFrom(p, if p.Model? then judge(ContentOf(p.item)) else None, supportThreshold)
  }

  /** The verdicts on the first n citations of a claim, in citation order. */
  function DirectUnits(
    claim: AnswerClaim, n: nat, sources: seq<Source>, limit: ScoreItem -> Option<string>,
    judge: Pair -> Option<Verdict>, supportThreshold: real): seq<Unit>
    requires Cites(claim, sources) && n <= |claim.citationNumbers|
  {
    if n == 0 then []
    else DirectUnits(claim, n - 1, sources, limit, judge, supportThreshold)
         + DirectUnit(claim, claim.citationNumbers[n - 1], sources, limit, judge, supportThreshold)
  }

  function DirectCheck(
    claim: AnswerClaim, sources: seq<Source>, limit: ScoreItem -> Option<string>,
    judge: Pair -> Option<Verdict>, supportThreshold: real): Check
    requires Cites(claim, sources)
  {
    var units := DirectUnits(claim, |claim.citationNumbers|, sources, limit, judge, supportThreshold);
    Check(claim, units, StatusOf(units))
  }

  ghost predicate Agree(prepared: seq<Prepared>, scores: seq<ScoreResult>, judge: Pair -> Option<Verdict>) {
    forall i | 0 <= i < |prepared| && prepared[i].Model? ::
      VerdictOf(scores, prepared[i].item.id) == judge(ContentOf(prepared[i].item))
  }

  lemma {:induction false} UnitsOfJoins(
    a: seq<Prepared>, b: seq<Prepared>, scores: seq<ScoreResult>, supportThreshold: real, index: nat)
    ensures UnitsOf(a + b, scores, supportThreshold, index)
         == UnitsOf(a, scores, supportThreshold, index) + UnitsOf(b, scores, supportThreshold, index)
  {
    if b == [] {
      assert a + b == a;
    } else {
      var n := |b| - 1;
      UnitsOfJoins(a, b[..n], scores, supportThreshold, index);
      assert (a + b)[..|a| + n] == a + b[..n] && (a + b)[|a| + n] == b[n];
    }
  }

  lemma {:induction false} OthersUnits(
    prepared: seq<Prepared>, scores: seq<ScoreResult>, supportThreshold: real, index: nat)
    requires forall i | 0 <= i < |prepared| :: prepared[i].claim.claimIndex != index
    ensures UnitsOf(prepared, scores, supportThreshold, index) == [] && LastClaim(prepared, index) == None
  {
    if prepared != [] {
      OthersUnits(prepared[..|prepared| - 1], scores, supportThreshold, index);
    }
  }

  /** What was prepared for a claim comes to its direct check. */
  lemma {:induction false} OwnUnits(
    claim: AnswerClaim, n: nat, sources: seq<Source>, limit: ScoreItem -> Option<string>, scores: seq<ScoreResult>,
    judge: Pair -> Option<Verdict>, supportThreshold: real)
    requires Cites(claim, sources) && claim.citationNumbers != [] && n <= |claim.citationNumbers|
    requires Agree(PreparedFor(claim, sources, limit)[..n], scores, judge)
    ensures UnitsOf(PreparedFor(claim, sources, limit)[..n], scores, supportThreshold, claim.claimIndex)
         == DirectUnits(claim, n, sources, limit, judge, supportThreshold)
  {
    if n > 0 {
      var prepared, p := PreparedFor(claim, sources, limit), PreparedOne(claim, claim.citationNumbers[n - 1], sources, limit);
      AgreeOnPrefix(prepared, n, scores, judge);
      OwnUnits(claim, n - 1, sources, limit, scores, judge, supportThreshold);
      assert prepared[n - 1] == p;
      OneMoreUnit(prepared, n, scores, supportThreshold, claim.claimIndex);
    }
  }

  lemma AgreeOnPrefix(prepared: seq<Prepared>, n: nat, scores: seq<ScoreResult>, judge: Pair -> Option<Verdict>)
    requires 0 < n <= |prepared| && Agree(prepared[..n], scores, judge)
    ensures Agree(prepared[..n - 1], scores, judge)
    ensures VerdictFor(prepared[n - 1], scores)
         == if prepared[n - 1].Model? then judge(ContentOf(prepared[n - 1].item)) else None
  {
    assert prepared[..n][n - 1] == prepared[n - 1];
    assert forall i | 0 <= i < n - 1 :: prepared[..n - 1][i] == prepared[..n][i];
  }

  lemma OneMoreUnit(prepared: seq<Prepared>, n: nat, scores: seq<ScoreResult>, supportThreshold: real, index: nat)
    requires 0 < n <= |prepared| && prepared[n - 1].claim.claimIndex == index
    ensures UnitsOf(prepared[..n], scores, supportThreshold, index)
         == UnitsOf(prepared[..n - 1], scores, supportThreshold, index)
            + UnitsFrom(prepared[n - 1], VerdictFor(prepared[n - 1], scores), supportThreshold)
  {
    assert prepared[..n][..n - 1] == prepared[..n - 1];
  }

  lemma OwnCheck(
    claim: AnswerClaim, sources: seq<Source>, limit: ScoreItem -> Option<string>, scores: seq<ScoreResult>,
    judge: Pair -> Option<Verdict>, supportThreshold: real)
    requires Cites(claim, sources) && Agree(PreparedFor(claim, sources, limit), scores, judge)
    ensures UnitsOf(PreparedFor(claim, sources, limit), scores, supportThreshold, claim.claimIndex)
         == DirectCheck(claim, sources, limit, judge, supportThreshold).evidenceUnits
  {
    var prepared := PreparedFor(claim, sources, limit);
    if claim.citationNumbers == [] {
      assert prepared[..0] == [];
    } else {
      assert prepared[..|prepared|] == prepared;
      OwnUnits(claim, |claim.citationNumbers|, sources, limit, scores, judge, supportThreshold);
    }
  }

  /** What was prepared, claim by claim. */
  function Flatten(parts: seq<seq<Prepared>>): seq<Prepared> {
    if parts == [] then [] else Flatten(parts[..|parts| - 1]) + parts[|parts| - 1]
  }

  function Parts(claims: seq<AnswerClaim>, sources: seq<Source>, limit: ScoreItem -> Option<string>): seq<seq<Prepared>>
    requires AllCite(claims, sources)
  {
    seq(|claims|, i requires 0 <= i < |claims| => PreparedFor(claims[i], sources, limit))
  }

  ghost predicate OwnParts(parts: seq<seq<Prepared>>, claims: seq<AnswerClaim>) {
    && |parts| == |claims|
    && (forall i | 0 <= i < |parts| :: parts[i] != [])
    && (forall i, k | 0 <= i < |parts| && 0 <= k < |parts[i]| :: parts[i][k].claim == claims[i])
  }

  lemma {:induction false} PreparedInParts(
    claims: seq<AnswerClaim>, sources: seq<Source>, limit: ScoreItem -> Option<string>)
    requires AllCite(claims, sources)
    ensures PreparedAll(claims, sources, limit) == Flatten(Parts(claims, sources, limit))
    ensures OwnParts(Parts(claims, sources, limit), claims)
  {
    if claims != [] {
      var n := |claims| - 1;
      PreparedInParts(claims[..n], sources, limit);
      assert Parts(claims, sources, limit)[..n] == Parts(claims[..n], sources, limit);
    }
  }

  lemma {:induction false} FlattenMembers(parts: seq<seq<Prepared>>)
    ensures forall p | p in Flatten(parts) :: exists i | 0 <= i < |parts| :: p in parts[i]
  {
    if parts != [] {
      var n := |parts| - 1;
      FlattenMembers(parts[..n]);
      forall p | p in Flatten(parts)
        ensures exists i | 0 <= i < |parts| :: p in parts[i]
      {
        if p in Flatten(parts[..n]) {
          var i :| 0 <= i < n && p in parts[..n][i];
          assert p in parts[i];
        } else {
          assert p in parts[n];
        }
      }
    }
  }

  lemma {:induction false} LastClaimJoins(a: seq<Prepared>, b: seq<Prepared>, index: nat)
    ensures LastClaim(a + b, index) == if LastClaim(b, index).Some? then LastClaim(b, index) else LastClaim(a, index)
  {
    if b == [] {
      assert a + b == a;
    } else {
      var n := |b| - 1;
      LastClaimJoins(a, b[..n], index);
      assert (a + b)[..|a| + n] == a + b[..n] && (a + b)[|a| + n] == b[n];
    }
  }

  /** Among everything prepared, a claim finds itself and its own units. */
  lemma {:induction false} ClaimFindsItsUnits(
    parts: seq<seq<Prepared>>, claims: seq<AnswerClaim>, i: nat, scores: seq<ScoreResult>, supportThreshold: real)
    requires OwnParts(parts, claims) && DistinctIndexes(claims) && i < |claims|
    ensures LastClaim(Flatten(parts), claims[i].claimIndex) == Some(claims[i])
    ensures UnitsOf(Flatten(parts), scores, supportThreshold, claims[i].claimIndex)
         == UnitsOf(parts[i], scores, supportThreshold, claims[i].claimIndex)
    decreases |claims|
  {
    var n := |claims| - 1;
    if i < n {
      ClaimFindsItsUnits(parts[..n], claims[..n], i, scores, supportThreshold);
      OnlyOnTheLeft(Flatten(parts[..n]), parts[n], scores, supportThreshold, claims[i].claimIndex);
    } else {
      EarlierIndexes(parts, claims);
      OnlyOnTheRight(Flatten(parts[..n]), parts[n], scores, supportThreshold, claims[n].claimIndex);
      assert parts[n][|parts[n]| - 1].claim == claims[n];
    }
  }

  /** What was prepared before the last claim has other indexes. */
  lemma EarlierIndexes(parts: seq<seq<Prepared>>, claims: seq<AnswerClaim>)
    requires OwnParts(parts, claims) && DistinctIndexes(claims) && claims != []
    ensures var n := |claims| - 1;
      forall k | 0 <= k < |Flatten(parts[..n])| :: Flatten(parts[..n])[k].claim.claimIndex != claims[n].claimIndex
  {
    var n := |claims| - 1;
    var before := Flatten(parts[..n]);
    FlattenMembers(parts[..n]);
    forall k | 0 <= k < |before|
      ensures before[k].claim.claimIndex != claims[n].claimIndex
    {
      assert before[k] in before;
      var i :| 0 <= i < n && before[k] in parts[..n][i];
      var m :| 0 <= m < |parts[i]| && parts[i][m] == before[k];
    }
  }

  lemma OnlyOnTheLeft(
    a: seq<Prepared>, b: seq<Prepared>, scores: seq<ScoreResult>, supportThreshold: real, index: nat)
    requires forall k | 0 <= k < |b| :: b[k].claim.claimIndex != index
    ensures UnitsOf(a + b, scores, supportThreshold, index) == UnitsOf(a, scores, supportThreshold, index)
    ensures LastClaim(a + b, index) == LastClaim(a, index)
  {
    UnitsOfJoins(a, b, scores, supportThreshold, index);
    LastClaimJoins(a, b, index);
    OthersUnits(b, scores, supportThreshold, index);
  }

  lemma OnlyOnTheRight(
    a: seq<Prepared>, b: seq<Prepared>, scores: seq<ScoreResult>, supportThreshold: real, index: nat)
    requires forall k | 0 <= k < |a| :: a[k].claim.claimIndex != index
    ensures UnitsOf(a + b, scores, supportThreshold, index) == UnitsOf(b, scores, supportThreshold, index)
    ensures LastClaim(a + b, index) == LastClaim(b, index)
  {
    UnitsOfJoins(a, b, scores, supportThreshold, index);
    LastClaimJoins(a, b, index);
    OthersUnits(a, scores, supportThreshold, index);
  }

  function ClaimIndexes(claims: seq<AnswerClaim>): seq<nat> {
    seq(|claims|, i requires 0 <= i < |claims| => claims[i].claimIndex)
  }

  lemma {:induction false} UniqueRun(a: seq<nat>, b: seq<nat>, x: nat)
    requires b != [] && x !in a && forall i | 0 <= i < |b| :: b[i] == x
    ensures Unique(a + b) == Unique(a) + [x]
  {
    var n := |b| - 1;
    assert (a + b)[..|a| + n] == a + b[..n];
    if n == 0 {
      assert a + b[..0] == a;
    } else {
      UniqueRun(a, b[..n], x);
      assert b[..n][0] == x;
      assert x in a + b[..n];
    }
  }

  /** The claims are checked in the order in which they came. */
  lemma {:induction false} ClaimsStayInOrder(parts: seq<seq<Prepared>>, claims: seq<AnswerClaim>)
    requires OwnParts(parts, claims) && DistinctIndexes(claims)
    ensures Unique(Indexes(Flatten(parts))) == ClaimIndexes(claims)
  {
    if claims == [] {
      assert Indexes([]) == [];
    } else {
      var n := |claims| - 1;
      ClaimsStayInOrder(parts[..n], claims[..n]);
      assert claims[n].claimIndex !in ClaimIndexes(claims[..n]);
      OneMoreIndex(Indexes(Flatten(parts[..n])), Indexes(parts[n]), ClaimIndexes(claims[..n]), claims[n].claimIndex);
      assert Indexes(Flatten(parts)) == Indexes(Flatten(parts[..n])) + Indexes(parts[n]);
      assert ClaimIndexes(claims) == ClaimIndexes(claims[..n]) + [claims[n].claimIndex];
    }
  }

  lemma OneMoreIndex(before: seq<nat>, own: seq<nat>, done: seq<nat>, x: nat)
    requires Unique(before) == done && x !in done && own != [] && forall k | 0 <= k < |own| :: own[k] == x
    ensures Unique(before + own) == done + [x]
  {
    UniqueFacts(before);
    UniqueRun(before, own, x);
  }

  function ModelItems(prepared: seq<Prepared>): seq<ScoreItem> {
    if prepared == [] then []
    else
      var last := prepared[|prepared| - 1];
      ModelItems(prepared[..|prepared| - 1]) + (if last.Model? then [last.item] else [])
  }

  lemma {:induction false} ModelItemsMembers(prepared: seq<Prepared>)
    ensures forall item :: item in ModelItems(prepared) <==> exists p | p in prepared :: p.Model? && p.item == item
  {
    if prepared != [] {
      var n := |prepared| - 1;
      ModelItemsMembers(prepared[..n]);
      assert prepared == prepared[..n] + [prepared[n]];
    }
  }

  method ReadModelItems(prepared: seq<Prepared>) returns (items: seq<ScoreItem>)
    ensures items == ModelItems(prepared)
  {
    items := [];
    for i := 0 to |prepared|
      invariant items == ModelItems(prepared[..i])
    {
      assert prepared[..i + 1][..i] == prepared[..i];
      if prepared[i].Model? {
        items := items + [prepared[i].item];
      }
    }
    assert prepared[..|prepared|] == prepared;
  }

  /** What is prepared to be scored: the claim, its source, and an id of both. */
  lemma PreparedItem(
    claim: AnswerClaim, sources: seq<Source>, limit: ScoreItem -> Option<string>, p: Prepared) returns (number: nat)
    requires Cites(claim, sources) && p in PreparedFor(claim, sources, limit) && p.Model?
    ensures SourceOf(sources, number).Some? && SourceOf(sources, number).value.evidence.TextEvidence?
    ensures p.item == ScoreItem(claim.claim, EvidenceUnit(SourceOf(sources, number).value),
                                ItemId(claim.claimIndex, number))
  {
    var k :| 0 <= k < |PreparedFor(claim, sources, limit)| && PreparedFor(claim, sources, limit)[k] == p;
    number := claim.citationNumbers[k];
  }

  /** Equal ids are only ever given to equal items. */
  lemma {:induction false} PreparedItemsAreConsistent(
    claims: seq<AnswerClaim>, sources: seq<Source>, limit: ScoreItem -> Option<string>)
    requires AllCite(claims, sources) && DistinctIndexes(claims)
    ensures Consistent(ModelItems(PreparedAll(claims, sources, limit)))
  {
    var prepared := PreparedAll(claims, sources, limit);
    var items := ModelItems(prepared);
    ModelItemsMembers(prepared);
    PreparedInParts(claims, sources, limit);
    FlattenMembers(Parts(claims, sources, limit));
    forall a, b | 0 <= a < |items| && 0 <= b < |items| && items[a].id == items[b].id
      ensures ContentOf(items[a]) == ContentOf(items[b])
    {
      assert items[a] in items && items[b] in items;
      var p :| p in prepared && p.Model? && p.item == items[a];
      var q :| q in prepared && q.Model? && q.item == items[b];
      var i :| 0 <= i < |claims| && p in Parts(claims, sources, limit)[i];
      var j :| 0 <= j < |claims| && q in Parts(claims, sources, limit)[j];
      var m := PreparedItem(claims[i], sources, limit, p);
      var n := PreparedItem(claims[j], sources, limit, q);
      ItemIdIsInjective(claims[i].claimIndex, m, claims[j].claimIndex, n);
      assert i == j;
    }
  }

  /** Whether the service answers on everything it is asked about. */
  ghost predicate AnswersAll(prepared: seq<Prepared>, judge: Pair -> Option<Verdict>) {
    forall i | 0 <= i < |prepared| && prepared[i].Model? :: judge(ContentOf(prepared[i].item)).Some?
  }

  /** Verifies claims.  The result is what checking every citation by itself
      gives: one check a claim, in the order of the claims, with its units in
      citation order.  It fails exactly for claims that repeat an index or cite
      what is not there, and for a service that leaves out an answer. */
  method VerifyAnswerClaims(
    claims: seq<AnswerClaim>, sources: seq<Source>, limit: ScoreItem -> Option<string>,
    score: seq<ScoreItem> -> seq<ScoreResult>, supportThreshold: real, ghost judge: Pair -> Option<Verdict>)
    returns (r: Result<seq<Check>, DataError>)
    requires JudgesByContent(score, judge)
    ensures r.Ok? <==>
            && DistinctIndexes(claims) && AllCite(claims, sources)
            && AnswersAll(PreparedAll(claims, sources, limit), judge)
    ensures r.Ok? ==> |r.value| == |claims|
    ensures r.Ok? ==> forall i | 0 <= i < |claims| ::
              Cites(claims[i], sources)
              && r.value[i] == DirectCheck(claims[i], sources, limit, judge, supportThreshold)
              && IsCheckOf(r.value[i], claims[i], sources, limit, judge, supportThreshold)
  {
    var attempt := PrepareClaimVerifications(claims, sources, limit);
    if attempt.Err? {
      return Err(attempt.error);
    }
    var prepared := attempt.value;
    var items := ReadModelItems(prepared);
    PreparedItemsAreConsistent(claims, sources, limit);
    var scores: seq<ScoreResult> := [];
    if items != [] {
      var sent: seq<ScoreItem>;
      scores, sent := ScoreUniqueHhemItems(items, score, judge);
    }
    ScoresAgree(prepared, scores, judge);
    var built := BuildClaimVerificationResults(prepared, scores, supportThreshold);
    if built.Err? {
      return Err(built.error);
    }
    PreparedInParts(claims, sources, limit);
    ClaimsStayInOrder(Parts(claims, sources, limit), claims);
    forall i | 0 <= i < |claims|
      ensures built.value[i] == DirectCheck(claims[i], sources, limit, judge, supportThreshold)
      ensures IsCheckOf(built.value[i], claims[i], sources, limit, judge, supportThreshold)
    {
      CheckIsDirect(claims, i, sources, limit, scores, judge, supportThreshold, built.value[i]);
      AnswersOnPart(Parts(claims, sources, limit), i, judge);
      CheckMeans(claims[i], sources, limit, judge, supportThreshold);
    }
    r := Ok(built.value);
  }

  lemma ScoresAgree(prepared: seq<Prepared>, scores: seq<ScoreResult>, judge: Pair -> Option<Verdict>)
    requires forall item | item in ModelItems(prepared) :: VerdictOf(scores, item.id) == judge(ContentOf(item))
    ensures Agree(prepared, scores, judge)
    ensures AllScored(prepared, scores) <==> AnswersAll(prepared, judge)
  {
    ModelItemsMembers(prepared);
    forall i | 0 <= i < |prepared| && prepared[i].Model?
      ensures VerdictOf(scores, prepared[i].item.id) == judge(ContentOf(prepared[i].item))
    {
      assert prepared[i] in prepared;
    }
  }

  lemma {:induction false} CheckIsDirect(
    claims: seq<AnswerClaim>, i: nat, sources: seq<Source>, limit: ScoreItem -> Option<string>,
    scores: seq<ScoreResult>, judge: Pair -> Option<Verdict>, supportThreshold: real, c: Check)
    requires AllCite(claims, sources) && DistinctIndexes(claims) && i < |claims|
    requires Agree(PreparedAll(claims, sources, limit), scores, judge)
    requires IsCheck(c, claims[i].claimIndex, PreparedAll(claims, sources, limit), scores, supportThreshold)
    ensures c == DirectCheck(claims[i], sources, limit, judge, supportThreshold)
  {
    PreparedInParts(claims, sources, limit);
    ClaimFindsItsUnits(Parts(claims, sources, limit), claims, i, scores, supportThreshold);
    AgreeOnPart(Parts(claims, sources, limit), i, scores, judge);
    OwnCheck(claims[i], sources, limit, scores, judge, supportThreshold);
  }

  lemma {:induction false} AgreeOnPart(
    parts: seq<seq<Prepared>>, i: nat, scores: seq<ScoreResult>, judge: Pair -> Option<Verdict>)
    requires i < |parts| && Agree(Flatten(parts), scores, judge)
    ensures Agree(parts[i], scores, judge)
    decreases |parts|
  {
    var n := |parts| - 1;
    AgreeSplits(Flatten(parts[..n]), parts[n], scores, judge);
    if i < n {
      AgreeOnPart(parts[..n], i, scores, judge);
    }
  }

  lemma {:induction false} AnswersOnPart(parts: seq<seq<Prepared>>, i: nat, judge: Pair -> Option<Verdict>)
    requires i < |parts| && AnswersAll(Flatten(parts), judge)
    ensures AnswersAll(parts[i], judge)
    decreases |parts|
  {
    var n := |parts| - 1;
    AnswersSplit(Flatten(parts[..n]), parts[n], judge);
    if i < n {
      AnswersOnPart(parts[..n], i, judge);
    }
  }

  lemma AnswersSplit(a: seq<Prepared>, b: seq<Prepared>, judge: Pair -> Option<Verdict>)
    requires AnswersAll(a + b, judge)
    ensures AnswersAll(a, judge) && AnswersAll(b, judge)
  {
    assert forall k | 0 <= k < |a| :: (a + b)[k] == a[k];
    assert forall k | 0 <= k < |b| :: (a + b)[|a| + k] == b[k];
  }

  lemma AgreeSplits(
    a: seq<Prepared>, b: seq<Prepared>, scores: seq<ScoreResult>, judge: Pair -> Option<Verdict>)
    requires Agree(a + b, scores, judge)
    ensures Agree(a, scores, judge) && Agree(b, scores, judge)
  {
    assert forall k | 0 <= k < |a| :: (a + b)[k] == a[k];
    assert forall k | 0 <= k < |b| :: (a + b)[|a| + k] == b[k];
  }

  // ----------------------------------------------------------- what a check means

  /** The source that is listed last under a number. */
  ghost predicate IsSource(sources: seq<Source>, number: nat, s: Source) {
    exists i :: 0 <= i < |sources| && sources[i] == s && LastWith(sources, number, i)
  }

  ghost predicate LastWith(sources: seq<Source>, number: nat, i: nat) {
    && i < |sources| && sources[i].citationNumber == number
    && forall j | i < j < |sources| :: sources[j].citationNumber != number
  }

  lemma {:induction false} SourceIsLast(sources: seq<Source>, number: nat)
    ensures SourceOf(sources, number).Some? <==> exists i :: 0 <= i < |sources| && sources[i].citationNumber == number
    ensures SourceOf(sources, number).Some? ==> IsSource(sources, number, SourceOf(sources, number).value)
  {
    if sources != [] {
      var n := |sources| - 1;
      if sources[n].citationNumber == number {
        assert LastWith(sources, number, n);
      } else {
        SourceIsLast(sources[..n], number);
        if SourceOf(sources[..n], number).Some? {
          var i :| 0 <= i < n && sources[..n][i] == SourceOf(sources[..n], number).value && LastWith(sources[..n], number, i);
          LastOfPrefix(sources, number, i);
        }
      }
    }
  }

  lemma LastOfPrefix(sources: seq<Source>, number: nat, i: nat)
    requires sources != [] && sources[|sources| - 1].citationNumber != number
    requires LastWith(sources[..|sources| - 1], number, i)
    ensures LastWith(sources, number, i) && sources[i] == sources[..|sources| - 1][i]
  {
    forall j | i < j < |sources|
      ensures sources[j].citationNumber != number
    {
      assert j < |sources| - 1 ==> sources[..|sources| - 1][j] == sources[j];
    }
  }

  lemma {:induction false} JoinJoins(parts: seq<string>, separator: string)
    ensures JoinedBy(Join(parts, separator), parts, separator)
  {
    if |parts| > 1 {
      JoinJoins(parts[1..], separator);
      JoinOneMore(parts[0], separator, Join(parts[1..], separator), parts[1..]);
      assert parts == [parts[0]] + parts[1..];
    }
  }

  /** The text a source is sent as: its number, its section if it has one, and
      what it says, on lines of their own. */
  ghost predicate IsEvidenceOf(evidence: string, s: Source) {
    && s.evidence.TextEvidence?
    && exists section ::
         && JoinedBy(section, s.sectionPath, " > ")
         && JoinedBy(evidence,
                     ["[Citation " + Decimal(s.citationNumber) + "]"]
                     + (if s.sectionPath == [] then [] else ["Section: " + section])
                     + [s.evidence.text],
                     "\n")
  }

  lemma EvidenceUnitMeans(s: Source)
    requires s.evidence.TextEvidence?
    ensures IsEvidenceOf(EvidenceUnit(s), s)
  {
    var head, section, text := "[Citation " + Decimal(s.citationNumber) + "]", Join(s.sectionPath, " > "), s.evidence.text;
    JoinJoins(s.sectionPath, " > ");
    TwoLines(head, text);
    ThreeLines(head, "Section: ", section, text);
  }

  lemma TwoLines(head: string, text: string)
    ensures JoinedBy(head + "" + "\n" + text, [head] + [] + [text], "\n")
  {
    JoinOneMore(head, "\n", text, [text]);
    assert head + "" == head && [head] + [] == [head];
  }

  lemma ThreeLines(head: string, title: string, section: string, text: string)
    ensures JoinedBy(head + ("\n" + title + section) + "\n" + text, [head] + [title + section] + [text], "\n")
  {
    var middle := title + section;
    JoinOneMore(middle, "\n", text, [text]);
    JoinOneMore(head, "\n", middle + "\n" + text, [middle] + [text]);
    assert head + ("\n" + title + section) + "\n" + text == head + "\n" + (middle + "\n" + text);
    assert [head] + [middle] + [text] == [head] + ([middle] + [text]);
  }

  /** What one citation of a claim must come to: an image cannot be judged, an
      item over the limits or too long for the model is not evaluated, and what
      is judged is supported exactly if its probability reaches the threshold. */
  ghost predicate IsUnitOf(
    u: Unit, claim: AnswerClaim, number: nat, s: Source, evidence: string,
    limit: ScoreItem -> Option<string>, judge: Pair -> Option<Verdict>, supportThreshold: real)
  {
    && u.citationNumber == number
    && u.unitId == "claim-" + Decimal(claim.claimIndex) + ("-citation-" + Decimal(number))
    && (s.evidence.ImageEvidence? ==> u.outcome == VerifierIncompatible)
    && (s.evidence.TextEvidence? ==>
          var failure := limit(ScoreItem(claim.claim, evidence, u.unitId));
          && IsEvidenceOf(evidence, s)
          && (failure.Some? ==> u.outcome == NotEvaluated(failure.value))
          && (failure.None? ==>
                match judge(Pair(claim.claim, evidence))
                case None => false
                case Some(ModelContextCapacity) => u.outcome == CONTEXT_CAPACITY
                case Some(Scored(p)) =>
                  && (p >= supportThreshold ==> u.outcome == Supported(p))
                  && (p < supportThreshold ==> u.outcome == Unsupported(p))))
  }

  ghost predicate IsJudged(
    u: Unit, claim: AnswerClaim, number: nat, sources: seq<Source>,
    limit: ScoreItem -> Option<string>, judge: Pair -> Option<Verdict>, supportThreshold: real)
  {
    exists s, evidence ::
      IsSource(sources, number, s) && IsUnitOf(u, claim, number, s, evidence, limit, judge, supportThreshold)
  }

  /** A check has one unit a citation, in order, each judged on its own source;
      its status tells which outcomes there are. */
  ghost predicate IsCheckOf(
    c: Check, claim: AnswerClaim, sources: seq<Source>, limit: ScoreItem -> Option<string>,
    judge: Pair -> Option<Verdict>, supportThreshold: real)
  {
    && c.claim == claim && |c.evidenceUnits| == |claim.citationNumbers|
    && (forall k | 0 <= k < |claim.citationNumbers| ::
          IsJudged(c.evidenceUnits[k], claim, claim.citationNumbers[k], sources, limit, judge, supportThreshold))
    && (c.status == FullySupported <==>
          && (exists k :: 0 <= k < |c.evidenceUnits| && c.evidenceUnits[k].outcome.Supported?)
          && (forall k | 0 <= k < |c.evidenceUnits| :: !c.evidenceUnits[k].outcome.Unsupported?))
    && (c.status == PartiallySupported <==>
          && (exists k :: 0 <= k < |c.evidenceUnits| && c.evidenceUnits[k].outcome.Supported?)
          && (exists k :: 0 <= k < |c.evidenceUnits| && c.evidenceUnits[k].outcome.Unsupported?))
    && (c.status == NotSupported <==>
          && (forall k | 0 <= k < |c.evidenceUnits| :: !c.evidenceUnits[k].outcome.Supported?)
          && (exists k :: 0 <= k < |c.evidenceUnits| && c.evidenceUnits[k].outcome.Unsupported?))
  }

  /** What the verification of one claim comes to is what is asked of it. */
  lemma CheckMeans(
    claim: AnswerClaim, sources: seq<Source>, limit: ScoreItem -> Option<string>,
    judge: Pair -> Option<Verdict>, supportThreshold: real)
    requires Cites(claim, sources) && AnswersAll(PreparedFor(claim, sources, limit), judge)
    ensures IsCheckOf(DirectCheck(claim, sources, limit, judge, supportThreshold), claim, sources, limit, judge,
                      supportThreshold)
  {
    var units, n := DirectCheck(claim, sources, limit, judge, supportThreshold).evidenceUnits, |claim.citationNumbers|;
    var parts := seq(n, k requires 0 <= k < n =>
      DirectUnit(claim, claim.citationNumbers[k], sources, limit, judge, supportThreshold));
    forall k | 0 <= k < n
      ensures |parts[k]| == 1
      ensures IsJudged(parts[k][0], claim, claim.citationNumbers[k], sources, limit, judge, supportThreshold)
    {
      assert PreparedFor(claim, sources, limit)[k] == PreparedOne(claim, claim.citationNumbers[k], sources, limit);
      UnitMeans(claim, claim.citationNumbers[k], sources, limit, judge, supportThreshold);
    }
    UnitsConcat(claim, parts, n, sources, limit, judge, supportThreshold);
    SinglesConcat(parts, n);
    StatusMeans(units);
  }

  function Concat(parts: seq<seq<Unit>>, n: nat): seq<Unit>
    requires n <= |parts|
  {
    if n == 0 then [] else Concat(parts, n - 1) + parts[n - 1]
  }

  lemma {:induction false} SinglesConcat(parts: seq<seq<Unit>>, n: nat)
    requires n <= |parts| && forall k | 0 <= k < n :: |parts[k]| == 1
    ensures |Concat(parts, n)| == n && forall k | 0 <= k < n :: Concat(parts, n)[k] == parts[k][0]
  {
    if n > 0 {
      SinglesConcat(parts, n - 1);
    }
  }

  lemma {:induction false} UnitsConcat(
    claim: AnswerClaim, parts: seq<seq<Unit>>, n: nat, sources: seq<Source>, limit: ScoreItem -> Option<string>,
    judge: Pair -> Option<Verdict>, supportThreshold: real)
    requires Cites(claim, sources) && n <= |parts| == |claim.citationNumbers|
    requires forall k | 0 <= k < n ::
               parts[k] == DirectUnit(claim, claim.citationNumbers[k], sources, limit, judge, supportThreshold)
    ensures DirectUnits(claim, n, sources, limit, judge, supportThreshold) == Concat(parts, n)
  {
    if n > 0 {
      UnitsConcat(claim, parts, n - 1, sources, limit, judge, supportThreshold);
    }
  }

  lemma UnitMeans(
    claim: AnswerClaim, number: nat, sources: seq<Source>, limit: ScoreItem -> Option<string>,
    judge: Pair -> Option<Verdict>, supportThreshold: real)
    requires SourceOf(sources, number).Some?
    requires var p := PreparedOne(claim, number, sources, limit); p.Model? ==> judge(ContentOf(p.item)).Some?
    ensures var one := DirectUnit(claim, number, sources, limit, judge, supportThreshold);
      |one| == 1 && IsJudged(one[0], claim, number, sources, limit, judge, supportThreshold)
  {
    SourceIsLast(sources, number);
    var s, one := SourceOf(sources, number).value, DirectUnit(claim, number, sources, limit, judge, supportThreshold);
    var evidence := if s.evidence.TextEvidence? then EvidenceUnit(s) else "";
    if s.evidence.TextEvidence? {
      EvidenceUnitMeans(s);
    }
    assert IsUnitOf(one[0], claim, number, s, evidence, limit, judge, supportThreshold);
  }

  lemma StatusMeans(units: seq<Unit>)
    ensures (exists k :: 0 <= k < |units| && units[k].outcome.Supported?) <==> AnySupported(units)
    ensures (exists k :: 0 <= k < |units| && units[k].outcome.Unsupported?) <==> AnyUnsupported(units)
  {
    assert forall k | 0 <= k < |units| :: units[k] in units;
  }
}
