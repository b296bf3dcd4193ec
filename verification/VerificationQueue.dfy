/** The leased verification job queue.  Every queue method is one atomic step,
    because its caller wraps it in a transaction; workers, crashes and clocks
    are free.  attemptCount is the fencing token of a claim. */
module VerificationQueue {
  import opened Prelude

  type JobId = string

  const MINIMUM_LEASE_MS: int := 300_000
  const LEASE_MARGIN_MS: int := 60_000
  const MAXIMUM_FAILURES: nat := 3
  const RETRY_DELAYS_MS: seq<int> := [1_000, 5_000]

  datatype JobState = Pending | Running | Completed | Failed

  datatype Row = Row(
    state: JobState, attemptCount: nat, failureCount: nat, availableAt: int, updatedAt: int,
    leaseExpiresAt: Option<int>, completedAt: Option<int>, errorMessage: Option<string>)

  datatype Lease = Lease(id: JobId, attemptCount: nat, failureCount: nat)

  // ---------------------------------------------------------------- one row

  function NewRow(now: int): Row {
    Row(Pending, 0, 0, now, now, None, None, None)
  }

  function LeaseExpiration(now: int, timeoutMs: int): int {
    now + Max(MINIMUM_LEASE_MS, timeoutMs + LEASE_MARGIN_MS)
  }

  predicate Eligible(row: Row, now: int) {
    || (row.state == Pending && row.availableAt <= now)
    || (row.state == Running && row.leaseExpiresAt.Some? && row.leaseExpiresAt.value <= now)
  }

  predicate Holds(row: Row, attemptCount: nat) {
    row.attemptCount == attemptCount && row.state == Running
  }

  function ClaimRow(row: Row, now: int, timeoutMs: int): Row {
    row.(state := Running, attemptCount := row.attemptCount + 1, updatedAt := now,
         leaseExpiresAt := Some(LeaseExpiration(now, timeoutMs)), errorMessage := None)
  }

  function CompleteRow(row: Row, at: int): Row {
    row.(state := Completed, completedAt := Some(at), updatedAt := at,
         leaseExpiresAt := None, errorMessage := None)
  }

  function SettleRow(row: Row, now: int, message: string, retryAt: Option<int>): Row {
    row.(state := if retryAt.None? then Failed else Pending,
         availableAt := if retryAt.None? then now else retryAt.value,
         completedAt := if retryAt.None? then Some(now) else None,
         failureCount := row.failureCount + 1, updatedAt := now,
         leaseExpiresAt := None, errorMessage := Some(message))
  }

  function ReleaseRow(row: Row, now: int): Row {
    row.(state := Pending, availableAt := now, updatedAt := now,
         leaseExpiresAt := None, errorMessage := None)
  }

  /** When to try again after so many failures; None means never. */
  function RetryTime(failureCount: nat, now: int): Option<int> {
    if failureCount >= MAXIMUM_FAILURES then None
    else if !(1 <= failureCount <= |RETRY_DELAYS_MS|) then None
    else Some(now + RETRY_DELAYS_MS[failureCount - 1])
  }

  // -------------------------------------------------------------- the table

  /** Column order of the claim: availableAt, then updatedAt. */
  predicate NotAfter(a: Row, b: Row) {
    a.availableAt < b.availableAt || (a.availableAt == b.availableAt && a.updatedAt <= b.updatedAt)
  }

  predicate Candidate(rows: map<JobId, Row>, locked: set<JobId>, now: int, id: JobId) {
    id in rows && id !in locked && Eligible(rows[id], now)
  }

  predicate Chosen(rows: map<JobId, Row>, locked: set<JobId>, now: int, id: JobId) {
    && Candidate(rows, locked, now, id)
    && forall other | other in rows && Candidate(rows, locked, now, other) ::
         NotAfter(rows[id], rows[other])
  }

  /** What a claim left behind for later: who, when, and until when. */
  datatype Claimed = Claimed(lease: Lease, at: int, until: int)

  /** History of one job besides its row. */
  datatype Tally = Tally(releases: nat, takeovers: nat)

  datatype State = State(
    rows: map<JobId, Row>, issued: seq<Claimed>, applied: seq<JobId>, tallies: map<JobId, Tally>)

  datatype Event =
    | Enqueue(id: JobId, now: int)
    | Claim(id: JobId, now: int, timeoutMs: int, locked: set<JobId>)
    | Complete(lease: Lease, now: int)
    | SettleFailure(lease: Lease, now: int, message: string, retryAt: Option<int>)
    | Release(lease: Lease, now: int)

  const EMPTY := State(map[], [], [], map[])

  predicate Issued(s: State, lease: Lease) {
    exists k | 0 <= k < |s.issued| :: s.issued[k].lease == lease
  }

  /** A worker presents only a lease that some claim gave out, but any worker
      may present any of them, late, twice or never. */
  predicate Enabled(s: State, e: Event) {
    match e
    case Enqueue(id, _) => id !in s.rows && id !in s.tallies
    case Claim(id, now, _, locked) => Chosen(s.rows, locked, now, id) && id in s.tallies
    case Complete(lease, _) => Issued(s, lease)
    case SettleFailure(lease, _, _, _) => Issued(s, lease)
    case Release(lease, _) => Issued(s, lease) && lease.id in s.tallies
  }

  predicate Valid(s: State, lease: Lease) {
    lease.id in s.rows && Holds(s.rows[lease.id], lease.attemptCount)
  }

  function Next(s: State, e: Event): State
    requires Enabled(s, e)
  {
    match e
    case Enqueue(id, now) =>
      s.(rows := s.rows[id := NewRow(now)], tallies := s.tallies[id := Tally(0, 0)])
    case Claim(id, now, timeoutMs, _) =>
      var row := s.rows[id];
      var lease := Lease(id, row.attemptCount + 1, row.failureCount);
      var tally := s.tallies[id];
      s.(rows := s.rows[id := ClaimRow(row, now, timeoutMs)],
         issued := s.issued + [Claimed(lease, now, LeaseExpiration(now, timeoutMs))],
         tallies := s.tallies[id :=
           if row.state == Running then tally.(takeovers := tally.takeovers + 1) else tally])
    case Complete(lease, now) =>
      if !Valid(s, lease) then s
      else s.(rows := s.rows[lease.id := CompleteRow(s.rows[lease.id], now)],
              applied := s.applied + [lease.id])
    case SettleFailure(lease, now, message, retryAt) =>
      if !Valid(s, lease) then s
      else
        s.(rows := s.rows[lease.id := SettleRow(s.rows[lease.id], now, message, retryAt)])
    case Release(lease, now) =>
      if !Valid(s, lease) then s
      else
        var tally := s.tallies[lease.id];
        s.(rows := s.rows[lease.id := ReleaseRow(s.rows[lease.id], now)],
           tallies := s.tallies[lease.id := tally.(releases := tally.releases + 1)])
  }

  predicate Executable(s: State, events: seq<Event>)
    decreases |events|
  {
    events == [] || (Enabled(s, events[0]) && Executable(Next(s, events[0]), events[1..]))
  }

  function Exec(s: State, events: seq<Event>): State
    requires Executable(s, events)
    decreases |events|
  {
    if events == [] then s else Exec(Next(s, events[0]), events[1..])
  }

  /** A run goes on with any event that is enabled where it has come to. */
  lemma {:induction false} RunsExtend(s: State, events: seq<Event>, e: Event)
    ensures Executable(s, []) && Exec(s, []) == s
    ensures Executable(s, events + [e]) <==> Executable(s, events) && Enabled(Exec(s, events), e)
    ensures Executable(s, events + [e]) ==> Exec(s, events + [e]) == Next(Exec(s, events), e)
    decreases |events|
  {
    if events == [] {
      assert [] + [e] == [e] && [e][1..] == [];
    } else {
      assert (events + [e])[1..] == events[1..] + [e];
      if Enabled(s, events[0]) {
        RunsExtend(Next(s, events[0]), events[1..], e);
      }
    }
  }

  // -------------------------------------------------------------- invariant

  ghost predicate RowInv(row: Row, tally: Tally) {
    && (row.state == Running <==> row.leaseExpiresAt.Some?)
    && (row.state == Completed || row.state == Failed <==> row.completedAt.Some?)
    && row.attemptCount == row.failureCount + tally.releases + tally.takeovers
         + (if row.state == Completed then 1 else 0) + (if row.state == Running then 1 else 0)
  }

  /** A lease that still holds its row knows the row's failure count and when
      the row's lease runs out. */
  ghost predicate ClaimInv(rows: map<JobId, Row>, c: Claimed) {
    && c.lease.id in rows
    && 1 <= c.lease.attemptCount <= rows[c.lease.id].attemptCount
    && c.until >= c.at + MINIMUM_LEASE_MS
    && (Holds(rows[c.lease.id], c.lease.attemptCount) ==>
          && c.lease.failureCount == rows[c.lease.id].failureCount
          && rows[c.lease.id].leaseExpiresAt == Some(c.until))
  }

  ghost predicate SameToken(a: Lease, b: Lease) {
    a.id == b.id && a.attemptCount == b.attemptCount
  }

  ghost predicate Inv(s: State) {
    && s.tallies.Keys == s.rows.Keys
    && (forall id | id in s.rows :: RowInv(s.rows[id], s.tallies[id]))
    && (forall k | 0 <= k < |s.issued| :: ClaimInv(s.rows, s.issued[k]))
    && (forall j, k | 0 <= j < k < |s.issued| :: !SameToken(s.issued[j].lease, s.issued[k].lease))
    && (forall i, j | 0 <= i < j < |s.applied| :: s.applied[i] != s.applied[j])
    && (forall id | id in s.applied :: id in s.rows && s.rows[id].state == Completed)
    && (forall id | id in s.rows && s.rows[id].state == Completed :: id in s.applied)
  }

  lemma ClaimKeepsInv(s: State, e: Event)
    requires Inv(s) && Enabled(s, e) && e.Claim?
    ensures Inv(Next(s, e))
  {
    var after := Next(s, e);
    forall k | 0 <= k < |after.issued|
      ensures ClaimInv(after.rows, after.issued[k])
    {
      assert k < |s.issued| ==> ClaimInv(s.rows, s.issued[k]);
    }
    forall k | 0 <= k < |s.issued|
      ensures !SameToken(s.issued[k].lease, after.issued[|s.issued|].lease)
    {
      assert ClaimInv(s.rows, s.issued[k]);
    }
  }

  lemma WorkerStepKeepsInv(s: State, e: Event)
    requires Inv(s) && Enabled(s, e) && !e.Claim? && !e.Enqueue?
    ensures Inv(Next(s, e))
  {
    if Valid(s, e.lease) {
      WorkerStepKeepsRow(s, e);
      WorkerStepKeepsClaims(s, e);
    }
  }

  /** The row that a worker settles keeps its accounting and is given up. */
  lemma WorkerStepKeepsRow(s: State, e: Event)
    requires Inv(s) && Enabled(s, e) && !e.Claim? && !e.Enqueue? && Valid(s, e.lease)
    ensures var id, after := e.lease.id, Next(s, e);
      && id in after.rows && id in after.tallies && RowInv(after.rows[id], after.tallies[id])
      && after.rows[id].attemptCount == s.rows[id].attemptCount
      && after.rows[id].state != Running
  {
    assert RowInv(s.rows[e.lease.id], s.tallies[e.lease.id]);
  }

  lemma WorkerStepKeepsClaims(s: State, e: Event)
    requires Inv(s) && Enabled(s, e) && !e.Claim? && !e.Enqueue? && Valid(s, e.lease)
    ensures forall c | c in s.issued :: ClaimInv(Next(s, e).rows, c)
  {
    WorkerStepKeepsRow(s, e);
    forall c | c in s.issued
      ensures ClaimInv(Next(s, e).rows, c)
    {
      assert ClaimInv(s.rows, c);
    }
  }

  lemma NextKeepsInv(s: State, e: Event)
    requires Inv(s) && Enabled(s, e)
    ensures Inv(Next(s, e))
  {
    if e.Claim? {
      ClaimKeepsInv(s, e);
    } else if !e.Enqueue? {
      WorkerStepKeepsInv(s, e);
    }
  }

  /** The invariant holds all along a run, and no row is ever lost. */
  lemma {:induction false} RunKeepsInv(s: State, events: seq<Event>)
    requires Inv(s) && Executable(s, events)
    ensures Inv(Exec(s, events)) && s.rows.Keys <= Exec(s, events).rows.Keys
    decreases |events|
  {
    if events != [] {
      NextKeepsInv(s, events[0]);
      RunKeepsInv(Next(s, events[0]), events[1..]);
    }
  }

  // --------------------------------------------------------- the retry policy

  /** A failure is settled with the retry time of the worker's schedule. */
  ghost predicate OnSchedule(e: Event) {
    e.SettleFailure? ==> exists clock :: RetriesFrom(e, clock)
  }

  predicate RetriesFrom(e: Event, clock: int)
    requires e.SettleFailure?
  {
    e.retryAt == RetryTime(e.lease.failureCount + 1, clock)
  }

  ghost predicate AllOnSchedule(events: seq<Event>) {
    forall e | e in events :: OnSchedule(e)
  }

  ghost predicate FailuresInv(s: State) {
    forall id | id in s.rows ::
      && s.rows[id].failureCount <= MAXIMUM_FAILURES
      && (s.rows[id].state == Failed <==> s.rows[id].failureCount == MAXIMUM_FAILURES)
  }

  lemma {:induction false} RunKeepsFailures(s: State, events: seq<Event>)
    requires Inv(s) && FailuresInv(s) && Executable(s, events) && AllOnSchedule(events)
    ensures FailuresInv(Exec(s, events))
    decreases |events|
  {
    if events != [] {
      assert OnSchedule(events[0]);
      NextKeepsFailures(s, events[0]);
      NextKeepsInv(s, events[0]);
      RunKeepsFailures(Next(s, events[0]), events[1..]);
    }
  }

  lemma NextKeepsFailures(s: State, e: Event)
    requires Inv(s) && FailuresInv(s) && Enabled(s, e) && OnSchedule(e)
    ensures FailuresInv(Next(s, e))
  {
    if e.SettleFailure? && Valid(s, e.lease) {
      var k :| 0 <= k < |s.issued| && s.issued[k].lease == e.lease;
      assert ClaimInv(s.rows, s.issued[k]);
    }
  }

  // ------------------------------------------------- what holds in every run

  /** Every claim gets a token of its own, and no two claims hold a job at once. */
  lemma TokensAreUnique(events: seq<Event>)
    requires Executable(EMPTY, events)
    ensures var s := Exec(EMPTY, events);
      && (forall j, k | 0 <= j < k < |s.issued| :: !SameToken(s.issued[j].lease, s.issued[k].lease))
      && (forall j, k | 0 <= j < |s.issued| && 0 <= k < |s.issued|
            && s.issued[j].lease.id == s.issued[k].lease.id
            && Valid(s, s.issued[j].lease) && Valid(s, s.issued[k].lease) :: j == k)
  {
    RunKeepsInv(EMPTY, events);
    var s := Exec(EMPTY, events);
    forall j, k | 0 <= j < |s.issued| && 0 <= k < |s.issued|
      && s.issued[j].lease.id == s.issued[k].lease.id
      && Valid(s, s.issued[j].lease) && Valid(s, s.issued[k].lease)
      ensures j == k
    {
      assert SameToken(s.issued[j].lease, s.issued[k].lease);
    }
  }

  /** The accounting of every row in every run; on the worker's schedule the
      third failure, and no other, is final. */
  lemma RowsAddUp(events: seq<Event>, id: JobId)
    requires Executable(EMPTY, events) && id in Exec(EMPTY, events).rows
    ensures var s := Exec(EMPTY, events);
      && id in s.tallies
      && var row := s.rows[id];
      && (AllOnSchedule(events) ==> row.failureCount <= 3 && (row.state == Failed <==> row.failureCount == 3))
      && (row.leaseExpiresAt.Some? <==> row.state == Running)
      && row.attemptCount == row.failureCount + s.tallies[id].releases + s.tallies[id].takeovers
           + (if row.state == Completed then 1 else 0) + (if row.state == Running then 1 else 0)
  {
    RunKeepsInv(EMPTY, events);
    if AllOnSchedule(events) {
      RunKeepsFailures(EMPTY, events);
    }
    assert RowInv(Exec(EMPTY, events).rows[id], Exec(EMPTY, events).tallies[id]);
  }

  /** Results are applied once for a completed job and never for another. */
  lemma ResultsAppliedOnce(events: seq<Event>, id: JobId)
    requires Executable(EMPTY, events)
    ensures var s := Exec(EMPTY, events);
      multiset(s.applied)[id] == if id in s.rows && s.rows[id].state == Completed then 1 else 0
  {
    RunKeepsInv(EMPTY, events);
    DistinctCount(Exec(EMPTY, events).applied, id);
  }

  lemma {:induction false} DistinctCount(ids: seq<JobId>, id: JobId)
    requires forall i, j | 0 <= i < j < |ids| :: ids[i] != ids[j]
    ensures multiset(ids)[id] == if id in ids then 1 else 0
  {
    if ids != [] {
      var n := |ids| - 1;
      assert ids == ids[..n] + [ids[n]];
      DistinctCount(ids[..n], id);
    }
  }

  ghost predicate UsesLease(e: Event, lease: Lease) {
    (e.Complete? || e.SettleFailure? || e.Release?) && SameToken(e.lease, lease)
  }

  lemma StaleStepStaysStale(s: State, e: Event, lease: Lease)
    requires Inv(s) && Enabled(s, e) && Issued(s, lease) && !Valid(s, lease)
    ensures Issued(Next(s, e), lease) && !Valid(Next(s, e), lease)
    ensures UsesLease(e, lease) ==> Next(s, e) == s
  {
    var k :| 0 <= k < |s.issued| && s.issued[k].lease == lease;
    assert ClaimInv(s.rows, s.issued[k]);
    assert Next(s, e).issued[k].lease == lease;
  }

  lemma {:induction false} StaleStaysStale(s: State, events: seq<Event>, lease: Lease)
    requires Inv(s) && Executable(s, events) && Issued(s, lease) && !Valid(s, lease)
    ensures Issued(Exec(s, events), lease) && !Valid(Exec(s, events), lease)
    decreases |events|
  {
    if events != [] {
      NextKeepsInv(s, events[0]);
      StaleStepStaysStale(s, events[0], lease);
      StaleStaysStale(Next(s, events[0]), events[1..], lease);
    }
  }

  /** A token that has lost its row has lost it for good: after any further
      events, presenting it changes nothing at all. */
  lemma StaleTokenNeverActs(before: seq<Event>, events: seq<Event>, lease: Lease, e: Event)
    requires Executable(EMPTY, before) && Executable(Exec(EMPTY, before), events)
    requires Issued(Exec(EMPTY, before), lease) && !Valid(Exec(EMPTY, before), lease)
    requires UsesLease(e, lease) && Enabled(Exec(Exec(EMPTY, before), events), e)
    ensures var s := Exec(Exec(EMPTY, before), events);
            Next(s, e) == s
  {
    RunKeepsInv(EMPTY, before);
    var s := Exec(EMPTY, before);
    RunKeepsInv(s, events);
    StaleStaysStale(s, events, lease);
    StaleStepStaysStale(Exec(s, events), e, lease);
  }

  ghost predicate Final(s: State, id: JobId) {
    id in s.rows && (s.rows[id].state == Completed || s.rows[id].state == Failed)
  }

  lemma StepKeepsFinalRow(s: State, e: Event, id: JobId)
    requires Final(s, id) && Enabled(s, e)
    ensures id in Next(s, e).rows && Next(s, e).rows[id] == s.rows[id]
    ensures multiset(Next(s, e).applied)[id] == multiset(s.applied)[id]
  {
  }

  lemma {:induction false} RunKeepsFinalRow(s: State, events: seq<Event>, id: JobId)
    requires Executable(s, events) && Final(s, id)
    ensures id in Exec(s, events).rows && Exec(s, events).rows[id] == s.rows[id]
    ensures multiset(Exec(s, events).applied)[id] == multiset(s.applied)[id]
    decreases |events|
  {
    if events != [] {
      StepKeepsFinalRow(s, events[0], id);
      RunKeepsFinalRow(Next(s, events[0]), events[1..], id);
    }
  }

  /** Completed and failed rows are final, and so is what was applied for them,
      whatever happens later. */
  lemma FinalRowsNeverChange(before: seq<Event>, events: seq<Event>, id: JobId)
    requires Executable(EMPTY, before) && Executable(Exec(EMPTY, before), events)
    requires Final(Exec(EMPTY, before), id)
    ensures var s := Exec(EMPTY, before);
      var after := Exec(s, events);
      && id in after.rows && after.rows[id] == s.rows[id]
      && multiset(after.applied)[id] == multiset(s.applied)[id]
  {
    RunKeepsFinalRow(Exec(EMPTY, before), events, id);
  }

  /** A running job changes hands without its worker only after the lease of
      at least five minutes that the last claim gave out has run out. */
  lemma NoEarlyTakeover(events: seq<Event>, claim: Event, k: nat)
    requires Executable(EMPTY, events) && Enabled(Exec(EMPTY, events), claim) && claim.Claim?
    requires k < |Exec(EMPTY, events).issued|
    requires Exec(EMPTY, events).issued[k].lease.id == claim.id
    requires Valid(Exec(EMPTY, events), Exec(EMPTY, events).issued[k].lease)
    ensures claim.now >= Exec(EMPTY, events).issued[k].until
    ensures claim.now >= Exec(EMPTY, events).issued[k].at + 300_000
    ensures !Valid(Next(Exec(EMPTY, events), claim), Exec(EMPTY, events).issued[k].lease)
  {
    RunKeepsInv(EMPTY, events);
    assert ClaimInv(Exec(EMPTY, events).rows, Exec(EMPTY, events).issued[k]);
  }

  /** The retry policy: after the first two failures the job comes back one and
      five seconds later, after the third it does not come back. */
  lemma FailureSchedule(events: seq<Event>, e: Event, clock: int)
    requires Executable(EMPTY, events) && AllOnSchedule(events) && Enabled(Exec(EMPTY, events), e)
    requires e.SettleFailure? && Valid(Exec(EMPTY, events), e.lease)
    requires RetriesFrom(e, clock)
    ensures var before := Exec(EMPTY, events);
      var after := Next(before, e);
      && e.lease.id in before.rows && e.lease.id in after.rows
      && var row := after.rows[e.lease.id];
      && row.failureCount == before.rows[e.lease.id].failureCount + 1
      && (row.failureCount == 1 ==> row.state == Pending && row.availableAt == clock + 1_000)
      && (row.failureCount == 2 ==> row.state == Pending && row.availableAt == clock + 5_000)
      && (row.failureCount == 3 ==> row.state == Failed)
      && 1 <= row.failureCount <= 3
  {
    RunKeepsInv(EMPTY, events);
    RunKeepsFailures(EMPTY, events);
    var s := Exec(EMPTY, events);
    var k :| 0 <= k < |s.issued| && s.issued[k].lease == e.lease;
    assert ClaimInv(s.rows, s.issued[k]);
    assert RowInv(s.rows[e.lease.id], s.tallies[e.lease.id]);
  }

  /** Nobody claims the job. */
  ghost predicate Unclaimed(events: seq<Event>, id: JobId) {
    forall e | e in events && e.Claim? :: e.id != id
  }

  lemma {:induction false} PendingRowStays(s: State, events: seq<Event>, id: JobId)
    requires Executable(s, events) && Unclaimed(events, id) && id in s.rows && s.rows[id].state == Pending
    ensures id in Exec(s, events).rows && Exec(s, events).rows[id] == s.rows[id]
    decreases |events|
  {
    if events != [] {
      assert events[0] in events && forall e | e in events[1..] :: e in events;
      PendingRowStays(Next(s, events[0]), events[1..], id);
    }
  }

  /** Retry delays are kept: a job put back until some time is not claimed before
      that time, whatever else happens in between.  On the worker's schedule that
      is one second after the first failure and five after the second. */
  lemma RetryDelayIsKept(
    before: seq<Event>, settle: Event, between: seq<Event>, claim: Event, clock: int)
    requires Executable(EMPTY, before) && settle.SettleFailure? && Enabled(Exec(EMPTY, before), settle)
    requires Valid(Exec(EMPTY, before), settle.lease) && settle.retryAt.Some?
    requires Executable(Next(Exec(EMPTY, before), settle), between) && Unclaimed(between, settle.lease.id)
    requires claim.Claim? && claim.id == settle.lease.id
    requires Enabled(Exec(Next(Exec(EMPTY, before), settle), between), claim)
    ensures claim.now >= settle.retryAt.value
    ensures AllOnSchedule(before) && RetriesFrom(settle, clock) ==>
              && settle.lease.failureCount <= 1
              && claim.now >= clock + (if settle.lease.failureCount == 0 then 1_000 else 5_000)
  {
    var s := Exec(EMPTY, before);
    PendingRowStays(Next(s, settle), between, claim.id);
    if AllOnSchedule(before) && RetriesFrom(settle, clock) {
      FailureSchedule(before, settle, clock);
      RunKeepsInv(EMPTY, before);
      var k :| 0 <= k < |s.issued| && s.issued[k].lease == settle.lease;
      assert ClaimInv(s.rows, s.issued[k]);
    }
  }

  ghost predicate IsDue(row: Row, now: int) {
    || (row.state == Pending && row.availableAt <= now)
    || (row.state == Running && row.leaseExpiresAt.Some? && row.leaseExpiresAt.value <= now)
  }

  /** What can happen after any run: any new job, a claim of any unlocked row that
      is due and comes no later than the others, and any answer to any claim. */
  lemma EnabledExactlyWhen(events: seq<Event>, e: Event)
    requires Executable(EMPTY, events)
    ensures var s := Exec(EMPTY, events);
      Enabled(s, e) <==>
        match e
        case Enqueue(id, _) => id !in s.rows
        case Claim(id, now, _, locked) =>
          && id in s.rows && id !in locked && IsDue(s.rows[id], now)
          && forall other | other in s.rows && other !in locked && IsDue(s.rows[other], now) ::
               || s.rows[id].availableAt < s.rows[other].availableAt
               || (s.rows[id].availableAt == s.rows[other].availableAt && s.rows[id].updatedAt <= s.rows[other].updatedAt)
        case Complete(lease, _) => exists k :: 0 <= k < |s.issued| && s.issued[k].lease == lease
        case SettleFailure(lease, _, _, _) => exists k :: 0 <= k < |s.issued| && s.issued[k].lease == lease
        case Release(lease, _) => exists k :: 0 <= k < |s.issued| && s.issued[k].lease == lease
  {
    RunKeepsInv(EMPTY, events);
    var s := Exec(EMPTY, events);
    if e.Release? && Issued(s, e.lease) {
      var k :| 0 <= k < |s.issued| && s.issued[k].lease == e.lease;
      assert ClaimInv(s.rows, s.issued[k]);
    }
  }

  // ----------------------------------------------------- the queue's methods

  class VerificationJobQueue {
    var rows: map<JobId, Row>
    var applied: seq<JobId>
    ghost var state: State

    ghost predicate Consistent()
      reads this
    {
      rows == state.rows && applied == state.applied && state.tallies.Keys == rows.Keys
    }

    constructor ()
      ensures Consistent() && state == EMPTY
    {
      rows, applied, state := map[], [], EMPTY;
    }

    /** Takes the first candidate in column order that no other transaction
        has locked; rows that compare equal may come in any order. */
    method Claim(now: int, timeoutMs: int, locked: set<JobId>) returns (lease: Option<Lease>)
      requires Consistent()
      modifies this
      ensures Consistent() && applied == old(applied)
      ensures lease.None? ==> state == old(state)
      ensures lease.None? <==>
                forall id | id in old(rows) && id !in locked ::
                  && (old(rows)[id].state == Pending ==> old(rows)[id].availableAt > now)
                  && (old(rows)[id].state == Running && old(rows)[id].leaseExpiresAt.Some? ==>
                        old(rows)[id].leaseExpiresAt.value > now)
      ensures lease.Some? ==>
                && lease.value.id in old(rows) && lease.value.id !in locked
                && var row := old(rows)[lease.value.id];
                && (row.state == Pending || row.state == Running)
                && (row.state == Pending ==> row.availableAt <= now)
                && (row.state == Running ==> row.leaseExpiresAt.Some? && row.leaseExpiresAt.value <= now)
                && forall id | id in old(rows) && id !in locked
                     && (|| (old(rows)[id].state == Pending && old(rows)[id].availableAt <= now)
                         || (old(rows)[id].state == Running && old(rows)[id].leaseExpiresAt.Some?
                             && old(rows)[id].leaseExpiresAt.value <= now)) ::
                     || row.availableAt < old(rows)[id].availableAt
                     || (row.availableAt == old(rows)[id].availableAt && row.updatedAt <= old(rows)[id].updatedAt)
      ensures lease.Some? ==>
                && Enabled(old(state), Event.Claim(lease.value.id, now, timeoutMs, locked))
                && state == Next(old(state), Event.Claim(lease.value.id, now, timeoutMs, locked))
                && state.issued[|old(state).issued|].lease == lease.value
      ensures lease.None? ==> rows == old(rows)
      ensures lease.Some? ==>
                && lease.value.id in old(rows)
                && var row := old(rows)[lease.value.id];
                && lease.value == Lease(lease.value.id, row.attemptCount + 1, row.failureCount)
                && rows == old(rows)[lease.value.id := Row(
                     Running, row.attemptCount + 1, row.failureCount, row.availableAt, now,
                     Some(now + if timeoutMs + 60_000 > 300_000 then timeoutMs + 60_000 else 300_000),
                     row.completedAt, None)]
    {
      var remaining := rows.Keys;
      var best: Option<JobId> := None;
      while remaining != {}
        invariant remaining <= rows.Keys && rows == old(rows)
        invariant best.None? ==>
                    forall id | id in rows.Keys - remaining :: !Candidate(rows, locked, now, id)
        invariant best.Some? ==> best.value in rows && Candidate(rows, locked, now, best.value)
        invariant best.Some? ==>
                    forall id | id in rows.Keys - remaining && Candidate(rows, locked, now, id) ::
                      NotAfter(rows[best.value], rows[id])
        decreases remaining
      {
        var id :| id in remaining;
        remaining := remaining - {id};
        if Candidate(rows, locked, now, id)
           && (best.None? || !NotAfter(rows[best.value], rows[id])) {
          best := Some(id);
        }
      }
      if best.None? {
        assert forall id | id in rows :: id in rows.Keys - remaining && !Candidate(rows, locked, now, id);
        return None;
      }
      var row := rows[best.value];
      lease := Some(Lease(best.value, row.attemptCount + 1, row.failureCount));
      rows := rows[best.value := ClaimRow(row, now, timeoutMs)];
      state := Next(state, Event.Claim(best.value, now, timeoutMs, locked));
    }

    /** applyResults is the append to applied. */
    method Complete(id: JobId, attemptCount: nat, completedAt: int, ghost lease: Lease)
      returns (completed: bool)
      requires Consistent() && Issued(state, lease)
      requires lease.id == id && lease.attemptCount == attemptCount
      modifies this
      ensures Consistent() && state == Next(old(state), Event.Complete(lease, completedAt))
      ensures completed == Valid(old(state), lease)
      ensures applied == if completed then old(applied) + [id] else old(applied)
      ensures completed <==> id in old(rows) && old(rows)[id].attemptCount == attemptCount && old(rows)[id].state == Running
      ensures rows == if !completed then old(rows) else
                var row := old(rows)[id];
                old(rows)[id := Row(Completed, attemptCount, row.failureCount, row.availableAt, completedAt,
                                    None, Some(completedAt), None)]
    {
      completed := id in rows && Holds(rows[id], attemptCount);
      if completed {
        applied := applied + [id];
        rows := rows[id := CompleteRow(rows[id], completedAt)];
      }
      state := Next(state, Event.Complete(lease, completedAt));
    }

    method SettleFailure(
      id: JobId, attemptCount: nat, message: string, now: int, retryAt: Option<int>,
      ghost lease: Lease)
      returns (settled: bool)
      requires Consistent() && Issued(state, lease)
      requires lease.id == id && lease.attemptCount == attemptCount
      modifies this
      ensures Consistent()
      ensures state == Next(old(state), Event.SettleFailure(lease, now, message, retryAt))
      ensures settled == Valid(old(state), lease) && applied == old(applied)
      ensures settled <==> id in old(rows) && old(rows)[id].attemptCount == attemptCount && old(rows)[id].state == Running
      ensures rows == if !settled then old(rows) else
                var failures := old(rows)[id].failureCount + 1;
                old(rows)[id :=
                  if retryAt.Some?
                  then Row(Pending, attemptCount, failures, retryAt.value, now, None, None, Some(message))
                  else Row(Failed, attemptCount, failures, now, now, None, Some(now), Some(message))]
    {
      settled := id in rows && Holds(rows[id], attemptCount);
      if settled {
        rows := rows[id := SettleRow(rows[id], now, message, retryAt)];
      }
      state := Next(state, Event.SettleFailure(lease, now, message, retryAt));
    }

    method Release(id: JobId, attemptCount: nat, now: int, ghost lease: Lease)
      returns (released: bool)
      requires Consistent() && Enabled(state, Event.Release(lease, now))
      requires lease.id == id && lease.attemptCount == attemptCount
      modifies this
      ensures Consistent() && state == Next(old(state), Event.Release(lease, now))
      ensures released == Valid(old(state), lease) && applied == old(applied)
      ensures released <==> id in old(rows) && old(rows)[id].attemptCount == attemptCount && old(rows)[id].state == Running
      ensures rows == if !released then old(rows) else
                var row := old(rows)[id];
                old(rows)[id := Row(Pending, attemptCount, row.failureCount, now, now, None, row.completedAt, None)]
    {
      released := id in rows && Holds(rows[id], attemptCount);
      if released {
        rows := rows[id := ReleaseRow(rows[id], now)];
      }
      state := Next(state, Event.Release(lease, now));
    }
  }

  // ------------------------------------------------------------- the worker

  /** How the verification of a claimed job ended.  StoreFailed is a
      completion whose transaction failed and was rolled back. */
  datatype Outcome = Verified | StoreFailed(message: string) | VerifierFailed(message: string)

  /** The event a worker causes once the verification of its job has ended. */
  function WorkerEvent(job: Lease, outcome: Outcome, aborted: bool, now: int, retryClock: int): Event {
    if outcome.Verified? then Event.Complete(job, now)
    else if aborted then Event.Release(job, now)
    else Event.SettleFailure(job, now, outcome.message, RetryTime(job.failureCount + 1, retryClock))
  }

  /** The worker after its claim: exactly one queue operation, with the token of
      its claim and on schedule, and no answer but true unless it was aborted. */
  method FinishJob(
    queue: VerificationJobQueue, job: Lease, outcome: Outcome, aborted: bool, now: int, retryClock: int)
    returns (processed: bool)
    requires queue.Consistent() && Issued(queue.state, job) && job.id in queue.state.tallies
    modifies queue
    ensures queue.Consistent()
    ensures queue.state == Next(old(queue.state), WorkerEvent(job, outcome, aborted, now, retryClock))
    ensures OnSchedule(WorkerEvent(job, outcome, aborted, now, retryClock))
    ensures processed == (outcome.Verified? || !aborted)
    ensures var held := job.id in old(queue.rows) && old(queue.rows)[job.id].attemptCount == job.attemptCount
                        && old(queue.rows)[job.id].state == Running;
      if !held then queue.rows == old(queue.rows) && queue.applied == old(queue.applied)
      else
        && job.id in queue.rows
        && var row := queue.rows[job.id];
        && row.state == (if outcome.Verified? then Completed
                         else if !aborted && job.failureCount >= 2 then Failed else Pending)
        && queue.applied == old(queue.applied) + (if outcome.Verified? then [job.id] else [])
        && row.failureCount == old(queue.rows)[job.id].failureCount + (if outcome.Verified? || aborted then 0 else 1)
        && (!outcome.Verified? && aborted ==> row.availableAt == now)
        && (!outcome.Verified? && !aborted && job.failureCount < 2 ==>
              row.availableAt == retryClock + if job.failureCount == 0 then 1_000 else 5_000)
  {
    if outcome.Verified? {
      var _ := queue.Complete(job.id, job.attemptCount, now, job);
      return true;
    }
    if aborted {
      var _ := queue.Release(job.id, job.attemptCount, now, job);
      return false;
    }
    var retryAt := RetryTime(job.failureCount + 1, retryClock);
    assert RetriesFrom(Event.SettleFailure(job, now, outcome.message, retryAt), retryClock);
    var _ := queue.SettleFailure(
      job.id, job.attemptCount, outcome.message, now, retryAt, job);
    return true;
  }
}
