/** The hot-swappable runtime as a transition system.

    Every event is the code that runs between two suspension points of the
    original: what a call does before its first await, or what a continuation
    does once the promise it waits for has settled.  The environment chooses
    which event happens next, so a run is any interleaving. */
module RuntimeModel {
  import opened Prelude

  /** A built runtime.  closeThrows says that its close function throws at once
      instead of returning a promise. */
  datatype Runtime = Runtime(version: int, closeThrows: bool)

  datatype Settlement = Pending | Resolved | Rejected

  datatype SlotError = Retired | Underflow

  /** closePromise says whether the field of that name is set; closeCalls is
      history: how often close was called on the runtime. */
  datatype Slot = Slot(
    runtime: Runtime, activeLeases: int, retired: bool, closePromise: bool,
    closed: Settlement, closeCalls: nat)

  datatype Lease = Lease(slot: nat, released: bool)

  /** What the installer decided about a candidate that was built. */
  datatype Verdict = Install(slot: nat) | WrongVersion | ShuttingDown | Stale

  datatype Phase = Building | Discarding | Settled

  datatype Built = Built(runtime: Runtime, verdict: Verdict, closeCalls: nat, closeFailed: bool)

  /** One reload call: the version it was asked for, how far it got, and the
      candidate its builder returned, if any. */
  datatype Reload = Reload(requested: int, phase: Phase, built: Option<Built>)

  datatype Shutdown =
    | NotBegun
    | Draining(reloads: set<nat>)
    | Awaiting(closures: set<nat>)
    | Finished(failed: bool)

  /** Slots, leases and reloads are named by their position, in order of creation. */
  datatype State = State(
    initial: Runtime,
    slots: seq<Slot>,
    current: nat,
    leases: seq<Lease>,
    latestRequested: int,
    closing: bool,
    reloads: seq<Reload>,
    pendingReloads: set<nat>,
    retiringSlots: set<nat>,
    closeErrors: seq<nat>,
    shutdown: Shutdown)

  datatype Event =
    | RequestReload(version: int)
    | BuildFailed(reload: nat)
    | BuildReturned(reload: nat, candidate: Runtime)
    | CandidateClosed(reload: nat, succeeded: bool)
    | ReloadRemoved(reload: nat)
    | Acquire
    | Release(lease: nat)
    | CloseSettled(slot: nat, succeeded: bool)
    | ClosureRecorded(slot: nat)
    | BeginShutdown
    | DrainReloads
    | FinishShutdown

  // ---------------------------------------------------------------- one slot

  function NewSlot(runtime: Runtime): Slot {
    Slot(runtime, 0, false, false, Pending, 0)
  }

  function CloseIfDrained(s: Slot): Slot {
    if !s.retired || s.activeLeases > 0 || s.closePromise then s
    else if s.runtime.closeThrows then
      s.(closeCalls := s.closeCalls + 1,
         closed := if s.closed == Pending then Rejected else s.closed)
    else
      s.(closeCalls := s.closeCalls + 1, closePromise := true)
  }

  function RetireSlot(s: Slot): Slot {
    if s.retired then s else CloseIfDrained(s.(retired := true))
  }

  function AcquireSlot(s: Slot): Result<Slot, SlotError> {
    if s.retired then Err(Retired) else Ok(s.(activeLeases := s.activeLeases + 1))
  }

  function ReleaseSlot(s: Slot): Result<Slot, SlotError> {
    if s.activeLeases <= 0 then Err(Underflow)
    else Ok(CloseIfDrained(s.(activeLeases := s.activeLeases - 1)))
  }

  // ------------------------------------------------------------- transitions

  function Init(runtime: Runtime): State {
    State(runtime, [NewSlot(runtime)], 0, [], runtime.version, false, [], {}, {}, [], NotBegun)
  }

  function Judge(s: State, reload: nat, candidate: Runtime): Verdict
    requires reload < |s.reloads| && s.current < |s.slots|
  {
    if candidate.version != s.reloads[reload].requested then WrongVersion
    else if s.closing then ShuttingDown
    else if candidate.version < s.latestRequested
         || candidate.version <= s.slots[s.current].runtime.version then Stale
    else Install(|s.slots|)
  }

  function Retire(s: State, slot: nat): State
    requires slot < |s.slots|
  {
    if slot in s.retiringSlots then s
    else s.(retiringSlots := s.retiringSlots + {slot},
            slots := s.slots[slot := RetireSlot(s.slots[slot])])
  }

  /** What the event loop guarantees before it runs the code of an event. */
  predicate Enabled(s: State, e: Event) {
    match e
    case RequestReload(_) => true
    case BuildFailed(t) => t < |s.reloads| && s.reloads[t].phase == Building
    case BuildReturned(t, _) =>
      t < |s.reloads| && s.reloads[t].phase == Building && s.current < |s.slots|
    case CandidateClosed(t, _) =>
      t < |s.reloads| && s.reloads[t].phase == Discarding && s.reloads[t].built.Some?
    case ReloadRemoved(t) =>
      t < |s.reloads| && s.reloads[t].phase == Settled && t in s.pendingReloads
    case Acquire => s.current < |s.slots|
    case Release(l) => l < |s.leases| && s.leases[l].slot < |s.slots|
    case CloseSettled(i, _) =>
      i < |s.slots| && s.slots[i].closePromise && s.slots[i].closed == Pending
    case ClosureRecorded(i) =>
      i < |s.slots| && i in s.retiringSlots && s.slots[i].closed != Pending
    case BeginShutdown => true
    case DrainReloads =>
      && s.shutdown.Draining?
      && s.current < |s.slots|
      && forall t | t in s.shutdown.reloads && t < |s.reloads| :: s.reloads[t].phase == Settled
    case FinishShutdown => s.shutdown.Awaiting? && s.shutdown.closures !! s.retiringSlots
  }

  function FinishBuild(s: State, t: nat, candidate: Runtime): State
    requires Enabled(s, BuildReturned(t, candidate))
  {
    var verdict := Judge(s, t, candidate);
    var requested := s.reloads[t].requested;
    if verdict.Install? then
      var settled := Reload(requested, Settled, Some(Built(candidate, verdict, 0, false)));
      var previous := s.current;
      Retire(s.(slots := s.slots + [NewSlot(candidate)],
                current := |s.slots|,
                reloads := s.reloads[t := settled]),
             previous)
    else
      var phase := if candidate.closeThrows then Settled else Discarding;
      var built := Built(candidate, verdict, 1, candidate.closeThrows);
      s.(reloads := s.reloads[t := Reload(requested, phase, Some(built))])
  }

  function Next(s: State, e: Event): State
    requires Enabled(s, e)
  {
    match e
    case RequestReload(v) =>
      if s.closing then s
      else s.(latestRequested := Max(s.latestRequested, v),
              reloads := s.reloads + [Reload(v, Building, None)],
              pendingReloads := s.pendingReloads + {|s.reloads|})
    case BuildFailed(t) =>
      s.(reloads := s.reloads[t := s.reloads[t].(phase := Settled)])
    case BuildReturned(t, candidate) => FinishBuild(s, t, candidate)
    case CandidateClosed(t, succeeded) =>
      var built := s.reloads[t].built.value.(closeFailed := !succeeded);
      s.(reloads := s.reloads[t := s.reloads[t].(phase := Settled, built := Some(built))])
    case ReloadRemoved(t) => s.(pendingReloads := s.pendingReloads - {t})
    case Acquire =>
      if s.closing then s
      else (match AcquireSlot(s.slots[s.current])
            case Err(_) => s
            case Ok(slot) => s.(slots := s.slots[s.current := slot],
                                leases := s.leases + [Lease(s.current, false)]))
    case Release(l) =>
      var lease := s.leases[l];
      if lease.released then s
      else
        var marked := s.(leases := s.leases[l := lease.(released := true)]);
        (match ReleaseSlot(s.slots[lease.slot])
         case Err(_) => marked
         case Ok(slot) => marked.(slots := s.slots[lease.slot := slot]))
    case CloseSettled(i, succeeded) =>
      s.(slots := s.slots[i := s.slots[i].(closed := if succeeded then Resolved else Rejected)])
    case ClosureRecorded(i) =>
      s.(retiringSlots := s.retiringSlots - {i},
         closeErrors := if s.slots[i].closed == Rejected then s.closeErrors + [i] else s.closeErrors)
    case BeginShutdown =>
      if s.shutdown.NotBegun? then s.(closing := true, shutdown := Draining(s.pendingReloads)) else s
    case DrainReloads =>
      var retired := Retire(s, s.current);
      retired.(shutdown := Awaiting(retired.retiringSlots))
    case FinishShutdown => s.(shutdown := Finished(s.closeErrors != []))
  }

  /** The fields after an install, one by one. */
  lemma InstallFields(s: State, t: nat, candidate: Runtime)
    requires Enabled(s, BuildReturned(t, candidate)) && Judge(s, t, candidate).Install?
    ensures var after := Next(s, BuildReturned(t, candidate));
      && |after.slots| == |s.slots| + 1 && after.current == |s.slots|
      && after.slots[|s.slots|] == NewSlot(candidate)
      && after.slots[s.current] ==
           (if s.current in s.retiringSlots then s.slots[s.current] else RetireSlot(s.slots[s.current]))
      && (forall i | 0 <= i < |s.slots| && i != s.current :: after.slots[i] == s.slots[i])
      && after.retiringSlots == s.retiringSlots + {s.current}
      && |after.reloads| == |s.reloads|
      && after == s.(slots := after.slots, current := after.current,
                     retiringSlots := after.retiringSlots, reloads := after.reloads)
  {
  }

  /** Runs: finite sequences of events, each enabled where it happens. */
  predicate Executable(s: State, events: seq<Event>)
    decreases |events|
  {
    events == [] || (Enabled(s, events[0]) && Executable(Next(s, events[0]), events[1..]))
  }

  function Exec(s: State, events: seq<Event>): State
    requires Executable(s, events)
    decreases |events|
  {
    if events == [] then s else Exec(Next(s, events[0]), events[1..])
  }

  /** A run goes on with any event that is enabled where it has come to. */
  lemma {:induction false} RunsExtend(s: State, events: seq<Event>, e: Event)
    ensures Executable(s, []) && Exec(s, []) == s
    ensures Executable(s, events + [e]) <==> Executable(s, events) && Enabled(Exec(s, events), e)
    ensures Executable(s, events + [e]) ==> Exec(s, events + [e]) == Next(Exec(s, events), e)
    decreases |events|
  {
    if events == [] {
      assert [] + [e] == [e] && [e][1..] == [];
    } else {
      assert (events + [e])[1..] == events[1..] + [e];
      if Enabled(s, events[0]) {
        RunsExtend(Next(s, events[0]), events[1..], e);
      }
    }
  }

  // --------------------------------------------------------------- invariant

  function Outstanding(leases: seq<Lease>, slot: nat): nat {
    if leases == [] then 0
    else (if leases[0].slot == slot && !leases[0].released then 1 else 0)
         + Outstanding(leases[1..], slot)
  }

  ghost predicate SlotInv(s: Slot) {
    && s.activeLeases >= 0
    && s.closeCalls == (if s.retired && s.activeLeases == 0 then 1 else 0)
    && s.closePromise == (s.closeCalls == 1 && !s.runtime.closeThrows)
    && (s.closed != Pending ==> s.closeCalls == 1)
    && (s.closeCalls == 1 && s.runtime.closeThrows ==> s.closed == Rejected)
  }

  ghost predicate SlotsInv(initial: Runtime, slots: seq<Slot>, current: nat) {
    && |slots| > 0
    && current == |slots| - 1
    && slots[0].runtime == initial
    && (forall i | 0 <= i < |slots| :: SlotInv(slots[i]))
    && (forall i, j | 0 <= i < j < |slots| :: slots[i].runtime.version < slots[j].runtime.version)
  }

  ghost predicate LeasesInv(slots: seq<Slot>, leases: seq<Lease>) {
    && (forall l | 0 <= l < |leases| :: leases[l].slot < |slots|)
    && (forall i | 0 <= i < |slots| :: slots[i].activeLeases == Outstanding(leases, i))
  }

  ghost predicate RetireInv(slots: seq<Slot>, current: nat, retiring: set<nat>, shutdown: Shutdown)
    requires current < |slots|
  {
    && (forall i | 0 <= i < current :: slots[i].retired)
    && slots[current].retired == (shutdown.Awaiting? || shutdown.Finished?)
    && (forall i | i in retiring :: i < |slots| && slots[i].retired)
    && (forall i | 0 <= i < |slots| :: slots[i].retired && i !in retiring ==> slots[i].closed != Pending)
    && (shutdown.Awaiting? ==> retiring <= shutdown.closures)
    && (shutdown.Finished? ==> retiring == {})
  }

  /** The slots whose close failed and whose closure handler has run. */
  ghost predicate Failed(slots: seq<Slot>, retiring: set<nat>, slot: nat)
    requires slot < |slots|
  {
    slots[slot].retired && slot !in retiring && slots[slot].closed == Rejected
  }

  ghost predicate ErrorsInv(slots: seq<Slot>, retiring: set<nat>, errors: seq<nat>) {
    && (forall i | i in errors :: i < |slots| && Failed(slots, retiring, i))
    && (forall i | 0 <= i < |slots| :: Failed(slots, retiring, i) ==> i in errors)
  }

  ghost predicate ReloadInv(r: Reload) {
    && (r.phase == Building ==> r.built.None?)
    && (r.phase == Discarding ==> r.built.Some? && !r.built.value.verdict.Install?)
    && (r.built.Some? ==> r.built.value.closeCalls == if r.built.value.verdict.Install? then 0 else 1)
    && (r.built.Some? && r.built.value.verdict != WrongVersion
        ==> r.built.value.runtime.version == r.requested)
  }

  ghost predicate ReloadsInv(reloads: seq<Reload>, pending: set<nat>, shutdown: Shutdown) {
    && (forall t | 0 <= t < |reloads| :: ReloadInv(reloads[t]))
    && (forall t | t in pending :: t < |reloads|)
    && (forall t | 0 <= t < |reloads| :: t !in pending ==> reloads[t].phase == Settled)
    && (shutdown.Draining? ==>
          forall t | 0 <= t < |reloads| :: reloads[t].phase != Settled ==> t in shutdown.reloads)
    && (shutdown.Awaiting? || shutdown.Finished? ==>
          forall t | 0 <= t < |reloads| :: reloads[t].phase == Settled)
  }

  ghost predicate InstalledAs(r: Reload, slot: nat) {
    r.built.Some? && r.built.value.verdict == Install(slot)
  }

  ghost predicate HasInstaller(reloads: seq<Reload>, slot: nat) {
    exists t | 0 <= t < |reloads| :: InstalledAs(reloads[t], slot)
  }

  ghost predicate PlacedWell(runtimes: seq<Runtime>, r: Reload) {
    r.built.Some? && r.built.value.verdict.Install? ==>
      var slot := r.built.value.verdict.slot;
      0 < slot < |runtimes| && runtimes[slot] == r.built.value.runtime
  }

  /** The installed reloads and the slots after the first are in bijection. */
  ghost predicate InstallInv(runtimes: seq<Runtime>, reloads: seq<Reload>) {
    && (forall t | 0 <= t < |reloads| :: PlacedWell(runtimes, reloads[t]))
    && (forall t, u, i | 0 <= t < |reloads| && 0 <= u < |reloads|
          && InstalledAs(reloads[t], i) && InstalledAs(reloads[u], i) :: t == u)
    && (forall i | 0 < i < |runtimes| :: HasInstaller(reloads, i))
  }

  /** The builder delivered the version that was asked for, before shutdown began. */
  ghost predicate Delivered(r: Reload) {
    r.built.Some? && (r.built.value.verdict.Install? || r.built.value.verdict == Stale)
  }

  ghost predicate Requested(initial: Runtime, reloads: seq<Reload>, version: int) {
    initial.version == version || exists t | 0 <= t < |reloads| :: reloads[t].requested == version
  }

  ghost predicate VersionInv(initial: Runtime, current: int, latest: int, reloads: seq<Reload>) {
    && current <= latest
    && initial.version <= latest
    && (forall t | 0 <= t < |reloads| :: reloads[t].requested <= latest)
    && Requested(initial, reloads, latest)
    && (forall t | 0 <= t < |reloads| ::
          Delivered(reloads[t]) && reloads[t].requested == latest ==> current == latest)
  }

  function Runtimes(slots: seq<Slot>): seq<Runtime> {
    seq(|slots|, i requires 0 <= i < |slots| => slots[i].runtime)
  }

  ghost predicate Inv(s: State) {
    && SlotsInv(s.initial, s.slots, s.current)
    && LeasesInv(s.slots, s.leases)
    && RetireInv(s.slots, s.current, s.retiringSlots, s.shutdown)
    && ErrorsInv(s.slots, s.retiringSlots, s.closeErrors)
    && ReloadsInv(s.reloads, s.pendingReloads, s.shutdown)
    && InstallInv(Runtimes(s.slots), s.reloads)
    && VersionInv(s.initial, s.slots[s.current].runtime.version, s.latestRequested, s.reloads)
    && s.closing == !s.shutdown.NotBegun?
    && (s.shutdown.Finished? ==> s.shutdown.failed == (s.closeErrors != []))
  }

  lemma {:induction false} OutstandingAppend(leases: seq<Lease>, lease: Lease, slot: nat)
    ensures Outstanding(leases + [lease], slot)
         == Outstanding(leases, slot) + (if lease.slot == slot && !lease.released then 1 else 0)
  {
    if leases != [] {
      assert (leases + [lease])[1..] == leases[1..] + [lease];
      OutstandingAppend(leases[1..], lease, slot);
    }
  }

  lemma {:induction false} OutstandingRelease(leases: seq<Lease>, l: nat, slot: nat)
    requires l < |leases| && !leases[l].released
    ensures Outstanding(leases[l := leases[l].(released := true)], slot)
         == Outstanding(leases, slot) - (if leases[l].slot == slot then 1 else 0)
  {
    var after := leases[l := leases[l].(released := true)];
    if l == 0 {
      assert after[1..] == leases[1..];
    } else {
      assert after[1..] == leases[1..][l - 1 := leases[l].(released := true)];
      OutstandingRelease(leases[1..], l - 1, slot);
    }
  }

  lemma {:induction false} OutstandingPositive(leases: seq<Lease>, slot: nat)
    ensures Outstanding(leases, slot) > 0
        <==> exists l | 0 <= l < |leases| :: leases[l].slot == slot && !leases[l].released
  {
    if leases != [] {
      OutstandingPositive(leases[1..], slot);
      if Outstanding(leases[1..], slot) > 0 {
        var l :| 0 <= l < |leases[1..]| && leases[1..][l].slot == slot && !leases[1..][l].released;
        assert leases[l + 1].slot == slot && !leases[l + 1].released;
      }
      if exists l :: 0 <= l < |leases| && leases[l].slot == slot && !leases[l].released {
        var l :| 0 <= l < |leases| && leases[l].slot == slot && !leases[l].released;
        assert l > 0 ==> leases[1..][l - 1] == leases[l];
      }
    }
  }

  lemma {:induction false} OutstandingNone(leases: seq<Lease>, slot: nat)
    requires forall l | 0 <= l < |leases| :: leases[l].slot != slot
    ensures Outstanding(leases, slot) == 0
  {
    OutstandingPositive(leases, slot);
  }

  lemma InitKeepsInv(runtime: Runtime)
    ensures Inv(Init(runtime))
  {
  }

  // ------------------------------------ how one change affects each part of it

  lemma RequestKeepsReloads(s: State, version: int, after: State)
    requires Inv(s) && !s.closing && after == Next(s, RequestReload(version))
    ensures ReloadsInv(after.reloads, after.pendingReloads, after.shutdown)
    ensures InstallInv(Runtimes(after.slots), after.reloads)
    ensures VersionInv(s.initial, s.slots[s.current].runtime.version, after.latestRequested, after.reloads)
  {
    assert Runtimes(after.slots) == Runtimes(s.slots);
    forall i | 0 < i < |s.slots|
      ensures HasInstaller(after.reloads, i)
    {
      assert HasInstaller(s.reloads, i);
      var t :| 0 <= t < |s.reloads| && InstalledAs(s.reloads[t], i);
      assert InstalledAs(after.reloads[t], i);
    }
    assert Requested(s.initial, after.reloads, after.latestRequested) by {
      assert after.reloads[|s.reloads|].requested == version;
      if version < s.latestRequested && s.initial.version != s.latestRequested {
        var t :| 0 <= t < |s.reloads| && s.reloads[t].requested == s.latestRequested;
        assert after.reloads[t].requested == s.latestRequested;
      }
    }
  }

  /** Replacing one reload that was not an installed one, by one that is
      either not installed or installed in the slot just appended. */
  lemma UpdatedReloadKeepsInstallInv(
    runtimes: seq<Runtime>, reloads: seq<Reload>, t: nat, r: Reload, after: seq<Runtime>)
    requires InstallInv(runtimes, reloads)
    requires t < |reloads| && (forall i :: !InstalledAs(reloads[t], i))
    requires runtimes <= after && PlacedWell(after, r)
    requires |after| <= |runtimes| + 1
    requires forall i :: InstalledAs(r, i) <==> |after| == |runtimes| + 1 && i == |runtimes|
    requires |runtimes| > 0
    ensures InstallInv(after, reloads[t := r])
  {
    var updated := reloads[t := r];
    forall i | 0 < i < |after|
      ensures HasInstaller(updated, i)
    {
      if i < |runtimes| {
        assert HasInstaller(reloads, i);
        var u :| 0 <= u < |reloads| && InstalledAs(reloads[u], i);
        assert InstalledAs(updated[u], i);
      } else {
        assert InstalledAs(updated[t], i);
      }
    }
    forall u | 0 <= u < |updated|
      ensures PlacedWell(after, updated[u])
    {
      assert PlacedWell(runtimes, reloads[u]);
    }
  }

  lemma UpdatedReloadKeepsVersionInv(
    initial: Runtime, version: int, latest: int, reloads: seq<Reload>, t: nat, r: Reload, current: int)
    requires VersionInv(initial, version, latest, reloads)
    requires t < |reloads| && r.requested == reloads[t].requested
    requires version <= current <= latest
    requires Delivered(r) && r.requested == latest ==> current == latest
    ensures VersionInv(initial, current, latest, reloads[t := r])
  {
    var updated := reloads[t := r];
    if initial.version != latest {
      var u :| 0 <= u < |reloads| && reloads[u].requested == latest;
      assert updated[u].requested == latest;
    }
  }

  /** The three events that only move a reload along. */
  lemma ReloadStepKeepsInv(s: State, t: nat, r: Reload)
    requires Inv(s) && t < |s.reloads| && s.reloads[t].phase != Settled
    requires ReloadInv(r) && r.requested == s.reloads[t].requested
    requires r.built.Some? ==> !r.built.value.verdict.Install?
    requires Delivered(r) && r.requested == s.latestRequested ==>
               s.slots[s.current].runtime.version == s.latestRequested
    ensures Inv(s.(reloads := s.reloads[t := r]))
  {
    var runtimes := Runtimes(s.slots);
    UpdatedReloadKeepsInstallInv(runtimes, s.reloads, t, r, runtimes);
    UpdatedReloadKeepsVersionInv(
      s.initial, s.slots[s.current].runtime.version, s.latestRequested, s.reloads, t, r,
      s.slots[s.current].runtime.version);
  }

  lemma BuildFailedKeepsInv(s: State, t: nat)
    requires Inv(s) && Enabled(s, BuildFailed(t))
    ensures Inv(Next(s, BuildFailed(t)))
  {
    ReloadStepKeepsInv(s, t, s.reloads[t].(phase := Settled));
  }

  lemma DiscardKeepsInv(s: State, t: nat, candidate: Runtime)
    requires Inv(s) && Enabled(s, BuildReturned(t, candidate))
    requires !Judge(s, t, candidate).Install?
    ensures Inv(Next(s, BuildReturned(t, candidate)))
  {
    var after := Next(s, BuildReturned(t, candidate));
    ReloadStepKeepsInv(s, t, after.reloads[t]);
  }

  lemma CandidateClosedKeepsInv(s: State, t: nat, succeeded: bool)
    requires Inv(s) && Enabled(s, CandidateClosed(t, succeeded))
    ensures Inv(Next(s, CandidateClosed(t, succeeded)))
  {
    var after := Next(s, CandidateClosed(t, succeeded));
    assert ReloadInv(s.reloads[t]);
    ReloadStepKeepsInv(s, t, after.reloads[t]);
  }

  /** Retiring the current slot and appending a new one. */
  lemma InstallKeepsSlots(s: State, retired: Slot, slot: Slot)
    requires Inv(s) && s.shutdown.NotBegun?
    requires retired == RetireSlot(s.slots[s.current])
    requires SlotInv(slot) && slot == NewSlot(slot.runtime)
    requires s.slots[s.current].runtime.version < slot.runtime.version
    ensures var slots := s.slots[s.current := retired] + [slot];
      && SlotsInv(s.initial, slots, |s.slots|)
      && LeasesInv(slots, s.leases)
      && RetireInv(slots, |s.slots|, s.retiringSlots + {s.current}, s.shutdown)
  {
    OutstandingNone(s.leases, |s.slots|);
  }

  lemma InstallKeepsErrors(s: State, retired: Slot, slot: Slot)
    requires Inv(s) && s.shutdown.NotBegun? && slot == NewSlot(slot.runtime)
    ensures ErrorsInv(s.slots[s.current := retired] + [slot], s.retiringSlots + {s.current}, s.closeErrors)
  {
    var slots := s.slots[s.current := retired] + [slot];
    assert s.current !in s.retiringSlots;
    forall i | 0 <= i < |slots|
      ensures Failed(slots, s.retiringSlots + {s.current}, i)
          <==> i < |s.slots| && Failed(s.slots, s.retiringSlots, i)
    {
    }
  }

  lemma InstallKeepsInv(s: State, t: nat, candidate: Runtime)
    requires Inv(s) && Enabled(s, BuildReturned(t, candidate))
    requires Judge(s, t, candidate).Install?
    ensures Inv(Next(s, BuildReturned(t, candidate)))
  {
    var after := Next(s, BuildReturned(t, candidate));
    InstallFields(s, t, candidate);
    var retired := RetireSlot(s.slots[s.current]);
    InstallKeepsSlots(s, retired, NewSlot(candidate));
    InstallKeepsErrors(s, retired, NewSlot(candidate));
    assert after.slots == s.slots[s.current := retired] + [NewSlot(candidate)];
    assert Runtimes(after.slots) == Runtimes(s.slots) + [candidate];
    var r := after.reloads[t];
    UpdatedReloadKeepsInstallInv(Runtimes(s.slots), s.reloads, t, r, Runtimes(after.slots));
    UpdatedReloadKeepsVersionInv(
      s.initial, s.slots[s.current].runtime.version, s.latestRequested, s.reloads, t, r, candidate.version);
  }

  lemma ReloadRemovedKeepsInv(s: State, t: nat)
    requires Inv(s) && Enabled(s, ReloadRemoved(t))
    ensures Inv(Next(s, ReloadRemoved(t)))
  {
    assert ReloadsInv(s.reloads, s.pendingReloads - {t}, s.shutdown);
  }

  lemma AcquireKeepsInv(s: State)
    requires Inv(s)
    ensures Inv(Next(s, Acquire))
    ensures !s.closing ==> AcquireSlot(s.slots[s.current]).Ok?
  {
    if !s.closing {
      var after := Next(s, Acquire);
      forall i | 0 <= i < |s.slots|
        ensures Outstanding(after.leases, i)
             == Outstanding(s.leases, i) + (if i == s.current then 1 else 0)
      {
        OutstandingAppend(s.leases, Lease(s.current, false), i);
      }
      assert Runtimes(after.slots) == Runtimes(s.slots);
      assert forall i | 0 <= i < |s.slots| ::
          Failed(after.slots, s.retiringSlots, i) == Failed(s.slots, s.retiringSlots, i);
      assert ErrorsInv(after.slots, s.retiringSlots, s.closeErrors);
    }
  }

  lemma ReleaseSlotKeepsInv(slot: Slot)
    requires SlotInv(slot) && slot.activeLeases > 0
    ensures ReleaseSlot(slot).Ok?
    ensures var after := ReleaseSlot(slot).value;
            SlotInv(after) && after.runtime == slot.runtime && after.retired == slot.retired
            && after.activeLeases == slot.activeLeases - 1
            && slot.closed == Pending && (after.closed == Rejected ==> slot.retired)
  {
  }

  /** One slot is replaced by another that is at the same point of its retirement. */
  lemma UpdatedSlotKeepsInv(s: State, i: nat, slot: Slot)
    requires Inv(s) && i < |s.slots|
    requires SlotInv(slot) && slot.runtime == s.slots[i].runtime && slot.retired == s.slots[i].retired
    requires slot.retired ==> i in s.retiringSlots
    ensures SlotsInv(s.initial, s.slots[i := slot], s.current)
    ensures RetireInv(s.slots[i := slot], s.current, s.retiringSlots, s.shutdown)
    ensures ErrorsInv(s.slots[i := slot], s.retiringSlots, s.closeErrors)
    ensures Runtimes(s.slots[i := slot]) == Runtimes(s.slots)
  {
    var slots := s.slots[i := slot];
    assert forall j | 0 <= j < |s.slots| ::
        Failed(slots, s.retiringSlots, j) == Failed(s.slots, s.retiringSlots, j);
  }

  lemma ReleaseKeepsInv(s: State, l: nat)
    requires Inv(s) && Enabled(s, Release(l))
    ensures Inv(Next(s, Release(l)))
    ensures !s.leases[l].released ==> ReleaseSlot(s.slots[s.leases[l].slot]).Ok?
  {
    if !s.leases[l].released {
      var i := s.leases[l].slot;
      OutstandingPositive(s.leases, i);
      ReleaseSlotKeepsInv(s.slots[i]);
      UpdatedSlotKeepsInv(s, i, ReleaseSlot(s.slots[i]).value);
      var after := Next(s, Release(l));
      forall j | 0 <= j < |s.slots|
        ensures Outstanding(after.leases, j) == Outstanding(s.leases, j) - (if i == j then 1 else 0)
      {
        OutstandingRelease(s.leases, l, j);
      }
    }
  }

  lemma CloseSettledKeepsInv(s: State, i: nat, succeeded: bool)
    requires Inv(s) && Enabled(s, CloseSettled(i, succeeded))
    ensures Inv(Next(s, CloseSettled(i, succeeded)))
  {
    UpdatedSlotKeepsInv(s, i, Next(s, CloseSettled(i, succeeded)).slots[i]);
  }

  lemma ClosureRecordedKeepsInv(s: State, i: nat)
    requires Inv(s) && Enabled(s, ClosureRecorded(i))
    ensures Inv(Next(s, ClosureRecorded(i)))
  {
    var after := Next(s, ClosureRecorded(i));
    assert forall j | 0 <= j < |s.slots| ::
        Failed(s.slots, after.retiringSlots, j) <==>
          Failed(s.slots, s.retiringSlots, j) || (j == i && s.slots[i].closed == Rejected);
  }

  lemma DrainReloadsKeepsInv(s: State)
    requires Inv(s) && Enabled(s, DrainReloads)
    ensures Inv(Next(s, DrainReloads))
  {
    var after := Next(s, DrainReloads);
    assert s.current !in s.retiringSlots;
    assert Runtimes(after.slots) == Runtimes(s.slots);
    assert forall j | 0 <= j < |s.slots| ::
        Failed(after.slots, after.retiringSlots, j) == Failed(s.slots, s.retiringSlots, j);
    assert ErrorsInv(after.slots, after.retiringSlots, after.closeErrors);
  }

  lemma NextKeepsInv(s: State, e: Event)
    requires Inv(s) && Enabled(s, e)
    ensures Inv(Next(s, e))
  {
    match e {
      case RequestReload(v) =>
        if !s.closing {
          RequestKeepsReloads(s, v, Next(s, e));
        }
      case BuildFailed(t) => BuildFailedKeepsInv(s, t);
      case BuildReturned(t, candidate) =>
        if Judge(s, t, candidate).Install? {
          InstallKeepsInv(s, t, candidate);
        } else {
          DiscardKeepsInv(s, t, candidate);
        }
      case CandidateClosed(t, succeeded) => CandidateClosedKeepsInv(s, t, succeeded);
      case ReloadRemoved(t) => ReloadRemovedKeepsInv(s, t);
      case Acquire => AcquireKeepsInv(s);
      case Release(l) => ReleaseKeepsInv(s, l);
      case CloseSettled(i, succeeded) => CloseSettledKeepsInv(s, i, succeeded);
      case ClosureRecorded(i) => ClosureRecordedKeepsInv(s, i);
      case BeginShutdown =>
      case DrainReloads => DrainReloadsKeepsInv(s);
      case FinishShutdown =>
    }
  }

  lemma {:induction false} RunKeepsInv(s: State, events: seq<Event>)
    requires Inv(s) && Executable(s, events)
    ensures Inv(Exec(s, events))
    decreases |events|
  {
    if events != [] {
      NextKeepsInv(s, events[0]);
      RunKeepsInv(Next(s, events[0]), events[1..]);
    }
  }

  // ------------------------------------------------- what holds in every run

  /** What can happen after any run: calls at any time, each await once what it
      waits for has settled, and the handlers that run after those. */
  lemma EnabledExactlyWhen(runtime: Runtime, events: seq<Event>, e: Event)
    requires Executable(Init(runtime), events)
    ensures var s := Exec(Init(runtime), events);
      Enabled(s, e) <==>
        match e
        case RequestReload(_) => true
        case BuildFailed(t) => t < |s.reloads| && s.reloads[t].phase == Building
        case BuildReturned(t, _) => t < |s.reloads| && s.reloads[t].phase == Building
        case CandidateClosed(t, _) => t < |s.reloads| && s.reloads[t].phase == Discarding
        case ReloadRemoved(t) => t in s.pendingReloads && t < |s.reloads| && s.reloads[t].phase == Settled
        case Acquire => true
        case Release(l) => l < |s.leases|
        case CloseSettled(i, _) => i < |s.slots| && s.slots[i].closePromise && s.slots[i].closed == Pending
        case ClosureRecorded(i) => i in s.retiringSlots && i < |s.slots| && s.slots[i].closed != Pending
        case BeginShutdown => true
        case DrainReloads =>
          s.shutdown.Draining? && forall t | t in s.shutdown.reloads && t < |s.reloads| :: s.reloads[t].phase == Settled
        case FinishShutdown => s.shutdown.Awaiting? && forall i | i in s.shutdown.closures :: i !in s.retiringSlots
  {
    InitKeepsInv(runtime);
    RunKeepsInv(Init(runtime), events);
  }


  /** Leases: a slot counts exactly the leases still out on it, its runtime is
      closed once and only when it has retired and that count is zero, and the
      two accounting errors of a slot cannot occur. */
  lemma LeaseSafety(runtime: Runtime, events: seq<Event>)
    requires Executable(Init(runtime), events)
    ensures var s := Exec(Init(runtime), events);
      && (forall i | 0 <= i < |s.slots| ::
            && s.slots[i].activeLeases == Outstanding(s.leases, i)
            && s.slots[i].closeCalls <= 1
            && (s.slots[i].closeCalls == 1 <==> s.slots[i].retired && Outstanding(s.leases, i) == 0))
      && (forall l | 0 <= l < |s.leases| && !s.leases[l].released ::
            && s.leases[l].slot < |s.slots|
            && s.slots[s.leases[l].slot].closeCalls == 0
            && ReleaseSlot(s.slots[s.leases[l].slot]).Ok?)
      && s.current < |s.slots|
      && (!s.closing ==> AcquireSlot(s.slots[s.current]).Ok?)
  {
    var s := Exec(Init(runtime), events);
    InitKeepsInv(runtime);
    RunKeepsInv(Init(runtime), events);
    forall l | 0 <= l < |s.leases| && !s.leases[l].released
      ensures Outstanding(s.leases, s.leases[l].slot) > 0
    {
      OutstandingPositive(s.leases, s.leases[l].slot);
    }
  }

  lemma AcquireSucceeds(runtime: Runtime, events: seq<Event>)
    requires Executable(Init(runtime), events)
    ensures var s := Exec(Init(runtime), events);
            s.current < |s.slots| && (!s.closing ==> AcquireSlot(s.slots[s.current]).Ok?)
  {
    LeaseSafety(runtime, events);
  }

  lemma ReleaseSucceeds(runtime: Runtime, events: seq<Event>, l: nat)
    requires Executable(Init(runtime), events)
    requires l < |Exec(Init(runtime), events).leases|
    ensures var s := Exec(Init(runtime), events);
            s.leases[l].slot < |s.slots|
            && (!s.leases[l].released ==> ReleaseSlot(s.slots[s.leases[l].slot]).Ok?)
  {
    InitKeepsInv(runtime);
    RunKeepsInv(Init(runtime), events);
    LeaseSafety(runtime, events);
  }

  /** How often close was called on the runtime that a reload built. */
  function CloseCalls(s: State, r: Reload): nat
    requires r.built.Some?
    requires r.built.value.verdict.Install? ==> r.built.value.verdict.slot < |s.slots|
  {
    match r.built.value.verdict
    case Install(slot) => s.slots[slot].closeCalls
    case _ => r.built.value.closeCalls
  }

  /** When shutdown has finished, every runtime ever built, installed or
      rejected, has had close called exactly once, no lease is out, and the
      shutdown fails exactly when the close of some installed runtime failed. */
  lemma ShutdownClosesEverything(runtime: Runtime, events: seq<Event>)
    requires Executable(Init(runtime), events)
    requires Exec(Init(runtime), events).shutdown.Finished?
    ensures var s := Exec(Init(runtime), events);
      && |s.slots| > 0 && s.slots[0].runtime == runtime
      && (forall i | 0 <= i < |s.slots| :: s.slots[i].closeCalls == 1 && s.slots[i].closed != Pending)
      && (forall t | 0 <= t < |s.reloads| ::
            && s.reloads[t].phase == Settled
            && (s.reloads[t].built.Some? ==>
                  && (s.reloads[t].built.value.verdict.Install? ==>
                        s.reloads[t].built.value.verdict.slot < |s.slots|)
                  && CloseCalls(s, s.reloads[t]) == 1))
      && (forall l | 0 <= l < |s.leases| :: s.leases[l].released)
      && (s.shutdown.failed <==>
            exists i | 0 <= i < |s.slots| :: s.slots[i].closed == Rejected)
  {
    var s := Exec(Init(runtime), events);
    InitKeepsInv(runtime);
    RunKeepsInv(Init(runtime), events);
    ExecKeepsInitial(Init(runtime), events);
    assert forall i | 0 <= i < |s.slots| :: s.slots[i].retired;
    forall l | 0 <= l < |s.leases|
      ensures s.leases[l].released
    {
      OutstandingPositive(s.leases, s.leases[l].slot);
      assert SlotInv(s.slots[s.leases[l].slot]);
    }
    forall t | 0 <= t < |s.reloads| && s.reloads[t].built.Some?
      ensures s.reloads[t].built.value.verdict.Install? ==>
                s.reloads[t].built.value.verdict.slot < |s.slots|
    {
      assert PlacedWell(Runtimes(s.slots), s.reloads[t]);
    }
    assert forall i | 0 <= i < |s.slots| ::
        Failed(s.slots, s.retiringSlots, i) <==> s.slots[i].closed == Rejected;
    if s.shutdown.failed {
      assert s.closeErrors[0] in s.closeErrors;
    }
  }

  lemma {:induction false} ExecKeepsInitial(s: State, events: seq<Event>)
    requires Executable(s, events)
    ensures Exec(s, events).initial == s.initial
    decreases |events|
  {
    if events != [] {
      ExecKeepsInitial(Next(s, events[0]), events[1..]);
    }
  }

  /** Whatever order builds finish in: the current version is the highest one
      ever asked for exactly when that is the first version or the builder
      delivered it before shutdown began, and it is never above it. */
  lemma HighestRequestWins(runtime: Runtime, events: seq<Event>)
    requires Executable(Init(runtime), events)
    ensures var s := Exec(Init(runtime), events);
      && s.current < |s.slots|
      && (forall t | 0 <= t < |s.reloads| :: s.reloads[t].requested <= s.latestRequested)
      && s.slots[s.current].runtime.version <= s.latestRequested
      && (s.slots[s.current].runtime.version == s.latestRequested <==>
            runtime.version == s.latestRequested
            || exists t | 0 <= t < |s.reloads| ::
                 Delivered(s.reloads[t]) && s.reloads[t].requested == s.latestRequested)
      && (s.pendingReloads == {} ==> forall t | 0 <= t < |s.reloads| :: s.reloads[t].phase == Settled)
  {
    var s := Exec(Init(runtime), events);
    InitKeepsInv(runtime);
    RunKeepsInv(Init(runtime), events);
    ExecKeepsInitial(Init(runtime), events);
    if s.current > 0 {
      assert HasInstaller(s.reloads, s.current);
      var t :| 0 <= t < |s.reloads| && InstalledAs(s.reloads[t], s.current);
      assert PlacedWell(Runtimes(s.slots), s.reloads[t]);
      assert ReloadInv(s.reloads[t]);
      assert Delivered(s.reloads[t]) && s.reloads[t].requested == s.slots[s.current].runtime.version;
    } else {
      assert s.slots[s.current].runtime == s.initial;
    }
  }

  lemma StepAppendsSlots(s: State, e: Event)
    requires Inv(s) && Enabled(s, e)
    ensures Runtimes(s.slots) <= Runtimes(Next(s, e).slots)
  {
  }

  lemma {:induction false} RunAppendsSlots(s: State, events: seq<Event>)
    requires Inv(s) && Executable(s, events)
    ensures Runtimes(s.slots) <= Runtimes(Exec(s, events).slots)
    decreases |events|
  {
    if events != [] {
      NextKeepsInv(s, events[0]);
      StepAppendsSlots(s, events[0]);
      RunAppendsSlots(Next(s, events[0]), events[1..]);
    }
  }

  /** Slots are only ever appended, in strictly increasing version order, so
      the version that new leases see never goes back. */
  lemma InstallsIncrease(runtime: Runtime, before: seq<Event>, events: seq<Event>)
    requires Executable(Init(runtime), before) && Executable(Exec(Init(runtime), before), events)
    ensures var s := Exec(Init(runtime), before);
      var after := Exec(s, events);
      && Runtimes(s.slots) <= Runtimes(after.slots)
      && (forall i, j | 0 <= i < j < |after.slots| ::
            after.slots[i].runtime.version < after.slots[j].runtime.version)
      && s.current < |s.slots| && after.current < |after.slots|
      && (after.current != s.current ==>
            s.slots[s.current].runtime.version < after.slots[after.current].runtime.version)
  {
    InitKeepsInv(runtime);
    RunKeepsInv(Init(runtime), before);
    var s := Exec(Init(runtime), before);
    RunKeepsInv(s, events);
    RunAppendsSlots(s, events);
    var after := Exec(s, events);
    assert Runtimes(after.slots)[s.current] == s.slots[s.current].runtime;
  }

  // ------------------------------------------------- what a reload call answers

  /** How the promise of a reload call settles. */
  datatype Answer = Installed | Superseded | BuilderFailed | WrongSettings | ManagerClosing | CloseFailed

  function VerdictAnswer(verdict: Verdict): Answer {
    match verdict
    case Install(_) => Installed
    case WrongVersion => WrongSettings
    case ShuttingDown => ManagerClosing
    case Stale => Superseded
  }

  function AnswerOf(r: Reload): Option<Answer> {
    if r.phase != Settled then None
    else if r.built.None? then Some(BuilderFailed)
    else if r.built.value.closeFailed then Some(CloseFailed)
    else Some(VerdictAnswer(r.built.value.verdict))
  }

  /** A verdict was right when it was given and has not become wrong. */
  ghost predicate VerdictsInv(s: State) {
    forall t | 0 <= t < |s.reloads| && s.reloads[t].built.Some? ::
      var built := s.reloads[t].built.value;
      && (built.verdict == WrongVersion <==> built.runtime.version != s.reloads[t].requested)
      && (built.verdict == ShuttingDown ==> s.closing)
      && (built.verdict.Install? ==> !built.closeFailed)
  }

  lemma NextKeepsVerdicts(s: State, e: Event)
    requires Inv(s) && VerdictsInv(s) && Enabled(s, e)
    ensures VerdictsInv(Next(s, e))
  {
    if e.CandidateClosed? {
      assert ReloadInv(s.reloads[e.reload]);
    }
  }

  lemma {:induction false} RunKeepsVerdicts(s: State, events: seq<Event>)
    requires Inv(s) && VerdictsInv(s) && Executable(s, events)
    ensures VerdictsInv(Exec(s, events))
    decreases |events|
  {
    if events != [] {
      NextKeepsInv(s, events[0]);
      NextKeepsVerdicts(s, events[0]);
      RunKeepsVerdicts(Next(s, events[0]), events[1..]);
    }
  }

  /** What its answer tells the caller of a reload, in every run: that its
      runtime was installed, exactly if a slot was made for it; that a newer
      version was asked for or is current; that shutdown has begun; or that the
      builder built another version.  Whatever was built and not installed has
      had close called once. */
  lemma ReloadAnswersAreTrue(runtime: Runtime, events: seq<Event>, t: nat)
    requires Executable(Init(runtime), events) && t < |Exec(Init(runtime), events).reloads|
    requires AnswerOf(Exec(Init(runtime), events).reloads[t]).Some?
    ensures var s := Exec(Init(runtime), events);
      var r, answer := s.reloads[t], AnswerOf(s.reloads[t]).value;
      && s.current < |s.slots|
      && (answer == Installed <==> exists i | 0 < i < |s.slots| :: InstalledAs(r, i))
      && (answer == Installed ==> forall i | 0 < i < |s.slots| && InstalledAs(r, i) ::
            s.slots[i].runtime == r.built.value.runtime && s.slots[i].runtime.version == r.requested)
      && (answer == Superseded ==>
            r.requested < s.latestRequested || r.requested <= s.slots[s.current].runtime.version)
      && (answer == ManagerClosing ==> s.closing)
      && (answer == WrongSettings ==> r.built.value.runtime.version != r.requested)
      && (answer == BuilderFailed <==> r.built.None?)
      && (r.built.Some? ==> r.built.value.closeCalls == if answer == Installed then 0 else 1)
  {
    InitKeepsInv(runtime);
    RunKeepsInv(Init(runtime), events);
    RunKeepsVerdicts(Init(runtime), events);
    var s := Exec(Init(runtime), events);
    assert ReloadInv(s.reloads[t]) && PlacedWell(Runtimes(s.slots), s.reloads[t]);
    if AnswerOf(s.reloads[t]) == Some(Installed) {
      assert InstalledAs(s.reloads[t], s.reloads[t].built.value.verdict.slot);
    }
  }

  /** No runtime asked for so far, and not the first, is newer than a version. */
  ghost predicate NoneNewer(runtime: Runtime, s: State, version: int) {
    runtime.version <= version && forall u | 0 <= u < |s.reloads| :: s.reloads[u].requested <= version
  }

  /** The decision on a candidate, in every run: it becomes current exactly if it
      is what its reload asked for, shutdown has not begun, it is newer than the
      current runtime, and nothing newer has been asked for.  Otherwise nothing
      but its own reload changes, and it is closed at once. */
  lemma BecomesCurrentExactlyWhen(runtime: Runtime, events: seq<Event>, t: nat, candidate: Runtime)
    requires Executable(Init(runtime), events)
    requires Enabled(Exec(Init(runtime), events), BuildReturned(t, candidate))
    ensures var s := Exec(Init(runtime), events);
      var after := Next(s, BuildReturned(t, candidate));
      var wins := candidate.version == s.reloads[t].requested && s.shutdown.NotBegun?
        && s.slots[s.current].runtime.version < candidate.version && NoneNewer(runtime, s, candidate.version);
      && t < |after.reloads| && after.reloads[t].built.Some?
      && (after.current != s.current <==> wins)
      && (wins ==>
            && after.current == |s.slots| && |after.slots| == |s.slots| + 1
            && after.slots[after.current].runtime == candidate && !after.slots[after.current].retired
            && after.slots[s.current].retired
            && after.reloads[t].built.value.closeCalls == 0 && AnswerOf(after.reloads[t]) == Some(Installed))
      && (!wins ==>
            && after.slots == s.slots && after.current == s.current
            && after.reloads[t].built.value.closeCalls == 1 && AnswerOf(after.reloads[t]) != Some(Installed))
  {
    InitKeepsInv(runtime);
    RunKeepsInv(Init(runtime), events);
    ExecKeepsInitial(Init(runtime), events);
  }

  /** And what a candidate that is not installed will be answered, if closing it
      succeeds: each reason exactly when it holds. */
  lemma RefusedExactlyWhen(runtime: Runtime, events: seq<Event>, t: nat, candidate: Runtime)
    requires Executable(Init(runtime), events)
    requires Enabled(Exec(Init(runtime), events), BuildReturned(t, candidate))
    ensures var s := Exec(Init(runtime), events);
      var after := Next(s, BuildReturned(t, candidate));
      var asked := candidate.version == s.reloads[t].requested;
      && t < |after.reloads| && after.reloads[t].built.Some?
      && var meant := VerdictAnswer(after.reloads[t].built.value.verdict);
      && (meant == WrongSettings <==> !asked)
      && (meant == ManagerClosing <==> asked && !s.shutdown.NotBegun?)
      && (meant == Superseded <==>
            && asked && s.shutdown.NotBegun?
            && !(s.slots[s.current].runtime.version < candidate.version && NoneNewer(runtime, s, candidate.version)))
      && AnswerOf(after.reloads[t]) ==
           (if meant == Installed then Some(Installed) else if candidate.closeThrows then Some(CloseFailed) else None)
  {
    InitKeepsInv(runtime);
    RunKeepsInv(Init(runtime), events);
    ExecKeepsInitial(Init(runtime), events);
  }

  /** When the close of a candidate has settled its reload gives that answer, or
      the error of closing; so that error means exactly that closing failed. */
  lemma ClosingAnswers(s: State, t: nat, succeeded: bool)
    requires Inv(s) && Enabled(s, CandidateClosed(t, succeeded))
    ensures t < |Next(s, CandidateClosed(t, succeeded)).reloads|
    ensures AnswerOf(Next(s, CandidateClosed(t, succeeded)).reloads[t])
         == Some(if succeeded then VerdictAnswer(s.reloads[t].built.value.verdict) else CloseFailed)
    ensures VerdictAnswer(s.reloads[t].built.value.verdict) != CloseFailed
  {
    assert ReloadInv(s.reloads[t]);
  }

  /** And no answer ever changes. */
  lemma {:induction false} AnswersAreFinal(s: State, events: seq<Event>, t: nat)
    requires Executable(s, events) && t < |s.reloads| && AnswerOf(s.reloads[t]).Some?
    ensures t < |Exec(s, events).reloads| && AnswerOf(Exec(s, events).reloads[t]) == AnswerOf(s.reloads[t])
    decreases |events|
  {
    if events != [] {
      SettledStaysSettled(s, events[0], t);
      AnswersAreFinal(Next(s, events[0]), events[1..], t);
    }
  }

  lemma SettledStaysSettled(s: State, e: Event, t: nat)
    requires Enabled(s, e) && t < |s.reloads| && s.reloads[t].phase == Settled
    ensures t < |Next(s, e).reloads| && Next(s, e).reloads[t] == s.reloads[t]
  {
  }

  // ------------------------------------------------------ shutdown terminates

  function ReloadWeight(r: Reload, isPending: bool): nat {
    (match r.phase case Building => 2 case Discarding => 1 case Settled => 0)
    + (if isPending then 1 else 0)
  }

  function SlotWeight(slot: Slot, isRetiring: bool): nat {
    (if slot.closed == Pending then 1 else 0) + (if slot.retired && !isRetiring then 0 else 1)
  }

  function ReloadWeights(s: State): seq<nat> {
    seq(|s.reloads|, t requires 0 <= t < |s.reloads| =>
      ReloadWeight(s.reloads[t], t in s.pendingReloads))
  }

  function LeaseWeights(s: State): seq<nat> {
    seq(|s.leases|, l requires 0 <= l < |s.leases| => if s.leases[l].released then 0 else 1)
  }

  function SlotWeights(s: State): seq<nat> {
    seq(|s.slots|, i requires 0 <= i < |s.slots| => SlotWeight(s.slots[i], i in s.retiringSlots))
  }

  /** What is left to do once shutdown has begun. */
  function Remaining(s: State): nat {
    Sum(ReloadWeights(s)) + Sum(LeaseWeights(s)) + Sum(SlotWeights(s))
    + (match s.shutdown
       case NotBegun => 3 case Draining(_) => 2 case Awaiting(_) => 1 case Finished(_) => 0)
  }

  lemma ReloadEventLeavesLess(s: State, e: Event)
    requires s.closing && Enabled(s, e)
    requires e.BuildFailed? || e.BuildReturned? || e.CandidateClosed? || e.ReloadRemoved?
    ensures Remaining(Next(s, e)) < Remaining(s)
  {
    var after := Next(s, e);
    var t := e.reload;
    var w := ReloadWeight(after.reloads[t], t in after.pendingReloads);
    assert ReloadWeights(after) == ReloadWeights(s)[t := w];
    SumUpdate(ReloadWeights(s), t, w);
    assert after.slots == s.slots && after.leases == s.leases;
    assert LeaseWeights(after) == LeaseWeights(s) && SlotWeights(after) == SlotWeights(s);
  }

  lemma ReleaseSlotWeight(slot: Slot, isRetiring: bool)
    requires SlotInv(slot) && slot.activeLeases > 0
    ensures ReleaseSlot(slot).Ok?
    ensures SlotWeight(ReleaseSlot(slot).value, isRetiring) <= SlotWeight(slot, isRetiring)
  {
  }

  lemma ReleaseLeavesLess(s: State, l: nat)
    requires Inv(s) && Enabled(s, Release(l)) && !s.leases[l].released
    ensures Remaining(Next(s, Release(l))) < Remaining(s)
  {
    var i := s.leases[l].slot;
    OutstandingPositive(s.leases, i);
    assert SlotInv(s.slots[i]);
    ReleaseSlotWeight(s.slots[i], i in s.retiringSlots);
    var slot := ReleaseSlot(s.slots[i]).value;
    var after := s.(leases := s.leases[l := s.leases[l].(released := true)], slots := s.slots[i := slot]);
    assert Next(s, Release(l)) == after;
    LeaseAndSlotWeights(s, l, i, slot);
  }

  lemma LeaseAndSlotWeights(s: State, l: nat, i: nat, slot: Slot)
    requires l < |s.leases| && i < |s.slots| && !s.leases[l].released
    requires SlotWeight(slot, i in s.retiringSlots) <= SlotWeight(s.slots[i], i in s.retiringSlots)
    ensures Remaining(s.(leases := s.leases[l := s.leases[l].(released := true)],
                         slots := s.slots[i := slot])) < Remaining(s)
  {
    var after := s.(leases := s.leases[l := s.leases[l].(released := true)], slots := s.slots[i := slot]);
    assert LeaseWeights(after) == LeaseWeights(s)[l := 0];
    SumUpdate(LeaseWeights(s), l, 0);
    var w := SlotWeight(slot, i in s.retiringSlots);
    assert SlotWeights(after) == SlotWeights(s)[i := w];
    SumUpdate(SlotWeights(s), i, w);
    assert ReloadWeights(after) == ReloadWeights(s);
  }

  lemma SlotEventLeavesLess(s: State, e: Event)
    requires Inv(s) && Enabled(s, e) && (e.CloseSettled? || e.ClosureRecorded?)
    ensures Remaining(Next(s, e)) < Remaining(s)
  {
    var after := Next(s, e);
    var i := e.slot;
    var w := SlotWeight(after.slots[i], i in after.retiringSlots);
    assert SlotWeights(after) == SlotWeights(s)[i := w];
    SumUpdate(SlotWeights(s), i, w);
    assert ReloadWeights(after) == ReloadWeights(s) && LeaseWeights(after) == LeaseWeights(s);
  }

  lemma {:induction false} DrainReloadsLeavesLess(s: State)
    requires Inv(s) && Enabled(s, DrainReloads)
    ensures Remaining(Next(s, DrainReloads)) < Remaining(s)
  {
    var after := Next(s, DrainReloads);
    var i := s.current;
    var w := SlotWeight(after.slots[i], i in after.retiringSlots);
    assert SlotWeights(after) == SlotWeights(s)[i := w];
    SumUpdate(SlotWeights(s), i, w);
    assert ReloadWeights(after) == ReloadWeights(s) && LeaseWeights(after) == LeaseWeights(s);
  }

  /** Once shutdown has begun, every event either changes nothing or leaves
      strictly less to do, in whatever order events come. */
  lemma ClosingEventsLeaveLess(s: State, e: Event)
    requires Inv(s) && s.closing && Enabled(s, e)
    ensures Next(s, e) == s || Remaining(Next(s, e)) < Remaining(s)
  {
    match e {
      case RequestReload(_) =>
      case Acquire =>
      case BeginShutdown =>
      case Release(l) =>
        if !s.leases[l].released {
          ReleaseLeavesLess(s, l);
        }
      case CloseSettled(_, _) => SlotEventLeavesLess(s, e);
      case ClosureRecorded(_) => SlotEventLeavesLess(s, e);
      case DrainReloads => DrainReloadsLeavesLess(s);
      case FinishShutdown =>
        var after := Next(s, e);
        assert SlotWeights(after) == SlotWeights(s);
        assert ReloadWeights(after) == ReloadWeights(s) && LeaseWeights(after) == LeaseWeights(s);
      case _ => ReloadEventLeavesLess(s, e);
    }
  }

  /** No shutdown gets stuck: until it has finished some event that leaves less
      to do can happen, because no drained slot ever waits for a close that
      nobody called. */
  lemma ClosingNeverStuck(s: State)
    requires Inv(s) && s.closing && !s.shutdown.Finished?
    ensures exists e :: Enabled(s, e) && Next(s, e) != s
  {
    if s.shutdown.Draining? {
      if t :| 0 <= t < |s.reloads| && s.reloads[t].phase != Settled {
        assert ReloadInv(s.reloads[t]);
        var e := if s.reloads[t].phase == Building then BuildFailed(t) else CandidateClosed(t, true);
        assert Enabled(s, e) && Next(s, e).reloads[t].phase == Settled;
      } else {
        assert Enabled(s, DrainReloads) && Next(s, DrainReloads).shutdown.Awaiting?;
      }
    } else {
      if i :| i in s.retiringSlots {
        RetiringSlotAdvances(s, i);
      } else {
        assert Enabled(s, FinishShutdown) && Next(s, FinishShutdown).shutdown.Finished?;
      }
    }
  }

  lemma RetiringSlotAdvances(s: State, i: nat)
    requires Inv(s) && i in s.retiringSlots
    ensures exists e :: Enabled(s, e) && Next(s, e) != s
  {
    var slot := s.slots[i];
    assert SlotInv(slot);
    if slot.closed != Pending {
      var e := ClosureRecorded(i);
      assert Enabled(s, e) && i !in Next(s, e).retiringSlots;
    } else if slot.activeLeases == 0 {
      var e := CloseSettled(i, true);
      assert Enabled(s, e) && Next(s, e).slots[i].closed == Resolved;
    } else {
      OutstandingPositive(s.leases, i);
      var l :| 0 <= l < |s.leases| && s.leases[l].slot == i && !s.leases[l].released;
      ReleaseKeepsInv(s, l);
      assert Enabled(s, Release(l)) && Next(s, Release(l)).leases[l].released;
    }
  }

  /** From every state of every run in which shutdown has begun, shutdown can
      still finish, after at most as many events as there is left to do. */
  lemma {:induction false} ShutdownCanFinish(s: State) returns (events: seq<Event>)
    requires Inv(s) && s.closing
    ensures Executable(s, events) && Exec(s, events).shutdown.Finished?
    ensures |events| <= Remaining(s)
    decreases Remaining(s)
  {
    if s.shutdown.Finished? {
      events := [];
    } else {
      ClosingNeverStuck(s);
      var e :| Enabled(s, e) && Next(s, e) != s;
      ClosingEventsLeaveLess(s, e);
      NextKeepsInv(s, e);
      ClosingStaysClosing(s, e);
      var rest := ShutdownCanFinish(Next(s, e));
      events := [e] + rest;
      assert events[1..] == rest;
    }
  }

  lemma ClosingStaysClosing(s: State, e: Event)
    requires Inv(s) && s.closing && Enabled(s, e)
    ensures Next(s, e).closing
  {
  }
}
