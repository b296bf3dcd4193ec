/** The runtime manager's own classes: mutable slots, leases and a manager,
    whose methods are the pieces of code between suspension points.  Each is
    proved to take the step of RuntimeModel it stands for, so everything proved
    there about runs holds of these objects. */
module RuntimeManager {
  import opened Prelude
  import M = RuntimeModel

  /** Whose runtime it is: not the manager's yet, that of the slot at a
      position, or one that was not installed. */
  datatype Owner = Nobody | InSlot(position: nat) | Discarded

  /** A built runtime, with a count of the calls of its close function. */
  class ApplicationRuntime {
    const built: M.Runtime
    var closeCalls: nat
    ghost var owner: Owner

    constructor (built: M.Runtime)
      ensures this.built == built && closeCalls == 0 && owner == Nobody
    {
      this.built, closeCalls, owner := built, 0, Nobody;
    }

    /** The answer says whether it throws instead of returning a promise. */
    method Close() returns (throws: bool)
      modifies this`closeCalls
      ensures closeCalls == old(closeCalls) + 1 && throws == built.closeThrows
    {
      closeCalls := closeCalls + 1;
      throws := built.closeThrows;
    }
  }

  class RuntimeSlot {
    const runtime: ApplicationRuntime
    var activeLeases: int
    var closePromise: bool
    var closed: M.Settlement
    var retired: bool
    ghost const position: nat

    ghost function View(): M.Slot
      reads this, runtime
    {
      M.Slot(runtime.built, activeLeases, retired, closePromise, closed, runtime.closeCalls)
    }

    constructor (runtime: ApplicationRuntime, ghost position: nat)
      requires runtime.closeCalls == 0
      ensures View() == M.NewSlot(runtime.built) && this.runtime == runtime && this.position == position
    {
      this.runtime, this.position := runtime, position;
      activeLeases, closePromise, closed, retired := 0, false, M.Pending, false;
    }

    method Acquire(ghost leasePosition: nat) returns (r: Result<RuntimeLease, M.SlotError>)
      modifies this
      ensures r.Ok? == M.AcquireSlot(old(View())).Ok?
      ensures r.Ok? ==> View() == M.AcquireSlot(old(View())).value
      ensures r.Ok? ==> fresh(r.value) && r.value.slot == this && !r.value.released
                        && r.value.position == leasePosition
      ensures r.Err? ==> View() == old(View()) && r.error == M.Retired
    {
      if retired {
        return Err(M.Retired);
      }
      activeLeases := activeLeases + 1;
      var lease := new RuntimeLease(this, leasePosition);
      r := Ok(lease);
    }

    method Retire()
      modifies this, runtime`closeCalls
      ensures View() == M.RetireSlot(old(View()))
    {
      if retired {
        return;
      }
      retired := true;
      CloseIfDrained();
    }

    method CloseIfDrained()
      modifies this, runtime`closeCalls
      ensures View() == M.CloseIfDrained(old(View()))
    {
      if !retired || activeLeases > 0 || closePromise {
        return;
      }
      var throws := runtime.Close();
      if throws {
        if closed == M.Pending {
          closed := M.Rejected;
        }
        return;
      }
      closePromise := true;
    }

    method Release() returns (r: Option<M.SlotError>)
      modifies this, runtime`closeCalls
      ensures r == (if M.ReleaseSlot(old(View())).Ok? then None else Some(M.Underflow))
      ensures View() == if r.None? then M.ReleaseSlot(old(View())).value else old(View())
    {
      if activeLeases <= 0 {
        return Some(M.Underflow);
      }
      activeLeases := activeLeases - 1;
      CloseIfDrained();
      r := None;
    }
  }

  class RuntimeLease {
    const slot: RuntimeSlot
    var released: bool
    ghost const position: nat

    constructor (slot: RuntimeSlot, ghost position: nat)
      ensures this.slot == slot && !released && this.position == position
    {
      this.slot, this.position, released := slot, position, false;
    }

    /** However often it is called, only the first call reaches the slot. */
    method Release() returns (r: Option<M.SlotError>)
      modifies this, slot, slot.runtime`closeCalls
      ensures released
      ensures old(released) ==> r.None? && slot.View() == old(slot.View())
      ensures !old(released) ==>
                r == if M.ReleaseSlot(old(slot.View())).Ok? then None else Some(M.Underflow)
      ensures !old(released) ==>
                slot.View() == if r.None? then M.ReleaseSlot(old(slot.View())).value else old(slot.View())
    {
      if released {
        return None;
      }
      released := true;
      r := slot.Release();
    }
  }

  datatype ManagerError = ManagerShuttingDown | SlotFailure(error: M.SlotError)

  datatype ShutdownPromise =
    | NoShutdown
    | WaitingForReloads(reloads: set<nat>)
    | WaitingForClosures(closures: set<RuntimeSlot>)
    | ShutdownSettled(failed: bool)

  /** slots, leases, runtimes and state are ghost history, and a position says where in
      that history an object stands; what a suspended reload call knows
      (the version it was asked for) is passed to its continuations.
      reloadsStarted gives every reload promise its identity. */
  class ApplicationRuntimeManager {
    var closeErrors: seq<RuntimeSlot>
    var closing: bool
    var current: RuntimeSlot
    var latestRequestedSettingsVersion: int
    var pendingReloads: set<nat>
    var retiringSlots: set<RuntimeSlot>
    var shutdownPromise: ShutdownPromise
    var reloadsStarted: nat
    ghost var slots: seq<RuntimeSlot>
    ghost var leases: seq<RuntimeLease>
    ghost var runtimes: set<ApplicationRuntime>
    ghost var state: M.State

    ghost predicate SlotsMatch(s: M.State)
      reads this, slots, runtimes
    {
      && |slots| == |s.slots|
      && (forall i | 0 <= i < |slots| ::
            && slots[i].position == i
            && slots[i].runtime in runtimes && slots[i].runtime.owner == InSlot(i)
            && slots[i].View() == s.slots[i])
      && s.current < |slots| && current == slots[s.current]
      && SameSlots(retiringSlots, s.retiringSlots)
    }

    /** Every runtime there ever was is that of a slot, or was closed when it
        was discarded. */
    ghost predicate RuntimesMatch()
      reads this, runtimes
    {
      forall r | r in runtimes ::
        match r.owner
        case Nobody => false
        case InSlot(i) => i < |slots| && slots[i].runtime == r
        case Discarded => r.closeCalls == 1
    }

    ghost predicate LeasesMatch()
      reads this, leases
    {
      && |leases| == |state.leases|
      && (forall l | 0 <= l < |leases| ::
            && leases[l].position == l
            && leases[l].released == state.leases[l].released
            && state.leases[l].slot < |slots|
            && leases[l].slot == slots[state.leases[l].slot])
    }

    ghost predicate SameSlots(objects: set<RuntimeSlot>, positions: set<nat>)
      reads this
    {
      && (forall slot | slot in objects ::
            slot.position in positions && slot.position < |slots| && slots[slot.position] == slot)
      && (forall i | i in positions :: i < |slots| && slots[i] in objects)
    }

    ghost predicate FieldsMatch()
      reads this
    {
      && closing == state.closing
      && latestRequestedSettingsVersion == state.latestRequested
      && pendingReloads == state.pendingReloads
      && reloadsStarted == |state.reloads|
      && |closeErrors| == |state.closeErrors|
      && (match shutdownPromise
          case NoShutdown => state.shutdown.NotBegun?
          case WaitingForReloads(r) => state.shutdown == M.Draining(r)
          case WaitingForClosures(c) =>
            state.shutdown.Awaiting? && SameSlots(c, state.shutdown.closures)
          case ShutdownSettled(failed) => state.shutdown == M.Finished(failed))
    }

    ghost predicate Valid()
      reads this, slots, leases, runtimes
    {
      SlotsMatch(state) && RuntimesMatch() && LeasesMatch() && FieldsMatch()
    }

    constructor (runtime: ApplicationRuntime)
      requires runtime.owner == Nobody && runtime.closeCalls == 0
      modifies runtime`owner
      ensures Valid() && state == M.Init(runtime.built)
      ensures fresh(slots) && leases == [] && runtimes == {runtime}
    {
      var slot := new RuntimeSlot(runtime, 0);
      current, slots, leases := slot, [slot], [];
      runtimes := {runtime};
      latestRequestedSettingsVersion, closing := runtime.built.version, false;
      closeErrors, pendingReloads, retiringSlots, reloadsStarted := [], {}, {}, 0;
      shutdownPromise := NoShutdown;
      state := M.Init(runtime.built);
      new;
      runtime.owner := InSlot(0);
    }

    /** The part of reload before its await; the answer names the promise. */
    method Reload(version: int) returns (r: Result<nat, ManagerError>)
      requires Valid()
      modifies this`latestRequestedSettingsVersion, this`pendingReloads, this`reloadsStarted, this`state
      ensures Valid() && state == M.Next(old(state), M.RequestReload(version))
      ensures r == if old(closing) then Err(ManagerShuttingDown) else Ok(|old(state).reloads|)
    {
      if closing {
        return Err(ManagerShuttingDown);
      }
      r := Ok(reloadsStarted);
      latestRequestedSettingsVersion := Max(latestRequestedSettingsVersion, version);
      pendingReloads := pendingReloads + {reloadsStarted};
      reloadsStarted := reloadsStarted + 1;
      state := M.Next(state, M.RequestReload(version));
    }

    /** The builder's promise was rejected, and so is that of the reload. */
    method BuildFailed(ghost reload: nat) returns (answer: M.Answer)
      requires Valid() && M.Enabled(state, M.BuildFailed(reload))
      requires M.ReloadInv(state.reloads[reload])
      modifies this`state
      ensures Valid() && state == M.Next(old(state), M.BuildFailed(reload))
      ensures M.AnswerOf(state.reloads[reload]) == Some(answer)
    {
      answer := M.BuilderFailed;
      state := M.Next(state, M.BuildFailed(reload));
    }

    /** The builder's promise resolved.  A candidate that is not installed is
        closed at once; meant is what the reload answers unless that fails, and
        answer what it answers already. */
    method BuildReturned(ghost reload: nat, requested: int, candidate: ApplicationRuntime)
      returns (meant: M.Answer, answer: Option<M.Answer>)
      requires Valid() && M.Enabled(state, M.BuildReturned(reload, candidate.built))
      requires requested == state.reloads[reload].requested
      requires candidate.owner == Nobody && candidate.closeCalls == 0
      modifies this`current, this`slots, this`retiringSlots, this`runtimes, this`state
      modifies current, current.runtime`closeCalls, candidate
      ensures Valid() && state == M.Next(old(state), M.BuildReturned(reload, candidate.built))
      ensures old(slots) <= slots && fresh(slots[|old(slots)|..])
      ensures runtimes == old(runtimes) + {candidate}
      ensures answer == M.AnswerOf(state.reloads[reload])
      ensures meant == M.VerdictAnswer(M.Judge(old(state), reload, candidate.built))
      ensures if meant == M.Installed then current.runtime == candidate && candidate.closeCalls == 0
              else current == old(current) && candidate.closeCalls == 1
    {
      assert current.View() == state.slots[state.current];
      meant := if candidate.built.version != requested then M.WrongSettings
               else if closing then M.ManagerClosing
               else if candidate.built.version < latestRequestedSettingsVersion
                       || candidate.built.version <= current.runtime.built.version then M.Superseded
               else M.Installed;
      if meant == M.Installed {
        InstallCandidate(reload, candidate);
        answer := Some(M.Installed);
      } else {
        var throws := DiscardCandidate(reload, candidate);
        answer := if throws then Some(M.CloseFailed) else None;
      }
    }

    method DiscardCandidate(ghost reload: nat, candidate: ApplicationRuntime) returns (throws: bool)
      requires Valid() && M.Enabled(state, M.BuildReturned(reload, candidate.built))
      requires !M.Judge(state, reload, candidate.built).Install?
      requires candidate.owner == Nobody && candidate.closeCalls == 0
      modifies this`runtimes, this`state, candidate
      ensures Valid() && state == M.Next(old(state), M.BuildReturned(reload, candidate.built))
      ensures runtimes == old(runtimes) + {candidate}
      ensures candidate.closeCalls == 1 && throws == candidate.built.closeThrows
    {
      assert candidate !in runtimes;
      throws := candidate.Close();
      candidate.owner, runtimes := Discarded, runtimes + {candidate};
      state := M.Next(state, M.BuildReturned(reload, candidate.built));
    }

    method InstallCandidate(ghost reload: nat, candidate: ApplicationRuntime)
      requires Valid() && M.Enabled(state, M.BuildReturned(reload, candidate.built))
      requires M.Judge(state, reload, candidate.built).Install?
      requires candidate.owner == Nobody && candidate.closeCalls == 0
      modifies this`current, this`slots, this`retiringSlots, this`runtimes, this`state
      modifies current, current.runtime`closeCalls, candidate`owner
      ensures Valid() && state == M.Next(old(state), M.BuildReturned(reload, candidate.built))
      ensures old(slots) <= slots && fresh(slots[|old(slots)|..])
      ensures runtimes == old(runtimes) + {candidate}
      ensures current.runtime == candidate && candidate.closeCalls == 0
    {
      var previous := current;
      assert current == slots[state.current];
      AddSlot(candidate, state.reloads[reload := M.Reload(
        state.reloads[reload].requested, M.Settled,
        Some(M.Built(candidate.built, M.Install(|state.slots|), 0, false)))]);
      RetireSlot(previous);
    }

    method AddSlot(candidate: ApplicationRuntime, ghost reloads: seq<M.Reload>)
      requires Valid() && candidate.owner == Nobody && candidate.closeCalls == 0
      requires |reloads| == |state.reloads|
      modifies this`current, this`slots, this`runtimes, this`state, candidate`owner
      ensures Valid() && fresh(current) && current.runtime == candidate
      ensures slots == old(slots) + [current] && runtimes == old(runtimes) + {candidate}
      ensures state == old(state).(slots := old(state.slots) + [M.NewSlot(candidate.built)],
                                   current := |old(state.slots)|, reloads := reloads)
    {
      PushSlot(candidate);
      state := state.(slots := state.slots + [M.NewSlot(candidate.built)],
                      current := |state.slots|, reloads := reloads);
    }

    method PushSlot(candidate: ApplicationRuntime)
      requires SlotsMatch(state) && RuntimesMatch()
      requires candidate.owner == Nobody && candidate.closeCalls == 0
      modifies this`current, this`slots, this`runtimes, candidate`owner
      ensures fresh(current) && current.runtime == candidate && current.position == |old(slots)|
      ensures current.View() == M.NewSlot(candidate.built) && candidate.owner == InSlot(|old(slots)|)
      ensures slots == old(slots) + [current] && runtimes == old(runtimes) + {candidate}
      ensures candidate !in old(runtimes) && RuntimesMatch()
    {
      assert candidate !in runtimes;
      current := new RuntimeSlot(candidate, |slots|);
      candidate.owner := InSlot(|slots|);
      slots, runtimes := slots + [current], runtimes + {candidate};
    }

    method RetireSlot(slot: RuntimeSlot)
      requires Valid() && slot in slots
      modifies this`retiringSlots, this`state, slot, slot.runtime`closeCalls
      ensures Valid() && state == M.Retire(old(state), slot.position)
    {
      if slot in retiringSlots {
        return;
      }
      MarkRetiring(slot);
      RetireMarked(slot);
    }

    method RetireMarked(slot: RuntimeSlot)
      requires Valid() && slot in slots
      modifies this`state, slot, slot.runtime`closeCalls
      ensures Valid()
      ensures state == old(state).(slots := old(state).slots[slot.position :=
                                              M.RetireSlot(old(state).slots[slot.position])])
    {
      assert slot.View() == state.slots[slot.position];
      slot.Retire();
      state := state.(slots := state.slots[slot.position := M.RetireSlot(state.slots[slot.position])]);
    }

    method MarkRetiring(slot: RuntimeSlot)
      requires Valid() && slot in slots
      modifies this`retiringSlots, this`state
      ensures Valid() && state == old(state).(retiringSlots := old(state).retiringSlots + {slot.position})
    {
      retiringSlots := retiringSlots + {slot};
      state := state.(retiringSlots := state.retiringSlots + {slot.position});
    }

    /** The promise that closing a discarded candidate returned has settled, and
        with it that of the reload. */
    method CandidateClosed(ghost reload: nat, meant: M.Answer, succeeded: bool) returns (answer: M.Answer)
      requires Valid() && M.Enabled(state, M.CandidateClosed(reload, succeeded))
      requires meant == M.VerdictAnswer(state.reloads[reload].built.value.verdict)
      modifies this`state
      ensures Valid() && state == M.Next(old(state), M.CandidateClosed(reload, succeeded))
      ensures M.AnswerOf(state.reloads[reload]) == Some(answer)
    {
      answer := if succeeded then meant else M.CloseFailed;
      state := M.Next(state, M.CandidateClosed(reload, succeeded));
    }

    method ReloadRemoved(reload: nat)
      requires Valid() && M.Enabled(state, M.ReloadRemoved(reload))
      modifies this`pendingReloads, this`state
      ensures Valid() && state == M.Next(old(state), M.ReloadRemoved(reload))
    {
      pendingReloads := pendingReloads - {reload};
      state := M.Next(state, M.ReloadRemoved(reload));
    }

    /** By AcquireSucceeds the second kind of failure is never seen. */
    method Acquire() returns (r: Result<RuntimeLease, ManagerError>)
      requires Valid()
      modifies this`leases, this`state, current
      ensures Valid() && state == M.Next(old(state), M.Acquire)
      ensures old(closing) ==> r == Err(ManagerShuttingDown)
      ensures !old(closing) ==>
                r.Ok? == M.AcquireSlot(old(current.View())).Ok? && (r.Err? ==> r.error == SlotFailure(M.Retired))
      ensures r.Ok? ==> fresh(r.value) && leases == old(leases) + [r.value]
                        && r.value.slot == current && !r.value.released
      ensures r.Err? ==> leases == old(leases) && state == old(state)
    {
      assert current.View() == state.slots[state.current];
      if closing {
        return Err(ManagerShuttingDown);
      }
      var lease := current.Acquire(|leases|);
      state := M.Next(state, M.Acquire);
      if lease.Err? {
        return Err(SlotFailure(lease.error));
      }
      leases := leases + [lease.value];
      r := Ok(lease.value);
    }

    /** What every user of a lease does in the end, perhaps more than once.  By
        ReleaseSucceeds the answer is never an error. */
    method ReleaseLease(lease: RuntimeLease) returns (r: Option<M.SlotError>)
      requires Valid() && lease in leases
      modifies this`state, lease, lease.slot, lease.slot.runtime`closeCalls
      ensures Valid() && state == M.Next(old(state), M.Release(lease.position))
      ensures lease.released
      ensures r.None? <==> old(lease.released) || M.ReleaseSlot(old(lease.slot.View())).Ok?
    {
      assert lease.slot.View() == state.slots[state.leases[lease.position].slot];
      r := lease.Release();
      state := M.Next(state, M.Release(lease.position));
    }

    /** The promise that close returned has settled. */
    method CloseSettled(slot: RuntimeSlot, succeeded: bool)
      requires Valid() && slot in slots
      requires M.Enabled(state, M.CloseSettled(slot.position, succeeded))
      modifies this`state, slot
      ensures Valid() && state == M.Next(old(state), M.CloseSettled(slot.position, succeeded))
    {
      slot.closed := if succeeded then M.Resolved else M.Rejected;
      state := M.Next(state, M.CloseSettled(slot.position, succeeded));
    }

    /** The handlers that retireSlot attached to the closure of a slot. */
    method ClosureRecorded(slot: RuntimeSlot)
      requires Valid() && slot in slots
      requires M.Enabled(state, M.ClosureRecorded(slot.position))
      modifies this`retiringSlots, this`closeErrors, this`state
      ensures Valid() && state == M.Next(old(state), M.ClosureRecorded(slot.position))
    {
      assert slot.View() == state.slots[slot.position];
      retiringSlots := retiringSlots - {slot};
      assert SameSlots(retiringSlots, state.retiringSlots - {slot.position});
      if slot.closed == M.Rejected {
        closeErrors := closeErrors + [slot];
      }
      state := M.Next(state, M.ClosureRecorded(slot.position));
    }

    method Shutdown()
      requires Valid()
      modifies this`closing, this`shutdownPromise, this`state
      ensures Valid() && state == M.Next(old(state), M.BeginShutdown)
    {
      if shutdownPromise == NoShutdown {
        closing := true;
        shutdownPromise := WaitingForReloads(pendingReloads);
      }
      state := M.Next(state, M.BeginShutdown);
    }

    /** performShutdown after the pending reloads have all settled. */
    method DrainReloads()
      requires Valid() && M.Enabled(state, M.DrainReloads)
      modifies this`retiringSlots, this`shutdownPromise, this`state, current, current.runtime`closeCalls
      ensures Valid() && state == M.Next(old(state), M.DrainReloads)
    {
      assert current == slots[state.current];
      RetireSlot(current);
      AwaitClosures();
    }

    method AwaitClosures()
      requires Valid()
      modifies this`shutdownPromise, this`state
      ensures Valid() && state == old(state).(shutdown := M.Awaiting(old(state).retiringSlots))
    {
      shutdownPromise := WaitingForClosures(retiringSlots);
      state := state.(shutdown := M.Awaiting(state.retiringSlots));
    }

    /** performShutdown after the closures it waits for have all run. */
    method FinishShutdown() returns (r: Option<seq<RuntimeSlot>>)
      requires Valid() && M.Enabled(state, M.FinishShutdown)
      modifies this`shutdownPromise, this`state
      ensures Valid() && state == M.Next(old(state), M.FinishShutdown)
      ensures r == if state.shutdown.failed then Some(closeErrors) else None
    {
      r := if |closeErrors| > 0 then Some(closeErrors) else None;
      shutdownPromise := ShutdownSettled(|closeErrors| > 0);
      state := M.Next(state, M.FinishShutdown);
    }
  }

  /** When shutdown has finished, close has been called exactly once on every
      runtime object there ever was. */
  lemma EveryRuntimeIsClosedOnce(manager: ApplicationRuntimeManager, first: M.Runtime, events: seq<M.Event>)
    requires manager.Valid() && M.Executable(M.Init(first), events)
    requires manager.state == M.Exec(M.Init(first), events) && manager.state.shutdown.Finished?
    ensures forall r | r in manager.runtimes :: r.closeCalls == 1
  {
    M.ShutdownClosesEverything(first, events);
    forall r | r in manager.runtimes
      ensures r.closeCalls == 1
    {
      match r.owner
      case InSlot(i) =>
        assert manager.slots[i].View() == manager.state.slots[i];
      case Discarded =>
    }
  }
}
