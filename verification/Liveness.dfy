// What every run of the gateway brings about: decisions take effect and stay in force, good reads
// are kept, and what is due is served - the converses of where things come from.
module Liveness {
  import opened Bytes
  import opened Areas
  import opened DataStore
  import opened VirtualPlc
  import opened Sync
  import opened Discovery
  import opened Bridge
  import opened Staleness

  // ---------------------------------------------------------------- exposure

  predicate IsExposed(s: State, key: AreaKey) {
    key in s.areas && s.areas[key].exposed
  }

  lemma {:induction false} StaysExposed(s: State, step: Step, key: AreaKey, timeout: real)
    requires IsExposed(s, key) && !Revokes(step, key)
    ensures IsExposed(Next(s, step, timeout), key)
  {
    if step.Rescan? && step.connection in s.connections {
      DiscoveryNeverExposes(s.areas, step.connection, s.connections[step.connection].mode == MirrorAll, step.reported,
                            step.anyError, key);
    }
  }

  lemma {:induction false} GrantExposes(s: State, step: Step, key: AreaKey, timeout: real)
    requires || (step == Expose(key, true) && key in s.areas)
             || (step.Rescan? && key !in s.areas && key in Next(s, step, timeout).areas
                 && key.connection in s.connections && s.connections[key.connection].mode == MirrorAll)
    ensures IsExposed(Next(s, step, timeout), key)
  {
    if step.Rescan? && step.connection in s.connections {
      DiscoveryNeverExposes(s.areas, step.connection, s.connections[step.connection].mode == MirrorAll, step.reported,
                            step.anyError, key);
    }
  }

  lemma {:induction false} ExposedSinceGrant(steps: seq<Step>, i: nat, n: nat, key: AreaKey, timeout: real)
    requires i < n <= |steps| && Grants(steps, i, key, timeout)
    requires forall j :: i < j < n ==> !Revokes(steps[j], key)
    ensures IsExposed(At(steps, n, timeout), key)
    decreases n
  {
    AtNext(steps, n - 1, timeout);
    if i == n - 1 {
      GrantExposes(At(steps, i, timeout), steps[i], key, timeout);
    } else {
      ExposedSinceGrant(steps, i, n - 1, key, timeout);
      StaysExposed(At(steps, n - 1, timeout), steps[n - 1], key, timeout);
    }
  }

  // Over any run an area is known and exposed exactly when it was granted exposure - by the
  // operator, or by being first found under Mirror All - and nothing has revoked it since.
  lemma {:induction false} ExposedIffGranted(steps: seq<Step>, key: AreaKey, timeout: real)
    ensures IsExposed(Run(steps, timeout), key)
            <==> exists i :: 0 <= i < |steps| && GrantedSince(steps, i, key, timeout)
  {
    if IsExposed(Run(steps, timeout), key) {
      var i := ExposureHasAnOrigin(steps, key, timeout);
    }
    if i :| 0 <= i < |steps| && GrantedSince(steps, i, key, timeout) {
      ExposedSinceGrant(steps, i, |steps|, key, timeout);
      assert steps[..|steps|] == steps;
    }
  }

  // ---------------------------------------------------------------- configuration and switch

  predicate Configures(step: Step, connection: nat) {
    (step.Configure? || step.DeleteConnection?) && step.connection == connection
  }

  lemma {:induction false} ConfigurationStep(s: State, step: Step, connection: nat, timeout: real)
    ensures var after := Next(s, step, timeout).connections;
            if Configures(step, connection) then
              (connection in after <==> step.Configure?) && (step.Configure? ==> after[connection] == step.settings)
            else (connection in after <==> connection in s.connections)
                 && (connection in after ==> after[connection] == s.connections[connection])
  {
  }

  // Over any run a connection has the settings it was last given, unless deleted since.
  lemma {:induction false} ConfiguredAsLastSaved(steps: seq<Step>, i: nat, n: nat, connection: nat, timeout: real)
    requires i < n <= |steps| && Configures(steps[i], connection)
    requires forall j :: i < j < n ==> !Configures(steps[j], connection)
    ensures var now := At(steps, n, timeout).connections;
            && (connection in now <==> steps[i].Configure?)
            && (steps[i].Configure? ==> now[connection] == steps[i].settings)
    decreases n
  {
    AtNext(steps, n - 1, timeout);
    ConfigurationStep(At(steps, n - 1, timeout), steps[n - 1], connection, timeout);
    if i < n - 1 {
      ConfiguredAsLastSaved(steps, i, n - 1, connection, timeout);
    }
  }

  predicate StartedSince(steps: seq<Step>, i: nat, n: nat)
    requires i < n <= |steps|
  {
    steps[i] == StartCpu && forall j :: i < j < n ==> steps[j] != StopCpu
  }

  lemma {:induction false} SwitchStep(s: State, step: Step, timeout: real)
    ensures Next(s, step, timeout).running <==> step == StartCpu || (s.running && step != StopCpu)
  {
  }

  // Over any run the virtual CPU runs exactly when it was started and not stopped since.
  lemma {:induction false} RunningIffStarted(steps: seq<Step>, n: nat, timeout: real)
    requires n <= |steps|
    ensures At(steps, n, timeout).running
            <==> exists i :: 0 <= i < n && StartedSince(steps, i, n)
    decreases n
  {
    if n > 0 {
      var last := n - 1;
      AtNext(steps, last, timeout);
      SwitchStep(At(steps, last, timeout), steps[last], timeout);
      RunningIffStarted(steps, last, timeout);
      if steps[last] == StartCpu {
        assert StartedSince(steps, last, n);
      } else if i :| 0 <= i < last && StartedSince(steps, i, last) {
        assert steps[last] != StopCpu ==> StartedSince(steps, i, n);
      }
      forall i | 0 <= i < last && StartedSince(steps, i, n)
        ensures StartedSince(steps, i, last)
      {
      }
    }
  }

  // ---------------------------------------------------------------- reads

  // The step drops what was read of the area.
  predicate Drops(step: Step, key: AreaKey) {
    step == Forget(key) || step == DropReads(key.connection)
  }

  predicate Holds(s: State, key: AreaKey, snapshot: Snapshot) {
    key in s.areas && key in s.snapshots && s.snapshots[key] == snapshot
  }

  lemma {:induction false} ReadIsStored(s: State, key: AreaKey, data: seq<Byte>, timeout: real)
    requires key in s.areas && !Oversized(s, key)
    ensures Holds(Next(s, ReadOk(key, data), timeout), key, Snapshot(data, s.now, true))
  {
  }

  lemma {:induction false} ReadIsKept(s: State, step: Step, key: AreaKey, snapshot: Snapshot, timeout: real)
    requires Holds(s, key, snapshot) && !Attempts(step, key) && !Drops(step, key)
    requires step != DeleteConnection(key.connection)
    ensures Holds(Next(s, step, timeout), key, snapshot)
  {
    if step.Rescan? && step.connection in s.connections {
      DiscoveryNeverExposes(s.areas, step.connection, s.connections[step.connection].mode == MirrorAll, step.reported,
                            step.anyError, key);
    }
  }

  // A successful read is kept, with its time, until the area is read again, forgotten, or dropped
  // with its connection.
  lemma {:induction false} NewestReadIsKept(steps: seq<Step>, read: nat, n: nat, key: AreaKey, timeout: real)
    requires read < n <= |steps| && IsNewestRead(steps, read, n, key)
    requires key in At(steps, read, timeout).areas && !Oversized(At(steps, read, timeout), key)
    requires forall j :: read < j < n ==> !Drops(steps[j], key) && steps[j] != DeleteConnection(key.connection)
    ensures Holds(At(steps, n, timeout), key, Snapshot(steps[read].data, At(steps, read, timeout).now, true))
    decreases n
  {
    var snapshot := Snapshot(steps[read].data, At(steps, read, timeout).now, true);
    AtNext(steps, n - 1, timeout);
    if read == n - 1 {
      ReadIsStored(At(steps, read, timeout), key, steps[read].data, timeout);
    } else {
      NewestReadIsKept(steps, read, n - 1, key, timeout);
      ReadIsKept(At(steps, n - 1, timeout), steps[n - 1], key, snapshot, timeout);
    }
  }

  // ---------------------------------------------------------------- what is due is served

  // A tick is due to publish the area: its connection is enabled, it is exposed or mirrored, and its
  // size can be registered.
  predicate Due(s: State, key: AreaKey) {
    && key in s.areas && 1 <= s.areas[key].size <= MAX_REGISTERED_BYTES
    && key.connection in s.connections && s.connections[key.connection].enabled
    && (s.connections[key.connection].mode == MirrorAll || s.areas[key].exposed)
  }

  lemma {:induction false} TickServesWhatIsDue(s: State, faults: set<AreaKey>, key: AreaKey, snapshot: Snapshot,
                                               timeout: real)
    requires s.running && ViewSound(s.view, s.running) && Due(s, key) && key !in faults
    requires Holds(s, key, snapshot) && snapshot.ok && 0.0 <= s.now - snapshot.readAt <= timeout
    ensures var view := Next(s, Tick(faults), timeout).view;
            && key in view && view[key] == Fit(snapshot.data, |view[key]|)
            && (s.areas[key].status != Shrunk ==> |view[key]| == s.areas[key].size)
            && |view[key]| >= s.areas[key].size
  {
    var situation, plan := SituationOf(s, timeout), PlanOf(s, timeout);
    assert key in plan && plan[key] == situation.PlannedData(key);
  }

  // The step takes the area off the virtual CPU.
  predicate Withdraws(step: Step, key: AreaKey) {
    step.Tick? || step == StopCpu || step == ConfirmShape(key) || step == Forget(key)
  }

  lemma {:induction false} StaysServed(s: State, step: Step, key: AreaKey, timeout: real)
    requires key in s.view && !Withdraws(step, key)
    ensures key in Next(s, step, timeout).view && Next(s, step, timeout).view[key] == s.view[key]
  {
  }

  lemma {:induction false} ServedSince(steps: seq<Step>, i: nat, n: nat, key: AreaKey, timeout: real)
    requires i <= n <= |steps| && key in At(steps, i, timeout).view
    requires forall j :: i <= j < n ==> !Withdraws(steps[j], key)
    ensures key in At(steps, n, timeout).view && At(steps, n, timeout).view[key] == At(steps, i, timeout).view[key]
    decreases n
  {
    if i < n {
      ServedSince(steps, i, n - 1, key, timeout);
      AtNext(steps, n - 1, timeout);
      StaysServed(At(steps, n - 1, timeout), steps[n - 1], key, timeout);
    }
  }

  // What is due is served: when a tick, not refused, finds the area due and its newest read attempt
  // a success no older than the stale timeout and not dropped since, then from that tick on, and until
  // the next one or until the area is withdrawn, clients get that read.
  lemma {:induction false} DueAreasAreServed(steps: seq<Step>, read: nat, tick: nat, n: nat, key: AreaKey,
                                             timeout: real)
    requires read < tick < n <= |steps| && IsNewestRead(steps, read, tick, key)
    requires key in At(steps, read, timeout).areas && !Oversized(At(steps, read, timeout), key)
    requires forall j :: read < j < tick ==> !Drops(steps[j], key) && steps[j] != DeleteConnection(key.connection)
    requires steps[tick].Tick? && key !in steps[tick].faults && At(steps, tick, timeout).running
    requires Due(At(steps, tick, timeout), key)
    requires At(steps, tick, timeout).now - At(steps, read, timeout).now <= timeout
    requires forall j :: tick < j < n ==> !Withdraws(steps[j], key)
    ensures var view := At(steps, n, timeout).view;
            && key in view && view[key] == Fit(steps[read].data, |view[key]|)
            && |view[key]| >= At(steps, tick, timeout).areas[key].size
  {
    var s := At(steps, tick, timeout);
    var snapshot := Snapshot(steps[read].data, At(steps, read, timeout).now, true);
    NewestReadIsKept(steps, read, tick, key, timeout);
    ClockNeverRunsBack(steps, read, tick, timeout);
    ViewSoundInRun(steps, tick, timeout);
    AtNext(steps, tick, timeout);
    TickServesWhatIsDue(s, steps[tick].faults, key, snapshot, timeout);
    ServedSince(steps, tick + 1, n, key, timeout);
  }

  // The operator exposes an area whose read is fresh; the next tick, not refused, publishes it.
  lemma {:induction false} ExposingPublishes(s: State, faults: set<AreaKey>, key: AreaKey, snapshot: Snapshot,
                                             timeout: real)
    requires s.running && ViewSound(s.view, s.running) && key !in faults
    requires key in s.areas && 1 <= s.areas[key].size <= MAX_REGISTERED_BYTES
    requires key.connection in s.connections && s.connections[key.connection].enabled
    requires Holds(s, key, snapshot) && snapshot.ok && 0.0 <= s.now - snapshot.readAt <= timeout
    ensures var view := Next(Next(s, Expose(key, true), timeout), Tick(faults), timeout).view;
            key in view && view[key] == Fit(snapshot.data, |view[key]|)
  {
    var exposed := Next(s, Expose(key, true), timeout);
    GrantExposes(s, Expose(key, true), key, timeout);
    assert exposed.areas[key] == s.areas[key].(exposed := true);
    TickServesWhatIsDue(exposed, faults, key, snapshot, timeout);
  }

  // Under Whitelist, hiding an area withdraws it at the next tick.
  lemma {:induction false} HidingWithdraws(s: State, faults: set<AreaKey>, key: AreaKey, timeout: real)
    requires s.running && key.connection in s.connections && s.connections[key.connection].mode == Whitelist
    ensures key !in Next(Next(s, Expose(key, false), timeout), Tick(faults), timeout).view
  {
    var hidden := Next(s, Expose(key, false), timeout);
    OnlyPlannedKeysStay(hidden.view, PlanOf(hidden, timeout), faults);
  }

  // Confirming a changed shape: the next tick, not refused, registers exactly the new size.
  lemma {:induction false} ConfirmedShapeIsRegistered(s: State, faults: set<AreaKey>, key: AreaKey, snapshot: Snapshot,
                                                      timeout: real)
    requires s.running && ViewSound(s.view, s.running) && key !in faults && Due(s, key)
    requires Holds(s, key, snapshot) && snapshot.ok && 0.0 <= s.now - snapshot.readAt <= timeout
    ensures var view := Next(Next(s, ConfirmShape(key), timeout), Tick(faults), timeout).view;
            key in view && view[key] == Fit(snapshot.data, s.areas[key].size)
  {
    TickServesWhatIsDue(Next(s, ConfirmShape(key), timeout), faults, key, snapshot, timeout);
  }
}
