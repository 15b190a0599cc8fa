// The whole gateway as a state machine - operator, discovery, polling, clock and sync ticks over
// one state - and what every run of it keeps.
module Bridge {
  import opened Bytes
  import opened Areas
  import opened Discovery
  import opened DataStore
  import opened VirtualPlc
  import opened Sync
  import PlcClient

  datatype State = State(
    now: real, connections: Connections, areas: AreaTable, snapshots: Snapshots, view: View, running: bool)

  datatype Step =
    | Pass(seconds: real)
    | ReadOk(key: AreaKey, data: seq<Byte>)
    | ReadFailed(key: AreaKey)
    | Rescan(connection: nat, reported: seq<Discovered>, anyError: bool)
    | Expose(key: AreaKey, exposed: bool)
    | ConfirmShape(key: AreaKey)
    | Forget(key: AreaKey)
    | Configure(connection: nat, settings: Connection)
    | DropReads(connection: nat)
    | DeleteConnection(connection: nat)
    | Tick(faults: set<AreaKey>)
    | StartCpu
    | StopCpu

  const Initial: State := State(0.0, map[], map[], map[], map[], false)

  function SituationOf(s: State, timeout: real): Situation {
    Situation(s.connections, s.areas, s.snapshots, SizesOf(s.view), timeout, s.now)
  }

  function PlanOf(s: State, timeout: real): View {
    SituationOf(s, timeout).Plan()
  }

  // Snapshots of areas a rescanned connection no longer has are dropped.
  function KeptKeys(s: State, areas: AreaTable, connection: nat): set<AreaKey> {
    set k | k in s.snapshots && (k.connection != connection || k in areas)
  }

  // A poll asks for the whole area, and a read this large is refused.
  predicate Oversized(s: State, key: AreaKey) {
    key in s.areas && s.areas[key].size > PlcClient.MAX_AREA_BYTES
  }

  function Next(s: State, step: Step, timeout: real): State {
    match step
    case Pass(seconds) => if seconds > 0.0 then s.(now := s.now + seconds) else s
    case ReadOk(key, data) =>
      if Oversized(s, key) then s.(snapshots := AfterFailure(s.snapshots, key))
      else s.(snapshots := s.snapshots[key := Snapshot(data, s.now, true)])
    case ReadFailed(key) => s.(snapshots := AfterFailure(s.snapshots, key))
    case Rescan(c, reported, anyError) =>
      if c !in s.connections then s
      else
        var areas := AfterDiscovery(s.areas, c, s.connections[c].mode == MirrorAll, reported, anyError);
        s.(areas := areas, snapshots := Retained(s.snapshots, KeptKeys(s, areas, c)))
    case Expose(key, exposed) =>
      if key in s.areas then s.(areas := s.areas[key := s.areas[key].(exposed := exposed)]) else s
    case ConfirmShape(key) =>
      if key in s.areas then s.(areas := s.areas[key := s.areas[key].(status := Ok)], view := s.view - {key}) else s
    case Forget(key) =>
      if key !in s.areas then s
      else s.(areas := s.areas - {key}, snapshots := s.snapshots - {key}, view := s.view - {key})
    case Configure(c, settings) => s.(connections := s.connections[c := settings])
    case DropReads(c) => s.(snapshots := WithoutSnapshotsOf(s.snapshots, c))
    case DeleteConnection(c) => s.(connections := s.connections - {c}, areas := WithoutConnection(s.areas, c))
    case Tick(faults) => if s.running then s.(view := AfterTick(s.view, PlanOf(s, timeout), faults)) else s
    case StartCpu => s.(running := true)
    case StopCpu => s.(running := false, view := map[])
  }

  function Run(steps: seq<Step>, timeout: real): State {
    if steps == [] then Initial else Next(Run(steps[..|steps| - 1], timeout), steps[|steps| - 1], timeout)
  }

  // The state before step i.
  function At(steps: seq<Step>, i: nat, timeout: real): State
    requires i <= |steps|
  {
    Run(steps[..i], timeout)
  }

  lemma {:induction false} AtOfPrefix(steps: seq<Step>, n: nat, i: nat, timeout: real)
    requires i <= n <= |steps|
    ensures At(steps[..n], i, timeout) == At(steps, i, timeout)
  {
    assert steps[..n][..i] == steps[..i];
  }

  lemma {:induction false} AtNext(steps: seq<Step>, i: nat, timeout: real)
    requires i < |steps|
    ensures At(steps, i + 1, timeout) == Next(At(steps, i, timeout), steps[i], timeout)
  {
    assert steps[..i + 1][..i] == steps[..i];
  }

  function Seconds(step: Step): real {
    if step.Pass? && step.seconds > 0.0 then step.seconds else 0.0
  }

  lemma {:induction false} OneStepClock(s: State, step: Step, timeout: real)
    ensures Next(s, step, timeout).now == s.now + Seconds(step)
  {
  }

  lemma {:induction false} ClockNeverRunsBack(steps: seq<Step>, i: nat, j: nat, timeout: real)
    requires i <= j <= |steps|
    ensures At(steps, i, timeout).now <= At(steps, j, timeout).now
    decreases j
  {
    if i < j {
      var before := At(steps, j - 1, timeout);
      AtNext(steps, j - 1, timeout);
      OneStepClock(before, steps[j - 1], timeout);
      ClockNeverRunsBack(steps, i, j - 1, timeout);
    }
  }

  // ---------------------------------------------------------------- exposure

  // Step i granted the area's exposure: the operator exposed it, or a rescan under Mirror All
  // first inserted it.
  predicate Grants(steps: seq<Step>, i: nat, key: AreaKey, timeout: real)
    requires i < |steps|
  {
    var before := At(steps, i, timeout);
    || (steps[i] == Expose(key, true) && key in before.areas)
    || (steps[i].Rescan? && key !in before.areas && key in At(steps, i + 1, timeout).areas
        && key.connection in before.connections && before.connections[key.connection].mode == MirrorAll)
  }

  predicate Revokes(step: Step, key: AreaKey) {
    step == Expose(key, false) || step == Forget(key) || step == DeleteConnection(key.connection)
  }

  predicate GrantedSince(steps: seq<Step>, i: nat, key: AreaKey, timeout: real)
    requires i < |steps|
  {
    Grants(steps, i, key, timeout) && forall j :: i < j < |steps| ==> !Revokes(steps[j], key)
  }

  lemma {:induction false} GrantOfPrefix(steps: seq<Step>, i: nat, key: AreaKey, timeout: real)
    requires steps != [] && i < |steps| - 1
    requires GrantedSince(steps[..|steps| - 1], i, key, timeout) && !Revokes(steps[|steps| - 1], key)
    ensures GrantedSince(steps, i, key, timeout)
  {
    var front := steps[..|steps| - 1];
    AtOfPrefix(steps, |steps| - 1, i, timeout);
    AtOfPrefix(steps, |steps| - 1, i + 1, timeout);
    forall j | i < j < |steps|
      ensures !Revokes(steps[j], key)
    {
      if j < |steps| - 1 {
        assert front[j] == steps[j];
      }
    }
  }

  // How one step can leave an area exposed.
  lemma {:induction false} ExposedAfterStep(s: State, step: Step, key: AreaKey, timeout: real)
    requires key in Next(s, step, timeout).areas && Next(s, step, timeout).areas[key].exposed
    ensures || (key in s.areas && s.areas[key].exposed && !Revokes(step, key))
            || (step == Expose(key, true) && key in s.areas)
            || (step.Rescan? && key !in s.areas && key.connection in s.connections
                && s.connections[key.connection].mode == MirrorAll)
  {
    match step
    case Rescan(c, reported, anyError) =>
      if c in s.connections {
        DiscoveryNeverExposes(s.areas, c, s.connections[c].mode == MirrorAll, reported, anyError, key);
      }
    case _ =>
  }

  // Over any run: an area that is exposed was granted exposure by the operator, or by being
  // first found under Mirror All, and nothing has revoked it since.
  lemma {:induction false} ExposureHasAnOrigin(steps: seq<Step>, key: AreaKey, timeout: real) returns (i: nat)
    requires var s := Run(steps, timeout); key in s.areas && s.areas[key].exposed
    ensures i < |steps| && GrantedSince(steps, i, key, timeout)
    decreases |steps|
  {
    var n := |steps| - 1;
    var front := steps[..n];
    var before := Run(front, timeout);
    assert steps[..|steps|] == steps;
    AtNext(steps, n, timeout);
    ExposedAfterStep(before, steps[n], key, timeout);
    if key in before.areas && before.areas[key].exposed && !Revokes(steps[n], key) {
      i := ExposureHasAnOrigin(front, key, timeout);
      GrantOfPrefix(steps, i, key, timeout);
    } else {
      i := n;
    }
  }

  // Right after a tick of a running virtual CPU, everything registered is enabled, and exposed
  // or mirrored; under Whitelist it traces back to a grant.
  lemma {:induction false} RegisteredOnlyIfGranted(steps: seq<Step>, faults: set<AreaKey>, key: AreaKey, timeout: real)
    returns (i: nat)
    requires Run(steps, timeout).running && key in Run(steps + [Tick(faults)], timeout).view
    ensures var s := Run(steps, timeout);
            && key in s.areas && Enabled(s.connections, key) && Exposed(s.connections, s.areas, key)
            && (s.connections[key.connection].mode == Whitelist ==> i < |steps| && GrantedSince(steps, i, key, timeout))
  {
    var s := Run(steps, timeout);
    assert (steps + [Tick(faults)])[..|steps|] == steps;
    OnlyPlannedKeysStay(s.view, PlanOf(s, timeout), faults);
    i := 0;
    if s.connections[key.connection].mode == Whitelist {
      i := ExposureHasAnOrigin(steps, key, timeout);
    }
  }
}
