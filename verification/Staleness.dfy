// Where the served bytes come from, how old they can be, and when a registered size can drop -
// over every run of the gateway.
module Staleness {
  import opened Bytes
  import opened Areas
  import opened DataStore
  import opened VirtualPlc
  import opened Sync
  import opened Discovery
  import opened Bridge

  predicate Attempts(step: Step, key: AreaKey) {
    (step.ReadOk? || step.ReadFailed?) && step.key == key
  }

  // Of the first n steps, `read` is the newest attempt to read the area, and it succeeded.
  predicate IsNewestRead(steps: seq<Step>, read: nat, n: nat, key: AreaKey)
    requires read < n <= |steps|
  {
    steps[read].ReadOk? && steps[read].key == key && forall j :: read < j < n ==> !Attempts(steps[j], key)
  }

  lemma {:induction false} SnapshotStep(s: State, step: Step, key: AreaKey, timeout: real)
    requires key in Next(s, step, timeout).snapshots && Next(s, step, timeout).snapshots[key].ok
    ensures var snapshot := Next(s, step, timeout).snapshots[key];
            if Attempts(step, key) then
              step == ReadOk(key, snapshot.data) && snapshot.readAt == s.now && !Oversized(s, key)
            else key in s.snapshots && s.snapshots[key] == snapshot
  {
  }

  // A snapshot that is not marked bad is the newest read attempt, with its time; the area was not
  // too large to read then.
  lemma {:induction false} SnapshotIsTheNewestRead(steps: seq<Step>, n: nat, key: AreaKey, timeout: real)
    returns (read: nat)
    requires n <= |steps|
    requires key in At(steps, n, timeout).snapshots && At(steps, n, timeout).snapshots[key].ok
    ensures read < n && IsNewestRead(steps, read, n, key) && !Oversized(At(steps, read, timeout), key)
    ensures At(steps, n, timeout).snapshots[key] == Snapshot(steps[read].data, At(steps, read, timeout).now, true)
    decreases n
  {
    read := n - 1;
    AtNext(steps, n - 1, timeout);
    SnapshotStep(At(steps, n - 1, timeout), steps[n - 1], key, timeout);
    if !Attempts(steps[n - 1], key) {
      read := SnapshotIsTheNewestRead(steps, n - 1, key, timeout);
    }
  }

  // ---------------------------------------------------------------- the last tick

  // Nothing is registered while stopped, and never at an impossible size.
  predicate ViewSound(view: View, running: bool) {
    (view != map[] ==> running) && forall k :: k in view ==> Registrable(|view[k]|)
  }

  lemma {:induction false} TickKeepsViewSound(view: View, plan: View, faults: set<AreaKey>)
    requires ViewSound(view, true)
    ensures ViewSound(AfterTick(view, plan, faults), true)
  {
  }

  lemma {:induction false} ViewSoundStep(s: State, step: Step, timeout: real)
    requires ViewSound(s.view, s.running)
    ensures ViewSound(Next(s, step, timeout).view, Next(s, step, timeout).running)
  {
    if step.Tick? && s.running {
      TickKeepsViewSound(s.view, PlanOf(s, timeout), step.faults);
    }
  }

  lemma {:induction false} ViewSoundInRun(steps: seq<Step>, n: nat, timeout: real)
    requires n <= |steps|
    ensures ViewSound(At(steps, n, timeout).view, At(steps, n, timeout).running)
  {
    if n > 0 {
      ViewSoundInRun(steps, n - 1, timeout);
      AtNext(steps, n - 1, timeout);
      ViewSoundStep(At(steps, n - 1, timeout), steps[n - 1], timeout);
    }
  }

  // Only a tick publishes anything.
  lemma {:induction false} OnlyTicksPublish(s: State, step: Step, key: AreaKey, timeout: real)
    requires key in Next(s, step, timeout).view && !(step.Tick? && s.running)
    ensures key in s.view && s.view[key] == Next(s, step, timeout).view[key]
  {
  }

  lemma {:induction false} LastTick(steps: seq<Step>, n: nat, key: AreaKey, timeout: real) returns (tick: nat)
    requires n <= |steps| && key in At(steps, n, timeout).view
    ensures IsLastTick(steps, tick, n) && At(steps, tick, timeout).running && At(steps, n, timeout).running
    ensures key in At(steps, tick + 1, timeout).view
    ensures At(steps, tick + 1, timeout).view[key] == At(steps, n, timeout).view[key]
    decreases n
  {
    tick := n - 1;
    AtNext(steps, n - 1, timeout);
    ViewSoundInRun(steps, n - 1, timeout);
    var before := At(steps, n - 1, timeout);
    if !(steps[n - 1].Tick? && before.running) {
      OnlyTicksPublish(before, steps[n - 1], key, timeout);
      assert before.running;
      tick := LastTick(steps, n - 1, key, timeout);
    }
  }

  // ---------------------------------------------------------------- bounded staleness

  // What a tick leaves registered was planned from a fresh snapshot; unless the area is too large
  // to register, that is what is served.
  lemma {:induction false} TickServesFreshReads(s: State, faults: set<AreaKey>, key: AreaKey, timeout: real)
    requires s.running && ViewSound(s.view, s.running) && key in Next(s, Tick(faults), timeout).view
    ensures var next := Next(s, Tick(faults), timeout).view[key];
            && key in s.areas && s.areas[key].size > 0 && FreshIn(s.snapshots, key, timeout, s.now)
            && (if s.areas[key].size <= MAX_REGISTERED_BYTES then next == Fit(s.snapshots[key].data, |next|)
                else key in s.view && next == s.view[key])
  {
    var situation, plan := SituationOf(s, timeout), PlanOf(s, timeout);
    assert key in plan && plan[key] == situation.PlannedData(key);
    assert SizeIn(situation.sizes, key) == if key in s.view then |s.view[key]| else 0;
  }

  // Of the areas a tick keeps registered, it refreshes exactly those that are not too large to
  // register; the others keep the bytes they had.
  lemma {:induction false} TickRefreshesIff(s: State, faults: set<AreaKey>, key: AreaKey, timeout: real)
    requires s.running && ViewSound(s.view, s.running)
    requires key in s.view && key in Next(s, Tick(faults), timeout).view
    ensures SituationOf(s, timeout).Publishable(key)
    ensures Next(s, Tick(faults), timeout).view[key] == SituationOf(s, timeout).PlannedData(key)
            <==> s.areas[key].size <= MAX_REGISTERED_BYTES
    ensures s.areas[key].size > MAX_REGISTERED_BYTES ==> Next(s, Tick(faults), timeout).view[key] == s.view[key]
  {
    var plan := PlanOf(s, timeout);
    assert key in plan && plan[key] == SituationOf(s, timeout).PlannedData(key);
  }

  // What is served at any moment was published by the last tick, which planned it from the newest
  // attempt to read the area: a success no older, then, than the stale timeout.
  lemma {:induction false} ServedBytesComeFromAFreshRead(steps: seq<Step>, n: nat, key: AreaKey, timeout: real)
    returns (read: nat, tick: nat)
    requires n <= |steps| && key in At(steps, n, timeout).view
    ensures read < tick && IsLastTick(steps, tick, n)
    ensures At(steps, tick, timeout).running && At(steps, n, timeout).running
    ensures IsNewestRead(steps, read, tick, key) && !Oversized(At(steps, read, timeout), key)
    ensures At(steps, tick, timeout).now - At(steps, read, timeout).now <= timeout
    ensures key in At(steps, tick, timeout).areas
    ensures var served := At(steps, n, timeout).view[key];
            if At(steps, tick, timeout).areas[key].size <= MAX_REGISTERED_BYTES
            then served == Fit(steps[read].data, |served|)
            else key in At(steps, tick, timeout).view && served == At(steps, tick, timeout).view[key]
  {
    tick := LastTick(steps, n, key, timeout);
    TickInRun(steps, tick, key, timeout);
    read := SnapshotIsTheNewestRead(steps, tick, key, timeout);
  }

  lemma {:induction false} TickInRun(steps: seq<Step>, tick: nat, key: AreaKey, timeout: real)
    requires tick < |steps| && steps[tick].Tick? && At(steps, tick, timeout).running
    requires key in At(steps, tick + 1, timeout).view
    ensures var s, served := At(steps, tick, timeout), At(steps, tick + 1, timeout).view[key];
            && key in s.areas && FreshIn(s.snapshots, key, timeout, s.now)
            && (if s.areas[key].size <= MAX_REGISTERED_BYTES then served == Fit(s.snapshots[key].data, |served|)
                else key in s.view && served == s.view[key])
  {
    AtNext(steps, tick, timeout);
    ViewSoundInRun(steps, tick, timeout);
    TickServesFreshReads(At(steps, tick, timeout), steps[tick].faults, key, timeout);
  }

  predicate IsLastTick(steps: seq<Step>, tick: nat, n: nat)
    requires n <= |steps|
  {
    tick < n && steps[tick].Tick? && forall j :: tick < j < n ==> !steps[j].Tick?
  }

  // The last of the first n steps that was a tick found the area small enough to register.
  ghost predicate LastFoundRegistrable(steps: seq<Step>, n: nat, key: AreaKey, timeout: real)
    requires n <= |steps|
  {
    forall t :: 0 <= t < n && IsLastTick(steps, t, n) && key in At(steps, t, timeout).areas ==>
      At(steps, t, timeout).areas[key].size <= MAX_REGISTERED_BYTES
  }

  predicate NoTick(steps: seq<Step>, i: nat, j: nat)
    requires i <= j <= |steps|
  {
    forall m :: i <= m < j ==> !steps[m].Tick?
  }

  // While the virtual CPU runs, no more than `gap` passes without a tick.
  ghost predicate TicksAtMostApart(steps: seq<Step>, gap: real, timeout: real) {
    forall i, j ::
      0 <= i <= j <= |steps| && NoTick(steps, i, j) && At(steps, i, timeout).running && At(steps, j, timeout).running
      ==> At(steps, j, timeout).now - At(steps, i, timeout).now <= gap
  }

  // Bounded staleness: at any moment, unless the last tick found the area too large to register,
  // every byte a client can read comes from a successful read of its area no older than the stale
  // timeout and one tick gap.
  lemma {:induction false} StalenessIsBounded(steps: seq<Step>, n: nat, key: AreaKey, gap: real, timeout: real)
    returns (read: nat)
    requires n <= |steps| && key in At(steps, n, timeout).view
    requires TicksAtMostApart(steps, gap, timeout) && LastFoundRegistrable(steps, n, key, timeout)
    ensures read < n && steps[read].ReadOk? && steps[read].key == key
    ensures At(steps, n, timeout).view[key] == Fit(steps[read].data, |At(steps, n, timeout).view[key]|)
    ensures At(steps, n, timeout).now - At(steps, read, timeout).now <= timeout + gap
  {
    var tick: nat;
    read, tick := ServedBytesComeFromAFreshRead(steps, n, key, timeout);
    SinceTheLastTick(steps, tick, n, gap, timeout);
  }

  lemma {:induction false} SinceTheLastTick(steps: seq<Step>, tick: nat, n: nat, gap: real, timeout: real)
    requires n <= |steps| && IsLastTick(steps, tick, n) && TicksAtMostApart(steps, gap, timeout)
    requires At(steps, tick, timeout).running && At(steps, n, timeout).running
    ensures At(steps, n, timeout).now - At(steps, tick, timeout).now <= gap
  {
    AtNext(steps, tick, timeout);
    OneStepClock(At(steps, tick, timeout), steps[tick], timeout);
  }

  // ---------------------------------------------------------------- areas that grow too large

  // What the store holds of an area is good and may be published while fresh.
  predicate GoodIn(s: State, key: AreaKey) {
    key in s.snapshots && s.snapshots[key].ok
  }

  lemma {:induction false} OversizedReadsFail(s: State, step: Step, key: AreaKey, timeout: real)
    requires Oversized(s, key) && (Attempts(step, key) || !GoodIn(s, key))
    ensures !GoodIn(Next(s, step, timeout), key)
  {
  }

  lemma {:induction false} NotGoodWhileOversized(steps: seq<Step>, poll: nat, n: nat, key: AreaKey, timeout: real)
    requires poll < n <= |steps| && Attempts(steps[poll], key)
    requires forall m :: poll <= m < n ==> Oversized(At(steps, m, timeout), key)
    ensures !GoodIn(At(steps, n, timeout), key)
    decreases n
  {
    AtNext(steps, n - 1, timeout);
    if poll < n - 1 {
      NotGoodWhileOversized(steps, poll, n - 1, key, timeout);
    }
    OversizedReadsFail(At(steps, n - 1, timeout), steps[n - 1], key, timeout);
  }

  // From the first poll of an area that has grown too large on, and while it stays so, no tick
  // leaves it registered: whatever the poll would have brought, the read is refused.
  lemma {:induction false} OversizedIsWithdrawnOncePolled(steps: seq<Step>, poll: nat, tick: nat, key: AreaKey,
                                                          timeout: real)
    requires poll < tick < |steps| && Attempts(steps[poll], key)
    requires steps[tick].Tick? && At(steps, tick, timeout).running
    requires forall m :: poll <= m <= tick ==> Oversized(At(steps, m, timeout), key)
    ensures key !in At(steps, tick + 1, timeout).view
  {
    var s := At(steps, tick, timeout);
    NotGoodWhileOversized(steps, poll, tick, key, timeout);
    AtNext(steps, tick, timeout);
    OnlyPlannedKeysStay(s.view, PlanOf(s, timeout), steps[tick].faults);
  }

  lemma {:induction false} HeldStep(s: State, step: Step, key: AreaKey, timeout: real)
    requires ViewSound(s.view, s.running)
    requires Oversized(Next(s, step, timeout), key) && key in Next(s, step, timeout).view
    ensures key in s.view && s.view[key] == Next(s, step, timeout).view[key]
  {
    if step.Tick? && s.running {
      TickServesFreshReads(s, step.faults, key, timeout);
    } else {
      OnlyTicksPublish(s, step, key, timeout);
    }
  }

  lemma {:induction false} HeldSinceGrown(steps: seq<Step>, grown: nat, n: nat, key: AreaKey, timeout: real)
    requires grown <= n <= |steps| && key in At(steps, n, timeout).view
    requires forall m :: grown < m <= n ==> Oversized(At(steps, m, timeout), key)
    ensures key in At(steps, grown, timeout).view
    ensures At(steps, grown, timeout).view[key] == At(steps, n, timeout).view[key]
    decreases n
  {
    if grown < n {
      AtNext(steps, n - 1, timeout);
      ViewSoundInRun(steps, n - 1, timeout);
      HeldStep(At(steps, n - 1, timeout), steps[n - 1], key, timeout);
      HeldSinceGrown(steps, grown, n - 1, key, timeout);
    }
  }

  // An area that was small enough at the last tick before it grew, and has been too large since,
  // keeps its old registration only while its last small read is fresh: its bytes are never older
  // than twice the stale timeout and the tick gap.
  lemma {:induction false} GrownAreaStalenessIsBounded(steps: seq<Step>, grown: nat, n: nat, key: AreaKey, gap: real,
                                                       timeout: real)
    returns (read: nat)
    requires grown <= n <= |steps| && key in At(steps, n, timeout).view
    requires TicksAtMostApart(steps, gap, timeout) && LastFoundRegistrable(steps, grown, key, timeout)
    requires forall m :: grown < m <= n ==> Oversized(At(steps, m, timeout), key)
    ensures read < grown && steps[read].ReadOk? && steps[read].key == key
    ensures At(steps, n, timeout).view[key] == Fit(steps[read].data, |At(steps, n, timeout).view[key]|)
    ensures At(steps, n, timeout).now - At(steps, read, timeout).now <= 2.0 * (timeout + gap)
  {
    HeldSinceGrown(steps, grown, n, key, timeout);
    read := StalenessIsBounded(steps, grown, key, gap, timeout);
    var newest, tick := ServedBytesComeFromAFreshRead(steps, n, key, timeout);
    SinceTheLastTick(steps, tick, n, gap, timeout);
    if newest <= grown {
      ClockNeverRunsBack(steps, newest, grown, timeout);
    }
    ClockNeverRunsBack(steps, read, grown, timeout);
  }

  // ---------------------------------------------------------------- the bound is met

  const Grower := AreaKey(0, DataBlock(1))

  const TooLarge: nat := MAX_REGISTERED_BYTES + 1

  // A read, and a tick when it is just fresh; a second read just before the next tick is due, and
  // the area grows. Two more ticks, as far apart, go by before it is polled again.
  function GrowingRun(first: Byte, second: Byte, wait: real): seq<Step> {
    [Configure(0, Connection(MirrorAll, true)), Rescan(0, [Discovered(DataBlock(1), 1)], false), StartCpu,
     ReadOk(Grower, [first]), Pass(wait), Tick({}),
     Pass(wait), ReadOk(Grower, [second]), Rescan(0, [Discovered(DataBlock(1), TooLarge)], false), Tick({}),
     Pass(wait), Tick({}), Pass(wait)]
  }

  // With the tick gap as long as the stale timeout, this run serves bytes of the very age the
  // bound allows - twice what it would be had the area not grown.
  lemma {:induction false} GrownAreaReachesTheBound(first: Byte, second: Byte, wait: real)
    requires wait > 0.0
    ensures var steps := GrowingRun(first, second, wait);
            && steps[3] == ReadOk(Grower, [first])
            && Run(steps, wait).view == map[Grower := [first]]
            && Run(steps, wait).now - At(steps, 3, wait).now == 2.0 * (wait + wait)
            && TicksAtMostApart(steps, wait, wait)
  {
    var steps, view := GrowingRun(first, second, wait), map[Grower := [first]];
    FirstReadIsServed(first, second, wait);
    HeldUntilTheEnd(steps, [first], [second], view, TooLarge, wait);
    assert steps[..13] == steps;
    TimesAddUp(first, second, wait);
    ClockIs(steps, Times(wait), wait);
    GapsOfGrowingRun(first, second, wait);
  }

  // The rest of the run, from the first tick on.
  lemma {:induction false} HeldUntilTheEnd(steps: seq<Step>, first: seq<Byte>, second: seq<Byte>, view: View,
                                           size: nat, wait: real)
    requires wait > 0.0 && |second| == 1 && size > MAX_REGISTERED_BYTES && view.Keys == {Grower}
    requires |steps| == 13 && steps[6] == steps[10] == steps[12] == Pass(wait) && steps[7] == ReadOk(Grower, second)
    requires steps[8] == Rescan(0, [Discovered(DataBlock(1), size)], false) && steps[9] == steps[11] == Tick({})
    requires At(steps, 6, wait) == OneArea(wait, New, 1, Snapshot(first, 0.0, true), view)
    ensures At(steps, 13, wait).view == view && At(steps, 13, wait).now == 4.0 * wait
  {
    var twice := wait + wait;
    var read := Snapshot(second, twice, true);
    Waits(steps, 6, wait, New, 1, Snapshot(first, 0.0, true), view, wait);
    Reads(steps, 7, twice, Snapshot(first, 0.0, true), view, second, wait);
    Grows(steps, 8, twice, read, view, size, wait);
    Holds(steps, 9, twice, read, view, size, wait);
    Waits(steps, 10, twice, Grown, size, read, view, wait);
    Holds(steps, 11, twice + wait, read, view, size, wait);
    Waits(steps, 12, twice + wait, Grown, size, read, view, wait);
  }

  function OneArea(now: real, status: AreaStatus, size: nat, read: Snapshot, view: View): State {
    State(now, map[0 := Connection(MirrorAll, true)], map[Grower := AreaRow(size, true, status)], map[Grower := read],
          view, true)
  }

  lemma {:induction false} OneAreaFound(areas: AreaTable, size: nat, status: AreaStatus)
    requires (areas == map[] && status == New)
             || (areas == map[Grower := AreaRow(1, true, New)] && status == Grown && size > 1)
    ensures AfterDiscovery(areas, 0, true, [Discovered(DataBlock(1), size)], false)
            == map[Grower := AreaRow(size, true, status)]
  {
    var reported := [Discovered(DataBlock(1), size)];
    assert reported[..0] == [];
    assert ByKey(reported) == map[DataBlock(1) := size];
    assert areas.Keys + Discovery.KeysOf(0, ByKey(reported)) == {Grower};
  }

  // A tick refreshes the small area and leaves the large one as it is.
  lemma {:induction false} OneAreaTick(now: real, status: AreaStatus, size: nat, read: Snapshot, view: View,
                                       timeout: real)
    requires |read.data| == 1 && status != Shrunk && read.IsFresh(timeout, now)
    requires (size == 1 && view == map[]) || (size > MAX_REGISTERED_BYTES && view.Keys == {Grower})
    ensures Next(OneArea(now, status, size, read, view), Tick({}), timeout)
            == OneArea(now, status, size, read, if size == 1 then map[Grower := read.data] else view)
  {
    var s := OneArea(now, status, size, read, view);
    var plan := PlanOf(s, timeout);
    assert plan.Keys == {Grower} && plan[Grower] == Fit(read.data, size);
    if size == 1 {
      assert Fit(read.data, 1) == read.data;
    }
  }

  lemma {:induction false} OneAreaGrows(now: real, read: Snapshot, view: View, size: nat, timeout: real)
    requires size > 1
    ensures Next(OneArea(now, New, 1, read, view), Rescan(0, [Discovered(DataBlock(1), size)], false), timeout)
            == OneArea(now, Grown, size, read, view)
  {
    var s := OneArea(now, New, 1, read, view);
    OneAreaFound(s.areas, size, Grown);
    var areas := map[Grower := AreaRow(size, true, Grown)];
    assert KeptKeys(s, areas, 0) == {Grower};
    assert Retained(s.snapshots, {Grower}) == s.snapshots;
  }

  lemma {:induction false} OneAreaRead(now: real, read: Snapshot, view: View, data: seq<Byte>, timeout: real)
    ensures Next(OneArea(now, New, 1, read, view), ReadOk(Grower, data), timeout)
            == OneArea(now, New, 1, Snapshot(data, now, true), view)
  {
    assert map[Grower := read][Grower := Snapshot(data, now, true)] == map[Grower := Snapshot(data, now, true)];
  }

  lemma {:induction false} FirstReadIsServed(first: Byte, second: Byte, wait: real)
    requires wait > 0.0
    ensures At(GrowingRun(first, second, wait), 6, wait)
            == OneArea(wait, New, 1, Snapshot([first], 0.0, true), map[Grower := [first]])
  {
    var steps := GrowingRun(first, second, wait);
    AtNext(steps, 0, wait);
    AtNext(steps, 1, wait);
    OneAreaFound(map[], 1, New);
    AtNext(steps, 2, wait);
    AtNext(steps, 3, wait);
    AtNext(steps, 4, wait);
    assert At(steps, 5, wait) == OneArea(wait, New, 1, Snapshot([first], 0.0, true), map[]);
    OneAreaTick(wait, New, 1, Snapshot([first], 0.0, true), map[], wait);
    AtNext(steps, 5, wait);
  }

  lemma {:induction false} OneAreaWaits(now: real, status: AreaStatus, size: nat, read: Snapshot, view: View,
                                        wait: real, timeout: real)
    requires wait > 0.0
    ensures Next(OneArea(now, status, size, read, view), Pass(wait), timeout)
            == OneArea(now + wait, status, size, read, view)
  {
  }

  lemma {:induction false} Waits(steps: seq<Step>, i: nat, now: real, status: AreaStatus, size: nat, read: Snapshot,
                                 view: View, wait: real)
    requires wait > 0.0 && i < |steps| && steps[i] == Pass(wait)
    requires At(steps, i, wait) == OneArea(now, status, size, read, view)
    ensures At(steps, i + 1, wait) == OneArea(now + wait, status, size, read, view)
  {
    AtNext(steps, i, wait);
    OneAreaWaits(now, status, size, read, view, wait, wait);
  }

  lemma {:induction false} Reads(steps: seq<Step>, i: nat, now: real, read: Snapshot, view: View, data: seq<Byte>,
                                 wait: real)
    requires i < |steps| && steps[i] == ReadOk(Grower, data) && At(steps, i, wait) == OneArea(now, New, 1, read, view)
    ensures At(steps, i + 1, wait) == OneArea(now, New, 1, Snapshot(data, now, true), view)
  {
    AtNext(steps, i, wait);
    OneAreaRead(now, read, view, data, wait);
  }

  lemma {:induction false} Grows(steps: seq<Step>, i: nat, now: real, read: Snapshot, view: View, size: nat, wait: real)
    requires i < |steps| && steps[i] == Rescan(0, [Discovered(DataBlock(1), size)], false) && size > 1
    requires At(steps, i, wait) == OneArea(now, New, 1, read, view)
    ensures At(steps, i + 1, wait) == OneArea(now, Grown, size, read, view)
  {
    AtNext(steps, i, wait);
    OneAreaGrows(now, read, view, size, wait);
  }

  lemma {:induction false} Holds(steps: seq<Step>, i: nat, now: real, read: Snapshot, view: View, size: nat, wait: real)
    requires i < |steps| && steps[i] == Tick({}) && At(steps, i, wait) == OneArea(now, Grown, size, read, view)
    requires |read.data| == 1 && read.IsFresh(wait, now) && size > MAX_REGISTERED_BYTES && view.Keys == {Grower}
    ensures At(steps, i + 1, wait) == OneArea(now, Grown, size, read, view)
  {
    AtNext(steps, i, wait);
    OneAreaTick(now, Grown, size, read, view, wait);
  }

  lemma {:induction false} ClockAfter(steps: seq<Step>, i: nat, timeout: real)
    requires i < |steps|
    ensures At(steps, i + 1, timeout).now == At(steps, i, timeout).now + Seconds(steps[i])
  {
    AtNext(steps, i, timeout);
    OneStepClock(At(steps, i, timeout), steps[i], timeout);
  }

  function Times(wait: real): seq<real> {
    [0.0, 0.0, 0.0, 0.0, 0.0, wait, wait, 2.0 * wait, 2.0 * wait, 2.0 * wait, 2.0 * wait, 3.0 * wait, 3.0 * wait,
     4.0 * wait]
  }

  lemma {:induction false} TimesAddUp(first: Byte, second: Byte, wait: real)
    requires wait > 0.0
    ensures var steps := GrowingRun(first, second, wait);
            forall i :: 0 <= i < 13 ==> Times(wait)[i + 1] == Times(wait)[i] + Seconds(steps[i])
  {
  }

  lemma {:induction false} ClockIs(steps: seq<Step>, times: seq<real>, timeout: real)
    requires |times| == |steps| + 1 && times[0] == 0.0
    requires forall i :: 0 <= i < |steps| ==> times[i + 1] == times[i] + Seconds(steps[i])
    ensures forall i :: 0 <= i <= |steps| ==> At(steps, i, timeout).now == times[i]
  {
    for i := 0 to |steps|
      invariant forall j :: 0 <= j <= i ==> At(steps, j, timeout).now == times[j]
    {
      ClockAfter(steps, i, timeout);
    }
  }

  lemma {:induction false} GapsOfGrowingRun(first: Byte, second: Byte, wait: real)
    requires wait > 0.0
    ensures TicksAtMostApart(GrowingRun(first, second, wait), wait, wait)
  {
    var steps := GrowingRun(first, second, wait);
    TimesAddUp(first, second, wait);
    ClockIs(steps, Times(wait), wait);
    forall i, j | 0 <= i <= j <= 13 && NoTick(steps, i, j)
      ensures Times(wait)[j] - Times(wait)[i] <= wait
    {
      assert steps[5].Tick? && steps[9].Tick? && steps[11].Tick?;
      assert !(i <= 5 < j) && !(i <= 9 < j) && !(i <= 11 < j);
    }
  }

  // ---------------------------------------------------------------- the shape of shrunk areas

  // The step neither unregisters the area, nor ticks while it is not planned as shrunk.
  predicate HoldsShape(s: State, step: Step, key: AreaKey, timeout: real) {
    && step != StopCpu && step != ConfirmShape(key) && step != Forget(key)
    && (step.Tick? && s.running ==>
          key !in step.faults && SituationOf(s, timeout).Publishable(key) && s.areas[key].status == Shrunk)
  }

  // A tick leaves a planned shrunk area at the larger of its registered and its new size, with
  // zeros past the data read.
  lemma {:induction false} TickHoldsTheShape(s: State, faults: set<AreaKey>, key: AreaKey, timeout: real)
    requires s.running && ViewSound(s.view, s.running) && HoldsShape(s, Tick(faults), key, timeout)
    requires s.areas[key].size <= MAX_REGISTERED_BYTES
    ensures key in Next(s, Tick(faults), timeout).view
    ensures var after, before := Next(s, Tick(faults), timeout).view[key], SizeIn(SizesOf(s.view), key);
            && |after| == (if before > s.areas[key].size then before else s.areas[key].size)
            && forall i :: |s.snapshots[key].data| <= i < |after| ==> after[i] == 0
  {
    var plan := PlanOf(s, timeout);
    assert key in plan && plan[key] == SituationOf(s, timeout).PlannedData(key);
  }

  lemma {:induction false} ShapeStep(s: State, step: Step, key: AreaKey, timeout: real)
    requires ViewSound(s.view, s.running) && HoldsShape(s, step, key, timeout)
    ensures SizeIn(SizesOf(Next(s, step, timeout).view), key) >= SizeIn(SizesOf(s.view), key)
  {
    if step.Tick? && s.running {
      var plan := PlanOf(s, timeout);
      assert key in plan && plan[key] == SituationOf(s, timeout).PlannedData(key);
    }
  }

  // Over any stretch of a run in which an area stays shrunk and planned, and nobody confirms its
  // new size, its registered size never drops.
  lemma {:induction false} ShrunkShapeNeverDrops(steps: seq<Step>, i: nat, j: nat, key: AreaKey, timeout: real)
    requires i <= j <= |steps|
    requires forall m :: i <= m < j ==> HoldsShape(At(steps, m, timeout), steps[m], key, timeout)
    ensures SizeIn(SizesOf(At(steps, i, timeout).view), key) <= SizeIn(SizesOf(At(steps, j, timeout).view), key)
    decreases j
  {
    if i < j {
      ShrunkShapeNeverDrops(steps, i, j - 1, key, timeout);
      AtNext(steps, j - 1, timeout);
      ViewSoundInRun(steps, j - 1, timeout);
      ShapeStep(At(steps, j - 1, timeout), steps[j - 1], key, timeout);
    }
  }
}
