// The gateway's objects carrying out the steps of the bridge: what an operator, a rescan, a poll
// or a tick does to them is exactly the state machine's step.
module Gateway {
  import opened Bytes
  import opened Areas
  import opened Discovery
  import opened DataStore
  import opened VirtualPlc
  import opened Bridge
  import opened SyncTask
  import PlcClient

  class Runtime {
    const db: Database
    const store: Store
    const plc: VirtualPlcServer
    const task: AreaSyncTask

    constructor (db: Database, store: Store, plc: VirtualPlcServer, task: AreaSyncTask)
      requires task.db == db && task.store == store && task.plc == plc
      ensures this.db == db && this.store == store && this.plc == plc && this.task == task && Wired()
    {
      this.db, this.store, this.plc, this.task := db, store, plc, task;
    }

    ghost predicate Wired() {
      task.db == db && task.store == store && task.plc == plc
    }

    ghost function StateAt(now: real): State
      reads db, store, plc, BuffersOf(plc.registrations)
    {
      State(now, db.connections, db.areas, store.snapshots, plc.Contents(), plc.server != null)
    }

    method SetExposure(key: AreaKey, exposed: bool)
      modifies db`areas
      ensures forall now :: StateAt(now) == Next(old(StateAt(now)), Expose(key, exposed), task.timeout)
      ensures db.areas.Keys == old(db.areas).Keys
      ensures forall k :: k in db.areas ==>
                db.areas[k] == if k == key then old(db.areas)[k].(exposed := exposed) else old(db.areas)[k]
    {
      if key in db.areas {
        db.SetAreaExposed(key, exposed);
      }
    }

    // The operator accepts a changed size: the area is unregistered, to be registered anew.
    method AcceptShape(key: AreaKey)
      requires plc.Valid()
      modifies db`areas, plc`registrations, plc.ServerObject()
      ensures plc.Valid() && (old(plc.Agrees()) ==> plc.Agrees())
      ensures forall now :: StateAt(now) == Next(old(StateAt(now)), ConfirmShape(key), task.timeout)
      ensures BuffersOf(plc.registrations) <= old(BuffersOf(plc.registrations))
    {
      if key in db.areas {
        db.SetAreaStatus(key, Ok);
        var _ := plc.Unregister(key);
      }
    }

    method ForgetArea(key: AreaKey)
      requires plc.Valid()
      modifies db`areas, store, plc`registrations, plc.ServerObject()
      ensures plc.Valid() && (old(plc.Agrees()) ==> plc.Agrees())
      ensures forall now :: StateAt(now) == Next(old(StateAt(now)), Forget(key), task.timeout)
      ensures BuffersOf(plc.registrations) <= old(BuffersOf(plc.registrations))
    {
      if key in db.areas {
        ghost var s := StateAt(0.0);
        var _ := plc.Unregister(key);
        store.Drop(key);
        db.DeleteArea(key);
        assert StateAt(0.0) == State(0.0, s.connections, s.areas - {key}, s.snapshots - {key}, s.view - {key},
                                     s.running);
        forall now
          ensures StateAt(now) == Next(old(StateAt(now)), Forget(key), task.timeout)
        {
          assert old(StateAt(now)) == s.(now := now) && StateAt(now) == StateAt(0.0).(now := now);
          ForgetStep(s.(now := now), key, task.timeout);
        }
      }
    }

    // A discovery pass over one connection, after which snapshots of its areas that are no longer
    // configured go.
    method RunDiscovery(connection: nat, reported: seq<Discovered>, anyError: bool)
      modifies db`areas, store
      ensures forall now :: StateAt(now) == Next(old(StateAt(now)), Rescan(connection, reported, anyError),
                                                 task.timeout)
    {
      if connection in db.connections {
        ghost var s := StateAt(0.0);
        var mirror := db.connections[connection].mode == MirrorAll;
        var _ := ApplyDiscovery(db, connection, mirror, reported, anyError);
        var configured := set k | k in db.areas && k.connection == connection;
        var others := set k | k in store.snapshots && k.connection != connection;
        RetainedSame(s, db.areas, connection, configured + others);
        var _ := store.Retain(configured + others);
        assert plc.Contents() == s.view;
        forall now
          ensures StateAt(now) == Next(old(StateAt(now)), Rescan(connection, reported, anyError), task.timeout)
        {
          assert old(StateAt(now)) == s.(now := now);
          RescanStep(s, now, connection, reported, anyError, task.timeout);
        }
      }
    }

    // What a poll of the whole area brought; a read this large would have been refused.
    method Polled(key: AreaKey, data: seq<Byte>, now: real)
      modifies store
      ensures StateAt(now) == Next(old(StateAt(now)), ReadOk(key, data), task.timeout)
    {
      if key in db.areas && db.areas[key].size > PlcClient.MAX_AREA_BYTES {
        store.PublishFailure(key);
      } else {
        store.Publish(key, data, now);
      }
    }

    method Poll(key: AreaKey, link: PlcClient.Plc, now: real) returns (reply: PlcClient.ReadResult)
      requires key in db.areas
      modifies store
      ensures reply == PlcClient.Read(link, 0, db.areas[key].size)
      ensures StateAt(now)
              == Next(old(StateAt(now)), if reply.Ok? then ReadOk(key, reply.bytes) else ReadFailed(key), task.timeout)
    {
      reply := PlcClient.ReadArea(link, 0, db.areas[key].size);
      if reply.Ok? {
        Polled(key, reply.bytes, now);
      } else {
        PollFailed(key);
      }
    }

    method PollFailed(key: AreaKey)
      modifies store
      ensures forall now :: StateAt(now) == Next(old(StateAt(now)), ReadFailed(key), task.timeout)
    {
      store.PublishFailure(key);
    }

    method SyncTick(now: real, faults: set<AreaKey>)
      requires Wired() && plc.Valid()
      modifies plc`registrations, plc.ServerObject(), BuffersOf(plc.registrations)
      ensures plc.Valid() && plc.server == old(plc.server)
      ensures StateAt(now) == Next(old(StateAt(now)), Tick(faults), task.timeout)
      ensures old(plc.Agrees()) && SlotsDistinct(old(PlanOf(StateAt(now), task.timeout)).Keys) ==> plc.Agrees()
      ensures fresh(BuffersOf(plc.registrations) - old(BuffersOf(plc.registrations)))
    {
      var _ := task.SyncOnce(now, faults);
    }

    method StartServer(created: Snap7)
      requires plc.Valid() && created != plc.server && created.table == map[]
      modifies plc`server
      ensures plc.Valid() && (old(plc.Agrees()) ==> plc.Agrees())
      ensures plc.server == if old(plc.server) == null then created else old(plc.server)
      ensures forall now :: StateAt(now) == Next(old(StateAt(now)), StartCpu, task.timeout)
    {
      if plc.server == null {
        plc.Start(created);
      }
    }

    method SaveConnection(connection: nat, settings: Connection)
      modifies db`connections
      ensures forall now :: StateAt(now) == Next(old(StateAt(now)), Configure(connection, settings), task.timeout)
    {
      db.SaveConnection(connection, settings);
    }

    method DropStored(connection: nat)
      modifies store
      ensures forall now :: StateAt(now) == Next(old(StateAt(now)), DropReads(connection), task.timeout)
    {
      store.DropConnection(connection);
    }

    method RemoveConnection(connection: nat)
      modifies db
      ensures forall now :: StateAt(now) == Next(old(StateAt(now)), DeleteConnection(connection), task.timeout)
    {
      db.DeleteConnection(connection);
    }

    method StopServer()
      requires plc.Valid()
      modifies plc, plc.ServerObject()
      ensures plc.Valid() && plc.Agrees()
      ensures forall now :: StateAt(now) == Next(old(StateAt(now)), StopCpu, task.timeout)
    {
      plc.Stop();
    }

    // One step on the live objects.
    method Perform(step: Step, now: real)
      requires Wired() && plc.Valid()
      modifies db, store, plc, plc.ServerObject(), BuffersOf(plc.registrations)
      ensures plc.Valid() && StateAt(now + Seconds(step)) == Next(old(StateAt(now)), step, task.timeout)
      ensures old(plc.Agrees()) && TicksApart(old(StateAt(now)), step) ==> plc.Agrees()
      ensures plc.server == old(plc.server) || plc.server == null || fresh(plc.server)
      ensures fresh(BuffersOf(plc.registrations) - old(BuffersOf(plc.registrations)))
    {
      match step
      case Pass(_) =>
      case ReadOk(key, data) => Polled(key, data, now);
      case ReadFailed(key) => PollFailed(key);
      case Rescan(connection, reported, anyError) => RunDiscovery(connection, reported, anyError);
      case Expose(key, exposed) => SetExposure(key, exposed);
      case ConfirmShape(key) => AcceptShape(key);
      case Forget(key) => ForgetArea(key);
      case Configure(connection, settings) => SaveConnection(connection, settings);
      case DropReads(connection) => DropStored(connection);
      case DeleteConnection(connection) => RemoveConnection(connection);
      case Tick(faults) => SyncTick(now, faults);
      case StartCpu =>
        var created := new Snap7();
        StartServer(created);
      case StopCpu => StopServer();
    }

    // A tick does not plan the same area of two connections.
    ghost predicate TicksApart(s: State, step: Step) {
      step.Tick? ==> SlotsDistinct(PlanOf(s, task.timeout).Keys)
    }

    ghost predicate AlwaysApart(steps: seq<Step>) {
      forall i :: 0 <= i < |steps| ==> TicksApart(At(steps, i, task.timeout), steps[i])
    }

    // The objects, new at first, have come through the first n steps.
    ghost predicate Through(steps: seq<Step>, n: nat, now: real)
      requires n <= |steps|
      reads db, store, plc, plc.ServerObject(), BuffersOf(plc.registrations)
    {
      && Wired() && plc.Valid() && StateAt(now) == At(steps, n, task.timeout)
      && (AlwaysApart(steps) ==> plc.Agrees())
    }

    method PerformNext(steps: seq<Step>, n: nat, now: real)
      requires n < |steps| && Through(steps, n, now)
      modifies db, store, plc, plc.ServerObject(), BuffersOf(plc.registrations)
      ensures Through(steps, n + 1, now + Seconds(steps[n]))
      ensures plc.server == old(plc.server) || plc.server == null || fresh(plc.server)
      ensures fresh(BuffersOf(plc.registrations) - old(BuffersOf(plc.registrations)))
    {
      AtNext(steps, n, task.timeout);
      Perform(steps[n], now);
    }

    // Any run, on new objects, is the state machine's run: what holds of every run of it holds of
    // them. The slot table stays the image of the registrations.
    method PerformAll(steps: seq<Step>) returns (now: real)
      requires Wired() && plc.Valid() && plc.server == null && StateAt(0.0) == Initial
      modifies db, store, plc
      ensures plc.Valid() && StateAt(now) == Run(steps, task.timeout)
      ensures AlwaysApart(steps) ==> plc.Agrees()
    {
      now := 0.0;
      assert steps[..0] == [];
      for n := 0 to |steps|
        invariant Through(steps, n, now)
        invariant plc.server != null ==> fresh(plc.server)
        invariant fresh(BuffersOf(plc.registrations))
      {
        ghost var buffers := BuffersOf(plc.registrations);
        PerformNext(steps, n, now);
        assert BuffersOf(plc.registrations) <= buffers + (BuffersOf(plc.registrations) - buffers);
        now := now + Seconds(steps[n]);
      }
      assert steps[..|steps|] == steps;
    }

    // What a client reads after any run - right after a tick, say: the served bytes of the area it
    // looks for, and nothing when none is served.
    method ReadAfterAll(steps: seq<Step>, slot: Slot) returns (data: seq<Byte>, found: bool)
      requires Wired() && plc.Valid() && plc.server == null && StateAt(0.0) == Initial && AlwaysApart(steps)
      modifies db, store, plc
      ensures found <==> exists k :: k in Run(steps, task.timeout).view && ClientMeans(slot, k.area)
      ensures forall k :: k in Run(steps, task.timeout).view && ClientMeans(slot, k.area) ==>
                data == Run(steps, task.timeout).view[k]
    {
      var now := PerformAll(steps);
      ghost var view := Run(steps, task.timeout).view;
      assert plc.Contents() == view;
      data, found := plc.ClientRead(slot);
    }
  }

  lemma {:induction false} ForgetStep(s: State, key: AreaKey, timeout: real)
    requires key in s.areas
    ensures Next(s, Forget(key), timeout)
            == State(s.now, s.connections, s.areas - {key}, s.snapshots - {key}, s.view - {key}, s.running)
  {
  }

  lemma {:induction false} RescanStep(s: State, now: real, connection: nat, reported: seq<Discovered>, anyError: bool,
                                      timeout: real)
    requires connection in s.connections
    ensures var areas := AfterDiscovery(s.areas, connection, s.connections[connection].mode == MirrorAll, reported,
                                        anyError);
            Next(s.(now := now), Rescan(connection, reported, anyError), timeout)
            == State(now, s.connections, areas, Retained(s.snapshots, KeptKeys(s, areas, connection)), s.view,
                     s.running)
  {
    var areas := AfterDiscovery(s.areas, connection, s.connections[connection].mode == MirrorAll, reported, anyError);
    assert KeptKeys(s.(now := now), areas, connection) == KeptKeys(s, areas, connection);
  }

  lemma {:induction false} RetainedSame(s: State, areas: AreaTable, connection: nat, keys: set<AreaKey>)
    requires keys == (set k | k in areas && k.connection == connection)
             + (set k | k in s.snapshots && k.connection != connection)
    ensures Retained(s.snapshots, keys) == Retained(s.snapshots, KeptKeys(s, areas, connection))
  {
  }
}
