// The sync task driving the virtual CPU.
module SyncTask {
  import opened Bytes
  import opened Areas
  import opened DataStore
  import opened VirtualPlc
  import opened Sync

  // One planned area published: `fails` is the server refusing to register it.
  function AfterEntry(view: View, key: AreaKey, data: seq<Byte>, fails: bool): View {
    if !Registrable(|data|) then view
    else if (key in view && |view[key]| == |data|) || !fails then view[key := data]
    else view - {key}
  }

  // The keys in `done` are as after the tick, the others as before.
  ghost predicate MidTick(view: View, start: View, plan: View, faults: set<AreaKey>, done: set<AreaKey>) {
    && (forall k :: k in done ==> k in plan && (k in view <==> Served(start, plan, faults, k)))
    && (forall k :: k in done && k in view && Served(start, plan, faults, k) ==>
          view[k] == ServedContent(start, plan, faults, k))
    && (forall k :: k !in done ==> (k in view <==> k in start) && (k in view ==> view[k] == start[k]))
  }

  lemma {:induction false} OneMoreEntry(view: View, start: View, plan: View, faults: set<AreaKey>, done: set<AreaKey>,
                                        key: AreaKey)
    requires MidTick(view, start, plan, faults, done) && key in plan && key !in done
    ensures MidTick(AfterEntry(view, key, plan[key], key in faults), start, plan, faults, done + {key})
  {
  }

  // Withdrawing first changes nothing for planned keys.
  lemma {:induction false} AllEntries(view: View, before: View, plan: View, faults: set<AreaKey>)
    requires MidTick(view, Withdrawn(before, plan), plan, faults, plan.Keys)
    ensures view == AfterTick(before, plan, faults)
  {
    var start := Withdrawn(before, plan);
    assert forall k :: k in plan ==> (k in start <==> k in before) && (k in before ==> start[k] == before[k]);
    assert view.Keys == AfterTick(before, plan, faults).Keys;
  }

  class AreaSyncTask {
    const db: Database
    const store: Store
    const plc: VirtualPlcServer
    const timeout: real

    constructor (db: Database, store: Store, plc: VirtualPlcServer, staleTimeout: real)
      ensures this.db == db && this.store == store && this.plc == plc
      ensures timeout == if staleTimeout > 1.0 then staleTimeout else 1.0
    {
      this.db, this.store, this.plc := db, store, plc;
      timeout := if staleTimeout > 1.0 then staleTimeout else 1.0;
    }

    // What a tick at time `now` decides on.
    ghost function Situation(now: real): Sync.Situation
      reads this, db, store, plc, BuffersOf(plc.registrations)
    {
      Sync.Situation(db.connections, db.areas, store.snapshots, SizesOf(plc.Contents()), timeout, now)
    }

    method Withdraw(planned: set<AreaKey>)
      requires plc.Valid()
      modifies plc`registrations, plc.ServerObject()
      ensures plc.Valid() && plc.server == old(plc.server)
      ensures plc.Contents() == Kept(old(plc.Contents()), planned)
      ensures BuffersOf(plc.registrations) <= old(BuffersOf(plc.registrations))
      ensures plc.registrations.Keys <= planned
      ensures old(plc.Agrees()) ==> plc.Agrees()
    {
      ghost var before := plc.Contents();
      var todo := plc.registrations.Keys - planned;
      AllKept(before, planned + todo);
      while todo != {}
        invariant plc.Valid() && plc.server == old(plc.server)
        invariant plc.registrations.Keys <= planned + todo
        invariant plc.Contents() == Kept(before, planned + todo) && todo !! planned
        invariant BuffersOf(plc.registrations) <= old(BuffersOf(plc.registrations))
        invariant old(plc.Agrees()) ==> plc.Agrees()
        decreases todo
      {
        var key :| key in todo;
        var _ := plc.Unregister(key);
        KeptOneLess(before, planned, todo, key);
        todo := todo - {key};
      }
      assert planned + todo == planned;
    }

    method PublishEntry(entry: PlannedArea, fails: bool)
      requires plc.Valid() && plc.server != null && entry.size == |entry.data|
      modifies plc`registrations, plc.ServerObject(), BuffersOf(plc.registrations)
      ensures plc.Valid() && plc.server == old(plc.server)
      ensures plc.Contents() == AfterEntry(old(plc.Contents()), entry.key, entry.data, fails)
      ensures fresh(BuffersOf(plc.registrations) - old(BuffersOf(plc.registrations)))
      ensures old(plc.Agrees()) && SlotsDistinct(old(plc.registrations).Keys + {entry.key}) ==> plc.Agrees()
    {
      EntrySteps(plc.Contents(), entry.key, entry.data, fails);
      var registered := plc.RegisteredSize(entry.key);
      if registered != entry.size {
        var ok := plc.Register(entry.key, entry.size, entry.data, fails);
        if !ok {
          return;
        }
      }
      var _ := plc.Update(entry.key, entry.data);
    }

    // Makes it so: what is not planned goes, what is planned is registered and refreshed.
    method Reconcile(list: seq<PlannedArea>, planned: set<AreaKey>, faults: set<AreaKey>, ghost plan: View)
      requires plc.Valid() && plc.server != null && Lists(list, plan, plan.Keys) && planned == plan.Keys
      modifies plc`registrations, plc.ServerObject(), BuffersOf(plc.registrations)
      ensures plc.Valid() && plc.server == old(plc.server)
      ensures plc.Contents() == AfterTick(old(plc.Contents()), plan, faults)
      ensures old(plc.Agrees()) && SlotsDistinct(plan.Keys) ==> plc.Agrees()
      ensures fresh(BuffersOf(plc.registrations) - old(BuffersOf(plc.registrations)))
    {
      ghost var before := plc.Contents();
      Withdraw(planned);
      PublishAll(list, faults, plan, plc.Contents());
      AllEntries(plc.Contents(), before, plan, faults);
    }

    // The plan for now, from the current configuration, reads and registered sizes.
    method Decide(now: real, ghost plan: View) returns (list: seq<PlannedArea>, planned: set<AreaKey>, unexposed: nat)
      requires plan == Situation(now).Plan()
      ensures Lists(list, plan, plan.Keys) && planned == plan.Keys
      ensures unexposed == |Unexposed(db.connections, db.areas)|
    {
      var sizes := map k | k in plc.registrations :: plc.registrations[k].buffer.Length as nat;
      var situation := Sync.Situation(db.connections, db.areas, store.snapshots, sizes, timeout, now);
      assert situation == Situation(now);
      list, unexposed := BuildPlan(situation);
      planned := KeysOf(list);
      PlannedKeys(list, plan);
    }

    // One tick. Nothing happens while the virtual CPU is stopped. `faults` are the keys whose
    // registration the server refuses.
    method SyncOnce(now: real, faults: set<AreaKey>) returns (ran: bool)
      requires plc.Valid()
      modifies plc`registrations, plc.ServerObject(), BuffersOf(plc.registrations)
      ensures plc.Valid() && plc.server == old(plc.server) && (ran <==> plc.server != null)
      ensures plc.Contents() == if plc.server == null then old(plc.Contents())
                                else AfterTick(old(plc.Contents()), old(Situation(now)).Plan(), faults)
      ensures old(plc.Agrees()) && SlotsDistinct(old(Situation(now)).Plan().Keys) ==> plc.Agrees()
      ensures fresh(BuffersOf(plc.registrations) - old(BuffersOf(plc.registrations)))
    {
      ran := plc.server != null;
      if !ran {
        return;
      }
      ghost var plan := Situation(now).Plan();
      var list, planned, _ := Decide(now, plan);
      Reconcile(list, planned, faults, plan);
    }

    // The first n entries of the list are published; nothing unplanned is registered.
    ghost predicate Publishing(list: seq<PlannedArea>, n: nat, plan: View, start: View, faults: set<AreaKey>)
      requires n <= |list|
      reads plc, BuffersOf(plc.registrations)
    {
      && plc.Valid() && plc.server != null && plc.registrations.Keys <= plan.Keys
      && MidTick(plc.Contents(), start, plan, faults, KeysOf(list[..n]))
    }

    method PublishNext(list: seq<PlannedArea>, n: nat, faults: set<AreaKey>, ghost plan: View, ghost start: View)
      requires Lists(list, plan, plan.Keys) && n < |list| && Publishing(list, n, plan, start, faults)
      modifies plc`registrations, plc.ServerObject(), BuffersOf(plc.registrations)
      ensures Publishing(list, n + 1, plan, start, faults) && plc.server == old(plc.server)
      ensures fresh(BuffersOf(plc.registrations) - old(BuffersOf(plc.registrations)))
      ensures old(plc.Agrees()) && SlotsDistinct(plan.Keys) ==> plc.Agrees()
    {
      NextKey(list, n);
      if SlotsDistinct(plan.Keys) {
        FewerSlots(plan.Keys, plc.registrations.Keys + {list[n].key});
      }
      OneMoreEntry(plc.Contents(), start, plan, faults, KeysOf(list[..n]), list[n].key);
      PublishEntry(list[n], list[n].key in faults);
      assert plc.registrations.Keys == plc.Contents().Keys;
    }

    method PublishAll(list: seq<PlannedArea>, faults: set<AreaKey>, ghost plan: View, ghost start: View)
      requires plc.Valid() && plc.server != null && start == plc.Contents() && start.Keys <= plan.Keys
      requires Lists(list, plan, plan.Keys)
      modifies plc`registrations, plc.ServerObject(), BuffersOf(plc.registrations)
      ensures plc.Valid() && plc.server == old(plc.server)
      ensures MidTick(plc.Contents(), start, plan, faults, plan.Keys)
      ensures old(plc.Agrees()) && SlotsDistinct(plan.Keys) ==> plc.Agrees()
      ensures fresh(BuffersOf(plc.registrations) - old(BuffersOf(plc.registrations)))
    {
      ghost var first := BuffersOf(plc.registrations);
      assert plc.registrations.Keys == plc.Contents().Keys;
      for n := 0 to |list|
        invariant Publishing(list, n, plan, start, faults) && plc.server == old(plc.server)
        invariant fresh(BuffersOf(plc.registrations) - first)
        invariant old(plc.Agrees()) && SlotsDistinct(plan.Keys) ==> plc.Agrees()
      {
        ghost var buffers := BuffersOf(plc.registrations);
        PublishNext(list, n, faults, plan, start);
        DifferenceViaMiddle(BuffersOf(plc.registrations), buffers, first);
      }
      assert list[..|list|] == list;
      PlannedKeys(list, plan);
    }
  }

  lemma {:induction false} DifferenceViaMiddle<T>(after: set<T>, middle: set<T>, before: set<T>)
    ensures after - before <= (after - middle) + (middle - before)
  {
  }

  function KeysOf(list: seq<PlannedArea>): set<AreaKey> {
    set i | 0 <= i < |list| :: list[i].key
  }

  lemma {:induction false} PlannedKeys(list: seq<PlannedArea>, plan: View)
    requires Lists(list, plan, plan.Keys)
    ensures KeysOf(list) == plan.Keys
  {
    forall k | k in plan
      ensures k in KeysOf(list)
    {
      var i :| 0 <= i < |list| && list[i].key == k;
    }
  }

  lemma {:induction false} NextKey(list: seq<PlannedArea>, n: nat)
    requires n < |list| && forall i, j :: 0 <= i < j < |list| ==> list[i].key != list[j].key
    ensures list[n].key !in KeysOf(list[..n])
    ensures KeysOf(list[..n + 1]) == KeysOf(list[..n]) + {list[n].key}
  {
    forall k | k in KeysOf(list[..n + 1])
      ensures k in KeysOf(list[..n]) + {list[n].key}
    {
      var i :| 0 <= i < n + 1 && list[..n + 1][i].key == k;
      if i < n {
        assert list[..n][i].key == k;
      }
    }
    forall k | k in KeysOf(list[..n])
      ensures k in KeysOf(list[..n + 1])
    {
      var i :| 0 <= i < n && list[..n][i].key == k;
      assert list[..n + 1][i].key == k;
    }
    assert list[..n + 1][n] == list[n];
  }

  function Kept(before: View, keys: set<AreaKey>): View {
    map k | k in before && k in keys :: before[k]
  }

  lemma {:induction false} AllKept(before: View, keys: set<AreaKey>)
    requires before.Keys <= keys
    ensures Kept(before, keys) == before
  {
  }

  lemma {:induction false} KeptOneLess(before: View, planned: set<AreaKey>, todo: set<AreaKey>, key: AreaKey)
    requires key in todo && todo !! planned
    ensures Kept(before, planned + todo) - {key} == Kept(before, planned + (todo - {key}))
  {
  }

  // Registering when the size differs, then updating unless that was refused.
  lemma {:induction false} EntrySteps(view: View, key: AreaKey, data: seq<Byte>, fails: bool)
    requires forall k :: k in view ==> Registrable(|view[k]|)
    ensures var registered := AfterRegister(view, key, |data|, data, true, fails);
            AfterEntry(view, key, data, fails) ==
              if (if key in view then |view[key]| else 0) == |data| then AfterUpdate(view, key, data)
              else if Registrable(|data|) && key in registered then AfterUpdate(registered, key, data)
              else registered
  {
    assert Fit(data, |data|) == data;
    var registered := AfterRegister(view, key, |data|, data, true, fails);
    if Registrable(|data|) && key in registered && key in view && |view[key]| != |data| {
      assert registered[key := data] == view[key := data];
    }
  }
}
