// The connection manager: one polling worker for every enabled connection, reconciled with the
// configuration in place.
module Manager {
  import opened Areas
  import opened DataStore

  datatype Settings = Settings(
    host: string, rack: nat, slot: nat, tcpPort: nat, connectionType: nat, timeoutMs: nat,
    enabled: bool, pollIntervalMs: nat,
    name: string, exposureMode: ExposureMode, writeEnabled: bool,
    readInputs: bool, readOutputs: bool, readMerkers: bool,
    maxInputBytes: nat, maxOutputBytes: nat, maxMerkerBytes: nat)

  // What cannot be changed without opening the link again.
  datatype Signature = Signature(
    host: string, rack: nat, slot: nat, tcpPort: nat, connectionType: nat, timeoutMs: nat,
    enabled: bool, pollIntervalMs: nat)

  function RestartSignature(c: Settings): Signature {
    Signature(c.host, c.rack, c.slot, c.tcpPort, c.connectionType, c.timeoutMs, c.enabled, c.pollIntervalMs)
  }

  // What a live link takes over as it is: the name, who may see and write what, and which process
  // areas are read how far.
  function Edited(c: Settings, like: Settings): Settings {
    c.(name := like.name, exposureMode := like.exposureMode, writeEnabled := like.writeEnabled,
       readInputs := like.readInputs, readOutputs := like.readOutputs, readMerkers := like.readMerkers,
       maxInputBytes := like.maxInputBytes, maxOutputBytes := like.maxOutputBytes,
       maxMerkerBytes := like.maxMerkerBytes)
  }

  predicate SameLink(a: Settings, b: Settings) {
    RestartSignature(a) == RestartSignature(b)
  }

  // Those and no others can be edited under a live link.
  lemma {:induction false} SameLinkIff(a: Settings, b: Settings)
    ensures SameLink(a, b) <==> b == Edited(a, b)
  {
  }

  class Worker {
    var connection: Settings
    var running: bool

    constructor (connection: Settings)
      ensures this.connection == connection && running
    {
      this.connection, running := connection, true;
    }

    method Stop()
      modifies this`running
      ensures !running
    {
      running := false;
    }
  }

  type Workers = map<nat, Worker>

  type Configuration = map<nat, Settings>

  // Snapshots of the connections gone, but for those still to do, are dropped.
  function StillThere(snapshots: Snapshots, gone: set<nat>, todo: set<nat>): Snapshots {
    map k | k in snapshots && (k.connection !in gone || k.connection in todo) :: snapshots[k]
  }

  lemma {:induction false} OneMoreDeleted(snapshots: Snapshots, gone: set<nat>, todo: set<nat>, id: nat)
    requires id in todo && todo <= gone
    ensures WithoutSnapshotsOf(StillThere(snapshots, gone, todo), id) == StillThere(snapshots, gone, todo - {id})
  {
  }

  function Only(workers: Workers, ids: set<nat>): Workers {
    map k | k in workers && k in ids :: workers[k]
  }

  lemma {:induction false} OneFewer(workers: Workers, kept: set<nat>, todo: set<nat>, id: nat)
    requires id in todo && todo <= workers.Keys - kept
    ensures Only(workers, kept + todo) - {id} == Only(workers, kept + (todo - {id}))
    ensures id in Only(workers, kept + todo)
  {
  }

  lemma {:induction false} NoneDeleted(snapshots: Snapshots, workers: Workers, kept: set<nat>)
    ensures var gone := workers.Keys - kept;
            Only(workers, kept + gone) == workers && StillThere(snapshots, gone, gone) == snapshots
  {
  }

  ghost function Objects(workers: Workers): set<object> {
    set k | k in workers :: workers[k]
  }

  ghost predicate Distinct(workers: Workers) {
    forall a, b :: a in workers && b in workers && a != b ==> workers[a] != workers[b]
  }

  class ConnectionManager {
    var workers: Workers
    var signatures: map<nat, Signature>
    var started: bool
    const store: Store

    constructor (store: Store)
      ensures Valid() && !started && workers == map[] && this.store == store
    {
      workers, signatures, started := map[], map[], false;
      this.store := store;
    }

    // Every worker runs on an enabled connection whose signature was noted, and no object serves
    // two connections.
    ghost predicate Valid()
      reads this, Objects(workers)
    {
      && workers.Keys == signatures.Keys
      && (forall k :: k in workers ==> Tracks(k))
      && Distinct(workers)
    }

    ghost predicate Tracks(id: nat)
      requires id in workers
      reads this, workers[id]
    {
      && workers[id].running && workers[id].connection.enabled
      && id in signatures && signatures[id] == RestartSignature(workers[id].connection)
    }

    // One running worker for exactly the enabled connections, each with its current settings.
    ghost predicate UpToDate(desired: Configuration)
      reads this, Objects(workers)
    {
      && (forall k :: k in workers <==> k in desired && desired[k].enabled)
      && forall k :: k in workers && k in desired ==> workers[k].connection == desired[k]
    }

    method StartWorker(id: nat, connection: Settings)
      requires Valid() && id !in workers && connection.enabled
      modifies this`workers, this`signatures
      ensures Valid() && id in workers && fresh(workers[id]) && workers[id].connection == connection
      ensures workers == old(workers)[id := workers[id]]
    {
      var worker := new Worker(connection);
      workers, signatures := workers[id := worker], signatures[id := RestartSignature(connection)];
    }

    method StopWorker(id: nat)
      requires Valid() && id in workers
      modifies this`workers, this`signatures, (var w: Worker := workers[id]; w)`running
      ensures Valid() && workers == old(workers) - {id} && !old(workers[id]).running
    {
      var worker := workers[id];
      workers, signatures := workers - {id}, signatures - {id};
      worker.Stop();
    }

    // One connection of the configuration: its worker is kept, the same object with the same
    // link, exactly when it has one and its signature did not change.
    method Reconcile(id: nat, connection: Settings)
      requires Valid()
      modifies this`workers, this`signatures, if id in workers then {workers[id]} else {}
      ensures Valid() && (id in workers <==> connection.enabled)
      ensures forall k :: k != id ==>
                && (k in workers <==> k in old(workers))
                && (k in workers ==> workers[k] == old(workers)[k])
      ensures id in workers ==> workers[id].connection == connection
      ensures id in workers && !(id in old(workers) && workers[id] == old(workers)[id]) ==> fresh(workers[id])
      ensures id in old(workers) ==>
                ((id in workers && workers[id] == old(workers)[id])
                 <==> SameLink(old(workers[id].connection), connection))
      ensures id in old(workers) && !(id in workers && workers[id] == old(workers)[id]) ==> !old(workers[id]).running
    {
      if id !in workers {
        if connection.enabled {
          StartWorker(id, connection);
        }
      } else if !connection.enabled {
        StopWorker(id);
      } else if signatures[id] != RestartSignature(connection) {
        StopWorker(id);
        StartWorker(id, connection);
      } else {
        workers[id].connection := connection;
      }
    }

    // Whether the worker that served the connection at the start still does.
    ghost predicate Kept(start: Workers, id: nat)
      reads this
    {
      id in start && id in workers && workers[id] == start[id]
    }

    // The connection was reconciled: its worker was kept exactly when its link did not change,
    // and was stopped if not.
    ghost predicate Settled(start: Workers, links: Configuration, desired: Configuration, id: nat)
      requires id in desired && start.Keys <= links.Keys
      reads this, Objects(workers), Objects(start)
    {
      && (id in workers <==> desired[id].enabled)
      && (id in workers ==> workers[id].connection == desired[id])
      && (id in start ==> (Kept(start, id) <==> SameLink(links[id], desired[id])))
      && (id in start && !Kept(start, id) ==> !start[id].running)
    }

    ghost predicate Untouched(start: Workers, links: Configuration, id: nat)
      requires start.Keys <= links.Keys
      reads this, Objects(workers)
    {
      && (id in workers <==> id in start)
      && (id in workers ==> workers[id] == start[id] && workers[id].connection == links[id])
    }

    ghost predicate Reconciled(start: Workers, links: Configuration, desired: Configuration, todo: set<nat>)
      requires start.Keys <= links.Keys
      reads this, Objects(workers), Objects(start)
    {
      && Valid() && workers.Keys <= desired.Keys
      && (forall k :: k in todo ==> Untouched(start, links, k))
      && forall k :: k in desired && k !in todo ==> Settled(start, links, desired, k)
    }

    // Nothing about the connection's worker, present or at the start, has changed.
    twostate predicate Stays(start: Workers, id: nat)
      reads this, Objects(workers), Objects(start)
    {
      && (id in workers <==> id in old(workers))
      && (id in workers ==> workers[id] == old(workers[id]) && workers[id].connection == old(workers[id].connection))
      && (id in start ==> start[id].running == old(start[id].running))
    }

    method ReconcileNext(desired: Configuration, id: nat, ghost start: Workers, ghost links: Configuration,
                         ghost todo: set<nat>)
      requires id in todo && todo <= desired.Keys && start.Keys <= links.Keys && Distinct(start)
      requires Reconciled(start, links, desired, todo)
      modifies this`workers, this`signatures, if id in workers then {workers[id]} else {}
      ensures Reconciled(start, links, desired, todo - {id})
      ensures forall k :: k in workers && !Kept(start, k) ==>
                || fresh(workers[k])
                || (k in old(workers) && workers[k] == old(workers)[k] && !old(Kept(start, k)))
    {
      assert Untouched(start, links, id);
      Reconcile(id, desired[id]);
      forall k | k != id
        ensures old(Untouched(start, links, k)) ==> Untouched(start, links, k)
        ensures k in desired && old(Settled(start, links, desired, k)) ==> Settled(start, links, desired, k)
      {
        assert Stays(start, k);
      }
    }

    method ReconcileAll(desired: Configuration, ghost links: Configuration)
      requires Valid() && workers.Keys <= desired.Keys && workers.Keys <= links.Keys
      requires forall k :: k in workers ==> workers[k].connection == links[k]
      modifies this`workers, this`signatures, Objects(workers)
      ensures Reconciled(old(workers), links, desired, {}) && UpToDate(desired)
      ensures forall k :: k in workers && !Kept(old(workers), k) ==> fresh(workers[k])
    {
      ghost var start := workers;
      var todo := desired.Keys;
      while todo != {}
        invariant todo <= desired.Keys && Distinct(start)
        invariant Reconciled(start, links, desired, todo)
        invariant forall k :: k in workers && !Kept(start, k) ==> fresh(workers[k])
        decreases todo
      {
        var id :| id in todo;
        ReconcileNext(desired, id, start, links, todo);
        todo := todo - {id};
      }
      assert forall k :: k in desired ==> Settled(start, links, desired, k);
    }

    // The workers of the deleted connections still to do are there, the others are stopped.
    ghost predicate Removing(start: Workers, links: Configuration, desired: Configuration, todo: set<nat>)
      reads this, Objects(workers), Objects(start)
    {
      && Valid() && Noted(links) && Distinct(start) && todo <= start.Keys - desired.Keys
      && workers == Only(start, desired.Keys + todo)
      && forall k :: k in start && k !in desired && k !in todo ==> !start[k].running
    }

    method RemoveOne(id: nat, desired: Configuration, ghost start: Workers, ghost links: Configuration,
                     ghost todo: set<nat>)
      requires Removing(start, links, desired, todo) && id in todo
      modifies this`workers, this`signatures, (var w: Worker := start[id]; w)`running
      ensures Removing(start, links, desired, todo - {id}) && store.snapshots == old(store.snapshots)
    {
      OneFewer(start, desired.Keys, todo, id);
      StopWorker(id);
      forall k | k in start && k !in desired && k !in todo
        ensures start[k] != start[id]
      {
      }
    }

    method DropSnapshots(id: nat, ghost before: Snapshots, ghost desired: Configuration, ghost start: Workers,
                         ghost links: Configuration, ghost todo: set<nat>)
      requires Removing(start, links, desired, todo - {id})
               && store.snapshots == StillThere(before, start.Keys - desired.Keys, todo)
      requires id in todo && todo <= start.Keys - desired.Keys
      modifies store
      ensures Removing(start, links, desired, todo - {id})
      ensures store.snapshots == StillThere(before, start.Keys - desired.Keys, todo - {id})
    {
      OneMoreDeleted(before, start.Keys - desired.Keys, todo, id);
      store.DropConnection(id);
    }

    // Workers of deleted connections are stopped, and their snapshots dropped.
    method RemoveDeleted(desired: Configuration, ghost links: Configuration)
      requires Valid() && Noted(links)
      modifies this`workers, this`signatures, Objects(workers), store
      ensures Removing(old(workers), links, desired, {})
      ensures store.snapshots == StillThere(old(store.snapshots), old(workers).Keys - desired.Keys, {})
    {
      ghost var start := workers;
      var todo := set k | k in workers && k !in desired;
      NoneDeleted(store.snapshots, start, desired.Keys);
      assert todo == start.Keys - desired.Keys;
      while todo != {}
        invariant todo <= start.Keys - desired.Keys && Removing(start, links, desired, todo)
        invariant store.snapshots == StillThere(old(store.snapshots), start.Keys - desired.Keys, todo)
        decreases todo
      {
        var id :| id in todo;
        RemoveOne(id, desired, start, links, todo);
        DropSnapshots(id, old(store.snapshots), desired, start, links, todo);
        todo := todo - {id};
      }
    }

    ghost predicate Noted(links: Configuration)
      reads this, Objects(workers)
    {
      forall k :: k in workers ==> k in links && links[k] == workers[k].connection
    }

    // Reconciles the workers with the configuration. A worker is the same object afterwards, its
    // link untouched and its other settings taken over, exactly when nothing else was edited;
    // every other one is stopped.
    method ApplyConfig(desired: Configuration)
      requires Valid()
      modifies this`workers, this`signatures, Objects(workers), store
      ensures Valid()
      ensures !started ==> workers == old(workers) && store.snapshots == old(store.snapshots)
      ensures started ==> UpToDate(desired)
      ensures started ==> forall k :: k in old(workers) ==>
                (Kept(old(workers), k)
                 <==> k in desired && SameLink(old(workers[k].connection), desired[k]))
      ensures started ==> forall k :: k in old(workers) && !Kept(old(workers), k) ==> !old(workers)[k].running
      ensures forall k :: k in workers && !Kept(old(workers), k) ==> fresh(workers[k])
      ensures started ==> store.snapshots == StillThere(old(store.snapshots), old(workers).Keys - desired.Keys, {})
      ensures old(UpToDate(desired)) ==> workers == old(workers)
    {
      ghost var start, settled := workers, UpToDate(desired);
      if started {
        Apply(desired);
        if settled {
          forall k | k in start
            ensures Kept(start, k)
          {
          }
          assert workers.Keys == start.Keys;
        }
      }
    }

    method Apply(desired: Configuration)
      requires Valid()
      modifies this`workers, this`signatures, Objects(workers), store
      ensures Valid() && UpToDate(desired)
      ensures forall k :: k in old(workers) ==>
                (Kept(old(workers), k)
                 <==> k in desired && SameLink(old(workers[k].connection), desired[k]))
      ensures forall k :: k in old(workers) && !Kept(old(workers), k) ==> !old(workers)[k].running
      ensures forall k :: k in workers && !Kept(old(workers), k) ==> fresh(workers[k])
      ensures store.snapshots == StillThere(old(store.snapshots), old(workers).Keys - desired.Keys, {})
    {
      ghost var links := map k | k in workers :: workers[k].connection;
      ghost var all := workers;
      RemoveDeleted(desired, links);
      ghost var rest := workers;
      forall k | k in all && k !in desired
        ensures all[k] !in Objects(rest) && !all[k].running
      {
      }
      ReconcileAll(desired, links);
      forall k | k in all
        ensures Kept(all, k) <==> k in desired && SameLink(links[k], desired[k])
        ensures !Kept(all, k) ==> !all[k].running
      {
        if k in desired {
          assert Settled(rest, links, desired, k);
        }
      }
    }
  }
}
