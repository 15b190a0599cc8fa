// One reconciliation tick: deciding what the virtual CPU should publish now, and making it so.
module Sync {
  import opened Wrappers
  import opened Bytes
  import opened Areas
  import opened DataStore
  import opened VirtualPlc

  type Connections = map<nat, Connection>

  // ---------------------------------------------------------------- the decision

  predicate Exposed(connections: Connections, areas: AreaTable, key: AreaKey)
    requires key in areas && key.connection in connections
  {
    connections[key.connection].mode == MirrorAll || areas[key].exposed
  }

  predicate Enabled(connections: Connections, key: AreaKey) {
    key.connection in connections && connections[key.connection].enabled
  }

  type Sizes = map<AreaKey, nat>

  function SizeIn(sizes: Sizes, key: AreaKey): nat {
    if key in sizes then sizes[key] else 0
  }

  function SizesOf(view: View): Sizes {
    map k | k in view :: |view[k]|
  }

  // Everything a decision depends on: configuration, reads, the registered sizes, and the clock.
  datatype Situation = Situation(connections: Connections, areas: AreaTable, snapshots: Snapshots, sizes: Sizes,
                                 timeout: real, now: real)
  {
    // Enabled, exposed or mirrored, not empty, and backed by a current successful read.
    predicate Publishable(key: AreaKey) {
      && key in areas && Enabled(connections, key) && Exposed(connections, areas, key)
      && areas[key].size > 0 && FreshIn(snapshots, key, timeout, now)
    }

    // A shrunk area keeps its registered size.
    function PlannedSize(key: AreaKey): nat
      requires key in areas && areas[key].size > 0
    {
      if areas[key].status == Shrunk && SizeIn(sizes, key) > areas[key].size then SizeIn(sizes, key)
          else areas[key].size
    }

    function PlannedData(key: AreaKey): seq<Byte>
      requires Publishable(key)
    {
      Fit(snapshots[key].data, PlannedSize(key))
    }

    function Plan(): View {
      map k | k in areas && Publishable(k) :: PlannedData(k)
    }
  }

  function Unexposed(connections: Connections, areas: AreaTable): set<AreaKey> {
    set k | k in areas && Enabled(connections, k) && !Exposed(connections, areas, k)
  }

  // ---------------------------------------------------------------- the effect of a tick

  // Whether a planned key is registered after the tick; `faults` are the keys the server refuses.
  predicate Served(view: View, plan: View, faults: set<AreaKey>, key: AreaKey)
    requires key in plan
  {
    if Registrable(|plan[key]|) then (key in view && |view[key]| == |plan[key]|) || key !in faults
    else key in view
  }

  // A size that cannot be registered leaves the previous registration, and its bytes, in place.
  function ServedContent(view: View, plan: View, faults: set<AreaKey>, key: AreaKey): seq<Byte>
    requires key in plan && Served(view, plan, faults, key)
  {
    if Registrable(|plan[key]|) then plan[key] else view[key]
  }

  function AfterTick(view: View, plan: View, faults: set<AreaKey>): View {
    map k | k in plan && Served(view, plan, faults, k) :: ServedContent(view, plan, faults, k)
  }

  function Withdrawn(view: View, plan: View): View {
    map k | k in view && k in plan :: view[k]
  }

  // Every planned size can be registered and nothing is refused: exactly the plan is published.
  lemma {:induction false} CleanTickPublishesThePlan(view: View, plan: View)
    requires forall k :: k in plan ==> Registrable(|plan[k]|)
    ensures AfterTick(view, plan, {}) == plan
  {
  }

  // Exact reconciliation: when every size can be registered and nothing is refused, an area is
  // registered after the tick exactly when its connection is enabled, it is exposed or mirrored,
  // it is not empty, and its newest read is a recent success; and it serves that read.
  lemma {:induction false} ReconciliationIsExact(s: Situation, view: View, key: AreaKey)
    requires s.sizes == SizesOf(view) && s.timeout >= 0.0
    requires forall k :: k in view ==> Registrable(|view[k]|)
    requires forall k :: k in s.areas ==> s.areas[k].size <= MAX_REGISTERED_BYTES
    ensures var after := AfterTick(view, s.Plan(), {});
            && (key in after <==>
                 && key in s.areas && s.areas[key].size > 0
                 && key.connection in s.connections && s.connections[key.connection].enabled
                 && (s.connections[key.connection].mode == MirrorAll || s.areas[key].exposed)
                 && key in s.snapshots && s.snapshots[key].ok && s.now - s.snapshots[key].readAt <= s.timeout)
            && (key in after ==>
                  var held := key in view && s.areas[key].status == Shrunk && |view[key]| > s.areas[key].size;
                  after[key] == Fit(s.snapshots[key].data, if held then |view[key]| else s.areas[key].size))
  {
    CleanTickPublishesThePlan(view, s.Plan());
  }

  // Whatever fails, a key is registered after the tick only if it was planned.
  lemma {:induction false} OnlyPlannedKeysStay(view: View, plan: View, faults: set<AreaKey>)
    ensures AfterTick(view, plan, faults).Keys <= plan.Keys
    ensures forall k :: k in AfterTick(view, plan, faults) && Registrable(|plan[k]|) ==>
              AfterTick(view, plan, faults)[k] == plan[k]
  {
  }

  // ---------------------------------------------------------------- the plan as a list

  datatype PlannedArea = PlannedArea(key: AreaKey, size: nat, data: seq<Byte>)

  // Of the keys looked at, exactly the planned ones are listed, once each.
  predicate Lists(list: seq<PlannedArea>, plan: View, seen: set<AreaKey>) {
    && (forall i :: 0 <= i < |list| ==>
          && list[i].key in plan && list[i].key in seen
          && list[i].data == plan[list[i].key] && list[i].size == |list[i].data|)
    && (forall i, j :: 0 <= i < j < |list| ==> list[i].key != list[j].key)
    && (forall k :: k in plan && k in seen ==> exists i :: 0 <= i < |list| && list[i].key == k)
  }

  lemma {:induction false} ListsOneMore(list: seq<PlannedArea>, plan: View, seen: set<AreaKey>, entry: PlannedArea)
    requires Lists(list, plan, seen) && entry.key !in seen && entry.key in plan
    requires entry.data == plan[entry.key] && entry.size == |entry.data|
    ensures Lists(list + [entry], plan, seen + {entry.key})
  {
    var more := list + [entry];
    forall k | k in plan && k in seen + {entry.key}
      ensures exists i :: 0 <= i < |more| && more[i].key == k
    {
      if k == entry.key {
        assert more[|list|].key == k;
      } else {
        var i :| 0 <= i < |list| && list[i].key == k;
        assert more[i].key == k;
      }
    }
  }

  lemma {:induction false} ListsSkipped(list: seq<PlannedArea>, plan: View, seen: set<AreaKey>, key: AreaKey)
    requires Lists(list, plan, seen) && key !in plan
    ensures Lists(list, plan, seen + {key})
  {
  }

  // One area of an enabled connection.
  method PlanArea(inp: Situation, key: AreaKey) returns (entry: Option<PlannedArea>, hidden: bool)
    requires key in inp.areas && Enabled(inp.connections, key)
    ensures hidden <==> key in Unexposed(inp.connections, inp.areas)
    ensures entry.Some? <==> inp.Publishable(key)
    ensures entry.Some? ==> entry.value.key == key && entry.value.data == inp.PlannedData(key)
                            && entry.value.size == |entry.value.data|
  {
    var area := inp.areas[key];
    entry := None;
    hidden := !(inp.connections[key.connection].mode == MirrorAll || area.exposed);
    if hidden || area.size <= 0 || !FreshIn(inp.snapshots, key, inp.timeout, inp.now) {
      return;
    }
    var size: nat := area.size;
    if area.status == Shrunk {
      var already := SizeIn(inp.sizes, key);
      if already > size {
        size := already;
      }
    }
    entry := Some(PlannedArea(key, size, Fit(inp.snapshots[key].data, size)));
  }

  method PlanConnection(inp: Situation, connection: nat, list: seq<PlannedArea>, hidden: nat,
                        ghost looked: set<AreaKey>)
    returns (more: seq<PlannedArea>, moreHidden: nat, ghost moreLooked: set<AreaKey>)
    requires connection in inp.connections && inp.connections[connection].enabled
    requires Progress(inp, list, hidden, looked)
    requires looked !! KeysOfConnection(inp.areas, connection)
    ensures Progress(inp, more, moreHidden, moreLooked)
    ensures moreLooked == looked + KeysOfConnection(inp.areas, connection)
  {
    more, moreHidden, moreLooked := list, hidden, looked;
    var keys := KeysOfConnection(inp.areas, connection);
    var todo := keys;
    while todo != {}
      invariant todo <= keys && moreLooked == looked + (keys - todo)
      invariant Progress(inp, more, moreHidden, moreLooked)
      decreases todo
    {
      var key :| key in todo;
      var entry, isHidden := PlanArea(inp, key);
      if entry.Some? {
        Listed(inp, more, moreHidden, moreLooked, entry.value, isHidden);
        more := more + [entry.value];
      } else {
        Skipped(inp, more, moreHidden, moreLooked, key, isHidden);
      }
      moreHidden := moreHidden + if isHidden then 1 else 0;
      OneFewerToDo(looked, keys, todo, key);
      moreLooked, todo := moreLooked + {key}, todo - {key};
    }
  }

  method BuildPlan(inp: Situation) returns (list: seq<PlannedArea>, unexposed: nat)
    ensures Lists(list, inp.Plan(), inp.Plan().Keys)
    ensures unexposed == |Unexposed(inp.connections, inp.areas)|
  {
    ghost var looked: set<AreaKey> := {};
    list, unexposed := [], 0;
    var todo := set c | c in inp.connections && inp.connections[c].enabled;
    NothingLooked(inp);
    while todo != {}
      invariant forall c :: c in todo ==> c in inp.connections && inp.connections[c].enabled
      invariant LookedExcept(inp, looked, todo)
      invariant Progress(inp, list, unexposed, looked)
      decreases todo
    {
      var c :| c in todo;
      OneMoreConnection(inp, looked, todo, c);
      list, unexposed, looked := PlanConnection(inp, c, list, unexposed, looked);
      todo := todo - {c};
    }
    AllLooked(inp, list, unexposed, looked);
  }

  // All areas of enabled connections were looked at, but for those of the connections in `todo`.
  predicate LookedExcept(inp: Situation, looked: set<AreaKey>, todo: set<nat>) {
    && (forall k :: k in looked ==> k.connection !in todo)
    && (forall k :: k in inp.areas && Enabled(inp.connections, k) ==> k.connection in todo || k in looked)
  }

  lemma {:induction false} OneMoreConnection(inp: Situation, looked: set<AreaKey>, todo: set<nat>, connection: nat)
    requires LookedExcept(inp, looked, todo) && connection in todo
    ensures looked !! KeysOfConnection(inp.areas, connection)
    ensures LookedExcept(inp, looked + KeysOfConnection(inp.areas, connection), todo - {connection})
  {
  }

  // The plan lists exactly the publishable keys looked at, and counts the hidden ones.
  ghost predicate Progress(inp: Situation, list: seq<PlannedArea>, hidden: nat, looked: set<AreaKey>) {
    Lists(list, inp.Plan(), looked) && hidden == |Unexposed(inp.connections, inp.areas) * looked|
  }

  lemma {:induction false} NothingLooked(inp: Situation)
    ensures Progress(inp, [], 0, {})
  {
    assert Unexposed(inp.connections, inp.areas) * {} == {};
  }

  lemma {:induction false} Listed(inp: Situation, list: seq<PlannedArea>, hidden: nat, looked: set<AreaKey>,
                                  entry: PlannedArea, isHidden: bool)
    requires Progress(inp, list, hidden, looked) && entry.key !in looked
    requires inp.Publishable(entry.key) && entry.data == inp.PlannedData(entry.key) && entry.size == |entry.data|
    requires isHidden <==> entry.key in Unexposed(inp.connections, inp.areas)
    ensures Progress(inp, list + [entry], hidden + if isHidden then 1 else 0, looked + {entry.key})
  {
    ListsOneMore(list, inp.Plan(), looked, entry);
    OneMoreCounted(Unexposed(inp.connections, inp.areas), looked, entry.key);
  }

  lemma {:induction false} Skipped(inp: Situation, list: seq<PlannedArea>, hidden: nat, looked: set<AreaKey>,
                                   key: AreaKey, isHidden: bool)
    requires Progress(inp, list, hidden, looked) && key !in looked && !inp.Publishable(key)
    requires isHidden <==> key in Unexposed(inp.connections, inp.areas)
    ensures Progress(inp, list, hidden + if isHidden then 1 else 0, looked + {key})
  {
    ListsSkipped(list, inp.Plan(), looked, key);
    OneMoreCounted(Unexposed(inp.connections, inp.areas), looked, key);
  }

  lemma {:induction false} AllLooked(inp: Situation, list: seq<PlannedArea>, hidden: nat, looked: set<AreaKey>)
    requires Progress(inp, list, hidden, looked)
    requires LookedExcept(inp, looked, {})
    ensures Lists(list, inp.Plan(), inp.Plan().Keys) && hidden == |Unexposed(inp.connections, inp.areas)|
  {
    assert Unexposed(inp.connections, inp.areas) * looked == Unexposed(inp.connections, inp.areas);
    assert inp.Plan().Keys <= looked;
  }

  lemma {:induction false} OneFewerToDo(looked: set<AreaKey>, keys: set<AreaKey>, todo: set<AreaKey>, key: AreaKey)
    requires key in todo && todo <= keys
    ensures looked + (keys - todo) + {key} == looked + (keys - (todo - {key}))
  {
  }

  lemma {:induction false} OneMoreCounted(all: set<AreaKey>, seen: set<AreaKey>, key: AreaKey)
    requires key !in seen
    ensures |all * (seen + {key})| == |all * seen| + if key in all then 1 else 0
  {
    if key in all {
      assert all * (seen + {key}) == all * seen + {key};
    } else {
      assert all * (seen + {key}) == all * seen;
    }
  }

  function KeysOfConnection(areas: AreaTable, connection: nat): set<AreaKey> {
    set k | k in areas && k.connection == connection
  }
}
