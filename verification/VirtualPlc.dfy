// The virtual CPU: registrations with their buffers, and the slot table of the Snap7 server that
// clients read from.
module VirtualPlc {
  import opened Bytes
  import opened Areas

  const MAX_REGISTERED_BYTES: int := 8 * 1024 * 1024

  datatype SrvArea = SrvDb | SrvPe | SrvPa | SrvMk

  // What a client addresses: it cannot name a connection.
  datatype Slot = Slot(area: SrvArea, index: nat)

  function SlotOf(key: AreaKey): Slot {
    match key.area
    case DataBlock(n) => Slot(SrvDb, n)
    case Inputs => Slot(SrvPe, 0)
    case Outputs => Slot(SrvPa, 0)
    case Merkers => Slot(SrvMk, 0)
  }

  // Two keys share a slot exactly when they are the same area of different connections.
  lemma {:induction false} SameSlotIff(a: AreaKey, b: AreaKey)
    ensures SlotOf(a) == SlotOf(b) <==> a.area == b.area
  {
  }

  // What a client means by a slot: the inputs, outputs and merkers by their own area codes at
  // index 0, a data block by its number.
  predicate ClientMeans(slot: Slot, area: AreaRef) {
    match slot.area
    case SrvPe => slot.index == 0 && area == Inputs
    case SrvPa => slot.index == 0 && area == Outputs
    case SrvMk => slot.index == 0 && area == Merkers
    case SrvDb => area == DataBlock(slot.index)
  }

  // Every area is registered where a client looks for it, and nowhere else.
  lemma {:induction false} RegisteredWhereClientsLook(key: AreaKey, slot: Slot)
    ensures SlotOf(key) == slot <==> ClientMeans(slot, key.area)
  {
  }

  predicate SlotsDistinct(keys: set<AreaKey>) {
    forall a, b :: a in keys && b in keys && a != b ==> SlotOf(a) != SlotOf(b)
  }

  lemma {:induction false} FewerSlots(keys: set<AreaKey>, fewer: set<AreaKey>)
    requires SlotsDistinct(keys) && fewer <= keys
    ensures SlotsDistinct(fewer)
  {
  }

  // The Snap7 server's table of areas, which keeps a registered buffer by reference.
  class Snap7 {
    var table: Table

    constructor ()
      ensures table == map[]
    {
      table := map[];
    }

    method RegisterArea(slot: Slot, buffer: array<Byte>)
      modifies this
      ensures table == old(table)[slot := buffer]
    {
      table := table[slot := buffer];
    }

    method UnregisterArea(slot: Slot)
      modifies this
      ensures table == old(table) - {slot}
    {
      table := table - {slot};
    }
  }

  datatype Registration = Registration(slot: Slot, buffer: array<Byte>)

  type Registrations = map<AreaKey, Registration>

  type Table = map<Slot, array<Byte>>

  ghost function BuffersOf(regs: Registrations): set<array<Byte>> {
    set k | k in regs :: regs[k].buffer
  }

  // Distinct keys never share a buffer.
  ghost predicate Sound(regs: Registrations) {
    && (forall k :: k in regs ==> regs[k].slot == SlotOf(k) && Registrable(regs[k].buffer.Length))
    && (forall a, b :: a in regs && b in regs && a != b ==> regs[a].buffer != regs[b].buffer)
  }

  ghost function SizeOfRegistration(regs: Registrations, key: AreaKey): nat {
    if key in regs then regs[key].buffer.Length else 0
  }

  // What each registration serves.
  ghost function ContentsOf(regs: Registrations): View
    reads BuffersOf(regs)
  {
    map k | k in regs :: regs[k].buffer[..]
  }

  // Each registration's slot holds that very buffer, and nothing else is in the table.
  ghost predicate IsImage(regs: Registrations, table: Table) {
    && (forall k :: k in regs ==> SlotOf(k) in table && table[SlotOf(k)] == regs[k].buffer)
    && (forall s :: s in table ==> exists k :: k in regs && SlotOf(k) == s)
  }

  // A slot holds one buffer and registrations do not share theirs, so they do not share a slot.
  lemma {:induction false} ImageKeepsSlotsApart(regs: Registrations, table: Table)
    requires Sound(regs) && IsImage(regs, table)
    ensures SlotsDistinct(regs.Keys)
  {
    forall a, b | a in regs.Keys && b in regs.Keys && a != b
      ensures SlotOf(a) != SlotOf(b)
    {
      assert table[SlotOf(a)] == regs[a].buffer && table[SlotOf(b)] == regs[b].buffer;
    }
  }

  lemma {:induction false} WithoutKey(regs: Registrations, key: AreaKey)
    requires Sound(regs)
    ensures Sound(regs - {key}) && ContentsOf(regs - {key}) == ContentsOf(regs) - {key}
  {
  }

  lemma {:induction false} ImageWithout(regs: Registrations, table: Table, key: AreaKey)
    requires Sound(regs) && IsImage(regs, table) && key in regs
    ensures IsImage(regs - {key}, table - {SlotOf(key)})
  {
    ImageKeepsSlotsApart(regs, table);
    assert key in regs.Keys;
    var fewer := table - {SlotOf(key)};
    forall s | s in fewer
      ensures exists k :: k in regs - {key} && SlotOf(k) == s
    {
      var k :| k in regs && SlotOf(k) == s;
      assert k in regs - {key};
    }
  }

  lemma {:induction false} WithKey(regs: Registrations, key: AreaKey, r: Registration)
    requires Sound(regs) && r.slot == SlotOf(key) && Registrable(r.buffer.Length) && r.buffer !in BuffersOf(regs)
    ensures Sound(regs[key := r]) && ContentsOf(regs[key := r]) == ContentsOf(regs)[key := r.buffer[..]]
  {
  }

  lemma {:induction false} ImageWith(regs: Registrations, table: Table, key: AreaKey, r: Registration)
    requires IsImage(regs, table) && key !in regs && SlotsDistinct(regs.Keys + {key})
    ensures IsImage(regs[key := r], table[SlotOf(key) := r.buffer])
  {
    var regs2, table2 := regs[key := r], table[SlotOf(key) := r.buffer];
    assert regs2.Keys == regs.Keys + {key};
    forall s | s in table2
      ensures exists k :: k in regs2 && SlotOf(k) == s
    {
      if s == SlotOf(key) {
        assert key in regs2;
      } else {
        var k :| k in regs && SlotOf(k) == s;
        assert k in regs2;
      }
    }
  }

  // Registering a key under a buffer of its own keeps the image exactly when no registered area
  // of another connection has its slot: the slot holds the one buffer or the other.
  lemma {:induction false} ImageKeptIffSlotFree(regs: Registrations, table: Table, key: AreaKey, r: Registration)
    requires Sound(regs) && IsImage(regs, table) && key !in regs && r.buffer !in BuffersOf(regs)
    ensures IsImage(regs[key := r], table[SlotOf(key) := r.buffer])
            <==> forall k :: k in regs ==> k.area != key.area
  {
    var regs2, table2 := regs[key := r], table[SlotOf(key) := r.buffer];
    if forall k :: k in regs ==> k.area != key.area {
      ImageKeepsSlotsApart(regs, table);
      forall a, b | a in regs.Keys + {key} && b in regs.Keys + {key} && a != b
        ensures SlotOf(a) != SlotOf(b)
      {
        SameSlotIff(a, b);
      }
      ImageWith(regs, table, key, r);
    } else {
      var k :| k in regs && k.area == key.area;
      SameSlotIff(k, key);
      assert regs2[k].buffer == regs[k].buffer != r.buffer == table2[SlotOf(k)];
    }
  }

  // Two connections with a data block 1: once both are registered, a client reading the slot of
  // the first gets the bytes of the second.
  lemma {:induction false} ClientReadsOtherConnection(first: array<Byte>, second: array<Byte>)
    requires first != second && first.Length == 1 && second.Length == 1 && first[0] == 1 && second[0] == 2
    ensures var a, b := AreaKey(1, DataBlock(1)), AreaKey(2, DataBlock(1));
            var regs := map[a := Registration(SlotOf(a), first), b := Registration(SlotOf(b), second)];
            var table: Table := map[][SlotOf(a) := first][SlotOf(b) := second];
            ContentsOf(regs)[a] == [1] && table[SlotOf(a)][..] == [2] && !IsImage(regs, table)
  {
    var a, b := AreaKey(1, DataBlock(1)), AreaKey(2, DataBlock(1));
    var regs := map[a := Registration(SlotOf(a), first), b := Registration(SlotOf(b), second)];
    var table: Table := map[][SlotOf(a) := first][SlotOf(b) := second];
    assert a in regs && regs[a].buffer == first != table[SlotOf(a)];
  }

  type View = map<AreaKey, seq<Byte>>

  // ---------------------------------------------------------------- the operations on contents

  predicate Registrable(size: int) { 1 <= size <= MAX_REGISTERED_BYTES }

  function AfterRegister(view: View, key: AreaKey, size: int, initial: seq<Byte>, running: bool, fails: bool): View {
    if !Registrable(size) || !running then view
    else if key in view && |view[key]| == size then view
    else if fails then view - {key}
    else view[key := Fit(initial, size)]
  }

  function AfterUpdate(view: View, key: AreaKey, data: seq<Byte>): View {
    if key in view then view[key := Fit(data, |view[key]|)] else view
  }

  lemma {:induction false} RemovedThenSet(before: View, removed: View, key: AreaKey, content: seq<Byte>)
    requires removed == before - {key}
    ensures removed[key := content] == before[key := content]
  {
  }

  class VirtualPlcServer {
    var server: Snap7?
    var registrations: Registrations

    ghost function ServerObject(): set<object>
      reads this
    {
      if server == null then {} else {server}
    }

    // Nothing is registered while stopped.
    ghost predicate Valid()
      reads this
    {
      Sound(registrations) && (server == null ==> registrations == map[])
    }

    ghost function Contents(): View
      reads this, BuffersOf(registrations)
    {
      ContentsOf(registrations)
    }

    // The slot table is the image of the registrations.
    ghost predicate Agrees()
      reads this, ServerObject()
    {
      server != null ==> IsImage(registrations, server.table)
    }

    constructor ()
      ensures Valid() && Contents() == map[] && server == null && Agrees()
    {
      server, registrations := null, map[];
    }

    method Start(snap7: Snap7)
      requires Valid() && server == null && snap7.table == map[]
      modifies this`server
      ensures Valid() && Agrees() && server == snap7 && Contents() == map[]
    {
      server := snap7;
    }

    method RegisteredSize(key: AreaKey) returns (size: nat)
      ensures size == SizeOfRegistration(registrations, key)
      ensures size == if key in Contents() then |Contents()[key]| else 0
    {
      size := if key in registrations then registrations[key].buffer.Length else 0;
    }

    method ReadBack(key: AreaKey) returns (data: seq<Byte>, found: bool)
      ensures found <==> key in Contents()
      ensures found ==> data == Contents()[key]
    {
      data, found := [], key in registrations;
      if found {
        data := registrations[key].buffer[..];
      }
    }

    // What an S7 client reads from a slot.
    method ClientRead(slot: Slot) returns (data: seq<Byte>, found: bool)
      requires Valid()
      ensures found <==> server != null && slot in server.table
      ensures found ==> data == server.table[slot][..]
      ensures Agrees() ==> forall k :: k in Contents() && ClientMeans(slot, k.area) ==> found && data == Contents()[k]
      ensures Agrees() && found ==> exists k :: k in Contents() && ClientMeans(slot, k.area)
      ensures Agrees() && slot == Slot(SrvPe, 0) ==>
                forall c :: AreaKey(c, Inputs) in Contents() ==> found && data == Contents()[AreaKey(c, Inputs)]
      ensures Agrees() && slot == Slot(SrvPa, 0) ==>
                forall c :: AreaKey(c, Outputs) in Contents() ==> found && data == Contents()[AreaKey(c, Outputs)]
      ensures Agrees() && slot == Slot(SrvMk, 0) ==>
                forall c :: AreaKey(c, Merkers) in Contents() ==> found && data == Contents()[AreaKey(c, Merkers)]
      ensures Agrees() && slot.area == SrvDb ==>
                forall c :: AreaKey(c, DataBlock(slot.index)) in Contents() ==>
                  found && data == Contents()[AreaKey(c, DataBlock(slot.index))]
    {
      forall key
        ensures SlotOf(key) == slot <==> ClientMeans(slot, key.area)
      {
        RegisteredWhereClientsLook(key, slot);
      }
      data, found := [], server != null && slot in server.table;
      if found {
        data := server.table[slot][..];
      }
    }

    method RemoveRegistration(key: AreaKey)
      requires Valid() && key in registrations
      modifies this`registrations, ServerObject()
      ensures Valid() && server == old(server) && registrations == old(registrations) - {key}
      ensures Contents() == old(Contents()) - {key}
      ensures BuffersOf(registrations) <= old(BuffersOf(registrations))
      ensures old(Agrees()) ==> Agrees()
    {
      ghost var agreed := Agrees();
      ghost var regs := registrations;
      WithoutKey(regs, key);
      var slot := registrations[key].slot;
      registrations := registrations - {key};
      if server != null {
        if agreed {
          ImageWithout(regs, server.table, key);
        }
        server.UnregisterArea(slot);
      }
    }

    method Unregister(key: AreaKey) returns (removed: bool)
      requires Valid()
      modifies this`registrations, ServerObject()
      ensures Valid() && server == old(server)
      ensures removed <==> key in old(Contents())
      ensures Contents() == old(Contents()) - {key} && registrations == old(registrations) - {key}
      ensures BuffersOf(registrations) <= old(BuffersOf(registrations))
      ensures old(Agrees()) ==> Agrees()
    {
      removed := key in registrations;
      if removed {
        RemoveRegistration(key);
      } else {
        assert registrations - {key} == registrations;
        assert Contents() - {key} == Contents();
      }
    }

    // Enters a registration in both tables.
    method Enter(key: AreaKey, r: Registration)
      requires Valid() && server != null && key !in registrations
      requires r.slot == SlotOf(key) && Registrable(r.buffer.Length) && r.buffer !in BuffersOf(registrations)
      modifies this`registrations, server
      ensures Valid() && server == old(server) && registrations == old(registrations)[key := r]
      ensures old(Agrees()) && SlotsDistinct(old(registrations).Keys + {key}) ==> Agrees()
    {
      if Agrees() && SlotsDistinct(registrations.Keys + {key}) {
        ImageWith(registrations, server.table, key, r);
      }
      WithKey(registrations, key, r);
      server.RegisterArea(r.slot, r.buffer);
      registrations := registrations[key := r];
    }

    // Gives the key a fresh zero-padded buffer of the size.
    method AddRegistration(key: AreaKey, size: int, initial: seq<Byte>)
      requires Valid() && server != null && key !in registrations && Registrable(size)
      modifies this`registrations, server
      ensures Valid() && server == old(server)
      ensures Contents() == old(Contents())[key := Fit(initial, size)]
      ensures fresh(BuffersOf(registrations) - old(BuffersOf(registrations)))
      ensures old(Agrees()) && SlotsDistinct(old(registrations).Keys + {key}) ==> Agrees()
    {
      ghost var regs := registrations;
      var buffer := NewBuffer(size, initial);
      var r := Registration(SlotOf(key), buffer);
      WithKey(regs, key, r);
      Enter(key, r);
    }

    // Publishes an area at exactly `size` bytes; a key registered at another size is replaced.
    // `fails` is the server refusing the area.
    method Register(key: AreaKey, size: int, initial: seq<Byte>, fails: bool) returns (ok: bool)
      requires Valid()
      modifies this`registrations, ServerObject()
      ensures Valid() && server == old(server)
      ensures Contents() == AfterRegister(old(Contents()), key, size, initial, server != null, fails)
      ensures ok <==> Registrable(size) && server != null && key in Contents()
      ensures fresh(BuffersOf(registrations) - old(BuffersOf(registrations)))
      ensures old(Agrees()) && SlotsDistinct(old(registrations).Keys + {key}) ==> Agrees()
    {
      if !(1 <= size <= MAX_REGISTERED_BYTES) || server == null {
        return false;
      }
      if key in registrations && registrations[key].buffer.Length == size {
        return true;
      }
      Replace(key, size, initial, fails);
      ok := !fails;
    }

    method Replace(key: AreaKey, size: int, initial: seq<Byte>, fails: bool)
      requires Valid() && server != null && Registrable(size)
      modifies this`registrations, server
      ensures Valid() && server == old(server)
      ensures Contents() == if fails then old(Contents()) - {key} else old(Contents())[key := Fit(initial, size)]
      ensures fresh(BuffersOf(registrations) - old(BuffersOf(registrations)))
      ensures old(Agrees()) && SlotsDistinct(old(registrations).Keys + {key}) ==> Agrees()
    {
      ghost var keys, before := registrations.Keys, Contents();
      var _ := Unregister(key);
      if !fails {
        RemovedThenSet(before, Contents(), key, Fit(initial, size));
        if SlotsDistinct(keys + {key}) {
          FewerSlots(keys + {key}, registrations.Keys + {key});
        }
        AddRegistration(key, size, initial);
      }
    }

    // Copies data into a registered area's buffer in place: cut to its size, zeros past its end.
    method Update(key: AreaKey, data: seq<Byte>) returns (ok: bool)
      requires Valid()
      modifies BuffersOf(registrations)
      ensures ok <==> key in old(Contents())
      ensures Contents() == AfterUpdate(old(Contents()), key, data)
    {
      ghost var before := Contents();
      ok := key in registrations;
      if ok {
        var buffer := registrations[key].buffer;
        var payload := Fit(data, buffer.Length);
        forall i | 0 <= i < buffer.Length {
          buffer[i] := payload[i];
        }
        assert buffer[..] == payload;
      }
      forall k | k in registrations
        ensures k != key ==> registrations[k].buffer[..] == old(registrations[k].buffer[..])
      {
      }
    }

    // Unregisters everything and lets the server go.
    method Stop()
      requires Valid()
      modifies this, ServerObject()
      ensures Valid() && Agrees() && server == null && Contents() == map[]
      ensures old(server) != null && old(Agrees()) ==> old(server).table == map[]
    {
      var stopped := server;
      var keys := registrations.Keys;
      while keys != {}
        invariant Valid() && server == stopped && keys == registrations.Keys
        invariant old(Agrees()) ==> Agrees()
        decreases keys
      {
        var key :| key in keys;
        RemoveRegistration(key);
        keys := keys - {key};
      }
      if old(Agrees()) && stopped != null {
        assert stopped.table == map[];
      }
      server := null;
    }
  }

  method NewBuffer(size: nat, initial: seq<Byte>) returns (buffer: array<Byte>)
    ensures fresh(buffer) && buffer[..] == Fit(initial, size)
  {
    var content := Fit(initial, size);
    buffer := new Byte[size](i requires 0 <= i < |content| => content[i]);
  }
}
