// What the virtual CPU serves after any sequence of operations on it.
module ServedData {
  import opened Bytes
  import opened Areas
  import opened VirtualPlc

  datatype Op =
    | Start
    | Stop
    | Register(key: AreaKey, size: int, initial: seq<Byte>, fails: bool)
    | Update(key: AreaKey, data: seq<Byte>)
    | Unregister(key: AreaKey)

  datatype Cpu = Cpu(view: View, running: bool)

  function After(cpu: Cpu, op: Op): Cpu {
    match op
    case Start => cpu.(running := true)
    case Stop => Cpu(map[], false)
    case Register(key, size, initial, fails) =>
      cpu.(view := AfterRegister(cpu.view, key, size, initial, cpu.running, fails))
    case Update(key, data) => cpu.(view := AfterUpdate(cpu.view, key, data))
    case Unregister(key) => cpu.(view := cpu.view - {key})
  }

  // The server performs each operation as `After` says; its slot table stays the image of its
  // registrations as long as no two registered areas share a slot.
  method Perform(plc: VirtualPlcServer, op: Op, created: Snap7)
    requires plc.Valid() && created != plc.server && created.table == map[]
    modifies plc, plc.ServerObject(), BuffersOf(plc.registrations)
    ensures plc.Valid()
    ensures Cpu(plc.Contents(), plc.server != null) == After(old(Cpu(plc.Contents(), plc.server != null)), op)
    ensures op.Register? && old(plc.Agrees()) && SlotsDistinct(old(plc.registrations).Keys + {op.key}) ==> plc.Agrees()
    ensures !op.Register? && old(plc.Agrees()) ==> plc.Agrees()
    ensures plc.server == old(plc.server) || plc.server == null || plc.server == created
    ensures fresh(BuffersOf(plc.registrations) - old(BuffersOf(plc.registrations)))
  {
    match op
    case Start =>
      if plc.server == null {
        plc.Start(created);
      }
    case Stop => plc.Stop();
    case Register(key, size, initial, fails) => var _ := plc.Register(key, size, initial, fails);
    case Update(key, data) => var _ := plc.Update(key, data);
    case Unregister(key) => var _ := plc.Unregister(key);
  }

  function AfterAll(ops: seq<Op>): Cpu {
    if ops == [] then Cpu(map[], false) else After(AfterAll(ops[..|ops| - 1]), ops[|ops| - 1])
  }

  function Before(ops: seq<Op>, n: nat): Cpu
    requires n <= |ops|
  {
    AfterAll(ops[..n])
  }

  lemma {:induction false} BeforeNext(ops: seq<Op>, n: nat)
    requires n < |ops|
    ensures Before(ops, n + 1) == After(Before(ops, n), ops[n])
  {
    assert ops[..n + 1][..n] == ops[..n];
  }

  // The operation asks for the key to be registered, at a size that can be.
  predicate Asks(op: Op, key: AreaKey) {
    op.Register? && op.key == key && Registrable(op.size)
  }

  // The operation puts bytes into the key's buffer; a registration does only when it makes a new
  // buffer.
  predicate Writes(before: View, op: Op, key: AreaKey) {
    (op.Update? && op.key == key) || (Asks(op, key) && !(key in before && |before[key]| == op.size))
  }

  function Written(op: Op): seq<Byte>
    requires op.Update? || op.Register?
  {
    if op.Update? then op.data else op.initial
  }

  // Of the first n operations, the last that put bytes into the key's buffer.
  predicate IsLastWrite(ops: seq<Op>, i: nat, n: nat, key: AreaKey)
    requires i < n <= |ops|
  {
    Writes(Before(ops, i).view, ops[i], key) && forall j :: i < j < n ==> !Writes(Before(ops, j).view, ops[j], key)
  }

  // Of the first n operations, the last that asked for the key; nothing has removed it since.
  predicate IsLastRequest(ops: seq<Op>, i: nat, n: nat, key: AreaKey)
    requires i < n <= |ops|
  {
    Asks(ops[i], key) && forall j :: i < j < n ==> !Asks(ops[j], key) && ops[j] != Stop && ops[j] != Unregister(key)
  }

  // One operation: a registered key was written now, or kept its bytes; it was sized now, or kept
  // its size.
  lemma {:induction false} OneOp(cpu: Cpu, op: Op, key: AreaKey)
    requires key in After(cpu, op).view && (cpu.view != map[] ==> cpu.running)
    ensures var after := After(cpu, op).view[key];
            && (if Writes(cpu.view, op, key) then after == Fit(Written(op), |after|)
                else key in cpu.view && after == cpu.view[key])
            && (if Asks(op, key) then |after| == op.size else key in cpu.view && |after| == |cpu.view[key]|)
    ensures op != Stop && op != Unregister(key)
  {
  }

  lemma {:induction false} RunningIfRegistered(ops: seq<Op>, n: nat)
    requires n <= |ops|
    ensures Before(ops, n).view != map[] ==> Before(ops, n).running
  {
    if n > 0 {
      RunningIfRegistered(ops, n - 1);
      BeforeNext(ops, n - 1);
    }
  }

  lemma {:induction false} LastWrite(ops: seq<Op>, n: nat, key: AreaKey) returns (write: nat)
    requires n <= |ops| && key in Before(ops, n).view
    ensures write < n && IsLastWrite(ops, write, n, key)
    ensures var served := Before(ops, n).view[key]; served == Fit(Written(ops[write]), |served|)
    decreases n
  {
    write := n - 1;
    var cpu := Before(ops, n - 1);
    RunningIfRegistered(ops, n - 1);
    BeforeNext(ops, n - 1);
    OneOp(cpu, ops[n - 1], key);
    if !Writes(cpu.view, ops[n - 1], key) {
      write := LastWrite(ops, n - 1, key);
    }
  }

  lemma {:induction false} LastRequest(ops: seq<Op>, n: nat, key: AreaKey) returns (sized: nat)
    requires n <= |ops| && key in Before(ops, n).view
    ensures sized < n && IsLastRequest(ops, sized, n, key)
    ensures |Before(ops, n).view[key]| == ops[sized].size
    decreases n
  {
    sized := n - 1;
    var cpu := Before(ops, n - 1);
    RunningIfRegistered(ops, n - 1);
    BeforeNext(ops, n - 1);
    OneOp(cpu, ops[n - 1], key);
    if !Asks(ops[n - 1], key) {
      sized := LastRequest(ops, n - 1, key);
    }
  }

  // After any sequence of operations a registered area has the size it was last asked to have,
  // and serves the bytes written last, cut or zero-padded to that size.
  lemma {:induction false} ServesTheLastWrite(ops: seq<Op>, key: AreaKey) returns (write: nat, sized: nat)
    requires key in AfterAll(ops).view
    ensures write < |ops| && IsLastWrite(ops, write, |ops|, key)
    ensures sized < |ops| && IsLastRequest(ops, sized, |ops|, key)
    ensures AfterAll(ops).view[key] == Fit(Written(ops[write]), ops[sized].size)
  {
    assert ops[..|ops|] == ops;
    write := LastWrite(ops, |ops|, key);
    sized := LastRequest(ops, |ops|, key);
  }

  // ---------------------------------------------------------------- on the live server

  // The areas a run ever asks for.
  function Asked(ops: seq<Op>): set<AreaKey> {
    set i | 0 <= i < |ops| && ops[i].Register? :: ops[i].key
  }

  lemma {:induction false} AskedGrows(ops: seq<Op>, n: nat)
    requires n < |ops|
    ensures Asked(ops[..n + 1]) == Asked(ops[..n]) + if ops[n].Register? then {ops[n].key} else {}
    ensures Asked(ops[..n + 1]) <= Asked(ops)
  {
    var more := ops[..n + 1];
    forall k | k in Asked(more)
      ensures k in Asked(ops[..n]) + if ops[n].Register? then {ops[n].key} else {}
      ensures k in Asked(ops)
    {
      var i :| 0 <= i < n + 1 && more[i].Register? && more[i].key == k;
      assert ops[i] == more[i];
      if i < n {
        assert ops[..n][i] == more[i];
      }
    }
    forall k | k in Asked(ops[..n])
      ensures k in Asked(more)
    {
      var i :| 0 <= i < n && ops[..n][i].Register? && ops[..n][i].key == k;
      assert more[i] == ops[..n][i];
    }
    if ops[n].Register? {
      assert more[n] == ops[n];
    }
  }

  // Only areas asked for are registered.
  lemma {:induction false} OnlyAskedAfter(cpu: Cpu, op: Op)
    ensures After(cpu, op).view.Keys <= cpu.view.Keys + if op.Register? then {op.key} else {}
  {
  }

  // The server, stopped at first, has come through the first n operations.
  ghost predicate Through(plc: VirtualPlcServer, ops: seq<Op>, n: nat)
    requires n <= |ops|
    reads plc, plc.ServerObject(), BuffersOf(plc.registrations)
  {
    && plc.Valid() && plc.registrations.Keys <= Asked(ops[..n])
    && Cpu(plc.Contents(), plc.server != null) == Before(ops, n)
    && (SlotsDistinct(Asked(ops)) ==> plc.Agrees())
  }

  method PerformNext(plc: VirtualPlcServer, ops: seq<Op>, n: nat, created: Snap7)
    requires n < |ops| && Through(plc, ops, n) && created != plc.server && created.table == map[]
    modifies plc, plc.ServerObject(), BuffersOf(plc.registrations)
    ensures Through(plc, ops, n + 1)
    ensures plc.server == old(plc.server) || plc.server == null || plc.server == created
    ensures fresh(BuffersOf(plc.registrations) - old(BuffersOf(plc.registrations)))
  {
    BeforeNext(ops, n);
    AskedGrows(ops, n);
    OnlyAskedAfter(Before(ops, n), ops[n]);
    if SlotsDistinct(Asked(ops)) {
      FewerSlots(Asked(ops), plc.registrations.Keys + if ops[n].Register? then {ops[n].key} else {});
    }
    Perform(plc, ops[n], created);
    assert plc.registrations.Keys == plc.Contents().Keys;
  }

  // Any sequence of operations on a stopped server does what the model of runs says, and leaves
  // the slot table the image of the registrations if the areas asked for have slots of their own.
  method PerformAll(plc: VirtualPlcServer, ops: seq<Op>)
    requires plc.Valid() && plc.server == null
    modifies plc
    ensures plc.Valid() && Cpu(plc.Contents(), plc.server != null) == AfterAll(ops)
    ensures SlotsDistinct(Asked(ops)) ==> plc.Agrees()
  {
    assert ops[..0] == [];
    for n := 0 to |ops|
      invariant Through(plc, ops, n)
      invariant plc.server != null ==> fresh(plc.server)
      invariant fresh(BuffersOf(plc.registrations))
    {
      var created := new Snap7();
      ghost var buffers := BuffersOf(plc.registrations);
      PerformNext(plc, ops, n, created);
      assert BuffersOf(plc.registrations) <= buffers + (BuffersOf(plc.registrations) - buffers);
    }
    assert ops[..|ops|] == ops;
  }

  // What a client then reads where it looks for a registered area: the bytes written last, cut or
  // zero-padded to the size last asked for.
  method ReadAfterAll(plc: VirtualPlcServer, ops: seq<Op>, key: AreaKey, slot: Slot)
    returns (data: seq<Byte>, found: bool)
    requires plc.Valid() && plc.server == null && SlotsDistinct(Asked(ops)) && key in AfterAll(ops).view
    requires ClientMeans(slot, key.area)
    modifies plc
    ensures found
    ensures exists write, sized ::
              && 0 <= write < |ops| && IsLastWrite(ops, write, |ops|, key)
              && 0 <= sized < |ops| && IsLastRequest(ops, sized, |ops|, key)
              && data == Fit(Written(ops[write]), ops[sized].size)
  {
    PerformAll(plc, ops);
    assert key in plc.Contents();
    data, found := plc.ClientRead(slot);
    var write, sized := ServesTheLastWrite(ops, key);
  }

  // The inputs are read at the process-input code, the outputs at the process-output code, the
  // merkers at theirs, and data block n at number n.
  method ReadImagesAfterAll(plc: VirtualPlcServer, ops: seq<Op>, connection: nat, number: nat)
    returns (inputs: seq<Byte>, outputs: seq<Byte>, merkers: seq<Byte>, block: seq<Byte>)
    requires plc.Valid() && plc.server == null && SlotsDistinct(Asked(ops))
    modifies plc
    ensures var view := AfterAll(ops).view;
            && (AreaKey(connection, Inputs) in view ==> inputs == view[AreaKey(connection, Inputs)])
            && (AreaKey(connection, Outputs) in view ==> outputs == view[AreaKey(connection, Outputs)])
            && (AreaKey(connection, Merkers) in view ==> merkers == view[AreaKey(connection, Merkers)])
            && (AreaKey(connection, DataBlock(number)) in view
                ==> block == view[AreaKey(connection, DataBlock(number))])
  {
    PerformAll(plc, ops);
    var found: bool;
    inputs, found := plc.ClientRead(Slot(SrvPe, 0));
    outputs, found := plc.ClientRead(Slot(SrvPa, 0));
    merkers, found := plc.ClientRead(Slot(SrvMk, 0));
    block, found := plc.ClientRead(Slot(SrvDb, number));
  }
}
