// Reading a memory area of a real PLC in chunks, and finding how much of it is readable.
module PlcClient {
  import opened Bytes

  const MAX_READ_CHUNK: nat := 8192
  const MAX_AREA_BYTES: int := 8 * 1024 * 1024

  datatype Reply = Failed | Data(bytes: seq<Byte>)

  // What the PLC answers to a request for `size` bytes from `start`.
  type Plc = (nat, nat) -> Reply

  datatype ReadResult = Ok(bytes: seq<Byte>) | PlcError

  function ReadChunks(plc: Plc, cursor: nat, remaining: nat, out: seq<Byte>): ReadResult
    decreases remaining
  {
    if remaining == 0 then Ok(out)
    else
      var chunk := if remaining < MAX_READ_CHUNK then remaining else MAX_READ_CHUNK;
      match plc(cursor, chunk)
      case Failed => PlcError
      case Data(bytes) =>
        if bytes == [] then PlcError else ReadChunks(plc, cursor + chunk, remaining - chunk, out + bytes)
  }

  function Read(plc: Plc, start: nat, size: int): ReadResult {
    if size <= 0 then Ok([])
    else if size > MAX_AREA_BYTES then PlcError
    else ReadChunks(plc, start, size, [])
  }

  method ReadArea(plc: Plc, start: nat, size: int) returns (r: ReadResult)
    ensures r == Read(plc, start, size)
  {
    if size <= 0 {
      return Ok([]);
    }
    if size > MAX_AREA_BYTES {
      return PlcError;
    }
    var out: seq<Byte> := [];
    var remaining: nat := size;
    var cursor: nat := start;
    while remaining > 0
      invariant ReadChunks(plc, cursor, remaining, out) == Read(plc, start, size)
      decreases remaining
    {
      var chunk := if remaining < MAX_READ_CHUNK then remaining else MAX_READ_CHUNK;
      var reply := plc(cursor, chunk);
      if reply.Failed? || reply.bytes == [] {
        return PlcError;
      }
      out := out + reply.bytes;
      cursor := cursor + chunk;
      remaining := remaining - chunk;
    }
    r := Ok(out);
  }

  // A PLC that serves `memory`: a request inside it is answered in full, any other fails.
  ghost predicate Serves(plc: Plc, memory: seq<Byte>) {
    forall start: nat, size: nat ::
      plc(start, size) == if start + size <= |memory| then Data(memory[start..start + size]) else Failed
  }

  lemma {:induction false} ChunksReassemble(plc: Plc, memory: seq<Byte>, start: nat, cursor: nat, remaining: nat)
    requires Serves(plc, memory) && start <= cursor <= |memory|
    ensures ReadChunks(plc, cursor, remaining, memory[start..cursor])
            == if cursor + remaining <= |memory| then Ok(memory[start..cursor + remaining]) else PlcError
    decreases remaining
  {
    if remaining > 0 {
      var chunk := if remaining < MAX_READ_CHUNK then remaining else MAX_READ_CHUNK;
      if cursor + chunk <= |memory| {
        assert memory[start..cursor] + memory[cursor..cursor + chunk] == memory[start..cursor + chunk];
        ChunksReassemble(plc, memory, start, cursor + chunk, remaining - chunk);
      }
    }
  }

  // Chunking is invisible: the bytes asked for come back exactly, and a request reaching past
  // the end fails as a whole.
  lemma {:induction false} ReadIsExact(plc: Plc, memory: seq<Byte>, start: nat, size: nat)
    requires Serves(plc, memory) && 1 <= size <= MAX_AREA_BYTES
    ensures Read(plc, start, size)
            == if start + size <= |memory| then Ok(memory[start..start + size]) else PlcError
  {
    if start <= |memory| {
      assert memory[start..start] == [];
      ChunksReassemble(plc, memory, start, start, size);
    }
  }

  // ---------------------------------------------------------------- probing

  function Log2(n: nat): nat
    requires n >= 1
  {
    if n == 1 then 0 else 1 + Log2(n / 2)
  }

  function Clamped(maxBytes: int): nat {
    if maxBytes <= 0 then 0 else if maxBytes < MAX_AREA_BYTES then maxBytes else MAX_AREA_BYTES
  }

  // Exactly the reads of at most `readable` bytes from the start succeed.
  ghost predicate ReadableTo(plc: Plc, readable: nat) {
    forall n :: 1 <= n <= MAX_AREA_BYTES ==> (Read(plc, 0, n).Ok? <==> n <= readable)
  }

  // Halves the request until a read succeeds. The size found was actually served, is at least
  // half of what could have been found, and took at most floor(log2 max) + 1 probes.
  method ProbeAreaSize(plc: Plc, maxBytes: int) returns (size: nat, probes: nat)
    ensures size > 0 ==> Read(plc, 0, size).Ok? && size <= maxBytes
    ensures forall readable: nat :: ReadableTo(plc, readable) ==>
                size <= readable && size <= Clamped(maxBytes) && (readable <= 2 * size || Clamped(maxBytes) <= 2 * size)
    ensures probes <= if Clamped(maxBytes) == 0 then 0 else Log2(Clamped(maxBytes)) + 1
  {
    var max := Clamped(maxBytes);
    size, probes := max, 0;
    while size > 0
      invariant size <= max
      invariant forall readable: nat :: ReadableTo(plc, readable) ==> size == max || readable <= 2 * size
      invariant size > 0 ==> probes + Log2(size) <= Log2(max)
      invariant size == 0 ==> max == 0 && probes == 0
      decreases size
    {
      var r := ReadArea(plc, 0, size);
      probes := probes + 1;
      if r.Ok? {
        return;
      }
      if size == 1 {
        size := 0;
        return;
      }
      size := size / 2;
    }
  }

  // A PLC serving a memory is readable to exactly its length.
  lemma {:induction false} ServedMemoryIsReadable(plc: Plc, memory: seq<Byte>)
    requires Serves(plc, memory)
    ensures ReadableTo(plc, |memory|)
  {
    forall n | 1 <= n <= MAX_AREA_BYTES
      ensures Read(plc, 0, n).Ok? <==> n <= |memory|
    {
      ReadIsExact(plc, memory, 0, n);
    }
  }
}
