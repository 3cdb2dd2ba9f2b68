/** The SPI flash behind the ROM routines (`src/flash.rs`): reads, sector erase and programming,
    each of which may fail, and the wrapper's alignment guards. */
module FlashDevice {
  import opened Words
  import opened Memory

  const SECTOR_SIZE: u32 := 4096

  /** What the ROM answers when a range does not lie within the chip. */
  const ROM_OUT_OF_RANGE: i32 := 1

  datatype FlashError = Unaligned | Rom(status: i32)

  /** The ROM routines' free choices: the status of the n-th ROM call and, when that call fails,
      what it leaves behind at each index. Nothing is assumed of either. */
  datatype RomOracle = RomOracle(status: nat -> i32, junk: (nat, nat) -> byte)

  /** What a reader of the flash can observe: the bytes and the status of each ROM call. */
  datatype Dev = Dev(cells: seq<byte>, status: nat -> i32)

  function RomStatus(d: Dev, call: nat, addr: nat, len: nat): (s: i32)
    ensures d.status(call) != 0 ==> s == d.status(call)
    ensures s == 0 <==> d.status(call) == 0 && addr + len <= |d.cells|
  {
    if d.status(call) != 0 then d.status(call)
    else if addr + len <= |d.cells| then 0 else ROM_OUT_OF_RANGE
  }

  /** The outcome of ROM call number `call` asked to read `len` bytes at `addr`. */
  function RomRead(d: Dev, call: nat, addr: nat, len: nat): (r: Result<seq<byte>, FlashError>)
    ensures r.Ok? <==> d.status(call) == 0 && addr + len <= |d.cells|
    ensures r.Ok? ==> r.value == d.cells[addr..addr + len] && |r.value| == len
    ensures r.Err? ==> r.error.Rom? && r.error.status != 0
    ensures d.status(call) != 0 ==> r == Err(Rom(d.status(call)))
  {
    var s := RomStatus(d, call, addr, len);
    if s == 0 then Ok(d.cells[addr..addr + len]) else Err(Rom(s))
  }

  /** `flash::read` to a buffer at address `dest`: the alignment guards in front of the ROM call. */
  function GuardedRead(d: Dev, call: nat, addr: nat, dest: u32, len: nat): (r: Result<seq<byte>, FlashError>)
    ensures r == Err(Unaligned) <==> len % 4 != 0 || dest % 4 != 0
    ensures r.Ok? ==> addr + len <= |d.cells| && r.value == d.cells[addr..addr + len]
    ensures len % 4 == 0 && dest % 4 == 0 && d.status(call) != 0 ==> r == Err(Rom(d.status(call)))
    ensures len % 4 == 0 && dest % 4 == 0 && d.status(call) == 0 ==> (r.Ok? <==> addr + len <= |d.cells|)
  {
    if len % 4 != 0 || dest % 4 != 0 then Err(Unaligned) else RomRead(d, call, addr, len)
  }

  /** The address of an array of words: any multiple of 4. */
  const WORD_ARRAY: u32 := 0

  /** The ROM calls numbered `from` up to `to` all report success. */
  ghost predicate Quiet(d: Dev, from: nat, to: nat) {
    forall k | from <= k < to :: d.status(k) == 0
  }

  lemma QuietJoins(d: Dev, a: nat, b: nat, c: nat)
    requires a <= b <= c
    ensures Quiet(d, a, c) <==> Quiet(d, a, b) && Quiet(d, b, c)
  {
  }

  // ----- device operations that change the contents; `from` is the memory address of `src` -----

  datatype FlashOp = Erase(offset: u32) | Program(addr: u32, from: u32, src: seq<byte>)
  {
    predicate Guarded() {
      match this
      case Erase(offset) => offset % SECTOR_SIZE == 0
      case Program(_, from, src) => |src| % 4 == 0 && from % 4 == 0
    }

    /** The indices the ROM is asked to change. */
    predicate Touches(i: int) {
      match this
      case Erase(offset) => offset <= i < offset + SECTOR_SIZE
      case Program(addr, _, src) => addr <= i < addr + |src|
    }

    function Start(): nat {
      match this
      case Erase(offset) => offset
      case Program(addr, _, _) => addr
    }

    function Length(): nat {
      match this
      case Erase(_) => SECTOR_SIZE
      case Program(_, _, src) => |src|
    }
  }

  /** The byte at index `i`, holding `was`, after ROM call number `call` carried out `op`.
      A failed erase leaves any byte; a failed program can still only clear bits. */
  function CellAfter(op: FlashOp, ok: bool, junk: byte, was: byte, i: nat): byte {
    if !op.Touches(i) then was
    else match op
      case Erase(_) => if ok then 0xFF else junk
      case Program(addr, _, src) => BitAnd(was, if ok then src[i - addr] else junk)
  }

  function OpStatus(cells: seq<byte>, rom: RomOracle, call: nat, op: FlashOp): i32 {
    RomStatus(Dev(cells, rom.status), call, op.Start(), op.Length())
  }

  function OpResult(cells: seq<byte>, rom: RomOracle, call: nat, op: FlashOp): Result<(), FlashError> {
    if !op.Guarded() then Err(Unaligned)
    else
      var s := OpStatus(cells, rom, call, op);
      if s == 0 then Ok(()) else Err(Rom(s))
  }

  /** Contents after one operation; a refused operation never reaches the ROM. */
  function OpCells(cells: seq<byte>, rom: RomOracle, call: nat, op: FlashOp): (after: seq<byte>)
    ensures |after| == |cells|
    ensures op.Guarded() ==>
      var ok := OpStatus(cells, rom, call, op) == 0;
      forall i | 0 <= i < |cells| :: after[i] == CellAfter(op, ok, rom.junk(call, i), cells[i], i)
  {
    if !op.Guarded() then cells
    else
      var ok := OpStatus(cells, rom, call, op) == 0;
      seq<byte>(|cells|, i requires 0 <= i < |cells| => CellAfter(op, ok, rom.junk(call, i), cells[i], i))
  }

  function OpCalls(op: FlashOp): nat {
    if op.Guarded() then 1 else 0
  }

  function Exec(cells: seq<byte>, rom: RomOracle, call: nat, ops: seq<FlashOp>): (after: seq<byte>)
    ensures |after| == |cells|
    decreases |ops|
  {
    if ops == [] then cells
    else Exec(OpCells(cells, rom, call, ops[0]), rom, call + OpCalls(ops[0]), ops[1..])
  }

  class Flash {
    const rom: RomOracle
    const cells: array<byte>
    var calls: nat

    /** Flash addresses are 32-bit words, so the chip's size is one too. */
    predicate Valid() {
      cells.Length < U32_MOD
    }

    ghost function View(): Dev
      reads cells
    {
      Dev(cells[..], rom.status)
    }

    /** `flash::read` into a caller's buffer at memory address `dest`. */
    method Read(addr: u32, buf: array<byte>, dest: u32, len: nat) returns (r: Result<(), FlashError>)
      requires Valid() && buf != cells
      requires len <= buf.Length && len < 0x8000_0000
      modifies this`calls, buf
      ensures match GuardedRead(View(), old(calls), addr, dest, len)
              case Ok(data) => r == Ok(()) && buf[..len] == data
              case Err(e) => r == Err(e)
      ensures len % 4 != 0 || dest % 4 != 0 ==> calls == old(calls) && buf[..] == old(buf[..])
      ensures len % 4 == 0 && dest % 4 == 0 ==> calls == old(calls) + 1 && buf[len..] == old(buf[len..])
    {
      if len % 4 != 0 || dest % 4 != 0 {
        return Err(Unaligned);
      }
      var call := calls;
      var s := RomStatusOf(addr, len);
      if s == 0 {
        forall i | 0 <= i < len {
          buf[i] := cells[addr + i];
        }
        return Ok(());
      } else {
        forall i | 0 <= i < len {
          buf[i] := rom.junk(call, i);
        }
        return Err(Rom(s));
      }
    }

    /** A read into a zeroed local array at `dest`, as `read_into` and the header reads do. */
    method ReadInto(addr: u32, dest: u32, len: nat) returns (r: Result<seq<byte>, FlashError>)
      requires Valid() && len < 0x8000_0000
      modifies this`calls
      ensures r == GuardedRead(View(), old(calls), addr, dest, len)
      ensures calls == old(calls) + if len % 4 == 0 && dest % 4 == 0 then 1 else 0
    {
      var buf := new byte[len](_ => 0);
      var read := Read(addr, buf, dest, len);
      assert buf[..] == buf[..len];
      return if read.Ok? then Ok(buf[..]) else Err(read.error);
    }

    /** `flash::read` straight to a memory address, which may be misaligned. */
    method ReadToRam(addr: u32, ram: Ram, dest: u32, len: nat) returns (r: Result<(), FlashError>)
      requires Valid() && ram.Valid() && len < 0x8000_0000
      modifies this`calls, ram
      ensures ram.Valid()
      ensures len % 4 != 0 || dest % 4 != 0 ==>
        r == Err(Unaligned) && calls == old(calls) && ram.cells == old(ram.cells) && ram.loaderHit == old(ram.loaderHit)
      ensures len % 4 == 0 && dest % 4 == 0 ==> calls == old(calls) + 1
      ensures len % 4 == 0 && dest % 4 == 0 ==> ram.loaderHit == (old(ram.loaderHit) || ReachesLoader(dest, len))
      ensures len % 4 == 0 && dest % 4 == 0 ==>
        match RomRead(View(), old(calls), addr, len)
        case Ok(data) => r == Ok(()) && ram.cells == Overwrite(old(ram.cells), dest, data)
        case Err(e) => r == Err(e) && SameOutside(old(ram.cells), ram.cells, dest, len)
    {
      if len % 4 != 0 || dest % 4 != 0 {
        return Err(Unaligned);
      }
      var call := calls;
      var s := RomStatusOf(addr, len);
      var data := if s == 0 then cells[addr..addr + len]
                  else seq(len, i requires 0 <= i < len => rom.junk(call, i));
      ram.Store(dest, data);
      return if s == 0 then Ok(()) else Err(Rom(s));
    }

    /** `flash::erase_sector`. */
    method EraseSector(offset: u32) returns (r: Result<(), FlashError>)
      requires Valid()
      modifies this`calls, cells
      ensures r == OpResult(old(cells[..]), rom, old(calls), Erase(offset))
      ensures cells[..] == OpCells(old(cells[..]), rom, old(calls), Erase(offset))
      ensures calls == old(calls) + OpCalls(Erase(offset))
    {
      if offset % SECTOR_SIZE != 0 {
        return Err(Unaligned);
      }
      var call := calls;
      var s := RomStatusOf(offset, SECTOR_SIZE);
      if s == 0 {
        forall i | offset <= i < offset + SECTOR_SIZE {
          cells[i] := 0xFF;
        }
        return Ok(());
      } else {
        forall i | offset <= i < offset + SECTOR_SIZE && i < cells.Length {
          cells[i] := rom.junk(call, i);
        }
        return Err(Rom(s));
      }
    }

    /** `flash::write` of `src`, which lies at memory address `from`: programming can only clear bits. */
    method Write(addr: u32, from: u32, src: seq<byte>) returns (r: Result<(), FlashError>)
      requires Valid() && |src| < 0x8000_0000
      modifies this`calls, cells
      ensures r == OpResult(old(cells[..]), rom, old(calls), Program(addr, from, src))
      ensures cells[..] == OpCells(old(cells[..]), rom, old(calls), Program(addr, from, src))
      ensures calls == old(calls) + OpCalls(Program(addr, from, src))
    {
      if |src| % 4 != 0 || from % 4 != 0 {
        return Err(Unaligned);
      }
      var call := calls;
      var s := RomStatusOf(addr, |src|);
      if s == 0 {
        forall i | addr <= i < addr + |src| {
          cells[i] := BitAnd(cells[i], src[i - addr]);
        }
        return Ok(());
      } else {
        forall i | addr <= i < addr + |src| && i < cells.Length {
          cells[i] := BitAnd(cells[i], rom.junk(call, i));
        }
        return Err(Rom(s));
      }
    }

    /** One ROM call: its length argument is passed as an `i32`. */
    method RomStatusOf(addr: u32, len: i32) returns (s: i32)
      requires Valid() && 0 <= len
      modifies this`calls
      ensures calls == old(calls) + 1
      ensures s == RomStatus(View(), old(calls), addr, len)
    {
      s := if rom.status(calls) != 0 then rom.status(calls)
           else if addr + len <= cells.Length then 0 else ROM_OUT_OF_RANGE;
      calls := calls + 1;
    }
  }

  // ----- one operation, byte by byte -----

  /** A sector erase: offsets that are no multiple of 4096 are refused, a nonzero ROM status is handed on, and on
      success exactly the 4096 bytes from the offset on become 0xFF. A failure changes nothing outside them. */
  lemma ErasedBytes(cells: seq<byte>, rom: RomOracle, call: nat, offset: u32, i: nat)
    requires i < |cells|
    ensures var r, after := OpResult(cells, rom, call, Erase(offset)), OpCells(cells, rom, call, Erase(offset));
      && (offset % 4096 != 0 <==> r == Err(Unaligned))
      && (offset % 4096 != 0 ==> after == cells)
      && (offset % 4096 == 0 && rom.status(call) != 0 ==> r == Err(Rom(rom.status(call))))
      && (r == Ok(()) <==> offset % 4096 == 0 && rom.status(call) == 0 && offset + 4096 <= |cells|)
      && (r == Ok(()) && offset <= i < offset + 4096 ==> after[i] == 0xFF)
      && (!(offset <= i < offset + 4096) ==> after[i] == cells[i])
  {
  }

  /** A program: odd lengths and misaligned sources are refused, a nonzero ROM status is handed on, and on success
      each bit of the range is set exactly if it was set before and is set in the source. A failure sets no bit and
      changes nothing outside the range. */
  lemma WrittenBits(cells: seq<byte>, rom: RomOracle, call: nat, addr: u32, from: u32, src: seq<byte>, i: nat, k: nat)
    requires i < |cells|
    ensures var op := Program(addr, from, src);
      var r, after := OpResult(cells, rom, call, op), OpCells(cells, rom, call, op);
      && (|src| % 4 != 0 || from % 4 != 0 <==> r == Err(Unaligned))
      && (r == Err(Unaligned) ==> after == cells)
      && (r != Err(Unaligned) && rom.status(call) != 0 ==> r == Err(Rom(rom.status(call))))
      && (r == Ok(()) <==> |src| % 4 == 0 && from % 4 == 0 && rom.status(call) == 0 && addr + |src| <= |cells|)
      && (r == Ok(()) && addr <= i < addr + |src| ==>
            (BitSet(after[i], k) <==> BitSet(cells[i], k) && BitSet(src[i - addr], k)))
      && (BitSet(after[i], k) ==> BitSet(cells[i], k))
      && (!(addr <= i < addr + |src|) ==> after[i] == cells[i])
  {
    hide BitSet, BitAnd;
    if addr <= i < addr + |src| {
      BitAndBits(cells[i], src[i - addr], k);
      BitAndBits(cells[i], rom.junk(call, i), k);
    }
  }

  // ----- properties of whole runs of operations -----

  /** Over any run, with any failures, a byte no operation addresses keeps its value. */
  lemma {:induction false} OutsideUntouched(cells: seq<byte>, rom: RomOracle, call: nat, ops: seq<FlashOp>, i: nat)
    requires i < |cells|
    requires forall op | op in ops :: op.Guarded() ==> !op.Touches(i)
    ensures Exec(cells, rom, call, ops)[i] == cells[i]
    decreases |ops|
  {
    if ops == [] {
    } else {
      assert ops[0] in ops;
      OutsideUntouched(OpCells(cells, rom, call, ops[0]), rom, call + OpCalls(ops[0]), ops[1..], i);
    }
  }

  /** Between erases of its sector a byte's set bits only shrink, whatever the ROM reports. */
  lemma {:induction false} BitsOnlyClear(cells: seq<byte>, rom: RomOracle, call: nat, ops: seq<FlashOp>, i: nat)
    requires i < |cells|
    requires forall op | op in ops && op.Erase? :: op.Guarded() ==> !op.Touches(i)
    ensures BitsWithin(Exec(cells, rom, call, ops)[i], cells[i])
    decreases |ops|
  {
    if ops == [] {
      BitsWithinReflexive(cells[i]);
    } else {
      assert ops[0] in ops;
      var next := OpCells(cells, rom, call, ops[0]);
      assert BitsWithin(next[i], cells[i]) by {
        BitsWithinReflexive(cells[i]);
        if ops[0].Program? && ops[0].Guarded() && ops[0].Touches(i) {
          var ok := OpStatus(cells, rom, call, ops[0]) == 0;
          BitAndIsMeet(cells[i], if ok then ops[0].src[i - ops[0].addr] else rom.junk(call, i), 0);
        }
      }
      BitsOnlyClear(next, rom, call + OpCalls(ops[0]), ops[1..], i);
      BitsWithinTransitive(Exec(cells, rom, call, ops)[i], next[i], cells[i]);
    }
  }

  lemma ProgrammedByte(cells: seq<byte>, rom: RomOracle, call: nat, op: FlashOp, i: nat)
    requires op.Program? && OpResult(cells, rom, call, op) == Ok(()) && i < |op.src|
    ensures op.addr + |op.src| <= |cells|
    ensures OpCells(cells, rom, call, op)[op.addr + i] == op.src[i] <==> BitsWithin(op.src[i], cells[op.addr + i])
  {
    hide BitAnd, BitsWithin;
    BitAndAbsorbs(cells[op.addr + i], op.src[i]);
  }

  /** A successful write reads back its source exactly when the target still has every bit the
      source needs: writing onto bytes that are not erased corrupts silently. */
  lemma ReadBackIff(cells: seq<byte>, rom: RomOracle, call: nat, op: FlashOp)
    requires op.Program? && OpResult(cells, rom, call, op) == Ok(())
    ensures op.addr + |op.src| <= |cells|
    ensures OpCells(cells, rom, call, op)[op.addr..op.addr + |op.src|] == op.src
            <==> forall i | 0 <= i < |op.src| :: BitsWithin(op.src[i], cells[op.addr + i])
  {
    hide BitsWithin, OpCells, OpResult;
    var after := OpCells(cells, rom, call, op);
    forall i | 0 <= i < |op.src|
      ensures op.addr + |op.src| <= |cells|
      ensures after[op.addr + i] == op.src[i] <==> BitsWithin(op.src[i], cells[op.addr + i])
    {
      ProgrammedByte(cells, rom, call, op, i);
    }
    ProgramFits(cells, rom, call, op);
    SliceEqualsIff(after, op.addr, op.src);
  }

  lemma ProgramFits(cells: seq<byte>, rom: RomOracle, call: nat, op: FlashOp)
    requires op.Program? && OpResult(cells, rom, call, op) == Ok(())
    ensures op.addr + |op.src| <= |cells|
  {
  }

  /** Erase, then write inside the sector: the source reads back and the rest of the sector is blank. */
  lemma EraseThenWrite(cells: seq<byte>, rom: RomOracle, call: nat, sector: u32, op: FlashOp)
    requires op.Program? && OpResult(cells, rom, call, Erase(sector)) == Ok(())
    requires sector <= op.addr && op.addr + |op.src| <= sector + 4096
    requires OpResult(OpCells(cells, rom, call, Erase(sector)), rom, call + 1, op) == Ok(())
    ensures var after := Exec(cells, rom, call, [Erase(sector), op]);
      && after[op.addr..op.addr + |op.src|] == op.src
      && (forall i | sector <= i < sector + 4096 && !(op.addr <= i < op.addr + |op.src|) :: after[i] == 0xFF)
      && (forall i | 0 <= i < |cells| && !(sector <= i < sector + 4096) :: after[i] == cells[i])
  {
    var ops := [Erase(sector), op];
    var blank := OpCells(cells, rom, call, ops[0]);
    var after := OpCells(blank, rom, call + 1, op);
    assert ops[1..][1..] == [];
    assert Exec(cells, rom, call, ops) == Exec(blank, rom, call + 1, ops[1..]) == after;
    forall i | 0 <= i < |op.src| ensures BitsWithin(op.src[i], blank[op.addr + i]) {
      ErasedCoversByte(op.src[i]);
      BitAndAbsorbs(0xFF, op.src[i]);
    }
    ReadBackIff(blank, rom, call + 1, op);
  }
}
