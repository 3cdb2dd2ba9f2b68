/** Choosing the partition to boot (`src/slot_select.rs`). The `p4_ota` crate is a parameter:
    its codec and its slot policy, with what the bootloader's comments say about them as a contract. */
module SlotSelect {
  import opened Words
  import opened FlashDevice
  import opened AppImage
  import opened PartitionTable

  const OTADATA_OFFSET: u32 := 0xF000

  datatype Slot = A | B

  /** The observable part of the OTA state; `rest` is whatever else the crate keeps. */
  datatype OtaData = OtaData(stable: Slot, pending: Option<Slot>, attempts: byte, rest: Extra)

  type Extra = b: seq<byte> | |b| == 32 witness seq<byte>(32, _ => 0)

  datatype BootAction =
    | Stable(slot: Slot)
    | Pending(slot: Slot, attempt: byte, newState: OtaData)
    | Rollback(from: Slot, to: Slot, newState: OtaData)

  type Sector = b: seq<byte> | |b| == SECTOR_SIZE witness seq<byte>(SECTOR_SIZE, _ => 0)

  datatype OtaCrate = OtaCrate(
    freshState: OtaData,
    maxAttempts: byte,
    selectSlot: (OtaData, byte) -> BootAction,
    decode: seq<byte> -> Option<OtaData>,
    encode: OtaData -> Sector)

  /** The documented contract of the crate: a fresh state boots slot A; a pending slot is tried, each try
      counted, up to the limit and then rolled back to the stable slot; a store can be read back. */
  ghost predicate Contract(ota: OtaCrate) {
    && ota.freshState.stable == A && ota.freshState.pending == None
    && (forall s :: ota.decode(ota.encode(s)) == Some(s))
    && (forall s: OtaData :: s.pending == None ==> ota.selectSlot(s, ota.maxAttempts) == Stable(s.stable))
    && (forall s: OtaData :: s.pending.Some? && s.attempts < ota.maxAttempts ==>
          var a := ota.selectSlot(s, ota.maxAttempts);
          && a.Pending? && a.slot == s.pending.value && a.attempt == s.attempts + 1
          && a.newState.stable == s.stable && a.newState.pending == s.pending
          && a.newState.attempts == s.attempts + 1)
    && (forall s: OtaData :: s.pending.Some? && s.attempts >= ota.maxAttempts ==>
          var a := ota.selectSlot(s, ota.maxAttempts);
          && a.Rollback? && a.from == s.pending.value && a.to == s.stable
          && a.newState.stable == s.stable && a.newState.pending == None)
  }

  /** What goes wrong inside the crate during one boot. A failed store leaves `torn` in the sector. */
  datatype OtaFaults = OtaFaults(loadFails: bool, storeFails: bool, torn: Sector)

  datatype SelectionOutcome =
    | OtaStable(slot: Slot)
    | OtaPending(slot: Slot, attempt: byte)
    | OtaRollback(from: Slot, to: Slot)
    | FactoryFallback(skipped: Slot)
    | OtaFresh

  datatype SlotSelectError = NoBootableApp | TableError(error: PartitionError)

  type Selection = Result<(PartitionEntry, SelectionOutcome), SlotSelectError>

  // ----- sectors the crates write -----

  /** The flash with the sector at `offset` replaced. */
  function SetSector(cells: seq<byte>, offset: u32, content: Sector): (after: seq<byte>)
    ensures |after| == |cells|
    ensures forall i | 0 <= i < |cells| ::
      after[i] == if offset <= i < offset + SECTOR_SIZE then content[i - offset] else cells[i]
  {
    seq<byte>(|cells|, i requires 0 <= i < |cells| =>
      if offset <= i < offset + SECTOR_SIZE then content[i - offset] else cells[i])
  }

  method WriteSector(flash: Flash, offset: u32, content: Sector)
    requires flash.Valid()
    modifies flash.cells
    ensures flash.cells[..] == SetSector(old(flash.cells[..]), offset, content)
  {
    forall i | offset <= i < offset + SECTOR_SIZE && i < flash.cells.Length {
      flash.cells[i] := content[i - offset];
    }
  }

  // ----- the decision -----

  /** Otadata is the sector at 0xF000, if it can be read and decoded. */
  function LoadOta(ota: OtaCrate, cells: seq<byte>, loadFails: bool): (r: Option<OtaData>)
    ensures loadFails ==> r == None
    ensures !loadFails && 0x1_0000 <= |cells| ==> r == ota.decode(cells[0xF000..0x1_0000])
  {
    if loadFails || OTADATA_OFFSET + SECTOR_SIZE > |cells| then None
    else ota.decode(cells[OTADATA_OFFSET..OTADATA_OFFSET + SECTOR_SIZE])
  }

  function StateUsed(ota: OtaCrate, cells: seq<byte>, loadFails: bool): OtaData {
    match LoadOta(ota, cells, loadFails)
    case Some(s) => s
    case None => ota.freshState
  }

  function Decide(ota: OtaCrate, cells: seq<byte>, loadFails: bool): BootAction {
    ota.selectSlot(StateUsed(ota, cells, loadFails), ota.maxAttempts)
  }

  function ChosenSlot(a: BootAction): Slot {
    if a.Rollback? then a.to else a.slot
  }

  /** What is to be stored: the policy's new state, for a pending or rolled-back boot only. */
  function ToPersist(a: BootAction): Option<OtaData> {
    if a.Stable? then None else Some(a.newState)
  }

  function OutcomeOf(a: BootAction, decodedOk: bool): SelectionOutcome {
    match a
    case Stable(slot) => if decodedOk then OtaStable(slot) else OtaFresh
    case Pending(slot, attempt, _) => OtaPending(slot, attempt)
    case Rollback(from, to, _) => OtaRollback(from, to)
  }

  /** The flash after `pick` has stored, or tried to store, what the policy asked for. */
  function CellsAfterPick(ota: OtaCrate, cells: seq<byte>, faults: OtaFaults): (after: seq<byte>)
    ensures |after| == |cells|
  {
    match ToPersist(Decide(ota, cells, faults.loadFails))
    case None => cells
    case Some(s) => SetSector(cells, OTADATA_OFFSET, if faults.storeFails then faults.torn else ota.encode(s))
  }

  /** The bytes of an ASCII string. */
  function Ascii(text: string): (b: seq<byte>)
    requires forall i | 0 <= i < |text| :: text[i] as int < 128
    ensures |b| == |text|
  {
    seq<byte>(|text|, i requires 0 <= i < |text| => text[i] as int)
  }

  function SlotLabel(s: Slot): seq<byte> {
    match s
    case A => Ascii("ota_0")
    case B => Ascii("ota_1")
  }

  /** A selection and the number of ROM calls it took. */
  datatype Picked = Picked(result: Selection, calls: nat)

  function FactoryFrom(d: Dev, call: nat, skipped: Slot): Picked {
    match LookupAt(d, call, IsFactory())
    case Err(_) => Picked(Err(NoBootableApp), 1)
    case Ok(part) =>
      match HeaderAt(d, call + 1, part.offset)
      case Ok(_) => Picked(Ok((part, FactoryFallback(skipped))), 2)
      case Err(_) => Picked(Err(NoBootableApp), 2)
  }

  function SlotFrom(d: Dev, call: nat, slot: Slot, outcome: SelectionOutcome): Picked {
    match LookupAt(d, call, HasLabel(SlotLabel(slot)))
    case Err(_) =>
      var f := FactoryFrom(d, call + 1, slot);
      Picked(f.result, 1 + f.calls)
    case Ok(part) =>
      match HeaderAt(d, call + 1, part.offset)
      case Ok(_) => Picked(Ok((part, outcome)), 2)
      case Err(_) =>
        var f := FactoryFrom(d, call + 2, slot);
        Picked(f.result, 2 + f.calls)
  }

  /** `pick` on a chip `d`: decide, store, then look at the chip as the store left it. */
  function PickFrom(ota: OtaCrate, d: Dev, call: nat, faults: OtaFaults): Picked {
    var action := Decide(ota, d.cells, faults.loadFails);
    SlotFrom(Dev(CellsAfterPick(ota, d.cells, faults), d.status), call, ChosenSlot(action),
             OutcomeOf(action, LoadOta(ota, d.cells, faults.loadFails).Some?))
  }

  // ----- the routines -----

  method FallBackToFactory(flash: Flash, skipped: Slot) returns (r: Selection)
    requires flash.Valid()
    modifies flash`calls
    ensures var p := FactoryFrom(flash.View(), old(flash.calls), skipped);
            r == p.result && flash.calls == old(flash.calls) + p.calls
  {
    hide LookupAt, HeaderAt;
    var found := FindFactoryApp(flash);
    match found
    case Err(_) => return Err(NoBootableApp);
    case Ok(part) =>
      var header := ReadHeader(flash, part.offset);
      if header.Err? {
        return Err(NoBootableApp);
      }
      return Ok((part, FactoryFallback(skipped)));
  }

  method Pick(flash: Flash, ota: OtaCrate, faults: OtaFaults) returns (r: Selection)
    requires flash.Valid()
    modifies flash`calls, flash.cells
    ensures flash.cells[..] == CellsAfterPick(ota, old(flash.cells[..]), faults)
    ensures var p := PickFrom(ota, Dev(old(flash.cells[..]), flash.rom.status), old(flash.calls), faults);
            r == p.result && flash.calls == old(flash.calls) + p.calls
  {
    ghost var before := flash.cells[..];
    var loaded := LoadOta(ota, flash.cells[..], faults.loadFails);
    var state := if loaded.Some? then loaded.value else ota.freshState;
    var action := ota.selectSlot(state, ota.maxAttempts);
    var slot: Slot, outcome: SelectionOutcome, persist: Option<OtaData>;
    match action {
      case Stable(s) =>
        slot, outcome, persist := s, (if loaded.Some? then OtaStable(s) else OtaFresh), None;
      case Pending(s, attempt, newState) =>
        slot, outcome, persist := s, OtaPending(s, attempt), Some(newState);
      case Rollback(from, to, newState) =>
        slot, outcome, persist := to, OtaRollback(from, to), Some(newState);
    }
    if persist.Some? {
      WriteSector(flash, OTADATA_OFFSET, if faults.storeFails then faults.torn else ota.encode(persist.value));
    }
    r := BootSlot(flash, slot, outcome);
  }

  /** Steps 3 and 4 of `pick`. */
  method BootSlot(flash: Flash, slot: Slot, outcome: SelectionOutcome) returns (r: Selection)
    requires flash.Valid()
    modifies flash`calls
    ensures var p := SlotFrom(flash.View(), old(flash.calls), slot, outcome);
            r == p.result && flash.calls == old(flash.calls) + p.calls
  {
    hide LookupAt, HeaderAt, FactoryFrom;
    var found := FindByLabel(flash, SlotLabel(slot));
    match found
    case Err(_) => r := FallBackToFactory(flash, slot);
    case Ok(part) =>
      var header := ReadHeader(flash, part.offset);
      if header.Ok? {
        return Ok((part, outcome));
      }
      r := FallBackToFactory(flash, slot);
  }
}
