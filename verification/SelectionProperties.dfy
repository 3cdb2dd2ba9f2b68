/** What `pick` guarantees: which partition it returns, what it stores, and that one does not
    depend on the other. */
module SelectionProperties {
  import opened Words
  import opened FlashDevice
  import opened AppImage
  import opened Utf8
  import opened PartitionTable
  import opened SlotSelect

  // ----- the contract asks for nothing impossible -----

  function SamplePolicy(s: OtaData, max: byte): BootAction {
    if s.pending.None? then Stable(s.stable)
    else if s.attempts < max then
      Pending(s.pending.value, s.attempts + 1, OtaData(s.stable, s.pending, s.attempts + 1, s.rest))
    else Rollback(s.pending.value, s.stable, OtaData(s.stable, None, 0, s.rest))
  }

  function SlotByte(s: Slot): byte {
    if s == A then 0 else 1
  }

  function SampleEncode(s: OtaData): Sector {
    [SlotByte(s.stable), if s.pending.None? then 2 else SlotByte(s.pending.value), s.attempts]
    + s.rest + seq<byte>(SECTOR_SIZE - 35, _ => 0)
  }

  function SampleDecode(b: seq<byte>): Option<OtaData> {
    if |b| != SECTOR_SIZE || b[0] > 1 || b[1] > 2 then None
    else Some(OtaData(if b[0] == 0 then A else B,
                      if b[1] == 2 then None else Some(if b[1] == 0 then A else B), b[2], b[3..35]))
  }

  function SampleCrate(max: byte): OtaCrate {
    OtaCrate(OtaData(A, None, 0, seq<byte>(32, _ => 0)), max, SamplePolicy, SampleDecode, SampleEncode)
  }

  /** Some crate meets the contract, for every attempt limit. */
  lemma ContractCanBeMet(max: byte)
    ensures Contract(SampleCrate(max)) && SampleCrate(max).maxAttempts == max
  {
    var ota := SampleCrate(max);
    forall s ensures ota.decode(ota.encode(s)) == Some(s) {
      assert SampleEncode(s)[3..35] == s.rest;
    }
  }

  // ----- which partition is returned -----

  ghost predicate ValidHeaderAt(cells: seq<byte>, off: nat) {
    off + 24 <= |cells| && cells[off] == 0xE9
  }

  /** The table lists a partition that `want` asks for first, and it starts with a valid image header. */
  ghost predicate Usable(cells: seq<byte>, want: PartitionEntry -> bool, part: PartitionEntry) {
    && TABLE_OFFSET + TABLE_LEN <= |cells|
    && Find(cells[TABLE_OFFSET..TABLE_OFFSET + TABLE_LEN], want) == Some(part)
    && ValidHeaderAt(cells, part.offset)
  }

  ghost predicate NoneUsable(cells: seq<byte>, want: PartitionEntry -> bool) {
    forall part :: !Usable(cells, want, part)
  }

  /** A header is accepted iff it can be read and starts with the magic byte. */
  lemma HeaderOkIff(d: Dev, call: nat, off: u32)
    ensures HeaderAt(d, call, off).Ok? <==> d.status(call) == 0 && ValidHeaderAt(d.cells, off)
  {
    hide HeaderAt;
    HeaderBytes(d, call, off);
  }

  /** Slot A's partition is labelled "ota_0" and slot B's "ota_1": these bytes with a NUL behind them, and nothing
      else, make a label the slot's own. */
  lemma SlotLabelsAreTheirOwn(e: PartitionEntry, slot: Slot)
    ensures HasLabel(SlotLabel(slot))(e)
      <==> e.labelBytes[..6] == [0x6F, 0x74, 0x61, 0x5F, if slot == A then 0x30 else 0x31, 0x00]
  {
    hide HasLabel, IsUtf8;
    var text := SlotLabel(slot);
    AsciiIsUtf8(text);
    LabelMatchIff(e, text);
    assert text == [0x6F, 0x74, 0x61, 0x5F, if slot == A then 0x30 else 0x31];
    var b := e.labelBytes;
    assert b[..6] == b[..5] + [b[5]] && b[..6][..5] == b[..5];
    assert b[..6] == text + [0x00] <==> b[..5] == text && b[5] == 0x00;
  }

  /** A slot of the listed prefix holds an entry labelled "ota_" and this digit. */
  ghost predicate OtaSlot(t: Table, i: nat, digit: byte) {
    && InPrefix(t, i) && t[32 * i..32 * i + 2] == [0xAA, 0x50]
    && t[32 * i + 12..32 * i + 18] == [0x6F, 0x74, 0x61, 0x5F, digit, 0x00]
  }

  /** What the lookup for slot A or B finds is the entry of the first slot labelled so, digit '0' or '1'. */
  lemma OtaSlotFound(t: Table, slot: Slot)
    ensures var want, digit: byte := HasLabel(SlotLabel(slot)), if slot == A then 0x30 else 0x31;
      && (Find(t, want) == None <==> !exists i: nat :: OtaSlot(t, i, digit))
      && forall e :: Find(t, want) == Some(e) <==>
           exists i: nat :: OtaSlot(t, i, digit) && (forall j: nat | j < i :: !OtaSlot(t, j, digit))
                            && EncodedAt(t, i, e)
  {
    hide Find, Offers, OtaSlot, EncodedAt, HasLabel, SlotLabel;
    var want, digit: byte := HasLabel(SlotLabel(slot)), if slot == A then 0x30 else 0x31;
    var slots := iset i: nat | OtaSlot(t, i, digit);
    assert forall i: nat :: i in slots <==> OtaSlot(t, i, digit);
    forall i: nat, e ensures Offers(t, i, want, e) <==> i in slots && EncodedAt(t, i, e) {
      OtaSlotOffers(t, i, slot, e);
    }
    forall i: nat | i in slots ensures exists e :: EncodedAt(t, i, e) {
      OtaSlotStart(t, i, digit);
      EntryIsEncoded(t, i);
    }
    FirstOfSlots(t, want, slots);
  }

  lemma OtaSlotStart(t: Table, i: nat, digit: byte)
    requires OtaSlot(t, i, digit)
    ensures i < 32 && MagicBytes(t, i) == [0xAA, 0x50]
  {
  }

  lemma OtaSlotOffers(t: Table, i: nat, slot: Slot, e: PartitionEntry)
    ensures Offers(t, i, HasLabel(SlotLabel(slot)), e)
      <==> OtaSlot(t, i, if slot == A then 0x30 else 0x31) && EncodedAt(t, i, e)
  {
    hide InPrefix, HasLabel, SlotLabel;
    if EncodedAt(t, i, e) {
      EncodedFields(t, i, e);
      SlotLabelsAreTheirOwn(e, slot);
    }
  }

  lemma EncodedFields(t: Table, i: nat, e: PartitionEntry)
    requires EncodedAt(t, i, e)
    ensures t[32 * i..32 * i + 2] == [0xAA, 0x50] && t[32 * i + 12..32 * i + 18] == e.labelBytes[..6]
  {
    hide ToLe32;
    var b := t[32 * i..32 * i + 32];
    SliceOfSlice(t, 32 * i, 32 * i + 32, 0, 2);
    SliceOfSlice(t, 32 * i, 32 * i + 32, 12, 18);
    SliceOfSlice(b, 12, 28, 0, 6);
    assert b[0..2] == [0xAA, 0x50];
    assert b[12..28] == e.labelBytes;
  }

  /** Usable partitions in bytes: the table at 0x8000 has the slot, and the byte at the offset in it is 0xE9. */
  lemma UsableBytes(cells: seq<byte>, slot: Slot, part: PartitionEntry)
    ensures var digit: byte := if slot == A then 0x30 else 0x31;
      Usable(cells, HasLabel(SlotLabel(slot)), part) <==>
        && 0x8400 <= |cells| && part.offset + 24 <= |cells| && cells[part.offset] == 0xE9
        && var t: Table := cells[0x8000..0x8400];
           exists i: nat :: OtaSlot(t, i, digit) && (forall j: nat | j < i :: !OtaSlot(t, j, digit))
                            && EncodedAt(t, i, part)
    ensures Usable(cells, IsFactory(), part) <==>
        && 0x8400 <= |cells| && part.offset + 24 <= |cells| && cells[part.offset] == 0xE9
        && var t: Table := cells[0x8000..0x8400];
           exists i: nat :: FactorySlot(t, i) && (forall j: nat | j < i :: !FactorySlot(t, j)) && EncodedAt(t, i, part)
  {
    hide Find, OtaSlot, FactorySlot, EncodedAt, HasLabel, SlotLabel, IsFactory;
    if 0x8400 <= |cells| {
      OtaSlotFound(cells[0x8000..0x8400], slot);
      FactoryBytes(cells[0x8000..0x8400]);
    }
  }

  /** With a fault-free ROM, a partition is returned exactly if it is the usable partition of the chosen
      slot, or that slot has none and it is the usable factory partition; the fallback is reported in
      exactly the second case. The header that `main` reads next is then valid too, and the same on any call. */
  lemma SelectionIsCorrect(d: Dev, call: nat, slot: Slot, outcome: SelectionOutcome)
    requires forall k :: d.status(k) == 0
    ensures forall part, o :: SlotFrom(d, call, slot, outcome).result == Ok((part, o)) <==>
      || (Usable(d.cells, HasLabel(SlotLabel(slot)), part) && o == outcome)
      || (NoneUsable(d.cells, HasLabel(SlotLabel(slot))) && Usable(d.cells, IsFactory(), part)
          && o == FactoryFallback(slot))
    ensures SlotFrom(d, call, slot, outcome).result.Err? <==>
      NoneUsable(d.cells, HasLabel(SlotLabel(slot))) && NoneUsable(d.cells, IsFactory())
    ensures var r := SlotFrom(d, call, slot, outcome).result;
      r.Ok? ==> forall k: nat :: HeaderAt(d, k, r.value.0.offset) == HeaderAt(d, call + 1, r.value.0.offset)
                                 && HeaderAt(d, k, r.value.0.offset).Ok?
  {
    hide HeaderAt, ValidHeaderAt, Find;
    UsableIff(d, call, HasLabel(SlotLabel(slot)));
    UsableIff(d, call + 1, IsFactory());
    UsableIff(d, call + 2, IsFactory());
    var r := SlotFrom(d, call, slot, outcome).result;
    if r.Ok? {
      HeaderOkIff(d, call + 1, r.value.0.offset);
      HeaderOkIff(d, call + 2, r.value.0.offset);
      HeaderOkIff(d, call + 3, r.value.0.offset);
      forall k: nat
        ensures HeaderAt(d, k, r.value.0.offset) == HeaderAt(d, call + 1, r.value.0.offset)
        ensures HeaderAt(d, k, r.value.0.offset).Ok?
      {
        HeaderOkIff(d, k, r.value.0.offset);
        SameHeader(d, k, call + 1, r.value.0.offset);
      }
    }
  }

  lemma SameHeader(d: Dev, call: nat, other: nat, off: u32)
    requires forall k :: d.status(k) == 0
    ensures HeaderAt(d, call, off) == HeaderAt(d, other, off)
  {
  }

  lemma UsableIff(d: Dev, call: nat, want: PartitionEntry -> bool)
    requires forall k :: d.status(k) == 0
    ensures var found := LookupAt(d, call, want);
      if found.Ok? && HeaderAt(d, call + 1, found.value.offset).Ok?
      then forall part :: Usable(d.cells, want, part) <==> part == found.value
      else NoneUsable(d.cells, want)
  {
    hide HeaderAt, ValidHeaderAt, Find;
    var found := LookupAt(d, call, want);
    if found.Ok? {
      HeaderOkIff(d, call + 1, found.value.offset);
    }
  }

  /** Looking up the slot's partition, or reading the header there, fails when done at this call. */
  predicate SlotFails(d: Dev, call: nat, slot: Slot) {
    var found := LookupAt(d, call, HasLabel(SlotLabel(slot)));
    found.Err? || HeaderAt(d, call + 1, found.value.offset).Err?
  }

  /** Whatever the ROM does: the chosen slot's partition is returned exactly if its lookup and header read succeed;
      after any failure of either, a failed read of the table included, the result is that of the factory lookup and
      header read done next. */
  lemma SelectionUnderFaults(d: Dev, call: nat, slot: Slot, outcome: SelectionOutcome)
    ensures var r, next := SlotFrom(d, call, slot, outcome).result,
                           if LookupAt(d, call, HasLabel(SlotLabel(slot))).Ok? then call + 2 else call + 1;
      && (forall part, o :: r == Ok((part, o)) <==>
            || (!SlotFails(d, call, slot) && LookupAt(d, call, HasLabel(SlotLabel(slot))) == Ok(part) && o == outcome)
            || (SlotFails(d, call, slot) && LookupAt(d, next, IsFactory()) == Ok(part)
                && HeaderAt(d, next + 1, part.offset).Ok? && o == FactoryFallback(slot)))
      && (r.Err? <==> SlotFails(d, call, slot)
                      && (LookupAt(d, next, IsFactory()).Err?
                          || HeaderAt(d, next + 1, LookupAt(d, next, IsFactory()).value.offset).Err?))
  {
    hide LookupAt, HeaderAt;
  }

  /** The slot a state asks for, and the outcome to report for it. */
  function WantedSlot(s: OtaData, max: byte): Slot {
    if s.pending.Some? && s.attempts < max then s.pending.value else s.stable
  }

  function WantedOutcome(loaded: Option<OtaData>, max: byte): SelectionOutcome {
    match loaded
    case None => OtaFresh
    case Some(s) =>
      if s.pending.None? then OtaStable(s.stable)
      else if s.attempts < max then OtaPending(s.pending.value, s.attempts + 1)
      else OtaRollback(s.pending.value, s.stable)
  }

  /** `pick` in terms of the stored state alone: a slot on probation with tries left is booted as its next
      attempt, one without is rolled back to the stable slot, unreadable otadata means slot A; the outcome
      says which; and factory stands in exactly when the wanted slot is not usable. */
  lemma PickIsCorrect(ota: OtaCrate, d: Dev, call: nat, faults: OtaFaults)
    requires Contract(ota) && (forall k :: d.status(k) == 0)
    ensures var loaded, after := LoadOta(ota, d.cells, faults.loadFails), CellsAfterPick(ota, d.cells, faults);
      var slot := WantedSlot(StateUsed(ota, d.cells, faults.loadFails), ota.maxAttempts);
      forall part, o :: PickFrom(ota, d, call, faults).result == Ok((part, o)) <==>
        || (Usable(after, HasLabel(SlotLabel(slot)), part) && o == WantedOutcome(loaded, ota.maxAttempts))
        || (NoneUsable(after, HasLabel(SlotLabel(slot))) && Usable(after, IsFactory(), part)
            && o == FactoryFallback(slot))
  {
    hide SlotFrom, Usable, LoadOta, CellsAfterPick;
    var action := Decide(ota, d.cells, faults.loadFails);
    var loaded := LoadOta(ota, d.cells, faults.loadFails);
    SelectionIsCorrect(Dev(CellsAfterPick(ota, d.cells, faults), d.status), call, ChosenSlot(action),
                       OutcomeOf(action, loaded.Some?));
    assert ChosenSlot(action) == WantedSlot(StateUsed(ota, d.cells, faults.loadFails), ota.maxAttempts);
    assert OutcomeOf(action, loaded.Some?) == WantedOutcome(loaded, ota.maxAttempts);
  }

  /** The slot and the outcome that a state read from otadata stands for; unreadable otadata is None. */
  ghost predicate StandsFor(state: Option<OtaData>, max: byte, slot: Slot, o: SelectionOutcome) {
    match state
    case None => slot == A && o == OtaFresh
    case Some(s) =>
      if s.pending == None then slot == s.stable && o == OtaStable(s.stable)
      else if s.attempts < max then s.pending == Some(slot) && o == OtaPending(slot, s.attempts + 1)
      else slot == s.stable && o == OtaRollback(s.pending.value, s.stable)
  }

  /** `pick` in bytes, on a fault-free ROM: with the state decoded from 0xF000..0x10000, the entry of the first slot of
      the table at 0x8000 that is labelled "ota_0" or "ota_1", as the state asks, is returned if it starts with 0xE9. */
  lemma PickInBytes(ota: OtaCrate, d: Dev, call: nat, faults: OtaFaults, slot: Slot, o: SelectionOutcome,
                    i: nat, part: PartitionEntry)
    requires Contract(ota) && (forall k :: d.status(k) == 0) && 0x1_0000 <= |d.cells|
    requires var state := if faults.loadFails then None else ota.decode(d.cells[0xF000..0x1_0000]);
             StandsFor(state, ota.maxAttempts, slot, o)
    requires var t: Table, digit: byte := d.cells[0x8000..0x8400], if slot == A then 0x30 else 0x31;
      OtaSlot(t, i, digit) && (forall j: nat | j < i :: !OtaSlot(t, j, digit)) && EncodedAt(t, i, part)
    requires part.offset + 24 <= |d.cells| && d.cells[part.offset] == 0xE9 && !(0xF000 <= part.offset < 0x1_0000)
    ensures PickFrom(ota, d, call, faults).result == Ok((part, o))
  {
    hide LoadOta, Usable, PickFrom, OtaSlot, EncodedAt, CellsAfterPick, HasLabel, SlotLabel, Contract;
    var after := CellsAfterPick(ota, d.cells, faults);
    PickIsCorrect(ota, d, call, faults);
    SlotAndOutcome(ota, LoadOta(ota, d.cells, faults.loadFails), slot, o);
    PickKeepsRange(ota, d.cells, faults, 0x8000, 0x8400);
    PickKeepsRange(ota, d.cells, faults, part.offset, part.offset + 1);
    assert after[part.offset..part.offset + 1][0] == after[part.offset];
    UsableBytes(after, slot, part);
  }

  lemma SlotAndOutcome(ota: OtaCrate, state: Option<OtaData>, slot: Slot, o: SelectionOutcome)
    requires Contract(ota) && StandsFor(state, ota.maxAttempts, slot, o)
    ensures slot == WantedSlot(if state.Some? then state.value else ota.freshState, ota.maxAttempts)
    ensures o == WantedOutcome(state, ota.maxAttempts)
  {
  }

  lemma PickKeepsRange(ota: OtaCrate, cells: seq<byte>, faults: OtaFaults, lo: nat, hi: nat)
    requires lo <= hi <= |cells| && (hi <= 0xF000 || 0x1_0000 <= lo)
    ensures CellsAfterPick(ota, cells, faults)[lo..hi] == cells[lo..hi]
  {
    hide Decide;
  }

  /** Whatever the ROM does, every failure of `pick` is `NoBootableApp`. */
  lemma EveryErrorIsNoBootableApp(ota: OtaCrate, d: Dev, call: nat, faults: OtaFaults)
    ensures PickFrom(ota, d, call, faults).result.Err? ==>
      PickFrom(ota, d, call, faults).result == Err(NoBootableApp)
  {
    hide LookupAt, HeaderAt, Decide, CellsAfterPick, LoadOta;
  }

  // ----- what is stored -----

  predicate OutsideSector(offset: u32, lo: nat, hi: nat) {
    hi <= offset || offset + SECTOR_SIZE <= lo
  }

  lemma SectorKeepsRange(cells: seq<byte>, offset: u32, content: Sector, lo: nat, hi: nat)
    requires lo <= hi <= |cells| && OutsideSector(offset, lo, hi)
    ensures SetSector(cells, offset, content)[lo..hi] == cells[lo..hi]
  {
  }

  /** `pick` leaves otadata alone if the policy wants no new state. If it does, a successful store changes the
      sector, and leaves exactly that state to be read on the next boot; no byte outside the sector ever changes. */
  lemma StoresExactlyTheNewState(ota: OtaCrate, cells: seq<byte>, faults: OtaFaults)
    requires Contract(ota) && OTADATA_OFFSET + SECTOR_SIZE <= |cells|
    ensures var action, after := Decide(ota, cells, faults.loadFails), CellsAfterPick(ota, cells, faults);
      && (action.Stable? ==> after == cells)
      && (!action.Stable? && !faults.storeFails ==>
            after != cells && LoadOta(ota, after, false) == Some(action.newState))
      && (!action.Stable? && faults.storeFails ==> LoadOta(ota, after, false) == ota.decode(faults.torn))
      && (forall i | 0 <= i < |cells| && OutsideSector(OTADATA_OFFSET, i, i + 1) :: after[i] == cells[i])
  {
    hide Contract;
    var action, after := Decide(ota, cells, faults.loadFails), CellsAfterPick(ota, cells, faults);
    NewStateIsNew(ota, StateUsed(ota, cells, faults.loadFails));
    if !action.Stable? {
      var content := if faults.storeFails then faults.torn else ota.encode(action.newState);
      assert after[OTADATA_OFFSET..OTADATA_OFFSET + SECTOR_SIZE] == content;
      ReadBack(ota, action.newState);
    }
  }

  /** A new state differs from the one it replaces, and the fresh state is never replaced. */
  lemma NewStateIsNew(ota: OtaCrate, s: OtaData)
    requires Contract(ota)
    ensures var a := ota.selectSlot(s, ota.maxAttempts);
            a.Stable? || (a.newState != s && s != ota.freshState)
  {
  }

  lemma ReadBack(ota: OtaCrate, s: OtaData)
    requires Contract(ota)
    ensures ota.decode(ota.encode(s)) == Some(s)
  {
  }

  // ----- what the store can do to this boot -----

  /** The chip with other contents in the otadata sector. */
  function WithOtadata(d: Dev, content: Sector): Dev {
    Dev(SetSector(d.cells, OTADATA_OFFSET, content), d.status)
  }

  /** The partition that `want` finds, if any, starts inside the otadata sector. */
  ghost predicate StartsInOtadata(cells: seq<byte>, want: PartitionEntry -> bool) {
    TABLE_OFFSET + TABLE_LEN <= |cells|
    && var found := Find(cells[TABLE_OFFSET..TABLE_OFFSET + TABLE_LEN], want);
       found.Some? && !OutsideSector(OTADATA_OFFSET, found.value.offset, found.value.offset + 1)
  }

  lemma LookupIgnoresOtadata(d: Dev, content: Sector, call: nat, want: PartitionEntry -> bool)
    ensures LookupAt(WithOtadata(d, content), call, want) == LookupAt(d, call, want)
    ensures StartsInOtadata(WithOtadata(d, content).cells, want) == StartsInOtadata(d.cells, want)
  {
    hide Find;
    if TABLE_OFFSET + TABLE_LEN <= |d.cells| {
      SectorKeepsRange(d.cells, OTADATA_OFFSET, content, TABLE_OFFSET, TABLE_OFFSET + TABLE_LEN);
    }
  }

  /** Only an image that starts inside the sector can win or lose its header by a store. */
  lemma HeaderIgnoresOtadata(d: Dev, content: Sector, call: nat, off: u32)
    requires OutsideSector(OTADATA_OFFSET, off, off + 1)
    ensures HeaderAt(WithOtadata(d, content), call, off).Ok? == HeaderAt(d, call, off).Ok?
  {
    hide SetSector, HeaderAt;
    HeaderOkIff(d, call, off);
    HeaderOkIff(WithOtadata(d, content), call, off);
  }

  lemma CandidateIgnoresOtadata(d: Dev, content: Sector, call: nat, want: PartitionEntry -> bool)
    requires !StartsInOtadata(d.cells, want)
    ensures var u := WithOtadata(d, content);
      && LookupAt(u, call, want) == LookupAt(d, call, want)
      && (LookupAt(d, call, want).Ok? ==>
            var off := LookupAt(d, call, want).value.offset;
            HeaderAt(u, call + 1, off).Ok? == HeaderAt(d, call + 1, off).Ok?)
  {
    hide HeaderAt, Find, SetSector;
    LookupIgnoresOtadata(d, content, call, want);
    if LookupAt(d, call, want).Ok? {
      HeaderIgnoresOtadata(d, content, call + 1, LookupAt(d, call, want).value.offset);
    }
  }

  /** Whatever the store wrote, and whatever the ROM does, the selection is that of the chip before it. */
  lemma SelectionIgnoresStore(d: Dev, content: Sector, call: nat, slot: Slot, outcome: SelectionOutcome)
    requires !StartsInOtadata(d.cells, HasLabel(SlotLabel(slot))) && !StartsInOtadata(d.cells, IsFactory())
    ensures SlotFrom(WithOtadata(d, content), call, slot, outcome) == SlotFrom(d, call, slot, outcome)
  {
    hide LookupAt, HeaderAt, StartsInOtadata;
    CandidateIgnoresOtadata(d, content, call, HasLabel(SlotLabel(slot)));
    CandidateIgnoresOtadata(d, content, call + 1, IsFactory());
    CandidateIgnoresOtadata(d, content, call + 2, IsFactory());
  }

  /** So the partition and outcome do not depend on whether the store succeeded, or on what a failed
      store left behind: a lost counter never changes what this boot starts. */
  lemma PickIgnoresStoreResult(ota: OtaCrate, d: Dev, call: nat, f: OtaFaults, g: OtaFaults)
    requires f.loadFails == g.loadFails
    requires !StartsInOtadata(d.cells, HasLabel(SlotLabel(ChosenSlot(Decide(ota, d.cells, f.loadFails)))))
    requires !StartsInOtadata(d.cells, IsFactory())
    ensures PickFrom(ota, d, call, f) == PickFrom(ota, d, call, g)
  {
    hide SlotFrom, LoadOta, SetSector, StartsInOtadata;
    var action := Decide(ota, d.cells, f.loadFails);
    var outcome := OutcomeOf(action, LoadOta(ota, d.cells, f.loadFails).Some?);
    if !action.Stable? {
      var stored := ota.encode(action.newState);
      SelectionIgnoresStore(d, if f.storeFails then f.torn else stored, call, ChosenSlot(action), outcome);
      SelectionIgnoresStore(d, if g.storeFails then g.torn else stored, call, ChosenSlot(action), outcome);
    }
  }

  /** The contents of otadata decide: the wanted slot's image starts inside the sector, or that slot is not usable
      and the factory image does. */
  ghost predicate OtadataDecides(cells: seq<byte>, slot: Slot) {
    var wanted := HasLabel(SlotLabel(slot));
    StartsInOtadata(cells, wanted) || (NoneUsable(cells, wanted) && StartsInOtadata(cells, IsFactory()))
  }

  /** Exactly when the selection cannot depend on what a store leaves in the sector, on a fault-free ROM. */
  lemma StoreIsIrrelevantIff(d: Dev, call: nat, slot: Slot, outcome: SelectionOutcome)
    requires (forall k :: d.status(k) == 0) && !outcome.FactoryFallback?
    requires OTADATA_OFFSET + SECTOR_SIZE + IMAGE_HEADER_SIZE <= |d.cells|
    ensures (forall c1: Sector, c2: Sector :: SlotFrom(WithOtadata(d, c1), call, slot, outcome).result
                                           == SlotFrom(WithOtadata(d, c2), call, slot, outcome).result)
            <==> !OtadataDecides(d.cells, slot)
  {
    hide SlotFrom, StartsInOtadata, Usable, SetSector, HasLabel, IsFactory;
    if OtadataDecides(d.cells, slot) {
      var c1: Sector, c2: Sector := seq<byte>(SECTOR_SIZE, _ => IMAGE_MAGIC), seq<byte>(SECTOR_SIZE, _ => 0);
      DecidedByContent(d, c1, c2, call, slot, outcome);
    } else {
      forall c1: Sector, c2: Sector
        ensures SlotFrom(WithOtadata(d, c1), call, slot, outcome).result
             == SlotFrom(WithOtadata(d, c2), call, slot, outcome).result
      {
        NotDecided(d, c1, call, slot, outcome);
        NotDecided(d, c2, call, slot, outcome);
      }
    }
  }

  lemma NotDecided(d: Dev, content: Sector, call: nat, slot: Slot, outcome: SelectionOutcome)
    requires forall k :: d.status(k) == 0
    requires !OtadataDecides(d.cells, slot)
    ensures SlotFrom(WithOtadata(d, content), call, slot, outcome) == SlotFrom(d, call, slot, outcome)
  {
    hide StartsInOtadata, LookupAt, HeaderAt;
    if StartsInOtadata(d.cells, IsFactory()) {
      UsableIff(d, call, HasLabel(SlotLabel(slot)));
      CandidateIgnoresOtadata(d, content, call, HasLabel(SlotLabel(slot)));
    } else {
      SelectionIgnoresStore(d, content, call, slot, outcome);
    }
  }

  /** An image starting inside the sector is usable exactly if the sector holds the magic byte there. */
  lemma UsableByContent(cells: seq<byte>, content: Sector, want: PartitionEntry -> bool)
    requires OTADATA_OFFSET + SECTOR_SIZE + IMAGE_HEADER_SIZE <= |cells| && StartsInOtadata(cells, want)
    ensures var found := Find(cells[TABLE_OFFSET..TABLE_OFFSET + TABLE_LEN], want).value;
      forall part :: Usable(SetSector(cells, OTADATA_OFFSET, content), want, part)
        <==> part == found && content[found.offset - OTADATA_OFFSET] == IMAGE_MAGIC
  {
    hide Find;
    SectorKeepsRange(cells, OTADATA_OFFSET, content, TABLE_OFFSET, TABLE_OFFSET + TABLE_LEN);
  }

  lemma UsableElsewhere(cells: seq<byte>, content: Sector, want: PartitionEntry -> bool)
    requires OTADATA_OFFSET + SECTOR_SIZE + IMAGE_HEADER_SIZE <= |cells| && !StartsInOtadata(cells, want)
    ensures forall part :: Usable(SetSector(cells, OTADATA_OFFSET, content), want, part) <==> Usable(cells, want, part)
  {
    hide Find;
    SectorKeepsRange(cells, OTADATA_OFFSET, content, TABLE_OFFSET, TABLE_OFFSET + TABLE_LEN);
  }

  lemma DecidedByContent(d: Dev, c1: Sector, c2: Sector, call: nat, slot: Slot, outcome: SelectionOutcome)
    requires (forall k :: d.status(k) == 0) && !outcome.FactoryFallback?
    requires OTADATA_OFFSET + SECTOR_SIZE + IMAGE_HEADER_SIZE <= |d.cells| && OtadataDecides(d.cells, slot)
    requires forall i | 0 <= i < SECTOR_SIZE :: c1[i] == IMAGE_MAGIC && c2[i] == 0
    ensures SlotFrom(WithOtadata(d, c1), call, slot, outcome).result
         != SlotFrom(WithOtadata(d, c2), call, slot, outcome).result
  {
    hide SlotFrom, Usable, SetSector, HasLabel, IsFactory, Find;
    var wanted := HasLabel(SlotLabel(slot));
    SelectionIsCorrect(WithOtadata(d, c1), call, slot, outcome);
    SelectionIsCorrect(WithOtadata(d, c2), call, slot, outcome);
    if StartsInOtadata(d.cells, wanted) {
      UsableByContent(d.cells, c1, wanted);
      UsableByContent(d.cells, c2, wanted);
      var part := Find(d.cells[TABLE_OFFSET..TABLE_OFFSET + TABLE_LEN], wanted).value;
      assert SlotFrom(WithOtadata(d, c1), call, slot, outcome).result == Ok((part, outcome));
    } else {
      UsableElsewhere(d.cells, c1, wanted);
      UsableElsewhere(d.cells, c2, wanted);
      UsableByContent(d.cells, c1, IsFactory());
      UsableByContent(d.cells, c2, IsFactory());
      var part := Find(d.cells[TABLE_OFFSET..TABLE_OFFSET + TABLE_LEN], IsFactory()).value;
      assert SlotFrom(WithOtadata(d, c1), call, slot, outcome).result == Ok((part, FactoryFallback(slot)));
    }
  }
}
