/** What a whole boot, and a whole history of boots, guarantees. */
module BootProperties {
  import opened Words
  import opened Memory
  import opened FlashDevice
  import opened AppImage
  import opened ImageLayout
  import opened LoadedMemory
  import opened Verify
  import opened WholeImage
  import opened PartitionTable
  import opened SlotSelect
  import opened SelectionProperties
  import opened Rollback
  import opened BootMachine

  // ----- safety of one boot, under any ROM behaviour -----

  /** What `pick` returns in this boot. */
  function Choice(env: Env, d: Dev, call: nat, b: BootInputs): Selection {
    PickFrom(env.ota, Dev(AfterDiagnostics(d.cells, b), d.status), call, b.faults).result
  }

  /** The slot the policy chose, and the outcome to report for it. */
  function PolicySlot(env: Env, d: Dev, b: BootInputs): Slot {
    ChosenSlot(ActionOf(env.ota, d.cells, b))
  }

  function PolicyOutcome(env: Env, d: Dev, b: BootInputs): SelectionOutcome {
    OutcomeOf(ActionOf(env.ota, d.cells, b), LoadOta(env.ota, AfterDiagnostics(d.cells, b), b.faults.loadFails).Some?)
  }

  /** The partition is the one the table lists for `slot`, reported as `kept`; or that one failed, and it is the
      factory partition, reported as the fallback from `slot`. */
  ghost predicate FromTable(d: Dev, call: nat, slot: Slot, kept: SelectionOutcome, part: PartitionEntry,
                            got: SelectionOutcome)
  {
    && TABLE_OFFSET + TABLE_LEN <= |d.cells|
    && var t := d.cells[TABLE_OFFSET..TABLE_OFFSET + TABLE_LEN];
       || (got == kept && !SlotFails(d, call, slot) && Find(t, HasLabel(SlotLabel(slot))) == Some(part))
       || (got == FactoryFallback(slot) && SlotFails(d, call, slot) && Find(t, IsFactory()) == Some(part))
  }

  lemma PickedFromTable(d: Dev, call: nat, slot: Slot, outcome: SelectionOutcome)
    ensures var r := SlotFrom(d, call, slot, outcome).result;
            r.Ok? ==> FromTable(d, call, slot, outcome, r.value.0, r.value.1)
  {
    hide Find, HeaderAt;
    var r := SlotFrom(d, call, slot, outcome).result;
  }

  /** What must hold of a boot that jumps: the partition is the policy's, or factory where that one failed; its header
      is valid; exactly the header's number of segments was copied, none of them onto the bootloader; the flash holds
      their encoding; and if the header declares a hash, the whole image's, digest included. */
  ghost predicate JumpIsSafe(env: Env, d: Dev, call: nat, b: BootInputs, part: PartitionEntry, h: ImageHeader,
                             t: LoadTrace)
  {
    var cells, choice := AfterBoot(env.ota, d.cells, b), Choice(env, d, call, b);
    && choice.Ok? && choice.value.0 == part
    && FromTable(ChipAfterBoot(env, d, b), call, PolicySlot(env, d, b), PolicyOutcome(env, d, b), part, choice.value.1)
    && h.magic == 0xE9
    && t.end.Done? && |t.segs| == h.segmentCount && Loadable(t.segs) && !HitsLoader(t)
    && Holds(cells, part.offset + 24, EncodeSegments(t.segs))
    && (h.hashAppended ==> exists img: Image ::
          img.WellFormed() && img.Header() == h && img.segs == t.segs && Holds(cells, part.offset, img.Encode(env.sha)))
  }

  /** The boot reached the load with this partition and header: both checks it depends on were passed. */
  ghost predicate Checked(sha: seq<byte> -> Digest, d: Dev, part: PartitionEntry, h: ImageHeader, t: LoadTrace)
    requires |d.cells| < U32_MOD
  {
    exists headerCall: nat, verifyCall: nat, loadCall: nat ::
      && HeaderAt(d, headerCall, part.offset) == Ok(h)
      && (h.hashAppended ==> VerifyAt(d, verifyCall, part.offset, h, sha).Ok?)
      && LoadAt(d, loadCall, part.offset, h) == t && t.end.Done?
  }

  lemma StartedWasChecked(env: Env, d: Dev, call: nat, b: BootInputs)
    requires |d.cells| < U32_MOD
    ensures var e, choice := BootFrom(env, d, call, b), Choice(env, d, call, b);
      e.Started? ==>
        && choice.Ok? && choice.value.0 == e.part && !HitsLoader(e.load)
        && FromTable(ChipAfterBoot(env, d, b), call, PolicySlot(env, d, b), PolicyOutcome(env, d, b), e.part,
                     choice.value.1)
        && Checked(env.sha, ChipAfterBoot(env, d, b), e.part, e.header, e.load)
  {
    hide SlotFrom, HeaderAt, VerifyAt, VerifyCalls, LoadAt, HitsLoader, AfterDiagnostics, CellsAfterPick, FromTable;
    var logged := Dev(AfterDiagnostics(d.cells, b), d.status);
    PickedFromTable(ChipAfterBoot(env, d, b), call, PolicySlot(env, d, b), PolicyOutcome(env, d, b));
    var e, after := BootFrom(env, d, call, b), ChipAfterBoot(env, d, b);
    if e.Started? {
      var verifyCall := call + PickFrom(env.ota, logged, call, b.faults).calls + 1;
      var loadCall := verifyCall
        + if e.header.hashAppended then VerifyCalls(after, verifyCall, e.part.offset, e.header) else 0;
      assert LoadAt(after, loadCall, e.part.offset, e.header) == e.load;
    }
  }

  /** Under every pattern of ROM failures a jump is safe. */
  lemma JumpOnlyToCheckedImage(env: Env, d: Dev, call: nat, b: BootInputs)
    requires |d.cells| < U32_MOD
    ensures var e := BootFrom(env, d, call, b);
            e.Started? ==> JumpIsSafe(env, d, call, b, e.part, e.header, e.load)
  {
    hide BootFrom, HeaderAt, VerifyAt, LoadFrom, HitsLoader, AfterBoot, EncodeSegments, FromTable, Choice;
    hide PolicySlot, PolicyOutcome;
    var e, after := BootFrom(env, d, call, b), ChipAfterBoot(env, d, b);
    StartedWasChecked(env, d, call, b);
    if e.Started? {
      var headerCall: nat, verifyCall: nat, loadCall: nat :|
        && HeaderAt(after, headerCall, e.part.offset) == Ok(e.header)
        && (e.header.hashAppended ==> VerifyAt(after, verifyCall, e.part.offset, e.header, env.sha).Ok?)
        && LoadAt(after, loadCall, e.part.offset, e.header) == e.load && e.load.end.Done?;
      HeaderIsMagic(after, headerCall, e.part.offset);
      LoadIffEncoded(after, loadCall, e.part.offset + IMAGE_HEADER_SIZE, e.header.segmentCount, e.load.segs);
      if e.header.hashAppended {
        var img := AcceptedIsImage(after, headerCall, verifyCall, loadCall, e.part.offset, e.header, env.sha);
      }
    }
  }

  lemma HeaderIsMagic(d: Dev, call: nat, off: u32)
    ensures HeaderAt(d, call, off).Ok? ==>
      HeaderAt(d, call, off).value.magic == IMAGE_MAGIC && off + IMAGE_HEADER_SIZE <= |d.cells|
  {
  }

  /** Every trace of every boot. A jump is the last event, goes to the entry address of a safely loaded image, comes
      right after arming the watchdog, and after an accepted hash exactly if the header declares one; the watchdog
      is armed for nothing else; and after a first heartbeat, however long one watches, there are only heartbeats. */
  lemma TraceIsSafe(env: Env, d: Dev, call: nat, b: BootInputs, ticks: nat, more: nat, i: nat)
    requires |d.cells| < U32_MOD && i < |EventsOf(BootFrom(env, d, call, b), ticks)|
    ensures var e := BootFrom(env, d, call, b);
      var events, longer := EventsOf(e, ticks), EventsOf(e, ticks + more);
      && (events[i].Jumped? ==>
            && e.Started? && JumpIsSafe(env, d, call, b, e.part, e.header, e.load)
            && events[i] == Jumped(e.header.entryAddr)
            && i == |events| - 1 && i > 0 && events[i - 1] == WatchdogArmed
            && SegmentsLoaded in events[..i] && (HashAccepted in events[..i] <==> e.header.hashAppended))
      && (events[i].WatchdogArmed? ==> i + 1 < |events| && events[i + 1].Jumped?)
      && (events[i].Tick? ==> events <= longer && forall j | i <= j < |longer| :: longer[j].Tick?)
  {
    hide BootFrom, JumpIsSafe, Ticks;
    JumpOnlyToCheckedImage(env, d, call, b);
    var e := BootFrom(env, d, call, b);
    TicksExtend(ticks, more);
    OnlyTicks(ticks);
    OnlyTicks(ticks + more);
    match e
    case Started(_, h, _) =>
      var before := [SlotSelected, HeaderRead, HashEvent(h.hashAppended), SegmentsLoaded, WatchdogArmed];
      assert EventsOf(e, ticks) == before + [Jumped(h.entryAddr)];
      assert i == 5 ==> EventsOf(e, ticks)[..i] == before && before[2] == HashEvent(h.hashAppended)
                        && before[3] == SegmentsLoaded;
    case _ =>
      TraceSplits(Steps(e), Ticks(ticks), Ticks(ticks + more)[ticks..]);
  }

  lemma OnlyTicks(n: nat)
    ensures forall i | 0 <= i < n :: Ticks(n)[i].Tick?
  {
  }

  lemma TicksExtend(n: nat, more: nat)
    ensures Ticks(n + more) == Ticks(n) + Ticks(n + more)[n..]
  {
  }

  /** The end and the events of a boot whose partition `part` was selected and holds the header `h`, when the next
      ROM call is number `from`. */
  ghost predicate TellsOfLoad(sha: seq<byte> -> Digest, d: Dev, from: nat, part: PartitionEntry, h: ImageHeader,
                              e: BootEnd, events: seq<Event>, noise: seq<Event>)
    requires |d.cells| < U32_MOD
  {
    var verdict, size := VerifyAt(d, from, part.offset, h, sha), SizeAt(d, from, part.offset, h);
    if h.hashAppended && verdict.Err? then
      e == HashRefused(verdict.error) && events == [SlotSelected, HeaderRead] + noise
    else
      var loadCall := from + if h.hashAppended then h.segmentCount + Chunks(size.value - 32) + 1 else 0;
      var t := LoadAt(d, loadCall, part.offset, h);
      var checked := [SlotSelected, HeaderRead, if h.hashAppended then HashAccepted else HashSkipped];
      if HitsLoader(t) then e == Overwritten(h.hashAppended, t) && events == checked + [ControlLost]
      else if t.end.Stopped? then e == LoadRefused(h.hashAppended, t.end.error, t) && events == checked + noise
      else e == Started(part, h, t) && events == checked + [SegmentsLoaded, WatchdogArmed, Jumped(h.entryAddr)]
  }

  /** Every boot, from the selection on: which step it fails at, with that step's own error and nothing but heartbeats
      after it, or the events up to the jump, or up to the point where the load reached the bootloader. The hash is
      checked exactly if the header declares one, and each step's ROM calls follow those of the step before. */
  lemma TraceTells(env: Env, d: Dev, call: nat, b: BootInputs, ticks: nat)
    requires |d.cells| < U32_MOD
    ensures var e, choice := BootFrom(env, d, call, b), Choice(env, d, call, b);
      var events, noise := EventsOf(e, ticks), seq(ticks, i requires 0 <= i < ticks => Tick(i % 0x1_0000_0000));
      if choice.Err? then e == NoApp(choice.error) && events == noise
      else
        var after, from, part := ChipAfterBoot(env, d, b), HeaderCall(env, d, call, b), choice.value.0;
        match HeaderAt(after, from, part.offset)
        case Err(bad) => e == HeaderRejected(bad) && events == [SlotSelected] + noise
        case Ok(h) => TellsOfLoad(env.sha, after, from + 1, part, h, e, events, noise)
  {
    hide PickFrom, HeaderAt, VerifyAt, SizeAt, LoadAt, HitsLoader, AfterDiagnostics, AfterBoot, StreamCalls, Chunks;
    var choice := Choice(env, d, call, b);
    assert Ticks(ticks) == seq(ticks, i requires 0 <= i < ticks => Tick(i % 0x1_0000_0000));
    if choice.Ok? {
      var after, from, part := ChipAfterBoot(env, d, b), HeaderCall(env, d, call, b), choice.value.0;
      if HeaderAt(after, from, part.offset).Ok? {
        HeaderStageTells(env.sha, after, from, part, ticks);
      }
    }
  }

  lemma HeaderStageTells(sha: seq<byte> -> Digest, d: Dev, call: nat, part: PartitionEntry, ticks: nat)
    requires |d.cells| < U32_MOD && HeaderAt(d, call, part.offset).Ok?
    ensures var e := HeaderStage(sha, d, call, part);
      TellsOfLoad(sha, d, call + 1, part, HeaderAt(d, call, part.offset).value, e, EventsOf(e, ticks), Ticks(ticks))
  {
    hide HeaderAt, SizeAt, LoadAt, HitsLoader, StreamCalls, Chunks, VerifyAt, Ticks;
    var h := HeaderAt(d, call, part.offset).value;
    if h.hashAppended && VerifyAt(d, call + 1, part.offset, h, sha).Ok? {
      AcceptedHasSize(d, call + 1, part.offset, h, sha);
    }
  }

  lemma AcceptedHasSize(d: Dev, call: nat, off: u32, h: ImageHeader, sha: seq<byte> -> Digest)
    requires |d.cells| < U32_MOD && VerifyAt(d, call, off, h, sha).Ok?
    ensures SizeAt(d, call, off, h).Ok? && SizeAt(d, call, off, h).value >= 64
    ensures VerifyCalls(d, call, off, h) == h.segmentCount + Chunks(SizeAt(d, call, off, h).value - 32) + 1
  {
    hide SizeAt, StreamFault;
  }

  // ----- stability of what is not meant to change -----

  /** A range that no boot writes: clear of the otadata, bootlog and bootstat sectors. */
  predicate Untouched(lo: nat, hi: nat) {
    (hi <= 0xF000 || 0x1_0000 <= lo) && (hi <= 0x1_2000 || 0x1_4000 <= lo)
  }

  lemma BootKeepsRange(ota: OtaCrate, cells: seq<byte>, b: BootInputs, lo: nat, hi: nat)
    requires lo <= hi <= |cells| && Untouched(lo, hi)
    ensures AfterBoot(ota, cells, b)[lo..hi] == cells[lo..hi]
  {
    hide Decide, SetSector;
    var logged := SetSector(cells, BOOTLOG_OFFSET, b.bootlog);
    var diag := AfterDiagnostics(cells, b);
    SectorKeepsRange(cells, BOOTLOG_OFFSET, b.bootlog, lo, hi);
    SectorKeepsRange(logged, BOOTSTAT_OFFSET, b.bootstat, lo, hi);
    var persist := ToPersist(Decide(ota, diag, b.faults.loadFails));
    if persist.Some? {
      SectorKeepsRange(diag, OTADATA_OFFSET, if b.faults.storeFails then b.faults.torn else ota.encode(persist.value),
                       lo, hi);
    }
  }

  /** Over any run of boots, whatever they log and whatever fails, such a range never changes. */
  lemma {:induction false} RunKeepsRange(ota: OtaCrate, cells: seq<byte>, boots: seq<BootInputs>, lo: nat, hi: nat)
    requires lo <= hi <= |cells| && Untouched(lo, hi)
    ensures AfterRun(ota, cells, boots)[lo..hi] == cells[lo..hi]
    decreases |boots|
  {
    hide AfterBoot, Untouched;
    if boots == [] {
    } else {
      BootKeepsRange(ota, cells, boots[0], lo, hi);
      RunKeepsRange(ota, AfterBoot(ota, cells, boots[0]), boots[1..], lo, hi);
    }
  }

  /** The diagnostic records leave a range alone, whatever they write, if and only if it is clear of their
      sectors. The two app slots of `example-partitions.csv` are; the factory partition of the README's
      layout, which starts at 0x10000 and spans both sectors, is not. */
  lemma DiagnosticsKeepIff(cells: seq<byte>, lo: nat, hi: nat)
    requires lo < hi <= |cells|
    ensures (forall b :: AfterDiagnostics(cells, b)[lo..hi] == cells[lo..hi])
            <==> hi <= 0x1_2000 || 0x1_4000 <= lo
  {
    if hi <= 0x1_2000 || 0x1_4000 <= lo {
      forall b ensures AfterDiagnostics(cells, b)[lo..hi] == cells[lo..hi] {
        SectorKeepsRange(cells, BOOTLOG_OFFSET, b.bootlog, lo, hi);
        SectorKeepsRange(SetSector(cells, BOOTLOG_OFFSET, b.bootlog), BOOTSTAT_OFFSET, b.bootstat, lo, hi);
      }
    } else {
      var b := DiagnosticsClobber(cells, lo, hi);
    }
  }

  lemma DiagnosticsClobber(cells: seq<byte>, lo: nat, hi: nat) returns (b: BootInputs)
    requires lo < hi <= |cells|
    requires !(hi <= 0x1_2000 || 0x1_4000 <= lo)
    ensures AfterDiagnostics(cells, b)[lo..hi] != cells[lo..hi]
  {
    var i := if lo < BOOTLOG_OFFSET then BOOTLOG_OFFSET else lo;
    assert lo <= i < hi && BOOTLOG_OFFSET <= i < BOOTSTAT_OFFSET + SECTOR_SIZE;
    var other: byte := if cells[i] == 0 then 1 else 0;
    var content: Sector := seq<byte>(SECTOR_SIZE, _ => other);
    b := BootInputs(content, content, OtaFaults(false, false, content));
    assert AfterDiagnostics(cells, b)[i] == other;
    assert AfterDiagnostics(cells, b)[lo..hi][i - lo] != cells[lo..hi][i - lo];
  }

  /** So the factory partition of the README's layout can be destroyed by the first boot that finds it. */
  lemma ReadmeFactoryIsClobbered(cells: seq<byte>) returns (b: BootInputs)
    requires |cells| >= 0x11_0000
    ensures AfterDiagnostics(cells, b)[0x1_0000..0x11_0000] != cells[0x1_0000..0x11_0000]
  {
    b := DiagnosticsClobber(cells, 0x1_0000, 0x11_0000);
  }

  /** The app slots of the CSV layout and the partition table are never written by any boot. */
  lemma CsvSlotsAreUntouched()
    ensures Untouched(0x2_0000, 0x2_0000 + 0xC_0000) && Untouched(0xE_0000, 0xE_0000 + 0xC_0000)
    ensures Untouched(0x8000, 0x8400)
  {
  }

  // ----- what starts -----

  ghost predicate Selects(env: Env, d: Dev, call: nat, b: BootInputs, part: PartitionEntry) {
    Choice(env, d, call, b).Ok? && Choice(env, d, call, b).value.0 == part
  }

  /** A selected partition that holds a loadable image is loaded, with exactly the image's segments; it is started
      if none of them reaches the bootloader, and otherwise the bootloader is gone. */
  lemma SelectedImageIsLoaded(env: Env, d: Dev, call: nat, b: BootInputs, part: PartitionEntry, img: Image)
    requires |d.cells| < U32_MOD && (forall k :: d.status(k) == 0) && Selects(env, d, call, b, part)
    requires img.WellFormed() && Loadable(img.segs)
    requires Holds(AfterBoot(env.ota, d.cells, b), part.offset, img.Encode(env.sha))
    ensures BootFrom(env, d, call, b)
         == if SomeHitsLoader(img.segs) then Overwritten(img.hashFlag != 0, LoadTrace(img.segs, Done))
            else Started(part, img.Header(), LoadTrace(img.segs, Done))
  {
    hide PickFrom, HeaderAt, VerifyAt, VerifyCalls, LoadAt, SomeHitsLoader, AfterDiagnostics, AfterBoot;
    var after := ChipAfterBoot(env, d, b);
    forall k: nat
      ensures HeaderAt(after, k, part.offset) == Ok(img.Header())
      ensures img.hashFlag != 0 ==> VerifyAt(after, k, part.offset, img.Header(), env.sha).Ok?
      ensures LoadAt(after, k, part.offset, img.Header()) == LoadTrace(img.segs, Done)
    {
      RoundTrip(after, k, part.offset, img, env.sha);
    }
  }

  ghost predicate HoldsHashed(cells: seq<byte>, off: nat, sha: seq<byte> -> Digest, h: ImageHeader, t: LoadTrace,
                              img: Image)
  {
    && img.WellFormed() && Loadable(img.segs) && img.hashFlag != 0 && !SomeHitsLoader(img.segs)
    && Holds(cells, off, img.Encode(sha))
    && h == img.Header() && t == LoadTrace(img.segs, Done)
  }

  /** ROM calls from the header read to the end of the load, for a hashed image. */
  function HashedCalls(img: Image): nat
    requires img.WellFormed()
  {
    1 + (|img.segs| + StreamCalls(|img.Payload()|)) + 2 * |img.segs|
  }

  lemma HashedImageStarts(sha: seq<byte> -> Digest, d: Dev, call: nat, part: PartitionEntry, h: ImageHeader,
                          t: LoadTrace, img: Image)
    requires |d.cells| < U32_MOD && HoldsHashed(d.cells, part.offset, sha, h, t, img)
    requires Quiet(d, call, call + HashedCalls(img))
    ensures HeaderStage(sha, d, call, part) == Started(part, h, t) && h.hashAppended
  {
    hide EncodeSegments, SizeAt, HeaderAt, LoadFrom, VerifyAt, StreamCalls, SomeHitsLoader;
    var off, n, payload := part.offset, |img.segs|, |img.Payload()|;
    var loadCall := call + 1 + n + StreamCalls(payload);
    QuietJoins(d, call, call + 1, call + HashedCalls(img));
    QuietJoins(d, call + 1, loadCall, call + HashedCalls(img));
    QuietJoins(d, call + 1, call + 1 + n, loadCall);
    HeldImageParts(d.cells, off, img, sha);
    HeaderOfImage(d, call, off, img);
    SizeOfImage(d, call + 1, off, img, sha);
    AcceptedIff(d, call + 1, off, h, sha, sha(img.Payload()));
    LoadIffEncoded(d, loadCall, off + IMAGE_HEADER_SIZE, n, img.segs);
  }

  lemma StartedIsHashedImage(sha: seq<byte> -> Digest, d: Dev, call: nat, part: PartitionEntry, h: ImageHeader,
                             t: LoadTrace) returns (img: Image)
    requires |d.cells| < U32_MOD && HeaderStage(sha, d, call, part) == Started(part, h, t) && h.hashAppended
    ensures HoldsHashed(d.cells, part.offset, sha, h, t, img) && Quiet(d, call, call + HashedCalls(img))
  {
    hide EncodeSegments, SizeAt, LoadFrom, VerifyAt, StreamCalls, SomeHitsLoader, DecodeHeader, Holds;
    var off, n: nat := part.offset, h.segmentCount;
    var loadCall := call + 1 + VerifyCalls(d, call + 1, off, h);
    img := AcceptedIsImage(d, call, call + 1, loadCall, off, h, sha);
    AcceptedIff(d, call + 1, off, h, sha, VerifyAt(d, call + 1, off, h, sha).value);
    QuietJoins(d, call + 1, call + 1 + n, loadCall);
    SizeOfImage(d, call + 1, off, img, sha);
    LoadIffEncoded(d, loadCall, off + IMAGE_HEADER_SIZE, n, t.segs);
    QuietJoins(d, call + 1, loadCall, loadCall + 2 * n);
    QuietJoins(d, call, call + 1, loadCall + 2 * n);
  }

  /** Number of the header read's ROM call in this boot. */
  function HeaderCall(env: Env, d: Dev, call: nat, b: BootInputs): nat {
    call + PickFrom(env.ota, Dev(AfterDiagnostics(d.cells, b), d.status), call, b.faults).calls
  }

  lemma StartsAfterSelection(env: Env, d: Dev, call: nat, b: BootInputs, part: PartitionEntry, h: ImageHeader,
                             t: LoadTrace)
    requires |d.cells| < U32_MOD
    ensures BootFrom(env, d, call, b) == Started(part, h, t)
      <==> && Selects(env, d, call, b, part)
           && HeaderStage(env.sha, ChipAfterBoot(env, d, b), HeaderCall(env, d, call, b), part) == Started(part, h, t)
  {
    hide PickFrom, HeaderAt, VerifyAt, VerifyCalls, LoadAt, HitsLoader, AfterDiagnostics, AfterBoot;
  }

  /** Under any ROM behaviour: a boot starts a hashed image with these segments if and only if it selected the
      partition, the partition holds the encoding of a loadable hashed image with that header and those segments,
      none of which reaches the bootloader, and none of the ROM calls from the header read on fails. */
  lemma HashedBootIff(env: Env, d: Dev, call: nat, b: BootInputs, part: PartitionEntry, h: ImageHeader, t: LoadTrace)
    requires |d.cells| < U32_MOD
    ensures var after, from := ChipAfterBoot(env, d, b), HeaderCall(env, d, call, b);
      BootFrom(env, d, call, b) == Started(part, h, t) && h.hashAppended
      <==> && Selects(env, d, call, b, part)
           && exists img: Image :: && HoldsHashed(after.cells, part.offset, env.sha, h, t, img)
                                   && Quiet(after, from, from + HashedCalls(img))
  {
    hide BootFrom, HeaderStage, AfterBoot, Holds, HeaderCall, HashedCalls, Selects, Quiet, SomeHitsLoader;
    var after, from := ChipAfterBoot(env, d, b), HeaderCall(env, d, call, b);
    StartsAfterSelection(env, d, call, b, part, h, t);
    if HeaderStage(env.sha, after, from, part) == Started(part, h, t) && h.hashAppended {
      var img := StartedIsHashedImage(env.sha, after, from, part, h, t);
    }
    if img: Image :| HoldsHashed(after.cells, part.offset, env.sha, h, t, img)
                     && Quiet(after, from, from + HashedCalls(img)) {
      HashedImageStarts(env.sha, after, from, part, h, t, img);
    }
  }

  ghost predicate HoldsUnhashed(cells: seq<byte>, off: nat, h: ImageHeader, t: LoadTrace) {
    && off + IMAGE_HEADER_SIZE <= |cells| && DecodeHeader(cells[off..off + IMAGE_HEADER_SIZE]) == Ok(h)
    && !h.hashAppended && t.end.Done? && |t.segs| == h.segmentCount && Loadable(t.segs) && !HitsLoader(t)
    && Holds(cells, off + IMAGE_HEADER_SIZE, EncodeSegments(t.segs))
  }

  lemma UnhashedStageIff(sha: seq<byte> -> Digest, d: Dev, call: nat, part: PartitionEntry, h: ImageHeader,
                         t: LoadTrace)
    requires |d.cells| < U32_MOD
    ensures HeaderStage(sha, d, call, part) == Started(part, h, t) && !h.hashAppended
      <==> HoldsUnhashed(d.cells, part.offset, h, t) && Quiet(d, call, call + 1 + 2 * h.segmentCount)
  {
    hide LoadFrom, HitsLoader, EncodeSegments, DecodeHeader, VerifyAt;
    QuietJoins(d, call, call + 1, call + 1 + 2 * h.segmentCount);
    if part.offset + IMAGE_HEADER_SIZE <= |d.cells| {
      LoadIffEncoded(d, call + 1, part.offset + IMAGE_HEADER_SIZE, h.segmentCount, t.segs);
    }
  }

  /** Under any ROM behaviour: an image without a hash is started if and only if the selected partition shows its
      header and the encoding of loadable segments, none of which reaches the bootloader, and none of the ROM calls
      from the header read on fails. */
  lemma UnhashedBootIff(env: Env, d: Dev, call: nat, b: BootInputs, part: PartitionEntry, h: ImageHeader, t: LoadTrace)
    requires |d.cells| < U32_MOD
    ensures var after, from := ChipAfterBoot(env, d, b), HeaderCall(env, d, call, b);
      BootFrom(env, d, call, b) == Started(part, h, t) && !h.hashAppended
      <==> && Selects(env, d, call, b, part)
           && HoldsUnhashed(after.cells, part.offset, h, t) && Quiet(after, from, from + 1 + 2 * h.segmentCount)
  {
    hide BootFrom, HeaderStage, AfterBoot, HoldsUnhashed, HeaderCall, Selects, Quiet;
    StartsAfterSelection(env, d, call, b, part, h, t);
    UnhashedStageIff(env.sha, ChipAfterBoot(env, d, b), HeaderCall(env, d, call, b), part, h, t);
  }

  // ----- after any history of boots -----

  lemma HistoryKeeps(env: Env, d: Dev, earlier: seq<BootInputs>, b: BootInputs, lo: nat, hi: nat)
    requires lo <= hi <= |d.cells| && Untouched(lo, hi)
    ensures AfterBoot(env.ota, AfterRun(env.ota, d.cells, earlier), b)[lo..hi] == d.cells[lo..hi]
  {
    RunKeepsRange(env.ota, d.cells, earlier, lo, hi);
    BootKeepsRange(env.ota, AfterRun(env.ota, d.cells, earlier), b, lo, hi);
  }

  /** The chip that the boot after `earlier` starts on. */
  function ChipNow(env: Env, d: Dev, earlier: seq<BootInputs>): Dev {
    Dev(AfterRun(env.ota, d.cells, earlier), d.status)
  }

  /** The flash held a loadable image at `off` that no boot's own writes reach and that spares the bootloader. */
  ghost predicate GoodImage(env: Env, cells: seq<byte>, off: nat, img: Image) {
    && img.WellFormed() && Loadable(img.segs) && !SomeHitsLoader(img.segs)
    && Holds(cells, off, img.Encode(env.sha)) && Untouched(off, off + |img.Encode(env.sha)|)
  }

  lemma GoodImageRemains(env: Env, d: Dev, earlier: seq<BootInputs>, b: BootInputs, off: u32, img: Image)
    requires |d.cells| < U32_MOD && (forall k :: d.status(k) == 0) && GoodImage(env, d.cells, off, img)
    ensures var after := ChipAfterBoot(env, ChipNow(env, d, earlier), b);
      Holds(after.cells, off, img.Encode(env.sha)) && forall k: nat :: HeaderAt(after, k, off).Ok?
  {
    hide HeaderAt, AfterBoot, AfterRun, Untouched;
    var after := ChipAfterBoot(env, ChipNow(env, d, earlier), b);
    HistoryKeeps(env, d, earlier, b, off, off + |img.Encode(env.sha)|);
    forall k: nat ensures HeaderAt(after, k, off).Ok? {
      RoundTrip(after, k, off, img, env.sha);
    }
  }

  /** End to end. Whatever earlier boots did, on a chip whose ROM does not fail: if the slot that the policy
      chooses is listed in the table and a good image lies there, this boot starts that image, with exactly its
      segments copied, in order. */
  lemma GoodImageBoots(env: Env, d: Dev, earlier: seq<BootInputs>, b: BootInputs, call: nat,
                       part: PartitionEntry, img: Image)
    requires |d.cells| < U32_MOD && (forall k :: d.status(k) == 0)
    requires TABLE_OFFSET + TABLE_LEN <= |d.cells|
    requires Find(d.cells[TABLE_OFFSET..TABLE_OFFSET + TABLE_LEN],
                  HasLabel(SlotLabel(PolicySlot(env, ChipNow(env, d, earlier), b)))) == Some(part)
    requires GoodImage(env, d.cells, part.offset, img)
    ensures BootFrom(env, ChipNow(env, d, earlier), call, b)
         == Started(part, img.Header(), LoadTrace(img.segs, Done))
  {
    hide Find, PickFrom, HeaderAt, BootFrom, SomeHitsLoader, AfterDiagnostics, AfterBoot, AfterRun, PolicySlot, Selects;
    HistoryKeeps(env, d, earlier, b, TABLE_OFFSET, TABLE_OFFSET + TABLE_LEN);
    GoodImageRemains(env, d, earlier, b, part.offset, img);
    ListedSlotIsPicked(env, ChipNow(env, d, earlier), b, call, part);
    SelectedImageIsLoaded(env, ChipNow(env, d, earlier), call, b, part, img);
  }

  lemma ListedSlotIsPicked(env: Env, d: Dev, b: BootInputs, call: nat, part: PartitionEntry)
    requires d.status(call) == 0 && TABLE_OFFSET + TABLE_LEN <= |d.cells|
    requires var t := AfterBoot(env.ota, d.cells, b)[TABLE_OFFSET..TABLE_OFFSET + TABLE_LEN];
             Find(t, HasLabel(SlotLabel(PolicySlot(env, d, b)))) == Some(part)
    requires HeaderAt(ChipAfterBoot(env, d, b), call + 1, part.offset).Ok?
    ensures Selects(env, d, call, b, part)
  {
    hide Find, HeaderAt, AfterDiagnostics, CellsAfterPick, Decide;
  }

  /** The rescue path. If the chosen slot is not listed, or what is listed never had a valid header, and the factory
      partition is listed with a good image, any boot after any history starts that one. */
  lemma GoodFactoryImageBoots(env: Env, d: Dev, earlier: seq<BootInputs>, b: BootInputs, call: nat,
                              part: PartitionEntry, img: Image)
    requires |d.cells| < U32_MOD && (forall k :: d.status(k) == 0)
    requires TABLE_OFFSET + TABLE_LEN <= |d.cells|
    requires var slot := Find(d.cells[TABLE_OFFSET..TABLE_OFFSET + TABLE_LEN],
                              HasLabel(SlotLabel(PolicySlot(env, ChipNow(env, d, earlier), b))));
             slot.Some? ==> !ValidHeaderAt(d.cells, slot.value.offset)
                            && Untouched(slot.value.offset, slot.value.offset + 1)
    requires Find(d.cells[TABLE_OFFSET..TABLE_OFFSET + TABLE_LEN], IsFactory()) == Some(part)
    requires GoodImage(env, d.cells, part.offset, img)
    ensures BootFrom(env, ChipNow(env, d, earlier), call, b)
         == Started(part, img.Header(), LoadTrace(img.segs, Done))
  {
    hide Find, PickFrom, HeaderAt, BootFrom, SomeHitsLoader, AfterDiagnostics, AfterBoot, AfterRun, PolicySlot, Selects;
    hide ValidHeaderAt, Untouched;
    var now := ChipNow(env, d, earlier);
    var after := ChipAfterBoot(env, now, b);
    CsvSlotsAreUntouched();
    HistoryKeeps(env, d, earlier, b, TABLE_OFFSET, TABLE_OFFSET + TABLE_LEN);
    GoodImageRemains(env, d, earlier, b, part.offset, img);
    var slot := Find(d.cells[TABLE_OFFSET..TABLE_OFFSET + TABLE_LEN], HasLabel(SlotLabel(PolicySlot(env, now, b))));
    if slot.Some? {
      InvalidHeaderRemains(env, d, earlier, b, slot.value.offset);
    }
    FactoryIsPicked(env, now, b, call, part);
    SelectedImageIsLoaded(env, now, call, b, part, img);
  }

  lemma InvalidHeaderRemains(env: Env, d: Dev, earlier: seq<BootInputs>, b: BootInputs, off: u32)
    requires !ValidHeaderAt(d.cells, off) && Untouched(off, off + 1)
    ensures !ValidHeaderAt(ChipAfterBoot(env, ChipNow(env, d, earlier), b).cells, off)
  {
    hide AfterBoot, AfterRun, Untouched;
    if off + IMAGE_HEADER_SIZE <= |d.cells| {
      HistoryKeeps(env, d, earlier, b, off, off + 1);
      assert d.cells[off..off + 1][0] == d.cells[off];
      var after := ChipAfterBoot(env, ChipNow(env, d, earlier), b).cells;
      assert after[off..off + 1][0] == after[off];
    }
  }

  lemma FactoryIsPicked(env: Env, d: Dev, b: BootInputs, call: nat, part: PartitionEntry)
    requires (forall k :: d.status(k) == 0) && TABLE_OFFSET + TABLE_LEN <= |d.cells|
    requires var after := AfterBoot(env.ota, d.cells, b);
             var t := after[TABLE_OFFSET..TABLE_OFFSET + TABLE_LEN];
             && Find(t, IsFactory()) == Some(part)
             && (Find(t, HasLabel(SlotLabel(PolicySlot(env, d, b)))).Some? ==>
                   !ValidHeaderAt(after, Find(t, HasLabel(SlotLabel(PolicySlot(env, d, b)))).value.offset))
    requires forall k: nat :: HeaderAt(ChipAfterBoot(env, d, b), k, part.offset).Ok?
    ensures Selects(env, d, call, b, part)
  {
    hide Find, HeaderAt, ValidHeaderAt, AfterDiagnostics, CellsAfterPick, Decide;
    var after := ChipAfterBoot(env, d, b);
    var slot := Find(after.cells[TABLE_OFFSET..TABLE_OFFSET + TABLE_LEN], HasLabel(SlotLabel(PolicySlot(env, d, b))));
    if slot.Some? {
      HeaderOkIff(after, call + 1, slot.value.offset);
    }
  }

  /** What A/B boot is for. However a slot on probation hangs, and whatever failed stores did before: once as many
      boots as it had tries left went by with otadata sound since the last disturbance, the next boot that can read
      otadata starts the image of the stable slot. */
  lemma StableImageComesBack(env: Env, d: Dev, earlier: seq<BootInputs>, b: BootInputs, call: nat, s: OtaData,
                             part: PartitionEntry, img: Image)
    requires |d.cells| < U32_MOD && (forall k :: d.status(k) == 0) && Contract(env.ota)
    requires OTADATA_OFFSET + SECTOR_SIZE <= |d.cells|
    requires var j := LastDisturbance(env.ota, d.cells, earlier);
             && OtaState(env.ota, AfterRun(env.ota, d.cells, earlier[..j])) == Some(s) && s.pending.Some?
             && SoundBoots(earlier[j..]) >= TriesLeft(s, env.ota.maxAttempts)
    requires !b.faults.loadFails
    requires Find(d.cells[TABLE_OFFSET..TABLE_OFFSET + TABLE_LEN], HasLabel(SlotLabel(s.stable))) == Some(part)
    requires GoodImage(env, d.cells, part.offset, img)
    ensures BootFrom(env, ChipNow(env, d, earlier), call, b)
         == Started(part, img.Header(), LoadTrace(img.segs, Done))
  {
    hide Find, BootFrom, GoodImage, AfterBoot, AfterRun, Actions, ActionOf, Expected, LastDisturbance;
    RunCourse(env.ota, d.cells, earlier);
    OneBoot(env.ota, AfterRun(env.ota, d.cells, earlier), b);
    GoodImageBoots(env, d, earlier, b, call, part, img);
  }

  /** And until then it starts the image on probation, as the try that the sound boots have counted up to. */
  lemma PendingImageStarts(env: Env, d: Dev, earlier: seq<BootInputs>, b: BootInputs, call: nat, s: OtaData,
                           part: PartitionEntry, img: Image)
    requires |d.cells| < U32_MOD && (forall k :: d.status(k) == 0) && Contract(env.ota)
    requires OTADATA_OFFSET + SECTOR_SIZE <= |d.cells|
    requires var j := LastDisturbance(env.ota, d.cells, earlier);
             && OtaState(env.ota, AfterRun(env.ota, d.cells, earlier[..j])) == Some(s) && s.pending.Some?
             && SoundBoots(earlier[j..]) < TriesLeft(s, env.ota.maxAttempts)
    requires !b.faults.loadFails
    requires Find(d.cells[TABLE_OFFSET..TABLE_OFFSET + TABLE_LEN], HasLabel(SlotLabel(s.pending.value))) == Some(part)
    requires GoodImage(env, d.cells, part.offset, img)
    ensures var a := ActionOf(env.ota, AfterRun(env.ota, d.cells, earlier), b);
      a.Pending? && a.attempt == s.attempts + SoundBoots(earlier[LastDisturbance(env.ota, d.cells, earlier)..]) + 1
    ensures BootFrom(env, ChipNow(env, d, earlier), call, b)
         == Started(part, img.Header(), LoadTrace(img.segs, Done))
  {
    hide Find, BootFrom, GoodImage, AfterBoot, AfterRun, Actions, ActionOf, Expected, LastDisturbance;
    RunCourse(env.ota, d.cells, earlier);
    OneBoot(env.ota, AfterRun(env.ota, d.cells, earlier), b);
    GoodImageBoots(env, d, earlier, b, call, part, img);
  }

  /** So while every store is lost without a trace, the image on probation is started on every readable boot,
      always as the same attempt, however often it hung before. */
  lemma HangingImageStarts(env: Env, d: Dev, earlier: seq<BootInputs>, b: BootInputs, call: nat, s0: OtaData,
                           part: PartitionEntry, img: Image)
    requires |d.cells| < U32_MOD && (forall k :: d.status(k) == 0) && Contract(env.ota)
    requires OTADATA_OFFSET + SECTOR_SIZE <= |d.cells|
    requires OtaState(env.ota, d.cells) == Some(s0) && s0.pending.Some? && s0.attempts < env.ota.maxAttempts
    requires Undisturbed(env.ota, d.cells, earlier) && (forall e | e in earlier :: e.faults.storeFails)
    requires !b.faults.loadFails
    requires Find(d.cells[TABLE_OFFSET..TABLE_OFFSET + TABLE_LEN], HasLabel(SlotLabel(s0.pending.value))) == Some(part)
    requires GoodImage(env, d.cells, part.offset, img)
    ensures var a := ActionOf(env.ota, AfterRun(env.ota, d.cells, earlier), b);
      a.Pending? && a.attempt == s0.attempts + 1
    ensures BootFrom(env, ChipNow(env, d, earlier), call, b)
         == Started(part, img.Header(), LoadTrace(img.segs, Done))
  {
    hide Contract, Find, BootFrom, GoodImage, AfterBoot, ActionOf, Undisturbed;
    assert LastDisturbance(env.ota, d.cells, earlier) == 0;
    assert earlier[..0] == [] && earlier[0..] == earlier;
    NoneSound(earlier);
    PendingImageStarts(env, d, earlier, b, call, s0, part, img);
  }

  /** While otadata cannot be decoded every boot starts slot A's image, whichever slot was stable before. */
  lemma UnreadableStartsSlotA(env: Env, d: Dev, earlier: seq<BootInputs>, b: BootInputs, call: nat,
                              part: PartitionEntry, img: Image)
    requires |d.cells| < U32_MOD && (forall k :: d.status(k) == 0) && Contract(env.ota)
    requires OTADATA_OFFSET + SECTOR_SIZE <= |d.cells|
    requires b.faults.loadFails || OtaState(env.ota, AfterRun(env.ota, d.cells, earlier)) == None
    requires Find(d.cells[TABLE_OFFSET..TABLE_OFFSET + TABLE_LEN], HasLabel(SlotLabel(A))) == Some(part)
    requires GoodImage(env, d.cells, part.offset, img)
    ensures BootFrom(env, ChipNow(env, d, earlier), call, b)
         == Started(part, img.Header(), LoadTrace(img.segs, Done))
  {
    hide Find, BootFrom, GoodImage, AfterBoot, AfterRun, ActionOf;
    OneBoot(env.ota, AfterRun(env.ota, d.cells, earlier), b);
    GoodImageBoots(env, d, earlier, b, call, part, img);
  }
}
