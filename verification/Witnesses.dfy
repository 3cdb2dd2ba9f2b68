/** Concrete chips, with a partition table and images that do boot, on which the promises that do not hold in
    general fail. */
module Witnesses {
  import opened Words
  import opened Memory
  import opened FlashDevice
  import opened AppImage
  import opened ImageLayout
  import opened LoadedMemory
  import opened Verify
  import opened WholeImage
  import opened PartitionTable
  import opened SlotSelect
  import opened SelectionProperties
  import opened Rollback
  import opened BootMachine
  import opened BootProperties

  // ----- a table like that of `example-partitions.csv`, app slots only -----

  function SamplePart(s: Slot): PartitionEntry {
    PartitionEntry(PART_TYPE_APP, if s == A then 0x10 else 0x11, if s == A then 0x2_0000 else 0xE_0000, 0xC_0000,
                   [0x6F, 0x74, 0x61, 0x5F, if s == A then 0x30 else 0x31] + seq<byte>(11, _ => 0))
  }

  function SampleTable(): Table {
    EncodeEntry(SamplePart(A), [0, 0, 0, 0]) + EncodeEntry(SamplePart(B), [0, 0, 0, 0])
    + seq<byte>(TABLE_LEN - 2 * ENTRY_LEN, _ => 0xFF)
  }

  lemma SampleTableSlots()
    ensures Parse(SlotBytes(SampleTable(), 0)) == Some(SamplePart(A))
    ensures Parse(SlotBytes(SampleTable(), 1)) == Some(SamplePart(B))
  {
    hide Parse, EncodeEntry, SamplePart;
    var t, flags := SampleTable(), [0, 0, 0, 0];
    var a, b := EncodeEntry(SamplePart(A), flags), EncodeEntry(SamplePart(B), flags);
    assert SlotBytes(t, 0) == a && SlotBytes(t, 1) == b;
    EntryFlags(SamplePart(A), flags);
    EntryFlags(SamplePart(B), flags);
    ParseInvertsEncode(a, SamplePart(A));
    ParseInvertsEncode(b, SamplePart(B));
  }

  lemma EntryFlags(e: PartitionEntry, flags: seq<byte>)
    requires |flags| == 4
    ensures EncodeEntry(e, flags)[28..] == flags
  {
  }

  lemma SampleTableFinds(s: Slot)
    ensures Find(SampleTable(), HasLabel(SlotLabel(s))) == Some(SamplePart(s))
  {
    hide SampleTable, SlotBytes, Parse, HasLabel, SlotLabel;
    SampleTableSlots();
    SamplePartLabels(A, s);
    SamplePartLabels(B, s);
    if s == B {
      assert FindFrom(SampleTable(), 1, HasLabel(SlotLabel(B))) == Some(SamplePart(B));
    }
  }

  lemma SamplePartLabels(stored: Slot, wanted: Slot)
    ensures HasLabel(SlotLabel(wanted))(SamplePart(stored)) <==> wanted == stored
  {
    hide HasLabel;
    SlotLabelsAreTheirOwn(SamplePart(stored), wanted);
    assert SamplePart(stored).labelBytes[..6][4] == if stored == A then 0x30 else 0x31;
    assert SamplePart(A).labelBytes[..6] == [0x6F, 0x74, 0x61, 0x5F, 0x30, 0x00];
    assert SamplePart(B).labelBytes[..6] == [0x6F, 0x74, 0x61, 0x5F, 0x31, 0x00];
  }

  // ----- a 2 MB chip -----

  /** The flash with `b` put at `at`. */
  function Place(cells: seq<byte>, at: nat, b: seq<byte>): (after: seq<byte>)
    requires at + |b| <= |cells|
    ensures |after| == |cells| && after[at..at + |b|] == b
    ensures forall i | 0 <= i < |cells| && !(at <= i < at + |b|) :: after[i] == cells[i]
  {
    cells[..at] + b + cells[at + |b|..]
  }

  lemma PlaceKeeps(cells: seq<byte>, at: nat, b: seq<byte>, lo: nat, hi: nat)
    requires at + |b| <= |cells| && lo <= hi <= |cells| && (hi <= at || at + |b| <= lo)
    ensures Place(cells, at, b)[lo..hi] == cells[lo..hi]
  {
  }

  /** The sample table, this otadata sector, and these images in the two slots. */
  function SampleChip(otadata: Sector, codeA: seq<byte>, codeB: seq<byte>): (cells: seq<byte>)
    requires |codeA| <= 0xC_0000 && |codeB| <= 0xC_0000
    ensures |cells| == 0x20_0000
  {
    Place(Place(Place(Place(seq<byte>(0x20_0000, _ => 0xFF), TABLE_OFFSET, SampleTable()), OTADATA_OFFSET, otadata),
                0x2_0000, codeA), 0xE_0000, codeB)
  }

  lemma SampleChipParts(otadata: Sector, codeA: seq<byte>, codeB: seq<byte>)
    requires |codeA| <= 0xC_0000 && |codeB| <= 0xC_0000
    ensures var cells := SampleChip(otadata, codeA, codeB);
      && cells[TABLE_OFFSET..TABLE_OFFSET + TABLE_LEN] == SampleTable()
      && OtaSector(cells) == otadata
      && Holds(cells, SamplePart(A).offset, codeA) && Holds(cells, SamplePart(B).offset, codeB)
  {
    hide SampleTable, Place;
    var c1 := Place(seq<byte>(0x20_0000, _ => 0xFF), TABLE_OFFSET, SampleTable());
    var c2 := Place(c1, OTADATA_OFFSET, otadata);
    var c3 := Place(c2, 0x2_0000, codeA);
    PlaceKeeps(c1, OTADATA_OFFSET, otadata, TABLE_OFFSET, TABLE_OFFSET + TABLE_LEN);
    PlaceKeeps(c2, 0x2_0000, codeA, TABLE_OFFSET, TABLE_OFFSET + TABLE_LEN);
    PlaceKeeps(c3, 0xE_0000, codeB, TABLE_OFFSET, TABLE_OFFSET + TABLE_LEN);
    PlaceKeeps(c2, 0x2_0000, codeA, OTADATA_OFFSET, OTADATA_OFFSET + SECTOR_SIZE);
    PlaceKeeps(c3, 0xE_0000, codeB, OTADATA_OFFSET, OTADATA_OFFSET + SECTOR_SIZE);
    PlaceKeeps(c3, 0xE_0000, codeB, 0x2_0000, 0x2_0000 + |codeA|);
  }

  /** A small hashed image for the memory that apps are meant to use. */
  function SampleImage(entry: u32): Image {
    Image(0, 0, entry, 0, [0, 0, 0], 0, seq<byte>(9, _ => 0), 1,
          [Segment(0x4FF5_0000, [0x13, 0, 0, 0])], seq<byte>(12, _ => 0))
  }

  lemma SampleImageIsGood(entry: u32, sha: seq<byte> -> Digest)
    ensures var img := SampleImage(entry);
      img.WellFormed() && Loadable(img.segs) && !SomeHitsLoader(img.segs) && |img.Encode(sha)| == 80
  {
    var img := SampleImage(entry);
    EncodedSize(img.segs);
    assert img.segs[1..] == [];
    PayloadSize(img, sha);
  }

  /** A fault-free chip with this state in otadata and a good image in each slot. */
  function GoodChip(sha: seq<byte> -> Digest, s: OtaData): (d: Dev)
    ensures |d.cells| == 0x20_0000 && (forall k :: d.status(k) == 0)
  {
    SampleImageIsGood(0x4FF5_0000, sha);
    SampleImageIsGood(0x4FF5_0004, sha);
    Dev(SampleChip(SampleEncode(s), SampleImage(0x4FF5_0000).Encode(sha), SampleImage(0x4FF5_0004).Encode(sha)), k => 0)
  }

  function ImageOfSlot(s: Slot): Image {
    SampleImage(if s == A then 0x4FF5_0000 else 0x4FF5_0004)
  }

  function SampleEnv(sha: seq<byte> -> Digest): Env {
    Env(SampleCrate(3), sha)
  }

  lemma GoodChipParts(sha: seq<byte> -> Digest, s: OtaData, slot: Slot)
    ensures var d, part := GoodChip(sha, s), SamplePart(slot);
      && OtaState(SampleCrate(3), d.cells) == Some(s)
      && Find(d.cells[TABLE_OFFSET..TABLE_OFFSET + TABLE_LEN], HasLabel(SlotLabel(slot))) == Some(part)
      && GoodImage(SampleEnv(sha), d.cells, part.offset, ImageOfSlot(slot))
  {
    hide SampleImage, SampleChip, SampleTable, SampleEncode, Find, HasLabel, SlotLabel;
    ContractCanBeMet(3);
    ReadBack(SampleCrate(3), s);
    SampleImageIsGood(0x4FF5_0000, sha);
    SampleImageIsGood(0x4FF5_0004, sha);
    SampleChipParts(SampleEncode(s), SampleImage(0x4FF5_0000).Encode(sha), SampleImage(0x4FF5_0004).Encode(sha));
    SampleTableFinds(slot);
  }

  function OnProbationState(stable: Slot, pending: Slot): OtaData {
    OtaData(stable, Some(pending), 0, seq<byte>(32, _ => 0))
  }

  /** After `earlier`, this boot of the good chip starts the image in `slot`. */
  ghost predicate StartsSlot(sha: seq<byte> -> Digest, s: OtaData, earlier: seq<BootInputs>, b: BootInputs, call: nat,
                             slot: Slot)
  {
    var img := ImageOfSlot(slot);
    SampleImageIsGood(img.entryAddr, sha);
    BootFrom(SampleEnv(sha), ChipNow(SampleEnv(sha), GoodChip(sha, s), earlier), call, b)
    == Started(SamplePart(slot), img.Header(), LoadTrace(img.segs, Done))
  }

  // ----- the histories -----

  /** A slot that is never given up. Slot B is on probation next to a good slot A, and every boot loses its store:
      whatever was booted and logged before, each boot starts slot B's image, as attempt 1 of 3. */
  lemma HangsForever(sha: seq<byte> -> Digest, earlier: seq<BootInputs>, b: BootInputs, call: nat)
    requires var f := OtaFaults(false, true, SampleEncode(OnProbationState(A, B)));
             b.faults == f && forall e | e in earlier :: e.faults == f
    ensures var ota, d := SampleCrate(3), GoodChip(sha, OnProbationState(A, B));
      var a := ActionOf(ota, AfterRun(ota, d.cells, earlier), b);
      a.Pending? && a.attempt == 1
    ensures StartsSlot(sha, OnProbationState(A, B), earlier, b, call, B)
  {
    hide SampleEncode, SampleDecode, GoodChip, ImageOfSlot, SamplePart, GoodImage, Find, BootFrom, AfterRun, ActionOf;
    var env, s0 := SampleEnv(sha), OnProbationState(A, B);
    var d := GoodChip(sha, s0);
    ContractCanBeMet(3);
    ReadBack(env.ota, s0);
    GoodChipParts(sha, s0, B);
    LosesWithoutTrace(env.ota, d.cells, earlier, s0, b.faults);
    HangingImageStarts(env, d, earlier, b, call, s0, SamplePart(B), ImageOfSlot(B));
  }

  /** A stable slot that is forgotten. Slot A is on probation next to the good stable slot B; one store fails and
      leaves the sector erased; from then on every boot starts slot A's image, whatever else happens. */
  lemma ForgetsSlotB(sha: seq<byte> -> Digest, torn: BootInputs, later: seq<BootInputs>, b: BootInputs, call: nat)
    requires torn.faults == OtaFaults(false, true, seq<byte>(SECTOR_SIZE, _ => 0xFF))
    ensures StartsSlot(sha, OnProbationState(B, A), [torn] + later, b, call, A)
  {
    hide SampleEncode, GoodChip, ImageOfSlot, SamplePart, GoodImage, Find, BootFrom, AfterBoot, ActionOf;
    var env, s0 := SampleEnv(sha), OnProbationState(B, A);
    var d := GoodChip(sha, s0);
    ContractCanBeMet(3);
    GoodChipParts(sha, s0, A);
    OneBoot(env.ota, d.cells, torn);
    StableForever(env.ota, AfterBoot(env.ota, d.cells, torn), later);
    assert ([torn] + later)[1..] == later;
    UnreadableStartsSlotA(env, d, [torn] + later, b, call, SamplePart(A), ImageOfSlot(A));
  }

  /** Without that store the same chip would have come back to slot B. */
  lemma SlotBWouldComeBack(sha: seq<byte> -> Digest, earlier: seq<BootInputs>, b: BootInputs, call: nat)
    requires (forall e | e in earlier :: Sound(e)) && |earlier| >= 3 && Sound(b)
    ensures StartsSlot(sha, OnProbationState(B, A), earlier, b, call, B)
  {
    hide SampleEncode, GoodChip, ImageOfSlot, SamplePart, GoodImage, Find, BootFrom, AfterRun, ActionOf, Undisturbed;
    var env, s0 := SampleEnv(sha), OnProbationState(B, A);
    var d := GoodChip(sha, s0);
    ContractCanBeMet(3);
    GoodChipParts(sha, s0, B);
    SoundIsUndisturbed(env.ota, d.cells, earlier);
    assert earlier[..0] == [] && earlier[0..] == earlier;
    assert AfterRun(env.ota, d.cells, []) == d.cells by { NoBoots(env.ota, d.cells); }
    StableImageComesBack(env, d, earlier, b, call, s0, SamplePart(B), ImageOfSlot(B));
  }

  lemma NoBoots(ota: OtaCrate, cells: seq<byte>)
    ensures AfterRun(ota, cells, []) == cells
  {
  }

  // ----- an image that replaces the bootloader -----

  /** A well-formed hashed image with one segment of 64 KB, all zero, for the bootloader's own memory. */
  function FatalImage(): Image {
    Image(0, 0, BOOT_BASE, 0, [0, 0, 0], 0, seq<byte>(9, _ => 0), 1,
          [Segment(BOOT_BASE, seq<byte>(0x1_0000, _ => 0))], seq<byte>(16, _ => 0))
  }

  lemma FatalImageIsWellFormed(sha: seq<byte> -> Digest)
    ensures var img := FatalImage();
      && img.WellFormed() && Loadable(img.segs) && img.hashFlag != 0 && |img.segs| == 1
      && |img.Encode(sha)| == 0x1_0050 && SomeHitsLoader(img.segs)
      && forall a: u32 | BOOT_BASE <= a < BOOT_END ::
           Hits(img.segs[0], a) && img.segs[0].data[WrapSub(a, img.segs[0].loadAddr)] == 0
  {
    var img := FatalImage();
    EncodedSize(img.segs);
    assert img.segs[1..] == [];
    assert ReachesLoader(img.segs[0].loadAddr, |img.segs[0].data|);
    PayloadSize(img, sha);
  }

  function FatalState(): OtaData {
    OtaData(A, None, 0, seq<byte>(32, _ => 0))
  }

  /** A fault-free chip with slot A stable and the fatal image in it. */
  function FatalChip(sha: seq<byte> -> Digest): (d: Dev)
    ensures |d.cells| == 0x20_0000 && (forall k :: d.status(k) == 0)
  {
    FatalImageIsWellFormed(sha);
    Dev(SampleChip(SampleEncode(FatalState()), FatalImage().Encode(sha), []), k => 0)
  }

  /** It passes header read and hash check and is loaded without complaint, by every boot of this chip, which is
      then lost: every byte of the bootloader has been replaced. */
  lemma AcceptedImageOverwritesLoader(sha: seq<byte> -> Digest, b: BootInputs, call: nat, mem: seq<byte>, a: u32)
    requires |mem| == U32_MOD && BOOT_BASE <= a < BOOT_END
    ensures var env, d, img := SampleEnv(sha), FatalChip(sha), FatalImage();
      && img.WellFormed() && img.hashFlag != 0
      && VerifyAt(ChipAfterBoot(env, d, b), call, SamplePart(A).offset, img.Header(), sha) == Ok(sha(img.Payload()))
      && BootFrom(env, d, call, b) == Overwritten(true, LoadTrace(img.segs, Done))
      && Apply(mem, img.segs)[a] == 0
  {
    FatalImageIsWellFormed(sha);
    hide FatalImage, Apply, SampleChip, SampleEncode, SampleTable, BootFrom, AfterBoot, ActionOf, Find, HasLabel;
    hide SlotLabel, SamplePart, HeaderAt, VerifyAt, EncodeSegments, Selects, SomeHitsLoader, PolicySlot;
    var env, d, img := SampleEnv(sha), FatalChip(sha), FatalImage();
    LastHitWins(mem, img.segs, a);
    FatalChipParts(sha, b);
    var after := ChipAfterBoot(env, d, b);
    RoundTrip(after, call + 1, SamplePart(A).offset, img, sha);
    RoundTrip(after, call, SamplePart(A).offset, img, sha);
    ListedSlotIsPicked(env, d, b, call, SamplePart(A));
    SelectedImageIsLoaded(env, d, call, b, SamplePart(A), img);
  }

  lemma FatalChipParts(sha: seq<byte> -> Digest, b: BootInputs)
    ensures var env, d := SampleEnv(sha), FatalChip(sha);
      var after := AfterBoot(env.ota, d.cells, b);
      && FatalImage().WellFormed()
      && PolicySlot(env, d, b) == A
      && Find(after[TABLE_OFFSET..TABLE_OFFSET + TABLE_LEN], HasLabel(SlotLabel(A))) == Some(SamplePart(A))
      && Holds(after, SamplePart(A).offset, FatalImage().Encode(sha))
  {
    FatalImageIsWellFormed(sha);
    hide FatalImage, SampleChip, SampleEncode, SampleTable, AfterBoot, ActionOf, Find, HasLabel, SlotLabel;
    var env, d, code := SampleEnv(sha), FatalChip(sha), FatalImage().Encode(sha);
    ContractCanBeMet(3);
    ReadBack(env.ota, FatalState());
    SampleChipParts(SampleEncode(FatalState()), code, []);
    SampleTableFinds(A);
    OneBoot(env.ota, d.cells, b);
    CsvSlotsAreUntouched();
    BootKeepsRange(env.ota, d.cells, b, TABLE_OFFSET, TABLE_OFFSET + TABLE_LEN);
    BootKeepsRange(env.ota, d.cells, b, 0x2_0000, 0x2_0000 + |code|);
  }
}
