/** The partition table at 0x8000 (`src/partition.rs`): entry codec, labels and the early-exit walk. */
module PartitionTable {
  import opened Words
  import opened FlashDevice
  import opened Utf8

  const TABLE_OFFSET: u32 := 0x8000
  const TABLE_LEN: nat := 0x400
  const ENTRY_LEN: nat := 32
  const SLOTS: nat := 32

  const ENTRY_MAGIC: u16 := 0x50AA
  const MD5_MAGIC: u16 := 0xEBEB
  const PART_TYPE_APP: byte := 0x00
  const PART_SUBTYPE_FACTORY: byte := 0x00

  type Label = b: seq<byte> | |b| == 16 witness seq<byte>(16, _ => 0)
  type Table = b: seq<byte> | |b| == TABLE_LEN witness seq<byte>(TABLE_LEN, _ => 0)

  datatype PartitionEntry = PartitionEntry(kind: byte, subtype: byte, offset: u32, size: u32, labelBytes: Label)

  datatype PartitionError = TableFault(fault: FlashError) | NoFactoryApp

  // ----- one entry -----

  function Parse(b: seq<byte>): (r: Option<PartitionEntry>)
    requires |b| == ENTRY_LEN
    ensures r.Some? <==> b[0] == 0xAA && b[1] == 0x50
  {
    if Le16(b, 0) != ENTRY_MAGIC then None
    else Some(PartitionEntry(b[2], b[3], Le32(b, 4), Le32(b, 8), b[12..28]))
  }

  /** The entry's layout; the last four bytes are flags nobody reads. */
  function EncodeEntry(e: PartitionEntry, flags: seq<byte>): (b: seq<byte>)
    requires |flags| == 4
    ensures |b| == ENTRY_LEN
  {
    [0xAA, 0x50, e.kind, e.subtype] + ToLe32(e.offset) + ToLe32(e.size) + e.labelBytes + flags
  }

  /** Parsing yields `e` exactly on the encodings of `e`, whatever the flag bytes. */
  lemma ParseInvertsEncode(b: seq<byte>, e: PartitionEntry)
    requires |b| == ENTRY_LEN
    ensures Parse(b) == Some(e) <==> b == EncodeEntry(e, b[28..])
  {
    Le32Inverse(e.offset, b[4..8]);
    Le32Inverse(e.size, b[8..12]);
    assert Le32(b, 4) == Le32(b[4..8], 0) && Le32(b, 8) == Le32(b[8..12], 0);
    var c := EncodeEntry(e, b[28..]);
    assert c[4..8] == ToLe32(e.offset) && c[8..12] == ToLe32(e.size) && c[12..28] == e.labelBytes;
    if Parse(b) == Some(e) {
      assert b[0] == 0xAA && b[1] == 0x50;
      assert b == b[..4] + b[4..8] + b[8..12] + b[12..28] + b[28..];
    }
  }

  /** The entry that the source's own test decodes. */
  lemma RealEntryDecodes(b: seq<byte>)
    requires |b| == 32
    requires b[..16] == [0xAA, 0x50, 0x01, 0x02, 0x00, 0x90, 0x00, 0x00, 0x00, 0x60, 0x00, 0x00, 0x6E, 0x76, 0x73, 0x00]
    requires b[16..] == seq<byte>(16, _ => 0)
    ensures Parse(b) == Some(PartitionEntry(0x01, 0x02, 0x9000, 0x6000, b[12..28]))
    ensures HasLabel([0x6E, 0x76, 0x73])(Parse(b).value)
  {
    hide HasLabel, IsUtf8;
    var nvs: seq<byte> := [0x6E, 0x76, 0x73];
    forall i | 0 <= i < 16 ensures b[i] == b[..16][i] && b[16 + i] == b[16..][i] {}
    assert Le32(b, 4) == 0x9000 && Le32(b, 8) == 0x6000;
    assert b[12..28] == nvs + seq<byte>(13, _ => 0);
    AsciiIsUtf8(nvs);
    StoredLabelMatches(Parse(b).value, nvs, nvs);
  }

  // ----- labels -----

  function NulPosition(b: seq<byte>): (n: nat)
    ensures n <= |b| && (forall i | 0 <= i < n :: b[i] != 0) && (n < |b| ==> b[n] == 0)
  {
    if b == [] || b[0] == 0 then 0 else 1 + NulPosition(b[1..])
  }

  function Trimmed(b: Label): seq<byte> {
    b[..NulPosition(b)]
  }

  /** `label_str`, as the bytes of the string: empty when the label is not UTF-8. */
  function LabelStr(e: PartitionEntry): (s: seq<byte>)
    ensures IsUtf8(s)
  {
    var s := Trimmed(e.labelBytes);
    if IsUtf8(s) then s else []
  }

  /** The label's bytes are those of `s` and then, if there is room, a NUL. */
  predicate Spells(b: Label, s: seq<byte>) {
    |s| <= 16 && b[..|s|] == s && (forall i | 0 <= i < |s| :: s[i] != 0x00) && (|s| < 16 ==> b[|s|] == 0x00)
  }

  lemma SpellsIff(b: Label, s: seq<byte>)
    ensures Spells(b, s) <==> s == Trimmed(b)
  {
    var n := NulPosition(b);
    if Spells(b, s) {
      assert forall i | 0 <= i < |s| :: b[i] == b[..|s|][i];
      assert |s| == n;
    }
  }

  /** A string matches a label if and only if the label spells it, except that the empty string also matches every
      label that is not UTF-8. */
  lemma LabelMatchIff(e: PartitionEntry, text: seq<byte>)
    requires IsUtf8(text)
    ensures HasLabel(text)(e)
            <==> Spells(e.labelBytes, text) || (text == [] && forall s :: Spells(e.labelBytes, s) ==> !IsUtf8(s))
  {
    hide IsUtf8, Spells, Trimmed;
    forall s ensures Spells(e.labelBytes, s) <==> s == Trimmed(e.labelBytes) {
      SpellsIff(e.labelBytes, s);
    }
    assert Spells(e.labelBytes, Trimmed(e.labelBytes));
  }

  /** Every non-empty string of at most 16 bytes without NUL, stored with a NUL behind it if it is shorter, is found
      by itself only. */
  lemma StoredLabelMatches(e: PartitionEntry, name: seq<byte>, text: seq<byte>)
    requires 0 < |name| <= 16 && IsUtf8(name) && IsUtf8(text) && (forall i | 0 <= i < |name| :: name[i] != 0)
    requires e.labelBytes[..|name|] == name && (|name| < 16 ==> e.labelBytes[|name|] == 0)
    ensures HasLabel(text)(e) <==> text == name
  {
    SpellsIff(e.labelBytes, name);
  }

  // ----- the walk -----

  function SlotBytes(t: Table, i: nat): (b: seq<byte>)
    requires i < SLOTS
    ensures |b| == ENTRY_LEN
  {
    t[ENTRY_LEN * i..ENTRY_LEN * (i + 1)]
  }

  /** The walk goes on past this slot: an entry or an MD5 marker. */
  predicate Listed(t: Table, i: nat)
    requires i < SLOTS
  {
    Le16(SlotBytes(t, i), 0) == ENTRY_MAGIC || Le16(SlotBytes(t, i), 0) == MD5_MAGIC
  }

  /** In bytes: the slot starts with AA 50 or with EB EB. */
  lemma ListedBytes(t: Table, i: nat)
    requires i < 32
    ensures Listed(t, i) <==>
      (t[32 * i] == 0xAA && t[32 * i + 1] == 0x50) || (t[32 * i] == 0xEB && t[32 * i + 1] == 0xEB)
    ensures Listed(t, i) <==> MagicBytes(t, i) == [0xAA, 0x50] || MagicBytes(t, i) == [0xEB, 0xEB]
  {
    var b := SlotBytes(t, i);
    assert b[0] == t[32 * i] && b[1] == t[32 * i + 1];
  }

  function MagicBytes(t: Table, i: nat): seq<byte>
    requires i < 32
  {
    t[32 * i..32 * i + 2]
  }

  /** What the walk finds from slot `i` on. */
  function FindFrom(t: Table, i: nat, want: PartitionEntry -> bool): Option<PartitionEntry>
    requires i <= SLOTS
    decreases SLOTS - i
  {
    if i == SLOTS || !Listed(t, i) then None
    else
      var e := Parse(SlotBytes(t, i));
      if e.Some? && want(e.value) then e else FindFrom(t, i + 1, want)
  }

  function Find(t: Table, want: PartitionEntry -> bool): Option<PartitionEntry> {
    FindFrom(t, 0, want)
  }

  /** No slot up to `i` starts with anything but AA 50 or EB EB. */
  ghost predicate InPrefix(t: Table, i: nat) {
    i < 32 && forall j: nat | j <= i :: MagicBytes(t, j) == [0xAA, 0x50] || MagicBytes(t, j) == [0xEB, 0xEB]
  }

  /** Slot `i` lies in that prefix and encodes the wanted entry `e`. */
  ghost predicate Offers(t: Table, i: nat, want: PartitionEntry -> bool, e: PartitionEntry) {
    InPrefix(t, i) && EncodedAt(t, i, e) && want(e)
  }

  /** The 32 bytes of slot `i` encode `e`, whatever the flags. */
  ghost predicate EncodedAt(t: Table, i: nat, e: PartitionEntry) {
    i < 32 && t[32 * i..32 * i + 32] == EncodeEntry(e, t[32 * i + 28..32 * i + 32])
  }

  lemma OffersIff(t: Table, i: nat, want: PartitionEntry -> bool, e: PartitionEntry)
    ensures Offers(t, i, want, e)
      <==> i < SLOTS && (forall j | 0 <= j <= i :: Listed(t, j)) && Parse(SlotBytes(t, i)) == Some(e) && want(e)
  {
    hide Parse, Listed, EncodeEntry, MagicBytes;
    if i < SLOTS {
      ParseInvertsEncode(SlotBytes(t, i), e);
      SliceOfSlice(t, ENTRY_LEN * i, ENTRY_LEN * (i + 1), 28, 32);
      forall j: nat | j <= i
        ensures Listed(t, j) <==> MagicBytes(t, j) == [0xAA, 0x50] || MagicBytes(t, j) == [0xEB, 0xEB]
      {
        ListedBytes(t, j);
      }
    }
  }

  ghost predicate FirstOffer(t: Table, i: nat, want: PartitionEntry -> bool, e: PartitionEntry) {
    Offers(t, i, want, e) && forall j: nat, f | j < i :: !Offers(t, j, want, f)
  }

  /** The walk returns the first offer of the listed prefix, and nothing exactly when there is none. */
  lemma FindIsFirstOffer(t: Table, want: PartitionEntry -> bool)
    ensures Find(t, want) == None <==> !exists i: nat, e :: Offers(t, i, want, e)
    ensures forall e :: Find(t, want) == Some(e) <==> exists i: nat :: FirstOffer(t, i, want, e)
  {
    hide Offers, FindFrom;
    var i := FirstOfferFrom(t, 0, want);
    var found := Find(t, want);
    if found.Some? {
      assert FirstOffer(t, i, want, found.value);
      forall e, k: nat | FirstOffer(t, k, want, e) ensures e == found.value {
        assert k == i;
        OneOffer(t, i, want, e, found.value);
      }
    }
  }

  lemma OneOffer(t: Table, i: nat, want: PartitionEntry -> bool, e: PartitionEntry, f: PartitionEntry)
    requires Offers(t, i, want, e) && Offers(t, i, want, f)
    ensures e == f
  {
    hide Offers;
    OffersIff(t, i, want, e);
    OffersIff(t, i, want, f);
  }

  lemma {:induction false} FirstOfferFrom(t: Table, from: nat, want: PartitionEntry -> bool) returns (i: nat)
    requires from <= SLOTS && forall j | 0 <= j < from :: Listed(t, j)
    ensures match FindFrom(t, from, want)
            case Some(e) =>
              from <= i && Offers(t, i, want, e) && forall j: nat, f | from <= j < i :: !Offers(t, j, want, f)
            case None => forall j: nat, f | from <= j :: !Offers(t, j, want, f)
    decreases SLOTS - from
  {
    hide Parse, SlotBytes, Listed, Offers;
    i := from;
    forall j: nat, f
      ensures Offers(t, j, want, f) <==>
        j < SLOTS && (forall k | 0 <= k <= j :: Listed(t, k)) && Parse(SlotBytes(t, j)) == Some(f) && want(f)
    {
      OffersIff(t, j, want, f);
    }
    if from == SLOTS || !Listed(t, from) {
    } else {
      var e := Parse(SlotBytes(t, from));
      if !(e.Some? && want(e.value)) {
        i := FirstOfferFrom(t, from + 1, want);
      }
    }
  }

  /** A slot that starts with neither AA 50 nor EB EB ends the table: what lies behind it plays no part. */
  lemma TerminatorHidesRest(t: Table, u: Table, end: nat, want: PartitionEntry -> bool)
    requires end < 32 && MagicBytes(t, end) != [0xAA, 0x50] && MagicBytes(t, end) != [0xEB, 0xEB]
    requires t[..32 * end + 2] == u[..32 * end + 2]
    ensures Find(t, want) == Find(u, want)
  {
    hide Parse, Listed;
    ListedBytes(t, end);
    ListedBytes(u, end);
    assert MagicBytes(t, end) == t[..32 * end + 2][32 * end..] == MagicBytes(u, end);
    forall j | 0 <= j < end ensures SlotBytes(t, j) == SlotBytes(u, j) {
      SliceOfSlice(t, 0, 32 * end + 2, 32 * j, 32 * (j + 1));
      SliceOfSlice(u, 0, 32 * end + 2, 32 * j, 32 * (j + 1));
    }
    RestIsHidden(t, u, 0, end, want);
  }

  lemma {:induction false} RestIsHidden(t: Table, u: Table, from: nat, end: nat, want: PartitionEntry -> bool)
    requires from <= end < SLOTS && !Listed(t, end) && !Listed(u, end)
    requires forall j | from <= j < end :: SlotBytes(t, j) == SlotBytes(u, j)
    ensures FindFrom(t, from, want) == FindFrom(u, from, want)
    decreases end - from
  {
    hide Parse, SlotBytes;
    if from == end {
    } else {
      assert SlotBytes(t, from) == SlotBytes(u, from);
      RestIsHidden(t, u, from + 1, end, want);
    }
  }

  /** The table with `marker` put in at slot `p`, everything from there on moving up one slot. */
  function Insert(t: Table, p: nat, marker: seq<byte>): Table
    requires p < SLOTS && |marker| == ENTRY_LEN
  {
    t[..ENTRY_LEN * p] + marker + t[ENTRY_LEN * p..TABLE_LEN - ENTRY_LEN]
  }

  lemma InsertSlots(t: Table, p: nat, marker: seq<byte>)
    requires p < SLOTS && |marker| == ENTRY_LEN
    ensures forall j | 0 <= j < p :: SlotBytes(Insert(t, p, marker), j) == SlotBytes(t, j)
    ensures SlotBytes(Insert(t, p, marker), p) == marker
    ensures forall j | p <= j < SLOTS - 1 :: SlotBytes(Insert(t, p, marker), j + 1) == SlotBytes(t, j)
  {
    var u := Insert(t, p, marker);
    var moved := t[ENTRY_LEN * p..TABLE_LEN - ENTRY_LEN];
    assert u[ENTRY_LEN * (p + 1)..TABLE_LEN] == moved;
    forall j | p <= j < SLOTS - 1 ensures SlotBytes(u, j + 1) == SlotBytes(t, j) {
      var k := ENTRY_LEN * (j - p);
      SliceOfSlice(u, ENTRY_LEN * (p + 1), TABLE_LEN, k, k + ENTRY_LEN);
      SliceOfSlice(t, ENTRY_LEN * p, TABLE_LEN - ENTRY_LEN, k, k + ENTRY_LEN);
      assert SlotBytes(u, j + 1) == moved[k..k + ENTRY_LEN] == SlotBytes(t, j);
    }
  }

  /** Adding an MD5 marker anywhere up to the terminator never changes what is found. */
  lemma Md5MarkerIsInvisible(t: Table, p: nat, marker: seq<byte>, end: nat, want: PartitionEntry -> bool)
    requires p <= end < 32 && MagicBytes(t, end) != [0xAA, 0x50] && MagicBytes(t, end) != [0xEB, 0xEB]
    requires |marker| == 32 && marker[..2] == [0xEB, 0xEB]
    ensures Find(Insert(t, p, marker), want) == Find(t, want)
  {
    hide Insert;
    ListedBytes(t, end);
    assert marker[0] == marker[..2][0] && marker[1] == marker[..2][1];
    InsertSlots(t, p, marker);
    MarkerFrom(t, Insert(t, p, marker), 0, p, end, want);
  }

  lemma {:induction false} MarkerFrom(t: Table, u: Table, from: nat, p: nat, end: nat, want: PartitionEntry -> bool)
    requires from <= p <= end < SLOTS && !Listed(t, end)
    requires forall j | 0 <= j < p :: SlotBytes(u, j) == SlotBytes(t, j)
    requires Le16(SlotBytes(u, p), 0) == MD5_MAGIC
    requires forall j | p <= j < SLOTS - 1 :: SlotBytes(u, j + 1) == SlotBytes(t, j)
    ensures FindFrom(u, from, want) == FindFrom(t, from, want)
    decreases p - from
  {
    hide SlotBytes;
    if from == p {
      ShiftedFrom(t, u, p, end, want);
    } else {
      assert SlotBytes(u, from) == SlotBytes(t, from);
      MarkerFrom(t, u, from + 1, p, end, want);
    }
  }

  lemma {:induction false} ShiftedFrom(t: Table, u: Table, from: nat, end: nat, want: PartitionEntry -> bool)
    requires from <= end < SLOTS && !Listed(t, end)
    requires forall j | from <= j < SLOTS - 1 :: SlotBytes(u, j + 1) == SlotBytes(t, j)
    ensures FindFrom(u, from + 1, want) == FindFrom(t, from, want)
    decreases end - from
  {
    hide Parse;
    if from == end {
      assert from + 1 < SLOTS ==> SlotBytes(u, from + 1) == SlotBytes(t, from);
    } else {
      assert SlotBytes(u, from + 1) == SlotBytes(t, from);
      ShiftedFrom(t, u, from + 1, end, want);
    }
  }

  // ----- lookups -----

  function IsFactory(): PartitionEntry -> bool {
    (e: PartitionEntry) => e.kind == PART_TYPE_APP && e.subtype == PART_SUBTYPE_FACTORY
  }

  function HasLabel(text: seq<byte>): PartitionEntry -> bool {
    (e: PartitionEntry) => LabelStr(e) == text
  }

  /** A slot of the prefix holds an entry with type and subtype 0. */
  ghost predicate FactorySlot(t: Table, i: nat) {
    InPrefix(t, i) && t[32 * i..32 * i + 4] == [0xAA, 0x50, 0x00, 0x00]
  }

  /** The factory app is the entry in the first such slot, and there is none exactly if there is no such slot. */
  lemma FactoryBytes(t: Table)
    ensures Find(t, IsFactory()) == None <==> !exists i: nat :: FactorySlot(t, i)
    ensures forall e :: Find(t, IsFactory()) == Some(e) <==>
      exists i: nat :: FactorySlot(t, i) && (forall j: nat | j < i :: !FactorySlot(t, j)) && EncodedAt(t, i, e)
  {
    hide Find, Offers, FactorySlot, EncodedAt, IsFactory;
    var slots := iset i: nat | FactorySlot(t, i);
    assert forall i: nat :: i in slots <==> FactorySlot(t, i);
    forall i: nat, e ensures Offers(t, i, IsFactory(), e) <==> i in slots && EncodedAt(t, i, e) {
      FactorySlotOffers(t, i, e);
    }
    forall i: nat | i in slots ensures exists e :: EncodedAt(t, i, e) {
      FactorySlotStart(t, i);
      EntryIsEncoded(t, i);
    }
    FirstOfSlots(t, IsFactory(), slots);
  }

  lemma FactorySlotStart(t: Table, i: nat)
    requires FactorySlot(t, i)
    ensures i < 32 && MagicBytes(t, i) == [0xAA, 0x50]
  {
    assert MagicBytes(t, i) == t[32 * i..32 * i + 4][..2];
  }

  lemma FactorySlotOffers(t: Table, i: nat, e: PartitionEntry)
    ensures Offers(t, i, IsFactory(), e) <==> FactorySlot(t, i) && EncodedAt(t, i, e)
  {
    hide ToLe32, MagicBytes;
    hide InPrefix;
    if i < 32 {
      var b, flags := t[32 * i..32 * i + 32], t[32 * i + 28..32 * i + 32];
      assert b[..4] == t[32 * i..32 * i + 4] && b[..2] == MagicBytes(t, i) by { SlotPrefixes(t, i); }
      assert EncodeEntry(e, flags)[..4] == [0xAA, 0x50, e.kind, e.subtype];
      if FactorySlot(t, i) {
        assert MagicBytes(t, i) == t[32 * i..32 * i + 4][..2];
      }
    }
  }

  lemma SlotPrefixes(t: Table, i: nat)
    requires i < 32
    ensures t[32 * i..32 * i + 32][..4] == t[32 * i..32 * i + 4]
    ensures t[32 * i..32 * i + 32][..2] == t[32 * i..32 * i + 4][..2] == MagicBytes(t, i)
  {
    SliceOfSlice(t, 32 * i, 32 * i + 32, 0, 4);
    SliceOfSlice(t, 32 * i, 32 * i + 32, 0, 2);
    SliceOfSlice(t, 32 * i, 32 * i + 4, 0, 2);
  }

  /** The entry that the bytes of slot `i` describe. */
  function EntryIn(t: Table, i: nat): PartitionEntry
    requires i < 32
  {
    var b := SlotBytes(t, i);
    PartitionEntry(b[2], b[3], Le32(b, 4), Le32(b, 8), b[12..28])
  }

  lemma EntryIsEncoded(t: Table, i: nat)
    requires i < 32 && MagicBytes(t, i) == [0xAA, 0x50]
    ensures EncodedAt(t, i, EntryIn(t, i))
  {
    hide EncodeEntry;
    var b := SlotBytes(t, i);
    assert b[0] == MagicBytes(t, i)[0] && b[1] == MagicBytes(t, i)[1];
    ParseInvertsEncode(b, EntryIn(t, i));
    SliceOfSlice(t, ENTRY_LEN * i, ENTRY_LEN * (i + 1), 28, 32);
  }

  /** If the slots that offer a wanted entry are these, the first of them has what is found. */
  lemma FirstOfSlots(t: Table, want: PartitionEntry -> bool, slots: iset<nat>)
    requires forall i: nat | i in slots :: exists e :: EncodedAt(t, i, e)
    requires forall i: nat, e :: Offers(t, i, want, e) <==> i in slots && EncodedAt(t, i, e)
    ensures Find(t, want) == None <==> forall i: nat :: i !in slots
    ensures forall e :: Find(t, want) == Some(e) <==>
      exists i: nat :: i in slots && (forall j: nat | j < i :: j !in slots) && EncodedAt(t, i, e)
  {
    hide Find, Offers, EncodedAt;
    FindIsFirstOffer(t, want);
    forall i: nat, e ensures FirstOffer(t, i, want, e)
      <==> i in slots && (forall j: nat | j < i :: j !in slots) && EncodedAt(t, i, e)
    {
      if FirstOffer(t, i, want, e) {
        forall j: nat | j < i ensures j !in slots {
          assert forall f :: !Offers(t, j, want, f);
        }
      }
    }
  }

  /** One lookup: a single ROM read of the table, then the walk. */
  function LookupAt(d: Dev, call: nat, want: PartitionEntry -> bool): Result<PartitionEntry, PartitionError> {
    match RomRead(d, call, TABLE_OFFSET, TABLE_LEN)
    case Err(e) => Err(TableFault(e))
    case Ok(t) =>
      match Find(t, want)
      case Some(e) => Ok(e)
      case None => Err(NoFactoryApp)
  }

  /** The table is the 1024 bytes at 0x8000, read in one ROM call whose failure is handed on. */
  lemma LookupBytes(d: Dev, call: nat, want: PartitionEntry -> bool)
    ensures d.status(call) != 0 ==> LookupAt(d, call, want) == Err(TableFault(Rom(d.status(call))))
    ensures d.status(call) == 0 && 0x8400 <= |d.cells| ==>
      LookupAt(d, call, want) == match Find(d.cells[0x8000..0x8400], want)
                                 case Some(e) => Ok(e)
                                 case None => Err(NoFactoryApp)
    ensures LookupAt(d, call, want).Ok? ==> d.status(call) == 0 && 0x8400 <= |d.cells|
  {
    hide Find;
  }

  /** The callback of a lookup: keeps the first entry it wants and then stops the walk. */
  class Finder {
    const want: PartitionEntry -> bool
    var found: Option<PartitionEntry>

    constructor (want: PartitionEntry -> bool)
      ensures this.want == want && found == None
    {
      this.want, found := want, None;
    }

    method Visit(e: PartitionEntry) returns (goOn: bool)
      modifies this
      ensures goOn == !want(e)
      ensures found == if want(e) then Some(e) else old(found)
    {
      if want(e) {
        found := Some(e);
      }
      goOn := !want(e);
    }
  }

  method ForEachEntry(flash: Flash, f: Finder) returns (r: Result<(), FlashError>)
    requires flash.Valid() && f.found == None
    modifies flash`calls, f
    ensures flash.calls == old(flash.calls) + 1
    ensures match RomRead(flash.View(), old(flash.calls), TABLE_OFFSET, TABLE_LEN)
            case Err(e) => r == Err(e)
            case Ok(t) => r == Ok(()) && f.found == Find(t, f.want)
  {
    hide RomRead, Parse, Le32;
    var read := flash.ReadInto(TABLE_OFFSET, WORD_ARRAY, TABLE_LEN);
    if read.Err? {
      return Err(read.error);
    }
    var table: Table := read.value;
    var entry := new byte[ENTRY_LEN](_ => 0);
    for i := 0 to SLOTS
      invariant flash.calls == old(flash.calls) + 1 && f.found == None
      invariant Find(table, f.want) == FindFrom(table, i, f.want)
    {
      forall k | 0 <= k < ENTRY_LEN {
        entry[k] := table[ENTRY_LEN * i + k];
      }
      assert entry[..] == SlotBytes(table, i);
      var magic := Le16(entry[..], 0);
      if magic == ENTRY_MAGIC {
        var e := Parse(entry[..]);
        if e.Some? {
          var goOn := f.Visit(e.value);
          if !goOn {
            return Ok(());
          }
        }
      } else if magic == MD5_MAGIC {
      } else {
        break;
      }
    }
    return Ok(());
  }

  method FindFactoryApp(flash: Flash) returns (r: Result<PartitionEntry, PartitionError>)
    requires flash.Valid()
    modifies flash`calls
    ensures r == LookupAt(flash.View(), old(flash.calls), IsFactory())
    ensures flash.calls == old(flash.calls) + 1
  {
    var finder := new Finder(IsFactory());
    var walk := ForEachEntry(flash, finder);
    if walk.Err? {
      return Err(TableFault(walk.error));
    }
    return if finder.found.Some? then Ok(finder.found.value) else Err(NoFactoryApp);
  }

  method FindByLabel(flash: Flash, text: seq<byte>) returns (r: Result<PartitionEntry, PartitionError>)
    requires flash.Valid()
    modifies flash`calls
    ensures r == LookupAt(flash.View(), old(flash.calls), HasLabel(text))
    ensures flash.calls == old(flash.calls) + 1
  {
    var finder := new Finder(HasLabel(text));
    var walk := ForEachEntry(flash, finder);
    if walk.Err? {
      return Err(TableFault(walk.error));
    }
    return if finder.found.Some? then Ok(finder.found.value) else Err(NoFactoryApp);
  }
}
