/** The application image on flash (`src/app.rs`): header, the size walk that skips segment data,
    and the walk that copies it. */
module AppImage {
  import opened Words
  import opened Memory
  import opened FlashDevice

  const IMAGE_MAGIC: byte := 0xE9
  const IMAGE_HEADER_SIZE: u32 := 24
  const SEGMENT_HEADER_SIZE: u32 := 8
  const HASH_LEN: u32 := 32
  const MAX_SEGMENT: u32 := 0x80_0000
  /** The largest total size the size walk can report. */
  const MAX_TOTAL: u32 := 0x7F80_0840

  datatype ImageHeader = ImageHeader(
    magic: byte, segmentCount: byte, entryAddr: u32, chipId: u16, hashAppended: bool)

  datatype AppLoadError =
    | FlashFault(fault: FlashError)
    | BadMagic(found: byte)
    | SegmentTooLarge(tooLarge: u32)
    | UnalignedSegment(unaligned: u32)

  datatype Segment = Segment(loadAddr: u32, data: seq<byte>)

  // ----- what the three routines compute, as functions of the device -----

  function DecodeHeader(b: seq<byte>): Result<ImageHeader, AppLoadError>
    requires |b| == 24
  {
    if b[0] != IMAGE_MAGIC then Err(BadMagic(b[0]))
    else Ok(ImageHeader(b[0], b[1], Le32(b, 4), Le16(b, 12), b[23] != 0))
  }

  function HeaderAt(d: Dev, call: nat, off: u32): Result<ImageHeader, AppLoadError> {
    match RomRead(d, call, off, IMAGE_HEADER_SIZE)
    case Err(e) => Err(FlashFault(e))
    case Ok(b) => DecodeHeader(b)
  }

  /** What one turn of the size walk finds at `pos`: the segment's data length. */
  function LengthAt(d: Dev, call: nat, pos: u32): (r: Result<u32, AppLoadError>)
    ensures r.Ok? ==> r.value <= MAX_SEGMENT
  {
    match RomRead(d, call, pos, SEGMENT_HEADER_SIZE)
    case Err(e) => Err(FlashFault(e))
    case Ok(b) =>
      var dataLen := Le32(b, 4);
      if dataLen > MAX_SEGMENT then Err(SegmentTooLarge(dataLen)) else Ok(dataLen)
  }

  /** Bytes taken by `n` segments whose first header is at `pos`, looking at headers only. */
  function SizeFrom(d: Dev, call: nat, pos: u32, n: nat): (r: Result<nat, AppLoadError>)
    ensures r.Ok? ==> r.value <= n * 0x80_0008
    decreases n
  {
    if n == 0 then Ok(0)
    else match LengthAt(d, call, pos)
      case Err(e) => Err(e)
      case Ok(len) =>
        AddSize(SEGMENT_HEADER_SIZE + len, SizeFrom(d, call + 1, WrapAdd(pos, SEGMENT_HEADER_SIZE + len), n - 1))
  }

  function AddSize(size: nat, r: Result<nat, AppLoadError>): Result<nat, AppLoadError> {
    match r
    case Err(e) => Err(e)
    case Ok(rest) => Ok(size + rest)
  }

  /** Size of an image whose segments take `body` bytes. */
  function ImageSize(body: nat, hashAppended: bool): (r: nat)
    ensures r % 16 == 0 && r % 4 == 0
    ensures IMAGE_HEADER_SIZE + body < r <= IMAGE_HEADER_SIZE + body + 16 + HASH_LEN
    ensures hashAppended ==> 64 <= r
  {
    hide PaddedWithChecksum;
    PaddedWithChecksum(IMAGE_HEADER_SIZE + body) + if hashAppended then HASH_LEN else 0
  }

  function SizeAt(d: Dev, call: nat, off: u32, h: ImageHeader): (r: Result<u32, AppLoadError>)
    ensures r.Ok? ==> 32 <= r.value <= MAX_TOTAL && r.value % 16 == 0 && r.value % 4 == 0
    ensures r.Ok? && h.hashAppended ==> 64 <= r.value
  {
    hide SizeFrom, ImageSize, WrapAdd;
    match SizeFrom(d, call, WrapAdd(off, IMAGE_HEADER_SIZE), h.segmentCount)
    case Err(e) => Err(e)
    case Ok(body) => Ok(ImageSize(body, h.hashAppended))
  }

  /** How the copying walk ends. When the copy of a segment's data itself failed,
      `torn` gives the addresses whose contents are then unknown. */
  datatype LoadEnd = Done | Stopped(error: AppLoadError, tornAt: u32, tornLen: nat)

  /** The segments copied in full, in order, and how the walk ended. */
  datatype LoadTrace = LoadTrace(segs: seq<Segment>, end: LoadEnd)

  /** One turn of the copying walk with its header at `pos`. */
  datatype Copy = Copied(seg: Segment) | Failed(error: AppLoadError, tornAt: u32, tornLen: nat)

  function CopyAt(d: Dev, call: nat, pos: u32): (c: Copy)
    ensures c.Copied? ==> |c.seg.data| <= MAX_SEGMENT
  {
    match RomRead(d, call, pos, SEGMENT_HEADER_SIZE)
    case Err(e) => Failed(FlashFault(e), 0, 0)
    case Ok(b) =>
      var loadAddr, dataLen := Le32(b, 0), Le32(b, 4);
      if dataLen > MAX_SEGMENT then Failed(SegmentTooLarge(dataLen), 0, 0)
      else if dataLen % 4 != 0 then Failed(UnalignedSegment(dataLen), 0, 0)
      else if loadAddr % 4 != 0 then Failed(FlashFault(Unaligned), 0, 0)
      else match RomRead(d, call + 1, WrapAdd(pos, SEGMENT_HEADER_SIZE), dataLen)
        case Err(e) => Failed(FlashFault(e), loadAddr, dataLen)
        case Ok(data) => Copied(Segment(loadAddr, data))
  }

  function NextPos(pos: u32, seg: Segment): u32
    requires |seg.data| <= MAX_SEGMENT
  {
    WrapAdd(WrapAdd(pos, SEGMENT_HEADER_SIZE), |seg.data|)
  }

  function LoadFrom(d: Dev, call: nat, pos: u32, n: nat): LoadTrace
    decreases n
  {
    if n == 0 then LoadTrace([], Done)
    else match CopyAt(d, call, pos)
      case Failed(e, at, len) => LoadTrace([], Stopped(e, at, len))
      case Copied(seg) => After([seg], LoadFrom(d, call + 2, NextPos(pos, seg), n - 1))
  }

  function After(segs: seq<Segment>, t: LoadTrace): LoadTrace {
    LoadTrace(segs + t.segs, t.end)
  }

  lemma AfterIsAssociative(a: seq<Segment>, b: seq<Segment>, t: LoadTrace)
    ensures After(a, After(b, t)) == After(a + b, t)
  {
    assert a + (b + t.segs) == (a + b) + t.segs;
  }

  function LoadAt(d: Dev, call: nat, off: u32, h: ImageHeader): LoadTrace {
    LoadFrom(d, call, WrapAdd(off, IMAGE_HEADER_SIZE), h.segmentCount)
  }

  /** Memory after the segments are stored one after the other. */
  function Apply(mem: seq<byte>, segs: seq<Segment>): (m: seq<byte>)
    requires |mem| == U32_MOD
    ensures |m| == U32_MOD
  {
    if segs == [] then mem
    else
      var last := |segs| - 1;
      Overwrite(Apply(mem, segs[..last]), segs[last].loadAddr, segs[last].data)
  }

  /** A copying walk with this trace wrote, or may have written, where the bootloader runs. */
  predicate HitsLoader(t: LoadTrace) {
    SomeHitsLoader(t.segs) || (t.end.Stopped? && ReachesLoader(t.end.tornAt, t.end.tornLen))
  }

  predicate SomeHitsLoader(segs: seq<Segment>) {
    exists i | 0 <= i < |segs| :: ReachesLoader(segs[i].loadAddr, |segs[i].data|)
  }

  lemma SomeHitsSplit(segs: seq<Segment>, s: Segment)
    ensures SomeHitsLoader(segs + [s]) <==> SomeHitsLoader(segs) || ReachesLoader(s.loadAddr, |s.data|)
  {
    var all := segs + [s];
    assert all[|segs|] == s;
    if i :| 0 <= i < |segs| && ReachesLoader(segs[i].loadAddr, |segs[i].data|) {
      assert all[i] == segs[i];
    }
  }

  predicate CopyHitsLoader(c: Copy) {
    match c
    case Copied(seg) => ReachesLoader(seg.loadAddr, |seg.data|)
    case Failed(_, at, len) => ReachesLoader(at, len)
  }

  /** What the copying walk did to memory. */
  ghost predicate LoadEffect(before: seq<byte>, after: seq<byte>, t: LoadTrace)
    requires |before| == |after| == U32_MOD
  {
    match t.end
    case Done => after == Apply(before, t.segs)
    case Stopped(_, at, len) => SameOutside(Apply(before, t.segs), after, at, len)
  }

  // ----- what one header and one turn of each walk make of the bytes on flash -----

  /** The word at `p`, or 0 beyond the chip. */
  function WordAt(cells: seq<byte>, p: nat): u32 {
    if p + 4 <= |cells| then Le32(cells, p) else 0
  }

  lemma WordBytes(cells: seq<byte>, p: nat)
    requires p + 4 <= |cells|
    ensures WordAt(cells, p) == cells[p] + cells[p + 1] as int * 0x100 + cells[p + 2] as int * 0x1_0000
                                + cells[p + 3] as int * 0x100_0000
  {
  }

  lemma Le32Slice(cells: seq<byte>, p: nat, q: nat, at: nat)
    requires p <= q <= |cells| && p + at + 4 <= q
    ensures Le32(cells[p..q], at) == Le32(cells, p + at)
  {
  }

  /** A header is read exactly if the ROM call succeeds, 24 bytes are on the chip and the first is 0xE9; its fields
      are the bytes at 1, 4 to 7, 12 to 13 and 23. A ROM failure and any other first byte are reported as such. */
  lemma HeaderBytes(d: Dev, call: nat, off: u32)
    ensures HeaderAt(d, call, off).Ok? <==> d.status(call) == 0 && off + 24 <= |d.cells| && d.cells[off] == 0xE9
    ensures HeaderAt(d, call, off).Ok? ==>
      var h, c := HeaderAt(d, call, off).value, d.cells;
      && h.magic == 0xE9 && h.segmentCount == c[off + 1] && h.entryAddr == WordAt(c, off + 4)
      && h.chipId == c[off + 12] + c[off + 13] as int * 0x100 && (h.hashAppended <==> c[off + 23] != 0)
    ensures d.status(call) != 0 ==> HeaderAt(d, call, off) == Err(FlashFault(Rom(d.status(call))))
    ensures forall m :: HeaderAt(d, call, off) == Err(BadMagic(m)) <==>
      d.status(call) == 0 && off + 24 <= |d.cells| && d.cells[off] == m && m != 0xE9
  {
    hide Le32;
    if off + 24 <= |d.cells| {
      var b := d.cells[off..off + 24];
      assert b[0] == d.cells[off] && b[1] == d.cells[off + 1] && b[23] == d.cells[off + 23];
      assert b[12] == d.cells[off + 12] && b[13] == d.cells[off + 13];
      Le32Slice(d.cells, off, off + 24, 4);
    }
  }

  /** One turn of the size walk: the word at `pos + 4` is the length, refused above 0x800000. */
  lemma LengthBytes(d: Dev, call: nat, pos: u32)
    ensures d.status(call) != 0 ==> LengthAt(d, call, pos) == Err(FlashFault(Rom(d.status(call))))
    ensures LengthAt(d, call, pos).Ok?
            <==> d.status(call) == 0 && pos + 8 <= |d.cells| && WordAt(d.cells, pos + 4) <= 0x80_0000
    ensures LengthAt(d, call, pos).Ok? ==> LengthAt(d, call, pos).value == WordAt(d.cells, pos + 4)
    ensures forall n :: LengthAt(d, call, pos) == Err(SegmentTooLarge(n)) <==>
      d.status(call) == 0 && pos + 8 <= |d.cells| && n == WordAt(d.cells, pos + 4) && n > 0x80_0000
    ensures LengthAt(d, call, pos).Err? ==>
      LengthAt(d, call, pos).error.FlashFault? || LengthAt(d, call, pos).error.SegmentTooLarge?
  {
    hide Le32;
    if pos + 8 <= |d.cells| {
      Le32Slice(d.cells, pos, pos + 8, 4);
    }
  }

  /** The words of a segment header that is there and can be read, and what the copying walk does with it: too large
      and odd lengths are refused before the target is looked at, and only a failed copy leaves memory torn. */
  lemma CopyBytes(d: Dev, call: nat, pos: u32)
    requires |d.cells| < 0x1_0000_0000
    ensures d.status(call) != 0 ==> CopyAt(d, call, pos) == Failed(FlashFault(Rom(d.status(call))), 0, 0)
    ensures d.status(call) == 0 && pos + 8 > |d.cells| ==> CopyAt(d, call, pos).Failed?
    ensures d.status(call) == 0 && pos + 8 <= |d.cells| ==>
      var to, len, copy := WordAt(d.cells, pos), WordAt(d.cells, pos + 4), CopyAt(d, call, pos);
      if len > 0x80_0000 then copy == Failed(SegmentTooLarge(len), 0, 0)
      else if len % 4 != 0 then copy == Failed(UnalignedSegment(len), 0, 0)
      else if to % 4 != 0 then copy == Failed(FlashFault(Unaligned), 0, 0)
      else if d.status(call + 1) != 0 then copy == Failed(FlashFault(Rom(d.status(call + 1))), to, len)
      else if pos + 8 + len > |d.cells| then
        && copy.Failed? && copy.error.FlashFault? && copy.error.fault != Unaligned
        && copy.tornAt == to && copy.tornLen == len
      else copy == Copied(Segment(to, d.cells[pos + 8..pos + 8 + len]))
  {
    hide Le32;
    if pos + 8 <= |d.cells| {
      Le32Slice(d.cells, pos, pos + 8, 0);
      Le32Slice(d.cells, pos, pos + 8, 4);
    }
  }

  /** The size of an image in terms of the bytes its segments take. */
  lemma TotalSize(d: Dev, call: nat, off: u32, h: ImageHeader)
    requires off + 24 < 0x1_0000_0000
    ensures var body := SizeFrom(d, call, off + 24, h.segmentCount);
      match SizeAt(d, call, off, h)
      case Err(e) => body == Err(e)
      case Ok(total) => body.Ok? && total == ((24 + body.value) / 16 + 1) * 16 + if h.hashAppended then 32 else 0
  {
    hide SizeFrom;
  }

  /** A load writes, or may write, where the bootloader runs exactly if some byte of a segment copied, or of one
      whose copy failed, is for an address in 0x4FF20000..0x4FF30000. */
  lemma HitsLoaderIff(t: LoadTrace)
    ensures HitsLoader(t) <==>
      || (exists i: nat, k: nat :: i < |t.segs| && k < |t.segs[i].data|
                                   && 0x4FF2_0000 <= ByteAddress(t.segs[i].loadAddr, k) < 0x4FF3_0000)
      || (t.end.Stopped? && exists k: nat :: k < t.end.tornLen
                                             && 0x4FF2_0000 <= ByteAddress(t.end.tornAt, k) < 0x4FF3_0000)
  {
    hide ReachesLoader, ByteAddress;
    forall i: nat | i < |t.segs|
      ensures ReachesLoader(t.segs[i].loadAddr, |t.segs[i].data|)
        <==> exists k: nat :: k < |t.segs[i].data| && 0x4FF2_0000 <= ByteAddress(t.segs[i].loadAddr, k) < 0x4FF3_0000
    {
      ReachesLoaderIff(t.segs[i].loadAddr, |t.segs[i].data|);
    }
    if t.end.Stopped? {
      ReachesLoaderIff(t.end.tornAt, t.end.tornLen);
    }
  }

  // ----- the routines -----

  method ReadHeader(flash: Flash, off: u32) returns (r: Result<ImageHeader, AppLoadError>)
    requires flash.Valid()
    modifies flash`calls
    ensures r == HeaderAt(flash.View(), old(flash.calls), off)
    ensures flash.calls == old(flash.calls) + 1
  {
    var read := flash.ReadInto(off, WORD_ARRAY, IMAGE_HEADER_SIZE);
    if read.Err? {
      return Err(FlashFault(read.error));
    }
    var buf := read.value;
    var magic := buf[0];
    if magic != IMAGE_MAGIC {
      return Err(BadMagic(magic));
    }
    return Ok(ImageHeader(magic, buf[1], Le32(buf, 4), Le16(buf, 12), buf[23] != 0));
  }

  method SegmentLength(flash: Flash, pos: u32) returns (r: Result<u32, AppLoadError>)
    requires flash.Valid()
    modifies flash`calls
    ensures r == LengthAt(flash.View(), old(flash.calls), pos)
    ensures flash.calls == old(flash.calls) + 1
  {
    var read := flash.ReadInto(pos, WORD_ARRAY, SEGMENT_HEADER_SIZE);
    if read.Err? {
      return Err(FlashFault(read.error));
    }
    var dataLen := Le32(read.value, 4);
    if dataLen > MAX_SEGMENT {
      return Err(SegmentTooLarge(dataLen));
    }
    return Ok(dataLen);
  }

  /** The size walk. Every sum it keeps is checked to fit a `u32`; only `pos` can wrap. */
  method ComputeImageTotalSize(flash: Flash, off: u32, h: ImageHeader) returns (r: Result<u32, AppLoadError>)
    requires flash.Valid()
    modifies flash`calls
    ensures r == SizeAt(flash.View(), old(flash.calls), off, h)
    ensures r.Ok? ==> flash.calls == old(flash.calls) + h.segmentCount
    ensures flash.calls >= old(flash.calls)
  {
    hide LengthAt, WrapAdd;
    ghost var d := flash.View();
    var n: nat := h.segmentCount;
    ghost var whole := SizeFrom(d, flash.calls, WrapAdd(off, IMAGE_HEADER_SIZE), n);
    var total: u32 := IMAGE_HEADER_SIZE;
    var pos := WrapAdd(off, IMAGE_HEADER_SIZE);
    for i := 0 to n
      invariant flash.calls == old(flash.calls) + i
      invariant IMAGE_HEADER_SIZE <= total <= IMAGE_HEADER_SIZE + i * 0x80_0008
      invariant whole == AddSize(total - IMAGE_HEADER_SIZE, SizeFrom(d, flash.calls, pos, n - i))
    {
      var len := SegmentLength(flash, pos);
      if len.Err? {
        return len;
      }
      total := total + (SEGMENT_HEADER_SIZE + len.value);
      pos := WrapAdd(pos, SEGMENT_HEADER_SIZE + len.value);
    }
    RoundingIsLeast(total, 0);
    total := total + 1;
    total := BitAnd(total + 15, MASK_16);
    if h.hashAppended {
      total := total + HASH_LEN;
    }
    return Ok(total);
  }

  method CopySegment(flash: Flash, pos: u32, ram: Ram) returns (ghost c: Copy, r: Result<u32, AppLoadError>)
    requires flash.Valid() && ram.Valid()
    modifies flash`calls, ram
    ensures ram.Valid()
    ensures c == CopyAt(flash.View(), old(flash.calls), pos)
    ensures c.Copied? ==> r == Ok(NextPos(pos, c.seg))
                          && ram.cells == Overwrite(old(ram.cells), c.seg.loadAddr, c.seg.data)
                          && flash.calls == old(flash.calls) + 2
    ensures c.Failed? ==> r == Err(c.error) && SameOutside(old(ram.cells), ram.cells, c.tornAt, c.tornLen)
    ensures ram.loaderHit == (old(ram.loaderHit) || CopyHitsLoader(c))
  {
    c := CopyAt(flash.View(), flash.calls, pos);
    var read := flash.ReadInto(pos, WORD_ARRAY, SEGMENT_HEADER_SIZE);
    if read.Err? {
      return c, Err(FlashFault(read.error));
    }
    var loadAddr := Le32(read.value, 0);
    var dataLen := Le32(read.value, 4);
    var dataPos := WrapAdd(pos, SEGMENT_HEADER_SIZE);
    if dataLen > MAX_SEGMENT {
      return c, Err(SegmentTooLarge(dataLen));
    }
    if dataLen % 4 != 0 {
      return c, Err(UnalignedSegment(dataLen));
    }
    var copy := flash.ReadToRam(dataPos, ram, loadAddr, dataLen);
    if copy.Err? {
      return c, Err(FlashFault(copy.error));
    }
    return c, Ok(WrapAdd(dataPos, dataLen));
  }

  /** The copying walk. */
  method LoadSegments(flash: Flash, off: u32, h: ImageHeader, ram: Ram) returns (r: Result<(), AppLoadError>)
    requires flash.Valid() && ram.Valid()
    modifies flash`calls, ram
    ensures ram.Valid()
    ensures var t := LoadAt(flash.View(), old(flash.calls), off, h);
            && r == (if t.end.Done? then Ok(()) else Err(t.end.error))
            && LoadEffect(old(ram.cells), ram.cells, t)
            && ram.loaderHit == (old(ram.loaderHit) || HitsLoader(t))
    ensures r.Ok? ==> flash.calls == old(flash.calls) + 2 * h.segmentCount
  {
    hide CopyAt, WrapAdd, NextPos, Overwrite, ReachesLoader;
    ghost var d := flash.View();
    var n: nat := h.segmentCount;
    ghost var whole := LoadAt(d, flash.calls, off, h);
    ghost var copied: seq<Segment> := [];
    var pos := WrapAdd(off, IMAGE_HEADER_SIZE);
    for i := 0 to n
      invariant ram.Valid()
      invariant flash.calls == old(flash.calls) + 2 * i
      invariant ram.cells == Apply(old(ram.cells), copied)
      invariant ram.loaderHit == (old(ram.loaderHit) || SomeHitsLoader(copied))
      invariant whole == After(copied, LoadFrom(d, flash.calls, pos, n - i))
    {
      ghost var c;
      var next;
      c, next := CopySegment(flash, pos, ram);
      if next.Err? {
        assert whole.segs == copied;
        return Err(next.error);
      }
      AfterIsAssociative(copied, [c.seg], LoadFrom(d, flash.calls, next.value, n - (i + 1)));
      assert (copied + [c.seg])[..|copied|] == copied;
      SomeHitsSplit(copied, c.seg);
      copied := copied + [c.seg];
      pos := next.value;
    }
    assert copied + [] == copied;
    return Ok(());
  }
}
