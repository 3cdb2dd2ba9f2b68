/** A complete application image, its encoding on flash, and what the header read, size walk,
    hash check and copying walk make of it together. */
module WholeImage {
  import opened Words
  import opened FlashDevice
  import opened AppImage
  import opened ImageLayout
  import opened Verify

  /** Everything an image carries. `tail` is the padding with its checksum byte, whose value
      the bootloader never looks at. */
  datatype Image = Image(
    spiMode: byte, spiSizeFreq: byte, entryAddr: u32, wpPin: byte, pinDrv: seq<byte>,
    chipId: u16, reserved: seq<byte>, hashFlag: byte, segs: seq<Segment>, tail: seq<byte>)
  {
    predicate WellFormed() {
      && |pinDrv| == 3 && |reserved| == 9
      && |segs| <= 255 && Bounded(segs)
      && IMAGE_HEADER_SIZE + |EncodeSegments(segs)| + |tail|
         == PaddedWithChecksum(IMAGE_HEADER_SIZE + |EncodeSegments(segs)|)
    }

    function Header(): ImageHeader
      requires WellFormed()
    {
      ImageHeader(0xE9, |segs|, entryAddr, chipId, hashFlag != 0)
    }

    function EncodeHeader(): (b: seq<byte>)
      requires WellFormed()
      ensures |b| == IMAGE_HEADER_SIZE
    {
      [0xE9, |segs|, spiMode, spiSizeFreq] + ToLe32(entryAddr) + [wpPin] + pinDrv
      + ToLe16(chipId) + reserved + [hashFlag]
    }

    /** What the digest covers. */
    function Payload(): seq<byte>
      requires WellFormed()
    {
      EncodeHeader() + (EncodeSegments(segs) + tail)
    }

    function Encode(sha: seq<byte> -> Digest): seq<byte>
      requires WellFormed()
    {
      Payload() + if hashFlag != 0 then sha(Payload()) else []
    }
  }

  // ----- the header -----

  lemma DecodeOfEncodedHeader(img: Image)
    requires img.WellFormed()
    ensures DecodeHeader(img.EncodeHeader()) == Ok(img.Header())
  {
    var b := img.EncodeHeader();
    Le32Inverse(img.entryAddr, [0, 0, 0, 0]);
    Le16Inverse(img.chipId, [0, 0]);
    assert b[4..8] == ToLe32(img.entryAddr) && b[12..14] == ToLe16(img.chipId);
    Le32Slice(b, 4, 8, 0);
    assert Le16(b[12..14], 0) == Le16(b, 12);
  }

  /** The image whose fixed fields are the bytes `b` of a valid header. */
  function ImageOf(b: seq<byte>, segs: seq<Segment>, tail: seq<byte>): Image
    requires |b| == 24
  {
    Image(b[2], b[3], Le32(b, 4), b[8], b[9..12], Le16(b, 12), b[14..23], b[23], segs, tail)
  }

  lemma HeaderOfDecoded(b: seq<byte>, segs: seq<Segment>, tail: seq<byte>)
    requires |b| == 24 && DecodeHeader(b).Ok? && |segs| == DecodeHeader(b).value.segmentCount
    requires ImageOf(b, segs, tail).WellFormed()
    ensures ImageOf(b, segs, tail).EncodeHeader() == b
    ensures ImageOf(b, segs, tail).Header() == DecodeHeader(b).value
  {
    hide Le32, Le16, ToLe32, ToLe16, EncodeSegments;
    var img := ImageOf(b, segs, tail);
    WordsOfBytes(b);
    assert img.EncodeHeader()
        == b[..4] + b[4..8] + [b[8]] + b[9..12] + b[12..14] + b[14..23] + [b[23]];
  }

  lemma WordsOfBytes(b: seq<byte>)
    requires |b| == 24
    ensures ToLe32(Le32(b, 4)) == b[4..8] && ToLe16(Le16(b, 12)) == b[12..14]
  {
    Le32Inverse(0, b[4..8]);
    Le16Inverse(0, b[12..14]);
    Le32Slice(b, 4, 8, 0);
    assert Le16(b[12..14], 0) == Le16(b, 12);
  }

  // ----- the image as a whole -----

  lemma HeldImageParts(cells: seq<byte>, off: nat, img: Image, sha: seq<byte> -> Digest)
    requires img.WellFormed() && Holds(cells, off, img.Encode(sha))
    ensures Holds(cells, off, img.Payload())
    ensures Holds(cells, off, img.EncodeHeader())
    ensures Holds(cells, off + IMAGE_HEADER_SIZE, EncodeSegments(img.segs))
    ensures img.hashFlag != 0 ==> Holds(cells, off + |img.Payload()|, sha(img.Payload()))
  {
    HoldsConcat(cells, off, img.Payload(), if img.hashFlag != 0 then sha(img.Payload()) else []);
    HoldsConcat(cells, off, img.EncodeHeader(), EncodeSegments(img.segs) + img.tail);
    HoldsConcat(cells, off + IMAGE_HEADER_SIZE, EncodeSegments(img.segs), img.tail);
  }

  lemma PayloadSize(img: Image, sha: seq<byte> -> Digest)
    requires img.WellFormed()
    ensures |img.Payload()| == PaddedWithChecksum(IMAGE_HEADER_SIZE + |EncodeSegments(img.segs)|)
    ensures |img.Encode(sha)| == ImageSize(|EncodeSegments(img.segs)|, img.hashFlag != 0)
  {
  }

  lemma HeaderOfImage(d: Dev, call: nat, off: u32, img: Image)
    requires d.status(call) == 0 && img.WellFormed() && Holds(d.cells, off, img.EncodeHeader())
    ensures HeaderAt(d, call, off) == Ok(img.Header())
  {
    hide DecodeHeader;
    DecodeOfEncodedHeader(img);
  }

  lemma SizeOfImage(d: Dev, call: nat, off: u32, img: Image, sha: seq<byte> -> Digest)
    requires |d.cells| < U32_MOD && Quiet(d, call, call + |img.segs|)
    requires img.WellFormed() && Holds(d.cells, off, img.Encode(sha))
    ensures SizeAt(d, call, off, img.Header()) == Ok(|img.Encode(sha)|)
  {
    hide EncodeSegments, SizeFrom;
    HeldImageParts(d.cells, off, img, sha);
    PayloadSize(img, sha);
    SizeOfEncoded(d, call, off + IMAGE_HEADER_SIZE, img.segs);
  }

  lemma VerdictOnImage(d: Dev, call: nat, off: u32, img: Image, sha: seq<byte> -> Digest)
    requires |d.cells| < U32_MOD && (forall k :: d.status(k) == 0)
    requires img.WellFormed() && img.hashFlag != 0 && Holds(d.cells, off, img.Encode(sha))
    ensures VerifyAt(d, call, off, img.Header(), sha) == Ok(sha(img.Payload()))
  {
    hide SizeAt, VerifyAt, StreamCalls;
    HeldImageParts(d.cells, off, img, sha);
    SizeOfImage(d, call, off, img, sha);
    AcceptedIff(d, call, off, img.Header(), sha, sha(img.Payload()));
  }

  /** Round trip. Any well-formed image, encoded anywhere on the chip and read without ROM failures:
      the header fields come back, the size walk reports the encoded length, the hash check accepts with
      the image's own digest, and the copying walk delivers its segments in order, if they are loadable. */
  lemma RoundTrip(d: Dev, call: nat, off: u32, img: Image, sha: seq<byte> -> Digest)
    requires |d.cells| < U32_MOD && (forall k :: d.status(k) == 0)
    requires img.WellFormed() && Holds(d.cells, off, img.Encode(sha))
    ensures HeaderAt(d, call, off) == Ok(img.Header())
    ensures SizeAt(d, call, off, img.Header()) == Ok(|img.Encode(sha)|)
    ensures VerifyAt(d, call, off, img.Header(), sha)
         == if img.hashFlag != 0 then Ok(sha(img.Payload())) else Err(NoHash)
    ensures Loadable(img.segs) ==> LoadAt(d, call, off, img.Header()) == LoadTrace(img.segs, Done)
  {
    hide EncodeSegments, SizeAt, LoadFrom, HeaderAt;
    HeldImageParts(d.cells, off, img, sha);
    HeaderOfImage(d, call, off, img);
    SizeOfImage(d, call, off, img, sha);
    if img.hashFlag != 0 {
      VerdictOnImage(d, call, off, img, sha);
    }
    LoadIffEncoded(d, call, off + IMAGE_HEADER_SIZE, |img.segs|, img.segs);
  }

  /** The hash check does not look at alignment: it accepts every held hashed image, of which the copying walk
      then loads exactly those whose lengths and addresses are whole words. */
  lemma AcceptedLoadsIffAligned(d: Dev, verifyCall: nat, loadCall: nat, off: u32, img: Image, sha: seq<byte> -> Digest)
    requires |d.cells| < U32_MOD && (forall k :: d.status(k) == 0)
    requires img.WellFormed() && img.hashFlag != 0 && Holds(d.cells, off, img.Encode(sha))
    ensures VerifyAt(d, verifyCall, off, img.Header(), sha) == Ok(sha(img.Payload()))
    ensures LoadAt(d, loadCall, off, img.Header()).end.Done? <==> Loadable(img.segs)
  {
    hide EncodeSegments, SizeFrom, LoadFrom, VerifyAt, AlignedFrom;
    HeldImageParts(d.cells, off, img, sha);
    VerdictOnImage(d, verifyCall, off, img, sha);
    WalksAgree(d, loadCall, loadCall, off + IMAGE_HEADER_SIZE, |img.segs|);
    AlignedIffLoadable(d.cells, off + IMAGE_HEADER_SIZE, img.segs);
    LoadIffEncoded(d, loadCall, off + IMAGE_HEADER_SIZE, |img.segs|, img.segs);
  }

  // ----- whatever is accepted is an image -----

  /** From `off` on the flash shows header `h`, the encoding of `segs`, padding, and the hash of it all. */
  ghost predicate ShowsHashed(cells: seq<byte>, off: nat, h: ImageHeader, segs: seq<Segment>,
                              sha: seq<byte> -> Digest)
  {
    && off + IMAGE_HEADER_SIZE <= |cells| && DecodeHeader(cells[off..off + IMAGE_HEADER_SIZE]) == Ok(h)
    && h.hashAppended && |segs| == h.segmentCount && Loadable(segs)
    && Holds(cells, off + IMAGE_HEADER_SIZE, EncodeSegments(segs))
    && HashedUpTo(cells, off, PayloadLen(segs), sha)
  }

  /** Header, segments and padding with its checksum byte. */
  function PayloadLen(segs: seq<Segment>): (n: nat)
    requires Bounded(segs)
    ensures n >= IMAGE_HEADER_SIZE + |EncodeSegments(segs)|
  {
    PaddedWithChecksum(IMAGE_HEADER_SIZE + |EncodeSegments(segs)|)
  }

  /** The digest of the `payload` bytes at `off` follows them. */
  ghost predicate HashedUpTo(cells: seq<byte>, off: nat, payload: nat, sha: seq<byte> -> Digest) {
    off + payload + HASH_LEN <= |cells|
    && cells[off + payload..off + payload + HASH_LEN] == sha(cells[off..off + payload])
  }

  /** The image made of the bytes at `off`. */
  function ImageAt(cells: seq<byte>, off: nat, segs: seq<Segment>): Image
    requires Bounded(segs) && off + PayloadLen(segs) <= |cells|
  {
    var mid := off + IMAGE_HEADER_SIZE + |EncodeSegments(segs)|;
    ImageOf(cells[off..off + IMAGE_HEADER_SIZE], segs, cells[mid..off + PayloadLen(segs)])
  }

  lemma ImageAtHeader(cells: seq<byte>, off: nat, h: ImageHeader, segs: seq<Segment>, sha: seq<byte> -> Digest)
    requires ShowsHashed(cells, off, h, segs, sha)
    ensures var img := ImageAt(cells, off, segs);
      && img.WellFormed() && img.Header() == h && img.segs == segs && img.hashFlag != 0
      && img.EncodeHeader() == cells[off..off + IMAGE_HEADER_SIZE]
  {
    hide EncodeSegments, PaddedWithChecksum, HashedUpTo;
    var mid := off + IMAGE_HEADER_SIZE + |EncodeSegments(segs)|;
    assert off + PayloadLen(segs) <= |cells| by { HashedFits(cells, off, PayloadLen(segs), sha); }
    HeaderOfDecoded(cells[off..off + IMAGE_HEADER_SIZE], segs, cells[mid..off + PayloadLen(segs)]);
  }

  lemma HashedFits(cells: seq<byte>, off: nat, payload: nat, sha: seq<byte> -> Digest)
    requires HashedUpTo(cells, off, payload, sha)
    ensures off + payload <= |cells|
  {
  }

  lemma ImageAtPayload(cells: seq<byte>, off: nat, h: ImageHeader, segs: seq<Segment>, sha: seq<byte> -> Digest)
    requires ShowsHashed(cells, off, h, segs, sha)
    ensures ImageAt(cells, off, segs).WellFormed()
    ensures ImageAt(cells, off, segs).Payload() == cells[off..off + PayloadLen(segs)]
  {
    hide EncodeSegments, PaddedWithChecksum, HashedUpTo, DecodeHeader, PayloadLen;
    ImageAtHeader(cells, off, h, segs, sha);
    HashedFits(cells, off, PayloadLen(segs), sha);
    var pos, end := off + IMAGE_HEADER_SIZE, off + PayloadLen(segs);
    SliceExtends(cells, pos, pos + |EncodeSegments(segs)|, end);
    SliceExtends(cells, off, pos, end);
  }

  /** A flash that shows all this holds the encoding of an image. */
  lemma ShownIsImage(cells: seq<byte>, off: nat, h: ImageHeader, segs: seq<Segment>, sha: seq<byte> -> Digest)
    returns (img: Image)
    requires ShowsHashed(cells, off, h, segs, sha)
    ensures img.WellFormed() && img.Header() == h && img.segs == segs && img.hashFlag != 0
    ensures Holds(cells, off, img.Encode(sha))
    ensures img.Payload() == cells[off..off + PayloadLen(segs)]
  {
    hide EncodeSegments, DecodeHeader, PayloadLen;
    img := ImageAt(cells, off, segs);
    ImageAtHeader(cells, off, h, segs, sha);
    ImageAtPayload(cells, off, h, segs, sha);
    var end := off + PayloadLen(segs);
    SliceExtends(cells, off, end, end + HASH_LEN);
  }

  /** Whenever header read, hash check and copying walk all succeed, whatever call numbers they ran at,
      the flash holds the encoding of some image with that header and those segments: nothing else is
      ever started. */
  lemma AcceptedIsImage(d: Dev, headerCall: nat, verifyCall: nat, loadCall: nat, off: u32,
                        h: ImageHeader, sha: seq<byte> -> Digest) returns (img: Image)
    requires |d.cells| < U32_MOD
    requires HeaderAt(d, headerCall, off) == Ok(h)
    requires VerifyAt(d, verifyCall, off, h, sha).Ok?
    requires LoadAt(d, loadCall, off, h).end.Done?
    ensures img.WellFormed() && img.Header() == h && img.hashFlag != 0
    ensures Loadable(img.segs) && img.segs == LoadAt(d, loadCall, off, h).segs
    ensures Holds(d.cells, off, img.Encode(sha))
    ensures VerifyAt(d, verifyCall, off, h, sha) == Ok(sha(img.Payload()))
  {
    hide EncodeSegments, SizeFrom, LoadFrom, DecodeHeader, VerifyAt, PayloadLen;
    AcceptedShows(d, headerCall, verifyCall, loadCall, off, h, sha);
    img := ShownIsImage(d.cells, off, h, LoadAt(d, loadCall, off, h).segs, sha);
  }

  lemma AcceptedShows(d: Dev, headerCall: nat, verifyCall: nat, loadCall: nat, off: u32,
                      h: ImageHeader, sha: seq<byte> -> Digest)
    requires |d.cells| < U32_MOD
    requires HeaderAt(d, headerCall, off) == Ok(h)
    requires VerifyAt(d, verifyCall, off, h, sha).Ok?
    requires LoadAt(d, loadCall, off, h).end.Done?
    ensures ShowsHashed(d.cells, off, h, LoadAt(d, loadCall, off, h).segs, sha)
    ensures var payload := PayloadLen(LoadAt(d, loadCall, off, h).segs);
            off + payload <= |d.cells| && VerifyAt(d, verifyCall, off, h, sha) == Ok(sha(d.cells[off..off + payload]))
  {
    hide EncodeSegments, SizeFrom, LoadFrom, StreamCalls, DecodeHeader, VerifyAt, PaddedWithChecksum, AlignedFrom;
    var pos := off + IMAGE_HEADER_SIZE;
    var n: nat := h.segmentCount;
    AcceptedIff(d, verifyCall, off, h, sha, VerifyAt(d, verifyCall, off, h, sha).value);
    LoadIffEncoded(d, loadCall, pos, n, LoadAt(d, loadCall, off, h).segs);
    SizeOkIsQuiet(d, verifyCall, pos, n);
    WalksAgree(d, verifyCall, loadCall, pos, n);
  }

  // ----- the hash covers everything that is used -----

  /** `d2` shows the bytes that `d1` has in `[lo, hi)`. */
  ghost predicate SameRange(d1: Dev, d2: Dev, lo: nat, hi: nat) {
    forall i | lo <= i < hi && i < |d1.cells| :: i < |d2.cells| && d2.cells[i] == d1.cells[i]
  }

  lemma HoldsCarriesOver(d1: Dev, d2: Dev, lo: nat, hi: nat, at: nat, b: seq<byte>)
    requires SameRange(d1, d2, lo, hi) && lo <= at && at + |b| <= hi && Holds(d1.cells, at, b)
    ensures Holds(d2.cells, at, b)
  {
    if b != [] {
      assert d1.cells[at + |b| - 1] == b[|b| - 1];
      assert d1.cells[at..at + |b|] == d2.cells[at..at + |b|];
    }
  }

  /** Hash coverage. If header read, size walk and copying walk succeed on `d1`, each at any call number, with a
      hash appended, every byte they used lies in the hashed range: any chip that agrees on that range alone, read
      without ROM failures, gives the same header (hence entry address), total size and segments, and its hash
      check depends on nothing but that range and the 32 bytes after it. */
  lemma HashCoversEverythingUsed(d1: Dev, headerCall: nat, sizeCall: nat, loadCall: nat, d2: Dev, call2: nat,
                                 off: u32, h: ImageHeader, total: u32, segs: seq<Segment>, sha: seq<byte> -> Digest)
    requires |d1.cells| < U32_MOD && |d2.cells| < U32_MOD && (forall k :: d2.status(k) == 0)
    requires HeaderAt(d1, headerCall, off) == Ok(h) && h.hashAppended
    requires SizeAt(d1, sizeCall, off, h) == Ok(total)
    requires LoadAt(d1, loadCall, off, h) == LoadTrace(segs, Done)
    requires SameRange(d1, d2, off, off + total - HASH_LEN)
    ensures HeaderAt(d2, call2, off) == Ok(h)
    ensures SizeAt(d2, call2, off, h) == Ok(total)
    ensures LoadAt(d2, call2, off, h) == LoadTrace(segs, Done)
    ensures off + total <= |d1.cells| && off + total <= |d2.cells| ==>
      VerifyAt(d2, call2, off, h, sha) == Compare(d2.cells[off + total - HASH_LEN..off + total],
                                                  sha(d1.cells[off..off + total - HASH_LEN]))
  {
    hide EncodeSegments, SizeFrom, LoadFrom, DecodeHeader, VerifyAt, AlignedFrom;
    var pos, n: nat := off + IMAGE_HEADER_SIZE, h.segmentCount;
    LoadIffEncoded(d1, loadCall, pos, n, segs);
    SizeOkIsQuiet(d1, sizeCall, pos, n);
    WalksAgree(d1, sizeCall, loadCall, pos, n);
    HoldsCarriesOver(d1, d2, off, off + total - HASH_LEN, off, d1.cells[off..pos]);
    HoldsCarriesOver(d1, d2, off, off + total - HASH_LEN, pos, EncodeSegments(segs));
    SizeOfEncoded(d2, call2, pos, segs);
    LoadIffEncoded(d2, call2, pos, n, segs);
    if off + total <= |d1.cells| && off + total <= |d2.cells| {
      VerdictIsComparison(d2, call2, off, h, total, sha);
      assert d2.cells[off..off + total - HASH_LEN] == d1.cells[off..off + total - HASH_LEN];
    }
  }

  lemma VerdictIsComparison(d: Dev, call: nat, off: u32, h: ImageHeader, total: u32, sha: seq<byte> -> Digest)
    requires |d.cells| < U32_MOD && (forall k :: d.status(k) == 0)
    requires h.hashAppended && SizeAt(d, call, off, h) == Ok(total) && off + total <= |d.cells|
    ensures VerifyAt(d, call, off, h, sha) == Compare(d.cells[off + total - HASH_LEN..off + total],
                                                      sha(d.cells[off..off + total - HASH_LEN]))
  {
    hide SizeAt, StreamCalls, StreamFault, Compare;
    StreamClearIff(d, call + h.segmentCount, off, 0, total - HASH_LEN);
  }
}
