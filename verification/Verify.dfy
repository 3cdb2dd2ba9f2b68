/** Stream-hashing the image and comparing with the appended digest (`src/verify.rs`).
    SHA-256 itself is a parameter: any function from byte strings to 32 bytes. */
module Verify {
  import opened Words
  import opened FlashDevice
  import opened AppImage

  const CHUNK_LEN: nat := 1024

  type Digest = b: seq<byte> | |b| == 32 witness seq<byte>(32, _ => 0)

  datatype VerifyError =
    | ReadFault(fault: FlashError)
    | NoHash
    | Mismatch(expected: Digest, actual: Digest)
    | TotalSize(error: AppLoadError)

  function FromLoadError(e: AppLoadError): VerifyError {
    match e
    case FlashFault(f) => ReadFault(f)
    case _ => TotalSize(e)
  }

  /** The incremental hasher: updates append, and the digest is that of everything fed. */
  class Hasher {
    const digestOf: seq<byte> -> Digest
    var fed: seq<byte>

    constructor (digestOf: seq<byte> -> Digest)
      ensures fed == [] && this.digestOf == digestOf
    {
      this.digestOf, fed := digestOf, [];
    }

    method Update(slice: seq<byte>)
      modifies this
      ensures fed == old(fed) + slice
    {
      fed := fed + slice;
    }

    method Finalize() returns (d: Digest)
      ensures d == digestOf(fed)
    {
      d := digestOf(fed);
    }
  }

  function DigestFault(d: Dev, call: nat, off: u32, payload: u32): Option<FlashError> {
    match GuardedRead(d, call, WrapAdd(off, payload), WORD_ARRAY, HASH_LEN)
    case Err(e) => Some(e)
    case Ok(_) => None
  }

  /** The first failed read among the chunk reads from `from` on and the digest read after them. */
  function StreamFault(d: Dev, call: nat, off: u32, from: nat, payload: u32): Option<FlashError>
    requires from <= payload
    decreases payload - from
  {
    if from == payload then DigestFault(d, call, off, payload)
    else
      var want := Min(CHUNK_LEN, payload - from);
      match GuardedRead(d, call, WrapAdd(off, from), WORD_ARRAY, want)
      case Err(e) => Some(e)
      case Ok(_) => StreamFault(d, call + 1, off, from + want, payload)
  }

  /** ROM calls made by the verify loop and the digest read. */
  function StreamCalls(payload: nat): nat {
    (payload + CHUNK_LEN - 1) / CHUNK_LEN + 1
  }

  lemma OneChunkLess(left: nat)
    ensures StreamCalls(0) == 1
    ensures left > 0 ==> StreamCalls(left) == 1 + StreamCalls(left - Min(CHUNK_LEN, left))
  {
  }

  lemma ChunkStaysAligned(read: nat, payload: nat)
    requires read < payload && read % 4 == 0 && payload % 4 == 0
    ensures var want := Min(CHUNK_LEN, payload - read);
            0 < want <= CHUNK_LEN && read + want <= payload && want % 4 == 0 && (read + want) % 4 == 0
  {
  }

  lemma StreamEnd(d: Dev, call: nat, off: u32, payload: u32)
    ensures StreamFault(d, call, off, payload, payload) == DigestFault(d, call, off, payload)
  {
  }

  lemma OneChunk(d: Dev, call: nat, off: u32, from: nat, payload: u32)
    requires |d.cells| < U32_MOD && from < payload && off + from < U32_MOD
    ensures var want := Min(CHUNK_LEN, payload - from);
      match GuardedRead(d, call, WrapAdd(off, from), WORD_ARRAY, want)
      case Err(e) => StreamFault(d, call, off, from, payload) == Some(e)
      case Ok(data) =>
        && off + from + want <= |d.cells| && data == d.cells[off + from..off + from + want]
        && StreamFault(d, call, off, from, payload) == StreamFault(d, call + 1, off, from + want, payload)
  {
  }

  /** Nothing fails exactly when the ROM does not and the payload and digest lie within the chip. */
  lemma {:induction false} StreamClearIff(d: Dev, call: nat, off: u32, from: nat, payload: u32)
    requires |d.cells| < U32_MOD && from <= payload && off + from < U32_MOD
    requires from % 4 == 0 && payload % 4 == 0
    ensures StreamFault(d, call, off, from, payload) == None
            <==> Quiet(d, call, call + StreamCalls(payload - from)) && off + payload + HASH_LEN <= |d.cells|
    decreases payload - from
  {
    hide StreamCalls;
    var calls := StreamCalls(payload - from);
    OneChunkLess(payload - from);
    if from == payload {
    } else {
      var want := Min(CHUNK_LEN, payload - from);
      if d.status(call) == 0 && off + from + want <= |d.cells| {
        assert Quiet(d, call, call + calls) <==> Quiet(d, call + 1, call + calls);
        StreamClearIff(d, call + 1, off, from + want, payload);
      }
    }
  }

  // ----- the reads of a pass, one by one -----

  /** Number of chunks; the digest read comes after them. */
  function Chunks(payload: nat): nat {
    (payload + 1023) / 1024
  }

  /** Where on flash read `i` ends: chunks of 1024 bytes, the last one as long as what is left, then the digest. */
  function ReadEnd(off: nat, payload: nat, i: nat): nat {
    if i >= Chunks(payload) then off + payload + 32
    else if 1024 * (i + 1) <= payload then off + 1024 * (i + 1)
    else off + payload
  }

  /** Read `i` of the pass whose first ROM call is number `call` succeeds. */
  ghost predicate ReadFine(d: Dev, call: nat, off: nat, payload: nat, i: nat) {
    d.status(call + i) == 0 && ReadEnd(off, payload, i) <= |d.cells|
  }

  /** From read `from` on, read `i` is the first that fails, and `f` is why. */
  ghost predicate FirstFailure(d: Dev, call: nat, off: nat, payload: nat, from: nat, i: nat, f: FlashError) {
    && from <= i <= Chunks(payload) && !ReadFine(d, call, off, payload, i)
    && (forall j | from <= j < i :: ReadFine(d, call, off, payload, j))
    && f == Rom(if d.status(call + i) != 0 then d.status(call + i) else ROM_OUT_OF_RANGE)
  }

  /** The reads of a pass are one per 1024 bytes begun, and one for the digest, each of them one ROM call; and what
      is reported is the first that fails. */
  lemma FirstFailedRead(d: Dev, call: nat, off: u32, payload: u32, f: FlashError)
    requires |d.cells| < 0x1_0000_0000 && payload % 4 == 0
    ensures StreamFault(d, call, off, 0, payload) == Some(f)
            <==> exists i: nat :: FirstFailure(d, call, off, payload, 0, i, f)
    ensures StreamCalls(payload) == Chunks(payload) + 1
  {
    hide StreamFault;
    var i := FailureFrom(d, call, off, payload, 0);
    if k: nat :| FirstFailure(d, call, off, payload, 0, k, f) {
      assert i == k;
    }
  }

  /** What read `i` does to the search for the first failure. */
  lemma OneRead(d: Dev, call: nat, off: u32, payload: u32, i: nat)
    requires |d.cells| < 0x1_0000_0000 && payload % 4 == 0 && i <= Chunks(payload)
    requires i > 0 ==> off + Min(1024 * i, payload) <= |d.cells|
    ensures StreamFault(d, call + i, off, Min(1024 * i, payload), payload)
         == if !ReadFine(d, call, off, payload, i)
            then Some(Rom(if d.status(call + i) != 0 then d.status(call + i) else ROM_OUT_OF_RANGE))
            else if i == Chunks(payload) then None
            else StreamFault(d, call + (i + 1), off, Min(1024 * (i + 1), payload), payload)
  {
    hide StreamFault, GuardedRead, Min, Chunks, ReadEnd;
    ReadBounds(payload, i);
    if i < Chunks(payload) {
      ChunkStaysAligned(1024 * i, payload);
      OneChunk(d, call + i, off, 1024 * i, payload);
      ReadFaults(d, call + i, off + 1024 * i, WORD_ARRAY, Min(CHUNK_LEN, payload - 1024 * i));
      ChunkEnd(off, payload, i);
      assert call + i + 1 == call + (i + 1);
    } else {
      StreamEnd(d, call + i, off, payload);
      DigestRead(d, call, off, payload, i);
    }
  }

  lemma DigestRead(d: Dev, call: nat, off: u32, payload: u32, i: nat)
    requires i == Chunks(payload) && (i > 0 ==> off + payload <= |d.cells| < 0x1_0000_0000)
    ensures DigestFault(d, call + i, off, payload)
         == if ReadFine(d, call, off, payload, i) then None
            else Some(Rom(if d.status(call + i) != 0 then d.status(call + i) else ROM_OUT_OF_RANGE))
  {
  }

  lemma ChunkEnd(off: nat, payload: nat, i: nat)
    requires i < Chunks(payload)
    ensures ReadEnd(off, payload, i) == off + 1024 * i + Min(CHUNK_LEN, payload - 1024 * i)
  {
  }

  lemma ReadFaults(d: Dev, call: nat, addr: nat, dest: u32, len: nat)
    requires len % 4 == 0 && dest % 4 == 0
    ensures GuardedRead(d, call, addr, dest, len)
         == if d.status(call) == 0 && addr + len <= |d.cells| then Ok(d.cells[addr..addr + len])
            else Err(Rom(if d.status(call) != 0 then d.status(call) else ROM_OUT_OF_RANGE))
  {
  }

  lemma ReadBounds(payload: nat, i: nat)
    requires i <= Chunks(payload)
    ensures i == Chunks(payload) <==> Min(1024 * i, payload) == payload
    ensures i < Chunks(payload) ==>
      && Min(1024 * i, payload) == 1024 * i < payload
      && Min(1024 * (i + 1), payload) == 1024 * i + Min(CHUNK_LEN, payload - 1024 * i)
  {
  }

  lemma {:induction false} FailureFrom(d: Dev, call: nat, off: u32, payload: u32, from: nat) returns (i: nat)
    requires |d.cells| < 0x1_0000_0000 && payload % 4 == 0 && from <= Chunks(payload)
    requires from > 0 ==> off + Min(1024 * from, payload) <= |d.cells|
    ensures i <= Chunks(payload)
    ensures match StreamFault(d, call + from, off, Min(1024 * from, payload), payload)
            case None => i == Chunks(payload) && forall j | from <= j <= i :: ReadFine(d, call, off, payload, j)
            case Some(f) => FirstFailure(d, call, off, payload, from, i, f)
    decreases Chunks(payload) - from
  {
    hide StreamFault, Chunks;
    OneRead(d, call, off, payload, from);
    i := from;
    if from == Chunks(payload) {
    } else if ReadFine(d, call, off, payload, from) {
      i := FailureFrom(d, call, off, payload, from + 1);
    }
  }

  function Compare(expected: Digest, actual: Digest): Result<Digest, VerifyError> {
    if actual != expected then Err(Mismatch(expected, actual)) else Ok(actual)
  }

  /** Payload and digest read without fault, then compared. */
  function PayloadVerdict(d: Dev, call: nat, off: u32, payload: u32, sha: seq<byte> -> Digest)
    : Result<Digest, VerifyError>
    requires |d.cells| < U32_MOD && payload % 4 == 0
  {
    match StreamFault(d, call, off, 0, payload)
    case Some(e) => Err(ReadFault(e))
    case None =>
      StreamClearIff(d, call, off, 0, payload);
      Compare(d.cells[off + payload..off + payload + HASH_LEN], sha(d.cells[off..off + payload]))
  }

  /** The verdict on the image at `off`: one hash over the whole payload, no streaming. */
  function VerifyAt(d: Dev, call: nat, off: u32, h: ImageHeader, sha: seq<byte> -> Digest): Result<Digest, VerifyError>
    requires |d.cells| < U32_MOD
  {
    hide SizeFrom, ImageSize;
    if !h.hashAppended then Err(NoHash)
    else match SizeAt(d, call, off, h)
      case Err(e) => Err(FromLoadError(e))
      case Ok(total) => PayloadVerdict(d, call + h.segmentCount, off, total - HASH_LEN, sha)
  }

  /** The hasher was fed exactly the first `read` bytes from `off` on, in order. */
  ghost predicate Fed(cells: seq<byte>, off: nat, read: nat, fed: seq<byte>) {
    if read == 0 then fed == [] else off + read <= |cells| && fed == cells[off..off + read]
  }

  lemma FeedChunk(cells: seq<byte>, off: nat, read: nat, want: nat, fed: seq<byte>)
    requires Fed(cells, off, read, fed) && want > 0 && off + read + want <= |cells|
    ensures Fed(cells, off, read + want, fed + cells[off + read..off + read + want])
  {
    SliceExtends(cells, off, off + read, off + read + want);
  }

  /** The chunk loop: feeds the hasher exactly the payload, each byte once and in order. */
  method HashPayload(flash: Flash, off: u32, payload: u32, sha: seq<byte> -> Digest)
    returns (r: Result<Digest, FlashError>)
    requires flash.Valid() && 0 < payload && payload % 4 == 0
    modifies flash`calls
    ensures r.Ok? ==> flash.calls == old(flash.calls) + StreamCalls(payload) - 1
    ensures match r
            case Err(e) => StreamFault(flash.View(), old(flash.calls), off, 0, payload) == Some(e)
            case Ok(digest) =>
              && off + payload <= |flash.View().cells|
              && digest == sha(flash.View().cells[off..off + payload])
              && StreamFault(flash.View(), old(flash.calls), off, 0, payload)
                 == DigestFault(flash.View(), flash.calls, off, payload)
  {
    hide GuardedRead, StreamFault, Fed, StreamCalls, WrapAdd, Min;
    ghost var d, start := flash.View(), flash.calls;
    var buf := new byte[CHUNK_LEN](_ => 0);
    var hasher := new Hasher(sha);
    var read: nat := 0;
    assert Fed(d.cells, off, read, hasher.fed) by { FedNothing(d.cells, off); }
    while read < payload
      invariant read <= payload && read % 4 == 0 && off + read < U32_MOD
      invariant Fed(d.cells, off, read, hasher.fed)
      invariant flash.calls + StreamCalls(payload - read) == start + StreamCalls(payload)
      invariant StreamFault(d, start, off, 0, payload) == StreamFault(d, flash.calls, off, read, payload)
      decreases payload - read
    {
      ChunkStaysAligned(read, payload);
      OneChunkLess(payload - read);
      OneChunk(d, flash.calls, off, read, payload);
      var want := Min(CHUNK_LEN, payload - read);
      var chunk := flash.Read(WrapAdd(off, read), buf, WORD_ARRAY, want);
      if chunk.Err? {
        return Err(chunk.error);
      }
      FeedChunk(d.cells, off, read, want, hasher.fed);
      hasher.Update(buf[..want]);
      read := read + want;
    }
    OneChunkLess(0);
    assert StreamFault(d, flash.calls, off, payload, payload) == DigestFault(d, flash.calls, off, payload) by {
      StreamEnd(d, flash.calls, off, payload);
    }
    FedAll(d.cells, off, payload, hasher.fed);
    var digest := hasher.Finalize();
    return Ok(digest);
  }

  lemma FedNothing(cells: seq<byte>, off: nat)
    ensures Fed(cells, off, 0, [])
  {
  }

  lemma FedAll(cells: seq<byte>, off: nat, payload: nat, fed: seq<byte>)
    requires Fed(cells, off, payload, fed) && payload > 0
    ensures off + payload <= |cells| && fed == cells[off..off + payload]
  {
  }

  /** ROM calls of a verify pass that accepts. */
  function VerifyCalls(d: Dev, call: nat, off: u32, h: ImageHeader): nat {
    match SizeAt(d, call, off, h)
    case Err(_) => 0
    case Ok(total) => h.segmentCount + StreamCalls(total - HASH_LEN)
  }

  method VerifyAppSha256(flash: Flash, off: u32, h: ImageHeader, sha: seq<byte> -> Digest)
    returns (r: Result<Digest, VerifyError>)
    requires flash.Valid()
    modifies flash`calls
    ensures r == VerifyAt(flash.View(), old(flash.calls), off, h, sha)
    ensures r.Ok? ==> flash.calls == old(flash.calls) + VerifyCalls(flash.View(), old(flash.calls), off, h)
  {
    hide SizeAt, RomRead, StreamFault, StreamCalls;
    if !h.hashAppended {
      return Err(NoHash);
    }
    ghost var d := flash.View();
    var size := ComputeImageTotalSize(flash, off, h);
    if size.Err? {
      return Err(FromLoadError(size.error));
    }
    var payload: u32 := size.value - HASH_LEN;
    StreamClearIff(d, flash.calls, off, 0, payload);
    var actual := HashPayload(flash, off, payload, sha);
    if actual.Err? {
      return Err(ReadFault(actual.error));
    }
    var expected := flash.ReadInto(WrapAdd(off, payload), WORD_ARRAY, HASH_LEN);
    if expected.Err? {
      return Err(ReadFault(expected.error));
    }
    return Compare(expected.value, actual.value);
  }

  /** Acceptance, spelled out: the image is accepted with digest `dg` if and only if it declares a hash,
      the size walk succeeds with some `total`, no ROM call fails, the image lies within the chip, and its
      last 32 bytes are `dg`, the hash of all bytes before them. */
  lemma AcceptedIff(d: Dev, call: nat, off: u32, h: ImageHeader, sha: seq<byte> -> Digest, dg: Digest)
    requires |d.cells| < U32_MOD
    ensures VerifyAt(d, call, off, h, sha) == Ok(dg)
            <==> h.hashAppended && SizeAt(d, call, off, h).Ok?
                 && var total := SizeAt(d, call, off, h).value;
                    && off + total <= |d.cells|
                    && Quiet(d, call, call + h.segmentCount + StreamCalls(total - HASH_LEN))
                    && sha(d.cells[off..off + total - HASH_LEN]) == dg
                    && d.cells[off + total - HASH_LEN..off + total] == dg
  {
    hide SizeFrom, ImageSize, StreamFault, StreamCalls;
    if h.hashAppended && SizeAt(d, call, off, h).Ok? {
      var total, mid := SizeAt(d, call, off, h).value, call + h.segmentCount;
      StreamClearIff(d, mid, off, 0, total - HASH_LEN);
      SizeOkIsQuiet(d, call, WrapAdd(off, IMAGE_HEADER_SIZE), h.segmentCount);
      var end := mid + StreamCalls(total - HASH_LEN);
      assert Quiet(d, call, end) <==> Quiet(d, call, mid) && Quiet(d, mid, end);
    }
  }

  /** Every refusal of an image that declares a hash, spelled out. A mismatch carries the appended digest and the
      computed one, in that order; size errors keep their cause; a failed chunk or digest read is reported as the
      first such failure. */
  lemma RefusedIff(d: Dev, call: nat, off: u32, h: ImageHeader, sha: seq<byte> -> Digest,
                   expected: Digest, actual: Digest)
    requires |d.cells| < U32_MOD && h.hashAppended
    ensures SizeAt(d, call, off, h).Err? ==>
      VerifyAt(d, call, off, h, sha) == match SizeAt(d, call, off, h).error
                                        case FlashFault(f) => Err(ReadFault(f))
                                        case e => Err(TotalSize(e))
    ensures SizeAt(d, call, off, h).Ok? ==>
      var fault := StreamFault(d, call + h.segmentCount, off, 0, SizeAt(d, call, off, h).value - HASH_LEN);
      forall f :: VerifyAt(d, call, off, h, sha) == Err(ReadFault(f)) <==> fault == Some(f)
    ensures VerifyAt(d, call, off, h, sha) == Err(Mismatch(expected, actual))
      <==> SizeAt(d, call, off, h).Ok?
           && var total := SizeAt(d, call, off, h).value;
              && off + total <= |d.cells|
              && Quiet(d, call + h.segmentCount, call + h.segmentCount + StreamCalls(total - HASH_LEN))
              && expected == d.cells[off + total - HASH_LEN..off + total]
              && actual == sha(d.cells[off..off + total - HASH_LEN])
              && expected != actual
  {
    hide SizeAt, StreamFault, StreamCalls;
    if SizeAt(d, call, off, h).Ok? {
      StreamClearIff(d, call + h.segmentCount, off, 0, SizeAt(d, call, off, h).value - HASH_LEN);
    }
  }

  lemma {:induction false} SizeOkIsQuiet(d: Dev, call: nat, pos: u32, n: nat)
    requires SizeFrom(d, call, pos, n).Ok?
    ensures Quiet(d, call, call + n)
    decreases n
  {
    if n == 0 {
    } else {
      var len := LengthAt(d, call, pos).value;
      SizeOkIsQuiet(d, call + 1, WrapAdd(pos, SEGMENT_HEADER_SIZE + len), n - 1);
    }
  }

  /** No read of the verify pass is refused as unaligned, whatever the segment lengths are. */
  lemma NeverUnaligned(d: Dev, call: nat, off: u32, h: ImageHeader, sha: seq<byte> -> Digest)
    requires |d.cells| < U32_MOD
    ensures VerifyAt(d, call, off, h, sha) != Err(ReadFault(Unaligned))
  {
    hide SizeFrom, ImageSize, StreamFault, StreamCalls, WrapAdd;
    SizeFaultIsRom(d, call, WrapAdd(off, IMAGE_HEADER_SIZE), h.segmentCount);
    if h.hashAppended && SizeAt(d, call, off, h).Ok? {
      StreamStaysAligned(d, call + h.segmentCount, off, 0, SizeAt(d, call, off, h).value - HASH_LEN);
    }
  }

  lemma {:induction false} SizeFaultIsRom(d: Dev, call: nat, pos: u32, n: nat)
    ensures SizeFrom(d, call, pos, n) != Err(FlashFault(Unaligned))
    decreases n
  {
    if n == 0 || LengthAt(d, call, pos).Err? {
    } else {
      SizeFaultIsRom(d, call + 1, WrapAdd(pos, SEGMENT_HEADER_SIZE + LengthAt(d, call, pos).value), n - 1);
    }
  }

  lemma {:induction false} StreamStaysAligned(d: Dev, call: nat, off: u32, from: nat, payload: u32)
    requires from <= payload && from % 4 == 0 && payload % 4 == 0
    ensures StreamFault(d, call, off, from, payload) != Some(Unaligned)
    decreases payload - from
  {
    if from == payload {
    } else {
      StreamStaysAligned(d, call + 1, off, from + Min(CHUNK_LEN, payload - from), payload);
    }
  }
}
