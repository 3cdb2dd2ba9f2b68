/** The documented layout of the segment table, written as an encoder, and the proof that both
    walks over flash are inverse to it. */
module ImageLayout {
  import opened Words
  import opened FlashDevice
  import opened AppImage

  /** The size walk accepts a segment of any length up to the limit. */
  predicate Bounded(segs: seq<Segment>) {
    forall s | s in segs :: |s.data| <= MAX_SEGMENT
  }

  predicate LoadableSegment(s: Segment) {
    s.loadAddr % 4 == 0 && |s.data| % 4 == 0 && |s.data| <= MAX_SEGMENT
  }

  /** The copying walk also needs word-aligned lengths and targets. */
  predicate Loadable(segs: seq<Segment>) {
    forall s | s in segs :: LoadableSegment(s)
  }

  function EncodeSegment(s: Segment): seq<byte>
    requires |s.data| <= MAX_SEGMENT
  {
    ToLe32(s.loadAddr) + ToLe32(|s.data|) + s.data
  }

  /** Segment headers and data, each header right after the previous data. */
  function EncodeSegments(segs: seq<Segment>): seq<byte>
    requires Bounded(segs)
  {
    if segs == [] then [] else EncodeSegment(segs[0]) + EncodeSegments(segs[1..])
  }

  /** The flash holds the bytes `b` at `at`. */
  ghost predicate Holds(cells: seq<byte>, at: nat, b: seq<byte>) {
    b == [] || (at + |b| <= |cells| && cells[at..at + |b|] == b)
  }

  lemma HoldsConcat(cells: seq<byte>, at: nat, a: seq<byte>, b: seq<byte>)
    ensures Holds(cells, at, a + b) <==> Holds(cells, at, a) && Holds(cells, at + |a|, b)
  {
    assert a == [] ==> a + b == b;
    assert b == [] ==> a + b == a;
    if at + |a + b| <= |cells| {
      var w := cells[at..at + |a + b|];
      assert w[..|a|] == cells[at..at + |a|] && w[|a|..] == cells[at + |a|..at + |a| + |b|];
      assert w == w[..|a|] + w[|a|..];
      assert (a + b)[..|a|] == a && (a + b)[|a|..] == b;
    }
  }

  /** Reading back an encoded segment header. */
  lemma HeldHeader(cells: seq<byte>, pos: nat, s: Segment)
    requires |s.data| <= MAX_SEGMENT && Holds(cells, pos, EncodeSegment(s))
    ensures pos + 8 + |s.data| <= |cells|
    ensures WordAt(cells, pos) == s.loadAddr && WordAt(cells, pos + 4) == |s.data|
    ensures cells[pos + 8..pos + 8 + |s.data|] == s.data
  {
    HoldsConcat(cells, pos, ToLe32(s.loadAddr) + ToLe32(|s.data|), s.data);
    HoldsConcat(cells, pos, ToLe32(s.loadAddr), ToLe32(|s.data|));
    Le32Inverse(s.loadAddr, cells[pos..pos + 4]);
    Le32Inverse(|s.data|, cells[pos + 4..pos + 8]);
    Le32Slice(cells, pos, pos + 4, 0);
    Le32Slice(cells, pos + 4, pos + 8, 0);
  }

  /** The bytes at `pos` are the encoding of the segment their header describes. */
  lemma HeldFromHeader(cells: seq<byte>, pos: nat, s: Segment)
    requires |s.data| <= MAX_SEGMENT && pos + 8 + |s.data| <= |cells|
    requires WordAt(cells, pos) == s.loadAddr && WordAt(cells, pos + 4) == |s.data|
    requires cells[pos + 8..pos + 8 + |s.data|] == s.data
    ensures Holds(cells, pos, EncodeSegment(s))
  {
    Le32Inverse(0, cells[pos..pos + 4]);
    Le32Inverse(0, cells[pos + 4..pos + 8]);
    Le32Slice(cells, pos, pos + 4, 0);
    Le32Slice(cells, pos + 4, pos + 8, 0);
    HoldsConcat(cells, pos, ToLe32(s.loadAddr), ToLe32(|s.data|));
    HoldsConcat(cells, pos, ToLe32(s.loadAddr) + ToLe32(|s.data|), s.data);
  }

  lemma HeldSegmentIff(cells: seq<byte>, pos: nat, s: Segment)
    requires |s.data| <= MAX_SEGMENT
    ensures Holds(cells, pos, EncodeSegment(s)) <==>
      && pos + 8 + |s.data| <= |cells|
      && WordAt(cells, pos) == s.loadAddr && WordAt(cells, pos + 4) == |s.data|
      && cells[pos + 8..pos + 8 + |s.data|] == s.data
  {
    hide WordAt, EncodeSegment, Holds;
    if Holds(cells, pos, EncodeSegment(s)) {
      HeldHeader(cells, pos, s);
    } else if pos + 8 + |s.data| <= |cells| && WordAt(cells, pos) == s.loadAddr && WordAt(cells, pos + 4) == |s.data|
              && cells[pos + 8..pos + 8 + |s.data|] == s.data {
      HeldFromHeader(cells, pos, s);
    }
  }

  /** Where segment `i` of a table at `pos` has its header: behind the headers and data of those before it. */
  function HeaderPos(pos: nat, segs: seq<Segment>, i: nat): (p: nat)
    requires i <= |segs|
    ensures p >= pos
  {
    if i == 0 then pos else HeaderPos(pos, segs, i - 1) + 8 + |segs[i - 1].data|
  }

  lemma {:induction false} HeaderPosShifts(pos: nat, segs: seq<Segment>, i: nat)
    requires 0 < i <= |segs|
    ensures HeaderPos(pos, segs, i) == HeaderPos(pos + 8 + |segs[0].data|, segs[1..], i - 1)
  {
    if i == 1 {
    } else {
      HeaderPosShifts(pos, segs, i - 1);
    }
  }

  /** Header and data of segment `i` of the table are where they belong. */
  ghost predicate ShowsSegment(cells: seq<byte>, pos: nat, segs: seq<Segment>, i: nat)
    requires i < |segs|
  {
    var p, s := HeaderPos(pos, segs, i), segs[i];
    && p + 8 + |s.data| <= |cells|
    && WordAt(cells, p) == s.loadAddr && WordAt(cells, p + 4) == |s.data|
    && cells[p + 8..p + 8 + |s.data|] == s.data
  }

  ghost predicate ShowsSegments(cells: seq<byte>, pos: nat, segs: seq<Segment>) {
    forall i | 0 <= i < |segs| :: ShowsSegment(cells, pos, segs, i)
  }

  /** The encoding says: load address, length and data of every segment, one segment right behind the other. */
  lemma {:induction false} EncodingShowsSegments(cells: seq<byte>, pos: nat, segs: seq<Segment>)
    requires forall s | s in segs :: |s.data| <= 0x80_0000
    ensures Holds(cells, pos, EncodeSegments(segs)) <==> ShowsSegments(cells, pos, segs)
    ensures |EncodeSegments(segs)| == HeaderPos(pos, segs, |segs|) - pos
    decreases |segs|
  {
    hide WordAt, EncodeSegment, Holds, HeaderPos, ShowsSegments;
    if segs == [] {
      NothingHeld(cells, pos);
      StartPos(pos, segs);
      NothingShown(cells, pos);
    } else {
      var rest, next := segs[1..], pos + 8 + |segs[0].data|;
      EncodingShowsSegments(cells, next, rest);
      EncodedSize(segs);
      SegmentLengthOf(segs[0]);
      HoldsConcat(cells, pos, EncodeSegment(segs[0]), EncodeSegments(rest));
      HeldSegmentIff(cells, pos, segs[0]);
      HeaderPosShifts(pos, segs, |segs|);
      ShowsFirstAndRest(cells, pos, segs);
    }
  }

  lemma ShowsFirstAndRest(cells: seq<byte>, pos: nat, segs: seq<Segment>)
    requires segs != []
    ensures ShowsSegments(cells, pos, segs) <==>
      && pos + 8 + |segs[0].data| <= |cells|
      && WordAt(cells, pos) == segs[0].loadAddr && WordAt(cells, pos + 4) == |segs[0].data|
      && cells[pos + 8..pos + 8 + |segs[0].data|] == segs[0].data
      && ShowsSegments(cells, pos + 8 + |segs[0].data|, segs[1..])
  {
    hide WordAt;
    assert ShowsSegments(cells, pos, segs) ==> ShowsSegment(cells, pos, segs, 0);
    var rest, next := segs[1..], pos + 8 + |segs[0].data|;
    forall i | 0 < i < |segs| ensures ShowsSegment(cells, pos, segs, i) <==> ShowsSegment(cells, next, rest, i - 1) {
      HeaderPosShifts(pos, segs, i);
    }
    if ShowsSegments(cells, pos, segs) {
      forall i | 0 <= i < |rest| ensures ShowsSegment(cells, next, rest, i) {
        assert ShowsSegment(cells, pos, segs, i + 1);
      }
    }
  }

  lemma NothingShown(cells: seq<byte>, pos: nat)
    ensures ShowsSegments(cells, pos, [])
  {
  }

  lemma StartPos(pos: nat, segs: seq<Segment>)
    ensures HeaderPos(pos, segs, 0) == pos
  {
  }

  // ----- one turn of each walk -----

  lemma CopyIffHeld(d: Dev, call: nat, pos: u32, s: Segment)
    requires |d.cells| < U32_MOD
    ensures CopyAt(d, call, pos) == Copied(s)
            <==> Quiet(d, call, call + 2) && LoadableSegment(s) && Holds(d.cells, pos, EncodeSegment(s))
    ensures CopyAt(d, call, pos) == Copied(s) ==> NextPos(pos, s) == pos + 8 + |s.data|
  {
    hide Le32;
    assert Quiet(d, call, call + 2) <==> d.status(call) == 0 && d.status(call + 1) == 0;
    if pos + 8 <= |d.cells| {
      Le32Slice(d.cells, pos, pos + 8, 0);
      Le32Slice(d.cells, pos, pos + 8, 4);
    }
    if CopyAt(d, call, pos) == Copied(s) {
      HeldFromHeader(d.cells, pos, s);
    }
    if Quiet(d, call, call + 2) && LoadableSegment(s) && Holds(d.cells, pos, EncodeSegment(s)) {
      HeldHeader(d.cells, pos, s);
    }
  }

  lemma LengthOfHeld(d: Dev, call: nat, pos: u32, s: Segment)
    requires |s.data| <= MAX_SEGMENT && Holds(d.cells, pos, EncodeSegment(s)) && d.status(call) == 0
    ensures LengthAt(d, call, pos) == Ok(|s.data|)
  {
    hide Le32;
    HeldHeader(d.cells, pos, s);
    Le32Slice(d.cells, pos, pos + 8, 4);
  }

  // ----- whole walks -----

  /** The copying walk succeeds with exactly `segs` if and only if the flash holds the encoding of
      `segs`, each of them loadable, and no ROM call fails: parsing inverts the encoder. */
  lemma {:induction false} LoadIffEncoded(d: Dev, call: nat, pos: u32, n: nat, segs: seq<Segment>)
    requires |d.cells| < U32_MOD
    ensures LoadFrom(d, call, pos, n) == LoadTrace(segs, Done)
            <==> |segs| == n && Quiet(d, call, call + 2 * n) && Loadable(segs)
                 && Holds(d.cells, pos, EncodeSegments(segs))
    decreases n
  {
    hide CopyAt, EncodeSegment, EncodeSegments, Holds, LoadableSegment, WrapAdd, NextPos;
    if n == 0 || segs == [] {
      NothingHeld(d.cells, pos);
    } else {
      var s, rest := segs[0], segs[1..];
      FirstOfEncoded(d.cells, pos, segs);
      assert Quiet(d, call, call + 2 * n) <==> Quiet(d, call, call + 2) && Quiet(d, call + 2, call + 2 * n);
      CopyIffHeld(d, call, pos, s);
      match CopyAt(d, call, pos)
      case Failed(_, _, _) =>
      case Copied(found) =>
        var tail := LoadFrom(d, call + 2, NextPos(pos, found), n - 1);
        assert ([found] + tail.segs)[0] == found && ([found] + tail.segs)[1..] == tail.segs;
        assert segs == [s] + rest;
        if found == s {
          LoadIffEncoded(d, call + 2, NextPos(pos, s), n - 1, rest);
        }
    }
  }

  /** A held encoding is its first segment's, and the others' right behind it. */
  lemma FirstOfEncoded(cells: seq<byte>, pos: nat, segs: seq<Segment>)
    requires segs != []
    ensures Loadable(segs) <==> LoadableSegment(segs[0]) && Loadable(segs[1..])
    ensures Loadable(segs) ==>
      (Holds(cells, pos, EncodeSegments(segs))
       <==> Holds(cells, pos, EncodeSegment(segs[0]))
            && Holds(cells, pos + 8 + |segs[0].data|, EncodeSegments(segs[1..])))
  {
    hide EncodeSegment, Holds, LoadableSegment;
    assert segs == [segs[0]] + segs[1..];
    if Loadable(segs) {
      LoadableIsBounded(segs);
      SegmentLengthOf(segs[0]);
      HoldsConcat(cells, pos, EncodeSegment(segs[0]), EncodeSegments(segs[1..]));
    }
  }

  lemma NothingHeld(cells: seq<byte>, pos: nat)
    ensures Holds(cells, pos, EncodeSegments([]))
  {
  }

  lemma LoadableIsBounded(segs: seq<Segment>)
    requires Loadable(segs)
    ensures Bounded(segs)
  {
  }

  lemma SegmentLengthOf(s: Segment)
    requires |s.data| <= MAX_SEGMENT
    ensures |EncodeSegment(s)| == 8 + |s.data|
  {
  }

  lemma EncodedSize(segs: seq<Segment>)
    requires Bounded(segs) && segs != []
    ensures |EncodeSegments(segs)| == 8 + |segs[0].data| + |EncodeSegments(segs[1..])|
  {
    SegmentLengthOf(segs[0]);
  }

  /** The size walk over an encoding reports its length, whatever the alignment. */
  lemma {:induction false} SizeOfEncoded(d: Dev, call: nat, pos: u32, segs: seq<Segment>)
    requires |d.cells| < U32_MOD && Quiet(d, call, call + |segs|)
    requires Bounded(segs) && Holds(d.cells, pos, EncodeSegments(segs))
    ensures SizeFrom(d, call, pos, |segs|) == Ok(|EncodeSegments(segs)|)
    decreases |segs|
  {
    hide LengthAt, EncodeSegment;
    if segs == [] {
    } else {
      var s, rest := segs[0], segs[1..];
      EncodedSize(segs);
      HoldsConcat(d.cells, pos, EncodeSegment(s), EncodeSegments(rest));
      SegmentLengthOf(s);
      LengthOfHeld(d, call, pos, s);
      SizeOfEncoded(d, call + 1, pos + 8 + |s.data|, rest);
    }
  }

  /** The segment a header at `pos` describes. */
  function SegmentOn(cells: seq<byte>, pos: nat): Segment
    requires pos + 8 <= |cells| && pos + 8 + WordAt(cells, pos + 4) <= |cells|
  {
    Segment(WordAt(cells, pos), cells[pos + 8..pos + 8 + WordAt(cells, pos + 4)])
  }

  lemma LengthOkIsHeld(d: Dev, call: nat, pos: u32, len: u32)
    requires LengthAt(d, call, pos) == Ok(len) && pos + 8 + len <= |d.cells|
    ensures d.status(call) == 0 && len == WordAt(d.cells, pos + 4)
    ensures Holds(d.cells, pos, EncodeSegment(SegmentOn(d.cells, pos)))
  {
    hide Le32;
    Le32Slice(d.cells, pos, pos + 8, 4);
    HeldFromHeader(d.cells, pos, SegmentOn(d.cells, pos));
  }

  /** Conversely a size walk that succeeds within the chip has walked over an encoding. */
  lemma {:induction false} SizeFindsEncoding(d: Dev, call: nat, pos: u32, n: nat, size: nat)
    returns (segs: seq<Segment>)
    requires |d.cells| < U32_MOD && pos + size <= |d.cells|
    requires SizeFrom(d, call, pos, n) == Ok(size)
    ensures |segs| == n && Bounded(segs) && |EncodeSegments(segs)| == size
    ensures Holds(d.cells, pos, EncodeSegments(segs))
    ensures Quiet(d, call, call + n)
    decreases n
  {
    hide LengthAt, EncodeSegment, WordAt;
    segs := [];
    if n == 0 {
    } else {
      var len := LengthAt(d, call, pos).value;
      LengthOkIsHeld(d, call, pos, len);
      var s := SegmentOn(d.cells, pos);
      var rest := SizeFindsEncoding(d, call + 1, pos + 8 + len, n - 1, size - 8 - len);
      segs := [s] + rest;
      assert segs[1..] == rest;
      EncodedSize(segs);
      SegmentLengthOf(s);
      HoldsConcat(d.cells, pos, EncodeSegment(s), EncodeSegments(rest));
    }
  }

  /** Load address and length of each of the `n` headers from `pos` on are whole words. */
  predicate AlignedFrom(cells: seq<byte>, pos: nat, n: nat)
    decreases n
  {
    n == 0 || (&& WordAt(cells, pos) % 4 == 0
               && WordAt(cells, pos + 4) % 4 == 0
               && AlignedFrom(cells, pos + 8 + WordAt(cells, pos + 4), n - 1))
  }

  lemma {:induction false} AlignedIffLoadable(cells: seq<byte>, pos: nat, segs: seq<Segment>)
    requires Bounded(segs) && Holds(cells, pos, EncodeSegments(segs))
    ensures AlignedFrom(cells, pos, |segs|) <==> Loadable(segs)
    decreases |segs|
  {
    hide WordAt, EncodeSegment;
    if segs == [] {
    } else {
      var s, rest := segs[0], segs[1..];
      assert segs == [s] + rest;
      HoldsConcat(cells, pos, EncodeSegment(s), EncodeSegments(rest));
      SegmentLengthOf(s);
      HeldHeader(cells, pos, s);
      AlignedIffLoadable(cells, pos + 8 + |s.data|, rest);
      assert Loadable(segs) <==> LoadableSegment(s) && Loadable(rest);
    }
  }

  /** The two walks agree. With no ROM failure on either, the copying walk succeeds if and only if
      the size walk does, the segments end within the chip and every header is word-aligned; and then
      the size reported is the length of exactly the bytes that were copied. */
  lemma WalksAgree(d: Dev, sizeCall: nat, loadCall: nat, pos: u32, n: nat)
    requires |d.cells| < U32_MOD && pos <= |d.cells|
    requires Quiet(d, sizeCall, sizeCall + n) && Quiet(d, loadCall, loadCall + 2 * n)
    ensures var size, load := SizeFrom(d, sizeCall, pos, n), LoadFrom(d, loadCall, pos, n);
            && (load.end.Done? <==>
                size.Ok? && pos + size.value <= |d.cells| && AlignedFrom(d.cells, pos, n))
            && (load.end.Done? ==>
                && Loadable(load.segs) && size == Ok(|EncodeSegments(load.segs)|)
                && Holds(d.cells, pos, EncodeSegments(load.segs)))
  {
    hide LengthAt, CopyAt, WordAt, EncodeSegment, EncodeSegments, SizeFrom, LoadFrom, AlignedFrom;
    var size, load := SizeFrom(d, sizeCall, pos, n), LoadFrom(d, loadCall, pos, n);
    if load.end.Done? {
      LoadIffEncoded(d, loadCall, pos, n, load.segs);
      SizeOfEncoded(d, sizeCall, pos, load.segs);
      AlignedIffLoadable(d.cells, pos, load.segs);
    }
    if size.Ok? && pos + size.value <= |d.cells| && AlignedFrom(d.cells, pos, n) {
      var segs := SizeFindsEncoding(d, sizeCall, pos, n, size.value);
      AlignedIffLoadable(d.cells, pos, segs);
      LoadIffEncoded(d, loadCall, pos, n, segs);
    }
  }

  // ----- where a failing walk stops -----

  /** The size walk gets through `k` segments and then reports `e` at the next header. */
  ghost predicate SizeStopsAt(d: Dev, call: nat, pos: u32, k: nat, e: AppLoadError) {
    var done := SizeFrom(d, call, pos, k);
    done.Ok? && LengthAt(d, call + k, (pos + done.value) % U32_MOD) == Err(e)
  }

  /** The size walk fails with `e` if and only if one of its headers is the first bad one, and bad with `e`. */
  lemma {:induction false} SizeErrorIff(d: Dev, call: nat, pos: u32, n: nat, e: AppLoadError)
    ensures SizeFrom(d, call, pos, n) == Err(e) <==> exists k: nat :: k < n && SizeStopsAt(d, call, pos, k, e)
    decreases n
  {
    hide LengthAt;
    if n == 0 {
    } else {
      assert LengthAt(d, call, pos) == Err(e) <==> SizeStopsAt(d, call, pos, 0, e);
      if LengthAt(d, call, pos).Ok? {
        var next := WrapAdd(pos, SEGMENT_HEADER_SIZE + LengthAt(d, call, pos).value);
        SizeErrorIff(d, call + 1, next, n - 1, e);
        if SizeFrom(d, call, pos, n) == Err(e) {
          var k: nat :| k < n - 1 && SizeStopsAt(d, call + 1, next, k, e);
          SizeStopShifts(d, call, pos, k, e);
          assert SizeStopsAt(d, call, pos, k + 1, e);
        }
        if k: nat :| k < n && SizeStopsAt(d, call, pos, k, e) {
          SizeStopShifts(d, call, pos, k - 1, e);
          assert SizeStopsAt(d, call + 1, next, k - 1, e);
        }
      } else {
        forall k: nat | k > 0 ensures !SizeStopsAt(d, call, pos, k, e) {}
      }
    }
  }

  lemma SizeStopShifts(d: Dev, call: nat, pos: u32, k: nat, e: AppLoadError)
    requires LengthAt(d, call, pos).Ok?
    ensures SizeStopsAt(d, call, pos, k + 1, e)
       <==> SizeStopsAt(d, call + 1, WrapAdd(pos, SEGMENT_HEADER_SIZE + LengthAt(d, call, pos).value), k, e)
  {
    hide LengthAt, WrapAdd;
    var step := SEGMENT_HEADER_SIZE + LengthAt(d, call, pos).value;
    var rest := SizeFrom(d, call + 1, WrapAdd(pos, step), k);
    assert SizeFrom(d, call, pos, k + 1) == AddSize(step, rest);
    if rest.Ok? {
      WrapAddThenAdd(pos, step, rest.value);
      assert pos + AddSize(step, rest).value == pos + (step + rest.value);
    }
  }

  /** A copying walk that fails has copied exactly the segments before the first bad one: stopping right there
      would have been a success, and the next turn is the one that fails, with the error reported. */
  lemma {:induction false} StoppedAfterPrefix(d: Dev, call: nat, pos: u32, n: nat)
    requires |d.cells| < U32_MOD && LoadFrom(d, call, pos, n).end.Stopped?
    ensures var t := LoadFrom(d, call, pos, n);
      && |t.segs| < n && LoadFrom(d, call, pos, |t.segs|) == LoadTrace(t.segs, Done)
      && Loadable(t.segs) && pos + |EncodeSegments(t.segs)| < U32_MOD
      && CopyAt(d, call + 2 * |t.segs|, pos + |EncodeSegments(t.segs)|)
         == Failed(t.end.error, t.end.tornAt, t.end.tornLen)
    decreases n
  {
    hide CopyAt, EncodeSegment, EncodeSegments, LoadableSegment, NextPos;
    var t := LoadFrom(d, call, pos, n);
    if CopyAt(d, call, pos).Failed? {
      NothingEncoded();
    } else {
      var s := CopyAt(d, call, pos).seg;
      CopiedFits(d, call, pos, s);
      var rest := LoadFrom(d, call + 2, NextPos(pos, s), n - 1);
      StoppedAfterPrefix(d, call + 2, NextPos(pos, s), n - 1);
      assert t.segs == [s] + rest.segs && t.segs[1..] == rest.segs;
      LoadableIsBounded(t.segs);
      EncodedSize(t.segs);
    }
  }

  lemma NothingEncoded()
    ensures EncodeSegments([]) == []
  {
  }

  lemma CopiedFits(d: Dev, call: nat, pos: u32, s: Segment)
    requires |d.cells| < U32_MOD && CopyAt(d, call, pos) == Copied(s)
    ensures LoadableSegment(s) && NextPos(pos, s) == pos + 8 + |s.data|
  {
    hide CopyAt;
    CopyIffHeld(d, call, pos, s);
  }

  // ----- no `u32` sum of the walks wraps -----

  /** Every position the size walk computes fits a `u32`. */
  ghost predicate SizeSumsFit(d: Dev, call: nat, pos: nat, n: nat)
    decreases n
  {
    pos < U32_MOD
    && (n > 0 && LengthAt(d, call, pos).Ok? ==>
          SizeSumsFit(d, call + 1, pos + SEGMENT_HEADER_SIZE + LengthAt(d, call, pos).value, n - 1))
  }

  /** Every position the copying walk computes fits a `u32`. */
  ghost predicate LoadSumsFit(d: Dev, call: nat, pos: nat, n: nat)
    decreases n
  {
    pos < U32_MOD
    && (n > 0 ==> pos + SEGMENT_HEADER_SIZE < U32_MOD)
    && (n > 0 && CopyAt(d, call, pos).Copied? ==>
          LoadSumsFit(d, call + 2, pos + SEGMENT_HEADER_SIZE + |CopyAt(d, call, pos).seg.data|, n - 1))
  }

  lemma {:induction false} SizeSumsAlwaysFit(d: Dev, call: nat, pos: nat, n: nat)
    requires pos + n * 0x80_0008 < U32_MOD
    ensures SizeSumsFit(d, call, pos, n)
    decreases n
  {
    if n == 0 || LengthAt(d, call, pos).Err? {
    } else {
      SizeSumsAlwaysFit(d, call + 1, pos + SEGMENT_HEADER_SIZE + LengthAt(d, call, pos).value, n - 1);
    }
  }

  lemma {:induction false} LoadSumsAlwaysFit(d: Dev, call: nat, pos: nat, n: nat)
    requires pos + n * 0x80_0008 < U32_MOD
    ensures LoadSumsFit(d, call, pos, n)
    decreases n
  {
    if n == 0 || CopyAt(d, call, pos).Failed? {
    } else {
      LoadSumsAlwaysFit(d, call + 2, pos + SEGMENT_HEADER_SIZE + |CopyAt(d, call, pos).seg.data|, n - 1);
    }
  }

  /** For every flash content, header and ROM behaviour: from an offset up to 0x807FF7C0, where an image of
      the largest size still ends within 2^32, neither walk's positions nor the end of the image leave
      the 32-bit range. */
  lemma NoSumWraps(d: Dev, call: nat, off: u32, h: ImageHeader)
    requires off <= 0x807F_F7C0
    ensures SizeSumsFit(d, call, off + 24, h.segmentCount)
    ensures LoadSumsFit(d, call, off + 24, h.segmentCount)
    ensures SizeAt(d, call, off, h).Ok? ==>
      SizeAt(d, call, off, h).value <= 0x7F80_0840 && off + SizeAt(d, call, off, h).value <= 0x1_0000_0000
  {
    var n: nat := h.segmentCount;
    SizeSumsAlwaysFit(d, call, off + IMAGE_HEADER_SIZE, n);
    LoadSumsAlwaysFit(d, call, off + IMAGE_HEADER_SIZE, n);
  }
}
