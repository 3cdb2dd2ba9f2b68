/** What memory looks like once segments are copied: the last writer wins, everything else stays,
    and exactly when the bootloader's own memory survives. */
module LoadedMemory {
  import opened Words
  import opened Memory
  import opened AppImage

  predicate Hits(s: Segment, a: u32) {
    Covers(s.loadAddr, |s.data|, a)
  }

  lemma {:induction false} LastHitWins(mem: seq<byte>, segs: seq<Segment>, a: u32)
    requires |mem| == U32_MOD
    ensures (forall s | s in segs :: !Hits(s, a)) ==> Apply(mem, segs)[a] == mem[a]
    ensures forall i | 0 <= i < |segs| && Hits(segs[i], a) && (forall j | i < j < |segs| :: !Hits(segs[j], a)) ::
      Apply(mem, segs)[a] == segs[i].data[WrapSub(a, segs[i].loadAddr)]
    decreases |segs|
  {
    if segs == [] {
    } else {
      var last := |segs| - 1;
      LastHitWins(mem, segs[..last], a);
      assert Apply(mem, segs) == Overwrite(Apply(mem, segs[..last]), segs[last].loadAddr, segs[last].data);
      if !Hits(segs[last], a) {
        forall i | 0 <= i < last && Hits(segs[i], a) && (forall j | i < j < |segs| :: !Hits(segs[j], a))
          ensures Apply(mem, segs)[a] == segs[i].data[WrapSub(a, segs[i].loadAddr)]
        {
          assert segs[..last][i] == segs[i];
        }
      }
    }
  }

  /** Some byte of the segment is for address `a`. */
  ghost predicate Brings(s: Segment, a: u32) {
    exists k: nat :: k < |s.data| && ByteAddress(s.loadAddr, k) == a
  }

  lemma BringsIsHits(s: Segment, a: u32)
    ensures Brings(s, a) <==> Hits(s, a)
  {
    CoversIff(s.loadAddr, |s.data|, a);
  }

  /** After a load, byte `k` of segment `i` is at `loadAddr + k`, modulo 2^32, unless a later segment brought
      another byte for that address; and an address for which no segment brings a byte keeps its value. */
  lemma LastWriterWins(mem: seq<byte>, segs: seq<Segment>, i: nat, k: nat, a: u32)
    requires |mem| == 0x1_0000_0000
    requires i < |segs| && k < |segs[i].data| <= 0x1_0000_0000
    ensures var to := (segs[i].loadAddr + k) % 0x1_0000_0000;
      (forall j | i < j < |segs| :: !Brings(segs[j], to)) ==> Apply(mem, segs)[to] == segs[i].data[k]
    ensures (forall s | s in segs :: !Brings(s, a)) ==> Apply(mem, segs)[a] == mem[a]
  {
    hide Apply, Brings, Hits;
    var to := ByteAddress(segs[i].loadAddr, k);
    forall s | s in segs ensures Brings(s, a) <==> Hits(s, a) {
      BringsIsHits(s, a);
    }
    LastHitWins(mem, segs, a);
    if forall j | i < j < |segs| :: !Brings(segs[j], to) {
      forall j | i < j < |segs| ensures !Hits(segs[j], to) {
        BringsIsHits(segs[j], to);
      }
      DistanceIsLeast(segs[i].loadAddr, k, to);
      HitsAtDistance(segs[i], k, to);
      LastHitWins(mem, segs, to);
    }
  }

  lemma HitsAtDistance(s: Segment, k: nat, a: u32)
    requires k < |s.data| && WrapSub(a, s.loadAddr) == k
    ensures Hits(s, a)
  {
  }

  /** A load that stopped half-way leaves the memory of the segments copied before, except at the addresses
      whose copy failed. */
  lemma TornLoad(before: seq<byte>, after: seq<byte>, t: LoadTrace)
    requires |before| == |after| == 0x1_0000_0000 && t.end.Stopped?
    ensures LoadEffect(before, after, t)
      <==> forall a: u32 | !(exists k: nat :: k < t.end.tornLen && ByteAddress(t.end.tornAt, k) == a) ::
             after[a] == Apply(before, t.segs)[a]
  {
    hide Apply, Covers, ByteAddress;
    forall a: u32
      ensures Covers(t.end.tornAt, t.end.tornLen, a)
              <==> exists k: nat :: k < t.end.tornLen && ByteAddress(t.end.tornAt, k) == a
    {
      CoversIff(t.end.tornAt, t.end.tornLen, a);
    }
  }

  /** The index of the last segment covering `a`. */
  lemma {:induction false} LastHit(segs: seq<Segment>, a: u32) returns (i: nat)
    requires exists s :: s in segs && Hits(s, a)
    ensures i < |segs| && Hits(segs[i], a) && forall j | i < j < |segs| :: !Hits(segs[j], a)
    decreases |segs|
  {
    var last := |segs| - 1;
    if Hits(segs[last], a) {
      return last;
    }
    var s :| s in segs && Hits(s, a);
    assert s in segs[..last];
    i := LastHit(segs[..last], a);
  }

  ghost predicate Avoids(s: Segment, lo: u32, hi: u32) {
    forall a: u32 | lo <= a < hi :: !Hits(s, a)
  }

  ghost predicate LoadKeeps(mem: seq<byte>, segs: seq<Segment>, lo: u32, hi: u32)
    requires |mem| == U32_MOD
  {
    forall a: u32 | lo <= a < hi :: Apply(mem, segs)[a] == mem[a]
  }

  /** A segment reaching into a region destroys it, at least for some previous contents. */
  lemma RegionOverwritten(segs: seq<Segment>, lo: u32, hi: u32, a: u32) returns (mem: seq<byte>)
    requires lo <= a < hi && exists s :: s in segs && Hits(s, a)
    ensures |mem| == U32_MOD && !LoadKeeps(mem, segs, lo, hi)
  {
    hide Apply;
    var i := LastHit(segs, a);
    var brought := segs[i].data[WrapSub(a, segs[i].loadAddr)];
    var other: byte := if brought == 0 then 1 else 0;
    mem := seq<byte>(U32_MOD, _ => other);
    LastHitWins(mem, segs, a);
    assert Apply(mem, segs)[a] == brought;
  }

  /** Loading leaves a region as it was, whatever it held, if and only if no segment reaches into it.
      Nothing in the boot path checks this, so for the bootloader's own region it is the condition
      under which the jump is still reached by the code that was meant to make it. */
  lemma RegionKeptIff(segs: seq<Segment>, lo: u32, hi: u32)
    ensures (forall mem: seq<byte> | |mem| == U32_MOD :: LoadKeeps(mem, segs, lo, hi))
            <==> forall s | s in segs :: Avoids(s, lo, hi)
  {
    hide Apply, Hits, Covers;
    if forall s | s in segs :: Avoids(s, lo, hi) {
      forall mem: seq<byte> | |mem| == U32_MOD ensures LoadKeeps(mem, segs, lo, hi) {
        forall a: u32 | lo <= a < hi ensures Apply(mem, segs)[a] == mem[a] {
          LastHitWins(mem, segs, a);
        }
      }
    } else {
      var s :| s in segs && !Avoids(s, lo, hi);
      var a: u32 :| lo <= a < hi && Hits(s, a);
      var mem := RegionOverwritten(segs, lo, hi, a);
    }
  }

  /** The bootloader's own region survives a load, complete or stopped half-way, that does not hit it. */
  lemma BootloaderSurvivesLoad(before: seq<byte>, after: seq<byte>, t: LoadTrace, a: u32)
    requires |before| == |after| == U32_MOD && LoadEffect(before, after, t)
    requires !HitsLoader(t) && 0x4FF2_0000 <= a < 0x4FF3_0000
    ensures after[a] == before[a]
  {
    hide ReachesLoader, Apply;
    forall s | s in t.segs ensures !Hits(s, a) {
      ReachesLoaderIff(s.loadAddr, |s.data|);
    }
    if t.end.Stopped? {
      ReachesLoaderIff(t.end.tornAt, t.end.tornLen);
    }
    LastHitWins(before, t.segs, a);
  }

  /** A complete load leaves the bootloader intact, whatever memory held, if and only if it does not hit it. */
  lemma LoaderKeptIff(segs: seq<Segment>)
    ensures (forall mem: seq<byte> | |mem| == U32_MOD :: LoadKeeps(mem, segs, 0x4FF2_0000, 0x4FF3_0000))
            <==> !HitsLoader(LoadTrace(segs, Done))
  {
    hide ReachesLoader, Apply, Avoids;
    RegionKeptIff(segs, BOOT_BASE, BOOT_END);
    forall s | s in segs ensures Avoids(s, BOOT_BASE, BOOT_END) <==> !ReachesLoader(s.loadAddr, |s.data|) {
      AvoidsLoaderIff(s);
    }
  }

  lemma AvoidsLoaderIff(s: Segment)
    ensures Avoids(s, BOOT_BASE, BOOT_END) <==> !ReachesLoader(s.loadAddr, |s.data|)
  {
    hide ReachesLoader;
    ReachesLoaderIff(s.loadAddr, |s.data|);
    if a: u32 :| BOOT_BASE <= a < BOOT_END && Covers(s.loadAddr, |s.data|, a) {
      assert Hits(s, a);
    }
  }
}
