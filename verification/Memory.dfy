/** The 32-bit address space that segments are copied into. */
module Memory {
  import opened Words

  /** Where the bootloader itself runs, stack included (`memory.x`). */
  const BOOT_BASE: u32 := 0x4FF2_0000
  const BOOT_END: u32 := 0x4FF3_0000

  /** Address `a` is one of the `len` addresses starting at `at` (addresses wrap). */
  predicate Covers(at: u32, len: nat, a: u32) {
    WrapSub(a, at) < len
  }

  /** The address of byte `k` of a store at `at`. */
  function ByteAddress(at: u32, k: nat): u32 {
    (at + k) % 0x1_0000_0000
  }

  /** These are the addresses that the bytes of a store of that length go to. */
  lemma CoversIff(at: u32, len: nat, a: u32)
    ensures Covers(at, len, a) <==> exists k: nat :: k < len && ByteAddress(at, k) == a
    ensures Covers(at, len, a) <==> (a - at) % 0x1_0000_0000 < len
  {
    WrapIsModulo(a, at);
    if Covers(at, len, a) {
      assert ByteAddress(at, WrapSub(a, at)) == a;
    }
    if k: nat :| k < len && ByteAddress(at, k) == a {
      DistanceIsLeast(at, k, a);
    }
  }

  /** No byte before the one at this distance gets to `a`. */
  lemma DistanceIsLeast(at: u32, k: nat, a: u32)
    requires ByteAddress(at, k) == a
    ensures WrapSub(a, at) <= k && (k < 0x1_0000_0000 ==> WrapSub(a, at) == k)
  {
    var q := (at + k) / 0x1_0000_0000;
    assert at + k == q * 0x1_0000_0000 + a;
  }

  /** Some of the `len` addresses starting at `at` belong to the bootloader. */
  predicate ReachesLoader(at: u32, len: nat) {
    len > 0 && (BOOT_BASE <= at < BOOT_END || WrapSub(BOOT_BASE, at) < len)
  }

  lemma ReachesLoaderIff(at: u32, len: nat)
    ensures ReachesLoader(at, len) <==> exists a: u32 :: BOOT_BASE <= a < BOOT_END && Covers(at, len, a)
    ensures ReachesLoader(at, len)
            <==> exists k: nat :: k < len && 0x4FF2_0000 <= ByteAddress(at, k) < 0x4FF3_0000
  {
    if ReachesLoader(at, len) {
      var a: u32 := if BOOT_BASE <= at < BOOT_END then at else BOOT_BASE;
      assert Covers(at, len, a);
      CoversIff(at, len, a);
    }
    if k: nat :| k < len && 0x4FF2_0000 <= ByteAddress(at, k) < 0x4FF3_0000 {
      CoversIff(at, len, ByteAddress(at, k));
    }
  }

  /** Memory contents after storing `data` at `at`. */
  function Overwrite(mem: seq<byte>, at: u32, data: seq<byte>): (m: seq<byte>)
    requires |mem| == U32_MOD
    ensures |m| == U32_MOD
  {
    seq(U32_MOD, a requires 0 <= a < U32_MOD =>
      if Covers(at, |data|, a) then data[WrapSub(a, at)] else mem[a])
  }

  /** Byte `k` goes to address `at + k`, modulo 2^32, and every other address keeps its value. */
  lemma OverwriteBytes(mem: seq<byte>, at: u32, data: seq<byte>)
    requires |mem| == 0x1_0000_0000 && |data| <= 0x1_0000_0000
    ensures forall k: nat | k < |data| :: Overwrite(mem, at, data)[ByteAddress(at, k)] == data[k]
    ensures forall a: u32 | (forall k: nat | k < |data| :: ByteAddress(at, k) != a) ::
      Overwrite(mem, at, data)[a] == mem[a]
  {
    forall k: nat | k < |data| ensures Overwrite(mem, at, data)[ByteAddress(at, k)] == data[k] {
      DistanceIsLeast(at, k, ByteAddress(at, k));
    }
    forall a: u32 | (forall k: nat | k < |data| :: ByteAddress(at, k) != a)
      ensures Overwrite(mem, at, data)[a] == mem[a]
    {
      CoversIff(at, |data|, a);
    }
  }

  ghost predicate SameOutside(before: seq<byte>, after: seq<byte>, at: u32, len: nat)
    requires |before| == |after| == U32_MOD
  {
    forall a: u32 :: !Covers(at, len, a) ==> after[a] == before[a]
  }

  class Ram {
    var cells: seq<byte>
    /** Something was stored where the bootloader runs. */
    var loaderHit: bool

    ghost predicate Valid()
      reads this
    {
      |cells| == U32_MOD
    }

    method Store(at: u32, data: seq<byte>)
      requires Valid()
      modifies this
      ensures Valid()
      ensures cells == Overwrite(old(cells), at, data)
      ensures loaderHit == (old(loaderHit) || ReachesLoader(at, |data|))
    {
      cells := Overwrite(cells, at, data);
      loaderHit := loaderHit || ReachesLoader(at, |data|);
    }
  }
}
