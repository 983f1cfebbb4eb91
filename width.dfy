/** Bit-width arithmetic of `skip/SmallTaggedPtr.h`: rounding bits up to
    bytes, the platform's usable pointer width, and the byte size of the
    smallest native unsigned type holding a bit count. */
module Width {
  import opened Bits

  /** Bytes in `uintptr_t` (and in any pointer) on the targets modelled. */
  const WordBytes: nat := 8

  /** `bitsToBytes`: `(bits + 7) >> 3`, the fewest whole bytes holding `bits` bits. */
  function BitsToBytes(bits: nat): (r: nat)
    ensures 8 * r >= bits
    ensures r == 0 || 8 * (r - 1) < bits
  {
    assert Pow2(3) == 8;
    Shr(bits + 7, 3)
  }

  /** The compilation targets the header distinguishes. */
  datatype Arch = X86_64 | AArch64 | OtherArch

  /** `kMaxPtrBits`: user-space addresses use 47 bits on x86_64 and aarch64; any
      other target is taken to use the whole 64-bit pointer. */
  function KMaxPtrBits(arch: Arch): (r: nat)
    ensures r <= WordBits
    ensures arch != OtherArch ==> r == 47
  {
    match arch
    case X86_64 => 47
    case AArch64 => 47
    case OtherArch => WordBits
  }

  /** `kMinPtrBits`: pinned to `kMaxPtrBits`, so exactly one pointer width is accepted. */
  function KMinPtrBits(arch: Arch): (r: nat)
    ensures r == KMaxPtrBits(arch)
    ensures arch != OtherArch ==> r == 47
  {
    KMaxPtrBits(arch)
  }

  /** A native unsigned scalar width in bytes: `uint8_t` .. `uint64_t`. */
  predicate IsNativeBytes(k: nat)
  {
    k == 1 || k == 2 || k == 4 || k == 8
  }

  /** `sizeof(boost::uint_t<bits>::least)`: bytes of the smallest native unsigned
      type with at least `bits` bits (there is none above 64 bits). */
  function LeastUIntBytes(bits: nat): (r: nat)
    requires bits <= WordBits
    ensures IsNativeBytes(r) && bits <= 8 * r
    ensures forall k: nat | IsNativeBytes(k) && bits <= 8 * k :: r <= k
  {
    if bits <= 8 then 1 else if bits <= 16 then 2 else if bits <= 32 then 4 else 8
  }
}
