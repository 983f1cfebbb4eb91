/** `UIntTypeSelector` and the two wrappers it picks from: the storage of an
    unsigned integer of exactly 1 to 8 bytes. Power-of-two sizes are a
    native scalar or an `UnalignedValue`; sizes 3, 5, 6 and 7 are a
    `PackedUInt` of two smaller representations, low part first. */
module UIntSelector {
  import opened Bits
  import opened LittleEndian
  import opened Width

  /** `folly::isPowTwo` on a byte count. */
  predicate IsPowTwo(size: nat)
  {
    size != 0 && And(size, size - 1) == 0
  }

  /** `size & (size - 1)`: the size of the low part (`size` without its lowest set bit). */
  function LoPartSize(size: nat): nat
    requires size >= 1
  {
    And(size, size - 1)
  }

  /** `size & -size` on `size_t`: the size of the high part (the lowest set bit of `size`). */
  function HiPartSize(size: nat): nat
    requires 1 <= size < Pow2(WordBits)
  {
    And(size, Pow2(WordBits) - size)
  }

  lemma {:induction false} PowTwoSizes()
    ensures IsPowTwo(1) && IsPowTwo(2) && IsPowTwo(4) && IsPowTwo(8)
    ensures !IsPowTwo(3) && !IsPowTwo(5) && !IsPowTwo(6) && !IsPowTwo(7)
    ensures LoPartSize(3) == 2 && LoPartSize(5) == 4 && LoPartSize(6) == 4 && LoPartSize(7) == 6
  {
  }

  lemma {:induction false} HiPartSizes()
    ensures 8 < Pow2(WordBits)
    ensures HiPartSize(3) == 1 && HiPartSize(5) == 1 && HiPartSize(6) == 2 && HiPartSize(7) == 1
  {
    Pow2Word();
  }

  /** For the byte counts the selector accepts, the split of a non-power-of-two
      size is into two non-empty, strictly smaller parts that add up to it, the
      high part a power of two. */
  lemma {:induction false} SplitSizes(size: nat)
    requires 1 <= size <= WordBytes
    ensures size < Pow2(WordBits)
    ensures IsPowTwo(size) <==> IsNativeBytes(size)
    ensures !IsPowTwo(size) ==>
              && 1 <= LoPartSize(size) < size
              && 1 <= HiPartSize(size) < size
              && LoPartSize(size) + HiPartSize(size) == size
              && IsPowTwo(HiPartSize(size))
  {
    Pow2Word();
    PowTwoSizes();
    HiPartSizes();
    if size == 3 {
      assert LoPartSize(3) == 2 && HiPartSize(3) == 1;
    } else if size == 5 {
      assert LoPartSize(5) == 4 && HiPartSize(5) == 1;
    } else if size == 6 {
      assert LoPartSize(6) == 4 && HiPartSize(6) == 2;
    } else if size == 7 {
      assert LoPartSize(7) == 6 && HiPartSize(7) == 1;
    } else {
      assert IsNativeBytes(size);
    }
  }

  // ---------------------------------------------------------------------------
  // The representation chosen for a byte count

  /** The storage type `UIntTypeSelector<size, ...>::type`. */
  datatype UIntRep =
    | Scalar(size: nat)     // a native `uintN_t`
    | Unaligned(size: nat)  // `UnalignedValue<uintN_t>`
    | Packed(lo: UIntRep, hi: UIntRep, safeToLoadBefore: bool, safeToLoadAfter: bool)  // `PackedUInt<Lo, Hi, ...>`

  /** `sizeof` of a representation: both wrappers add no padding. */
  function SizeOf(rep: UIntRep): nat
  {
    match rep
    case Scalar(k) => k
    case Unaligned(k) => k
    case Packed(lo, hi, _, _) => SizeOf(lo) + SizeOf(hi)
  }

  /** Leaves are native widths, `UnalignedValue` is never one byte wide, and
      the parts of a `PackedUInt` never see the load hints. */
  predicate WellFormedRep(rep: UIntRep)
  {
    match rep
    case Scalar(k) => IsNativeBytes(k)
    case Unaligned(k) => IsNativeBytes(k) && k != 1
    case Packed(lo, hi, _, _) =>
      WellFormedRep(lo) && WellFormedRep(hi) && !Hinted(lo) && !Hinted(hi)
  }

  /** A `PackedUInt` allowed to load outside its own bytes. */
  predicate Hinted(rep: UIntRep)
  {
    rep.Packed? && (rep.safeToLoadBefore || rep.safeToLoadAfter)
  }

  /** `UIntTypeSelector<size, safeToLoadBefore, safeToLoadAfter, pack>::type`.
      The two parts of a split are selected with the template's default
      arguments: no load hints, packed. */
  function Select(size: nat, safeToLoadBefore: bool, safeToLoadAfter: bool, pack: bool): (rep: UIntRep)
    requires 1 <= size <= WordBytes
    ensures SizeOf(rep) == size
    ensures WellFormedRep(rep)
    ensures rep.Packed? <==> !IsNativeBytes(size)
    ensures rep.Packed? ==> rep.safeToLoadBefore == safeToLoadBefore && rep.safeToLoadAfter == safeToLoadAfter
    ensures rep.Scalar? <==> IsNativeBytes(size) && (!pack || size == 1)
    decreases size
  {
    SplitSizes(size);
    if IsPowTwo(size) then
      if pack && size != 1 then Unaligned(size) else Scalar(size)
    else
      Packed(Select(LoPartSize(size), false, false, true),
             Select(HiPartSize(size), false, false, true),
             safeToLoadBefore, safeToLoadAfter)
  }

  /** The bytes that assigning `v` leaves in a representation (`operator=`):
      a scalar keeps the low bytes of `v`; a `PackedUInt` stores `v` in its low
      part and `v >> (8 * sizeof(lo))` in its high part, each truncated. */
  function StoreBytes(rep: UIntRep, v: nat): (bytes: seq<Byte>)
    ensures |bytes| == SizeOf(rep)
    ensures FromLE(bytes) == v % Pow2(8 * SizeOf(rep))
  {
    match rep
    case Scalar(k) => FromLEToLE(v, k); ToLE(v, k)
    case Unaligned(k) => FromLEToLE(v, k); ToLE(v, k)
    case Packed(lo, hi, _, _) =>
      var l := StoreBytes(lo, v);
      var h := StoreBytes(hi, Shr(v, 8 * SizeOf(lo)));
      FromLEAppend(l, h);
      Pow2Add(8 * SizeOf(lo), 8 * SizeOf(hi));
      DivDiv(v, Pow2(8 * SizeOf(lo)), Pow2(8 * SizeOf(hi)));
      l + h
  }

  /** Storing a value already truncated to the representation's width writes the same bytes. */
  lemma {:induction false} StoreBytesTruncated(rep: UIntRep, v: nat)
    ensures StoreBytes(rep, v % Pow2(8 * SizeOf(rep))) == StoreBytes(rep, v)
  {
    var m := Pow2(8 * SizeOf(rep));
    DivDiv(v, m, 1);
    AddMulDivMod(v % m, 0, m);
    FromLEInjective(StoreBytes(rep, v % m), StoreBytes(rep, v));
  }

  // ---------------------------------------------------------------------------
  // The three ways `PackedUInt` converts its bytes back to a number

  /** The `safeToLoadBefore` read: one load of the whole `window`, which ends where
      the value ends and starts `junk` bytes before it, then `>> (junk * 8)`. */
  function WideLoadBefore(window: seq<Byte>, junk: nat): nat
    requires junk <= |window|
  {
    Shr(FromLE(window), 8 * junk)
  }

  /** The `safeToLoadAfter` read: one load of the whole `window`, which starts where
      the value starts, then `& (~(UIntType)0 >> (junk * 8))`. */
  function WideLoadAfter(window: seq<Byte>, junk: nat): nat
    requires junk <= |window|
  {
    And(FromLE(window), Shr(AllOnes(8 * |window|), 8 * junk))
  }

  /** The read that stays inside the value: `loBits | (hiBits << (sizeof(m_lo) * 8))`
      computed in a `wordBytes`-byte `UIntType`. */
  function PiecewiseRead(loBits: nat, hiBits: nat, loBytes: nat, wordBytes: nat): nat
  {
    Or(loBits, Shl(hiBits, 8 * loBytes, 8 * wordBytes))
  }

  /** Shifting out the borrowed low bytes leaves exactly the value's own bytes. */
  lemma {:induction false} WideLoadBeforeExact(borrowed: seq<Byte>, value: seq<Byte>)
    ensures WideLoadBefore(borrowed + value, |borrowed|) == FromLE(value)
  {
    FromLEAppend(borrowed, value);
    DropLowPart(FromLE(borrowed), FromLE(value), 8 * |borrowed|);
  }

  /** The arithmetic of `WideLoadBeforeExact`: `(x + 2^k * y) >> k` is `y` when `x` lies below bit `k`. */
  lemma {:induction false} DropLowPart(x: nat, y: nat, k: nat)
    requires x < Pow2(k)
    ensures Shr(x + Pow2(k) * y, k) == y
  {
    AddMulDivMod(x, y, Pow2(k));
  }

  /** Masking off the borrowed high bytes leaves exactly the value's own bytes. */
  lemma {:induction false} WideLoadAfterExact(value: seq<Byte>, borrowed: seq<Byte>)
    ensures WideLoadAfter(value + borrowed, |borrowed|) == FromLE(value)
  {
    FromLEAppend(value, borrowed);
    MaskHighPart(FromLE(value), FromLE(borrowed), 8 * |value|, 8 * |borrowed|, 8 * |value + borrowed|);
  }

  /** The arithmetic of `WideLoadAfterExact`: `x + 2^vb * y` masked by the
      all-ones `n = vb + bb`-bit value shifted right by `bb` is `x`. */
  lemma {:induction false} MaskHighPart(x: nat, y: nat, vb: nat, bb: nat, n: nat)
    requires x < Pow2(vb) && n == vb + bb
    ensures And(x + Pow2(vb) * y, Shr(AllOnes(n), bb)) == x
  {
    var p := Pow2(vb);
    assert Shr(AllOnes(n), bb) == p - 1 by {
      AllOnesShr(n, bb);
    }
    AndLowMask(x + p * y, vb);
    AddMulDivMod(x, y, p);
  }

  /** The piecewise read of two adjacent parts is the little-endian value of both. */
  lemma {:induction false} PiecewiseReadExact(lo: seq<Byte>, hi: seq<Byte>, wordBytes: nat)
    requires |lo| + |hi| <= wordBytes
    ensures PiecewiseRead(FromLE(lo), FromLE(hi), |lo|, wordBytes) == FromLE(lo + hi)
  {
    FromLEAppend(lo, hi);
    OrShifted(FromLE(lo), FromLE(hi), 8 * |lo|, 8 * |hi|, 8 * wordBytes);
  }

  /** The arithmetic of `PiecewiseReadExact`: when `y << k` fits in `w` bits and
      `x` lies below bit `k`, `x | (y << k)` is `x + 2^k * y`. */
  lemma {:induction false} OrShifted(x: nat, y: nat, k: nat, hb: nat, w: nat)
    requires x < Pow2(k) && y < Pow2(hb) && k + hb <= w
    ensures Or(x, Shl(y, k, w)) == x + Pow2(k) * y
  {
    var p := Pow2(k);
    assert y * p < Pow2(w) by {
      ShiftedBound(y, hb, k);
      Pow2Mono(hb + k, w);
    }
    ShlNoWrap(y, k, w);
    assert (y * p) % p == 0 by {
      AddMulDivMod(0, y, p);
      assert 0 + p * y == y * p;
    }
    OrDisjoint(y * p, x, k);
    OrSymmetric(x, y * p);
  }

  /** The bytes in memory right before and right after a value, which the
      load hints allow a read to touch. */
  datatype Neighbours = Neighbours(before: seq<Byte>, after: seq<Byte>)

  /** `junkBytes` of a `PackedUInt` of `size` bytes: `sizeof(UIntType) - size`. */
  function JunkBytes(size: nat): (r: nat)
    requires size <= WordBytes
    ensures size + r == LeastUIntBytes(8 * size)
  {
    LeastUIntBytes(8 * size) - size
  }

  /** The neighbouring bytes that the read `rep`'s hints select is allowed to load. */
  predicate Loadable(rep: UIntRep, mem: Neighbours)
    requires SizeOf(rep) <= WordBytes
  {
    rep.Packed? ==>
      && (rep.safeToLoadBefore ==> |mem.before| >= JunkBytes(SizeOf(rep)))
      && (!rep.safeToLoadBefore && rep.safeToLoadAfter ==> |mem.after| >= JunkBytes(SizeOf(rep)))
  }

  /** The conversion to a number of a representation whose own bytes are
      `bytes` and whose surroundings are `mem`: a scalar or `UnalignedValue`
      loads its bytes; a `PackedUInt` takes the wide load its hints select, or
      else reads its two parts (which carry no hints, so never look outside
      their bytes) and combines them in its `UIntType`. Whatever the path and
      whatever the neighbouring bytes hold, the result is the little-endian
      value of the representation's own bytes. */
  function ReadRep(rep: UIntRep, bytes: seq<Byte>, mem: Neighbours): (r: nat)
    requires WellFormedRep(rep)
    requires |bytes| == SizeOf(rep) <= WordBytes
    requires Loadable(rep, mem)
    ensures r == FromLE(bytes)
  {
    match rep
    case Scalar(_) => FromLE(bytes)
    case Unaligned(_) => FromLE(bytes)
    case Packed(lo, hi, safeToLoadBefore, safeToLoadAfter) =>
      var junk := JunkBytes(|bytes|);
      if safeToLoadBefore then
        var borrowed := mem.before[|mem.before| - junk..];
        WideLoadBeforeExact(borrowed, bytes);
        WideLoadBefore(borrowed + bytes, junk)
      else if safeToLoadAfter then
        var borrowed := mem.after[..junk];
        WideLoadAfterExact(bytes, borrowed);
        WideLoadAfter(bytes + borrowed, junk)
      else
        var k := SizeOf(lo);
        var loBytes, hiBytes := bytes[..k], bytes[k..];
        assert loBytes + hiBytes == bytes;
        var wordBytes := |bytes| + junk;
        PiecewiseReadExact(loBytes, hiBytes, wordBytes);
        var none := Neighbours([], []);
        PiecewiseRead(ReadRep(lo, loBytes, none), ReadRep(hi, hiBytes, none), k, wordBytes)
  }

  // ---------------------------------------------------------------------------
  // The two wrappers

  /** Two numbers written with `lo` below `2^k` and `hi` above it compare as
      the pairs `(hi, lo)` compare lexicographically. */
  lemma {:induction false} SplitOrder(lo: nat, hi: nat, lo': nat, hi': nat, k: nat)
    requires lo < Pow2(k) && lo' < Pow2(k)
    ensures lo + Pow2(k) * hi < lo' + Pow2(k) * hi' <==> hi < hi' || (hi == hi' && lo < lo')
    ensures lo + Pow2(k) * hi == lo' + Pow2(k) * hi' <==> hi == hi' && lo == lo'
  {
    var p := Pow2(k);
    if hi < hi' {
      MulMonoRight(p, hi + 1, hi');
      assert p * (hi + 1) == p * hi + p;
    } else if hi' < hi {
      MulMonoRight(p, hi' + 1, hi);
      assert p * (hi' + 1) == p * hi' + p;
    }
  }

  /** `PackedUInt<Lo, Hi, safeToLoadBefore, safeToLoadAfter>`: an unsigned
      integer of `sizeof(Lo) + sizeof(Hi)` bytes kept as a low part `mLo` of
      representation `lo` followed by a high part `mHi` of representation `hi`. */
  class PackedUInt {
    const lo: UIntRep
    const hi: UIntRep
    const safeToLoadBefore: bool
    const safeToLoadAfter: bool
    var mLo: nat
    var mHi: nat

    function Rep(): UIntRep
    {
      Packed(lo, hi, safeToLoadBefore, safeToLoadAfter)
    }

    /** `sizeof(*this)`. */
    function Size(): nat
    {
      SizeOf(lo) + SizeOf(hi)
    }

    ghost predicate Valid()
      reads this
    {
      && WellFormedRep(Rep())
      && 1 <= SizeOf(lo) && 1 <= SizeOf(hi) && Size() <= WordBytes
      && mLo < Pow2(8 * SizeOf(lo)) && mHi < Pow2(8 * SizeOf(hi))
    }

    /** `sizeof(UIntType)`: the smallest native unsigned type holding `Size()` bytes. */
    function WordSize(): (r: nat)
      requires Size() <= WordBytes
      ensures Size() <= r
      ensures r == LeastUIntBytes(8 * Size())
    {
      Size() + JunkBytes(Size())
    }

    /** The value's bytes in memory: the low part, then the high part. */
    function Storage(): (bytes: seq<Byte>)
      reads this
      ensures |bytes| == Size()
    {
      StoreBytes(lo, mLo) + StoreBytes(hi, mHi)
    }

    /** The number the stored bytes hold: the low part plus the high part
        scaled past the low part's bytes. */
    function Value(): (v: nat)
      reads this
      requires Valid()
      ensures v == mLo + Pow2(8 * SizeOf(lo)) * mHi
      ensures v < Pow2(8 * Size())
    {
      var l, h := StoreBytes(lo, mLo), StoreBytes(hi, mHi);
      FromLEAppend(l, h);
      ModBelow(mLo, Pow2(8 * SizeOf(lo)));
      ModBelow(mHi, Pow2(8 * SizeOf(hi)));
      FromLE(l + h)
    }

    /** `operator UIntType()`, with `mem` standing for the memory around the
        object: whichever of the three read paths the hints pick, and whatever
        the neighbouring bytes hold, the result is the stored number. */
    function Read(mem: Neighbours): (r: nat)
      reads this
      requires Valid() && Loadable(Rep(), mem)
      ensures r == Value()
    {
      ReadRep(Rep(), Storage(), mem)
    }

    /** `PackedUInt<Lo, Hi, ...>` as `UIntTypeSelector<size, ...>::type` declares it. */
    constructor (size: nat, safeToLoadBefore: bool, safeToLoadAfter: bool)
      requires 1 <= size <= WordBytes && !IsNativeBytes(size)
      ensures Valid() && Size() == size
      ensures Rep() == Select(size, safeToLoadBefore, safeToLoadAfter, true)
    {
      var rep := Select(size, safeToLoadBefore, safeToLoadAfter, true);
      SplitSizes(size);
      lo, hi := rep.lo, rep.hi;
      this.safeToLoadBefore, this.safeToLoadAfter := safeToLoadBefore, safeToLoadAfter;
      mLo, mHi := 0, 0;
    }

    /** `operator=(UIntType n)`: `m_lo = n` keeps the low bytes of `n`,
        `m_hi = n >> (8 * sizeof(m_lo))` the next ones. */
    method Assign(n: nat)
      requires Valid() && n < Pow2(8 * WordSize())
      modifies this
      ensures Valid()
      ensures mLo == n % Pow2(8 * SizeOf(lo))
      ensures mHi == Shr(n, 8 * SizeOf(lo)) % Pow2(8 * SizeOf(hi))
      ensures Storage() == StoreBytes(Rep(), n)
      ensures Value() == n % Pow2(8 * Size())
    {
      var loBits := 8 * SizeOf(lo);
      mLo := n % Pow2(loBits);
      mHi := Shr(n, loBits) % Pow2(8 * SizeOf(hi));
      StoreBytesTruncated(lo, n);
      StoreBytesTruncated(hi, Shr(n, loBits));
    }

    /** `operator==`: part by part, which is equality of the stored numbers. */
    function Equals(other: PackedUInt): (r: bool)
      reads this, other
      requires Valid() && other.Valid() && other.Rep() == Rep()
      ensures r <==> Value() == other.Value()
    {
      SplitOrder(mLo, mHi, other.mLo, other.mHi, 8 * SizeOf(lo));
      mLo == other.mLo && mHi == other.mHi
    }

    /** `operator<`: both sides read as numbers, each through its own
        neighbouring memory; that is numeric order, and equally the
        lexicographic order of the (high, low) parts. */
    function Less(mem: Neighbours, other: PackedUInt, otherMem: Neighbours): (r: bool)
      reads this, other
      requires Valid() && other.Valid() && other.Rep() == Rep()
      requires Loadable(Rep(), mem) && Loadable(other.Rep(), otherMem)
      ensures r <==> Value() < other.Value()
      ensures r <==> mHi < other.mHi || (mHi == other.mHi && mLo < other.mLo)
    {
      SplitOrder(mLo, mHi, other.mLo, other.mHi, 8 * SizeOf(lo));
      Read(mem) < other.Read(otherMem)
    }
  }

  /** `UnalignedValue<T>`: a `size`-byte unsigned integer (2, 4 or 8 bytes)
      stored without alignment. */
  class UnalignedValue {
    const size: nat
    var value: nat

    ghost predicate Valid()
      reads this
    {
      IsNativeBytes(size) && size != 1 && value < Pow2(8 * size)
    }

    /** The value's bytes in memory. */
    function Storage(): (bytes: seq<Byte>)
      reads this
      ensures |bytes| == size
    {
      ToLE(value, size)
    }

    /** The default constructor; the stored number is left unspecified. */
    constructor (size: nat)
      requires IsNativeBytes(size) && size != 1
      ensures Valid() && this.size == size
    {
      this.size, value := size, 0;
    }

    /** `operator T()`: the number the unaligned bytes hold. */
    function Get(): (r: nat)
      reads this
      requires Valid()
      ensures r == FromLE(Storage())
      ensures r < Pow2(8 * size)
    {
      FromLEToLE(value, size);
      ModBelow(value, Pow2(8 * size));
      value
    }

    /** `operator=(T n)`. */
    method Assign(n: nat)
      requires Valid() && n < Pow2(8 * size)
      modifies this
      ensures Valid() && value == n
      ensures FromLE(Storage()) == n
    {
      value := n;
      FromLEToLE(n, size);
      ModBelow(n, Pow2(8 * size));
    }

    /** `operator==`, comparing the stored numbers: equal exactly when the stored bytes are. */
    function Equals(other: UnalignedValue): (r: bool)
      reads this, other
      requires Valid() && other.Valid() && other.size == size
      ensures r <==> Storage() == other.Storage()
    {
      var _ := Get();
      var _ := other.Get();
      value == other.value
    }

    /** `operator<`, comparing the stored numbers. */
    function Less(other: UnalignedValue): (r: bool)
      reads this, other
      requires Valid() && other.Valid() && other.size == size
      ensures r <==> FromLE(Storage()) < FromLE(other.Storage())
    {
      Get() < other.Get()
    }
  }
}
