/** `SmallTaggedPtr`: a pointer and a few tag bits packed into the fewest
    bytes the template parameters allow. The compile-time constants are
    functions of a `Config`; the encoding is specified as "tag in the low
    `kNumTagBits` bits, pointer field above it", and `assign` and `unpack`,
    which get there with shifts and masks, are proved against it. */
module TaggedPtr {
  import opened Bits
  import opened LittleEndian
  import opened Width
  import opened UIntSelector

  /** The template parameters that shape the encoding (the pointee type only
      contributes `numAlignBits`, through its alignment). */
  datatype Config = Config(
    numTagBits: int,         // `numTagBits_`; a negative value asks for as many as fit in a word
    safeToLoadBefore: bool,
    safeToLoadAfter: bool,
    pack: bool,
    numAlignBits: int,
    numPtrBits: int)

  /** The three ways `Layout` packs pointer and tag bits. */
  datatype Layout = TagAppended | TagOverlapped | AlignmentRemoved

  /** `PointerTagPair`, with the pointer as the address it holds. */
  datatype PointerTagPair = PointerTagPair(ptr: nat, tag: nat)

  function Max(x: int, y: int): int
  {
    if x >= y then x else y
  }

  // ---------------------------------------------------------------------------
  // Compile-time constants

  /** `kNumTagBits`: the requested count, or for a negative request every bit
      of the word that the pointer's significant bits leave free. */
  function KNumTagBits(c: Config): (r: int)
    ensures c.numTagBits >= 0 ==> r == c.numTagBits
    ensures c.numTagBits < 0 ==> c.numPtrBits - c.numAlignBits + r == WordBits
  {
    if c.numTagBits >= 0 then c.numTagBits else WordBits - c.numPtrBits + c.numAlignBits
  }

  /** `numPtrBits - kNumAlignBits + kNumTagBits`: the bits an encoding has to hold. */
  function PayloadBits(c: Config): int
  {
    c.numPtrBits - c.numAlignBits + KNumTagBits(c)
  }

  /** `numBytes`: the fewest whole bytes holding the payload when packing,
      otherwise the smallest native unsigned type holding it. */
  function NumBytes(c: Config): (r: nat)
    requires 0 <= PayloadBits(c) <= WordBits
    ensures PayloadBits(c) <= 8 * r && r <= WordBytes
    ensures c.pack ==> r == 0 || 8 * (r - 1) < PayloadBits(c)
    ensures !c.pack ==> IsNativeBytes(r)
    ensures !c.pack ==> forall k: nat | IsNativeBytes(k) && PayloadBits(c) <= 8 * k :: r <= k
  {
    if c.pack then BitsToBytes(PayloadBits(c)) else LeastUIntBytes(PayloadBits(c))
  }

  /** The parameters the model covers:
      - `0 <= numAlignBits <= numPtrBits <= 64`: a domain restriction the
        header does not check (alignment bits are bits of the pointer);
      - a payload of 0 to 64 bits: `numBytes <= sizeof(void*)` for a packed
        payload, the existence of `boost::uint_t<payload>::least` otherwise;
      - `numBytes >= 1`: `UIntTypeSelector<0>` is defined in terms of
        itself and has no type, so no `Rep` exists for a zero payload;
      - `kNumTagBits < 64`: the shift in `kTagMask` is a constant expression,
        which an over-wide shift makes ill-formed. */
  predicate Supported(c: Config)
  {
    && 0 <= c.numAlignBits <= c.numPtrBits <= WordBits
    && 0 <= PayloadBits(c) <= WordBits
    && 1 <= NumBytes(c)
    && KNumTagBits(c) < WordBits
  }

  /** What a supported configuration guarantees: a tag count the `kTagMask`
      shift is defined for, and a payload of 1 to 8 whole bytes. */
  lemma {:induction false} SupportedBounds(c: Config)
    requires Supported(c)
    ensures 0 <= KNumTagBits(c) < WordBits
    ensures 0 <= PayloadBits(c) <= WordBits && 1 <= NumBytes(c) <= WordBytes
  {
  }

  /** A configuration the header accepts on a target: `Supported`, and the
      `static_assert` pinning the pointer width between `kMinPtrBits` and
      `kMaxPtrBits`, which admits exactly one width. */
  predicate WellFormed(arch: Arch, c: Config): (r: bool)
    ensures r ==> Supported(c) && c.numPtrBits == KMaxPtrBits(arch)
    ensures r && arch != OtherArch ==> c.numPtrBits == 47
  {
    Supported(c) && KMinPtrBits(arch) <= c.numPtrBits <= KMaxPtrBits(arch)
  }

  /** `kTagMask`: `((uintptr_t)1 << kNumTagBits) - 1`, the low `kNumTagBits` bits set. */
  function KTagMask(c: Config): (r: nat)
    requires Supported(c)
    ensures r == Pow2(KNumTagBits(c)) - 1
  {
    ShlOne(KNumTagBits(c), WordBits);
    Shl(1, KNumTagBits(c), WordBits) - 1
  }

  /** `kLayout`: append the tag below the whole pointer when that fits in
      `numBytes` (unless only `safeToLoadAfter` is set and the tag fits in the
      alignment bits); otherwise overlap the tag with the alignment bits when
      it fits there and the pointer alone fills `numBytes`; otherwise drop the
      alignment bits. Each choice leaves room for the whole encoding. */
  function KLayout(c: Config): (r: Layout)
    requires Supported(c)
    ensures r == TagAppended ==> c.numPtrBits + KNumTagBits(c) <= 8 * NumBytes(c)
    ensures r == TagOverlapped ==> KNumTagBits(c) <= c.numAlignBits && c.numPtrBits <= 8 * NumBytes(c)
  {
    var t, a := KNumTagBits(c), c.numAlignBits;
    if NumBytes(c) >= BitsToBytes(c.numPtrBits + t) then
      if t > a || c.safeToLoadBefore || !c.safeToLoadAfter then TagAppended else TagOverlapped
    else if t <= a && NumBytes(c) == BitsToBytes(c.numPtrBits) then TagOverlapped
    else AlignmentRemoved
  }

  /** When packing, `ALIGNMENT_REMOVED` is chosen only when necessary:
      neither appending the tag nor overlapping it with the alignment bits
      fits in `numBytes` bytes. */
  lemma {:induction false} RemovedOnlyWhenNeeded(c: Config)
    requires Supported(c) && c.pack && KLayout(c) == AlignmentRemoved
    ensures c.numPtrBits + KNumTagBits(c) > 8 * NumBytes(c)
    ensures !(KNumTagBits(c) <= c.numAlignBits && c.numPtrBits <= 8 * NumBytes(c))
  {
    var p, t, a, n := c.numPtrBits, KNumTagBits(c), c.numAlignBits, NumBytes(c);
    assert n < BitsToBytes(p + t);
    if t <= a {
      assert n != BitsToBytes(p);
      assert PayloadBits(c) <= p;
      assert n < BitsToBytes(p);
    }
  }

  /** Without packing the promise above fails: `numBytes` is rounded up to a
      native width, so it can exceed `bitsToBytes(numPtrBits)` while the tag
      fits in the alignment bits and the pointer in `numBytes`, and the
      equality test still picks `ALIGNMENT_REMOVED`. */
  lemma {:induction false} UnpackedRemovedThoughOverlapFits()
    ensures var c := Config(18, false, false, false, 20, 47);
      && Supported(c) && NumBytes(c) == 8
      && KLayout(c) == AlignmentRemoved
      && KNumTagBits(c) <= c.numAlignBits && c.numPtrBits <= 8 * NumBytes(c)
  {
    assert Pow2(3) == 8;
  }

  /** The two load hints as `Rep` receives them: at most one gets through,
      only one that was set, and never neither when one was set; when both
      were set the layout decides, `safeToLoadAfter` going to the layout that
      masks anyway. */
  function RepHints(c: Config): (h: (bool, bool))
    requires Supported(c)
    ensures !(h.0 && h.1)
    ensures h.0 ==> c.safeToLoadBefore
    ensures h.1 ==> c.safeToLoadAfter
    ensures c.safeToLoadBefore || c.safeToLoadAfter ==> h.0 || h.1
    ensures c.safeToLoadBefore && c.safeToLoadAfter ==> (h.1 <==> KLayout(c) == TagOverlapped)
  {
    var overlapped := KLayout(c) == TagOverlapped;
    (c.safeToLoadBefore && (!c.safeToLoadAfter || !overlapped),
     c.safeToLoadAfter && (!c.safeToLoadBefore || overlapped))
  }

  /** `Rep`: the representation `UIntTypeSelector` picks for `numBytes` bytes
      with the routed hints; it is a whole representation of exactly
      `numBytes` bytes, and split into parts exactly when `numBytes` is not a
      native width. */
  function RepType(c: Config): (rep: UIntRep)
    requires Supported(c)
    ensures SizeOf(rep) == NumBytes(c) && WellFormedRep(rep)
    ensures rep.Packed? <==> !IsNativeBytes(NumBytes(c))
  {
    Select(NumBytes(c), RepHints(c).0, RepHints(c).1, c.pack)
  }

  /** `m_bits = v`: the number the representation holds afterwards. */
  function Stored(c: Config, v: nat): (r: nat)
    requires Supported(c)
    ensures r == v % Pow2(8 * NumBytes(c))
  {
    FromLE(StoreBytes(RepType(c), v))
  }

  // ---------------------------------------------------------------------------
  // The encoding: tag in the low `kNumTagBits` bits, a pointer field above it

  /** The part of the pointer kept above the tag: all of it, the bits above
      the tag (which the tag overlaps), or the bits above the alignment. */
  function PtrField(c: Config, ptr: nat): nat
    requires Supported(c)
  {
    match KLayout(c)
    case TagAppended => ptr
    case TagOverlapped => Shr(ptr, KNumTagBits(c))
    case AlignmentRemoved => Shr(ptr, c.numAlignBits)
  }

  /** The pointer field moved above the tag in a `uintptr_t`. */
  function ShiftedPtr(c: Config, ptr: nat): nat
    requires Supported(c)
  {
    Shl(PtrField(c, ptr), KNumTagBits(c), WordBits)
  }

  /** The word that encodes `ptr` with `tag`. */
  function Encode(c: Config, ptr: nat, tag: nat): nat
    requires Supported(c)
  {
    (Shl(PtrField(c, ptr), KNumTagBits(c), WordBits) + tag) % Pow2(WordBits)
  }

  /** The pointer a pointer field stands for. */
  function PtrFromField(c: Config, field: nat): nat
    requires Supported(c)
  {
    match KLayout(c)
    case TagAppended => field
    case TagOverlapped => field * Pow2(KNumTagBits(c))
    case AlignmentRemoved => (field * Pow2(c.numAlignBits)) % Pow2(WordBits)
  }

  /** The pointer and tag any raw word stands for. */
  function Decode(c: Config, x: nat): PointerTagPair
    requires Supported(c)
  {
    var t := KNumTagBits(c);
    PointerTagPair(PtrFromField(c, Shr(x, t)), x % Pow2(t))
  }

  /** What `assign` demands of its arguments (its two debug `assert`s), and
      that the pointer has no more than `numPtrBits` significant bits. */
  predicate ValidPair(c: Config, ptr: nat, tag: nat)
    requires Supported(c)
  {
    ptr < Pow2(c.numPtrBits) && ptr % Pow2(c.numAlignBits) == 0 && tag <= KTagMask(c)
  }

  /** `b + tag` equals `b | tag` in `assign`: the pointer word has its low
      `kNumTagBits` bits clear, and the sum never carries out of the word. */
  lemma {:induction false} AddIsOr(c: Config, ptr: nat, tag: nat)
    requires Supported(c) && tag <= KTagMask(c)
    ensures ShiftedPtr(c, ptr) % Pow2(KNumTagBits(c)) == 0
    ensures Or(ShiftedPtr(c, ptr), tag) == ShiftedPtr(c, ptr) + tag
    ensures Encode(c, ptr, tag) == ShiftedPtr(c, ptr) + tag
  {
    var s := ShiftedPtr(c, ptr);
    assert s % Pow2(KNumTagBits(c)) == 0 && Or(s, tag) == s + tag && s + tag < Pow2(WordBits) by {
      ShlLowZero(PtrField(c, ptr), KNumTagBits(c), WordBits, tag);
    }
    assert Encode(c, ptr, tag) == s + tag by {
      ModBelow(Shl(PtrField(c, ptr), KNumTagBits(c), WordBits) + tag, Pow2(WordBits));
    }
  }

  /** `Encode` is the sum, in a `uintptr_t`, of the shifted pointer and the tag. */
  lemma {:induction false} EncodeFromShifted(c: Config, ptr: nat, tag: nat, s: nat)
    requires Supported(c) && s == ShiftedPtr(c, ptr)
    ensures Encode(c, ptr, tag) == (s + tag) % Pow2(WordBits)
  {
  }

  /** The bits the pointer field of a pointer of `numPtrBits` bits needs. */
  function FieldBits(c: Config): nat
    requires Supported(c)
  {
    match KLayout(c)
    case TagAppended => c.numPtrBits
    case TagOverlapped => c.numPtrBits - KNumTagBits(c)
    case AlignmentRemoved => c.numPtrBits - c.numAlignBits
  }

  /** The pointer field of a pointer of `numPtrBits` bits, with the tag
      below it, fits in `numBytes` bytes in every layout. */
  lemma {:induction false} FieldFits(c: Config, ptr: nat)
    requires Supported(c) && ptr < Pow2(c.numPtrBits)
    ensures PtrField(c, ptr) < Pow2(FieldBits(c))
    ensures FieldBits(c) + KNumTagBits(c) <= 8 * NumBytes(c)
  {
    match KLayout(c)
    case TagAppended =>
    case TagOverlapped =>
      DivBound(ptr, c.numPtrBits, KNumTagBits(c));
    case AlignmentRemoved =>
      DivBound(ptr, c.numPtrBits, c.numAlignBits);
  }

  /** The layout leaves room for a valid pair: its encoding fits in `numBytes`
      bytes, so storing it in `Rep` loses nothing. */
  lemma {:induction false} EncodeFits(c: Config, ptr: nat, tag: nat)
    requires Supported(c) && ValidPair(c, ptr, tag)
    ensures PtrField(c, ptr) * Pow2(KNumTagBits(c)) + tag < Pow2(8 * NumBytes(c))
    ensures Encode(c, ptr, tag) == PtrField(c, ptr) * Pow2(KNumTagBits(c)) + tag
    ensures Stored(c, Encode(c, ptr, tag)) == Encode(c, ptr, tag)
  {
    EncodeBound(c, ptr, tag);
    Pow2Mono(8 * NumBytes(c), WordBits);
    EncodeNoWrap(c, ptr, tag);
    StoredFits(c, Encode(c, ptr, tag));
  }

  /** The pointer field of a valid pair with the tag below it lies below
      `2^(8 * numBytes)`. */
  lemma {:induction false} EncodeBound(c: Config, ptr: nat, tag: nat)
    requires Supported(c) && ValidPair(c, ptr, tag)
    ensures PtrField(c, ptr) * Pow2(KNumTagBits(c)) + tag < Pow2(8 * NumBytes(c))
  {
    FieldFits(c, ptr);
    PackFits(PtrField(c, ptr), FieldBits(c), KNumTagBits(c), tag, 8 * NumBytes(c));
  }

  /** When the pointer field with the tag below it fits in a word, `Encode`
      does not wrap. */
  lemma {:induction false} EncodeNoWrap(c: Config, ptr: nat, tag: nat)
    requires Supported(c) && PtrField(c, ptr) * Pow2(KNumTagBits(c)) + tag < Pow2(WordBits)
    ensures Encode(c, ptr, tag) == PtrField(c, ptr) * Pow2(KNumTagBits(c)) + tag
  {
    ShlAddNoWrap(PtrField(c, ptr), KNumTagBits(c), tag, WordBits);
  }

  /** A number that fits in `numBytes` bytes is stored without loss. */
  lemma {:induction false} StoredFits(c: Config, v: nat)
    requires Supported(c) && v < Pow2(8 * NumBytes(c))
    ensures Stored(c, v) == v
  {
    ModBelow(v, Pow2(8 * NumBytes(c)));
  }

  /** Round trip: a valid pair, encoded and stored, decodes to itself in every layout. */
  lemma {:induction false} RoundTrip(c: Config, ptr: nat, tag: nat)
    requires Supported(c) && ValidPair(c, ptr, tag)
    ensures Decode(c, Stored(c, Encode(c, ptr, tag))) == PointerTagPair(ptr, tag)
  {
    var t, a := KNumTagBits(c), c.numAlignBits;
    var f := PtrField(c, ptr);
    EncodeFits(c, ptr, tag);
    PackUnpack(f, t, tag);
    match KLayout(c)
    case TagAppended =>
    case TagOverlapped =>
      AlignedCoarser(ptr, a, t);
      AlignedSplit(ptr, t);
    case AlignmentRemoved =>
      AlignedSplit(ptr, a);
      Pow2Mono(c.numPtrBits, WordBits);
      ModBelow(ptr, Pow2(WordBits));
  }

  /** Decoding is total and the tag it yields is the low `kNumTagBits` bits. */
  lemma {:induction false} DecodeTag(c: Config, x: nat)
    requires Supported(c)
    ensures Decode(c, x).tag <= KTagMask(c)
  {
  }

  /** Rewriting only the tag bits of a word leaves its pointer as it was:
      whether a value is null does not depend on its tag. */
  lemma {:induction false} RetagKeepsPtr(c: Config, x: nat, tag: nat)
    requires Supported(c) && tag <= KTagMask(c)
    ensures Decode(c, Join(Shr(x, KNumTagBits(c)), KNumTagBits(c), tag)) == PointerTagPair(Decode(c, x).ptr, tag)
  {
    PackUnpack(Shr(x, KNumTagBits(c)), KNumTagBits(c), tag);
  }

  /** The all-zero word is the null pointer with tag 0 in every layout. */
  lemma {:induction false} NullDecodes(c: Config)
    requires Supported(c)
    ensures Decode(c, 0) == PointerTagPair(0, 0)
    ensures Encode(c, 0, 0) == 0
  {
    ModBelow(0, Pow2(KNumTagBits(c)));
    ModBelow(0, Pow2(c.numAlignBits));
    ModBelow(0, Pow2(WordBits));
  }

  /** A negative `numTagBits_` fills the word: `numBytes` is `sizeof(void*)`
      whether packing or not. */
  lemma {:induction false} AutoTagBitsFillWord(c: Config)
    requires Supported(c) && c.numTagBits < 0
    ensures KNumTagBits(c) == WordBits - c.numPtrBits + c.numAlignBits
    ensures PayloadBits(c) == WordBits
    ensures NumBytes(c) == WordBytes
  {
    assert Pow2(3) == 8;
  }

  // ---------------------------------------------------------------------------
  // The aliases and a few concrete configurations

  /** `TaggedUnion<T, numTagBits>` with `numAlignBits = a` on a target whose pointers have `numPtrBits = p` bits. */
  function TaggedUnionConfig(numTagBits: int, a: int, p: int): (c: Config)
    ensures !c.pack && !c.safeToLoadBefore && !c.safeToLoadAfter
  {
    Config(numTagBits, false, false, false, a, p)
  }

  /** A `TaggedUnion` keeps its bits in one aligned native integer; on
      x86_64 and aarch64, with an alignment of at most 2^14 bytes, that is a
      whole `uintptr_t`. */
  lemma {:induction false} TaggedUnionRep(arch: Arch, numTagBits: int, a: int)
    requires arch != OtherArch
    requires Supported(TaggedUnionConfig(numTagBits, a, KMaxPtrBits(arch)))
    requires a < 15
    ensures var c := TaggedUnionConfig(numTagBits, a, KMaxPtrBits(arch));
      RepType(c) == Scalar(WordBytes) && NumBytes(c) == WordBytes
  {
    var c := TaggedUnionConfig(numTagBits, a, KMaxPtrBits(arch));
    assert PayloadBits(c) > 32;
    SplitSizes(WordBytes);
  }

  /** 47 pointer bits, 3 alignment bits, 2 tag bits, packed: 6 bytes, and
      since appending the tag would need 7 the tag overlaps the alignment
      bits; `Rep` is a 4-byte and a 2-byte unaligned part. */
  lemma {:induction false} ScenarioOverlapped()
    ensures var c := Config(2, false, false, true, 3, 47);
      && WellFormed(X86_64, c) && NumBytes(c) == 6 && BitsToBytes(47 + 2) == 7
      && KLayout(c) == TagOverlapped
      && RepType(c) == Packed(Unaligned(4), Unaligned(2), false, false)
  {
    var c := Config(2, false, false, true, 3, 47);
    assert Pow2(3) == 8;
    PowTwoSizes();
    HiPartSizes();
    SplitSizes(6);
  }

  /** 47 pointer bits, 4 alignment bits, 5 tag bits, packed: 6 bytes, too
      few to append the tag and too many tag bits to overlap, so the
      alignment bits are dropped. */
  lemma {:induction false} ScenarioAlignmentRemoved()
    ensures var c := Config(5, false, false, true, 4, 47);
      WellFormed(AArch64, c) && NumBytes(c) == 6 && KLayout(c) == AlignmentRemoved
  {
    assert Pow2(3) == 8;
  }

  /** With both hints set and the tag appended, the wide load before the
      value is the one `Rep` receives. */
  lemma {:induction false} ScenarioBothHints()
    ensures var c := Config(1, true, true, true, 3, 47);
      && NumBytes(c) == 6 && KLayout(c) == TagAppended
      && RepHints(c) == (true, false)
      && RepType(c) == Packed(Unaligned(4), Unaligned(2), true, false)
  {
    assert Pow2(3) == 8;
    PowTwoSizes();
    HiPartSizes();
    SplitSizes(6);
  }

  // ---------------------------------------------------------------------------
  // The pointer object

  /** `SmallTaggedPtr<T, ...>` for the parameters `cfg`; `bits` is the number
      its `Rep m_bits` holds. */
  class SmallTaggedPtr {
    const cfg: Config
    var bits: nat

    ghost predicate Valid()
      reads this
    {
      Supported(cfg) && bits < Pow2(8 * NumBytes(cfg))
    }

    /** The bytes `m_bits` occupies. */
    function Storage(): (bytes: seq<Byte>)
      reads this
      requires Supported(cfg)
      ensures |bytes| == NumBytes(cfg)
    {
      StoreBytes(RepType(cfg), bits)
    }

    /** `bits()`: `m_bits` read through its representation, whose load hints
        may reach into `mem`; it is the stored number whatever `mem` holds. */
    function Bits(mem: Neighbours): (r: nat)
      reads this
      requires Valid() && Loadable(RepType(cfg), mem)
      ensures r == bits
    {
      ModBelow(bits, Pow2(8 * NumBytes(cfg)));
      ReadRep(RepType(cfg), Storage(), mem)
    }

    /** `unpack()`: the tag is the low bits, and the pointer comes out of
        the rest by the layout's shifts or mask. */
    method Unpack(mem: Neighbours) returns (p: PointerTagPair)
      requires Valid() && Loadable(RepType(cfg), mem)
      ensures p == Decode(cfg, bits)
    {
      var t, a := KNumTagBits(cfg), cfg.numAlignBits;
      var b := Bits(mem);
      assert b < Pow2(WordBits) by {
        Pow2Mono(8 * NumBytes(cfg), WordBits);
      }
      var tag := And(b, KTagMask(cfg));
      assert tag == Decode(cfg, bits).tag by {
        AndLowMask(b, t);
      }
      match KLayout(cfg) {
        case TagAppended =>
          b := Shr(b, t);
        case TagOverlapped =>
          assert And(b, Not(KTagMask(cfg), WordBits)) == Decode(cfg, bits).ptr by {
            AndHighMaskShr(b, t, WordBits);
          }
          b := And(b, Not(KTagMask(cfg), WordBits));
        case AlignmentRemoved =>
          b := Shr(b, t);
          b := Shl(b, a, WordBits);
      }
      assert b == Decode(cfg, bits).ptr;
      p := PointerTagPair(b, tag);
    }

    /** `ptr()`. */
    method Ptr(mem: Neighbours) returns (ptr: nat)
      requires Valid() && Loadable(RepType(cfg), mem)
      ensures ptr == Decode(cfg, bits).ptr
    {
      var p := Unpack(mem);
      ptr := p.ptr;
    }

    /** `tag()`: the low `kNumTagBits` bits of any stored word. */
    method Tag(mem: Neighbours) returns (tag: nat)
      requires Valid() && Loadable(RepType(cfg), mem)
      ensures tag == bits % Pow2(KNumTagBits(cfg)) && tag <= KTagMask(cfg)
    {
      var p := Unpack(mem);
      tag := p.tag;
    }

    /** `explicit operator bool` (and `operator!=(nullptr_t)`): the pointer is not null. */
    method IsNonNull(mem: Neighbours) returns (r: bool)
      requires Valid() && Loadable(RepType(cfg), mem)
      ensures r <==> Decode(cfg, bits).ptr != 0
    {
      var ptr := Ptr(mem);
      r := ptr != 0;
    }

    /** `operator==(nullptr_t)`. */
    method EqualsNull(mem: Neighbours) returns (r: bool)
      requires Valid() && Loadable(RepType(cfg), mem)
      ensures r <==> Decode(cfg, bits).ptr == 0
    {
      var ptr := Ptr(mem);
      r := ptr == 0;
    }

    /** `assign(TPtr, TagBits)`: shift the pointer as the layout says, then
        add the tag; the stored number is the encoding of the pair. */
    method Assign(ptr: nat, tag: nat)
      requires Valid() && ptr < Pow2(WordBits) && ptr % Pow2(cfg.numAlignBits) == 0 && tag <= KTagMask(cfg)
      modifies this
      ensures Valid() && bits == Stored(cfg, Encode(cfg, ptr, tag))
    {
      var t, a := KNumTagBits(cfg), cfg.numAlignBits;
      var b := ptr;
      match KLayout(cfg) {
        case TagAppended =>
          b := Shl(b, t, WordBits);
          assert b == ShiftedPtr(cfg, ptr);
        case TagOverlapped =>
          assert b == ShiftedPtr(cfg, ptr) by {
            AlignedCoarser(ptr, a, t);
            ShrShlAligned(ptr, t, WordBits);
          }
        case AlignmentRemoved =>
          b := Shr(b, Max(a - t, 0));
          b := Shl(b, Max(t - a, 0), WordBits);
          assert b == ShiftedPtr(cfg, ptr) by {
            if a >= t {
              AlignedShr(ptr, a, t);
              ShiftByZero(Shr(ptr, a - t), WordBits);
            } else {
              AlignedShl(ptr, a, t);
              ShiftByZero(ptr, WordBits);
            }
          }
      }
      EncodeFromShifted(cfg, ptr, tag, b);
      bits := Stored(cfg, (b + tag) % Pow2(WordBits));
    }

    /** `operator=(TPtr)`: assign with tag 0. */
    method AssignPtr(ptr: nat)
      requires Valid() && ptr < Pow2(WordBits) && ptr % Pow2(cfg.numAlignBits) == 0
      modifies this
      ensures Valid() && bits == Stored(cfg, Encode(cfg, ptr, 0))
    {
      Assign(ptr, 0);
    }

    /** `assign(PointerTagPair)`, reading the pair's `m_ptr` and `m_tag`. */
    method AssignPair(p: PointerTagPair)
      requires Valid() && p.ptr < Pow2(WordBits) && p.ptr % Pow2(cfg.numAlignBits) == 0 && p.tag <= KTagMask(cfg)
      modifies this
      ensures Valid() && bits == Stored(cfg, Encode(cfg, p.ptr, p.tag))
    {
      Assign(p.ptr, p.tag);
    }

    /** `assign(nullptr_t)` (and `operator=(nullptr_t)`): the all-zero word, null with tag 0. */
    method AssignNull()
      requires Valid()
      modifies this
      ensures Valid() && bits == 0
      ensures Decode(cfg, bits) == PointerTagPair(0, 0)
    {
      bits := 0;
      NullDecodes(cfg);
    }

    /** `assign(uintptr_t)`: the raw word, truncated to `numBytes` bytes. */
    method AssignBits(raw: nat)
      requires Valid() && raw < Pow2(WordBits)
      modifies this
      ensures Valid() && bits == raw % Pow2(8 * NumBytes(cfg))
    {
      bits := Stored(cfg, raw);
    }

    /** `reset()`: `assign(0)`, null with tag 0. */
    method Reset()
      requires Valid()
      modifies this
      ensures Valid() && bits == 0
      ensures Decode(cfg, bits) == PointerTagPair(0, 0)
    {
      AssignBits(0);
      NullDecodes(cfg);
    }

    /** `SmallTaggedPtr(TPtr, TagBits)`. */
    constructor FromPair(cfg: Config, ptr: nat, tag: nat)
      requires Supported(cfg) && ptr < Pow2(WordBits) && ptr % Pow2(cfg.numAlignBits) == 0 && tag <= KTagMask(cfg)
      ensures this.cfg == cfg && Valid() && bits == Stored(cfg, Encode(cfg, ptr, tag))
    {
      this.cfg, bits := cfg, 0;
      new;
      Assign(ptr, tag);
    }

    /** `SmallTaggedPtr(nullptr_t)`. */
    constructor Null(cfg: Config)
      requires Supported(cfg)
      ensures this.cfg == cfg && Valid() && bits == 0
    {
      this.cfg, bits := cfg, 0;
      new;
      AssignNull();
    }

    /** `SmallTaggedPtr(uintptr_t)`. */
    constructor FromBits(cfg: Config, raw: nat)
      requires Supported(cfg) && raw < Pow2(WordBits)
      ensures this.cfg == cfg && Valid() && bits == raw % Pow2(8 * NumBytes(cfg))
    {
      this.cfg, bits := cfg, 0;
      new;
      AssignBits(raw);
    }

    /** `SmallTaggedPtr(PointerTagPair)`. */
    constructor FromTagPair(cfg: Config, p: PointerTagPair)
      requires Supported(cfg) && p.ptr < Pow2(WordBits) && p.ptr % Pow2(cfg.numAlignBits) == 0 && p.tag <= KTagMask(cfg)
      ensures this.cfg == cfg && Valid() && bits == Stored(cfg, Encode(cfg, p.ptr, p.tag))
    {
      this.cfg, bits := cfg, 0;
      new;
      AssignPair(p);
    }
  }
}
