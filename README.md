# SmallTaggedPtr in Dafny

A model of `skip/SmallTaggedPtr.h`, the header that packs a pointer and a few
tag bits into the fewest bytes its template parameters allow.

The header has three parts, and the model keeps them as separate modules:

- **`Width`**: the width arithmetic.
  - `bitsToBytes` rounds a bit count up to whole bytes.
  - `kMaxPtrBits` / `kMinPtrBits` give the usable pointer width. The target is a parameter of type `Arch`.
  - `LeastUIntBytes` is the byte size of `boost::uint_t<bits>::least`.
- **`UIntSelector`**: `UIntTypeSelector` and the two storage wrappers it picks from.
  - A byte count of 1 to 8 becomes a native scalar, an `UnalignedValue`, or a `PackedUInt`.
  - A `PackedUInt` has a low part of `size & (size - 1)` bytes and a high part of `size & -size` bytes.
  - `PackedUInt` and `UnalignedValue` are classes whose fields hold the stored numbers.
  - Memory is a little-endian byte sequence (module `LittleEndian`).
  - The two "wide load" reads of `PackedUInt` are functions over the value's own bytes plus the neighbouring bytes they are allowed to touch (`Neighbours`). They are proved to return the stored number whatever those neighbouring bytes hold.
- **`TaggedPtr`**: the `SmallTaggedPtr` template itself.
  - A `Config` datatype holds the template parameters.
  - The compile-time constants are functions of a `Config`: `kNumTagBits`, `numBytes`, `kTagMask`, `kLayout`, and the routing of the load hints into `Rep`.
  - The encoding is stated as a specification: the tag in the low `kNumTagBits` bits, the pointer field above it (`Encode` / `Decode`).
  - The class `SmallTaggedPtr` holds the number `m_bits` stores. Its `assign`, `unpack`, null, reset and raw-bits operations are written the way the header computes them, with shifts, masks and a `+`, and are proved against `Encode` / `Decode`.

Machine words are natural numbers, with explicit `% 2^64` wherever the C++ arithmetic on `uintptr_t` wraps. `&` and `|` are defined on naturals in module `Bits`, together with the lemmas that turn masks into `%` and disjoint `|` into `+`.

## Model

| member | source | states |
|---|---|---|
| Width.BitsToBytes | src/runtime/native/include/skip/SmallTaggedPtr.h:143-145 | the result is the fewest whole bytes holding `bits` bits: `8r >= bits` and `8(r-1) < bits` |
| Width.KMaxPtrBits | src/runtime/native/include/skip/SmallTaggedPtr.h:147-160 | the usable pointer width is 47 on x86_64 and aarch64 and never more than the 64-bit word |
| Width.KMinPtrBits | src/runtime/native/include/skip/SmallTaggedPtr.h:163 | `kMinPtrBits` equals `kMaxPtrBits` (47 on x86_64 and aarch64), so exactly one pointer width is accepted |
| Width.LeastUIntBytes | src/runtime/native/include/skip/SmallTaggedPtr.h:322-325 | the smallest native width (1, 2, 4 or 8 bytes) holding `bits` bits: it holds them, and no smaller native width does |
| UIntSelector.SplitSizes | src/runtime/native/include/skip/SmallTaggedPtr.h:177-191 | for 1..8 bytes, `isPowTwo` holds exactly on native widths; a size that is not a power of two splits into two non-empty, strictly smaller parts, `size & (size-1)` and `size & -size`, that add up to it, the high part a power of two (so the selector's recursion ends) |
| UIntSelector.Select | src/runtime/native/include/skip/SmallTaggedPtr.h:177-216 | the chosen representation has exactly `size` bytes; it is split into parts exactly when `size` is not a native width; it is a plain scalar exactly for a native width when unpacked or one byte wide; the load hints reach only the outer `PackedUInt` |
| UIntSelector.StoreBytes | src/runtime/native/include/skip/SmallTaggedPtr.h:119-123 | storing `v` writes `sizeof` bytes whose little-endian value is `v` truncated to that width, for a `PackedUInt` too, through its truncating low and high stores |
| UIntSelector.StoreBytesTruncated | src/runtime/native/include/skip/SmallTaggedPtr.h:119-123 | storing a value already truncated to the representation's width writes the same bytes as storing the value |
| UIntSelector.WideLoadBeforeExact | src/runtime/native/include/skip/SmallTaggedPtr.h:91-103 | loading the word that ends where the value ends and shifting out the `junkBytes` borrowed low bytes gives exactly the value's own little-endian number |
| UIntSelector.WideLoadAfterExact | src/runtime/native/include/skip/SmallTaggedPtr.h:104-110 | loading the word that starts at the value and masking with `~0 >> (junkBytes * 8)` gives exactly the value's own little-endian number |
| UIntSelector.PiecewiseReadExact | src/runtime/native/include/skip/SmallTaggedPtr.h:113-116 | the bitwise or of `loBits` and `hiBits << (8 * sizeof(m_lo))` of two adjacent parts, in a word that holds both, is the little-endian number of the two parts together |
| UIntSelector.JunkBytes | src/runtime/native/include/skip/SmallTaggedPtr.h:91 | the value's size plus the junk bytes is `sizeof(UIntType)`, the smallest native width holding the value |
| UIntSelector.ReadRep | src/runtime/native/include/skip/SmallTaggedPtr.h:82-117 | whichever read path the hints select, and whatever the neighbouring bytes hold, the conversion of a representation to a number is the little-endian number of its own bytes |
| UIntSelector.PackedUInt.Value | src/runtime/native/include/skip/SmallTaggedPtr.h:136-137 | the number the two parts hold is the low part plus the high part scaled past the low part's bytes, and it fits in `sizeof(*this)` bytes |
| UIntSelector.PackedUInt.WordSize | src/runtime/native/include/skip/SmallTaggedPtr.h:79-80 | `sizeof(UIntType)` is the smallest native width holding `sizeof(*this)` bytes, so at least `sizeof(*this)` |
| UIntSelector.PackedUInt.Storage | src/runtime/native/include/skip/SmallTaggedPtr.h:135-137 | the object's bytes are `sizeof(*this)` long |
| UIntSelector.PackedUInt.Read | src/runtime/native/include/skip/SmallTaggedPtr.h:82-117 | `operator UIntType` returns the stored number on every read path, whatever the neighbouring bytes hold |
| UIntSelector.PackedUInt.constructor | src/runtime/native/include/skip/SmallTaggedPtr.h:184-189 | the `PackedUInt` for a non-native size has exactly that size and the selector's parts and hints |
| UIntSelector.PackedUInt.Assign | src/runtime/native/include/skip/SmallTaggedPtr.h:119-123 | the low part keeps the low bytes of `n` and the high part the next ones; the bytes are those of storing `n`; reading back gives `n mod 2^(8*size)` |
| UIntSelector.PackedUInt.Equals | src/runtime/native/include/skip/SmallTaggedPtr.h:127-129 | part-by-part equality holds exactly when the stored numbers are equal |
| UIntSelector.PackedUInt.Less | src/runtime/native/include/skip/SmallTaggedPtr.h:131-133 | `<` is numeric order of the stored numbers, whatever memory each side's read touches, and equally the lexicographic order of (high, low) |
| UIntSelector.UnalignedValue.constructor | src/runtime/native/include/skip/SmallTaggedPtr.h:34-59 | an `UnalignedValue` has a native width other than one byte |
| UIntSelector.UnalignedValue.Storage | src/runtime/native/include/skip/SmallTaggedPtr.h:58 | the value's bytes are `sizeof(T)` long |
| UIntSelector.UnalignedValue.Get | src/runtime/native/include/skip/SmallTaggedPtr.h:36-38 | `operator T` is the little-endian number of the stored bytes and fits in `T` |
| UIntSelector.UnalignedValue.Assign | src/runtime/native/include/skip/SmallTaggedPtr.h:40-43 | after `operator=(n)` the stored bytes load back as `n` |
| UIntSelector.UnalignedValue.Equals | src/runtime/native/include/skip/SmallTaggedPtr.h:47-49 | equality of stored numbers holds exactly when the stored bytes are equal |
| UIntSelector.UnalignedValue.Less | src/runtime/native/include/skip/SmallTaggedPtr.h:51-53 | `<` is numeric order of the numbers the stored bytes hold |
| TaggedPtr.KNumTagBits | src/runtime/native/include/skip/SmallTaggedPtr.h:309-311 | a non-negative `numTagBits_` is used as given; a negative one asks for every bit the pointer leaves free, so pointer bits minus alignment bits plus tag bits make exactly one 64-bit word |
| TaggedPtr.SupportedBounds | src/runtime/native/include/skip/SmallTaggedPtr.h:316-332 | the configurations modelled (`TaggedPtr.Supported`), each with the tag count `0 <= kNumTagBits < 64` the `kTagMask` shift needs, a payload of at most 64 bits and `1 <= numBytes <= 8`. Per conjunct: the payload bound is `static_assert(numBytes <= sizeof(void*))` (line 330) when packed and the existence of `boost::uint_t<…>::least` when unpacked; `kNumTagBits < 64` is the constant-expression shift at line 332; `numAlignBits <= numPtrBits` and `numBytes >= 1` are domain restrictions the header does not itself check |
| TaggedPtr.WellFormed | src/runtime/native/include/skip/SmallTaggedPtr.h:316-319 | the `static_assert` on the pointer width together with `Supported`: an accepted configuration has `numPtrBits == kMaxPtrBits`, 47 on x86_64 and aarch64 |
| TaggedPtr.NumBytes | src/runtime/native/include/skip/SmallTaggedPtr.h:322-330 | `numBytes` holds the payload and is at most a word; packed, it is minimal among byte counts; unpacked, it is the smallest native width that holds the payload |
| TaggedPtr.KTagMask | src/runtime/native/include/skip/SmallTaggedPtr.h:332 | `kTagMask` is `2^kNumTagBits - 1` |
| TaggedPtr.KLayout | src/runtime/native/include/skip/SmallTaggedPtr.h:367-384 | `TAG_APPENDED` is chosen only when pointer plus tag fit in `numBytes`; `TAG_OVERLAPPED` only when the tag fits in the alignment bits and the pointer fits in `numBytes` |
| TaggedPtr.RemovedOnlyWhenNeeded | src/runtime/native/include/skip/SmallTaggedPtr.h:353-384 | when packing, `ALIGNMENT_REMOVED` is chosen only when necessary: pointer plus tag do not fit in `numBytes` bytes, and the tag does not fit in the alignment bits or the pointer does not fit in `numBytes` bytes |
| TaggedPtr.UnpackedRemovedThoughOverlapFits | src/runtime/native/include/skip/SmallTaggedPtr.h:381-384 | without packing that promise fails: 47 pointer bits, 20 alignment bits, 18 tag bits give `numBytes = 8` and `ALIGNMENT_REMOVED`, although the tag fits in the alignment bits and the pointer in 8 bytes |
| TaggedPtr.RepHints | src/runtime/native/include/skip/SmallTaggedPtr.h:386-396 | at most one hint reaches `Rep`, only one that was set, and one does whenever one was set; with both set, `safeToLoadAfter` wins exactly in `TAG_OVERLAPPED` |
| TaggedPtr.RepType | src/runtime/native/include/skip/SmallTaggedPtr.h:386-396 | `Rep` is a well-formed representation of exactly `numBytes` bytes, split into parts exactly when `numBytes` is not a native width |
| TaggedPtr.Stored | src/runtime/native/include/skip/SmallTaggedPtr.h:483 | assigning a word to `m_bits` keeps it modulo `2^(8*numBytes)` |
| TaggedPtr.AddIsOr | src/runtime/native/include/skip/SmallTaggedPtr.h:466-483 | the shifted pointer word has its low `kNumTagBits` bits clear, so `b + tag` equals the bitwise or of `b` and `tag`, and the sum does not wrap |
| TaggedPtr.FieldFits | src/runtime/native/include/skip/SmallTaggedPtr.h:367-384 | in every layout the pointer field of a `numPtrBits`-bit pointer, with the tag below it, fits in `numBytes` bytes |
| TaggedPtr.EncodeFits | src/runtime/native/include/skip/SmallTaggedPtr.h:460-484 | for a valid pair the encoded word is the pointer field times `2^kNumTagBits` plus the tag, below `2^(8*numBytes)`, so storing it in `Rep` loses nothing |
| TaggedPtr.RoundTrip | src/runtime/native/include/skip/SmallTaggedPtr.h:410-484 | in every layout a valid pair (pointer of `numPtrBits` bits, aligned, tag at most `kTagMask`), encoded and stored, decodes to itself; this includes the asymmetric `ALIGNMENT_REMOVED` shifts |
| TaggedPtr.DecodeTag | src/runtime/native/include/skip/SmallTaggedPtr.h:413-414 | decoding is total and the tag of any word is at most `kTagMask` |
| TaggedPtr.RetagKeepsPtr | src/runtime/native/include/skip/SmallTaggedPtr.h:502-512 | replacing the tag bits of a word leaves its pointer unchanged, so null tests do not depend on the tag |
| TaggedPtr.NullDecodes | src/runtime/native/include/skip/SmallTaggedPtr.h:486-488 | the all-zero word decodes to null with tag 0 in every layout, and null with tag 0 encodes to it |
| TaggedPtr.AutoTagBitsFillWord | src/runtime/native/include/skip/SmallTaggedPtr.h:309-325 | with a negative `numTagBits_` the payload is exactly 64 bits and `numBytes` is 8, packed or not |
| TaggedPtr.TaggedUnionRep | src/runtime/native/include/skip/SmallTaggedPtr.h:547-575 | `TaggedUnion` is `SmallTaggedUnion` with `pack` and both hints false (`TaggedUnionConfig`), and on x86_64 and aarch64, for alignments below 2^15, it stores a plain 8-byte scalar: the full `void*` its comment promises |
| TaggedPtr.ScenarioOverlapped | src/runtime/native/include/skip/SmallTaggedPtr.h:322-396 | 47 pointer bits, 3 alignment bits, 2 tag bits, packed: 6 bytes, `TAG_OVERLAPPED`, `Rep` a 4-byte and a 2-byte `UnalignedValue` |
| TaggedPtr.ScenarioAlignmentRemoved | src/runtime/native/include/skip/SmallTaggedPtr.h:322-384 | 47 pointer bits, 4 alignment bits, 5 tag bits, packed: 6 bytes, `ALIGNMENT_REMOVED` |
| TaggedPtr.ScenarioBothHints | src/runtime/native/include/skip/SmallTaggedPtr.h:386-396 | both hints with `TAG_APPENDED`: only `safeToLoadBefore` reaches the 6-byte `PackedUInt` |
| TaggedPtr.SmallTaggedPtr.Storage | src/runtime/native/include/skip/SmallTaggedPtr.h:533 | `m_bits` occupies `numBytes` bytes |
| TaggedPtr.SmallTaggedPtr.Bits | src/runtime/native/include/skip/SmallTaggedPtr.h:442-444 | `bits()` is the stored number, whatever memory the representation's wide load touches |
| TaggedPtr.SmallTaggedPtr.Unpack | src/runtime/native/include/skip/SmallTaggedPtr.h:410-430 | the layout's shifts and mask on the stored word give exactly `Decode` of it |
| TaggedPtr.SmallTaggedPtr.Ptr | src/runtime/native/include/skip/SmallTaggedPtr.h:433-435 | `ptr()` is the decoded pointer |
| TaggedPtr.SmallTaggedPtr.Tag | src/runtime/native/include/skip/SmallTaggedPtr.h:438-440 | `tag()` is the low `kNumTagBits` bits of the stored word, at most `kTagMask` |
| TaggedPtr.SmallTaggedPtr.IsNonNull | src/runtime/native/include/skip/SmallTaggedPtr.h:502-512 | `operator bool` and `!= nullptr` hold exactly when the decoded pointer is not null |
| TaggedPtr.SmallTaggedPtr.EqualsNull | src/runtime/native/include/skip/SmallTaggedPtr.h:506-508 | `== nullptr` holds exactly when the decoded pointer is null |
| TaggedPtr.SmallTaggedPtr.Assign | src/runtime/native/include/skip/SmallTaggedPtr.h:460-484 | the layout's shifts followed by `+ tag` store exactly the encoding of the pair |
| TaggedPtr.SmallTaggedPtr.AssignPtr | src/runtime/native/include/skip/SmallTaggedPtr.h:514-517 | `operator=(TPtr)` stores the encoding of the pointer with tag 0 |
| TaggedPtr.SmallTaggedPtr.AssignPair | src/runtime/native/include/skip/SmallTaggedPtr.h:494-496 | `assign(PointerTagPair)` stores the encoding of the pair's pointer and tag |
| TaggedPtr.SmallTaggedPtr.AssignNull | src/runtime/native/include/skip/SmallTaggedPtr.h:486-488 | `assign(nullptr)` and `operator=(nullptr)` store 0, which decodes to null with tag 0 |
| TaggedPtr.SmallTaggedPtr.AssignBits | src/runtime/native/include/skip/SmallTaggedPtr.h:490-492 | `assign(uintptr_t)` stores the raw word truncated to `numBytes` bytes |
| TaggedPtr.SmallTaggedPtr.Reset | src/runtime/native/include/skip/SmallTaggedPtr.h:498-500 | `reset()` stores 0, which decodes to null with tag 0 |
| TaggedPtr.SmallTaggedPtr.FromPair | src/runtime/native/include/skip/SmallTaggedPtr.h:447-449 | constructing from a pointer and tag stores their encoding |
| TaggedPtr.SmallTaggedPtr.Null | src/runtime/native/include/skip/SmallTaggedPtr.h:450-452 | constructing from `nullptr` stores 0 |
| TaggedPtr.SmallTaggedPtr.FromBits | src/runtime/native/include/skip/SmallTaggedPtr.h:453-455 | constructing from raw bits stores them truncated to `numBytes` bytes |
| TaggedPtr.SmallTaggedPtr.FromTagPair | src/runtime/native/include/skip/SmallTaggedPtr.h:456-458 | constructing from a `PointerTagPair` stores the encoding of its pointer and tag |

Taken together:
- `SmallTaggedPtr.Assign` stores `Stored(Encode(p, t))`;
- `SmallTaggedPtr.Unpack` returns `Decode` of what is stored;
- `RoundTrip` shows that `Decode(Stored(Encode(p, t))) == (p, t)`.

So `unpack` after `assign(p, t)` gives back `(p, t)` for every valid pair in every layout.

With 47 pointer bits, 3 alignment bits and 2 tag bits, packed, `numBytes = 6` and `bitsToBytes(49) = 7`, so `kLayout` takes its second branch and chooses `TAG_OVERLAPPED` (`ScenarioOverlapped`).

## Left out

- The memory accesses themselves are not modelled:
  - the `memcpy` of a wide load outside the object;
  - the undefined behaviour it relies on;
  - `folly::Unaligned`;
  - the `FOLLY_SANITIZE_ADDRESS` guard that disables the wide loads.

  Only their arithmetic is modelled, over explicit little-endian bytes. The model does not choose whether the sanitizer is on. A `Neighbours` value that a hint's load may reach stands for the memory around the object.
- `typepunned_cast` is not modelled: pointers are the addresses they hold, as naturals.
- `DerefType`, `operator*` and `operator->` are not modelled, because there is no pointee and no memory model.
- The operators `boost::totally_ordered` derives from `==` and `<` are not modelled. Only `==` and `<` are.
- The platform `#ifdef` that picks `kMaxPtrBits` becomes the `Arch` parameter. Only 64-bit words are modelled.
- The debug `assert`s in `assign` become `requires` clauses.
- The default constructor is not modelled: `SmallTaggedPtr() = default` leaves `m_bits` uninitialised, so a default-constructed value is not known to be null.
- `TaggedPtr.SmallTaggedPtr.AssignPair` reads the pair's `m_ptr` and `m_tag`. The header's `assign(PointerTagPair)` names `p.ptr` and `p.tag`, which `PointerTagPair` does not declare, so that overload only compiles when it is never instantiated.
- `UIntSelector.UnalignedValue.Equals`, `UIntSelector.UnalignedValue.Less`: both compare the two stored numbers. The header's `operator==` and `operator<` name `other.value`, which `UnalignedValue` does not declare (the number is `other.m_bits.value`), so either operator fails to compile where it is used.
- `UIntSelector.PackedUInt.Equals`: compares the parts' stored numbers. The header's `operator==` compares `m_lo == other.m_lo` and `m_hi == other.m_hi`, and every `PackedUInt` (sizes 3, 5, 6 and 7) has an `UnalignedValue` part, directly or inside a nested `PackedUInt`. So it reaches the `other.value` error above and fails to compile where it is used; the model states the comparison it evidently intends.
- `TaggedPtr.SmallTaggedPtr.Reset`: in `reset()`'s `assign(0)` the literal `0` converts to `std::nullptr_t` and to `uintptr_t` with the same (conversion) rank, so the call is ambiguous and `reset()` fails to compile where it is used. Both overloads store 0; the model states that intended effect, through the raw-bits overload.
- The parts of a `PackedUInt` carry no load hints, so they are read with no neighbouring bytes.
- The parts are not separate objects: `SmallTaggedPtr` keeps its `Rep` as the stored number, with `StoreBytes` giving that number's bytes.
- The integer type `TagBits` is not modelled: tags are naturals bounded by `kTagMask`.
- The model covers only the configurations in `TaggedPtr.Supported`:
  - the payload fits in one word, which the header requires;
  - `kNumTagBits` is below 64, which the header requires, since its `kTagMask` shift is a constant expression;
  - the alignment bits lie within the pointer bits. This is a restriction of the model; the header does not check it, and compiles, for example, with 50 alignment bits, 47 pointer bits and 10 tag bits;
  - `numBytes` is at least 1. This is also a restriction of the model: a payload of zero bytes would ask `UIntTypeSelector<0>` for a type it never defines.
- `TaggedPtr.KLayout` follows the header's decision as written, and it does not promise that `ALIGNMENT_REMOVED` is used only when necessary. The header's comments say it is used only then (lines 353-356 and 379-380). `TaggedPtr.RemovedOnlyWhenNeeded` proves this for packed configurations. Without packing, the test `numBytes == bitsToBytes(numPtrBits)` misses configurations whose native `numBytes` is larger; `TaggedPtr.UnpackedRemovedThoughOverlapFits` gives one. Such a configuration still round-trips; it only uses the less efficient layout.
- Memory is modelled only as little-endian, as on x86_64 and little-endian aarch64. On a big-endian target (a big-endian aarch64, which also defines `__aarch64__`, or an `OtherArch`), the `safeToLoadBefore` read shifts out the value's own low bytes instead of the borrowed ones. So `UIntSelector.ReadRep`'s result, the stored number whatever the read path, is not claimed there.
