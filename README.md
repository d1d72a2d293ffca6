# UTF-8 ⇄ code-point codec (utf8unicode.hh), modelled in Dafny

`utf8unicode.hh` is a header-only codec between UTF-8 byte strings and
sequences of 32-bit code points. It follows the original 1–6 byte scheme of
RFC 2279, section 2, not the four-byte limit of RFC 3629. It has two operations
and one helper:

- `utf8_to_unicode` walks the bytes with a cursor. It classifies each lead
  byte by the thresholds 0xC0, 0xE0, 0xF0, 0xF8 and 0xFC, calls
  `check_length` to make sure the announced continuation bytes lie in the
  buffer, and assembles the code point from the masked lead byte and the
  low six bits of each continuation byte. It returns `false` on a truncated
  trailing sequence and validates nothing else.
- `unicode_to_utf8` writes 1 to 6 bytes per code point, chosen by value
  range, and never fails.
- `check_length(start, offset, end)` is the strict test `start + offset < end`.

The project has five modules.

- `Containers` (`containers.dfy`). `Vector<T>` is a class standing in for the
  caller's `std::vector` / `std::string`. It has the two operations the codec
  uses, `Clear` and `PushBack`. The module also holds small lemmas about
  appending one element at a time.
- `Utf8Spec` (`utf8spec.dfy`) is the pure specification. It defines
  `CheckLength`, the byte layout `EncodeCp` / `Encode`, and the group value
  `GroupValue` and `Decode` (an `Option`). `Decode` and `Encode` carry no
  contract of their own: each operation's method is proved equal to one of
  them, and the lemmas in `Utf8Properties` and `Utf8Theorems` state what
  they compute.
- `Utf8Unicode` (`utf8unicode.dfy`) holds the two operations as imperative
  methods. Each runs the source's `while` loop over a cursor, after clearing
  the caller's container. The body of each loop is a method of its own:
  `ReadSequence` for one decoder step and `PushCodePoint` for one encoder
  step. Both keep the source's six branches and its masks, shifts and
  constants. Each operation is proved equal to its specification function.
- `Utf8Properties` (`utf8properties.dfy`) holds the per-branch layout lemmas,
  the cursor-step lemmas the loops use, and arithmetic on six-bit groups.
- `Utf8Theorems` (`utf8theorems.dfy`) holds the promised properties:
  - encoded lengths and byte classes;
  - exactly when decoding fails or succeeds, against an independent
    description of a buffer as complete groups;
  - the round trip for code points below 2^31;
  - pass-through of bytes below 0xC0 and ignored continuation high bits;
  - worked examples.

Representation choices:

- A byte is an integer in 0..0xFF and a code point an integer in
  0..0xFFFFFFFF (an `unsigned int`).
- The codec only ever combines bit fields that share no bit. So `x & (2^n - 1)`
  is written `x % 2^n`, `x >> n` is `x / 2^n` and `x << n` is `x * 2^n` (no bit
  leaves the 32 bits anywhere in the codec), and `|` of disjoint fields is `+`.
  `MarkerMasked` proves that masking again after adding a length marker or
  0x80 recovers the masked field, `(x % m + marker) % m == x % m`, for every
  marker whose low bits under the mask are zero. That the markers share no
  bit with their fields is its precondition, and that `|` equals `+` on such
  fields is not proved (see "## Left out").
- Every value the encoder pushes into the `std::string` is below 0x100, so
  the narrowing to `char` changes nothing. Here each pushed value must be a
  `Byte`, and the verifier checks that.
- The decoder builds `e` in an unbounded integer. It is stored as a
  `CodePoint` once it is known to equal the group's value, which is below
  2^31. Every intermediate value is at most the final one, so the source's
  `unsigned int e` never wraps.
- In the six-byte form the encoder keeps only bit 30 of the top bits
  (`(u >> 30) & 0x01`). Bit 31 of a code point is therefore lost, and the round
  trip is stated for code points below 2^31.

## Model

| member | source | states |
|---|---|---|
| Utf8Spec.EncodeCp | utf8unicode.hh:93-137 | the byte group of one code point has one byte more than the number of continuation bytes its value range calls for |
| Utf8Spec.CheckLength | utf8unicode.hh:143-148 | true exactly when `start + offset < end`, so every continuation byte of the sequence lies strictly inside the buffer |
| Utf8Spec.GroupValue | utf8unicode.hh:38-77 | the code point assembled from a group of 1 to 6 bytes is below 2^31, so the decoder's `unsigned int` never wraps |
| Utf8Spec.Assemble | utf8unicode.hh:38-77 | after `n` bytes of a group, the partial value is below 2 to the number of payload bits read so far |
| Utf8Unicode.ReadSequence | utf8unicode.hh:29-78 | `offset` is the number of continuation bytes the lead byte's threshold class announces; the sequence is complete exactly when `cursor + offset` is inside the buffer; when complete, `e` is the value of the group of `offset + 1` bytes at the cursor |
| Utf8Unicode.Utf8ToUnicode | utf8unicode.hh:21-83 | returns true exactly when the specification decodes the whole buffer; on success the output holds exactly the decoded code points, whatever it held before |
| Utf8Unicode.PushCodePoint | utf8unicode.hh:93-137 | appends exactly the byte group of `u` to the output and nothing else; `offset` is the group's length minus one |
| Utf8Unicode.UnicodeToUtf8 | utf8unicode.hh:85-140 | afterwards the output holds exactly the concatenated byte groups of the input, in order; prior contents are discarded |
| Containers.Vector.Clear | utf8unicode.hh:27 | the container is empty afterwards |
| Containers.Vector.PushBack | utf8unicode.hh:79 | the element is appended at the end and nothing else changes |
| Utf8Properties.DecodeFromStart | utf8unicode.hh:22-28 | with the cursor at 0 and nothing decoded yet, decoding the rest is decoding the whole buffer |
| Utf8Properties.DecodeTruncatedAt | utf8unicode.hh:37 | a lead byte at the cursor whose announced continuation bytes reach the end makes the decoding of the rest fail |
| Utf8Properties.DecodeStep | utf8unicode.hh:79-80 | a complete group at the cursor contributes its value after what has been decoded, and decoding continues `offset + 1` bytes later |
| Utf8Properties.DecodeAtEnd | utf8unicode.hh:81-82 | with the cursor at the end of the buffer, the code points decoded so far are the result |
| Utf8Properties.GroupValueOne | utf8unicode.hh:30-33 | a byte standing alone decodes to itself |
| Utf8Properties.GroupValueTwo | utf8unicode.hh:38-39 | a two-byte group is `(b0 & 0x1f) << 6` plus the low six bits of `b1` |
| Utf8Properties.GroupValueThree | utf8unicode.hh:45-47 | a three-byte group is `(b0 & 0x0f) << 12` plus the low six bits of `b1` and `b2` |
| Utf8Properties.GroupValueFour | utf8unicode.hh:53-56 | a four-byte group is `(b0 & 0x07) << 18` plus the low six bits of `b1`..`b3` |
| Utf8Properties.GroupValueFive | utf8unicode.hh:62-66 | a five-byte group is `(b0 & 0x03) << 24` plus the low six bits of `b1`..`b4` |
| Utf8Properties.GroupValueSix | utf8unicode.hh:72-77 | a six-byte group is `(b0 & 0x01) << 30` plus the low six bits of `b1`..`b5` |
| Utf8Properties.EncodeOneByte | utf8unicode.hh:94-97 | a code point below 0x80 is encoded as itself, one byte |
| Utf8Properties.EncodeTwoBytes | utf8unicode.hh:98-103 | a code point in [0x80, 0x800) is encoded as the two bytes the source pushes |
| Utf8Properties.EncodeThreeBytes | utf8unicode.hh:104-110 | a code point in [0x800, 0x10000) is encoded as the three bytes the source pushes |
| Utf8Properties.EncodeFourBytes | utf8unicode.hh:111-118 | a code point in [0x10000, 0x200000) is encoded as the four bytes the source pushes |
| Utf8Properties.EncodeFiveBytes | utf8unicode.hh:119-127 | a code point in [0x200000, 0x4000000) is encoded as the five bytes the source pushes |
| Utf8Properties.EncodeSixBytes | utf8unicode.hh:128-137 | a code point from 0x4000000 up is encoded as the six bytes the source pushes |
| Utf8Properties.EncodeAppend | utf8unicode.hh:91-139 | encoding is a homomorphism: the encoding of `a + b` is the encoding of `a` followed by that of `b` |
| Utf8Properties.EncodeSnoc | utf8unicode.hh:92-138 | encoding one more code point appends its byte group |
| Utf8Properties.MarkerMasked | utf8unicode.hh:101-136 | adding a length marker or 0x80 whose bits under the mask are zero to a masked field and masking again gives the field back |
| Utf8Theorems.EncodedLength | utf8unicode.hh:94-137 | a code point takes 1, 2, 3, 4, 5 or 6 bytes for the ranges [0,0x80), [0x80,0x800), [0x800,0x10000), [0x10000,0x200000), [0x200000,0x4000000), [0x4000000,2^32) |
| Utf8Theorems.ContinuationBytesInRange | utf8unicode.hh:102-136 | every continuation byte the encoder emits lies in [0x80, 0xBF] |
| Utf8Theorems.ByteClasses | utf8unicode.hh:96-136 | the lead byte of a group falls in the decoder's threshold class for the group's length (below 0x80 for a single byte) and is never 0xFE or 0xFF, and every other byte lies in [0x80, 0xBF] |
| Utf8Theorems.GroupRoundTrip | utf8unicode.hh:98-137 | decoding the byte group of a code point below 2^31 gives the code point back |
| Utf8Theorems.DecodeGroup | utf8unicode.hh:28-80 | a complete group at the front of a buffer decodes to its value, followed by the decoding of the rest |
| Utf8Theorems.DecodeGroups | utf8unicode.hh:28-81 | complete groups at the front decode to their values in order, followed by the decoding of the rest |
| Utf8Theorems.GroupsOfDecoded | utf8unicode.hh:28-82 | a buffer that decodes is the concatenation of complete groups, and the result is their values |
| Utf8Theorems.GroupsOfTruncated | utf8unicode.hh:28-71 | a buffer that does not decode is complete groups followed by a lead byte whose continuation bytes run past the end |
| Utf8Theorems.DecodeFailsIff | utf8unicode.hh:34-71 | decoding fails if and only if, at a cursor position reached by whole groups, a lead byte announces `k` continuation bytes and `i + k` is not inside the buffer |
| Utf8Theorems.DecodeSucceedsIff | utf8unicode.hh:21-83 | decoding succeeds if and only if the buffer is a concatenation of complete groups, and then it yields their values |
| Utf8Theorems.RoundTrip | utf8unicode.hh:85-140 | for code points all below 2^31, decoding the encoding succeeds and returns the same sequence |
| Utf8Theorems.SingleBytesPassThrough | utf8unicode.hh:30-33 | a buffer of bytes below 0xC0, stray continuation bytes included, decodes to one code point per byte, equal to the byte |
| Utf8Theorems.AssembleLowBits | utf8unicode.hh:38-77 | groups that agree on the lead byte and on the low six bits of their continuation bytes assemble to the same value |
| Utf8Theorems.ContinuationHighBitsIgnored | utf8unicode.hh:39-77 | changing the two high bits of a continuation byte does not change the group's value |
| Utf8Theorems.DecodedBelow31Bits | utf8unicode.hh:72-79 | every decoded code point is below 2^31 |
| Utf8Theorems.EncodeExamples | utf8unicode.hh:94-110 | the empty sequence encodes to nothing; 0x7F → [0x7F], 0x80 → [0xC2, 0x80], 0x800 → [0xE0, 0xA0, 0x80], 0x10000 → [0xF0, 0x90, 0x80, 0x80], 0x4F60 → [0xE4, 0xBD, 0xA0], also as the one-element sequence [0x4F60]; the code points of "Hello" encode to its bytes |
| Utf8Theorems.DecodeTruncationExamples | utf8unicode.hh:41-48 | the empty buffer decodes to the empty sequence; [0xE0] and [0xE0, 0x80] fail; [0xE0, 0x80, 0x80] decodes to [0] |
| Utf8Theorems.DecodeThreeByteExample | utf8unicode.hh:41-48 | [0xE4, 0xBD, 0xA0] decodes to [0x4F60] |
| Utf8Theorems.DecodeAsciiExample | utf8unicode.hh:30-33 | the bytes of "Hello" decode to [72, 101, 108, 108, 111] |

## Left out

- Utf8ToUnicode: what the output holds after a failed decode is not stated. The source returns in the middle of the loop and leaves a partial vector that callers must not use.
- Cursor and length overflow: the cursors, `utf8.size()` narrowed to `unsigned int`, and `start + offset` in `check_length` are unbounded naturals here. Buffers of 2^32 bytes or more, where these would wrap, are not modelled.
- The `(unsigned char*)` reinterpretation of the `std::string` storage and the signedness of `char`: the input is a sequence of bytes 0..0xFF.
- Allocation and the growth of `std::string` / `std::vector`: the `Vector` class keeps only the element sequence.
- The stateless class wrapper `Utf8Unicode`: its static functions are module-level methods.
- Bit operations: `&`, `>>`, `<<` and `|` are written as `%`, `/`, `*` and `+` on non-negative integers. This is exact for the masks, shifts and disjoint fields the codec uses, but the model does not prove it against machine bit-vectors.
- No claim that encoding a decoded buffer gives the buffer back. Overlong forms, stray continuation bytes and ignored high bits make it false, and the codec does no validation to prevent them.
