/**
 * Pure specification of the 1-6 byte UTF-8 scheme of RFC 2279, section 2,
 * as the codec in utf8unicode.hh implements it. A byte is an `unsigned char`
 * and a code point an `unsigned int` of 32 bits, both held as bounded
 * integers. The codec's bit operations only ever combine fields that share
 * no bit, so they are written arithmetically: `x & (2^n - 1)` is
 * `x % 2^n`, `x >> n` is `x / 2^n`, `x << n` is `x * 2^n` (no bit is
 * shifted out of 32 bits anywhere in the codec) and `|` of disjoint fields
 * is `+`. Nothing is validated beyond the truncation of a trailing
 * multi-byte sequence.
 */
module Utf8Spec {

  type Byte = b: int | 0 <= b < 0x100
  type CodePoint = u: int | 0 <= u < 0x1_0000_0000

  datatype Option<T> = None | Some(value: T)

  /** Puts `front` before a decoding result; a failure stays a failure. */
  function Prepend(front: seq<CodePoint>, r: Option<seq<CodePoint>>): Option<seq<CodePoint>>
  {
    match r
    case None => None
    case Some(rest) => Some(front + rest)
  }

  /** The decoder's bounds test: the last byte of a sequence that starts at
      `start` and has `offset` continuation bytes, at index `start + offset`,
      lies inside a buffer of `end` bytes. */
  function CheckLength(start: nat, offset: nat, end: nat): (inBounds: bool)
    ensures inBounds <==> start + offset < end
  {
    if start + offset >= end then false else true
  }

  /** `x & LeadMask(k)`: the payload bits a lead byte followed by `k`
      continuation bytes carries (masks 0x1f, 0x0f, 0x07, 0x03, 0x01). */
  function LeadBits(x: nat, k: nat): nat
    requires 1 <= k <= 5
  {
    if k == 1 then x % 0x20
    else if k == 2 then x % 0x10
    else if k == 3 then x % 0x08
    else if k == 4 then x % 0x04
    else x % 0x02
  }

  /** Length marker of a lead byte followed by `k` continuation bytes. */
  function LeadMarker(k: nat): Byte
    requires 1 <= k <= 5
  {
    if k == 1 then 0xc0
    else if k == 2 then 0xe0
    else if k == 3 then 0xf0
    else if k == 4 then 0xf8
    else 0xfc
  }

  // ---------------------------------------------------------------------
  // Encoding

  /** Number of continuation bytes the encoder uses for `u`, chosen by the
      half-open ranges of its value. */
  function EncodedContinuationCount(u: CodePoint): nat
  {
    if u < 0x80 then 0
    else if u < 0x800 then 1
    else if u < 0x10000 then 2
    else if u < 0x200000 then 3
    else if u < 0x4000000 then 4
    else 5
  }

  /** Continuation byte carrying the low six bits of `x`:
      `(x & 0x3f) | 0x80`. */
  function ContinuationByte(x: nat): Byte
  {
    x % 0x40 + 0x80
  }

  /** `u` without its `m` lowest six-bit groups, that is `u >> (6 * m)`. */
  function DropSixBitGroups(u: CodePoint, m: nat): nat
    requires m <= 5
  {
    if m == 0 then u
    else if m == 1 then u / 0x40
    else if m == 2 then u / 0x1000
    else if m == 3 then u / 0x40000
    else if m == 4 then u / 0x1000000
    else u / 0x40000000
  }

  /** Lead byte of a `k`-continuation encoding of `u`: the bits of `u`
      above its 6*k continuation bits, masked, with the length marker. */
  function LeadByte(u: CodePoint, k: nat): Byte
    requires 1 <= k <= 5
  {
    LeadBits(DropSixBitGroups(u, k), k) + LeadMarker(k)
  }

  /** The last `n` continuation bytes of an encoding of `u`, most
      significant first. */
  function ContinuationBytes(u: CodePoint, n: nat): (cs: seq<Byte>)
    requires n <= 5
    ensures |cs| == n
  {
    if n == 0 then []
    else [ContinuationByte(DropSixBitGroups(u, n - 1))] + ContinuationBytes(u, n - 1)
  }

  /** The byte group of one code point. */
  function EncodeCp(u: CodePoint): (g: seq<Byte>)
    ensures |g| == EncodedContinuationCount(u) + 1
  {
    var k := EncodedContinuationCount(u);
    if k == 0 then [u] else [LeadByte(u, k)] + ContinuationBytes(u, k)
  }

  /** The encoding of a code-point sequence: the byte groups of its code
      points, in order. */
  function Encode(cs: seq<CodePoint>): seq<Byte>
  {
    if cs == [] then [] else EncodeCp(cs[0]) + Encode(cs[1..])
  }

  // ---------------------------------------------------------------------
  // Decoding

  /** Number of continuation bytes announced by the lead byte `b`; any byte
      below 0xC0 stands alone. */
  function ContinuationCount(b: Byte): nat
  {
    if b < 0xC0 then 0
    else if b < 0xE0 then 1
    else if b < 0xF0 then 2
    else if b < 0xF8 then 3
    else if b < 0xFC then 4
    else 5
  }

  /** What a lead byte followed by `k` continuation bytes contributes: the
      whole byte when it stands alone, its masked payload otherwise. */
  function LeadPayload(b: Byte, k: nat): nat
    requires k <= 5
  {
    if k == 0 then b else LeadBits(b, k)
  }

  /** `(acc << 6) | (b & 0x3f)`: appends the six payload bits of the
      continuation byte `b` to `acc`; the two high bits of `b` are ignored. */
  function AppendSixBits(acc: nat, b: Byte): nat
  {
    acc * 0x40 + b % 0x40
  }

  /** Exclusive upper bound of the payload of a lead byte followed by `k`
      continuation bytes: 2 to the number of its payload bits. */
  function LeadLimit(k: nat): nat
    requires k <= 5
  {
    if k == 0 then 0x100
    else if k == 1 then 0x20
    else if k == 2 then 0x10
    else if k == 3 then 0x08
    else if k == 4 then 0x04
    else 0x02
  }

  /** Exclusive upper bound of the value of the first `n` bytes of a group
      of `k + 1` bytes. */
  function AssembleLimit(k: nat, n: nat): nat
    requires k <= 5 && 1 <= n
  {
    if n == 1 then LeadLimit(k) else AssembleLimit(k, n - 1) * 0x40
  }

  /** The value of the first `n` bytes of the group `g`: the lead payload,
      then six bits of each continuation byte, most significant first. */
  function Assemble(g: seq<Byte>, n: nat): (v: nat)
    requires 1 <= n <= |g| <= 6
    ensures v < AssembleLimit(|g| - 1, n)
  {
    if n == 1 then LeadPayload(g[0], |g| - 1)
    else AppendSixBits(Assemble(g, n - 1), g[n - 1])
  }

  /** A whole group of at most six bytes carries at most 31 bits. */
  lemma {:induction false} GroupLimit(k: nat)
    requires k <= 5
    ensures AssembleLimit(k, k + 1) <= 0x8000_0000
  {
    if k == 0 {
      assert AssembleLimit(0, 1) == 0x100;
    } else if k == 1 {
      assert AssembleLimit(1, 2) == 0x800;
    } else if k == 2 {
      assert AssembleLimit(2, 3) == 0x10000;
    } else if k == 3 {
      assert AssembleLimit(3, 4) == 0x200000;
    } else if k == 4 {
      assert AssembleLimit(4, 5) == 0x4000000;
    } else {
      assert AssembleLimit(5, 6) == 0x8000_0000;
    }
  }

  /** The code point a whole group stands for; it always fits in 31 bits,
      so the decoder's `unsigned int` never wraps. */
  function GroupValue(g: seq<Byte>): (u: CodePoint)
    requires 1 <= |g| <= 6
    ensures u < 0x8000_0000
  {
    GroupLimit(|g| - 1);
    Assemble(g, |g|)
  }

  /** Decoding: read one group at the front, as long as its lead byte
      announces it, and go on with the rest; fail as soon as a group would
      run past the end of the buffer. */
  function Decode(bs: seq<Byte>): Option<seq<CodePoint>>
    decreases |bs|
  {
    if bs == [] then Some([])
    else
      var k := ContinuationCount(bs[0]);
      if !CheckLength(0, k, |bs|) then None
      else
        Prepend([GroupValue(bs[..k + 1])], Decode(bs[k + 1..]))
  }
}
