/**
 * Properties of the codec specification in Utf8Spec: the byte layout the
 * encoder produces, when decoding fails, what it yields, and the round trip.
 */
module Utf8Properties {
  import opened Utf8Spec

  // ---------------------------------------------------------------------
  // Prepending to a decoding result

  lemma PrependNothing(r: Option<seq<CodePoint>>)
    ensures Prepend([], r) == r
  {
    if r.Some? {
      assert [] + r.value == r.value;
    }
  }

  lemma PrependTwice(a: seq<CodePoint>, b: seq<CodePoint>, r: Option<seq<CodePoint>>)
    ensures Prepend(a, Prepend(b, r)) == Prepend(a + b, r)
  {
    if r.Some? {
      assert a + (b + r.value) == (a + b) + r.value;
    }
  }

  // ---------------------------------------------------------------------
  // Decoding from a cursor

  /** Before the first step nothing has been decoded. */
  lemma DecodeFromStart(bs: seq<Byte>)
    ensures Decode(bs) == Prepend([], Decode(bs[0..]))
  {
    assert bs[0..] == bs;
    PrependNothing(Decode(bs));
  }

  /** A lead byte at `cursor` whose continuation bytes run past the end makes
      the decoding of the rest of the buffer fail. */
  lemma DecodeTruncatedAt(bs: seq<Byte>, cursor: nat)
    requires cursor < |bs|
    requires cursor + ContinuationCount(bs[cursor]) >= |bs|
    ensures Decode(bs[cursor..]) == None
  {
    assert bs[cursor..][0] == bs[cursor];
  }

  /** A complete group at `cursor` adds its value to what has been decoded
      so far and moves the cursor past it. */
  lemma DecodeStep(bs: seq<Byte>, cursor: nat, front: seq<CodePoint>)
    requires cursor < |bs|
    requires cursor + ContinuationCount(bs[cursor]) < |bs|
    ensures var k := ContinuationCount(bs[cursor]);
      Prepend(front, Decode(bs[cursor..])) ==
      Prepend(front + [GroupValue(bs[cursor..][..k + 1])], Decode(bs[cursor + k + 1..]))
  {
    var k := ContinuationCount(bs[cursor]);
    var p := bs[cursor..];
    assert p[0] == bs[cursor];
    assert p[k + 1..] == bs[cursor + k + 1..];
    PrependTwice(front, [GroupValue(p[..k + 1])], Decode(p[k + 1..]));
  }

  /** With the cursor at the end, what has been decoded is the result. */
  lemma DecodeAtEnd(bs: seq<Byte>, front: seq<CodePoint>)
    ensures Prepend(front, Decode(bs[|bs|..])) == Some(front)
  {
    assert bs[|bs|..] == [];
    assert front + [] == front;
  }

  // ---------------------------------------------------------------------
  // The specification against the branch-by-branch code

  // Each group value is the shift-and-or formula of the decoder's branch for
  // that sequence length: the lead byte's payload under its mask, then the low
  // six bits of each continuation byte.

  lemma GroupValueOne(g: seq<Byte>)
    requires |g| == 1
    ensures GroupValue(g) == g[0]
  {
  }

  lemma GroupValueTwo(g: seq<Byte>)
    requires |g| == 2
    ensures GroupValue(g) == (g[0] as int % 0x20) * 0x40 + g[1] % 0x40
  {
    assert Assemble(g, 2) == AppendSixBits(Assemble(g, 1), g[1]);
  }

  lemma GroupValueThree(g: seq<Byte>)
    requires |g| == 3
    ensures GroupValue(g) ==
      (g[0] as int % 0x10) * 0x1000 + (g[1] as int % 0x40) * 0x40 + g[2] % 0x40
  {
    assert Assemble(g, 2) == AppendSixBits(Assemble(g, 1), g[1]);
    assert Assemble(g, 3) == AppendSixBits(Assemble(g, 2), g[2]);
  }

  lemma GroupValueFour(g: seq<Byte>)
    requires |g| == 4
    ensures GroupValue(g) ==
      (g[0] as int % 0x08) * 0x40000 + (g[1] as int % 0x40) * 0x1000
      + (g[2] as int % 0x40) * 0x40 + g[3] % 0x40
  {
    assert Assemble(g, 2) == AppendSixBits(Assemble(g, 1), g[1]);
    assert Assemble(g, 3) == AppendSixBits(Assemble(g, 2), g[2]);
    assert Assemble(g, 4) == AppendSixBits(Assemble(g, 3), g[3]);
  }

  lemma GroupValueFive(g: seq<Byte>)
    requires |g| == 5
    ensures GroupValue(g) ==
      (g[0] as int % 0x04) * 0x1000000 + (g[1] as int % 0x40) * 0x40000
      + (g[2] as int % 0x40) * 0x1000 + (g[3] as int % 0x40) * 0x40 + g[4] % 0x40
  {
    assert Assemble(g, 2) == AppendSixBits(Assemble(g, 1), g[1]);
    assert Assemble(g, 3) == AppendSixBits(Assemble(g, 2), g[2]);
    assert Assemble(g, 4) == AppendSixBits(Assemble(g, 3), g[3]);
    assert Assemble(g, 5) == AppendSixBits(Assemble(g, 4), g[4]);
  }

  lemma GroupValueSix(g: seq<Byte>)
    requires |g| == 6
    ensures GroupValue(g) ==
      (g[0] as int % 0x02) * 0x40000000 + (g[1] as int % 0x40) * 0x1000000
      + (g[2] as int % 0x40) * 0x40000 + (g[3] as int % 0x40) * 0x1000
      + (g[4] as int % 0x40) * 0x40 + g[5] % 0x40
  {
    assert Assemble(g, 2) == AppendSixBits(Assemble(g, 1), g[1]);
    assert Assemble(g, 3) == AppendSixBits(Assemble(g, 2), g[2]);
    assert Assemble(g, 4) == AppendSixBits(Assemble(g, 3), g[3]);
    assert Assemble(g, 5) == AppendSixBits(Assemble(g, 4), g[4]);
    assert Assemble(g, 6) == AppendSixBits(Assemble(g, 5), g[5]);
  }

  // ---------------------------------------------------------------------
  // Arithmetic on six-bit groups

  /** Dropping six more bits after dropping some: `(x >> n) >> 6 == x >> (n + 6)`. */
  lemma DivTwice(x: nat, d: nat)
    requires d == 0x40 || d == 0x1000 || d == 0x40000 || d == 0x1000000
    ensures x / (d * 0x40) == (x / d) / 0x40
  {
    var q := x / d;
    var q2 := q / 0x40;
    assert x == q * d + x % d;
    assert q == q2 * 0x40 + q % 0x40;
    assert x == q2 * (d * 0x40) + ((q % 0x40) * d + x % d);
  }

  /** A length marker or the continuation marker 0x80 shares no bit with the
      mask it is or-ed after. */
  lemma MarkerMasked(x: nat, m: nat, marker: nat)
    requires m == 0x40 || m == 0x20 || m == 0x10 || m == 0x08 || m == 0x04 || m == 0x02
    requires marker == 0x80 || marker == 0xc0 || marker == 0xe0 || marker == 0xf0 || marker == 0xf8 || marker == 0xfc
    requires marker % m == 0
    ensures (x % m + marker) % m == x % m
  {
  }

  /** The bits of `u` above its `d`-weighted groups fit under the lead mask
      `m` when `u` is in the range of that length. */
  lemma LeadBitsFit(u: nat, d: nat, m: nat)
    requires (d == 0x40 && m == 0x20) || (d == 0x1000 && m == 0x10) || (d == 0x40000 && m == 0x08)
      || (d == 0x1000000 && m == 0x04) || (d == 0x40000000 && m == 0x02)
    requires u < d * m
    ensures (u / d) % m == u / d
  {
  }

  /** Quotients and remainders by 0x40, put back together. */
  lemma Positional(u: int, q1: int, q2: int, q3: int, q4: int, q5: int,
                   r0: int, r1: int, r2: int, r3: int, r4: int)
    requires u == q1 * 0x40 + r0 && q1 == q2 * 0x40 + r1 && q2 == q3 * 0x40 + r2
    requires q3 == q4 * 0x40 + r3 && q4 == q5 * 0x40 + r4
    ensures u == q2 * 0x1000 + r1 * 0x40 + r0
    ensures u == q3 * 0x40000 + r2 * 0x1000 + r1 * 0x40 + r0
    ensures u == q4 * 0x1000000 + r3 * 0x40000 + r2 * 0x1000 + r1 * 0x40 + r0
    ensures u == q5 * 0x40000000 + r4 * 0x1000000 + r3 * 0x40000 + r2 * 0x1000 + r1 * 0x40 + r0
  {
  }

  /** `u` as its six-bit groups, most significant first, for each length. */
  lemma SixBitGroups(u: nat)
    ensures u == (u / 0x40) * 0x40 + u % 0x40
    ensures u == (u / 0x1000) * 0x1000 + ((u / 0x40) % 0x40) * 0x40 + u % 0x40
    ensures u == (u / 0x40000) * 0x40000 + ((u / 0x1000) % 0x40) * 0x1000
      + ((u / 0x40) % 0x40) * 0x40 + u % 0x40
    ensures u == (u / 0x1000000) * 0x1000000 + ((u / 0x40000) % 0x40) * 0x40000
      + ((u / 0x1000) % 0x40) * 0x1000 + ((u / 0x40) % 0x40) * 0x40 + u % 0x40
    ensures u == (u / 0x40000000) * 0x40000000 + ((u / 0x1000000) % 0x40) * 0x1000000
      + ((u / 0x40000) % 0x40) * 0x40000 + ((u / 0x1000) % 0x40) * 0x1000
      + ((u / 0x40) % 0x40) * 0x40 + u % 0x40
  {
    var q1 := u / 0x40;
    var q2 := q1 / 0x40;
    var q3 := q2 / 0x40;
    var q4 := q3 / 0x40;
    var q5 := q4 / 0x40;
    DivTwice(u, 0x40);
    DivTwice(u, 0x1000);
    DivTwice(u, 0x40000);
    DivTwice(u, 0x1000000);
    Positional(u, q1, q2, q3, q4, q5, u % 0x40, q1 % 0x40, q2 % 0x40, q3 % 0x40, q4 % 0x40);
  }

  /** Replacing each group by an equal term keeps the sum. */
  lemma SumOfGroups(u: int, t5: int, t4: int, t3: int, t2: int, t1: int, t0: int,
                    r5: int, r4: int, r3: int, r2: int, r1: int, r0: int)
    requires t5 == r5 && t4 == r4 && t3 == r3 && t2 == r2 && t1 == r1 && t0 == r0
    requires u == r5 * 0x40000000 + r4 * 0x1000000 + r3 * 0x40000 + r2 * 0x1000 + r1 * 0x40 + r0
    ensures u == t5 * 0x40000000 + t4 * 0x1000000 + t3 * 0x40000 + t2 * 0x1000 + t1 * 0x40 + t0
  {
  }

  /** The continuation bytes of each length, written out. */
  lemma ContinuationBytesOne(u: CodePoint)
    ensures ContinuationBytes(u, 1) == [ContinuationByte(u)]
  {
    calc {
      ContinuationBytes(u, 1);
      [ContinuationByte(DropSixBitGroups(u, 0))] + ContinuationBytes(u, 0);
      [ContinuationByte(u)] + [];
    }
  }

  lemma ContinuationBytesTwo(u: CodePoint)
    ensures ContinuationBytes(u, 2) == [ContinuationByte(u / 0x40), ContinuationByte(u)]
  {
    var c1, c0 := ContinuationByte(u / 0x40), ContinuationByte(u);
    calc {
      ContinuationBytes(u, 2);
      [ContinuationByte(DropSixBitGroups(u, 1))] + ContinuationBytes(u, 1);
      { ContinuationBytesOne(u); }
      [c1] + [c0];
      [c1, c0];
    }
  }

  lemma ContinuationBytesThree(u: CodePoint)
    ensures ContinuationBytes(u, 3) ==
      [ContinuationByte(u / 0x1000), ContinuationByte(u / 0x40), ContinuationByte(u)]
  {
    var c2, c1, c0 := ContinuationByte(u / 0x1000), ContinuationByte(u / 0x40), ContinuationByte(u);
    calc {
      ContinuationBytes(u, 3);
      [ContinuationByte(DropSixBitGroups(u, 2))] + ContinuationBytes(u, 2);
      { ContinuationBytesTwo(u); }
      [c2] + [c1, c0];
      [c2, c1, c0];
    }
  }

  lemma ContinuationBytesFour(u: CodePoint)
    ensures ContinuationBytes(u, 4) ==
      [ContinuationByte(u / 0x40000), ContinuationByte(u / 0x1000),
       ContinuationByte(u / 0x40), ContinuationByte(u)]
  {
    var c3, c2 := ContinuationByte(u / 0x40000), ContinuationByte(u / 0x1000);
    var c1, c0 := ContinuationByte(u / 0x40), ContinuationByte(u);
    calc {
      ContinuationBytes(u, 4);
      [ContinuationByte(DropSixBitGroups(u, 3))] + ContinuationBytes(u, 3);
      { ContinuationBytesThree(u); }
      [c3] + [c2, c1, c0];
      [c3, c2, c1, c0];
    }
  }

  lemma ContinuationBytesFive(u: CodePoint)
    ensures ContinuationBytes(u, 5) ==
      [ContinuationByte(u / 0x1000000), ContinuationByte(u / 0x40000),
       ContinuationByte(u / 0x1000), ContinuationByte(u / 0x40), ContinuationByte(u)]
  {
    var c4, c3 := ContinuationByte(u / 0x1000000), ContinuationByte(u / 0x40000);
    var c2, c1, c0 := ContinuationByte(u / 0x1000), ContinuationByte(u / 0x40), ContinuationByte(u);
    calc {
      ContinuationBytes(u, 5);
      [ContinuationByte(DropSixBitGroups(u, 4))] + ContinuationBytes(u, 4);
      { ContinuationBytesFour(u); }
      [c4] + [c3, c2, c1, c0];
      [c4, c3, c2, c1, c0];
    }
  }

  /** A code point below 0x80 is its own single byte. */
  lemma EncodeOneByte(u: CodePoint)
    requires u < 0x80
    ensures EncodeCp(u) == [u]
  {
  }

  /** The two-byte group of 0x80 <= u < 0x800: the bytes the encoder's
      branch for that range pushes. */
  lemma EncodeTwoBytes(u: CodePoint)
    requires 0x80 <= u < 0x800
    ensures EncodeCp(u) ==
      [(u / 0x40) % 0x20 + 0xc0, u % 0x40 + 0x80]
  {
    ContinuationBytesOne(u);
    calc {
      EncodeCp(u);
      [LeadByte(u, 1)] + ContinuationBytes(u, 1);
      [(u / 0x40) % 0x20 + 0xc0] + ContinuationBytes(u, 1);
    }
  }

  /** The three-byte group of 0x800 <= u < 0x10000: the bytes the encoder's
      branch for that range pushes. */
  lemma EncodeThreeBytes(u: CodePoint)
    requires 0x800 <= u < 0x10000
    ensures EncodeCp(u) ==
      [(u / 0x1000) % 0x10 + 0xe0, (u / 0x40) % 0x40 + 0x80,
       u % 0x40 + 0x80]
  {
    ContinuationBytesTwo(u);
    calc {
      EncodeCp(u);
      [LeadByte(u, 2)] + ContinuationBytes(u, 2);
      [(u / 0x1000) % 0x10 + 0xe0] + ContinuationBytes(u, 2);
    }
  }

  /** The four-byte group of 0x10000 <= u < 0x200000: the bytes the encoder's
      branch for that range pushes. */
  lemma EncodeFourBytes(u: CodePoint)
    requires 0x10000 <= u < 0x200000
    ensures EncodeCp(u) ==
      [(u / 0x40000) % 0x08 + 0xf0, (u / 0x1000) % 0x40 + 0x80,
       (u / 0x40) % 0x40 + 0x80, u % 0x40 + 0x80]
  {
    ContinuationBytesThree(u);
    calc {
      EncodeCp(u);
      [LeadByte(u, 3)] + ContinuationBytes(u, 3);
      [(u / 0x40000) % 0x08 + 0xf0] + ContinuationBytes(u, 3);
    }
  }

  /** The five-byte group of 0x200000 <= u < 0x4000000: the bytes the encoder's
      branch for that range pushes. */
  lemma EncodeFiveBytes(u: CodePoint)
    requires 0x200000 <= u < 0x4000000
    ensures EncodeCp(u) ==
      [(u / 0x1000000) % 0x04 + 0xf8, (u / 0x40000) % 0x40 + 0x80,
       (u / 0x1000) % 0x40 + 0x80, (u / 0x40) % 0x40 + 0x80,
       u % 0x40 + 0x80]
  {
    ContinuationBytesFour(u);
    calc {
      EncodeCp(u);
      [LeadByte(u, 4)] + ContinuationBytes(u, 4);
      [(u / 0x1000000) % 0x04 + 0xf8] + ContinuationBytes(u, 4);
    }
  }

  /** The six-byte group of 0x4000000 <= u: the bytes the encoder's
      branch for that range pushes. */
  lemma EncodeSixBytes(u: CodePoint)
    requires 0x4000000 <= u
    ensures EncodeCp(u) ==
      [(u / 0x40000000) % 0x02 + 0xfc, (u / 0x1000000) % 0x40 + 0x80,
       (u / 0x40000) % 0x40 + 0x80, (u / 0x1000) % 0x40 + 0x80,
       (u / 0x40) % 0x40 + 0x80, u % 0x40 + 0x80]
  {
    ContinuationBytesFive(u);
    calc {
      EncodeCp(u);
      [LeadByte(u, 5)] + ContinuationBytes(u, 5);
      [(u / 0x40000000) % 0x02 + 0xfc] + ContinuationBytes(u, 5);
    }
  }

  // ---------------------------------------------------------------------
  // Encoding

  /** Encoding is a homomorphism from concatenation to concatenation. */
  lemma {:induction false} EncodeAppend(a: seq<CodePoint>, b: seq<CodePoint>)
    ensures Encode(a + b) == Encode(a) + Encode(b)
  {
    if a == [] {
      assert a + b == b;
    } else {
      assert (a + b)[1..] == a[1..] + b;
      EncodeAppend(a[1..], b);
    }
  }

  /** Encoding one more code point appends its byte group. */
  lemma EncodeSnoc(cs: seq<CodePoint>, i: nat)
    requires i < |cs|
    ensures Encode(cs[..i + 1]) == Encode(cs[..i]) + EncodeCp(cs[i])
  {
    assert cs[..i + 1] == cs[..i] + [cs[i]];
    EncodeAppend(cs[..i], [cs[i]]);
    assert Encode([cs[i]]) == EncodeCp(cs[i]) + Encode([]);
    assert EncodeCp(cs[i]) + [] == EncodeCp(cs[i]);
  }
}
