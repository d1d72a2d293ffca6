/**
 * What the codec promises, stated on the specification in Utf8Spec: the
 * lengths and byte classes of the encoding, the round trip for code points
 * of at most 31 bits, exactly when decoding fails, and the worked examples.
 */
module Utf8Theorems {
  import opened Utf8Spec
  import opened Utf8Properties

  // ---------------------------------------------------------------------
  // One code point

  /** The group of a code point has one byte per range of its value. */
  lemma EncodedLength(u: CodePoint)
    ensures u < 0x80 ==> |EncodeCp(u)| == 1
    ensures 0x80 <= u < 0x800 ==> |EncodeCp(u)| == 2
    ensures 0x800 <= u < 0x10000 ==> |EncodeCp(u)| == 3
    ensures 0x10000 <= u < 0x200000 ==> |EncodeCp(u)| == 4
    ensures 0x200000 <= u < 0x4000000 ==> |EncodeCp(u)| == 5
    ensures 0x4000000 <= u ==> |EncodeCp(u)| == 6
  {
  }

  /** Every byte after the first of a group lies in 0x80..0xBF. */
  lemma {:induction false} ContinuationBytesInRange(u: CodePoint, n: nat)
    requires n <= 5
    ensures forall i :: 0 <= i < |ContinuationBytes(u, n)| ==> 0x80 <= ContinuationBytes(u, n)[i] <= 0xBF
  {
    if n > 0 {
      ContinuationBytesInRange(u, n - 1);
    }
  }

  /** The bytes of a group: the lead byte falls in the decoder's class for
      the group's length and is never 0xFE or 0xFF, and every other byte is
      a continuation byte. */
  lemma ByteClasses(u: CodePoint)
    ensures ContinuationCount(EncodeCp(u)[0]) == |EncodeCp(u)| - 1
    ensures |EncodeCp(u)| == 1 ==> EncodeCp(u)[0] < 0x80
    ensures EncodeCp(u)[0] <= 0xFD
    ensures forall i :: 1 <= i < |EncodeCp(u)| ==> 0x80 <= EncodeCp(u)[i] <= 0xBF
  {
    var k := EncodedContinuationCount(u);
    if k > 0 {
      ContinuationBytesInRange(u, k);
      var g := EncodeCp(u);
      assert g[1..] == ContinuationBytes(u, k);
      assert forall i :: 1 <= i < |g| ==> g[i] == g[1..][i - 1];
    }
  }

  // Reading back the bytes the encoder writes, one length at a time.

  /** The arithmetic of reading back a two-byte group. */
  lemma ReadBackTwo(u: CodePoint)
    requires 0x80 <= u < 0x800
    ensures (((u / 0x40) % 0x20 + 0xc0) % 0x20) * 0x40
      + ((u % 0x40 + 0x80) % 0x40)
      == u
  {
    MarkerMasked(u / 0x40, 0x20, 0xc0);
    MarkerMasked(u, 0x40, 0x80);
    LeadBitsFit(u, 0x40, 0x20);
    SixBitGroups(u);
    var t1 := ((u / 0x40) % 0x20 + 0xc0) % 0x20;
    var t0 := (u % 0x40 + 0x80) % 0x40;
    var r1 := u / 0x40;
    var r0 := u % 0x40;
    SumOfGroups(u, 0, 0, 0, 0, t1, t0, 0, 0, 0, 0, r1, r0);
  }

  lemma GroupRoundTripTwo(u: CodePoint)
    requires 0x80 <= u < 0x800
    ensures GroupValue(EncodeCp(u)) == u
  {
    EncodeTwoBytes(u);
    GroupValueTwo(EncodeCp(u));
    ReadBackTwo(u);
  }

  /** The arithmetic of reading back a three-byte group. */
  lemma ReadBackThree(u: CodePoint)
    requires 0x800 <= u < 0x10000
    ensures (((u / 0x1000) % 0x10 + 0xe0) % 0x10) * 0x1000
      + (((u / 0x40) % 0x40 + 0x80) % 0x40) * 0x40
      + ((u % 0x40 + 0x80) % 0x40)
      == u
  {
    MarkerMasked(u / 0x1000, 0x10, 0xe0);
    MarkerMasked(u / 0x40, 0x40, 0x80);
    MarkerMasked(u, 0x40, 0x80);
    LeadBitsFit(u, 0x1000, 0x10);
    SixBitGroups(u);
    var t2 := ((u / 0x1000) % 0x10 + 0xe0) % 0x10;
    var t1 := ((u / 0x40) % 0x40 + 0x80) % 0x40;
    var t0 := (u % 0x40 + 0x80) % 0x40;
    var r2 := u / 0x1000;
    var r1 := (u / 0x40) % 0x40;
    var r0 := u % 0x40;
    SumOfGroups(u, 0, 0, 0, t2, t1, t0, 0, 0, 0, r2, r1, r0);
  }

  lemma GroupRoundTripThree(u: CodePoint)
    requires 0x800 <= u < 0x10000
    ensures GroupValue(EncodeCp(u)) == u
  {
    EncodeThreeBytes(u);
    GroupValueThree(EncodeCp(u));
    ReadBackThree(u);
  }

  /** The arithmetic of reading back a four-byte group. */
  lemma ReadBackFour(u: CodePoint)
    requires 0x10000 <= u < 0x200000
    ensures (((u / 0x40000) % 0x08 + 0xf0) % 0x08) * 0x40000
      + (((u / 0x1000) % 0x40 + 0x80) % 0x40) * 0x1000
      + (((u / 0x40) % 0x40 + 0x80) % 0x40) * 0x40
      + ((u % 0x40 + 0x80) % 0x40)
      == u
  {
    MarkerMasked(u / 0x40000, 0x08, 0xf0);
    MarkerMasked(u / 0x1000, 0x40, 0x80);
    MarkerMasked(u / 0x40, 0x40, 0x80);
    MarkerMasked(u, 0x40, 0x80);
    LeadBitsFit(u, 0x40000, 0x08);
    SixBitGroups(u);
    var t3 := ((u / 0x40000) % 0x08 + 0xf0) % 0x08;
    var t2 := ((u / 0x1000) % 0x40 + 0x80) % 0x40;
    var t1 := ((u / 0x40) % 0x40 + 0x80) % 0x40;
    var t0 := (u % 0x40 + 0x80) % 0x40;
    var r3 := u / 0x40000;
    var r2 := (u / 0x1000) % 0x40;
    var r1 := (u / 0x40) % 0x40;
    var r0 := u % 0x40;
    SumOfGroups(u, 0, 0, t3, t2, t1, t0, 0, 0, r3, r2, r1, r0);
  }

  lemma GroupRoundTripFour(u: CodePoint)
    requires 0x10000 <= u < 0x200000
    ensures GroupValue(EncodeCp(u)) == u
  {
    EncodeFourBytes(u);
    GroupValueFour(EncodeCp(u));
    ReadBackFour(u);
  }

  /** The arithmetic of reading back a five-byte group. */
  lemma ReadBackFive(u: CodePoint)
    requires 0x200000 <= u < 0x4000000
    ensures (((u / 0x1000000) % 0x04 + 0xf8) % 0x04) * 0x1000000
      + (((u / 0x40000) % 0x40 + 0x80) % 0x40) * 0x40000
      + (((u / 0x1000) % 0x40 + 0x80) % 0x40) * 0x1000
      + (((u / 0x40) % 0x40 + 0x80) % 0x40) * 0x40
      + ((u % 0x40 + 0x80) % 0x40)
      == u
  {
    MarkerMasked(u / 0x1000000, 0x04, 0xf8);
    MarkerMasked(u / 0x40000, 0x40, 0x80);
    MarkerMasked(u / 0x1000, 0x40, 0x80);
    MarkerMasked(u / 0x40, 0x40, 0x80);
    MarkerMasked(u, 0x40, 0x80);
    LeadBitsFit(u, 0x1000000, 0x04);
    SixBitGroups(u);
    var t4 := ((u / 0x1000000) % 0x04 + 0xf8) % 0x04;
    var t3 := ((u / 0x40000) % 0x40 + 0x80) % 0x40;
    var t2 := ((u / 0x1000) % 0x40 + 0x80) % 0x40;
    var t1 := ((u / 0x40) % 0x40 + 0x80) % 0x40;
    var t0 := (u % 0x40 + 0x80) % 0x40;
    var r4 := u / 0x1000000;
    var r3 := (u / 0x40000) % 0x40;
    var r2 := (u / 0x1000) % 0x40;
    var r1 := (u / 0x40) % 0x40;
    var r0 := u % 0x40;
    SumOfGroups(u, 0, t4, t3, t2, t1, t0, 0, r4, r3, r2, r1, r0);
  }

  lemma GroupRoundTripFive(u: CodePoint)
    requires 0x200000 <= u < 0x4000000
    ensures GroupValue(EncodeCp(u)) == u
  {
    EncodeFiveBytes(u);
    GroupValueFive(EncodeCp(u));
    ReadBackFive(u);
  }

  /** The arithmetic of reading back a six-byte group. */
  lemma ReadBackSix(u: CodePoint)
    requires 0x4000000 <= u < 0x8000_0000
    ensures (((u / 0x40000000) % 0x02 + 0xfc) % 0x02) * 0x40000000
      + (((u / 0x1000000) % 0x40 + 0x80) % 0x40) * 0x1000000
      + (((u / 0x40000) % 0x40 + 0x80) % 0x40) * 0x40000
      + (((u / 0x1000) % 0x40 + 0x80) % 0x40) * 0x1000
      + (((u / 0x40) % 0x40 + 0x80) % 0x40) * 0x40
      + ((u % 0x40 + 0x80) % 0x40)
      == u
  {
    MarkerMasked(u / 0x40000000, 0x02, 0xfc);
    MarkerMasked(u / 0x1000000, 0x40, 0x80);
    MarkerMasked(u / 0x40000, 0x40, 0x80);
    MarkerMasked(u / 0x1000, 0x40, 0x80);
    MarkerMasked(u / 0x40, 0x40, 0x80);
    MarkerMasked(u, 0x40, 0x80);
    LeadBitsFit(u, 0x40000000, 0x02);
    SixBitGroups(u);
    var t5 := ((u / 0x40000000) % 0x02 + 0xfc) % 0x02;
    var t4 := ((u / 0x1000000) % 0x40 + 0x80) % 0x40;
    var t3 := ((u / 0x40000) % 0x40 + 0x80) % 0x40;
    var t2 := ((u / 0x1000) % 0x40 + 0x80) % 0x40;
    var t1 := ((u / 0x40) % 0x40 + 0x80) % 0x40;
    var t0 := (u % 0x40 + 0x80) % 0x40;
    var r5 := u / 0x40000000;
    var r4 := (u / 0x1000000) % 0x40;
    var r3 := (u / 0x40000) % 0x40;
    var r2 := (u / 0x1000) % 0x40;
    var r1 := (u / 0x40) % 0x40;
    var r0 := u % 0x40;
    SumOfGroups(u, t5, t4, t3, t2, t1, t0, r5, r4, r3, r2, r1, r0);
  }

  lemma GroupRoundTripSix(u: CodePoint)
    requires 0x4000000 <= u < 0x8000_0000
    ensures GroupValue(EncodeCp(u)) == u
  {
    EncodeSixBytes(u);
    GroupValueSix(EncodeCp(u));
    ReadBackSix(u);
  }

  /** Decoding the group of a code point of at most 31 bits gives the code
      point back. */
  lemma GroupRoundTrip(u: CodePoint)
    requires u < 0x8000_0000
    ensures GroupValue(EncodeCp(u)) == u
  {
    if u < 0x80 {
      EncodeOneByte(u);
      GroupValueOne(EncodeCp(u));
    } else if u < 0x800 {
      GroupRoundTripTwo(u);
    } else if u < 0x10000 {
      GroupRoundTripThree(u);
    } else if u < 0x200000 {
      GroupRoundTripFour(u);
    } else if u < 0x4000000 {
      GroupRoundTripFive(u);
    } else {
      GroupRoundTripSix(u);
    }
  }

  // ---------------------------------------------------------------------
  // Whole buffers

  /** A complete group: its lead byte announces exactly the bytes after it. */
  predicate IsGroup(g: seq<Byte>)
  {
    1 <= |g| && ContinuationCount(g[0]) == |g| - 1
  }

  predicate AllGroups(gs: seq<seq<Byte>>)
  {
    forall i :: 0 <= i < |gs| ==> IsGroup(gs[i])
  }

  /** The bytes of a sequence of groups, in order. */
  function Concat(gs: seq<seq<Byte>>): seq<Byte>
  {
    if gs == [] then [] else gs[0] + Concat(gs[1..])
  }

  /** The code points of a sequence of complete groups, in order. */
  function Values(gs: seq<seq<Byte>>): (cs: seq<CodePoint>)
    requires AllGroups(gs)
    ensures |cs| == |gs|
  {
    if gs == [] then [] else [GroupValue(gs[0])] + Values(gs[1..])
  }

  /** A complete group at the front is decoded on its own. */
  lemma DecodeGroup(g: seq<Byte>, rest: seq<Byte>)
    requires IsGroup(g)
    ensures Decode(g + rest) == Prepend([GroupValue(g)], Decode(rest))
  {
    var bs := g + rest;
    var k := |g| - 1;
    assert bs[0] == g[0];
    assert bs[..k + 1] == g;
    assert bs[k + 1..] == rest;
  }

  /** Complete groups at the front are decoded one by one. */
  lemma {:induction false} DecodeGroups(gs: seq<seq<Byte>>, rest: seq<Byte>)
    requires AllGroups(gs)
    ensures Decode(Concat(gs) + rest) == Prepend(Values(gs), Decode(rest))
  {
    if gs == [] {
      assert Concat(gs) + rest == rest;
      PrependNothing(Decode(rest));
    } else {
      assert AllGroups(gs[1..]) by {
        forall i | 0 <= i < |gs[1..]| ensures IsGroup(gs[1..][i]) {
          assert gs[1..][i] == gs[i + 1];
        }
      }
      calc {
        Decode(Concat(gs) + rest);
        { assert Concat(gs) + rest == gs[0] + (Concat(gs[1..]) + rest); }
        Decode(gs[0] + (Concat(gs[1..]) + rest));
        { DecodeGroup(gs[0], Concat(gs[1..]) + rest); }
        Prepend([GroupValue(gs[0])], Decode(Concat(gs[1..]) + rest));
        { DecodeGroups(gs[1..], rest); }
        Prepend([GroupValue(gs[0])], Prepend(Values(gs[1..]), Decode(rest)));
        { PrependTwice([GroupValue(gs[0])], Values(gs[1..]), Decode(rest)); }
        Prepend(Values(gs), Decode(rest));
      }
    }
  }

  /** A buffer that decodes is a sequence of complete groups, and the
      decoded code points are their values. */
  lemma {:induction false} GroupsOfDecoded(bs: seq<Byte>) returns (gs: seq<seq<Byte>>)
    requires Decode(bs).Some?
    ensures AllGroups(gs) && Concat(gs) == bs && Decode(bs) == Some(Values(gs))
    decreases |bs|
  {
    if bs == [] {
      gs := [];
    } else {
      var k := ContinuationCount(bs[0]);
      var g, rest := bs[..k + 1], bs[k + 1..];
      assert Decode(bs) == Prepend([GroupValue(g)], Decode(rest));
      var more := GroupsOfDecoded(rest);
      gs := [g] + more;
      assert gs[0] == g && gs[1..] == more;
      assert IsGroup(g) by {
        assert g[0] == bs[0];
      }
      assert AllGroups(gs) by {
        forall i | 0 <= i < |gs| ensures IsGroup(gs[i]) {
          if i > 0 {
            assert gs[i] == more[i - 1];
          }
        }
      }
      assert Concat(gs) == g + Concat(more);
      assert bs == g + rest;
      assert Values(gs) == [GroupValue(g)] + Values(more);
    }
  }

  /** A buffer whose decoding fails is complete groups followed by a lead
      byte whose continuation bytes run past the end. */
  lemma {:induction false} GroupsOfTruncated(bs: seq<Byte>) returns (gs: seq<seq<Byte>>, tail: seq<Byte>)
    requires Decode(bs).None?
    ensures AllGroups(gs) && Concat(gs) + tail == bs
    ensures tail != [] && ContinuationCount(tail[0]) >= |tail|
    decreases |bs|
  {
    var k := ContinuationCount(bs[0]);
    if k >= |bs| {
      gs, tail := [], bs;
    } else {
      var g, rest := bs[..k + 1], bs[k + 1..];
      assert Decode(bs) == Prepend([GroupValue(g)], Decode(rest));
      var more, t := GroupsOfTruncated(rest);
      gs, tail := [g] + more, t;
      assert gs[1..] == more;
      assert AllGroups(gs) by {
        forall i | 0 <= i < |gs| ensures IsGroup(gs[i]) {
          if i > 0 {
            assert gs[i] == more[i - 1];
          }
        }
      }
      assert gs[0] == g;
      assert IsGroup(g) by {
        assert g[0] == bs[0];
      }
      assert Concat(gs) + tail == g + (Concat(more) + t);
      assert bs == g + rest;
    }
  }

  /** The decoder stops at the group boundary `|Concat(gs)|` of `bs`: the
      lead byte there announces more continuation bytes than are left. */
  predicate TruncatedAfter(bs: seq<Byte>, gs: seq<seq<Byte>>)
  {
    var i := |Concat(gs)|;
    AllGroups(gs) && i < |bs| && bs[..i] == Concat(gs) && i + ContinuationCount(bs[i]) >= |bs|
  }

  /** Decoding fails exactly when, at some cursor position reached by whole
      groups, a lead byte needs `k` continuation bytes and `i + k` is not
      inside the buffer. */
  lemma DecodeFailsIff(bs: seq<Byte>)
    ensures Decode(bs).None? <==> exists gs :: TruncatedAfter(bs, gs)
  {
    if Decode(bs).None? {
      var gs, tail := GroupsOfTruncated(bs);
      assert bs[..|Concat(gs)|] == Concat(gs);
      assert bs[|Concat(gs)|] == tail[0];
      assert TruncatedAfter(bs, gs);
    }
    if gs :| TruncatedAfter(bs, gs) {
      var i := |Concat(gs)|;
      var tail := bs[i..];
      assert bs == Concat(gs) + tail;
      assert tail[0] == bs[i];
      DecodeGroups(gs, tail);
    }
  }

  /** Decoding succeeds exactly when the buffer is a sequence of complete
      groups, and then yields their values. */
  lemma DecodeSucceedsIff(bs: seq<Byte>)
    ensures Decode(bs).Some? <==> exists gs :: AllGroups(gs) && Concat(gs) == bs
    ensures forall gs :: AllGroups(gs) && Concat(gs) == bs ==> Decode(bs) == Some(Values(gs))
  {
    if Decode(bs).Some? {
      var gs := GroupsOfDecoded(bs);
    }
    forall gs | AllGroups(gs) && Concat(gs) == bs
      ensures Decode(bs) == Some(Values(gs))
    {
      DecodeGroups(gs, []);
      assert Concat(gs) + [] == bs;
      assert Values(gs) + [] == Values(gs);
    }
  }

  // ---------------------------------------------------------------------
  // Round trip

  /** Encoding code points of at most 31 bits and decoding the bytes gives
      the code points back. */
  lemma {:induction false} RoundTrip(cs: seq<CodePoint>)
    requires forall i :: 0 <= i < |cs| ==> cs[i] < 0x8000_0000
    ensures Decode(Encode(cs)) == Some(cs)
  {
    if cs == [] {
    } else {
      var g := EncodeCp(cs[0]);
      ByteClasses(cs[0]);
      GroupRoundTrip(cs[0]);
      RoundTrip(cs[1..]);
      DecodeGroup(g, Encode(cs[1..]));
      assert [cs[0]] + cs[1..] == cs;
    }
  }

  // ---------------------------------------------------------------------
  // What a group decodes to

  /** Bytes below 0xC0, stray continuation bytes included, each decode to
      a code point equal to the byte. */
  lemma {:induction false} SingleBytesPassThrough(bs: seq<Byte>)
    requires forall i :: 0 <= i < |bs| ==> bs[i] < 0xC0
    ensures Decode(bs).Some? && |Decode(bs).value| == |bs|
    ensures forall i :: 0 <= i < |bs| ==> Decode(bs).value[i] == bs[i]
    decreases |bs|
  {
    if bs != [] {
      var rest := bs[1..];
      assert forall i :: 0 <= i < |rest| ==> rest[i] == bs[i + 1];
      SingleBytesPassThrough(rest);
      assert bs[..1] == [bs[0]];
      GroupValueOne(bs[..1]);
      assert Decode(bs) == Some([bs[0]] + Decode(rest).value);
    }
  }

  /** Two groups of the same length that agree on the lead byte and on the
      low six bits of the first `n - 1` continuation bytes assemble to the
      same value. */
  lemma {:induction false} AssembleLowBits(g: seq<Byte>, h: seq<Byte>, n: nat)
    requires 1 <= n <= |g| == |h| <= 6 && g[0] == h[0]
    requires forall j :: 1 <= j < n ==> g[j] % 0x40 == h[j] % 0x40
    ensures Assemble(g, n) == Assemble(h, n)
  {
    if n > 1 {
      AssembleLowBits(g, h, n - 1);
    }
  }

  /** The two high bits of a continuation byte do not matter to its group's
      value. */
  lemma ContinuationHighBitsIgnored(g: seq<Byte>, i: nat, b: Byte)
    requires 1 <= |g| <= 6 && 1 <= i < |g|
    requires b % 0x40 == g[i] % 0x40
    ensures GroupValue(g[i := b]) == GroupValue(g)
  {
    AssembleLowBits(g[i := b], g, |g|);
  }

  /** Every decoded code point fits in 31 bits. */
  lemma {:induction false} DecodedBelow31Bits(bs: seq<Byte>)
    requires Decode(bs).Some?
    ensures forall i :: 0 <= i < |Decode(bs).value| ==> Decode(bs).value[i] < 0x8000_0000
    decreases |bs|
  {
    if bs != [] {
      var k := ContinuationCount(bs[0]);
      var rest := bs[k + 1..];
      DecodedBelow31Bits(rest);
      var v := GroupValue(bs[..k + 1]);
      assert Decode(bs).value == [v] + Decode(rest).value;
    }
  }

  // ---------------------------------------------------------------------
  // Worked examples

  lemma EncodeExamples()
    ensures Encode([]) == []
    ensures EncodeCp(0x7F) == [0x7F]
    ensures EncodeCp(0x80) == [0xC2, 0x80]
    ensures EncodeCp(0x800) == [0xE0, 0xA0, 0x80]
    ensures EncodeCp(0x10000) == [0xF0, 0x90, 0x80, 0x80]
    ensures EncodeCp(0x4F60) == [0xE4, 0xBD, 0xA0]
    ensures Encode([0x4F60]) == [0xE4, 0xBD, 0xA0]
    ensures Encode([72, 101, 108, 108, 111]) == [72, 101, 108, 108, 111]
  {
    EncodeTwoBytes(0x80);
    EncodeThreeBytes(0x800);
    EncodeFourBytes(0x10000);
    EncodeThreeBytes(0x4F60);
  }

  /** A lead byte 0xE0 announces two continuation bytes: with fewer the
      buffer does not decode, with two it does. */
  lemma DecodeTruncationExamples()
    ensures Decode([]) == Some([])
    ensures Decode([0xE0]) == None
    ensures Decode([0xE0, 0x80]) == None
    ensures Decode([0xE0, 0x80, 0x80]) == Some([0])
  {
    var a: seq<Byte> := [0xE0, 0x80, 0x80];
    DecodeGroup(a, []);
    GroupValueThree(a);
    assert a + [] == a;
    assert GroupValue(a) == 0;
    assert [GroupValue(a)] + [] == [0];
  }

  lemma DecodeThreeByteExample()
    ensures Decode([0xE4, 0xBD, 0xA0]) == Some([0x4F60])
  {
    var b: seq<Byte> := [0xE4, 0xBD, 0xA0];
    DecodeGroup(b, []);
    GroupValueThree(b);
    assert b + [] == b;
    assert GroupValue(b) == 0x4F60;
    assert [GroupValue(b)] + [] == [0x4F60];
  }

  lemma DecodeAsciiExample()
    ensures Decode([72, 101, 108, 108, 111]) == Some([72, 101, 108, 108, 111])
  {
    var hello: seq<Byte> := [72, 101, 108, 108, 111];
    SingleBytesPassThrough(hello);
    assert Decode(hello).value == [72, 101, 108, 108, 111];
  }
}
