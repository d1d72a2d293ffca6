/**
 * The two operations of utf8unicode.hh, written as the loops they are: a
 * cursor walks the input and each step appends to the caller's container,
 * which is cleared first. The body of each loop (classify one lead byte or
 * one code point, then read or write its bytes) is a method of its own,
 * called once per step. Each operation is proved equal to its
 * specification in Utf8Spec.
 */
module Utf8Unicode {
  import opened Utf8Spec
  import opened Containers
  import Utf8Properties

  /** One step of the decoder at `cursor`: the length class of the lead
      byte (`offset` continuation bytes), whether all of its bytes are in
      the buffer, and then the code point they make. */
  method ReadSequence(utf8: seq<Byte>, cursor: nat) returns (complete: bool, offset: nat, e: CodePoint)
    requires cursor < |utf8|
    ensures offset == ContinuationCount(utf8[cursor])
    ensures complete <==> cursor + offset < |utf8|
    ensures complete ==> e == GroupValue(utf8[cursor..][..offset + 1])
  {
    var utf8Length := |utf8|;
    var p := utf8[cursor..];
    // The code point is built in an unbounded `v`; it is the group's value,
    // so it fits in the 32 bits of `e` once the group is complete.
    var v: int := 0;
    complete := true;
    if p[0] < 0xC0 {
      offset := 0;
      v := p[0];
      Utf8Properties.GroupValueOne(p[..1]);
      e := v;
    } else if p[0] < 0xE0 {
      offset := 1;
      if !CheckLength(cursor, offset, utf8Length) { return false, offset, 0; }
      v := (p[0] as int % 0x20) * 0x40;
      v := v + p[1] % 0x40;
      Utf8Properties.GroupValueTwo(p[..2]);
      e := v;
    } else if p[0] < 0xF0 {
      offset := 2;
      if !CheckLength(cursor, offset, utf8Length) { return false, offset, 0; }
      v := (p[0] as int % 0x10) * 0x1000;
      v := v + (p[1] as int % 0x40) * 0x40;
      v := v + p[2] % 0x40;
      Utf8Properties.GroupValueThree(p[..3]);
      e := v;
    } else if p[0] < 0xF8 {
      offset := 3;
      if !CheckLength(cursor, offset, utf8Length) { return false, offset, 0; }
      v := (p[0] as int % 0x08) * 0x40000;
      v := v + (p[1] as int % 0x40) * 0x1000;
      v := v + (p[2] as int % 0x40) * 0x40;
      v := v + p[3] % 0x40;
      Utf8Properties.GroupValueFour(p[..4]);
      e := v;
    } else if p[0] < 0xFC {
      offset := 4;
      if !CheckLength(cursor, offset, utf8Length) { return false, offset, 0; }
      v := (p[0] as int % 0x04) * 0x1000000;
      v := v + (p[1] as int % 0x40) * 0x40000;
      v := v + (p[2] as int % 0x40) * 0x1000;
      v := v + (p[3] as int % 0x40) * 0x40;
      v := v + p[4] % 0x40;
      Utf8Properties.GroupValueFive(p[..5]);
      e := v;
    } else {
      offset := 5;
      if !CheckLength(cursor, offset, utf8Length) { return false, offset, 0; }
      v := (p[0] as int % 0x02) * 0x40000000;
      v := v + (p[1] as int % 0x40) * 0x1000000;
      v := v + (p[2] as int % 0x40) * 0x40000;
      v := v + (p[3] as int % 0x40) * 0x1000;
      v := v + (p[4] as int % 0x40) * 0x40;
      v := v + p[5] % 0x40;
      Utf8Properties.GroupValueSix(p[..6]);
      e := v;
    }
  }

  /** Decodes `utf8` into `unicode`. Succeeds exactly when the specification
      decodes the buffer, and then leaves in `unicode` exactly its result,
      whatever `unicode` held before. On failure the partial contents of
      `unicode` are unspecified. */
  method Utf8ToUnicode(utf8: seq<Byte>, unicode: Vector<CodePoint>) returns (ok: bool)
    modifies unicode
    ensures ok <==> Decode(utf8).Some?
    ensures ok ==> unicode.elems == Decode(utf8).value
  {
    var utf8Length := |utf8|;
    var cursor := 0;
    unicode.Clear();
    Utf8Properties.DecodeFromStart(utf8);
    while cursor < utf8Length
      invariant 0 <= cursor <= utf8Length
      invariant Decode(utf8) == Prepend(unicode.elems, Decode(utf8[cursor..]))
      decreases utf8Length - cursor
    {
      var complete, offset, e := ReadSequence(utf8, cursor);
      if !complete {
        Utf8Properties.DecodeTruncatedAt(utf8, cursor);
        return false;
      }
      Utf8Properties.DecodeStep(utf8, cursor, unicode.elems);
      unicode.PushBack(e);
      cursor := cursor + offset + 1;
    }
    Utf8Properties.DecodeAtEnd(utf8, unicode.elems);
    return true;
  }

  /** One step of the encoder: appends the byte group of `u` to `utf8`;
      `offset` is the number of continuation bytes among them. */
  method PushCodePoint(u: CodePoint, utf8: Vector<Byte>) returns (offset: nat)
    modifies utf8
    ensures utf8.elems == old(utf8.elems) + EncodeCp(u)
    ensures offset + 1 == |EncodeCp(u)|
  {
    ghost var before := utf8.elems;
    if u < 0x80 {
      offset := 0;
      utf8.PushBack(u);
      Utf8Properties.EncodeOneByte(u);
    } else if u < 0x800 {
      offset := 1;
      utf8.PushBack((u / 0x40) % 0x20 + 0xc0);
      utf8.PushBack(u % 0x40 + 0x80);
      Utf8Properties.EncodeTwoBytes(u);
      PushedTwo(before, (u / 0x40) % 0x20 + 0xc0, u % 0x40 + 0x80);
    } else if u < 0x10000 {
      offset := 2;
      utf8.PushBack((u / 0x1000) % 0x10 + 0xe0);
      utf8.PushBack((u / 0x40) % 0x40 + 0x80);
      utf8.PushBack(u % 0x40 + 0x80);
      Utf8Properties.EncodeThreeBytes(u);
      PushedThree(before, (u / 0x1000) % 0x10 + 0xe0, (u / 0x40) % 0x40 + 0x80,
                  u % 0x40 + 0x80);
    } else if u < 0x200000 {
      offset := 3;
      utf8.PushBack((u / 0x40000) % 0x08 + 0xf0);
      utf8.PushBack((u / 0x1000) % 0x40 + 0x80);
      utf8.PushBack((u / 0x40) % 0x40 + 0x80);
      utf8.PushBack(u % 0x40 + 0x80);
      Utf8Properties.EncodeFourBytes(u);
      PushedFour(before, (u / 0x40000) % 0x08 + 0xf0, (u / 0x1000) % 0x40 + 0x80,
                 (u / 0x40) % 0x40 + 0x80, u % 0x40 + 0x80);
    } else if u < 0x4000000 {
      offset := 4;
      utf8.PushBack((u / 0x1000000) % 0x04 + 0xf8);
      utf8.PushBack((u / 0x40000) % 0x40 + 0x80);
      utf8.PushBack((u / 0x1000) % 0x40 + 0x80);
      utf8.PushBack((u / 0x40) % 0x40 + 0x80);
      utf8.PushBack(u % 0x40 + 0x80);
      Utf8Properties.EncodeFiveBytes(u);
      PushedFive(before, (u / 0x1000000) % 0x04 + 0xf8, (u / 0x40000) % 0x40 + 0x80,
                 (u / 0x1000) % 0x40 + 0x80, (u / 0x40) % 0x40 + 0x80, u % 0x40 + 0x80);
    } else {
      offset := 5;
      utf8.PushBack((u / 0x40000000) % 0x02 + 0xfc);
      utf8.PushBack((u / 0x1000000) % 0x40 + 0x80);
      utf8.PushBack((u / 0x40000) % 0x40 + 0x80);
      utf8.PushBack((u / 0x1000) % 0x40 + 0x80);
      utf8.PushBack((u / 0x40) % 0x40 + 0x80);
      utf8.PushBack(u % 0x40 + 0x80);
      Utf8Properties.EncodeSixBytes(u);
      PushedSix(before, (u / 0x40000000) % 0x02 + 0xfc, (u / 0x1000000) % 0x40 + 0x80,
                (u / 0x40000) % 0x40 + 0x80, (u / 0x1000) % 0x40 + 0x80,
                (u / 0x40) % 0x40 + 0x80, u % 0x40 + 0x80);
    }
  }

  /** Encodes `unicode` into `utf8`: afterwards `utf8` holds exactly the
      encoding of the whole input, whatever it held before. */
  method UnicodeToUtf8(unicode: seq<CodePoint>, utf8: Vector<Byte>)
    modifies utf8
    ensures utf8.elems == Encode(unicode)
  {
    var unicodeLength := |unicode|;
    var cursor := 0;
    utf8.Clear();
    while cursor < unicodeLength
      invariant 0 <= cursor <= unicodeLength
      invariant utf8.elems == Encode(unicode[..cursor])
    {
      var offset := PushCodePoint(unicode[cursor], utf8);
      Utf8Properties.EncodeSnoc(unicode, cursor);
      cursor := cursor + 1;
    }
    assert unicode[..cursor] == unicode;
  }
}
