/** Text: bytes with a lazily built, sparse character index and a one-entry cursor.
    Every lookup agrees with plain decoding. */
module TextIndex {
  import opened Wrappers
  import opened Utf8

  const STRIDE: nat := 64

  type Long = n: int | -0x8000_0000_0000_0000 <= n <= 0x7fff_ffff_ffff_ffff

  function Unsigned(n: Long): nat { n % 0x1_0000_0000_0000_0000 }

  /** The bytes before character `k`: the sum of the preceding widths. */
  ghost function Offset(cs: seq<int>, k: nat): nat
    requires AllScalar(cs) && k <= |cs|
  {
    |EncodeAll(cs[..k])|
  }

  lemma {:induction false} OffsetStep(cs: seq<int>, k: nat)
    requires AllScalar(cs) && k < |cs|
    ensures Encode(cs[k]).Some? && 1 <= |Encode(cs[k]).value| <= 4
    ensures Offset(cs, k + 1) == Offset(cs, k) + |Encode(cs[k]).value| <= |EncodeAll(cs)|
    ensures Decode(EncodeAll(cs)[Offset(cs, k)..]) == Character(cs[k], |Encode(cs[k]).value|)
  {
    hide Encode, Decode, EncodeAll;
    EncodeOne(cs[k]);
    assert cs[..k + 1] == cs[..k] + [cs[k]];
    EncodeConcat(cs[..k], [cs[k]]);
    assert cs == cs[..k + 1] + cs[k + 1..];
    EncodeConcat(cs[..k + 1], cs[k + 1..]);
    DecodeEncode(cs[k], EncodeAll(cs[k + 1..]));
    var head, one, rest := EncodeAll(cs[..k]), Encode(cs[k]).value, EncodeAll(cs[k + 1..]);
    assert (head + one + rest)[|head|..] == one + rest;
  }

  lemma OffsetEnds(cs: seq<int>)
    requires AllScalar(cs)
    ensures Offset(cs, 0) == 0 && Offset(cs, |cs|) == |EncodeAll(cs)|
  {
    assert cs[..|cs|] == cs;
  }

  lemma {:induction false} OffsetFits(cs: seq<int>, k: nat)
    requires AllScalar(cs) && k <= |cs|
    ensures k <= Offset(cs, k) <= |EncodeAll(cs)|
    ensures k < |cs| ==> Offset(cs, k) < |EncodeAll(cs)|
  {
    hide Encode, Decode, EncodeAll, Offset;
    if k < |cs| { OffsetStep(cs, k); }
    if k == 0 { OffsetEnds(cs); }
    else { OffsetStep(cs, k - 1); OffsetFits(cs, k - 1); }
  }

  lemma {:induction false} SliceBytes(cs: seq<int>, i: nat, j: nat)
    requires AllScalar(cs) && i <= j <= |cs|
    ensures Offset(cs, i) <= Offset(cs, j) <= |EncodeAll(cs)|
    ensures EncodeAll(cs)[Offset(cs, i)..Offset(cs, j)] == EncodeAll(cs[i..j])
  {
    hide Encode, Decode, EncodeAll;
    assert cs[..j] == cs[..i] + cs[i..j];
    EncodeConcat(cs[..i], cs[i..j]);
    assert cs == cs[..j] + cs[j..];
    EncodeConcat(cs[..j], cs[j..]);
    var a, b, c := EncodeAll(cs[..i]), EncodeAll(cs[i..j]), EncodeAll(cs[j..]);
    assert (a + b + c)[|a|..|a + b|] == b;
  }

  /* ---- the index as a value ---- */

  /** Breadcrumbs, then the cursor's position and byte. */
  ghost predicate Crumbs(cs: seq<int>, o: seq<nat>)
    requires AllScalar(cs)
  {
    && |o| == |cs| / STRIDE + 3
    && forall e: nat :: e <= |cs| / STRIDE ==> o[e] == Offset(cs, STRIDE * e)
  }

  ghost predicate Cursor(cs: seq<int>, o: seq<nat>)
    requires AllScalar(cs)
  {
    |o| >= 2 && o[|o| - 2] <= |cs| && o[|o| - 1] == Offset(cs, o[|o| - 2])
  }

  /** What the fields of a Text mean: an unknown length has no index; a known length
      without an index means ASCII; with one, it is right everywhere. */
  ghost predicate Indexed(bytes: seq<Byte>, length: int, index: Option<seq<nat>>) {
    if length < 0 then length == -1 && index.None?
    else
      var d := DecodeAll(bytes);
      && d.Some? && AllScalar(d.value) && |d.value| == length
      && match index
         case None => Ascii(bytes)
         case Some(o) => Crumbs(d.value, o) && Cursor(d.value, o)
  }

  /** Where a lookup starts: the cursor if it lies between the breadcrumb and the
      position, else the breadcrumb. */
  function From(o: seq<nat>, position: nat): nat
    requires |o| >= 2
  {
    var start := position / STRIDE * STRIDE;
    if start <= o[|o| - 2] <= position then o[|o| - 2] else start
  }

  /* ---- Text ---- */

  datatype Status = Done | InvalidUtf8 | NegativePosition | OutsideText | OutsideSlice

  class Text {
    var bytes: seq<Byte>
    var characterLength: Long
    var offsets: array?<nat>
    var decodes: nat

    ghost function Index(): Option<seq<nat>>
      reads this, offsets
    {
      if offsets == null then None else Some(offsets[..])
    }

    ghost predicate Valid()
      reads this, offsets
    {
      |bytes| <= 0x7fff_ffff_ffff_ffff && Indexed(bytes, characterLength, Index())
    }

    /** The characters, once they are known to be well formed. */
    ghost function Characters(): seq<int>
      reads this
      requires DecodeAll(bytes).Some?
    {
      DecodeAll(bytes).value
    }

    constructor (bytes: seq<Byte>, characterLength: Long)
      requires |bytes| <= 0x7fff_ffff_ffff_ffff && Indexed(bytes, characterLength, None)
      ensures Valid() && this.bytes == bytes && this.characterLength == characterLength && offsets == null &&
          decodes == 0
    {
      this.bytes, this.characterLength, offsets, decodes := bytes, characterLength, null, 0;
    }

    /* ---- building the index ---- */

    /** Eight bytes at a time, then one at a time, to the first byte above 127. */
    method SkipAscii() returns (byte: nat)
      ensures byte <= |bytes| && Ascii(bytes[..byte]) && (byte < |bytes| ==> bytes[byte] >= 0x80)
    {
      byte := 0;
      while |bytes| - byte >= 8
        invariant byte <= |bytes| && Ascii(bytes[..byte])
      {
        var window := bytes[byte..byte + 8];
        HighBitsExact(window);
        if HighBits(Word(window), 8) { break; }
        assert bytes[..byte + 8] == bytes[..byte] + window;
        byte := byte + 8;
      }
      while byte < |bytes| && bytes[byte] < 0x80
        invariant byte <= |bytes| && Ascii(bytes[..byte])
      {
        byte := byte + 1;
      }
    }

    /** The number of characters, or none if the bytes are not UTF-8. */
    method Count() returns (count: Option<nat>)
      ensures count.Some? <==> DecodeAll(bytes).Some?
      ensures count.Some? ==> AllScalar(Characters()) && |Characters()| == count.value
    {
      hide Decode, Encode, EncodeAll, DecodeAll;
      var byte := SkipAscii();
      var characters := byte;
      ghost var seen: seq<int> := bytes[..byte];
      AsciiEncodes(bytes[..byte]);
      while byte < |bytes|
        invariant byte <= |bytes| && |seen| == characters
        invariant AllScalar(seen) && EncodeAll(seen) == bytes[..byte]
      {
        var r := Decode(bytes[byte..]);
        if !r.Character? {
          NotDecoded(bytes, seen, byte);
          return None;
        }
        EncodeDecode(bytes[byte..]);
        EncodeOne(r.c);
        EncodeConcat(seen, [r.c]);
        assert bytes[..byte + r.width] == bytes[..byte] + bytes[byte..][..r.width];
        seen := seen + [r.c];
        byte := byte + r.width;
        characters := characters + 1;
      }
      assert bytes[..byte] == bytes;
      RoundTrip(bytes, seen);
      return Some(characters);
    }

    /** The second pass: one breadcrumb for each 64 characters. */
    method Fill(characters: nat) returns (o: array<nat>)
      requires DecodeAll(bytes).Some? && AllScalar(Characters()) && |Characters()| == characters
      ensures fresh(o) && Crumbs(Characters(), o[..])
    {
      hide Decode, Encode, EncodeAll, DecodeAll, Offset;
      ghost var cs := Characters();
      RoundTrip(bytes, cs);
      o := new nat[characters / STRIDE + 3];
      var byte, k := 0, 0;
      OffsetEnds(cs);
      while byte < |bytes|
        invariant k <= |cs| && byte == Offset(cs, k) <= |bytes| == |EncodeAll(cs)|
        invariant forall e: nat :: STRIDE * e < k ==> o[e] == Offset(cs, STRIDE * e)
      {
        if k == |cs| { assert false; }
        if k % STRIDE == 0 {
          o[k / STRIDE] := Narrow(byte);
        }
        OffsetStep(cs, k);
        k := k + 1;
        byte := byte + Decode(bytes[byte..]).width;
      }
      if k < |cs| { OffsetFits(cs, k); }
      if k % STRIDE == 0 {
        o[k / STRIDE] := Narrow(byte);
      }
    }

    method StoreCursor(position: nat, byte: nat)
      requires offsets != null && offsets.Length >= 2 && position <= |bytes| && byte <= |bytes|
      modifies offsets
      ensures offsets[..] == old(offsets[..])[offsets.Length - 2 := position][offsets.Length - 1 := byte]
    {
      var n := offsets.Length - 2;
      offsets[n] := Narrow(position);
      offsets[n + 1] := Narrow(byte);
    }

    /** Entries are 32 bits wide for Text of less than four gigabytes: nothing is lost. */
    function Narrow(n: nat): (r: nat)
      reads this
      requires n <= |bytes|
      ensures r == n
    {
      if |bytes| <= 0xffff_ffff then n % 0x1_0000_0000 else n
    }

    /** `build_text_index`. */
    method BuildIndex() returns (status: Status)
      requires Valid() && characterLength < 0
      modifies this
      ensures bytes == old(bytes) && decodes == old(decodes) && (status == Done || status == InvalidUtf8)
      ensures status == Done <==> DecodeAll(bytes).Some?
      ensures status == Done ==> Valid() && characterLength == |Characters()| && (offsets == null <==> Ascii(bytes))
      ensures offsets != null ==> fresh(offsets)
      ensures status != Done ==> Valid() && characterLength < 0
    {
      hide DecodeAll, Decode, Encode, EncodeAll, Offset;
      var count := Count();
      if count.None? { return InvalidUtf8; }
      ghost var cs := Characters();
      RoundTrip(bytes, cs);
      AsciiByLength(cs);
      if count.value == |bytes| {
        characterLength := count.value;
        return Done;
      }
      var o := Fill(count.value);
      offsets := o;
      characterLength := count.value;
      OffsetEnds(cs);
      StoreCursor(0, 0);
      CursorStored(cs, o[..], offsets[..]);
      return Done;
    }

    method Ensure() returns (status: Status)
      requires Valid()
      modifies this
      ensures bytes == old(bytes) && decodes == old(decodes) && (status == Done || status == InvalidUtf8)
      ensures status == Done <==> DecodeAll(bytes).Some?
      ensures Valid() && (status == Done ==> characterLength == |Characters()|)
      ensures old(characterLength) >= 0 ==> offsets == old(offsets)
      ensures offsets != old(offsets) ==> offsets != null && fresh(offsets)
    {
      status := Done;
      if characterLength < 0 { status := BuildIndex(); }
    }

    /* ---- lookups ---- */

    /** `indexed_byte_offset`: the sum of the preceding widths, after at most 63
        decodes, leaving the cursor there. */
    method ByteOffset(position: nat) returns (byte: nat)
      requires Valid() && offsets != null && position <= characterLength
      modifies offsets, this`decodes
      ensures Valid() && byte == Offset(Characters(), position)
      ensures offsets[offsets.Length - 2] == position
      ensures decodes - old(decodes) == position - From(old(offsets[..]), position) <= 63
    {
      hide DecodeAll, Decode, Encode, EncodeAll, Offset;
      ghost var cs := Characters();
      RoundTrip(bytes, cs);
      var n := offsets.Length - 2;
      var start := position / STRIDE * STRIDE;
      byte := offsets[position / STRIDE];
      if offsets[n] >= start && offsets[n] <= position {
        start, byte := offsets[n], offsets[n + 1];
      }
      ghost var o := offsets[..];
      assert start == From(o, position);
      while start < position
        invariant offsets[..] == o && From(o, position) <= start <= position && byte == Offset(cs, start)
        invariant decodes - old(decodes) == start - From(o, position)
      {
        OffsetStep(cs, start);
        byte := byte + Decode(bytes[byte..]).width;
        decodes := decodes + 1;
        start := start + 1;
      }
      OffsetFits(cs, position);
      StoreCursor(position, byte);
      CursorStored(cs, o, offsets[..]);
    }

    /** `indexed_character_at`: one more decode, and the cursor moves past it. */
    method IndexedCharacter(position: nat) returns (c: int)
      requires Valid() && offsets != null && position < characterLength
      modifies offsets, this`decodes
      ensures Valid() && c == Characters()[position]
      ensures offsets[offsets.Length - 2] == position + 1
      ensures decodes - old(decodes) == position - From(old(offsets[..]), position) + 1 <= 64
    {
      hide DecodeAll, Decode, Encode, EncodeAll, Offset;
      ghost var cs := Characters();
      RoundTrip(bytes, cs);
      var byte := ByteOffset(position);
      OffsetStep(cs, position);
      var r := Decode(bytes[byte..]);
      decodes := decodes + 1;
      ghost var o := offsets[..];
      OffsetFits(cs, position + 1);
      StoreCursor(position + 1, byte + r.width);
      CursorStored(cs, o, offsets[..]);
      return r.c;
    }

    /** `minyar_text_length`. */
    method Length() returns (status: Status, length: int)
      requires Valid()
      modifies this
      ensures Valid() && bytes == old(bytes)
      ensures status == (if old(characterLength) >= 0 || DecodeAll(bytes).Some? then Done else InvalidUtf8)
      ensures status == Done ==> DecodeAll(bytes).Some? && length == |Characters()|
    {
      status := Ensure();
      length := characterLength;
    }

    /** `minyar_text_character_at`: the plain decoding's character, or the error a
        bad position or bad bytes deserve. */
    method CharacterAt(position: Long) returns (status: Status, c: int)
      requires Valid()
      modifies this, offsets
      ensures Valid() && bytes == old(bytes)
      ensures old(characterLength) >= 0 ==> offsets == old(offsets) && characterLength == old(characterLength)
      ensures offsets != old(offsets) ==> offsets != null && fresh(offsets)
      ensures status == (if position < 0 then NegativePosition else if DecodeAll(bytes).None? then InvalidUtf8
                         else if position >= |Characters()| then OutsideText else Done)
      ensures status == Done ==> c == Characters()[position]
      ensures decodes - old(decodes) <= 64
      ensures status == Done && offsets != null ==> offsets[offsets.Length - 2] == position + 1
      ensures (status == Done && offsets != null && old(offsets) != null &&
               old(offsets[offsets.Length - 2]) == position) ==>
                decodes == old(decodes) + 1
    {
      hide DecodeAll, Crumbs;
      c := 0;
      if characterLength < 0 || Unsigned(position) >= Unsigned(characterLength) {
        if position < 0 { return NegativePosition, 0; }
        status := Ensure();
        if status != Done { return; }
        if position >= characterLength { return OutsideText, 0; }
      }
      status := Done;
      if offsets != null {
        c := IndexedCharacter(position);
      } else {
        AsciiCharacters(bytes);
        c := bytes[position];
      }
    }

    /** `minyar_text_slice`: the characters from `start` up to `end`, as a Text of
        their own. */
    method Slice(start: Long, end: Long) returns (status: Status, slice: Text?)
      requires Valid()
      modifies this, offsets
      ensures Valid() && bytes == old(bytes)
      ensures status == (if DecodeAll(bytes).None? then InvalidUtf8
                         else if 0 <= start <= end <= |Characters()| then Done else OutsideSlice)
      ensures slice == null <==> status != Done
      ensures status == Done ==> (slice == this || fresh(slice)) && slice.Valid() && AllScalar(Characters()[start..end])
                                 && slice.bytes == EncodeAll(Characters()[start..end])
    {
      hide DecodeAll, Decode, Encode, EncodeAll, Offset, Crumbs, Cursor;
      slice := null;
      status := Ensure();
      if status != Done { return; }
      ghost var cs := Characters();
      RoundTrip(bytes, cs);
      if start < 0 || end < start || end > characterLength { return OutsideSlice, null; }
      var first, last := start, end;
      if offsets != null {
        first := ByteOffset(start);
        last := ByteOffset(end);
      } else {
        AsciiOffsets(cs, start);
        AsciiOffsets(cs, end);
      }
      SliceBytes(cs, start, end);
      var length := last - first;
      if first == 0 && length == |bytes| {
        assert bytes[first..last] == bytes;
        return Done, this;
      }
      KnownSlice(cs[start..end]);
      slice := new Text(bytes[first..last], if length == end - start then end - start else -1);
    }

    /** The in-place branch of `minyar_join_text_take_left`, which adds two known
        lengths and drops the index. It keeps the invariant exactly when a length
        was unknown or neither Text had an index. */
    method JoinTakeLeft(right: Text)
      requires Valid() && right.Valid() && |bytes| + |right.bytes| <= 0x7fff_ffff_ffff_ffff
      modifies this
      ensures bytes == old(bytes) + old(right.bytes) && offsets == null
      ensures characterLength == JoinedLength(old(characterLength), old(right.characterLength))
      ensures Valid() <==> old(characterLength < 0 || right.characterLength < 0 || (Ascii(bytes) && Ascii(right.bytes)))
    {
      JoinedFits(bytes, characterLength, Index(), right.bytes, right.characterLength, right.Index());
      JoinKeeps(bytes, characterLength, Index(), right.bytes, right.characterLength, right.Index());
      bytes, characterLength, offsets := bytes + right.bytes, JoinedLength(characterLength, right.characterLength),
        null;
    }

    /** Reading a Text from the front decodes each character once, wherever the
        cursor was. */
    method Scan() returns (cs: seq<int>)
      requires Valid() && offsets != null
      modifies this, offsets
      ensures Valid() && bytes == old(bytes) && cs == Characters()
      ensures decodes == old(decodes) + |cs|
    {
      hide DecodeAll, Indexed;
      cs := [];
      ghost var o := offsets;
      IndexedMeans(bytes, characterLength, Index());
      while |cs| < characterLength
        invariant Valid() && bytes == old(bytes) && offsets == o && characterLength == old(characterLength)
        invariant |cs| <= characterLength && cs == Characters()[..|cs|]
        invariant o.Length >= 2 && (|cs| > 0 ==> o[o.Length - 2] == |cs|)
        invariant decodes == old(decodes) + |cs|
      {
        FirstFree(o[..]);
        IndexedMeans(bytes, characterLength, Index());
        var c := IndexedCharacter(|cs|);
        cs := cs + [c];
      }
    }
  }

  lemma IndexedMeans(bytes: seq<Byte>, length: int, index: Option<seq<nat>>)
    requires Indexed(bytes, length, index)
    ensures length < 0 ==> index.None?
    ensures length >= 0 ==> DecodeAll(bytes).Some? && |DecodeAll(bytes).value| == length
    ensures index.Some? ==> |index.value| >= 2
  {
  }

  lemma FirstFree(o: seq<nat>)
    requires |o| >= 2
    ensures From(o, 0) == 0 && From(o, o[|o| - 2]) == o[|o| - 2]
  {
  }

  lemma {:induction false} NotDecoded(bytes: seq<Byte>, seen: seq<int>, byte: nat)
    requires byte < |bytes| && AllScalar(seen) && EncodeAll(seen) == bytes[..byte] && !Decode(bytes[byte..]).Character?
    ensures DecodeAll(bytes).None?
  {
    hide Decode, Encode, EncodeAll;
    assert bytes == bytes[..byte] + bytes[byte..];
    DecodePrefix(seen, bytes[byte..]);
  }

  lemma CursorStored(cs: seq<int>, o: seq<nat>, o': seq<nat>)
    requires AllScalar(cs) && Crumbs(cs, o) && |o'| == |o|
    requires o' == o[|o| - 2 := o'[|o| - 2]][|o| - 1 := o'[|o| - 1]]
    ensures Crumbs(cs, o')
  {
    forall e: nat | e <= |cs| / STRIDE ensures o'[e] == Offset(cs, STRIDE * e) { assert o'[e] == o[e]; }
  }

  lemma AsciiCharacters(bytes: seq<Byte>)
    requires Ascii(bytes)
    ensures DecodeAll(bytes) == Some(bytes)
  {
    AsciiEncodes(bytes);
    RoundTrip(bytes, bytes);
  }

  lemma {:induction false} AsciiOffsets(cs: seq<int>, k: nat)
    requires AllScalar(cs) && Ascii(EncodeAll(cs)) && k <= |cs|
    ensures Offset(cs, k) == k
  {
    AsciiByLength(cs);
    assert Ascii(cs[..k]);
    AsciiEncodes(cs[..k]);
  }

  /** A slice with as many bytes as characters is ASCII, so its length may be kept. */
  lemma KnownSlice(cs: seq<int>)
    requires AllScalar(cs)
    ensures |EncodeAll(cs)| == |cs| ==> Indexed(EncodeAll(cs), |cs|, None)
    ensures Indexed(EncodeAll(cs), -1, None)
  {
    AsciiByLength(cs);
    RoundTrip(EncodeAll(cs), cs);
  }

  /* ---- joining in place ---- */

  function JoinedLength(left: int, right: int): int {
    if left >= 0 && right >= 0 then left + right else -1
  }

  /** Adding the lengths and clearing the index leaves a meaningful Text exactly when
      one length was unknown or both operands are ASCII. */
  lemma {:induction false} JoinKeeps(left: seq<Byte>, n: int, i: Option<seq<nat>>, right: seq<Byte>, m: int,
                                     j: Option<seq<nat>>)
    requires Indexed(left, n, i) && Indexed(right, m, j)
    ensures Indexed(left + right, JoinedLength(n, m), None) <==> n < 0 || m < 0 || (Ascii(left) && Ascii(right))
  {
    hide DecodeAll, EncodeAll, Crumbs, Cursor;
    if n >= 0 && m >= 0 {
      var a, b := DecodeAll(left).value, DecodeAll(right).value;
      RoundTrip(left, a);
      RoundTrip(right, b);
      EncodeConcat(a, b);
      RoundTrip(left + right, a + b);
      assert Ascii(left + right) <==> Ascii(left) && Ascii(right) by {
        if Ascii(left + right) {
          forall k | 0 <= k < |left| ensures left[k] < 0x80 { assert (left + right)[k] == left[k]; }
          forall k | 0 <= k < |right| ensures right[k] < 0x80 { assert (left + right)[|left| + k] == right[k]; }
        }
      }
    }
  }

  lemma JoinedFits(left: seq<Byte>, n: int, i: Option<seq<nat>>, right: seq<Byte>, m: int, j: Option<seq<nat>>)
    requires Indexed(left, n, i) && Indexed(right, m, j)
    ensures -1 <= JoinedLength(n, m) <= |left| + |right|
  {
    hide DecodeAll, EncodeAll, Crumbs, Cursor;
    if n >= 0 && m >= 0 {
      var a, b := DecodeAll(left).value, DecodeAll(right).value;
      RoundTrip(left, a);
      RoundTrip(right, b);
      AsciiByLength(a);
      AsciiByLength(b);
    }
  }

  /** The failing case: an indexed "é" joined with an "a" of known length. The join
      has two characters and no index, so position 0 is read as the byte 0xC3 where
      the character is 0xE9. */
  lemma JoinFails()
    ensures var left: seq<Byte> := [0xc3, 0xa9]; var right: seq<Byte> := [0x61];
      && Indexed(left, 1, Some([0, 0, 0])) && Indexed(right, 1, None)
      && !Indexed(left + right, JoinedLength(1, 1), None)
      && DecodeAll(left + right) == Some([0xe9, 0x61]) && (left + right)[0] == 0xc3
  {
    var left: seq<Byte>, right: seq<Byte> := [0xc3, 0xa9], [0x61];
    EncodeOne(0xe9);
    EncodeOne(0x61);
    EncodeConcat([0xe9], [0x61]);
    assert AllScalar([0xe9]) && AllScalar([0x61]) && [0xe9] + [0x61] == [0xe9, 0x61];
    RoundTrip(left, [0xe9]);
    RoundTrip(right, [0x61]);
    RoundTrip(left + right, [0xe9, 0x61]);
    OffsetEnds([0xe9]);
    assert Crumbs([0xe9], [0, 0, 0]);
    assert (left + right)[0] == 0xc3;
  }
}
