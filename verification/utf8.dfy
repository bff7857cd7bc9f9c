/** The UTF-8 codec of the runtime (sections 3 and 4 of RFC 3629): one character,
    then whole sequences, both ways. */
module Utf8 {
  import opened Wrappers

  type Byte = b: int | 0 <= b < 256

  /** The scalar values: every code point but the surrogates. */
  predicate Scalar(c: int) { 0 <= c <= 0x10ffff && !(0xd800 <= c <= 0xdfff) }

  predicate AllScalar(cs: seq<int>) { forall i :: 0 <= i < |cs| ==> Scalar(cs[i]) }

  /** A byte of the form 10xxxxxx. */
  predicate Continues(b: Byte) { 0x80 <= b < 0xc0 }

  /** The bits below `m`, a power of two. */
  function Low(b: int, m: int): int
    requires m > 0
  {
    b % m
  }

  datatype Decoded = Character(c: int, width: nat) | Invalid | Outside

  /** `decode_character` at the start of `bytes`, which are all that remain. */
  function Decode(bytes: seq<Byte>): Decoded {
    if |bytes| == 0 then Outside
    else
      var first := bytes[0];
      if first < 0x80 then Character(first, 1)
      else if 0xc2 <= first <= 0xdf && |bytes| >= 2 && Continues(bytes[1]) then
        Character(Low(first, 0x20) * 0x40 + Low(bytes[1], 0x40), 2)
      else if first / 0x10 == 0xe && |bytes| >= 3 && Continues(bytes[1]) && Continues(bytes[2])
              && (first != 0xe0 || bytes[1] >= 0xa0) && (first != 0xed || bytes[1] < 0xa0) then
        Character(Low(first, 0x10) * 0x1000 + Low(bytes[1], 0x40) * 0x40 + Low(bytes[2], 0x40), 3)
      else if 0xf0 <= first <= 0xf4 && |bytes| >= 4 && Continues(bytes[1]) && Continues(bytes[2]) && Continues(bytes[3])
              && (first != 0xf0 || bytes[1] >= 0x90) && (first != 0xf4 || bytes[1] < 0x90) then
        Character(Low(first, 8) * 0x40000 + Low(bytes[1], 0x40) * 0x1000 + Low(bytes[2], 0x40) * 0x40 + Low(bytes[3],
          0x40), 4)
      else Invalid
  }

  /** `encode_character`, which stops on anything but a scalar value. */
  function Encode(c: int): Option<seq<Byte>> {
    if c < 0 || c > 0x10ffff || (c >= 0xd800 && c <= 0xdfff) then None
    else if c < 0x80 then Some([c])
    else if c < 0x800 then Some([0xc0 + c / 0x40, 0x80 + c % 0x40])
    else if c < 0x10000 then Some([0xe0 + c / 0x1000, 0x80 + c / 0x40 % 0x40, 0x80 + c % 0x40])
    else Some([0xf0 + c / 0x40000, 0x80 + c / 0x1000 % 0x40, 0x80 + c / 0x40 % 0x40, 0x80 + c % 0x40])
  }

  /** Three six-bit digits below the leading one. */
  lemma Digits(c: nat)
    ensures c == c / 0x1000 * 0x1000 + c / 0x40 % 0x40 * 0x40 + c % 0x40
    ensures c == c / 0x40000 * 0x40000 + c / 0x1000 % 0x40 * 0x1000 + c / 0x40 % 0x40 * 0x40 + c % 0x40
  {
    var q := c / 0x40;
    var q' := q / 0x40;
    Again(c);
    Thrice(c, q');
  }

  lemma Again(c: nat)
    ensures c / 0x1000 == c / 0x40 / 0x40
  {
    var q := c / 0x40;
    var q' := q / 0x40;
    assert c == 0x1000 * q' + (q % 0x40 * 0x40 + c % 0x40);
  }

  lemma Thrice(c: nat, q: nat)
    requires q == c / 0x1000
    ensures c / 0x40000 == q / 0x40
  {
    var q' := q / 0x40;
    assert c == 0x40000 * q' + (q % 0x40 * 0x1000 + c % 0x1000);
  }

  /** Decoding what was encoded gives it back, whatever follows. */
  lemma DecodeEncode(c: int, rest: seq<Byte>)
    requires Scalar(c)
    ensures Encode(c).Some? && 1 <= |Encode(c).value| <= 4
    ensures Decode(Encode(c).value + rest) == Character(c, |Encode(c).value|)
  {
    if c < 0x800 { EncodeShort(c, rest); }
    else if c < 0x10000 { EncodeThree(c, rest); }
    else { EncodeFour(c, rest); }
  }

  lemma EncodeShort(c: int, rest: seq<Byte>)
    requires 0 <= c < 0x800
    ensures Decode(Encode(c).value + rest) == Character(c, |Encode(c).value|)
  {
    if c >= 0x80 {
      var b := Encode(c).value;
      var s := b + rest;
      assert s[0] == 0xc0 + c / 0x40 && s[1] == 0x80 + c % 0x40;
    }
  }

  lemma EncodeThree(c: int, rest: seq<Byte>)
    requires Scalar(c) && 0x800 <= c < 0x10000
    ensures Decode(Encode(c).value + rest) == Character(c, 3)
  {
    var x: Byte, y: Byte, z: Byte := 0xe0 + c / 0x1000, 0x80 + c / 0x40 % 0x40, 0x80 + c % 0x40;
    assert Encode(c).value == [x, y, z];
    Digits(c);
    DecodeThree([x, y, z] + rest, c / 0x1000, c / 0x40 % 0x40, c % 0x40);
  }

  /** Three bytes decode exactly when the digits make a scalar value that needs them. */
  lemma DecodeThree(s: seq<Byte>, x: nat, y: nat, z: nat)
    requires x < 0x10 && y < 0x40 && z < 0x40 && |s| >= 3 && s[0] == 0xe0 + x && s[1] == 0x80 + y && s[2] == 0x80 + z
    ensures var c := x * 0x1000 + y * 0x40 + z;
      Decode(s) == if c >= 0x800 && Scalar(c) then Character(c, 3) else Invalid
  {
    assert s[0] % 0x10 == x && s[0] / 0x10 == 0xe && s[1] % 0x40 == y && s[2] % 0x40 == z;
  }

  lemma EncodeFour(c: int, rest: seq<Byte>)
    requires 0x10000 <= c <= 0x10ffff
    ensures Decode(Encode(c).value + rest) == Character(c, 4)
  {
    var w: Byte, x: Byte, y: Byte, z: Byte := 0xf0 + c / 0x40000, 0x80 + c / 0x1000 % 0x40, 0x80 + c / 0x40 % 0x40,
      0x80 + c % 0x40;
    assert Encode(c).value == [w, x, y, z];
    Digits(c);
    DecodeFour([w, x, y, z] + rest, c / 0x40000, c / 0x1000 % 0x40, c / 0x40 % 0x40, c % 0x40);
  }

  lemma DecodeFour(s: seq<Byte>, w: nat, x: nat, y: nat, z: nat)
    requires w < 8 && x < 0x40 && y < 0x40 && z < 0x40
    requires |s| >= 4 && s[0] == 0xf0 + w && s[1] == 0x80 + x && s[2] == 0x80 + y && s[3] == 0x80 + z
    ensures var c := w * 0x40000 + x * 0x1000 + y * 0x40 + z;
      Decode(s) == if c >= 0x10000 && Scalar(c) then Character(c, 4) else Invalid
  {
    assert s[0] % 0x8 == w && s[0] / 0x10 == 0xf && s[1] % 0x40 == x && s[2] % 0x40 == y && s[3] % 0x40 == z;
  }

  /** What the decoder accepts is a scalar value, and re-encodes to the bytes read. */
  lemma EncodeDecode(s: seq<Byte>)
    requires Decode(s).Character?
    ensures var r := Decode(s); 1 <= r.width <= |s| && Scalar(r.c) && Encode(r.c) == Some(s[..r.width])
  {
    var r := Decode(s);
    if r.width == 1 {
      assert s[..1] == [s[0]];
    } else if r.width == 2 {
      TwoBack(s[0], s[1]);
      assert s[..2] == [s[0], s[1]];
    } else if r.width == 3 {
      DecodeThree(s, s[0] - 0xe0, s[1] - 0x80, s[2] - 0x80);
      ThreeBack(s[0], s[1], s[2]);
      assert s[..3] == [s[0], s[1], s[2]];
    } else {
      DecodeFour(s, s[0] - 0xf0, s[1] - 0x80, s[2] - 0x80, s[3] - 0x80);
      FourBack(s[0], s[1], s[2], s[3]);
      assert s[..4] == [s[0], s[1], s[2], s[3]];
    }
  }

  lemma TwoBack(x: Byte, y: Byte)
    requires 0xc2 <= x <= 0xdf && Continues(y)
    ensures Encode(Low(x, 0x20) * 0x40 + Low(y, 0x40)) == Some([x, y])
  {
    assert x % 0x20 == x - 0xc0 && y % 0x40 == y - 0x80;
  }

  lemma ThreeBack(x: Byte, y: Byte, z: Byte)
    requires 0xe0 <= x < 0xf0 && Continues(y) && Continues(z)
    requires var c := (x - 0xe0) * 0x1000 + (y - 0x80) * 0x40 + (z - 0x80); c >= 0x800 && Scalar(c)
    ensures Encode((x - 0xe0) * 0x1000 + (y - 0x80) * 0x40 + (z - 0x80)) == Some([x, y, z])
  {
    var c := (x - 0xe0) * 0x1000 + (y - 0x80) * 0x40 + (z - 0x80);
    assert c / 0x40 == (x - 0xe0) * 0x40 + (y - 0x80) && c % 0x40 == z - 0x80;
  }

  lemma FourBack(w: Byte, x: Byte, y: Byte, z: Byte)
    requires 0xf0 <= w < 0xf8 && Continues(x) && Continues(y) && Continues(z)
    requires var c := (w - 0xf0) * 0x40000 + (x - 0x80) * 0x1000 + (y - 0x80) * 0x40 + (z - 0x80);
      c >= 0x10000 && Scalar(c)
    ensures Encode((w - 0xf0) * 0x40000 + (x - 0x80) * 0x1000 + (y - 0x80) * 0x40 + (z - 0x80)) == Some([w, x, y, z])
  {
    var c := (w - 0xf0) * 0x40000 + (x - 0x80) * 0x1000 + (y - 0x80) * 0x40 + (z - 0x80);
    assert c / 0x40 == (w - 0xf0) * 0x1000 + (x - 0x80) * 0x40 + (y - 0x80) && c % 0x40 == z - 0x80;
    assert c / 0x1000 == (w - 0xf0) * 0x40 + (x - 0x80) && c / 0x40 % 0x40 == y - 0x80;
  }

  /* ---- sequences ---- */

  function EncodeAll(cs: seq<int>): seq<Byte>
    requires AllScalar(cs)
  {
    if cs == [] then [] else DecodeEncode(cs[0], []); Encode(cs[0]).value + EncodeAll(cs[1..])
  }

  /** Decoding to the end, one character after another. */
  function DecodeAll(bytes: seq<Byte>): Option<seq<int>>
    decreases |bytes|
  {
    if bytes == [] then Some([])
    else
      var r := Decode(bytes);
      if !r.Character? then None
      else
        EncodeDecode(bytes);
        var rest := DecodeAll(bytes[r.width..]);
        if rest.None? then None else Some([r.c] + rest.value)
  }

  /** Decoding after encoded characters starts where they end. */
  lemma {:induction false} DecodePrefix(cs: seq<int>, rest: seq<Byte>)
    requires AllScalar(cs)
    ensures var r := DecodeAll(rest);
      DecodeAll(EncodeAll(cs) + rest) == if r.None? then None else Some(cs + r.value)
    decreases |cs|
  {
    hide Decode, Encode;
    if cs == [] {
      assert EncodeAll(cs) + rest == rest;
      if DecodeAll(rest).Some? { assert cs + DecodeAll(rest).value == DecodeAll(rest).value; }
    } else {
      var tail := EncodeAll(cs[1..]) + rest;
      DecodeEncode(cs[0], tail);
      var head := Encode(cs[0]).value;
      var all := EncodeAll(cs) + rest;
      assert all == head + tail;
      assert all[|head|..] == tail;
      DecodePrefix(cs[1..], rest);
      assert cs == [cs[0]] + cs[1..];
      if DecodeAll(rest).Some? { assert [cs[0]] + (cs[1..] + DecodeAll(rest).value) == cs + DecodeAll(rest).value; }
    }
  }

  lemma {:induction false} ReEncode(bytes: seq<Byte>)
    requires DecodeAll(bytes).Some?
    ensures AllScalar(DecodeAll(bytes).value) && EncodeAll(DecodeAll(bytes).value) == bytes
    decreases |bytes|
  {
    hide Decode, Encode;
    if bytes != [] {
      EncodeDecode(bytes);
      var r := Decode(bytes);
      ReEncode(bytes[r.width..]);
      var rest := DecodeAll(bytes[r.width..]).value;
      assert ([r.c] + rest)[1..] == rest;
      assert bytes == bytes[..r.width] + bytes[r.width..];
    }
  }

  /** The round trip: `bytes` decode to `cs` exactly when `cs` are scalar values that
      encode to `bytes`. */
  lemma {:induction false} RoundTrip(bytes: seq<Byte>, cs: seq<int>)
    ensures DecodeAll(bytes) == Some(cs) <==> AllScalar(cs) && EncodeAll(cs) == bytes
  {
    if AllScalar(cs) && EncodeAll(cs) == bytes {
      DecodePrefix(cs, []);
      assert bytes + [] == bytes && cs + [] == cs;
    }
    if DecodeAll(bytes).Some? { ReEncode(bytes); }
  }

  lemma {:induction false} EncodeConcat(a: seq<int>, b: seq<int>)
    requires AllScalar(a) && AllScalar(b)
    ensures EncodeAll(a + b) == EncodeAll(a) + EncodeAll(b)
    decreases |a|
  {
    hide Encode;
    if a == [] {
      assert a + b == b;
    } else {
      assert (a + b)[1..] == a[1..] + b;
      EncodeConcat(a[1..], b);
    }
  }

  lemma EncodeOne(c: int)
    requires Scalar(c)
    ensures EncodeAll([c]) == Encode(c).value && Encode(c).Some? && 1 <= |Encode(c).value| <= 4
  {
    DecodeEncode(c, []);
  }

  /* ---- ASCII ---- */

  predicate Ascii(bytes: seq<Byte>) { forall i :: 0 <= i < |bytes| ==> bytes[i] < 0x80 }

  /** ASCII bytes are their own characters. */
  lemma {:induction false} AsciiEncodes(bytes: seq<Byte>)
    requires Ascii(bytes)
    ensures AllScalar(bytes) && EncodeAll(bytes) == bytes
  {
    if bytes != [] {
      AsciiEncodes(bytes[1..]);
      assert bytes == [bytes[0]] + bytes[1..];
    }
  }

  /** As many bytes as characters means every byte is ASCII, and only then. */
  lemma {:induction false} AsciiByLength(cs: seq<int>)
    requires AllScalar(cs)
    ensures |cs| <= |EncodeAll(cs)|
    ensures |EncodeAll(cs)| == |cs| <==> Ascii(EncodeAll(cs))
    ensures Ascii(EncodeAll(cs)) ==> EncodeAll(cs) == cs
    decreases |cs|
  {
    if cs != [] {
      var head, tail := Encode(cs[0]).value, EncodeAll(cs[1..]);
      AsciiByLength(cs[1..]);
      assert Ascii(head + tail) ==> Ascii(tail) by {
        if Ascii(head + tail) {
          forall i | 0 <= i < |tail| ensures tail[i] < 0x80 { assert (head + tail)[|head| + i] == tail[i]; }
        }
      }
      assert head[0] == (head + tail)[0];
      assert cs[0] < 0x80 ==> head == [cs[0]];
      assert cs[0] >= 0x80 ==> head[0] >= 0x80 && |head| >= 2;
      assert cs == [cs[0]] + cs[1..];
    }
  }

  /* ---- eight bytes at a time ---- */

  /** Bytes loaded as one number, the first least significant. */
  function Word(bytes: seq<Byte>): nat {
    if bytes == [] then 0 else bytes[0] + 256 * Word(bytes[1..])
  }

  /** `word & high_bits`: is bit 7, 15, 23, … of the low `count` bytes set? */
  predicate HighBits(word: nat, count: nat) {
    count > 0 && (word / 128 % 2 == 1 || HighBits(word / 256, count - 1))
  }

  /** The masked word is zero exactly when each byte is ASCII. */
  lemma {:induction false} HighBitsExact(bytes: seq<Byte>)
    ensures HighBits(Word(bytes), |bytes|) <==> !Ascii(bytes)
  {
    if bytes != [] {
      var w := Word(bytes[1..]);
      HighBitsExact(bytes[1..]);
      assert (bytes[0] + 256 * w) / 256 == w;
      assert (bytes[0] + 256 * w) / 128 == 2 * w + bytes[0] / 128;
      assert Ascii(bytes) <==> bytes[0] < 0x80 && Ascii(bytes[1..]) by {
        if Ascii(bytes[1..]) { forall i | 1 <= i < |bytes| ensures bytes[i] < 0x80 { assert bytes[1..][i - 1] ==
          bytes[i]; } }
      }
    }
  }
}
