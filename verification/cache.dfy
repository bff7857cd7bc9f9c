/** The module cache's envelope: character-counted UTF-8 fields, written by
    `publish_cache` and read back by `valid_cache`. */
module Cache {
  import opened Wrappers
  import opened Utf8

  const CACHE_LIMIT: nat := 64 * 1024 * 1024

  /** A further digit is refused above this. */
  const DIGIT_LIMIT: nat := (CACHE_LIMIT - 9) / 10

  /** The largest count a reader takes. */
  const COUNT_LIMIT: nat := DIGIT_LIMIT * 10 + 9

  /* ---- writing ---- */

  /** Bytes that begin a character. */
  function CharacterCount(s: seq<Byte>): nat {
    if s == [] then 0 else CharacterCount(s[..|s| - 1]) + if Continues(s[|s| - 1]) then 0 else 1
  }

  method CountCharacters(s: seq<Byte>) returns (count: nat)
    ensures count == CharacterCount(s)
  {
    count := 0;
    for i := 0 to |s|
      invariant count == CharacterCount(s[..i])
    {
      assert s[..i + 1][..i] == s[..i];
      if !Continues(s[i]) { count := count + 1; }
    }
    assert s[..|s|] == s;
  }

  lemma {:induction false} CountConcat(a: seq<Byte>, b: seq<Byte>)
    ensures CharacterCount(a + b) == CharacterCount(a) + CharacterCount(b)
  {
    if b == [] {
      assert a + b == a;
    } else {
      assert (a + b)[..|a + b| - 1] == a + b[..|b| - 1];
      CountConcat(a, b[..|b| - 1]);
    }
  }

  /** Of a well-formed field, it is the number of characters. */
  lemma {:induction false} CountExact(cs: seq<int>)
    requires AllScalar(cs)
    ensures CharacterCount(EncodeAll(cs)) == |cs|
    decreases |cs|
  {
    if cs != [] {
      CountExact(cs[1..]);
      EncodeOne(cs[0]);
      CountOne(cs[0]);
      hide Encode, CharacterCount;
      CountConcat(Encode(cs[0]).value, EncodeAll(cs[1..]));
    }
  }

  lemma CountOne(c: int)
    requires Scalar(c)
    ensures Encode(c).Some? && CharacterCount(Encode(c).value) == 1
  {
    var b := Encode(c).value;
    assert CharacterCount([]) == 0;
    assert CharacterCount(b[..1]) == 1 by { assert b[..1][..0] == []; }
    if |b| >= 2 { assert b[..2][..1] == b[..1]; assert CharacterCount(b[..2]) == 1; }
    if |b| >= 3 { assert b[..3][..2] == b[..2]; assert CharacterCount(b[..3]) == 1; }
    if |b| >= 4 { assert b[..4][..3] == b[..3]; assert CharacterCount(b[..4]) == 1; }
    assert b[..|b|] == b;
  }

  lemma {:induction false} CountBound(s: seq<Byte>)
    ensures CharacterCount(s) <= |s|
  {
    if s != [] { CountBound(s[..|s| - 1]); }
  }

  function Decimal(n: nat): seq<Byte> {
    if n < 10 then [48 + n] else Decimal(n / 10) + [48 + n % 10]
  }

  const NEWLINE: Byte := 10

  /** `write_field`. */
  function WriteField(data: seq<Byte>): seq<Byte> {
    Decimal(CharacterCount(data)) + ([NEWLINE] + data)
  }

  function WriteFields(fields: seq<seq<Byte>>): seq<Byte> {
    if fields == [] then [] else WriteField(fields[0]) + WriteFields(fields[1..])
  }

  /* ---- reading, as a function of the bytes that remain ---- */

  predicate Digit(b: Byte) { 48 <= b <= 57 }

  function Prefix(rest: seq<Byte>, count: nat, digits: bool): Option<(nat, seq<Byte>)> {
    if rest != [] && Digit(rest[0]) then
      if count > DIGIT_LIMIT then None else Prefix(rest[1..], count * 10 + (rest[0] - 48), true)
    else if !digits || rest == [] || rest[0] != NEWLINE then None
    else Some((count, rest[1..]))
  }

  /** The bytes of the first `n` characters. */
  function Take(rest: seq<Byte>, n: nat): (r: Option<nat>)
    ensures r.Some? ==> r.value <= |rest|
    decreases n
  {
    if n == 0 then Some(0)
    else
      var d := Decode(rest);
      if !d.Character? then None
      else
        EncodeDecode(rest);
        var r := Take(rest[d.width..], n - 1);
        if r.None? then None else Some(d.width + r.value)
  }

  /** A field's value and what follows it. */
  function FieldOf(rest: seq<Byte>): Option<(seq<Byte>, seq<Byte>)> {
    var p := Prefix(rest, 0, false);
    if p.None? then None
    else
      var (n, body) := p.value;
      var k := Take(body, n);
      if k.None? then None else Some((body[..k.value], body[k.value..]))
  }

  lemma {:induction false} PrefixDecimal(n: nat, tail: seq<Byte>)
    ensures Prefix(Decimal(n) + tail, 0, false) == if n / 10 <= DIGIT_LIMIT then Prefix(tail, n, true) else None
  {
    if n < 10 {
      assert ([48 + n] + tail)[1..] == tail;
    } else {
      var last := [48 + n % 10] + tail;
      assert Decimal(n) + tail == Decimal(n / 10) + last;
      PrefixDecimal(n / 10, last);
      assert last[1..] == tail;
    }
  }

  lemma {:induction false} TakeEncoded(cs: seq<int>, tail: seq<Byte>)
    requires AllScalar(cs)
    ensures Take(EncodeAll(cs) + tail, |cs|) == Some(|EncodeAll(cs)|)
    decreases |cs|
  {
    hide Decode, Encode, Take;
    if cs == [] {
      TakeNone(EncodeAll(cs) + tail);
    } else {
      var rest := EncodeAll(cs[1..]) + tail;
      DecodeEncode(cs[0], rest);
      TakeStep(Encode(cs[0]).value + rest, |cs|);
      var head := Encode(cs[0]).value;
      assert EncodeAll(cs) + tail == head + rest;
      assert (head + rest)[|head|..] == rest;
      TakeEncoded(cs[1..], tail);
    }
  }

  /** What is taken is well formed and has the count asked for. */
  lemma {:induction false} TakeDecodes(rest: seq<Byte>, n: nat)
    requires Take(rest, n).Some?
    ensures var d := DecodeAll(rest[..Take(rest, n).value]); d.Some? && |d.value| == n
    decreases n
  {
    hide Decode, Encode;
    if n > 0 {
      EncodeDecode(rest);
      var d := Decode(rest);
      TakeDecodes(rest[d.width..], n - 1);
      var k := Take(rest[d.width..], n - 1).value;
      var more := rest[d.width..][..k];
      assert rest[..d.width + k] == rest[..d.width] + more;
      EncodeOne(d.c);
      DecodePrefix([d.c], more);
    }
  }

  /** A written field is read back exactly, whatever follows, if its count is within
      the reader's limit; above it the reader refuses. */
  lemma {:induction false} FieldRoundTrip(data: seq<Byte>, tail: seq<Byte>)
    requires DecodeAll(data).Some?
    ensures FieldOf(WriteField(data) + tail) == if CharacterCount(data) <= COUNT_LIMIT then Some((data, tail)) else None
  {
    hide Decode, Encode, EncodeAll, DecodeAll, Take, CharacterCount, Decimal;
    ReEncode(data);
    var cs := DecodeAll(data).value;
    CountExact(cs);
    var n := CharacterCount(data);
    var rest := [NEWLINE] + (data + tail);
    assert WriteField(data) + tail == Decimal(n) + rest;
    PrefixDecimal(n, rest);
    assert rest[1..] == data + tail;
    TakeEncoded(cs, tail);
    assert (data + tail)[..|data|] == data && (data + tail)[|data|..] == tail;
  }

  /** Any field at all: if it is read, its value is well formed. */
  lemma FieldDecodes(rest: seq<Byte>)
    requires FieldOf(rest).Some?
    ensures DecodeAll(FieldOf(rest).value.0).Some?
  {
    var (n, body) := Prefix(rest, 0, false).value;
    TakeDecodes(body, n);
  }

  function ReadFields(rest: seq<Byte>, k: nat): Option<(seq<seq<Byte>>, seq<Byte>)>
    decreases k
  {
    if k == 0 then Some(([], rest))
    else
      var f := FieldOf(rest);
      if f.None? then None
      else
        var r := ReadFields(f.value.1, k - 1);
        if r.None? then None else Some(([f.value.0] + r.value.0, r.value.1))
  }

  /** Lists of well-formed fields within the limit are read back exactly. */
  lemma {:induction false} FieldsRoundTrip(fields: seq<seq<Byte>>, tail: seq<Byte>)
    requires forall i :: 0 <= i < |fields| ==> DecodeAll(fields[i]).Some? && CharacterCount(fields[i]) <= COUNT_LIMIT
    ensures ReadFields(WriteFields(fields) + tail, |fields|) == Some((fields, tail))
  {
    hide DecodeAll, CharacterCount, FieldOf, WriteField;
    if fields == [] {
      assert WriteFields(fields) + tail == tail;
    } else {
      var rest := WriteFields(fields[1..]) + tail;
      assert WriteFields(fields) + tail == WriteField(fields[0]) + rest;
      FieldRoundTrip(fields[0], rest);
      FieldsRoundTrip(fields[1..], tail);
      assert [fields[0]] + fields[1..] == fields;
    }
  }

  /** The number decimal digits spell. */
  function Number(digits: seq<Byte>): int {
    if digits == [] then 0 else Number(digits[..|digits| - 1]) * 10 + digits[|digits| - 1] - 48
  }

  predicate AllDigits(s: seq<Byte>) { forall i :: 0 <= i < |s| ==> Digit(s[i]) }

  /** The bytes of one field: its count in decimal, leading zeros allowed, a newline and
      that many characters. */
  ghost predicate SpellsField(b: seq<Byte>, value: seq<Byte>) {
    exists k :: 0 < k < |b| && CountedFrom(b, k, value)
  }

  predicate CountedFrom(b: seq<Byte>, k: nat, value: seq<Byte>)
    requires k < |b|
  {
    && AllDigits(b[..k]) && b[k] == NEWLINE && b[k + 1..] == value
    && DecodeAll(value).Some? && Number(b[..k]) == |DecodeAll(value).value| <= COUNT_LIMIT
  }

  /** The bytes of the fields, one after the other and nothing more. */
  ghost predicate SpellsFields(b: seq<Byte>, fields: seq<seq<Byte>>)
    decreases |fields|
  {
    if fields == [] then b == []
    else exists k :: 0 <= k <= |b| && SpellsField(b[..k], fields[0]) && SpellsFields(b[k..], fields[1..])
  }

  lemma {:induction false} NumberGrows(digits: seq<Byte>, k: nat)
    requires AllDigits(digits) && k <= |digits|
    ensures 0 <= Number(digits[..k]) <= Number(digits) && (k < |digits| ==> 10 * Number(digits[..k]) <= Number(digits))
  {
    if k < |digits| {
      var more := digits[..|digits| - 1];
      NumberGrows(more, k);
      assert more[..k] == digits[..k];
    } else if k > 0 {
      NumberGrows(digits[..k - 1], k - 1);
      assert digits[..k] == digits && digits[..k - 1][..k - 1] == digits[..k - 1];
    }
  }

  /** The reader's count after the first `k` digits of a field spelled. */
  lemma {:induction false} PrefixReads(b: seq<Byte>, k: nat, i: nat, tail: seq<Byte>)
    requires i <= k < |b| && 0 < k && AllDigits(b[..k]) && b[k] == NEWLINE && Number(b[..k]) <= COUNT_LIMIT
    ensures Number(b[..i]) >= 0
    ensures Prefix((b + tail)[i..], Number(b[..i]), i > 0) == Some((Number(b[..k]), b[k + 1..] + tail))
    decreases k - i
  {
    var rest := (b + tail)[i..];
    NumberGrows(b[..k], i);
    assert b[..k][..i] == b[..i];
    assert rest[1..] == (b + tail)[i + 1..];
    if i < k {
      assert rest[0] == b[..k][i];
      PrefixReads(b, k, i + 1, tail);
      assert b[..i + 1][..i] == b[..i];
    } else {
      assert rest[1..] == b[k + 1..] + tail;
    }
  }

  /** What a prefix reads is digits, their number, and a newline. */
  lemma {:induction false} PrefixSpells(all: seq<Byte>, i: nat) returns (k: nat)
    requires i <= |all| && AllDigits(all[..i]) && Number(all[..i]) >= 0
    requires i > 0 ==> Number(all[..i]) <= COUNT_LIMIT
    requires Prefix(all[i..], Number(all[..i]), i > 0).Some?
    ensures 0 < k < |all| && AllDigits(all[..k]) && all[k] == NEWLINE && Number(all[..k]) <= COUNT_LIMIT
    ensures Prefix(all[i..], Number(all[..i]), i > 0).value == (Number(all[..k]), all[k + 1..])
    decreases |all| - i
  {
    assert i < |all| ==> all[i..][0] == all[i] && all[i..][1..] == all[i + 1..];
    if i < |all| && Digit(all[i]) {
      assert all[..i + 1][..i] == all[..i];
      k := PrefixSpells(all, i + 1);
    } else {
      k := i;
    }
  }

  /** A field is read, with what follows it, exactly when its bytes spell it. */
  lemma {:induction false} FieldExactly(rest: seq<Byte>, value: seq<Byte>, tail: seq<Byte>)
    ensures FieldOf(rest) == Some((value, tail)) <==>
        exists k :: 0 <= k <= |rest| && SpellsField(rest[..k], value) && rest[k..] == tail
  {
    if FieldOf(rest) == Some((value, tail)) { ReadIsSpelled(rest); }
    if k :| 0 <= k <= |rest| && SpellsField(rest[..k], value) && rest[k..] == tail {
      assert rest == rest[..k] + tail;
      SpelledIsRead(rest[..k], value, tail);
    }
  }

  lemma {:induction false} SpelledIsRead(b: seq<Byte>, value: seq<Byte>, tail: seq<Byte>)
    requires SpellsField(b, value)
    ensures FieldOf(b + tail) == Some((value, tail))
  {
    hide DecodeAll, Take, Prefix, Number;
    var k :| 0 < k < |b| && CountedFrom(b, k, value);
    NumberNone();
    assert b[..0] == [] && (b + tail)[0..] == b + tail;
    PrefixReads(b, k, 0, tail);
    ReEncode(value);
    TakeEncoded(DecodeAll(value).value, tail);
    assert (value + tail)[..|value|] == value && (value + tail)[|value|..] == tail;
  }

  lemma NumberNone()
    ensures Number([]) == 0
  {
  }

  lemma {:induction false} ReadIsSpelled(rest: seq<Byte>)
    requires FieldOf(rest).Some?
    ensures var (value, tail) := FieldOf(rest).value;
      exists k :: 0 <= k <= |rest| && SpellsField(rest[..k], value) && rest[k..] == tail
  {
    hide DecodeAll, Take, Prefix, Number;
    NumberNone();
    assert rest[..0] == [] && rest[0..] == rest;
    var d := PrefixSpells(rest, 0);
    var n := Number(rest[..d]);
    var body := rest[d + 1..];
    TakeDecodes(body, n);
    var k := d + 1 + Take(body, n).value;
    var b := rest[..k];
    assert b[..d] == rest[..d] && b[d + 1..] == body[..k - d - 1] && rest[k..] == body[k - d - 1..];
    assert CountedFrom(b, d, body[..k - d - 1]);
  }

  /** Fields are read, to the end, exactly when the bytes spell them and nothing more. */
  lemma {:induction false} FieldsExactly(all: seq<Byte>, fields: seq<seq<Byte>>)
    ensures ReadFields(all, |fields|) == Some((fields, [])) <==> SpellsFields(all, fields)
    decreases |fields|
  {
    hide FieldOf, SpellsField;
    if fields != [] {
      var f := FieldOf(all);
      if f.Some? {
        FieldExactly(all, f.value.0, f.value.1);
        FieldsExactly(f.value.1, fields[1..]);
        assert fields == [fields[0]] + fields[1..];
      }
      forall k | 0 <= k <= |all| && SpellsField(all[..k], fields[0])
        ensures FieldOf(all) == Some((fields[0], all[k..]))
      {
        FieldExactly(all, fields[0], all[k..]);
      }
    }
  }

  /* ---- the reader itself ---- */

  /** The reader's own test of one character: its width, or none. */
  method CharacterWidth(all: seq<Byte>, i: nat) returns (width: Option<nat>)
    requires i <= |all|
    ensures var d := Decode(all[i..]); width == if d.Character? then Some(d.width) else None
  {
    if i >= |all| { return None; }
    var rest := all[i..];
    var lead := all[i];
    var w := 0;
    if lead < 0x80 { w := 1; }
    else if 0xc2 <= lead <= 0xdf { w := 2; }
    else if 0xe0 <= lead <= 0xef { w := 3; }
    else if 0xf0 <= lead <= 0xf4 { w := 4; }
    else { return None; }
    if w > |all| - i { return None; }
    for j := 1 to w
      invariant forall k :: 1 <= k < j ==> Continues(rest[k])
    {
      if !Continues(all[i + j]) {
        assert !Continues(rest[j]);
        return None;
      }
    }
    if w == 3 && ((lead == 0xe0 && all[i + 1] < 0xa0) || (lead == 0xed && all[i + 1] >= 0xa0)) { return None; }
    if w == 4 && ((lead == 0xf0 && all[i + 1] < 0x90) || (lead == 0xf4 && all[i + 1] >= 0x90)) { return None; }
    return Some(w);
  }

  function Shift(r: Option<nat>, k: nat): Option<nat> { if r.None? then None else Some(k + r.value) }

  lemma TakeStep(rest: seq<Byte>, n: nat)
    requires n > 0
    ensures var d := Decode(rest);
      && (d.Character? ==> 1 <= d.width <= |rest| && Take(rest, n) == Shift(Take(rest[d.width..], n - 1), d.width))
      && (!d.Character? ==> Take(rest, n).None?)
  {
    if Decode(rest).Character? { EncodeDecode(rest); }
  }

  lemma AsciiHead(rest: seq<Byte>, k: nat)
    requires 0 < k <= |rest| && Ascii(rest[..k])
    ensures Decode(rest) == Character(rest[0], 1) && Ascii(rest[1..][..k - 1])
  {
    assert rest[..k][0] == rest[0];
    var tail := rest[1..][..k - 1];
    forall i | 0 <= i < |tail| ensures tail[i] < 0x80 { assert tail[i] == rest[..k][i + 1]; }
  }

  /** Skipping ASCII bytes takes as many characters. */
  lemma {:induction false} TakeAscii(rest: seq<Byte>, k: nat, n: nat)
    requires k <= |rest| && k <= n && Ascii(rest[..k])
    ensures Take(rest, n) == Shift(Take(rest[k..], n - k), k)
    decreases k
  {
    hide Take, Decode, Ascii;
    if k == 0 {
      assert rest[k..] == rest;
    } else {
      AsciiHead(rest, k);
      TakeStep(rest, n);
      TakeAscii(rest[1..], k - 1, n - 1);
      assert rest[1..][k - 1..] == rest[k..];
    }
  }

  /** The prefix loop. */
  method ReadPrefix(all: seq<Byte>, cursor: nat) returns (r: Option<(nat, nat)>)
    requires cursor <= |all|
    ensures var p := Prefix(all[cursor..], 0, false);
      && (r.None? <==> p.None?)
      && (r.Some? ==> r.value.1 <= |all| && p.value == (r.value.0, all[r.value.1..]))
  {
    var i, count: nat, digits: nat := cursor, 0, 0;
    while i < |all| && Digit(all[i])
      invariant i <= |all|
      invariant Prefix(all[cursor..], 0, false) == Prefix(all[i..], count, digits > 0)
    {
      if count > DIGIT_LIMIT { return None; }
      assert all[i..][1..] == all[i + 1..];
      count := count * 10 + (all[i] - 48);
      i := i + 1;
      digits := digits + 1;
    }
    if digits == 0 || i >= |all| || all[i] != NEWLINE { return None; }
    assert all[i..][1..] == all[i + 1..];
    return Some((count, i + 1));
  }

  /** Sixteen ASCII bytes at a time where the count and the bytes allow it. */
  method SkipSixteen(all: seq<Byte>, i0: nat, c0: nat, count: nat) returns (i: nat, c: nat)
    requires i0 <= |all| && c0 <= count
    ensures i0 <= i <= |all| && c0 <= c <= count && i - i0 == c - c0
    ensures Take(all[i0..], count - c0) == Shift(Take(all[i..], count - c), i - i0)
  {
    hide Take;
    i, c := i0, c0;
    while count - c >= 16 && |all| - i >= 16 && !HighBits(Word(all[i..i + 8]), 8) &&
      !HighBits(Word(all[i + 8..i + 16]), 8)
      invariant i0 <= i <= |all| && c0 <= c <= count && i - i0 == c - c0
      invariant Take(all[i0..], count - c0) == Shift(Take(all[i..], count - c), i - i0)
    {
      HighBitsExact(all[i..i + 8]);
      HighBitsExact(all[i + 8..i + 16]);
      assert all[i..][..16] == all[i..i + 8] + all[i + 8..i + 16];
      TakeAscii(all[i..], 16, count - c);
      assert all[i..][16..] == all[i + 16..];
      i, c := i + 16, c + 16;
    }
  }

  /** The character loop. */
  method ReadBody(all: seq<Byte>, start: nat, count: nat) returns (r: Option<nat>)
    requires start <= |all|
    ensures r == Shift(Take(all[start..], count), start)
  {
    hide Decode, Take;
    var i, c := start, 0;
    while c < count
      invariant start <= i <= |all| && c <= count
      invariant Take(all[start..], count) == Shift(Take(all[i..], count - c), i - start)
      decreases count - c
    {
      i, c := SkipSixteen(all, i, c, count);
      if c == count { break; }
      TakeStep(all[i..], count - c);
      var width := CharacterWidth(all, i);
      if width.None? { return None; }
      assert all[i..][width.value..] == all[i + width.value..];
      i, c := i + width.value, c + 1;
    }
    TakeNone(all[i..]);
    return Some(i);
  }

  lemma TakeNone(rest: seq<Byte>)
    ensures Take(rest, 0) == Some(0)
  {
  }

  /** `field`. */
  method Field(all: seq<Byte>, cursor: nat) returns (r: Option<(seq<Byte>, nat)>)
    requires cursor <= |all|
    ensures var f := FieldOf(all[cursor..]);
      && (r.None? <==> f.None?)
      && (r.Some? ==> r.value.1 <= |all| && f.value == (r.value.0, all[r.value.1..]))
  {
    hide Take, Prefix;
    var p := ReadPrefix(all, cursor);
    if p.None? { return None; }
    var (count, start) := p.value;
    var end := ReadBody(all, start, count);
    if end.None? { return None; }
    assert all[start..][..end.value - start] == all[start..end.value] &&
      all[start..][end.value - start..] == all[end.value..];
    return Some((all[start..end.value], end.value));
  }

  /* ---- the envelope ---- */

  /** "minyar-local-cache-v1" */
  const MAGIC: seq<Byte> := [109, 105, 110, 121, 97, 114, 45, 108, 111, 99, 97, 108, 45, 99, 97, 99, 104, 101, 45,
                             118, 49]

  function HexDigit(n: nat): Byte
    requires n < 16
  {
    if n < 10 then 48 + n else 87 + n
  }

  /** The low `count` hexadecimal digits. */
  function Hex(n: nat, count: nat): (s: seq<Byte>)
    ensures |s| == count && Ascii(s)
  {
    if count == 0 then [] else Hex(n / 16, count - 1) + [HexDigit(n % 16)]
  }

  type Word64 = n: nat | n < 0x1_0000_0000_0000_0000

  /** What a lower-case hexadecimal digit stands for. */
  function HexValue(b: Byte): nat { if b < 58 then (if b < 48 then 0 else b - 48) else if b < 97 then 0 else b - 87 }

  predicate LowerHex(s: seq<Byte>) { forall i :: 0 <= i < |s| ==> 48 <= s[i] <= 57 || 97 <= s[i] <= 102 }

  /** The number lower-case hexadecimal digits spell. */
  function Unhex(s: seq<Byte>): nat { if s == [] then 0 else Unhex(s[..|s| - 1]) * 16 + HexValue(s[|s| - 1]) }

  function Sixteens(count: nat): (p: nat)
    ensures p > 0
  {
    if count == 0 then 1 else 16 * Sixteens(count - 1)
  }

  /** Sixteen lower-case digits that spell `n`. */
  predicate Spells(s: seq<Byte>, n: nat) { |s| == 16 && LowerHex(s) && Unhex(s) == n }

  lemma {:induction false} HexReads(n: nat, count: nat)
    requires n < Sixteens(count)
    ensures LowerHex(Hex(n, count)) && Unhex(Hex(n, count)) == n
  {
    if count > 0 {
      HexReads(n / 16, count - 1);
      assert Hex(n, count)[..count - 1] == Hex(n / 16, count - 1);
    }
  }

  lemma HexStep(q: nat, d: nat, count: nat)
    requires d < 16
    ensures Hex(q * 16 + d, count + 1) == Hex(q, count) + [HexDigit(d)]
  {
    assert (q * 16 + d) / 16 == q && (q * 16 + d) % 16 == d;
    hide HexDigit;
  }

  lemma DigitReads(b: Byte)
    requires LowerHex([b])
    ensures HexValue(b) < 16 && HexDigit(HexValue(b)) == b
  {
    assert [b][0] == b;
  }

  lemma LowerHexLast(s: seq<Byte>)
    requires LowerHex(s) && s != []
    ensures LowerHex(s[..|s| - 1]) && LowerHex([s[|s| - 1]])
  {
  }

  lemma {:induction false} ReadsHex(s: seq<Byte>)
    requires LowerHex(s)
    ensures Unhex(s) < Sixteens(|s|) && Hex(Unhex(s), |s|) == s
  {
    hide Hex, HexDigit, HexValue, LowerHex;
    if s == [] {
      NoHex();
    } else {
      LowerHexLast(s);
      var front, last := s[..|s| - 1], s[|s| - 1];
      ReadsHex(front);
      DigitReads(last);
      HexStep(Unhex(front), HexValue(last), |front|);
      assert s == front + [last];
    }
  }

  lemma NoHex()
    ensures Hex(0, 0) == []
  {
  }

  /** Of a 64-bit number there is exactly one such spelling, the one `%016` prints. */
  lemma SpellsHex(s: seq<Byte>, n: Word64)
    ensures Spells(s, n) <==> s == Hex(n, 16)
  {
    assert Sixteens(4) == 0x1_0000;
    assert Sixteens(8) == 0x1_0000_0000;
    assert Sixteens(12) == 0x1_0000_0000_0000;
    assert Sixteens(16) == 0x1_0000_0000_0000_0000;
    HexReads(n, 16);
    if Spells(s, n) { ReadsHex(s); }
  }

  /** A 64-bit checksum of a byte string. */
  type Checksum = seq<Byte> -> Word64

  function Parts(hash: Checksum, identity: seq<Byte>, entry: seq<Byte>, state: seq<Byte>): seq<seq<Byte>> {
    [MAGIC, identity, entry, Hex(hash(state), 16), state]
  }

  /** What `publish_cache` writes, if the size guard lets it. */
  function Publish(hash: Checksum, identity: seq<Byte>, entry: seq<Byte>, state: seq<Byte>): Option<seq<Byte>> {
    if |state| + |identity| + |entry| + 160 > CACHE_LIMIT then None
    else Some(WriteFields(Parts(hash, identity, entry, state)))
  }

  /** What `valid_cache` accepts: five fields and nothing after them, the first
      three as expected and the fourth the checksum of the fifth. */
  function Accepted(hash: Checksum, all: seq<Byte>, identity: seq<Byte>, entry: seq<Byte>): Option<seq<Byte>> {
    var r := ReadFields(all, 5);
    if r.None? then None
    else
      var parts := r.value.0;
      if |parts| == 5 && r.value.1 == [] && parts[0] == MAGIC && parts[1] == identity && parts[2] == entry
         && parts[3] == Hex(hash(parts[4]), 16)
      then Some(parts[3]) else None
  }

  /** A cache for this identity and entry: the five fields and nothing more, the fourth the
      checksum of the fifth in sixteen lower-case digits. */
  ghost predicate Valid(hash: Checksum, all: seq<Byte>, identity: seq<Byte>, entry: seq<Byte>, sum: seq<Byte>) {
    exists state :: SpellsFields(all, [MAGIC, identity, entry, sum, state]) && Spells(sum, hash(state))
  }

  lemma AcceptedExactly(hash: Checksum, all: seq<Byte>, identity: seq<Byte>, entry: seq<Byte>, sum: seq<Byte>)
    ensures Accepted(hash, all, identity, entry) == Some(sum) <==> Valid(hash, all, identity, entry, sum)
  {
    hide ReadFields, SpellsFields, Hex, Spells;
    if Accepted(hash, all, identity, entry) == Some(sum) {
      var parts := ReadFields(all, 5).value.0;
      SpellsHex(sum, hash(parts[4]));
      FieldsExactly(all, parts);
      assert parts == [MAGIC, identity, entry, sum, parts[4]];
    }
    if state :| SpellsFields(all, [MAGIC, identity, entry, sum, state]) && Spells(sum, hash(state)) {
      SpellsHex(sum, hash(state));
      FieldsExactly(all, [MAGIC, identity, entry, sum, state]);
    }
  }

  /** The five reads of `valid_cache`. */
  method ReadParts(all: seq<Byte>) returns (r: Option<(seq<seq<Byte>>, nat)>)
    ensures r.None? <==> ReadFields(all, 5).None?
    ensures r.Some? ==> r.value.1 <= |all| && |r.value.0| == 5
    ensures r.Some? ==> ReadFields(all, 5).value == (r.value.0, all[r.value.1..])
  {
    hide FieldOf, ReadFields;
    var parts: seq<seq<Byte>>, at: nat := [], 0;
    assert all[at..] == all;
    JoinedNone(ReadFields(all, 5));
    for i := 0 to 5
      invariant at <= |all| && |parts| == i
      invariant ReadFields(all, 5) == Joined(parts, ReadFields(all[at..], 5 - i))
    {
      var f := Field(all, at);
      JoinedStep(parts, all[at..], 5 - i);
      if f.None? { return None; }
      parts := parts + [f.value.0];
      at := f.value.1;
    }
    JoinedLast(parts, all[at..]);
    return Some((parts, at));
  }

  /** `valid_cache`. */
  method ValidCache(hash: Checksum, all: seq<Byte>, identity: seq<Byte>, entry: seq<Byte>)
      returns (r: Option<seq<Byte>>)
    ensures r == Accepted(hash, all, identity, entry)
    ensures forall sum :: r == Some(sum) <==> Valid(hash, all, identity, entry, sum)
  {
    hide ReadFields, Hex, Valid;
    forall sum
      ensures Accepted(hash, all, identity, entry) == Some(sum) <==> Valid(hash, all, identity, entry, sum)
    {
      AcceptedExactly(hash, all, identity, entry, sum);
    }
    var read := ReadParts(all);
    if read.None? { return None; }
    var (parts, at) := read.value;
    if at != |all| || parts[0] != MAGIC || parts[1] != identity || parts[2] != entry { return None; }
    var expected := Hex(hash(parts[4]), 16);
    if parts[3] != expected { return None; }
    return Some(expected);
  }

  lemma JoinedNone(r: Option<(seq<seq<Byte>>, seq<Byte>)>)
    ensures Joined([], r) == r
  {
    if r.Some? { assert [] + r.value.0 == r.value.0; }
  }

  lemma JoinedStep(parts: seq<seq<Byte>>, rest: seq<Byte>, k: nat)
    requires k > 0
    ensures var f := FieldOf(rest);
      Joined(parts, ReadFields(rest, k)) == if f.None? then None
        else Joined(parts + [f.value.0], ReadFields(f.value.1, k - 1))
  {
    hide FieldOf;
    var f := FieldOf(rest);
    if f.Some? && ReadFields(f.value.1, k - 1).Some? {
      var more := ReadFields(f.value.1, k - 1).value.0;
      assert parts + ([f.value.0] + more) == parts + [f.value.0] + more;
    }
  }

  lemma JoinedLast(parts: seq<seq<Byte>>, rest: seq<Byte>)
    ensures Joined(parts, ReadFields(rest, 0)) == Some((parts, rest))
  {
    assert parts + [] == parts;
  }

  ghost function Joined(parts: seq<seq<Byte>>, r: Option<(seq<seq<Byte>>, seq<Byte>)>)
    : Option<(seq<seq<Byte>>, seq<Byte>)>
  {
    if r.None? then None else Some((parts + r.value.0, r.value.1))
  }

  lemma AsciiField(s: seq<Byte>)
    requires Ascii(s)
    ensures DecodeAll(s).Some?
  {
    AsciiEncodes(s);
    RoundTrip(s, s);
  }

  lemma MagicAscii()
    ensures Ascii(MAGIC) && |MAGIC| == 21
  {
  }

  lemma CountSplit(s: seq<Byte>, k: nat)
    requires k <= |s|
    ensures CharacterCount(s) == CharacterCount(s[..k]) + CharacterCount(s[k..])
  {
    hide CharacterCount;
    CountConcat(s[..k], s[k..]);
    assert s == s[..k] + s[k..];
  }

  lemma {:induction false} NoneCounted(s: seq<Byte>)
    requires CharacterCount(s) == 0 && s != []
    ensures Continues(s[0])
  {
    if |s| > 1 { NoneCounted(s[..|s| - 1]); }
  }

  /** Of a written field whose bytes are no UTF-8, a reader may take a part, but what is left
      then begins with a continuation byte. */
  lemma {:induction false} ReadWhole(data: seq<Byte>, tail: seq<Byte>)
    requires FieldOf(WriteField(data) + tail).Some?
    requires tail == [] || !Continues(tail[0])
    ensures var (value, rest) := FieldOf(WriteField(data) + tail).value;
      (value == data && rest == tail) || (rest != [] && Continues(rest[0]))
  {
    hide DecodeAll, EncodeAll, CharacterCount, Take, Decimal;
    var n, all := CharacterCount(data), data + tail;
    var rest := [NEWLINE] + all;
    assert WriteField(data) + tail == Decimal(n) + rest;
    PrefixDecimal(n, rest);
    assert rest[1..] == all;
    var k := Take(all, n).value;
    TakeDecodes(all, n);
    ReEncode(all[..k]);
    CountExact(DecodeAll(all[..k]).value);
    if k <= |data| {
      assert all[..k] == data[..k] && all[k..] == data[k..] + tail;
      CountSplit(data, k);
      if k < |data| { NoneCounted(data[k..]); } else { assert data[..k] == data; }
    } else {
      var more := all[..k][|data|..];
      assert all[..k][..|data|] == data && more[0] == tail[0];
      CountSplit(all[..k], |data|);
      if CharacterCount(more) == 0 { NoneCounted(more); }
    }
  }

  lemma {:induction false} DecimalDigits(n: nat)
    ensures Decimal(n) != [] && Digit(Decimal(n)[0])
  {
    if n >= 10 { DecimalDigits(n / 10); }
  }

  lemma WritesDigit(data: seq<Byte>)
    ensures WriteField(data) != [] && Digit(WriteField(data)[0])
  {
    DecimalDigits(CharacterCount(data));
  }

  lemma NoDigitNoField(rest: seq<Byte>)
    requires rest != [] && Continues(rest[0])
    ensures FieldOf(rest).None?
  {
  }

  /** Whatever the fields hold: if as many are read, to the end, they are those written. */
  lemma {:induction false} ReadsThemselves(fields: seq<seq<Byte>>)
    requires ReadFields(WriteFields(fields), |fields|).Some?
    requires ReadFields(WriteFields(fields), |fields|).value.1 == []
    ensures ReadFields(WriteFields(fields), |fields|).value.0 == fields
  {
    hide FieldOf, WriteField;
    if fields != [] {
      var more := WriteFields(fields[1..]);
      if |fields| > 1 { WritesDigit(fields[1]); }
      ReadWhole(fields[0], more);
      var (value, rest) := FieldOf(WriteFields(fields)).value;
      if rest != [] && Continues(rest[0]) {
        NoDigitNoField(rest);
      } else {
        ReadsThemselves(fields[1..]);
      }
    }
  }

  /** Of any five fields after one another, under the reader's limit, `valid_cache` accepts
      those that are well formed, for this identity and entry and no other, and only with the
      checksum of the state beside it. */
  lemma {:induction false} EnvelopeAccepted(hash: Checksum, fields: seq<seq<Byte>>, identity: seq<Byte>,
                                            entry: seq<Byte>)
    requires |fields| == 5 && forall i :: 0 <= i < 5 ==> |fields[i]| <= COUNT_LIMIT
    ensures Accepted(hash, WriteFields(fields), identity, entry) ==
      if fields[0] == MAGIC && fields[1] == identity && fields[2] == entry && Spells(fields[3], hash(fields[4]))
         && forall i :: 0 <= i < 5 ==> DecodeAll(fields[i]).Some?
      then Some(fields[3]) else None
  {
    hide DecodeAll, CharacterCount, WriteFields, ReadFields, Hex, Spells;
    var all := WriteFields(fields);
    SpellsHex(fields[3], hash(fields[4]));
    var r := ReadFields(all, 5);
    if forall i :: 0 <= i < 5 ==> DecodeAll(fields[i]).Some? {
      forall i | 0 <= i < 5 ensures CharacterCount(fields[i]) <= COUNT_LIMIT { CountBound(fields[i]); }
      FieldsRoundTrip(fields, []);
      assert all + [] == all;
    }
    if r.Some? && r.value.1 == [] {
      ReadDecodes(all, 5);
      ReadsThemselves(fields);
    }
  }

  /** Every envelope that is published is accepted for the same identity and entry, with its
      own checksum, exactly when its fields are well formed, and for no other. */
  lemma PublishAccepted(hash: Checksum, identity: seq<Byte>, entry: seq<Byte>, state: seq<Byte>,
                        identity': seq<Byte>, entry': seq<Byte>)
    requires Publish(hash, identity, entry, state).Some?
    ensures Accepted(hash, Publish(hash, identity, entry, state).value, identity', entry') ==
      if identity' == identity && entry' == entry
         && DecodeAll(identity).Some? && DecodeAll(entry).Some? && DecodeAll(state).Some?
      then Some(Hex(hash(state), 16)) else None
  {
    hide DecodeAll, WriteFields, Accepted, Spells;
    var parts := Parts(hash, identity, entry, state);
    MagicAscii();
    AsciiField(MAGIC);
    AsciiField(parts[3]);
    SpellsHex(parts[3], hash(state));
    EnvelopeAccepted(hash, parts, identity', entry');
  }

  /** A published file whose state is replaced by one of another checksum is refused. */
  lemma AlteredRefused(hash: Checksum, identity: seq<Byte>, entry: seq<Byte>, state: seq<Byte>, state': seq<Byte>,
                       identity': seq<Byte>, entry': seq<Byte>)
    requires |state'| + |identity| + |entry| + 160 <= CACHE_LIMIT && hash(state') != hash(state)
    ensures Accepted(hash, WriteFields(Parts(hash, identity, entry, state)[4 := state']), identity', entry').None?
  {
    hide DecodeAll, WriteFields, Accepted;
    var parts := Parts(hash, identity, entry, state)[4 := state'];
    MagicAscii();
    SpellsHex(parts[3], hash(state));
    EnvelopeAccepted(hash, parts, identity', entry');
  }

  /** Fields that are read are well formed. */
  lemma {:induction false} ReadDecodes(rest: seq<Byte>, k: nat)
    requires ReadFields(rest, k).Some?
    ensures var parts := ReadFields(rest, k).value.0;
      |parts| == k && forall i :: 0 <= i < k ==> DecodeAll(parts[i]).Some?
    decreases k
  {
    hide DecodeAll, FieldOf;
    if k > 0 {
      FieldDecodes(rest);
      ReadDecodes(FieldOf(rest).value.1, k - 1);
    }
  }

  lemma {:induction false} WriteLast(fields: seq<seq<Byte>>, f: seq<Byte>)
    ensures WriteFields(fields + [f]) == WriteFields(fields) + WriteField(f)
  {
    hide WriteField;
    if fields == [] {
      assert fields + [f] == [f] && [f][1..] == [];
    } else {
      assert (fields + [f])[1..] == fields[1..] + [f];
      WriteLast(fields[1..], f);
    }
  }

  /** A published file stays within the limit its reader sets. */
  lemma {:induction false} PublishFits(hash: Checksum, identity: seq<Byte>, entry: seq<Byte>, state: seq<Byte>)
    requires Publish(hash, identity, entry, state).Some?
    ensures |Publish(hash, identity, entry, state).value| <= CACHE_LIMIT
  {
    hide CharacterCount, Ascii, Hex, WriteField;
    var sum := Hex(hash(state), 16);
    MagicAscii();
    FieldSize(MAGIC);
    FieldSize(identity);
    FieldSize(entry);
    FieldSize(sum);
    FieldSize(state);
    var e: seq<seq<Byte>> := [];
    assert e + [MAGIC] == [MAGIC] && [MAGIC] + [identity] == [MAGIC, identity] &&
      [MAGIC, identity] + [entry] == [MAGIC, identity, entry];
    assert [MAGIC, identity, entry] + [sum] == [MAGIC, identity, entry, sum];
    assert [MAGIC, identity, entry, sum] + [state] == Parts(hash, identity, entry, state);
    WriteLast(e, MAGIC);
    WriteLast([MAGIC], identity);
    WriteLast([MAGIC, identity], entry);
    WriteLast([MAGIC, identity, entry], sum);
    WriteLast([MAGIC, identity, entry, sum], state);
  }

  /** And one is refused only when the file would have come within 113 bytes of the limit. */
  lemma PublishRefuses(hash: Checksum, identity: seq<Byte>, entry: seq<Byte>, state: seq<Byte>)
    requires Publish(hash, identity, entry, state).None?
    ensures |WriteFields(Parts(hash, identity, entry, state))| > CACHE_LIMIT - 113
  {
    hide Hex;
    var parts := Parts(hash, identity, entry, state);
    MagicAscii();
    WritesMore(parts);
    assert parts[1..] == [identity, entry, parts[3], state] && parts[1..][1..] == [entry, parts[3], state];
    assert parts[1..][1..][1..] == [parts[3], state] && [parts[3], state][1..] == [state] && [state][1..] == [];
    assert Lengths([state]) == |state| && Lengths([parts[3], state]) == 16 + |state|;
    assert Lengths([entry, parts[3], state]) == |entry| + 16 + |state|;
  }

  function Lengths(fields: seq<seq<Byte>>): nat { if fields == [] then 0 else |fields[0]| + Lengths(fields[1..]) }

  /** Each field takes a digit and a newline at least. */
  lemma {:induction false} WritesMore(fields: seq<seq<Byte>>)
    ensures |WriteFields(fields)| >= Lengths(fields) + 2 * |fields|
  {
    if fields != [] {
      DecimalDigits(CharacterCount(fields[0]));
      WritesMore(fields[1..]);
    }
  }

  lemma {:induction false} DecimalSize(n: nat, k: nat, bound: nat)
    requires k >= 1 && n < bound && bound == Power(k)
    ensures |Decimal(n)| <= k
  {
    if n >= 10 { DecimalSize(n / 10, k - 1, Power(k - 1)); }
  }

  function Power(k: nat): nat { if k == 0 then 1 else 10 * Power(k - 1) }

  lemma FieldSize(data: seq<Byte>)
    requires |data| <= CACHE_LIMIT
    ensures |WriteField(data)| <= |data| + 9
  {
    CountBound(data);
    assert Power(4) == 10000;
    assert Power(8) == 100000000;
    DecimalSize(CharacterCount(data), 8, Power(8));
  }
}
