/** A dead record keeps its cursor in its reference map: bit zero of each byte
    stays the reference flag, the other seven bits hold one digit. */
module RcCursor {

  const WORD_BITS: nat := 64
  const WORD: nat := 0x1_0000_0000_0000_0000

  function Power(i: nat): (p: nat)
    ensures p > 0
  {
    if i == 0 then 1 else 128 * Power(i - 1)
  }

  /** Bytes that hold digits: as many as the map has, at most ten. */
  function Places(n: nat): nat { if n < 10 then n else 10 }

  /** The number written in the first `k` bytes, least significant digit first. */
  function Digits(flags: seq<nat>, k: nat): nat
    requires k <= |flags|
  {
    if k == 0 then 0 else Digits(flags, k - 1) + (flags[k - 1] / 2) * Power(k - 1)
  }

  lemma {:induction false} DigitsSame(flags: seq<nat>, flags': seq<nat>, k: nat)
    requires k <= |flags| && k <= |flags'| && forall j :: 0 <= j < k ==> flags[j] / 2 == flags'[j] / 2
    ensures Digits(flags, k) == Digits(flags', k)
  {
    if k > 0 { DigitsSame(flags, flags', k - 1); }
  }

  /** Any 64-bit length has room for every cursor up to it. */
  lemma {:induction false} RoomForCursor(n: nat)
    requires 0 < n < WORD
    ensures n < Power(Places(n))
  {
    if n < 10 {
      RoomForSmall(n);
    } else {
      assert Power(2) == 16384 && Power(4) == 16384 * 16384 by { assert Power(3) == 128 * Power(2); }
      assert Power(5) == 128 * Power(4) && Power(6) == 128 * Power(5);
      assert Power(7) == 128 * Power(6) && Power(8) == 128 * Power(7);
      assert Power(9) == 128 * Power(8) && Power(10) == 128 * Power(9);
    }
  }

  lemma {:induction false} RoomForSmall(n: nat)
    ensures n < Power(n)
  {
    if n > 0 { RoomForSmall(n - 1); }
  }

  lemma Digit(cursor: nat, p: nat, low: nat)
    ensures low + cursor * p == low + (cursor % 128) * p + (cursor / 128) * (128 * p)
  {
    assert cursor == (cursor % 128) + 128 * (cursor / 128);
    var q, d := cursor / 128, cursor % 128;
    calc {
      cursor * p;
      (d + 128 * q) * p;
      d * p + (128 * q) * p;
      d * p + q * (128 * p);
    }
  }

  /** `rc_bounded_save_cursor` for a record of `flags.Length` fields. */
  method SaveCursor(flags: array<nat>, cursor0: nat)
    requires 0 < flags.Length < WORD && cursor0 <= flags.Length
    modifies flags
    ensures Digits(flags[..], Places(flags.Length)) == cursor0
    ensures forall j :: 0 <= j < flags.Length ==> flags[j] % 2 == old(flags[j]) % 2
    ensures forall j :: 0 <= j < flags.Length && old(flags[j]) < 256 ==> flags[j] < 256
  {
    hide Digits, Power;
    assert Digits(flags[..], 0) + cursor0 * Power(0) == cursor0 by { NoDigits(flags[..], cursor0); }
    var cursor: nat := cursor0;
    var i := 0;
    while i < flags.Length && i * 7 < WORD_BITS
      invariant i <= Places(flags.Length)
      invariant Digits(flags[..], i) + cursor * Power(i) == cursor0
      invariant forall j :: 0 <= j < flags.Length ==> flags[j] % 2 == old(flags[j]) % 2
      invariant forall j :: 0 <= j < flags.Length && old(flags[j]) < 256 ==> flags[j] < 256
    {
      ghost var before := flags[..];
      Packed(flags[i], cursor);
      flags[i] := flags[i] % 2 + 2 * (cursor % 128);
      assert flags[..] == before[i := flags[i]];
      SaveStep(before, flags[i], i, cursor);
      cursor := cursor / 128;
      i := i + 1;
    }
    RoomForCursor(flags.Length);
    Spent(cursor, Power(i), cursor0);
  }

  /** A byte with its flag kept and a digit above it. */
  lemma Packed(flag: nat, cursor: nat)
    ensures var b := flag % 2 + 2 * (cursor % 128); b / 2 == cursor % 128 && b % 2 == flag % 2 && b < 256
  {
  }

  lemma NoDigits(flags: seq<nat>, cursor: nat)
    ensures Digits(flags, 0) + cursor * Power(0) == cursor
  {
  }

  lemma SaveStep(before: seq<nat>, b: nat, i: nat, cursor: nat)
    requires i < |before| && b / 2 == cursor % 128
    ensures Digits(before[i := b], i + 1) + (cursor / 128) * Power(i + 1) == Digits(before, i) + cursor * Power(i)
  {
    DigitsSame(before, before[i := b], i);
    Digit(cursor, Power(i), Digits(before, i));
  }

  lemma Spent(cursor: nat, p: nat, total: nat)
    requires cursor * p <= total < p
    ensures cursor == 0
  {
    assert cursor > 0 ==> cursor * p >= p;
  }

  /** `rc_bounded_saved_cursor`. */
  method LoadCursor(flags: array<nat>) returns (cursor: nat)
    ensures cursor == Digits(flags[..], Places(flags.Length)) % WORD
  {
    cursor := 0;
    ghost var full := 0;
    var i, p := 0, 1;
    while i < flags.Length && i * 7 < WORD_BITS
      invariant i <= Places(flags.Length) && p == Power(i)
      invariant full == Digits(flags[..], i) && cursor == full % WORD
    {
      ghost var digit := (flags[i] / 2) * p;
      assert (full % WORD + digit) % WORD == (full + digit) % WORD;
      cursor := (cursor + (flags[i] / 2) * p) % WORD;
      full := full + digit;
      p := p * 128;
      i := i + 1;
    }
  }

  /** Suspending and resuming a record task loses nothing. */
  method SuspendResume(flags: array<nat>, cursor0: nat) returns (cursor: nat)
    requires 0 < flags.Length < WORD && cursor0 <= flags.Length
    modifies flags
    ensures cursor == cursor0
    ensures forall j :: 0 <= j < flags.Length ==> flags[j] % 2 == old(flags[j]) % 2
  {
    SaveCursor(flags, cursor0);
    cursor := LoadCursor(flags);
  }
}
