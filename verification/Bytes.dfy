// Byte buffers, as the wire codecs read and write them.
module Bytes {
  import opened Options
  import opened JsArithmetic
  import opened JsText

  type Byte = b: int | 0 <= b < 0x100

  type Buffer = seq<Byte>

  // `buffer[pos]`; reading outside gives undefined.
  function At(buffer: Buffer, pos: int): Option<Byte> {
    if 0 <= pos < |buffer| then Some(buffer[pos]) else None
  }

  // undefined counts as 0 in a bitwise operation.
  function OrZero(b: Option<Byte>): Byte {
    if b.Some? then b.value else 0
  }

  // `buffer.subarray(start, end)`: negative bounds count from the end, both
  // are clamped, and a reversed range is empty.
  function Clamp(n: int, bound: nat): (r: nat)
    ensures r <= bound
    ensures 0 <= n <= bound ==> r == n
  {
    var m := if n < 0 then n + bound else n;
    if m < 0 then 0 else if m > bound then bound else m
  }

  function Subarray(buffer: Buffer, start: int, end: int): Buffer {
    var s, e := Clamp(start, |buffer|), Clamp(end, |buffer|);
    if s <= e then buffer[s..e] else []
  }

  // `toString('ascii')` drops the high bit, `Buffer.from(text, 'ascii')` the high byte.
  function FromAscii(bytes: Buffer): JsString {
    seq(|bytes|, i requires 0 <= i < |bytes| => bytes[i] % 0x80)
  }

  function ToAscii(text: JsString): Buffer {
    seq(|text|, i requires 0 <= i < |text| => text[i] % 0x100)
  }

  // One character for each octet and the other way round, high bits dropped.
  lemma AsciiMeans(bytes: Buffer, text: JsString)
    ensures |FromAscii(bytes)| == |bytes| && |ToAscii(text)| == |text|
    ensures forall i :: 0 <= i < |bytes| ==> FromAscii(bytes)[i] == BitAnd(bytes[i], 0x7f)
    ensures forall i :: 0 <= i < |text| ==> ToAscii(text)[i] == BitAnd(text[i], 0xff)
  {
    forall i | 0 <= i < |bytes| ensures FromAscii(bytes)[i] == BitAnd(bytes[i], 0x7f) {
      LowSeven(bytes[i]);
    }
    forall i | 0 <= i < |text| ensures ToAscii(text)[i] == BitAnd(text[i], 0xff) {
      LowByte(text[i]);
    }
  }

  predicate IsAscii(text: JsString) {
    forall i :: 0 <= i < |text| ==> text[i] < 0x80
  }

  lemma AsciiRoundTrip(text: JsString)
    requires IsAscii(text)
    ensures FromAscii(ToAscii(text)) == text
  {
  }

  // The masks and shifts of the codecs, as arithmetic.

  lemma LowBits(n: int, k: nat)
    requires k <= 32
    ensures ToUint32(n) % Pow2(k) == n % Pow2(k)
  {
    Pow2Values();
    Pow2Adds(k, 32 - k);
    NestedMod(n, Pow2(k), Pow2(32 - k));
  }

  lemma LowByte(n: int)
    ensures BitAnd(n, 0xff) == n % 0x100
  {
    Pow2Values();
    AndLowMask(ToUint32(n), 8);
    SmallMod(0xff, TWO32);
    LowBits(n, 8);
    SmallMod(n % 0x100, TWO32);
  }

  lemma LowSeven(n: int)
    ensures BitAnd(n, 0x7f) == n % 0x80
  {
    Pow2Values();
    AndLowMask(ToUint32(n), 7);
    SmallMod(0x7f, TWO32);
    LowBits(n, 7);
    SmallMod(n % 0x80, TWO32);
  }

  lemma ShiftDown(n: int, k: nat)
    requires 0 <= n < TWO31 && k < 32
    ensures Shr(n, k) == n / Pow2(k)
  {
    SmallMod(n, TWO32);
    SmallMod(k, 32);
  }

  // `(high << 8) | low` for a high part that leaves room.
  lemma AppendByte(high: int, low: Byte)
    requires 0 <= high < 0x80_0000
    ensures BitOr(Shl(high, 8), low) == high * 0x100 + low
  {
    Pow2Values();
    SmallMod(high * 0x100, TWO32);
    SmallMod(low, TWO32);
    OrDisjoint(high, low, 8);
    SmallMod(high * 0x100 + low, TWO32);
  }

  // `0x80 | low` for a low part of seven bits, in either order.
  lemma SetHighBit(low: int)
    requires 0 <= low < 0x80
    ensures BitOr(0x80, low) == 0x80 + low == BitOr(low, 0x80)
  {
    hide Or, Pow2;
    Pow2Values();
    SmallMod(low, TWO32);
    OrDisjoint(1, low, 7);
    OrCommutes(0x80, low);
    SmallMod(0x80 + low, TWO32);
  }

  lemma {:induction false} OrCommutes(a: nat, b: nat)
    ensures Or(a, b) == Or(b, a)
    decreases a + b
  {
    if a > 0 && b > 0 {
      OrCommutes(a / 2, b / 2);
    }
  }
}
