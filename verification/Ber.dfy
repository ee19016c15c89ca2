// The BER length and type-length-value encoding of the SNMP collector, and
// the one-level walk that reads octet strings back.
module Ber {
  import opened Options
  import opened JsArithmetic
  import opened JsText
  import opened Bytes
  import opened Sequences

  // ---- Lengths ----

  // Base-256 digits, most significant first, as the `& 0xff` / `>>= 8` loop
  // produces them. The shift works on 32 bits and can turn negative.
  function LengthDigits(n: int): Buffer
    decreases if n > 0 then n else 0
  {
    if n <= 0 then []
    else
      ShrDecreases(n, 8);
      LengthDigits(Shr(n, 8)) + [n % 0x100]
  }

  lemma ShrDecreases(n: int, k: nat)
    requires n > 0 && 1 <= k < 32
    ensures Shr(n, k) < n
  {
    SmallMod(k, 32);
    QuotientSmaller(ToInt32(n), Pow2(k), n);
  }

  lemma QuotientSmaller(a: int, m: int, n: int)
    requires m >= 2 && a <= n && n > 0
    ensures a / m < n
  {
    var q := a / m;
    assert a == m * q + a % m;
    if q >= n {
      TimesMonotone(m, n, q);
      TimesMonotone(n, 2, m);
    }
  }

  lemma TimesMonotone(m: int, a: int, b: int)
    requires m >= 0 && a <= b
    ensures m * a <= m * b && a * m <= b * m
  {
  }

  function LengthOctets(len: nat): Buffer {
    if len < 0x80 then [len]
    else [BitOr(0x80, |LengthDigits(len)|) % 0x100] + LengthDigits(len)
  }

  lemma NextDigit(n: int, bytes: Buffer)
    requires n > 0
    ensures LengthDigits(n) + bytes == LengthDigits(Shr(n, 8)) + ([n % 0x100] + bytes)
  {
    hide Shr;
  }

  lemma NoDigits(n: int)
    requires n <= 0
    ensures LengthDigits(n) == []
  {
  }

  method EncodeLength(len: nat) returns (octets: Buffer)
    ensures octets == LengthOctets(len)
  {
    if len < 0x80 {
      return [len];
    }
    var bytes: Buffer, n: int := [], len;
    hide LengthDigits, BitAnd, BitOr, Shr;
    while n > 0
      invariant LengthDigits(n) + bytes == LengthDigits(len)
      decreases if n > 0 then n else 0
    {
      LowByte(n);
      ShrDecreases(n, 8);
      NextDigit(n, bytes);
      bytes := [BitAnd(n, 0xff)] + bytes;
      n := Shr(n, 8);
    }
    NoDigits(n);
    assert [] + bytes == bytes;
    octets := [BitOr(0x80, |bytes|) % 0x100] + bytes;
  }

  function Accumulate(buffer: Buffer, from: int, count: nat, len: int): int {
    if count == 0 then len
    else BitOr(Shl(Accumulate(buffer, from, count - 1, len), 8), OrZero(At(buffer, from + count - 1)))
  }

  datatype Length = Length(len: int, next: int)

  function LengthAt(buffer: Buffer, pos: int): Length {
    var first := At(buffer, pos);
    if first.Some? && first.value < 0x80 then Length(first.value, pos + 1)
    else
      var numBytes := BitAnd(OrZero(first), 0x7f);
      LowSeven(OrZero(first));
      Length(Accumulate(buffer, pos + 1, numBytes, 0), pos + 1 + numBytes)
  }

  method ReadLength(buffer: Buffer, pos: int) returns (r: Length)
    ensures r == LengthAt(buffer, pos)
  {
    var first := At(buffer, pos);
    if first.Some? && first.value < 0x80 {
      return Length(first.value, pos + 1);
    }
    LowSeven(OrZero(first));
    var numBytes: nat := BitAnd(OrZero(first), 0x7f);
    var len: int := 0;
    for j := 0 to numBytes
      invariant len == Accumulate(buffer, pos + 1, j, 0)
    {
      len := BitOr(Shl(len, 8), OrZero(At(buffer, pos + 1 + j)));
    }
    r := Length(len, pos + 1 + numBytes);
  }

  lemma {:induction false} DigitCount(n: int, k: nat)
    requires 0 <= n < Pow2(8 * k) && k <= 3
    ensures |LengthDigits(n)| <= k
  {
    if k == 0 {
      assert Pow2(8 * k) == 1;
    } else if n > 0 {
      Pow2Adds(8, 8 * (k - 1));
      Pow2Monotone(8 * k, 24);
      Pow2Values();
      ShiftDown(n, 8);
      DigitCount(n / 0x100, k - 1);
    }
  }

  // Never more than four digits, whatever the length.
  lemma AtMostFourDigits(n: int)
    ensures |LengthDigits(n)| <= 4
  {
    if n > 0 {
      Pow2Values();
      SmallMod(8, 32);
      if Shr(n, 8) > 0 {
        assert Shr(n, 8) < 0x80_0000;
        DigitCount(Shr(n, 8), 3);
      }
    }
  }

  // Folding the digits back gives the number, at any place in a buffer.
  lemma {:induction false} DigitsFoldBack(n: int, pre: Buffer, post: Buffer)
    requires 0 <= n < TWO31
    ensures Accumulate(pre + LengthDigits(n) + post, |pre|, |LengthDigits(n)|, 0) == n
    decreases n
  {
    if n > 0 {
      Pow2Values();
      ShiftDown(n, 8);
      var digits := LengthDigits(n / 0x100);
      assert pre + LengthDigits(n) + post == pre + digits + ([n % 0x100] + post);
      DigitsFoldBack(n / 0x100, pre, [n % 0x100] + post);
      assert (pre + digits + ([n % 0x100] + post))[|pre| + |digits|] == n % 0x100;
      AppendByte(n / 0x100, n % 0x100);
    }
  }

  lemma AccumulateIsInt32(buffer: Buffer, from: int, count: nat)
    ensures -TWO31 <= Accumulate(buffer, from, count, 0) < TWO31
  {
  }

  lemma LongForm(len: nat)
    requires len >= 0x80
    ensures LengthOctets(len) == [0x80 + |LengthDigits(len)|] + LengthDigits(len) && |LengthDigits(len)| <= 4
  {
    hide BitOr, LengthDigits;
    AtMostFourDigits(len);
    SetHighBit(|LengthDigits(len)|);
  }

  lemma LongFormAt(buffer: Buffer, pos: nat, count: nat)
    requires pos < |buffer| && count < 0x80 && buffer[pos] == 0x80 + count
    ensures LengthAt(buffer, pos) == Length(Accumulate(buffer, pos + 1, count, 0), pos + 1 + count)
  {
    hide BitAnd, Accumulate;
    LowSeven(0x80 + count);
  }

  lemma NextAdvances(buffer: Buffer, pos: int)
    ensures LengthAt(buffer, pos).next > pos
  {
    LowSeven(OrZero(At(buffer, pos)));
  }

  // What an encoded length reads back as. The shifts see it as a signed
  // 32-bit number: one that comes out negative keeps only its last octet.
  function ReadsAs(len: nat): (r: nat)
    ensures r == len <==> len < TWO31
    ensures r <= len
  {
    var n := ToInt32(len);
    SameLowOctet(len);
    if len < 0x80 then len else if n < 0 then len % 0x100 else n
  }

  lemma SameLowOctet(len: nat)
    ensures ToInt32(len) % 0x100 == len % 0x100
  {
    NestedMod(len, 0x100, 0x100_0000);
    var u := ToUint32(len);
    ModUnique(u - TWO32, 0x100, u / 0x100 - 0x100_0000, u % 0x100);
  }

  lemma DigitsOfLength(len: nat, n: int)
    requires len >= 0x80 && n == ToInt32(len)
    ensures LengthDigits(len) == if n > 0 then LengthDigits(n) else [len % 0x100]
  {
    SameLowOctet(len);
    Pow2Values();
    SmallMod(8, 32);
    hide Pow2;
    assert Shr(len, 8) == n / 0x100;
    if n > 0 {
      ShiftDown(n, 8);
      assert Shr(n, 8) == n / 0x100;
    }
  }

  // Reading a length back, wherever it stands in a buffer, skips exactly its
  // octets and returns that value - the length itself for exactly the lengths
  // below 2^31.
  lemma LengthRoundTrip(len: nat, pre: Buffer, post: Buffer)
    ensures LengthAt(pre + LengthOctets(len) + post, |pre|) == Length(ReadsAs(len), |pre| + |LengthOctets(len)|)
    ensures LengthAt(pre + LengthOctets(len) + post, |pre|).len == len <==> len < TWO31
  {
    hide LengthDigits, Accumulate, BitOr, BitAnd, ToInt32;
    if len < 0x80 {
      assert (pre + [len] + post)[|pre|] == len;
    } else {
      LongForm(len);
      LongRoundTrip(len, pre, post);
    }
  }

  lemma LongRoundTrip(len: nat, pre: Buffer, post: Buffer)
    requires len >= 0x80
    ensures |LengthDigits(len)| <= 4
    ensures var digits := LengthDigits(len);
      LengthAt(pre + ([0x80 + |digits|] + digits) + post, |pre|) == Length(ReadsAs(len), |pre| + 1 + |digits|)
  {
    AtMostFourDigits(len);
    hide LengthDigits, Accumulate, BitOr, BitAnd, LengthAt, ToInt32;
    var digits := LengthDigits(len);
    var pre' := pre + [0x80 + |digits|];
    var buffer := pre + ([0x80 + |digits|] + digits) + post;
    assert buffer == pre' + digits + post && buffer[|pre|] == 0x80 + |digits|;
    LongFormAt(buffer, |pre|, |digits|);
    var n := ToInt32(len);
    DigitsOfLength(len, n);
    SameLowOctet(len);
    if n > 0 {
      DigitsFoldBack(n, pre', post);
    } else {
      OneDigit(buffer, |pre'|, len % 0x100);
    }
  }

  lemma OneDigit(buffer: Buffer, from: nat, digit: Byte)
    requires from < |buffer| && buffer[from] == digit
    ensures Accumulate(buffer, from, 1, 0) == digit
  {
    AppendByte(0, digit);
    hide BitOr, Shl;
    assert Accumulate(buffer, from, 0, 0) == 0;
  }

  // ---- Elements ----

  datatype Element = Element(tag: Byte, content: Buffer)

  function Tlv(tag: Byte, content: Buffer): Buffer {
    [tag] + LengthOctets(|content|) + content
  }

  function Flat(elements: seq<Element>): Buffer {
    if elements == [] then []
    else Tlv(elements[0].tag, elements[0].content) + Flat(elements[1..])
  }

  function OctetStrings(elements: seq<Element>): seq<JsString> {
    if elements == [] then []
    else (if elements[0].tag == 0x04 then [FromAscii(elements[0].content)] else []) + OctetStrings(elements[1..])
  }

  // The loop takes up the element at i and goes on behind it.
  predicate Goes(buffer: Buffer, i: int) {
    i < |buffer| - 1 && After(buffer, i) <= |buffer|
  }

  // Behind the element at i. A length of four or more octets can read as
  // negative, so this may be at or before i.
  function After(buffer: Buffer, i: int): int {
    var l := LengthAt(buffer, i + 1);
    l.next + l.len
  }

  function Collected(buffer: Buffer, i: int, values: seq<JsString>): seq<JsString> {
    var next := LengthAt(buffer, i + 1).next;
    if At(buffer, i) == Some(0x04) then values + [FromAscii(Subarray(buffer, next, After(buffer, i)))] else values
  }

  datatype Walked = Done(values: seq<JsString>) | Unfinished

  // The walk from position i, looked at after `steps` elements.
  function WalkFrom(buffer: Buffer, i: int, values: seq<JsString>, steps: nat): Walked
    decreases steps
  {
    if !Goes(buffer, i) then Done(values)
    else if steps == 0 then Unfinished
    else WalkFrom(buffer, After(buffer, i), Collected(buffer, i, values), steps - 1)
  }

  // More elements than there are positions the loop can be at: a walk that
  // takes them all never ends.
  function Enough(buffer: Buffer): nat {
    |buffer| + TWO31
  }

  // What the source's loop returns; unfinished if it does not return.
  function Parse(buffer: Buffer): Walked {
    WalkFrom(buffer, 0, [], Enough(buffer))
  }

  method ParseVarBindValues(buffer: Buffer) returns (r: Walked)
    ensures r == Parse(buffer)
  {
    hide LengthAt, FromAscii, Subarray, At;
    var values: seq<JsString>, i: int, left := [], 0, Enough(buffer);
    while i < |buffer| - 1
      invariant WalkFrom(buffer, i, values, left) == Parse(buffer)
      decreases left
    {
      var tag := At(buffer, i);
      var l := ReadLength(buffer, i + 1);
      if l.next + l.len > |buffer| {
        break;
      }
      if left == 0 {
        return Unfinished; // from here on the loop repeats itself
      }
      if tag == Some(0x04) {
        values := values + [FromAscii(Subarray(buffer, l.next, l.next + l.len))];
      }
      i := l.next + l.len;
      left := left - 1;
    }
    r := Done(values);
  }

  ghost predicate AllShort(elements: seq<Element>) {
    forall e :: e in elements ==> |e.content| < TWO31
  }

  // Walking over elements whose contents are below 2^31 octets, in front of
  // any octets, collects the octet strings among them, in order and none
  // else, in one step per element.
  lemma {:induction false} WalkOverShort(pre: Buffer, elements: seq<Element>, post: Buffer, values: seq<JsString>,
                                         steps: nat)
    requires steps >= |elements| && AllShort(elements)
    ensures WalkFrom(pre + Flat(elements) + post, |pre|, values, steps)
         == WalkFrom(pre + Flat(elements) + post, |pre + Flat(elements)|, values + OctetStrings(elements),
                     steps - |elements|)
    decreases |elements|
  {
    hide WalkFrom, Tlv, FromAscii, OctetStrings, Flat;
    HeadOfList(pre, elements, post, values);
    if elements != [] {
      var e, rest := elements[0], elements[1..];
      var pre' := pre + Tlv(e.tag, e.content);
      assert forall x :: x in rest ==> x in elements;
      var values' := if e.tag == 0x04 then values + [FromAscii(e.content)] else values;
      assert e in elements;
      WalkStep(pre, e, Flat(rest) + post, values, steps);
      WalkOverShort(pre', rest, post, values', steps - 1);
    }
  }

  lemma HeadOfList(pre: Buffer, elements: seq<Element>, post: Buffer, values: seq<JsString>)
    ensures elements == [] ==> pre + Flat(elements) == pre && values + OctetStrings(elements) == values
    ensures elements != [] ==>
      var e, rest := elements[0], elements[1..];
      var pre' := pre + Tlv(e.tag, e.content);
      && pre + Flat(elements) == pre' + Flat(rest)
      && pre + Flat(elements) + post == pre' + (Flat(rest) + post) == pre' + Flat(rest) + post
      && values + OctetStrings(elements)
           == (if e.tag == 0x04 then values + [FromAscii(e.content)] else values) + OctetStrings(rest)
  {
    hide Tlv, FromAscii;
    if elements != [] {
      var e, rest := elements[0], elements[1..];
      Associative(pre, Tlv(e.tag, e.content), Flat(rest));
      Associative(pre + Tlv(e.tag, e.content), Flat(rest), post);
      Associative(values, if e.tag == 0x04 then [FromAscii(e.content)] else [], OctetStrings(rest));
      assert values + [] == values;
    }
  }

  lemma WalkStep(pre: Buffer, e: Element, rest: Buffer, values: seq<JsString>, steps: nat)
    requires |e.content| < TWO31 && steps > 0
    ensures var pre' := pre + Tlv(e.tag, e.content);
      WalkFrom(pre' + rest, |pre|, values, steps)
        == WalkFrom(pre' + rest, |pre'|, if e.tag == 0x04 then values + [FromAscii(e.content)] else values, steps - 1)
  {
    hide LengthAt, Tlv, FromAscii, Subarray, At;
    OneElement(pre, e, rest);
    assert e.content[..|e.content|] == e.content;
  }

  // What the walk sees of one element at the head of the rest: as much of its
  // content as its length reads back as.
  lemma OneElement(pre: Buffer, e: Element, rest: Buffer)
    ensures var buffer := pre + Tlv(e.tag, e.content) + rest;
      var l := LengthAt(buffer, |pre| + 1);
      && |buffer| >= |pre| + 2
      && At(buffer, |pre|) == Some(e.tag)
      && l.len == ReadsAs(|e.content|)
      && l.next + |e.content| == |pre + Tlv(e.tag, e.content)|
      && Subarray(buffer, l.next, l.next + l.len) == e.content[..l.len]
  {
    hide LengthAt, ReadsAs;
    var octets := LengthOctets(|e.content|);
    var buffer := pre + Tlv(e.tag, e.content) + rest;
    var pre1 := pre + [e.tag];
    assert buffer == pre1 + octets + (e.content + rest);
    LengthRoundTrip(|e.content|, pre1, e.content + rest);
    hide LengthOctets;
    var next := |pre1| + |octets|;
    assert buffer[next..next + |e.content|] == e.content;
    assert buffer[next..next + |e.content|][..ReadsAs(|e.content|)] == buffer[next..next + ReadsAs(|e.content|)];
  }

  lemma {:induction false} FlatIsLonger(elements: seq<Element>)
    ensures |elements| <= |Flat(elements)|
  {
    if elements != [] {
      FlatIsLonger(elements[1..]);
    }
  }

  lemma {:induction false} ValuesOnlyGrow(buffer: Buffer, i: int, values: seq<JsString>, steps: nat)
    ensures var r := WalkFrom(buffer, i, values, steps);
      r.Done? ==> |r.values| >= |values| && r.values[..|values|] == values
    decreases steps
  {
    hide Goes, After, FromAscii, Subarray, LengthAt;
    if Goes(buffer, i) && steps > 0 {
      var values' := Collected(buffer, i, values);
      ValuesOnlyGrow(buffer, After(buffer, i), values', steps - 1);
      assert values'[..|values|] == values;
    }
  }

  // An octet string of 2^31 octets or more comes back cut short.
  lemma LongStringIsCut(pre: Buffer, e: Element, rest: Buffer, values: seq<JsString>, steps: nat)
    requires |e.content| >= TWO31 && e.tag == 0x04 && steps > 0
    ensures var r := WalkFrom(pre + Tlv(e.tag, e.content) + rest, |pre|, values, steps);
      r.Done? ==> |r.values| > |values| && |r.values[|values|]| < |e.content|
  {
    hide Tlv, FromAscii, WalkFrom;
    var buffer := pre + Tlv(e.tag, e.content) + rest;
    var bytes := e.content[..ReadsAs(|e.content|)];
    var values' := values + [FromAscii(bytes)];
    AsciiLength(bytes);
    StepCut(pre, e, rest, values, steps);
    ValuesOnlyGrow(buffer, After(buffer, |pre|), values', steps - 1);
    var r := WalkFrom(buffer, |pre|, values, steps);
    assert r.Done? ==> r.values[|values|] == r.values[..|values'|][|values|];
  }

  lemma StepCut(pre: Buffer, e: Element, rest: Buffer, values: seq<JsString>, steps: nat)
    requires e.tag == 0x04 && steps > 0
    ensures var buffer := pre + Tlv(e.tag, e.content) + rest;
      WalkFrom(buffer, |pre|, values, steps)
        == WalkFrom(buffer, After(buffer, |pre|), values + [FromAscii(e.content[..ReadsAs(|e.content|)])], steps - 1)
  {
    OneElement(pre, e, rest);
    hide LengthAt, Tlv, FromAscii, Subarray, At, ReadsAs;
  }

  // Parsing any flat sequence of elements gives back the contents of its
  // octet strings, in order, if all contents are below 2^31 octets. If the
  // first longer one is an octet string, it never does; if it is of another
  // kind, the walk goes on inside it, at the length it reads as.
  lemma ParsingInvertsEncoding(elements: seq<Element>)
    ensures AllShort(elements) ==> Parse(Flat(elements)) == Done(OctetStrings(elements))
    ensures forall k :: 0 <= k < |elements| && AllShort(elements[..k]) && |elements[k].content| >= TWO31 ==>
      if elements[k].tag == 0x04 then Parse(Flat(elements)) != Done(OctetStrings(elements))
      else Parse(Flat(elements)) == ParseInside(elements, k)
  {
    hide WalkFrom, OctetStrings, ReadsAs, Flat, AllShort;
    FlatIsLonger(elements);
    if AllShort(elements) {
      ParseShort(elements);
    }
    forall k | 0 <= k < |elements| && AllShort(elements[..k]) && |elements[k].content| >= TWO31
      ensures if elements[k].tag == 0x04 then Parse(Flat(elements)) != Done(OctetStrings(elements))
              else Parse(Flat(elements)) == ParseInside(elements, k)
    {
      ParseLong(elements, k);
    }
  }

  // The walk that has collected the octet strings before element k and stands
  // as far into k's content as its length reads.
  function ParseInside(elements: seq<Element>, k: nat): Walked
    requires k < |elements|
  {
    FlatIsLonger(elements);
    var content := elements[k].content;
    WalkFrom(Flat(elements),
             |Flat(elements[..k])| + 1 + |LengthOctets(|content|)| + ReadsAs(|content|),
             OctetStrings(elements[..k]),
             Enough(Flat(elements)) - k - 1)
  }

  lemma ParseShort(elements: seq<Element>)
    requires AllShort(elements)
    ensures Parse(Flat(elements)) == Done(OctetStrings(elements))
  {
    hide OctetStrings, Flat;
    var buffer := Flat(elements);
    FlatIsLonger(elements);
    assert [] + buffer + [] == buffer && [] + buffer == buffer;
    assert [] + OctetStrings(elements) == OctetStrings(elements);
    hide WalkFrom;
    WalkOverShort([], elements, [], [], Enough(buffer));
    EndOfBuffer(buffer, OctetStrings(elements), Enough(buffer) - |elements|);
  }

  lemma EndOfBuffer(buffer: Buffer, values: seq<JsString>, steps: nat)
    ensures WalkFrom(buffer, |buffer|, values, steps) == Done(values)
  {
  }

  lemma {:induction false} FlatSplit(elements: seq<Element>, k: nat)
    requires k < |elements|
    ensures var e := elements[k];
      && Flat(elements) == Flat(elements[..k]) + Tlv(e.tag, e.content) + Flat(elements[k + 1..])
      && OctetStrings(elements)
           == OctetStrings(elements[..k]) + (if e.tag == 0x04 then [FromAscii(e.content)] else [])
            + OctetStrings(elements[k + 1..])
  {
    hide Tlv, FromAscii;
    if k > 0 {
      var rest := elements[1..];
      FlatSplit(rest, k - 1);
      assert rest[..k - 1] == elements[..k][1..] && rest[k..] == elements[k + 1..] && elements[..k][0] == elements[0];
    }
  }

  lemma ParseLong(elements: seq<Element>, k: nat)
    requires k < |elements| <= |Flat(elements)| && AllShort(elements[..k]) && |elements[k].content| >= TWO31
    ensures elements[k].tag == 0x04 ==> Parse(Flat(elements)) != Done(OctetStrings(elements))
    ensures elements[k].tag != 0x04 ==> Parse(Flat(elements)) == ParseInside(elements, k)
  {
    hide WalkFrom, OctetStrings, Flat, Tlv, FromAscii;
    var e, pre, rest := elements[k], Flat(elements[..k]), Flat(elements[k + 1..]);
    var before := OctetStrings(elements[..k]);
    var buffer := Flat(elements);
    FlatSplit(elements, k);
    var left := Enough(buffer) - k;
    Associative(pre, Tlv(e.tag, e.content), rest);
    assert [] + pre == pre && [] + before == before;
    WalkOverShort([], elements[..k], Tlv(e.tag, e.content) + rest, [], Enough(buffer));
    assert Parse(buffer) == WalkFrom(buffer, |pre|, before, left);
    if e.tag == 0x04 {
      LongStringIsCut(pre, e, rest, before, left);
      assert OctetStrings(elements)[|before|] == FromAscii(e.content);
      AsciiLength(e.content);
    } else {
      StepInside(pre, e, rest, before, left);
    }
  }

  lemma AsciiLength(bytes: Buffer)
    ensures |FromAscii(bytes)| == |bytes|
  {
  }

  lemma StepInside(pre: Buffer, e: Element, rest: Buffer, values: seq<JsString>, steps: nat)
    requires e.tag != 0x04 && steps > 0
    ensures var buffer := pre + Tlv(e.tag, e.content) + rest;
      WalkFrom(buffer, |pre|, values, steps)
        == WalkFrom(buffer, |pre| + 1 + |LengthOctets(|e.content|)| + ReadsAs(|e.content|), values, steps - 1)
  {
    OneElement(pre, e, rest);
    assert |Tlv(e.tag, e.content)| == 1 + |LengthOctets(|e.content|)| + |e.content|;
    hide LengthAt, Tlv, FromAscii, Subarray, At, ReadsAs, LengthOctets;
  }

  // ---- When the walk ends ----

  // Where the loop stands after k elements, starting at i; none once it ended.
  function Position(buffer: Buffer, i: int, k: nat): Option<int>
    decreases k
  {
    if k == 0 then Some(i)
    else if Goes(buffer, i) then Position(buffer, After(buffer, i), k - 1)
    else None
  }

  lemma {:induction false} UnfinishedMeans(buffer: Buffer, i: int, values: seq<JsString>, steps: nat)
    ensures WalkFrom(buffer, i, values, steps).Unfinished? <==> Position(buffer, i, steps + 1).Some?
    decreases steps
  {
    hide Goes, After, Collected;
    if steps > 0 && Goes(buffer, i) {
      UnfinishedMeans(buffer, After(buffer, i), Collected(buffer, i, values), steps - 1);
    } else if Goes(buffer, i) {
      assert Position(buffer, After(buffer, i), 0).Some?;
    }
  }

  lemma {:induction false} PositionOnwards(buffer: Buffer, i: int, j: nat, k: nat, total: nat)
    requires total == j + k
    ensures Position(buffer, i, total)
         == if Position(buffer, i, j).Some? then Position(buffer, Position(buffer, i, j).value, k) else None
    decreases j
  {
    hide Goes, After;
    if j > 0 && Goes(buffer, i) {
      PositionOnwards(buffer, After(buffer, i), j - 1, k, total - 1);
    }
  }

  // Some position is reached twice.
  ghost predicate Returns(buffer: Buffer) {
    exists j: nat, k: nat :: j < k && Position(buffer, 0, j).Some? && Position(buffer, 0, j) == Position(buffer, 0, k)
  }

  lemma {:induction false} ReturningGoesOn(buffer: Buffer, j: nat, k: nat, n: nat)
    requires j < k && Position(buffer, 0, j).Some? && Position(buffer, 0, j) == Position(buffer, 0, k)
    ensures Position(buffer, 0, n).Some?
    decreases n
  {
    hide Position;
    if n <= k {
      PositionOnwards(buffer, 0, n, k - n, k);
    } else {
      ReturningGoesOn(buffer, j, k, n - (k - j));
      PositionOnwards(buffer, 0, k, n - k, n);
      PositionOnwards(buffer, 0, j, n - k, n - (k - j));
    }
  }

  // The loop stays within 2^31 positions before the buffer.
  lemma AfterIsNotFarBack(buffer: Buffer, i: int)
    requires i >= -TWO31
    ensures After(buffer, i) >= -TWO31
  {
    NextAdvances(buffer, i + 1);
    LengthIsInt32(buffer, i + 1);
    hide LengthAt;
  }

  lemma LengthIsInt32(buffer: Buffer, pos: int)
    ensures LengthAt(buffer, pos).len >= -TWO31
    ensures pos < 0 ==> LengthAt(buffer, pos) == Length(0, pos + 1)
  {
    hide Accumulate, BitAnd;
    var count := BitAnd(OrZero(At(buffer, pos)), 0x7f);
    LowSeven(OrZero(At(buffer, pos)));
    AccumulateIsInt32(buffer, pos + 1, count);
    NoOctetsNoLength(buffer, pos + 1);
  }

  lemma NoOctetsNoLength(buffer: Buffer, from: int)
    ensures Accumulate(buffer, from, 0, 0) == 0
  {
  }

  lemma {:induction false} PositionsAreBounded(buffer: Buffer, i: int, k: nat)
    requires i >= -TWO31 && Position(buffer, i, k + 1).Some?
    ensures Position(buffer, i, k).Some? && -TWO31 <= Position(buffer, i, k).value < |buffer| - 1
    decreases k
  {
    if k > 0 {
      AfterIsNotFarBack(buffer, i);
      hide After;
      PositionsAreBounded(buffer, After(buffer, i), k - 1);
    } else {
      hide After;
      assert Goes(buffer, i);
    }
  }

  lemma {:induction false} RangeSize(r: set<int>, low: int, high: int)
    requires low <= high && forall x :: x in r ==> low <= x < high
    ensures |r| <= high - low
    decreases high - low
  {
    if low < high {
      RangeSize(r - {high - 1}, low, high - 1);
    } else {
      assert r == {};
    }
  }

  lemma {:induction false} DistinctSize(s: seq<int>)
    requires forall j, k :: 0 <= j < k < |s| ==> s[j] != s[k]
    ensures |set x | x in s| == |s|
  {
    if s != [] {
      var front, last := s[..|s| - 1], s[|s| - 1];
      DistinctSize(front);
      assert s == front + [last];
      assert (set x | x in s) == (set x | x in front) + {last};
    }
  }

  lemma Pigeonhole(s: seq<int>, low: int, high: int)
    requires low <= high && |s| > high - low && forall x :: x in s ==> low <= x < high
    ensures exists j, k :: 0 <= j < k < |s| && s[j] == s[k]
  {
    if forall j, k :: 0 <= j < k < |s| ==> s[j] != s[k] {
      DistinctSize(s);
      RangeSize((set x | x in s), low, high);
    }
  }

  lemma EnoughReturns(buffer: Buffer)
    requires Position(buffer, 0, Enough(buffer) + 1).Some?
    ensures Returns(buffer)
  {
    hide Position;
    var n := Enough(buffer) + 1;
    forall k: nat | k < n
      ensures Position(buffer, 0, k).Some? && -TWO31 <= Position(buffer, 0, k).value < |buffer| - 1
    {
      PositionOnwards(buffer, 0, k + 1, n - (k + 1), n);
      PositionsAreBounded(buffer, 0, k);
    }
    var positions := seq(n, k requires 0 <= k < n => Position(buffer, 0, k).value);
    Pigeonhole(positions, -TWO31, |buffer|);
    var j, k :| 0 <= j < k < n && positions[j] == positions[k];
    assert Position(buffer, 0, j) == Position(buffer, 0, k);
  }

  lemma ReturningNeverEnds(buffer: Buffer, steps: nat)
    requires Returns(buffer)
    ensures WalkFrom(buffer, 0, [], steps).Unfinished?
  {
    var j: nat, k: nat :|
      j < k && Position(buffer, 0, j).Some? && Position(buffer, 0, j) == Position(buffer, 0, k);
    ReturningGoesOn(buffer, j, k, steps + 1);
    UnfinishedMeans(buffer, 0, [], steps);
  }

  // The loop runs for ever exactly if it comes back to a position.
  lemma EndlessIff(buffer: Buffer)
    ensures (forall steps: nat :: WalkFrom(buffer, 0, [], steps).Unfinished?) <==> Returns(buffer)
  {
    if Returns(buffer) {
      forall steps: nat ensures WalkFrom(buffer, 0, [], steps).Unfinished? {
        ReturningNeverEnds(buffer, steps);
      }
    } else {
      UnfinishedMeans(buffer, 0, [], Enough(buffer));
      if Position(buffer, 0, Enough(buffer) + 1).Some? {
        EnoughReturns(buffer);
      }
    }
  }

  lemma {:induction false} MoreStepsSameResult(buffer: Buffer, i: int, values: seq<JsString>, steps: nat, more: nat)
    requires steps <= more && WalkFrom(buffer, i, values, steps).Done?
    ensures WalkFrom(buffer, i, values, more) == WalkFrom(buffer, i, values, steps)
    decreases steps
  {
    hide Goes, After, Collected;
    if steps > 0 && Goes(buffer, i) {
      MoreStepsSameResult(buffer, After(buffer, i), Collected(buffer, i, values), steps - 1, more - 1);
    }
  }

  // Looking after that many elements loses nothing: a walk that ends at all
  // has ended by then, with the same values, and one that has not never does.
  lemma ParseIsExact(buffer: Buffer, steps: nat)
    ensures WalkFrom(buffer, 0, [], steps).Done? ==> Parse(buffer) == WalkFrom(buffer, 0, [], steps)
    ensures Parse(buffer).Unfinished? <==> Returns(buffer)
  {
    hide WalkFrom, Returns, Position;
    if Returns(buffer) {
      ReturningNeverEnds(buffer, Enough(buffer));
    }
    UnfinishedMeans(buffer, 0, [], Enough(buffer));
    if Parse(buffer).Unfinished? {
      EnoughReturns(buffer);
    }
    UnfinishedMeans(buffer, 0, [], steps);
    if WalkFrom(buffer, 0, [], steps).Done? {
      if Returns(buffer) {
        ReturningNeverEnds(buffer, steps);
      }
      MoreStepsSameResult(buffer, 0, [], if steps <= Enough(buffer) then steps else Enough(buffer),
                          if steps <= Enough(buffer) then Enough(buffer) else steps);
    }
  }

  // It ends, within one element per octet, if each element it takes up ends
  // behind where it starts. Nothing is asked of positions it never reaches.
  lemma {:induction false} WalkEnds(buffer: Buffer, i: nat, values: seq<JsString>, steps: nat)
    requires forall k: nat :: Position(buffer, i, k).Some? ==>
      var p := Position(buffer, i, k).value; Goes(buffer, p) ==> After(buffer, p) > p
    requires steps + i >= |buffer|
    ensures WalkFrom(buffer, i, values, steps).Done?
    decreases steps
  {
    hide After, Collected;
    if Goes(buffer, i) {
      assert Position(buffer, i, 0) == Some(i);
      forall k: nat | Position(buffer, After(buffer, i), k).Some?
        ensures var p := Position(buffer, After(buffer, i), k).value; Goes(buffer, p) ==> After(buffer, p) > p
      {
        assert Position(buffer, i, k + 1) == Position(buffer, After(buffer, i), k);
      }
      WalkEnds(buffer, After(buffer, i), Collected(buffer, i, values), steps - 1);
    }
  }

  // The premise is needed: an element of six octets whose length reads as -6.
  lemma WalkStandsStill(buffer: Buffer, steps: nat)
    requires buffer == [0x02, 0x84, 0xff, 0xff, 0xff, 0xfa]
    ensures WalkFrom(buffer, 0, [], steps).Unfinished?
  {
    MinusSix(buffer);
    hide After;
    assert Position(buffer, 0, 0) == Some(0);
    assert Position(buffer, 0, 1) == Position(buffer, 0, 0);
    ReturningGoesOn(buffer, 0, 1, steps + 1);
    UnfinishedMeans(buffer, 0, [], steps);
  }

  lemma MinusSix(buffer: Buffer)
    requires buffer == [0x02, 0x84, 0xff, 0xff, 0xff, 0xfa]
    ensures After(buffer, 0) == 0
  {
    hide BitOr, Shl, BitAnd;
    NoOctetsNoLength(buffer, 2);
    AppendByte(0, 0xff);
    AppendByte(0xff, 0xff);
    AppendByte(0xffff, 0xff);
    AppendNegative();
    assert Accumulate(buffer, 2, 1, 0) == 0xff;
    assert Accumulate(buffer, 2, 2, 0) == 0xffff;
    assert Accumulate(buffer, 2, 3, 0) == 0xff_ffff;
    assert Accumulate(buffer, 2, 4, 0) == -6;
    LongFormAt(buffer, 1, 4);
  }

  lemma AppendNegative()
    ensures BitOr(Shl(0xff_ffff, 8), 0xfa) == -6
  {
    Pow2Values();
    hide Pow2, Or;
    OrDisjoint(0xff_ffff, 0xfa, 8);
  }
}
