// DNS names on the wire (sections 3.1 and 4.1.4 of RFC 1035): the query
// encoder and the reader with compression pointers of the mDNS collector.
module DnsName {
  import opened Options
  import opened JsArithmetic
  import opened JsText
  import opened Bytes

  function NonEmpty(parts: seq<JsString>): seq<JsString> {
    if parts == [] then []
    else (if |parts[0]| == 0 then [] else [parts[0]]) + NonEmpty(parts[1..])
  }

  function LabelOctets(word: JsString): Buffer {
    [|word| % 0x100] + ToAscii(word)
  }

  function LabelsOctets(labels: seq<JsString>): Buffer {
    if labels == [] then [] else LabelOctets(labels[0]) + LabelsOctets(labels[1..])
  }

  function EncodeName(name: JsString): Buffer {
    LabelsOctets(NonEmpty(Split(name, DOT))) + [0]
  }

  // ---- Reading ----

  const MAX_LABELS := 64

  // What the loop has when it stops: the labels, the position after the last
  // octet it consumed (none once it is NaN), and whether it followed a pointer.
  datatype Labels = Labels(parts: seq<JsString>, end: Option<int>, jumped: bool)

  datatype Name = Name(name: JsString, next: Option<int>)

  function PointerAt(buffer: Buffer, pos: int): int {
    BitOr(Shl(BitAnd(OrZero(At(buffer, pos)), 0x3f), 8), OrZero(At(buffer, pos + 1)))
  }

  predicate IsPointer(octet: Byte) {
    BitAnd(octet, 0xc0) == 0xc0
  }

  // `stack` bounds the recursion through pointers; running out of it is the
  // exception that a cycle of pointers raises.
  function ReadLabels(buffer: Buffer, pos: Option<int>, budget: nat, stack: nat): Option<Labels>
    decreases stack, budget
  {
    if budget == 0 then Some(Labels([], pos, false))
    else
      var len := if pos.Some? then At(buffer, pos.value) else None;
      if len.None? then
        var rest := ReadLabels(buffer, None, budget - 1, stack);
        if rest.None? then None else Some(rest.value.(parts := [[]] + rest.value.parts))
      else if len.value == 0 then Some(Labels([], Some(pos.value + 1), false))
      else if IsPointer(len.value) then
        if stack == 0 then None
        else
          var target := ReadName(buffer, PointerAt(buffer, pos.value), stack - 1);
          if target.None? then None else Some(Labels([target.value.name], Some(pos.value + 2), true))
      else
        var word := FromAscii(Subarray(buffer, pos.value + 1, pos.value + 1 + len.value));
        var rest := ReadLabels(buffer, Some(pos.value + 1 + len.value), budget - 1, stack);
        if rest.None? then None else Some(rest.value.(parts := [word] + rest.value.parts))
  }

  function ReadName(buffer: Buffer, offset: int, stack: nat): Option<Name>
    decreases stack, MAX_LABELS + 1
  {
    var labels := ReadLabels(buffer, Some(offset), MAX_LABELS, stack);
    if labels.None? then None
    else Some(Name(Join(labels.value.parts, DOT), if labels.value.jumped then Some(offset + 2) else labels.value.end))
  }

  // One turn of the loop.
  lemma ReadsOn(buffer: Buffer, pos: Option<int>, budget: nat, stack: nat)
    requires budget > 0
    ensures var len := if pos.Some? then At(buffer, pos.value) else None;
      ReadLabels(buffer, pos, budget, stack)
        == if len.None? then Prepend([[]], ReadLabels(buffer, None, budget - 1, stack))
           else if len.value == 0 then Some(Labels([], Some(pos.value + 1), false))
           else if !IsPointer(len.value) then
             Prepend([FromAscii(Subarray(buffer, pos.value + 1, pos.value + 1 + len.value))],
                     ReadLabels(buffer, Some(pos.value + 1 + len.value), budget - 1, stack))
           else if stack == 0 || ReadName(buffer, PointerAt(buffer, pos.value), stack - 1).None? then None
           else Some(Labels([ReadName(buffer, PointerAt(buffer, pos.value), stack - 1).value.name],
                            Some(pos.value + 2), true))
  {
    hide PointerAt, IsPointer, FromAscii, Subarray;
  }

  lemma NameOfLabels(buffer: Buffer, offset: int, stack: nat)
    ensures var labels := ReadLabels(buffer, Some(offset), MAX_LABELS, stack);
      ReadName(buffer, offset, stack)
        == if labels.None? then None
           else Some(Name(Join(labels.value.parts, DOT),
                          if labels.value.jumped then Some(offset + 2) else labels.value.end))
  {
  }

  lemma OutOfBudget(buffer: Buffer, pos: Option<int>, stack: nat)
    ensures ReadLabels(buffer, pos, 0, stack) == Some(Labels([], pos, false))
  {
  }

  // The loop, with its early exits.
  method ReadLoop(buffer: Buffer, offset: int, stack: nat) returns (r: Option<Labels>)
    ensures r == ReadLabels(buffer, Some(offset), MAX_LABELS, stack)
    decreases stack, 0
  {
    var labels: seq<JsString>, pos, safety := [], Some(offset), 0;
    ghost var goal := ReadLabels(buffer, Some(offset), MAX_LABELS, stack);
    PrependNothing(goal);
    hide At, BitAnd, PointerAt, IsPointer, FromAscii, Subarray, ReadLabels, ReadName, Prepend;
    while safety < MAX_LABELS
      invariant safety <= MAX_LABELS
      invariant goal == Prepend(labels, ReadLabels(buffer, pos, MAX_LABELS - safety, stack))
      decreases MAX_LABELS - safety
    {
      ghost var turns: nat := MAX_LABELS - safety;
      ReadsOn(buffer, pos, turns, stack);
      safety := safety + 1;
      var len := if pos.Some? then At(buffer, pos.value) else None;
      if len == Some(0) {
        PrependLast(labels, [], Some(pos.value + 1), false);
        return Some(Labels(labels, Some(pos.value + 1), false));
      }
      if len.Some? && IsPointer(len.value) {
        if stack == 0 {
          PrependFailure(labels);
          return None;
        }
        var target := ReadNameAt(buffer, PointerAt(buffer, pos.value), stack - 1);
        if target.Some? {
          PrependLast(labels, [target.value.name], Some(pos.value + 2), true);
        }
        PrependFailure(labels);
        return if target.None? then None else Some(Labels(labels + [target.value.name], Some(pos.value + 2), true));
      }
      var word := if len.None? then [] else FromAscii(Subarray(buffer, pos.value + 1, pos.value + 1 + len.value));
      pos := if len.None? then None else Some(pos.value + 1 + len.value);
      PrependOne(labels, word, ReadLabels(buffer, pos, turns - 1, stack));
      labels := labels + [word];
    }
    OutOfBudget(buffer, pos, stack);
    PrependLast(labels, [], pos, false);
    r := Some(Labels(labels, pos, false));
  }

  method ReadNameAt(buffer: Buffer, offset: int, stack: nat) returns (r: Option<Name>)
    ensures r == ReadName(buffer, offset, stack)
    decreases stack, 1
  {
    NameOfLabels(buffer, offset, stack);
    hide ReadLabels, ReadName, Join;
    var labels := ReadLoop(buffer, offset, stack);
    if labels.None? {
      return None;
    }
    r := Some(Name(Join(labels.value.parts, DOT), if labels.value.jumped then Some(offset + 2) else labels.value.end));
  }

  function Prepend(parts: seq<JsString>, rest: Option<Labels>): Option<Labels> {
    if rest.None? then None else Some(rest.value.(parts := parts + rest.value.parts))
  }

  lemma PrependNothing(rest: Option<Labels>)
    ensures Prepend([], rest) == rest
  {
    if rest.Some? {
      assert [] + rest.value.parts == rest.value.parts;
    }
  }

  lemma PrependLast(parts: seq<JsString>, last: seq<JsString>, end: Option<int>, jumped: bool)
    ensures Prepend(parts, Some(Labels(last, end, jumped))) == Some(Labels(parts + last, end, jumped))
    ensures parts + [] == parts
  {
  }

  lemma PrependFailure(parts: seq<JsString>)
    ensures Prepend(parts, None) == None
  {
  }

  lemma PrependOne(parts: seq<JsString>, word: JsString, rest: Option<Labels>)
    ensures Prepend(parts, Prepend([word], rest)) == Prepend(parts + [word], rest)
  {
    if rest.Some? {
      assert parts + ([word] + rest.value.parts) == (parts + [word]) + rest.value.parts;
    }
  }

  // ---- Round trip ----

  // A label the protocol allows: 1 to 63 ASCII characters, no dot.
  predicate IsLabel(word: JsString) {
    1 <= |word| <= 63 && IsAscii(word) && DOT !in word
  }

  predicate AreLabels(labels: seq<JsString>) {
    forall l :: l in labels ==> IsLabel(l)
  }

  lemma {:induction false} NonEmptyOfLabels(labels: seq<JsString>)
    requires AreLabels(labels)
    ensures NonEmpty(labels) == labels
  {
    if labels != [] {
      assert labels == [labels[0]] + labels[1..];
      assert IsLabel(labels[0]) && AreLabels(labels[1..]);
      NonEmptyOfLabels(labels[1..]);
    }
  }

  lemma EncodedLabels(labels: seq<JsString>)
    requires AreLabels(labels)
    ensures EncodeName(Join(labels, DOT)) == LabelsOctets(labels) + [0]
  {
    if labels == [] {
      assert Split([], DOT) == [[]];
      assert NonEmpty([[]]) == NonEmpty([]);
    } else {
      SplitUndoesJoin(labels, DOT);
      NonEmptyOfLabels(labels);
    }
  }

  lemma LowSix(octet: Byte)
    ensures BitAnd(octet, 0x3f) == octet % 0x40
  {
    Pow2Values();
    assert Pow2(6) == 0x40;
    AndLowMask(octet, 6);
    SmallMod(octet, TWO32);
    SmallMod(0x3f, TWO32);
    SmallMod(octet % 0x40, TWO32);
  }

  lemma TopTwo(octet: Byte)
    ensures BitAnd(octet, 0xc0) == octet - octet % 0x40
  {
    Pow2Values();
    assert Pow2(6) == 0x40;
    hide And, Pow2;
    AndHighMask(octet, 6, 8);
    SmallMod(octet, TWO32);
    SmallMod(0xc0, TWO32);
    SmallMod(octet - octet % 0x40, TWO32);
  }

  lemma NotAPointer(octet: Byte)
    requires octet < 0x40
    ensures !IsPointer(octet)
  {
    hide BitAnd;
    TopTwo(octet);
  }

  lemma PointerOctets(buffer: Buffer, pos: nat, target: nat)
    requires target < 0x4000 && pos + 1 < |buffer|
    requires buffer[pos] == 0xc0 + target / 0x100 && buffer[pos + 1] == target % 0x100
    ensures IsPointer(buffer[pos]) && PointerAt(buffer, pos) == target
  {
    hide BitAnd, BitOr, Shl;
    TopTwo(buffer[pos]);
    LowSix(buffer[pos]);
    AppendByte(target / 0x100, target % 0x100);
  }

  // One encoded label at the head of the rest.
  lemma OneLabel(pre: Buffer, word: JsString, rest: Buffer, budget: nat, stack: nat)
    requires IsLabel(word) && budget > 0
    ensures var pre' := pre + LabelOctets(word);
      ReadLabels(pre' + rest, Some(|pre|), budget, stack)
        == Prepend([word], ReadLabels(pre' + rest, Some(|pre'|), budget - 1, stack))
  {
    var pre' := pre + LabelOctets(word);
    var buffer := pre' + rest;
    assert buffer[|pre|] == |word|;
    assert buffer[|pre| + 1..|pre| + 1 + |word|] == ToAscii(word);
    NotAPointer(|word|);
    AsciiRoundTrip(word);
  }

  // What the loop makes of encoded labels at a position: as many as its
  // budget allows, and only with budget left also the terminating zero.
  ghost function Expected(start: nat, labels: seq<JsString>, budget: nat): Labels {
    if |labels| < budget then Labels(labels, Some(start + |LabelsOctets(labels)| + 1), false)
    else Labels(labels[..budget], Some(start + |LabelsOctets(labels[..budget])|), false)
  }

  lemma ExpectedNext(start: nat, labels: seq<JsString>, budget: nat)
    requires labels != [] && budget > 0
    ensures Prepend([labels[0]], Some(Expected(start + |LabelOctets(labels[0])|, labels[1..], budget - 1)))
         == Some(Expected(start, labels, budget))
  {
    hide LabelOctets;
    assert [labels[0]] + labels[1..] == labels;
    if |labels| >= budget {
      assert labels[..budget][1..] == labels[1..][..budget - 1];
      assert [labels[0]] + labels[1..][..budget - 1] == labels[..budget];
    }
  }

  lemma NoLabels(pre: Buffer, post: Buffer, budget: nat, stack: nat)
    ensures ReadLabels(pre + [0] + post, Some(|pre|), budget, stack) == Some(Expected(|pre|, [], budget))
  {
    assert (pre + [0] + post)[|pre|] == 0;
  }

  lemma NoBudget(buffer: Buffer, start: nat, labels: seq<JsString>, stack: nat)
    ensures ReadLabels(buffer, Some(start), 0, stack) == Some(Expected(start, labels, 0))
  {
  }

  lemma {:induction false} ReadsLabels(pre: Buffer, labels: seq<JsString>, post: Buffer, budget: nat, stack: nat)
    requires AreLabels(labels)
    ensures ReadLabels(pre + LabelsOctets(labels) + [0] + post, Some(|pre|), budget, stack)
         == Some(Expected(|pre|, labels, budget))
    decreases |labels|
  {
    hide IsLabel, ReadLabels, Expected, LabelOctets, Prepend;
    var buffer := pre + LabelsOctets(labels) + [0] + post;
    if budget == 0 {
      NoBudget(buffer, |pre|, labels, stack);
    } else if labels == [] {
      assert buffer == pre + [0] + post;
      NoLabels(pre, post, budget, stack);
    } else {
      var pre' := pre + LabelOctets(labels[0]);
      var rest := LabelsOctets(labels[1..]) + [0] + post;
      assert buffer == pre' + rest;
      assert buffer == pre' + LabelsOctets(labels[1..]) + [0] + post;
      OneLabel(pre, labels[0], rest, budget, stack);
      ReadsLabels(pre', labels[1..], post, budget - 1, stack);
      ExpectedNext(|pre|, labels, budget);
    }
  }

  // Reading undoes encoding, at any offset of any buffer: the name comes
  // back exactly up to 64 labels, and the position just past the encoding
  // exactly up to 63.
  lemma NameRoundTrip(pre: Buffer, labels: seq<JsString>, post: Buffer, stack: nat)
    requires AreLabels(labels)
    ensures var name := Join(labels, DOT);
      var r := ReadName(pre + EncodeName(name) + post, |pre|, stack);
      && r.Some?
      && (r.value.name == name <==> |labels| <= 64)
      && (r.value.next == Some(|pre| + |EncodeName(name)|) <==> |labels| <= 63)
  {
    hide ReadLabels, ReadName, EncodeName, LabelsOctets, Join, IsLabel;
    var name := Join(labels, DOT);
    EncodedLabels(labels);
    var buffer := pre + EncodeName(name) + post;
    assert buffer == pre + LabelsOctets(labels) + [0] + post;
    ReadsLabels(pre, labels, post, MAX_LABELS, stack);
    NameFromExpected(buffer, |pre|, labels, stack);
  }

  lemma NameFromExpected(buffer: Buffer, start: nat, labels: seq<JsString>, stack: nat)
    requires ReadLabels(buffer, Some(start), MAX_LABELS, stack) == Some(Expected(start, labels, MAX_LABELS))
    ensures var r := ReadName(buffer, start, stack);
      && r.Some?
      && (r.value.name == Join(labels, DOT) <==> |labels| <= 64)
      && (r.value.next == Some(start + |LabelsOctets(labels)| + 1) <==> |labels| <= 63)
  {
    hide ReadLabels, Expected, LabelsOctets, Join;
    ExpectedIsWholeIff(start, labels);
  }

  lemma ExpectedIsWholeIff(start: nat, labels: seq<JsString>)
    ensures var e := Expected(start, labels, MAX_LABELS);
      && !e.jumped
      && (Join(e.parts, DOT) == Join(labels, DOT) <==> |labels| <= 64)
      && (e.end == Some(start + |LabelsOctets(labels)| + 1) <==> |labels| <= 63)
  {
    if |labels| == 64 {
      assert labels[..64] == labels;
    } else if |labels| > 64 {
      assert labels == labels[..64] + labels[64..];
      LabelsOctetsConcat(labels[..64], labels[64..]);
      JoinLonger(labels[..64], labels[64..]);
    }
  }

  lemma {:induction false} LabelsOctetsConcat(a: seq<JsString>, b: seq<JsString>)
    ensures LabelsOctets(a + b) == LabelsOctets(a) + LabelsOctets(b)
  {
    if a == [] {
      assert a + b == b;
    } else {
      assert (a + b)[1..] == a[1..] + b;
      LabelsOctetsConcat(a[1..], b);
    }
  }

  lemma {:induction false} JoinLonger(a: seq<JsString>, b: seq<JsString>)
    requires a != [] && b != []
    ensures |Join(a + b, DOT)| > |Join(a, DOT)|
  {
    assert (a + b)[1..] == a[1..] + b;
    if |a| > 1 {
      JoinLonger(a[1..], b);
    }
  }

  // A name that is only a pointer to an encoded name (section 4.1.4) takes
  // two octets and reads as that name, again exactly up to 64 labels.
  lemma PointerRoundTrip(pre: Buffer, labels: seq<JsString>, post: Buffer, pos: nat, stack: nat)
    requires AreLabels(labels) && |pre| < 0x4000
    requires var buffer := pre + EncodeName(Join(labels, DOT)) + post;
      pos + 1 < |buffer| && buffer[pos] == 0xc0 + |pre| / 0x100 && buffer[pos + 1] == |pre| % 0x100
    ensures var r := ReadName(pre + EncodeName(Join(labels, DOT)) + post, pos, stack + 1);
      && r.Some?
      && r.value.next == Some(pos + 2)
      && (r.value.name == Join(labels, DOT) <==> |labels| <= 64)
  {
    var buffer := pre + EncodeName(Join(labels, DOT)) + post;
    PointerOctets(buffer, pos, |pre|);
    NameRoundTrip(pre, labels, post, stack);
    hide IsPointer, PointerAt;
    var target := ReadName(buffer, |pre|, stack).value.name;
    assert ReadLabels(buffer, Some(pos), MAX_LABELS, stack + 1) == Some(Labels([target], Some(pos + 2), true));
  }
}
