// Object identifiers: the collector's encoder, and a decoder written from
// sections 8.1.3 and 8.19 of ITU-T X.690.
module Oid {
  import opened Options
  import opened JsArithmetic
  import opened Bytes
  import opened Ber
  import opened Sequences

  // The octets before the last one of an arc, as the `>>= 7` loop makes them.
  function LeadingSevens(n: int): Buffer
    decreases if n > 0 then n else 0
  {
    if n <= 0 then []
    else
      ShrDecreases(n, 7);
      LeadingSevens(Shr(n, 7)) + [0x80 + n % 0x80]
  }

  function ArcOctets(arc: nat): Buffer {
    if arc < 0x80 then [arc] else LeadingSevens(Shr(arc, 7)) + [arc % 0x80]
  }

  function TailOctets(arcs: seq<nat>): Buffer {
    if arcs == [] then [] else ArcOctets(arcs[0]) + TailOctets(arcs[1..])
  }

  // The first two arcs share one octet. A missing second arc makes it NaN,
  // which the buffer stores as 0.
  function FirstOctet(arcs: seq<nat>): Byte {
    if |arcs| < 2 then 0 else (arcs[0] * 40 + arcs[1]) % 0x100
  }

  function OidContent(arcs: seq<nat>): Buffer {
    [FirstOctet(arcs)] + TailOctets(if |arcs| < 2 then [] else arcs[2..])
  }

  lemma NoTailOctets(arcs: seq<nat>)
    requires |arcs| == 0
    ensures TailOctets(arcs) == []
  {
  }

  // `oid.split('.').map(Number)` is the caller's; the arcs arrive as numbers.
  method EncodeOid(arcs: seq<nat>) returns (octets: Buffer)
    ensures octets == Tlv(0x06, OidContent(arcs))
  {
    var bytes: Buffer := [FirstOctet(arcs)];
    var tail := if |arcs| < 2 then [] else arcs[2..];
    ghost var content := OidContent(arcs);
    assert tail[0..] == tail;
    hide FirstOctet, OidContent, ArcOctets, TailOctets;
    for i := 0 to |tail|
      invariant bytes + TailOctets(tail[i..]) == content
    {
      var part := tail[i];
      var chunk := EncodeArc(part);
      TailOctetsCons(tail[i..]);
      assert tail[i..][1..] == tail[i + 1..];
      Associative(bytes, chunk, TailOctets(tail[i + 1..]));
      bytes := bytes + chunk;
    }
    NoTailOctets(tail[|tail|..]);
    assert bytes + [] == bytes;
    var length := EncodeLength(|bytes|);
    octets := [0x06] + length + bytes;
  }

  method EncodeArc(part: nat) returns (chunk: Buffer)
    ensures chunk == ArcOctets(part)
  {
    if part < 0x80 {
      return [part];
    }
    LowSeven(part);
    hide BitAnd, BitOr, Shr;
    chunk := [BitAnd(part, 0x7f)];
    var n := Shr(part, 7);
    while n > 0
      invariant LeadingSevens(n) + chunk == ArcOctets(part)
      decreases if n > 0 then n else 0
    {
      LowSeven(n);
      SetHighBit(n % 0x80);
      ShrDecreases(n, 7);
      var octet: Byte := BitOr(BitAnd(n, 0x7f), 0x80);
      Associative(LeadingSevens(Shr(n, 7)), [octet], chunk);
      chunk := [octet] + chunk;
      n := Shr(n, 7);
    }
    assert [] + chunk == chunk;
  }

  // ---- The decoder ----

  datatype Sub = Sub(value: nat, rest: Buffer)

  // One subidentifier: seven bits per octet, the last one without bit 8.
  function ReadSub(bytes: Buffer, value: nat): (r: Option<Sub>)
    ensures r.Some? ==> |r.value.rest| < |bytes|
  {
    if bytes == [] then None
    else if bytes[0] < 0x80 then Some(Sub(value * 0x80 + bytes[0], bytes[1..]))
    else ReadSub(bytes[1..], value * 0x80 + (bytes[0] - 0x80))
  }

  // All of them; no subidentifier may start with the octet 0x80.
  function ReadSubs(bytes: Buffer): Option<seq<nat>>
    decreases |bytes|
  {
    if bytes == [] then Some([])
    else if bytes[0] == 0x80 || ReadSub(bytes, 0).None? then None
    else
      var s := ReadSub(bytes, 0).value;
      var rest := ReadSubs(s.rest);
      if rest.None? then None else Some([s.value] + rest.value)
  }

  // The first subidentifier holds two arcs, 40 times the first plus the
  // second, where the first is at most 2.
  function DecodeOid(content: Buffer): Option<seq<nat>> {
    var subs := ReadSubs(content);
    if subs.None? || subs.value == [] then None
    else Some(FirstTwo(subs.value[0]) + subs.value[1..])
  }

  function FirstTwo(sub: nat): seq<nat> {
    var x := if sub < 40 then 0 else if sub < 80 then 1 else 2;
    [x, sub - 40 * x]
  }

  // ---- Round trip ----

  lemma {:induction false} LeadingSevensFoldBack(n: nat, rest: Buffer)
    requires n < TWO31
    ensures ReadSub(LeadingSevens(n) + rest, 0) == ReadSub(rest, n)
    ensures n > 0 ==> LeadingSevens(n) != [] && LeadingSevens(n)[0] > 0x80
    decreases n
  {
    hide LeadingSevens;
    if n == 0 {
      NoLeadingSevens();
      assert [] + rest == rest;
    } else {
      var octet := 0x80 + n % 0x80;
      LeadingSevensSplit(n);
      LeadingSevensFoldBack(n / 0x80, [octet] + rest);
      assert LeadingSevens(n) + rest == LeadingSevens(n / 0x80) + ([octet] + rest);
      assert ([octet] + rest)[1..] == rest;
    }
  }

  lemma NoLeadingSevens()
    ensures LeadingSevens(0) == []
  {
  }

  lemma LeadingSevensSplit(n: nat)
    requires 0 < n < TWO31
    ensures LeadingSevens(n) == LeadingSevens(n / 0x80) + [0x80 + n % 0x80]
    ensures n < 0x80 ==> n % 0x80 > 0 && LeadingSevens(n / 0x80) == []
  {
    ShiftDown(n, 7);
    Pow2Values();
  }

  // What an encoded arc reads back as. The shifts see it as a signed 32-bit
  // number: one that comes out negative keeps only its last seven bits.
  function Wrapped(arc: nat): nat {
    if ToInt32(arc) < 0 then arc % 0x80 else ToInt32(arc)
  }

  function AllWrapped(arcs: seq<nat>): seq<nat> {
    seq(|arcs|, i requires 0 <= i < |arcs| => Wrapped(arcs[i]))
  }

  lemma WrappedIff(arc: nat)
    ensures Wrapped(arc) == arc <==> arc < TWO31
  {
  }

  lemma SameLowSeven(arc: nat)
    ensures ToInt32(arc) % 0x80 == arc % 0x80
  {
    NestedMod(arc, 0x80, 0x200_0000);
  }

  // Every encoded arc, of whatever size, reads back as its wrapped value and
  // never starts with 0x80; so exactly those below 2^31 read back as themselves.
  lemma ArcReadsBack(arc: nat, rest: Buffer)
    ensures ArcOctets(arc) != [] && ArcOctets(arc)[0] != 0x80
    ensures ReadSub(ArcOctets(arc) + rest, 0) == Some(Sub(Wrapped(arc), rest))
    ensures Wrapped(arc) == arc <==> arc < TWO31
  {
    WrappedIff(arc);
    if arc < 0x80 {
      assert ([arc] + rest)[1..] == rest;
    } else {
      var n := ToInt32(arc);
      SameLowSeven(arc);
      LeadingOfArc(arc, n);
      hide ArcOctets, LeadingSevens, ToInt32, ReadSub;
      SevensReadBack(if n < 0 then 0 else n / 0x80, arc % 0x80, rest);
      NoLeadingSevens();
    }
  }

  lemma SevensReadBack(n: nat, last: nat, rest: Buffer)
    requires n < TWO31 && last < 0x80
    ensures (LeadingSevens(n) + [last])[0] != 0x80
    ensures ReadSub(LeadingSevens(n) + [last] + rest, 0) == Some(Sub(n * 0x80 + last, rest))
  {
    LeadingSevensFoldBack(n, [last] + rest);
    hide LeadingSevens;
    assert LeadingSevens(n) + [last] + rest == LeadingSevens(n) + ([last] + rest);
    assert ([last] + rest)[1..] == rest;
  }

  lemma LeadingOfArc(arc: nat, n: int)
    requires arc >= 0x80 && n == ToInt32(arc)
    ensures ArcOctets(arc) == (if n < 0 then [] else LeadingSevens(n / 0x80)) + [arc % 0x80]
  {
    Pow2Values();
    SmallMod(7, 32);
    hide Pow2;
    assert Shr(arc, 7) == n / 0x80;
  }

  // Reading one arc off the front, and then the others.
  lemma SubsCons(bytes: Buffer, arc: nat, rest: Buffer, arcs: seq<nat>)
    requires bytes != [] && bytes[0] != 0x80
    requires ReadSub(bytes, 0) == Some(Sub(arc, rest)) && ReadSubs(rest) == Some(arcs)
    ensures ReadSubs(bytes) == Some([arc] + arcs)
  {
    hide ReadSub;
  }

  lemma TailOctetsCons(arcs: seq<nat>)
    requires arcs != []
    ensures TailOctets(arcs) == ArcOctets(arcs[0]) + TailOctets(arcs[1..])
    ensures arcs == [arcs[0]] + arcs[1..] && arcs[0] in arcs
    ensures forall a :: a in arcs[1..] ==> a in arcs
  {
    hide ArcOctets;
  }

  lemma AllWrappedCons(arcs: seq<nat>)
    requires arcs != []
    ensures AllWrapped(arcs) == [Wrapped(arcs[0])] + AllWrapped(arcs[1..])
  {
    hide Wrapped;
  }

  // The arcs after the second read back as their wrapped values.
  lemma {:induction false} TailReadsBack(arcs: seq<nat>)
    ensures ReadSubs(TailOctets(arcs)) == Some(AllWrapped(arcs))
  {
    if arcs != [] {
      hide ArcOctets, TailOctets, ReadSub, ReadSubs, Wrapped;
      var rest := TailOctets(arcs[1..]);
      TailOctetsCons(arcs);
      ArcReadsBack(arcs[0], rest);
      TailReadsBack(arcs[1..]);
      AllWrappedCons(arcs);
      hide AllWrapped;
      SubsCons(ArcOctets(arcs[0]) + rest, Wrapped(arcs[0]), rest, AllWrapped(arcs[1..]));
    } else {
      assert AllWrapped(arcs) == arcs;
    }
  }

  lemma AllWrappedIff(arcs: seq<nat>)
    ensures AllWrapped(arcs) == arcs <==> forall i :: 0 <= i < |arcs| ==> arcs[i] < TWO31
  {
    hide Wrapped;
    forall i | 0 <= i < |arcs| ensures AllWrapped(arcs)[i] == arcs[i] <==> arcs[i] < TWO31 {
      WrappedIff(arcs[i]);
    }
  }

  // An object identifier by section 8.19.4: first arc 0, 1 or 2, second arc
  // below 40 under the first two; no bound on the others.
  predicate IsOid(arcs: seq<nat>) {
    |arcs| >= 2 && arcs[0] <= 2 && (arcs[0] < 2 ==> arcs[1] < 40)
  }

  // How many octets end a subidentifier.
  function LastOctets(bytes: Buffer): nat {
    if bytes == [] then 0 else (if bytes[0] < 0x80 then 1 else 0) + LastOctets(bytes[1..])
  }

  lemma {:induction false} LastOctetsConcat(a: Buffer, b: Buffer)
    ensures LastOctets(a + b) == LastOctets(a) + LastOctets(b)
  {
    if a == [] {
      assert a + b == b;
    } else {
      assert (a + b)[1..] == a[1..] + b;
      LastOctetsConcat(a[1..], b);
    }
  }

  lemma {:induction false} ReadSubUsesOneLast(bytes: Buffer, value: nat)
    requires ReadSub(bytes, value).Some?
    ensures LastOctets(bytes) == 1 + LastOctets(ReadSub(bytes, value).value.rest)
  {
    if bytes[0] >= 0x80 {
      ReadSubUsesOneLast(bytes[1..], value * 0x80 + (bytes[0] - 0x80));
    }
  }

  lemma {:induction false} SubsCountLasts(bytes: Buffer)
    requires ReadSubs(bytes).Some?
    ensures |ReadSubs(bytes).value| == LastOctets(bytes)
    decreases |bytes|
  {
    if bytes != [] {
      ReadSubUsesOneLast(bytes, 0);
      SubsCountLasts(ReadSub(bytes, 0).value.rest);
    }
  }

  // Decoding recovers an object identifier exactly when its first two arcs
  // fit the single octet the encoder gives them and all others are below
  // 2^31. A decoder that accepts has in particular seen no subidentifier with
  // a leading 0x80.
  lemma OidRoundTrip(arcs: seq<nat>)
    requires IsOid(arcs)
    ensures DecodeOid(OidContent(arcs)) == Some(arcs)
       <==> arcs[0] * 40 + arcs[1] < 0x80 && forall i :: 2 <= i < |arcs| ==> arcs[i] < TWO31
  {
    var head, tail, others := FirstOctet(arcs), TailOctets(arcs[2..]), AllWrapped(arcs[2..]);
    TailReadsBack(arcs[2..]);
    AllWrappedIff(arcs[2..]);
    WrappedLength(arcs[2..]);
    hide ArcOctets, TailOctets, ReadSub, ReadSubs, AllWrapped, FirstTwo;
    assert OidContent(arcs) == [head] + tail;
    assert forall i :: 2 <= i < |arcs| ==> arcs[i] == arcs[2..][i - 2];
    if head < 0x80 {
      ShortHead(head, tail, others);
      FirstTwoIff(arcs, head);
      SameParts(FirstTwo(head), others, arcs);
    } else {
      LongHead(head, tail, others);
    }
  }

  lemma FirstTwoIff(arcs: seq<nat>, head: Byte)
    requires IsOid(arcs) && head == FirstOctet(arcs) && head < 0x80
    ensures |FirstTwo(head)| == 2
    ensures FirstTwo(head) == arcs[..2] <==> arcs[0] * 40 + arcs[1] < 0x80
  {
    assert arcs[..2] == [arcs[0], arcs[1]];
  }

  lemma SameParts(firsts: seq<nat>, others: seq<nat>, arcs: seq<nat>)
    requires |firsts| == 2 <= |arcs|
    ensures firsts + others == arcs <==> firsts == arcs[..2] && others == arcs[2..]
  {
    assert arcs == arcs[..2] + arcs[2..];
    assert (firsts + others)[..2] == firsts && (firsts + others)[2..] == others;
  }

  lemma WrappedLength(arcs: seq<nat>)
    ensures |AllWrapped(arcs)| == |arcs|
  {
  }

  lemma ShortHead(head: Byte, tail: Buffer, arcs: seq<nat>)
    requires head < 0x80 && ReadSubs(tail) == Some(arcs)
    ensures ReadSubs([head] + tail) == Some([head] + arcs)
  {
    assert ([head] + tail)[1..] == tail;
    assert ReadSub([head] + tail, 0) == Some(Sub(head, tail));
  }

  // An octet with bit 8 set swallows the next subidentifier: one is missing.
  lemma LongHead(head: Byte, tail: Buffer, arcs: seq<nat>)
    requires head >= 0x80 && ReadSubs(tail) == Some(arcs)
    ensures ReadSubs([head] + tail).Some? ==> |ReadSubs([head] + tail).value| == |arcs|
  {
    SubsCountLasts(tail);
    LastOctetsConcat([head], tail);
    assert LastOctets([head]) == 0;
    if ReadSubs([head] + tail).Some? {
      SubsCountLasts([head] + tail);
    }
  }

  // Under a second arc below 40, as all of SNMP's are, only the later arcs
  // matter; SNMP allows them up to 2^32 - 1.
  lemma SnmpOidRoundTrip(arcs: seq<nat>)
    requires IsOid(arcs) && arcs[1] < 40
    ensures DecodeOid(OidContent(arcs)) == Some(arcs) <==> forall i :: 2 <= i < |arcs| ==> arcs[i] < TWO31
  {
    OidRoundTrip(arcs);
  }

  // What comes back otherwise, as long as the first octet is right.
  lemma DecodesWrapped(arcs: seq<nat>)
    requires IsOid(arcs) && arcs[0] * 40 + arcs[1] < 0x80
    ensures DecodeOid(OidContent(arcs)) == Some(arcs[..2] + AllWrapped(arcs[2..]))
  {
    var head, tail, others := FirstOctet(arcs), TailOctets(arcs[2..]), AllWrapped(arcs[2..]);
    TailReadsBack(arcs[2..]);
    hide ArcOctets, TailOctets, ReadSub, ReadSubs, AllWrapped;
    assert OidContent(arcs) == [head] + tail;
    ShortHead(head, tail, others);
    FirstTwoIff(arcs, head);
    DecodedSubs([head] + tail, head, others);
  }

  lemma DecodedSubs(content: Buffer, first: nat, others: seq<nat>)
    requires ReadSubs(content) == Some([first] + others)
    ensures DecodeOid(content) == Some(FirstTwo(first) + others)
  {
    hide ReadSubs, FirstTwo;
  }

  // For instance 1.3.2147483648 comes back as 1.3.0.
  lemma LargeArcIsLost(arcs: seq<nat>)
    requires arcs == [1, 3, TWO31]
    ensures DecodeOid(OidContent(arcs)) == Some([1, 3, 0])
  {
    hide DecodeOid, OidContent;
    DecodesWrapped(arcs);
    assert arcs[..2] == [1, 3] && arcs[2..] == [TWO31];
    assert AllWrapped(arcs[2..]) == [0] by {
      assert Wrapped(TWO31) == 0;
    }
    assert arcs[..2] + AllWrapped(arcs[2..]) == [1, 3] + [0] == [1, 3, 0];
  }
}
