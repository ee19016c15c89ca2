// The addresses swept for a CIDR range, computed with JavaScript's signed
// 32-bit shifts and masks.
module CidrSweep {
  import opened Options
  import opened JsArithmetic
  import opened Bytes

  const MAX_HOSTS_PER_SWEEP := 254

  datatype Address = Address(a: int, b: int, c: int, d: int)

  // The part after the slash, which defaults to 24.
  datatype Prefix = Missing | NotANumber | Bits(bits: int)

  function PrefixBits(p: Prefix): Option<int> {
    match p
    case Missing => Some(24)
    case NotANumber => None
    case Bits(bits) => Some(bits)
  }

  // `Math.min(2 ** hostBits, 256)`, where a negative exponent gives less than 1.
  function HostCount(hostBits: int): nat {
    if hostBits < 0 then 0 else if hostBits >= 8 then MAX_HOSTS_PER_SWEEP + 2 else Pow2(hostBits)
  }

  function BaseInt(o0: int, o1: int, o2: int, o3: int): nat {
    Ushr(BitOr(BitOr(BitOr(Shl(o0, 24), Shl(o1, 16)), Shl(o2, 8)), o3), 0)
  }

  function NetworkInt(baseInt: int, hostBits: nat): int {
    BitAnd(baseInt, Shl(0xffff_ffff, hostBits))
  }

  function Dotted(ipInt: int): Address {
    Address(BitAnd(Ushr(ipInt, 24), 255), BitAnd(Ushr(ipInt, 16), 255), BitAnd(Ushr(ipInt, 8), 255), BitAnd(ipInt, 255))
  }

  function Swept(baseInt: int, hostBits: nat, count: nat): seq<Address> {
    seq(count, i requires 0 <= i < count => Dotted(NetworkInt(baseInt, hostBits) + (i + 1)))
  }

  predicate IsRefused(octets: seq<Option<int>>, prefix: Prefix) {
    || |octets| != 4 || (exists o :: o in octets && o.None?)
    || PrefixBits(prefix).None?
    || 32 - PrefixBits(prefix).value > 16
    || HostCount(32 - PrefixBits(prefix).value) <= 2
  }

  function Expanded(octets: seq<Option<int>>, prefix: Prefix): seq<Address> {
    if IsRefused(octets, prefix) then []
    else
      var hostBits := 32 - PrefixBits(prefix).value;
      var baseInt := BaseInt(octets[0].value, octets[1].value, octets[2].value, octets[3].value);
      Swept(baseInt, hostBits, HostCount(hostBits) - 2)
  }

  method ExpandCidrHosts(octets: seq<Option<int>>, prefix: Prefix) returns (addresses: seq<Address>)
    ensures addresses == Expanded(octets, prefix)
  {
    hide BaseInt, NetworkInt, Dotted, Pow2;
    addresses := [];
    if |octets| != 4 || exists o :: o in octets && o.None? {
      return;
    }
    if PrefixBits(prefix).None? {
      return;
    }
    var hostBits := 32 - PrefixBits(prefix).value;
    var hostCount := HostCount(hostBits);
    if hostBits > 16 || hostCount <= 2 {
      return;
    }
    CountIsCapped(hostBits);
    var baseInt := BaseInt(octets[0].value, octets[1].value, octets[2].value, octets[3].value);
    var i := 1;
    while i < hostCount - 1 && |addresses| < MAX_HOSTS_PER_SWEEP
      invariant 1 <= i <= hostCount - 1 && |addresses| == i - 1
      invariant addresses == Swept(baseInt, hostBits, i - 1)
    {
      var ipInt := NetworkInt(baseInt, hostBits) + i;
      addresses := addresses + [Dotted(ipInt)];
      i := i + 1;
    }
  }

  lemma CountIsCapped(hostBits: int)
    ensures HostCount(hostBits) <= MAX_HOSTS_PER_SWEEP + 2
  {
    Pow2Values();
    if 0 <= hostBits < 8 {
      Pow2Monotone(hostBits, 8);
    }
  }

  // ---- The same, in plain arithmetic ----

  function Value(x: Address): int {
    x.a * 0x100_0000 + x.b * 0x1_0000 + x.c * 0x100 + x.d
  }

  predicate IsAddress(x: Address) {
    0 <= x.a < 0x100 && 0 <= x.b < 0x100 && 0 <= x.c < 0x100 && 0 <= x.d < 0x100
  }

  // `x | y` when y fits below the lowest bit of x.
  lemma OrAdds(x: int, y: int, a: nat, b: nat, k: nat)
    requires ToUint32(x) == a * Pow2(k) && ToUint32(y) == b < Pow2(k) && a * Pow2(k) + b < TWO32
    ensures ToUint32(BitOr(x, y)) == a * Pow2(k) + b
  {
    hide Or;
    OrDisjoint(a, b, k);
    SmallMod(a * Pow2(k) + b, TWO32);
  }

  lemma BaseIsValue(x: Address)
    requires IsAddress(x)
    ensures BaseInt(x.a, x.b, x.c, x.d) == Value(x) < TWO32
  {
    assert Pow2(0 % 32) == 1;
    hide BitOr, Shl, Pow2;
    Pow2Values();
    ShiftsOfOctets(x);
    var high, middle := BitOr(Shl(x.a, 24), Shl(x.b, 16)), x.a * 0x100 + x.b;
    OrAdds(Shl(x.a, 24), Shl(x.b, 16), x.a, x.b * 0x1_0000, 24);
    OrAdds(high, Shl(x.c, 8), middle, x.c * 0x100, 16);
    OrAdds(BitOr(high, Shl(x.c, 8)), x.d, middle * 0x100 + x.c, x.d, 8);
  }

  lemma ShiftsOfOctets(x: Address)
    requires IsAddress(x)
    ensures ToUint32(Shl(x.a, 24)) == x.a * 0x100_0000
    ensures ToUint32(Shl(x.b, 16)) == x.b * 0x1_0000
    ensures ToUint32(Shl(x.c, 8)) == x.c * 0x100
    ensures ToUint32(x.d) == x.d
  {
    Pow2Values();
    SmallMod(x.a * 0x100_0000, TWO32);
    SmallMod(x.b * 0x1_0000, TWO32);
    SmallMod(x.c * 0x100, TWO32);
    SmallMod(x.d, TWO32);
  }

  lemma MaskKeepsPrefix(base: nat, hostBits: nat)
    requires base < TWO32 && hostBits <= 16
    ensures ToUint32(NetworkInt(base, hostBits)) == Kept(base, Pow2(hostBits))
  {
    hide And, Kept, Pow2, Shl, ToUint32, BitAnd;
    HighMaskKeeps(base, hostBits);
    MaskValue(hostBits);
    MaskedValue(base, Shl(0xffff_ffff, hostBits), Kept(base, Pow2(hostBits)));
  }

  lemma HighMaskKeeps(base: nat, hostBits: nat)
    requires base < TWO32 && hostBits <= 16
    ensures Pow2(hostBits) <= TWO32 && And(base, TWO32 - Pow2(hostBits)) == Kept(base, Pow2(hostBits))
  {
    Pow2Values();
    AndHighMask(base, hostBits, 32);
  }

  function Kept(base: nat, m: nat): (r: nat)
    requires m > 0
    ensures r <= base
  {
    ModBounds(base, m);
    base - base % m
  }

  lemma MaskedValue(base: nat, mask: int, kept: nat)
    requires base < TWO32 && kept <= base && And(base, ToUint32(mask)) == kept
    ensures ToUint32(BitAnd(base, mask)) == kept
  {
    hide And;
    SmallUint(base);
    SmallUint(kept);
  }

  lemma ModBounds(a: nat, m: nat)
    requires m > 0
    ensures 0 <= a % m <= a
  {
    assert a == m * (a / m) + a % m;
    DivNonNegative(a, m);
    MulNonNegative(m, a / m);
  }

  lemma MulNonNegative(a: nat, b: nat)
    ensures a * b >= 0
  {
  }

  lemma MaskValue(hostBits: nat)
    requires hostBits <= 16
    ensures ToUint32(Shl(0xffff_ffff, hostBits)) == TWO32 - Pow2(hostBits)
  {
    var p := Pow2(hostBits);
    Pow2Values();
    Pow2Monotone(hostBits, 16);
    SmallMod(hostBits, 32);
    ModUnique(0xffff_ffff * p, TWO32, p - 1, TWO32 - p);
  }

  lemma OctetsOfValue(v: int)
    ensures IsAddress(Dotted(v)) && Value(Dotted(v)) == ToUint32(v)
  {
    UnsignedShifts(v);
    LowByte(Ushr(v, 24));
    LowByte(Ushr(v, 16));
    LowByte(Ushr(v, 8));
    LowByte(v);
    Pow2Values();
    LowBits(v, 8);
    hide BitAnd, Ushr, ToUint32, Pow2;
    Digits256(ToUint32(v));
  }

  lemma UnsignedShifts(v: int)
    ensures Ushr(v, 24) == ToUint32(v) / 0x100_0000
    ensures Ushr(v, 16) == ToUint32(v) / 0x1_0000
    ensures Ushr(v, 8) == ToUint32(v) / 0x100
  {
    Pow2Values();
  }

  lemma Digits256(u: nat)
    requires u < TWO32
    ensures u / 0x100_0000 % 0x100 == u / 0x100_0000
    ensures u == u / 0x100_0000 * 0x100_0000 + u / 0x1_0000 % 0x100 * 0x1_0000 + u / 0x100 % 0x100 * 0x100 + u % 0x100
  {
    var q1 := u / 0x100;
    var q2 := q1 / 0x100;
    assert q2 == u / 0x1_0000 && q2 / 0x100 == u / 0x100_0000;
  }

  // Position k of the sweep is the address k + 1 past the network address:
  // nothing carries into the prefix bits and nothing wraps.
  lemma SweepIsConsecutive(x: Address, hostBits: nat, count: nat, k: nat)
    requires IsAddress(x) && 1 <= hostBits <= 16 && k < count <= Pow2(hostBits) - 2
    ensures var network := Value(x) - Value(x) % Pow2(hostBits);
      var swept := Swept(BaseInt(x.a, x.b, x.c, x.d), hostBits, count)[k];
      IsAddress(swept) && Value(swept) == network + 1 + k
  {
    hide BaseInt, NetworkInt, Dotted, Pow2, Value, ToUint32;
    var base := Value(x);
    BaseIsValue(x);
    MaskKeepsPrefix(base, hostBits);
    var n := NetworkInt(base, hostBits);
    OctetsOfValue(n + (k + 1));
    NetworkHasRoom(base, hostBits);
    NoWrap(n, base - base % Pow2(hostBits), k + 1);
  }

  lemma NoWrap(n: int, u: nat, more: nat)
    requires ToUint32(n) == u && u + more < TWO32
    ensures ToUint32(n + more) == u + more
  {
    ModUnique(n + more, TWO32, n / TWO32, u + more);
  }

  lemma NetworkHasRoom(base: nat, hostBits: nat)
    requires base < TWO32 && hostBits <= 32
    ensures 0 <= base - base % Pow2(hostBits) <= TWO32 - Pow2(hostBits)
  {
    Pow2Values();
    Pow2Adds(hostBits, 32 - hostBits);
    hide Pow2;
    FloorMultipleFits(base, Pow2(hostBits), Pow2(32 - hostBits));
    ModBounds(base, Pow2(hostBits));
  }

  lemma FloorMultipleFits(base: nat, m: nat, c: nat)
    requires m > 0 && base < m * c
    ensures base - base % m <= m * c - m
  {
    var q := base / m;
    assert base == m * q + base % m;
    if q >= c {
      MulUp(m, c, q);
    } else {
      MulUp(m, q + 1, c);
      assert m * (q + 1) == m * q + m;
    }
  }

  lemma MulUp(m: nat, a: int, b: int)
    requires a <= b
    ensures m * a <= m * b
  {
  }

  // How many addresses are swept: none for malformed octets, else by prefix
  // length alone.
  lemma SweepSize(octets: seq<Option<int>>, p: int)
    ensures |Expanded(octets, Bits(p))|
         == if |octets| != 4 || None in octets then 0
            else if 24 <= p <= 30 then Pow2(32 - p) - 2
            else if 16 <= p <= 23 then 254
            else 0
  {
    hide BaseInt;
    Pow2Values();
    if 0 <= 32 - p < 2 {
      Pow2Monotone(32 - p, 1);
    } else if 2 <= 32 - p {
      Pow2Monotone(2, 32 - p);
    }
  }

  function Octets(x: Address): seq<Option<int>> {
    [Some(x.a), Some(x.b), Some(x.c), Some(x.d)]
  }

  // For every address and every prefix length: consecutive, hence distinct,
  // addresses inside the subnet, without its network and broadcast addresses.
  lemma SweepStaysInside(x: Address, p: int, k: nat)
    requires IsAddress(x) && k < |Expanded(Octets(x), Bits(p))|
    ensures 16 <= p <= 30
    ensures var size := Pow2(32 - p);
      var network := Value(x) - Value(x) % size;
      var swept := Expanded(Octets(x), Bits(p))[k];
      && IsAddress(swept)
      && Value(swept) == network + 1 + k
      && network < Value(swept) < network + size - 1
  {
    hide BaseInt, Swept, Value;
    Pow2Values();
    SweepSize(Octets(x), p);
    if 32 - p >= 8 {
      Pow2Monotone(8, 32 - p);
    }
    SweepIsConsecutive(x, 32 - p, HostCount(32 - p) - 2, k);
  }

  // Without a prefix length the range is a /24; one that is not a number
  // sweeps nothing.
  lemma DefaultPrefix(octets: seq<Option<int>>)
    ensures Expanded(octets, Missing) == Expanded(octets, Bits(24))
    ensures Expanded(octets, NotANumber) == []
  {
  }
}
