/** IPv4 literals, including the legacy forms, and the blocks that must not be fetched. */
module Ip {
  import opened Common
  import opened Text
  import opened Numerals

  const TWO32: nat := 0x1_0000_0000

  // ----- Parsing -----

  predicate IsHexForm(part: string) {
    |part| > 2 && part[0] == '0' && (part[1] == 'x' || part[1] == 'X') && AllDigits(part[2..], 16)
  }

  predicate IsOctalForm(part: string) {
    |part| > 1 && part[0] == '0' && AllDigits(part[1..], 8)
  }

  function ParsePart(part: string): Option<nat> {
    if IsHexForm(part) then Some(Value(part[2..], 16))
    else if IsOctalForm(part) then Some(Value(part[1..], 8))
    else if part != "" && AllDigits(part, 10) then Some(Value(part, 10))
    else None
  }

  function ParseParts(parts: seq<string>): Option<seq<nat>> {
    if parts == [] then Some([])
    else
      match ParsePart(parts[0])
      case None => None
      case Some(v) =>
        match ParseParts(parts[1..])
        case None => None
        case Some(vs) => Some([v] + vs)
  }

  /** One more than the greatest value of the last of `count` parts. */
  function LastRange(count: nat): nat
    requires 1 <= count <= 4
  {
    [TWO32, 0x100_0000, 0x1_0000, 0x100][count - 1]
  }

  function Bytes(acc: nat, values: seq<nat>): nat
    decreases |values|
  {
    if values == [] then acc else Bytes(acc * 256 + values[0], values[1..])
  }

  predicate InBounds(values: seq<nat>)
    requires 1 <= |values| <= 4
  {
    && (forall i :: 0 <= i < |values| - 1 ==> values[i] <= 0xff)
    && values[|values| - 1] < LastRange(|values|)
  }

  function Combine(values: seq<nat>): nat
    requires 1 <= |values| <= 4
  {
    Bytes(0, values[..|values| - 1]) * LastRange(|values|) + values[|values| - 1]
  }

  /** `x >>> 0`. */
  function ToUint32(x: nat): nat {
    x % TWO32
  }

  function ParseIpv4(input: string): Option<nat> {
    var parts := Split(input, '.');
    if |parts| > 4 || "" in parts then None
    else
      match ParseParts(parts)
      case None => None
      case Some(values) =>
        if |values| == |parts| && InBounds(values) then Some(ToUint32(Combine(values))) else None
  }

  method ParsePartText(part: string) returns (r: Option<nat>)
    requires part != ""
    ensures r == ParsePart(part)
  {
    var radix: nat, digits := 10, part;
    if IsHexForm(part) {
      radix, digits := 16, part[2..];
    } else if IsOctalForm(part) {
      radix, digits := 8, part[1..];
    }
    if !AllDigits(digits, radix) {
      return None;
    }
    var value: nat := 0;
    var i := 0;
    while i < |digits|
      invariant 0 <= i <= |digits|
      invariant ReadFrom(value, digits[i..], radix) == Value(digits, radix)
    {
      assert digits[i..][1..] == digits[i + 1..];
      value := value * radix + DigitOf(digits[i]);
      i := i + 1;
    }
    assert digits[|digits|..] == "";
    return Some(value);
  }

  function After(values: seq<nat>, rest: Option<seq<nat>>): Option<seq<nat>> {
    if rest.None? then None else Some(values + rest.value)
  }

  method ParseAll(parts: seq<string>) returns (r: Option<seq<nat>>)
    requires "" !in parts
    ensures r == ParseParts(parts)
    ensures r.Some? ==> |r.value| == |parts|
  {
    hide ParsePart;
    var values: seq<nat> := [];
    var i := 0;
    assert parts[0..] == parts;
    assert ParseParts(parts).Some? ==> values + ParseParts(parts).value == ParseParts(parts).value;
    while i < |parts|
      invariant 0 <= i <= |parts| && |values| == i
      invariant ParseParts(parts) == After(values, ParseParts(parts[i..]))
    {
      assert parts[i..][1..] == parts[i + 1..];
      assert parts[i] in parts;
      var v := ParsePartText(parts[i]);
      if v.None? {
        return None;
      }
      var rest := ParseParts(parts[i + 1..]);
      assert rest.Some? ==> values + ([v.value] + rest.value) == values + [v.value] + rest.value;
      values := values + [v.value];
      i := i + 1;
    }
    assert parts[i..] == [];
    assert values + [] == values;
    return Some(values);
  }

  method ParseIpv4Text(input: string) returns (r: Option<nat>)
    ensures r == ParseIpv4(input)
  {
    var parts := Split(input, '.');
    if |parts| > 4 || "" in parts {
      return None;
    }
    var parsed := ParseAll(parts);
    if parsed.None? {
      return None;
    }
    var values := parsed.value;
    var i := 0;
    var result: nat := 0;
    while i < |values| - 1
      invariant 0 <= i <= |values| - 1
      invariant forall j :: 0 <= j < i ==> values[j] <= 0xff
      invariant Bytes(result, values[i..|values| - 1]) == Bytes(0, values[..|values| - 1])
    {
      if values[i] > 0xff {
        return None;
      }
      assert values[i..|values| - 1][1..] == values[i + 1..|values| - 1];
      result := result * 256 + values[i];
      i := i + 1;
    }
    if values[|values| - 1] >= LastRange(|values|) {
      return None;
    }
    return Some(ToUint32(result * LastRange(|values|) + values[|values| - 1]));
  }

  // ----- Every way of writing an address is read back -----

  datatype Style = Decimal | Octal(zeros: nat) | Hex(zeros: nat, upperX: bool)

  function PrintPart(v: nat, style: Style): string {
    match style
    case Decimal => Digits(v, 10)
    case Octal(zeros) => "0" + Zeros(zeros) + Digits(v, 8)
    case Hex(zeros, upperX) => (if upperX then "0X" else "0x") + Zeros(zeros) + Digits(v, 16)
  }

  lemma DecimalReadBack(v: nat)
    ensures var s := Digits(v, 10);
            '.' !in s && ParsePart(s) == Some(v)
  {
    var s := Digits(v, 10);
    DigitsAreDigits(v, 10);
    ReadDigits(v, 10);
    if |s| > 1 {
      assert s[0] != '0';
    }
    assert DigitOf('.') == 16;
  }

  lemma NoDot(s: string, base: nat)
    requires AllDigits(s, base) && base <= 16
    ensures '.' !in s
  {
    assert DigitOf('.') == 16;
  }

  lemma ParseOctal(tail: string)
    requires tail != "" && AllDigits(tail, 8)
    ensures ParsePart("0" + tail) == Some(Value(tail, 8))
  {
    hide Value;
    var s := "0" + tail;
    assert s[1..] == tail;
    assert DigitOf('x') == 16 && DigitOf('X') == 16 && tail[0] in tail && s[1] == tail[0];
  }

  lemma ParseHex(x: char, tail: string)
    requires tail != "" && AllDigits(tail, 16) && (x == 'x' || x == 'X')
    ensures ParsePart(['0', x] + tail) == Some(Value(tail, 16))
  {
    hide Value;
    assert (['0', x] + tail)[2..] == tail;
  }

  /** Leading zeros change nothing. */
  lemma PaddedDigits(v: nat, zeros: nat, base: nat)
    requires IsBase(base)
    ensures var tail := Zeros(zeros) + Digits(v, base);
            tail != "" && AllDigits(tail, base) && '.' !in tail && Value(tail, base) == v
  {
    DigitsAreDigits(v, base);
    ReadDigits(v, base);
    ReadZeros(zeros, Digits(v, base), base);
    hide Digits, Value;
    assert DigitOf('0') == 0;
    NoDot(Zeros(zeros) + Digits(v, base), base);
  }

  lemma OctalReadBack(v: nat, zeros: nat)
    ensures var s := "0" + Zeros(zeros) + Digits(v, 8);
            '.' !in s && ParsePart(s) == Some(v)
  {
    hide Digits, Zeros, ParsePart, Value;
    var tail := Zeros(zeros) + Digits(v, 8);
    PaddedDigits(v, zeros, 8);
    ParseOctal(tail);
    assert "0" + Zeros(zeros) + Digits(v, 8) == "0" + tail;
  }

  lemma HexReadBack(v: nat, zeros: nat, x: char)
    requires x == 'x' || x == 'X'
    ensures var s := ['0', x] + Zeros(zeros) + Digits(v, 16);
            '.' !in s && ParsePart(s) == Some(v)
  {
    hide Digits, Zeros, ParsePart, Value;
    var tail := Zeros(zeros) + Digits(v, 16);
    PaddedDigits(v, zeros, 16);
    ParseHex(x, tail);
    assert ['0', x] + Zeros(zeros) + Digits(v, 16) == ['0', x] + tail;
  }

  lemma PartReadBack(v: nat, style: Style)
    ensures PrintPart(v, style) != "" && '.' !in PrintPart(v, style)
    ensures ParsePart(PrintPart(v, style)) == Some(v)
  {
    hide ParsePart, Digits;
    match style
    case Decimal => DecimalReadBack(v);
    case Octal(zeros) => OctalReadBack(v, zeros);
    case Hex(zeros, upperX) =>
      HexReadBack(v, zeros, if upperX then 'X' else 'x');
      assert (if upperX then "0X" else "0x") == ['0', if upperX then 'X' else 'x'];
  }

  /** The `count` values of which an address can be written: bytes, and a last part with the rest. */
  function PartValues(address: nat, count: nat): (vs: seq<nat>)
    requires 1 <= count <= 4
    ensures |vs| == count
  {
    match count
    case 1 => [address]
    case 2 => [address / 0x100_0000, address % 0x100_0000]
    case 3 => [address / 0x100_0000, address / 0x1_0000 % 0x100, address % 0x1_0000]
    case 4 => [address / 0x100_0000, address / 0x1_0000 % 0x100, address / 0x100 % 0x100, address % 0x100]
  }

  function PrintParts(values: seq<nat>, styles: seq<Style>): (parts: seq<string>)
    requires |values| == |styles|
    ensures |parts| == |values|
  {
    if values == [] then [] else [PrintPart(values[0], styles[0])] + PrintParts(values[1..], styles[1..])
  }

  lemma OneMorePart(value: nat, style: Style, values: seq<nat>, styles: seq<Style>)
    requires |values| == |styles|
    ensures PrintParts([value] + values, [style] + styles) == [PrintPart(value, style)] + PrintParts(values, styles)
  {
    hide PrintPart;
    assert ([value] + values)[1..] == values && ([style] + styles)[1..] == styles;
  }

  lemma OneMoreParsed(part: string, v: nat, rest: seq<string>, values: seq<nat>)
    requires ParsePart(part) == Some(v) && ParseParts(rest) == Some(values)
    ensures ParseParts([part] + rest) == Some([v] + values)
  {
    hide ParsePart;
    assert ([part] + rest)[1..] == rest;
  }

  lemma {:induction false} PartsReadBack(values: seq<nat>, styles: seq<Style>)
    requires |values| == |styles|
    ensures forall p :: p in PrintParts(values, styles) ==> p != "" && '.' !in p
    ensures ParseParts(PrintParts(values, styles)) == Some(values)
  {
    if values != [] {
      hide *;
      PartReadBack(values[0], styles[0]);
      PartsReadBack(values[1..], styles[1..]);
      OneMorePart(values[0], styles[0], values[1..], styles[1..]);
      OneMoreParsed(PrintPart(values[0], styles[0]), values[0], PrintParts(values[1..], styles[1..]), values[1..]);
      assert [values[0]] + values[1..] == values && [styles[0]] + styles[1..] == styles;
    }
  }

  lemma BytesOfOne(acc: nat, a: nat)
    ensures Bytes(acc, [a]) == acc * 256 + a
  {
    assert [a][1..] == [];
  }

  lemma BytesOfTwo(acc: nat, a: nat, b: nat)
    ensures Bytes(acc, [a, b]) == (acc * 256 + a) * 256 + b
  {
    assert [a, b][1..] == [b];
    BytesOfOne(acc * 256 + a, b);
  }

  lemma BytesOfThree(a: nat, b: nat, c: nat)
    ensures Bytes(0, [a, b, c]) == (a * 256 + b) * 256 + c
  {
    assert [a, b, c][1..] == [b, c];
    assert Bytes(0, [a, b, c]) == Bytes(0 * 256 + a, [b, c]);
    BytesOfTwo(a, b, c);
  }

  lemma FourParts(address: nat)
    requires address < TWO32
    ensures InBounds(PartValues(address, 4)) && Combine(PartValues(address, 4)) == address
  {
    var vs := PartValues(address, 4);
    assert vs[..3] == [vs[0], vs[1], vs[2]];
    BytesOfThree(vs[0], vs[1], vs[2]);
    hide Bytes;
    assert address / 0x1_0000 / 0x100 == vs[0] && address / 0x100 / 0x100 == address / 0x1_0000;
    assert address / 0x1_0000 == vs[0] * 256 + vs[1];
    assert address / 0x100 == (vs[0] * 256 + vs[1]) * 256 + vs[2];
  }

  lemma ThreeParts(address: nat)
    requires address < TWO32
    ensures InBounds(PartValues(address, 3)) && Combine(PartValues(address, 3)) == address
  {
    var vs := PartValues(address, 3);
    assert vs[..2] == [vs[0], vs[1]];
    BytesOfTwo(0, vs[0], vs[1]);
  }

  lemma TwoParts(address: nat)
    requires address < TWO32
    ensures InBounds(PartValues(address, 2)) && Combine(PartValues(address, 2)) == address
  {
    var vs := PartValues(address, 2);
    assert vs[..1] == [vs[0]];
    BytesOfOne(0, vs[0]);
  }

  lemma PartValuesCombine(address: nat, count: nat)
    requires address < TWO32 && 1 <= count <= 4
    ensures InBounds(PartValues(address, count)) && Combine(PartValues(address, count)) == address
  {
    match count
    case 1 => assert PartValues(address, 1)[..0] == [];
    case 2 => TwoParts(address);
    case 3 => ThreeParts(address);
    case 4 => FourParts(address);
  }

  /** Any address, written in one to four parts, each in any radix, is read back exactly. */
  lemma AddressReadBack(address: nat, styles: seq<Style>)
    requires address < TWO32 && 1 <= |styles| <= 4
    ensures ParseIpv4(Join(PrintParts(PartValues(address, |styles|), styles), '.')) == Some(address)
  {
    hide PartValues, PrintParts, ParseParts, InBounds, Combine, Split, Join;
    var values := PartValues(address, |styles|);
    PartsReadBack(values, styles);
    SplitJoin(PrintParts(values, styles), '.');
    PartValuesCombine(address, |styles|);
  }

  lemma {:induction false} BytesBound(acc: nat, values: seq<nat>)
    requires |values| <= 3 && forall v :: v in values ==> v <= 0xff
    ensures |values| == 0 ==> Bytes(acc, values) == acc
    ensures |values| == 1 ==> Bytes(acc, values) <= acc * 256 + 0xff
    ensures |values| == 2 ==> Bytes(acc, values) <= acc * 0x1_0000 + 0xffff
    ensures |values| == 3 ==> Bytes(acc, values) <= acc * 0x100_0000 + 0xff_ffff
    decreases |values|
  {
    if values != [] {
      assert values[0] in values && forall v :: v in values[1..] ==> v in values;
      BytesBound(acc * 256 + values[0], values[1..]);
    }
  }

  /** Whatever is parsed fits 32 bits, so the final conversion changes nothing. */
  lemma ConversionIsIdentity(values: seq<nat>)
    requires 1 <= |values| <= 4 && InBounds(values)
    ensures Combine(values) < TWO32 && ToUint32(Combine(values)) == Combine(values)
  {
    BytesBound(0, values[..|values| - 1]);
  }

  // ----- Masks and blocks -----

  function Pow2(n: nat): nat {
    if n == 0 then 1 else 2 * Pow2(n - 1)
  }

  /** Bitwise and. */
  function BitAnd(a: nat, b: nat): nat
    decreases a
  {
    if a == 0 || b == 0 then 0
    else (if a % 2 == 1 && b % 2 == 1 then 1 else 0) + 2 * BitAnd(a / 2, b / 2)
  }

  /** `(x << n) >>> 0`. */
  function ShiftLeft(x: nat, n: nat): nat {
    x * Pow2(n) % TWO32
  }

  function Mask(bits: nat): nat
    requires bits <= 32
  {
    if bits == 0 then 0 else ShiftLeft(0xffff_ffff, 32 - bits)
  }

  predicate InRange(value: nat, base: nat, bits: nat)
    requires bits <= 32
  {
    BitAnd(value, Mask(bits)) == BitAnd(base, Mask(bits))
  }

  lemma {:induction false} Pow2Monotone(a: nat, b: nat)
    requires a <= b
    ensures 1 <= Pow2(a) <= Pow2(b)
    decreases b
  {
    if a < b {
      Pow2Monotone(a, b - 1);
    } else if a > 0 {
      Pow2Monotone(a - 1, a - 1);
    }
  }

  lemma SameQuotient(a: nat, b: nat, p: nat)
    requires p > 0
    ensures Cleared(a, p) == Cleared(b, p) <==> a / p == b / p
  {
    assert a - a % p == p * (a / p) && b - b % p == p * (b / p);
    if a / p < b / p {
      NextMultiple(p, a / p, b / p);
    }
    if b / p < a / p {
      NextMultiple(p, b / p, a / p);
    }
  }

  lemma HalfRemainder(v: nat, p: nat)
    requires p > 0
    ensures v % (2 * p) == v % 2 + 2 * (v / 2 % p)
  {
    var q, r := v / 2 / p, v / 2 % p;
    assert v / 2 == p * q + r;
    assert (2 * p) * q == 2 * (p * q);
    DivisionUnique(v, 2 * p, q, 2 * r + v % 2);
  }

  lemma BitAndEven(v: nat, half: nat)
    ensures BitAnd(v, 2 * half) == 2 * BitAnd(v / 2, half)
  {
    assert 2 * half / 2 == half && 2 * half % 2 == 0;
  }

  lemma BitAndOdd(v: nat, half: nat)
    ensures BitAnd(v, 2 * half + 1) == v % 2 + 2 * BitAnd(v / 2, half)
  {
    assert (2 * half + 1) / 2 == half && (2 * half + 1) % 2 == 1;
  }

  lemma MaskStep(v: nat, high: nat, low: nat)
    requires 0 < low <= high && BitAnd(v / 2, high - low) == Cleared(v / 2, low)
    ensures BitAnd(v, 2 * high - 2 * low) == Cleared(v, 2 * low)
  {
    hide BitAnd;
    BitAndEven(v, high - low);
    HalfRemainder(v, low);
    var r := v / 2 % low;
    assert 2 * high - 2 * low == 2 * (high - low);
    assert v - v % (2 * low) == v - (v % 2 + 2 * r);
    assert BitAnd(v, 2 * (high - low)) == 2 * (v / 2 - r);
  }

  lemma {:induction false} MaskAll(v: nat, w: nat)
    requires v < Pow2(w)
    ensures Pow2(w) >= 1 && BitAnd(v, Pow2(w) - 1) == v
    decreases w
  {
    if w > 0 {
      MaskAll(v / 2, w - 1);
      var half := Pow2(w - 1);
      assert Pow2(w) == 2 * half;
      hide Pow2, BitAnd;
      BitAndOdd(v, half - 1);
      assert 2 * (half - 1) + 1 == 2 * half - 1;
    }
  }

  /** `v` without its low bits, those below `p`. */
  function Cleared(v: nat, p: nat): int
    requires p > 0
  {
    v - v % p
  }

  lemma NothingLeft(v: nat, p: nat)
    requires v < p
    ensures BitAnd(v, 0) == Cleared(v, p)
  {
    assert p == p * 1 && v == p * 0 + v;
    DivisionUnique(v, p, 0, v);
  }

  /** Masking with the bits from `k` to `w` clears the low `k` bits. */
  lemma {:induction false} MaskClears(v: nat, w: nat, k: nat)
    requires k <= w && v < Pow2(w)
    ensures 1 <= Pow2(k) <= Pow2(w) && BitAnd(v, Pow2(w) - Pow2(k)) == Cleared(v, Pow2(k))
    decreases w
  {
    Pow2Monotone(0, k);
    Pow2Monotone(k, w);
    if k == w {
      NothingLeft(v, Pow2(w));
    } else if k == 0 {
      MaskAll(v, w);
    } else {
      var high, low := Pow2(w - 1), Pow2(k - 1);
      assert Pow2(w) == 2 * high && Pow2(k) == 2 * low;
      MaskClears(v / 2, w - 1, k - 1);
      MaskStep(v, high, low);
      hide Pow2, BitAnd, Cleared;
    }
  }

  lemma PowersOfTwo()
    ensures Pow2(0) == 1 && Pow2(8) == 0x100 && Pow2(16) == 0x1_0000 && Pow2(17) == 0x2_0000
    ensures Pow2(20) == 0x10_0000 && Pow2(22) == 0x40_0000 && Pow2(24) == 0x100_0000 && Pow2(28) == 0x1000_0000
    ensures Pow2(32) == TWO32
  {
    assert Pow2(8) == 0x100 && Pow2(16) == 0x1_0000 && Pow2(24) == 0x100_0000 && Pow2(28) == 0x1000_0000;
    assert Pow2(31) == 8 * Pow2(28);
  }

  lemma ShiftedOnes(p: nat)
    requires 1 <= p < TWO32
    ensures 0xffff_ffff * p % TWO32 == TWO32 - p
  {
    DivisionUnique(0xffff_ffff * p, TWO32, p - 1, TWO32 - p);
  }

  lemma MaskValue(bits: nat)
    requires bits <= 32
    ensures Pow2(32 - bits) <= Pow2(32) == TWO32 && Mask(bits) == Pow2(32) - Pow2(32 - bits)
  {
    PowersOfTwo();
    Pow2Monotone(32 - bits, 32);
    if bits > 0 {
      Pow2Monotone(32 - bits, 31);
      assert Pow2(32) == 2 * Pow2(31);
      ShiftedOnes(Pow2(32 - bits));
    }
  }

  /** The mask test of a CIDR block compares the addresses without their low bits. */
  lemma MaskTestIsPrefixTest(value: nat, base: nat, bits: nat)
    requires value < TWO32 && base < TWO32 && bits <= 32
    ensures Pow2(32 - bits) > 0
    ensures InRange(value, base, bits) <==> value / Pow2(32 - bits) == base / Pow2(32 - bits)
  {
    hide Pow2, BitAnd, Mask, Cleared;
    MaskValue(bits);
    MaskClears(value, 32, 32 - bits);
    MaskClears(base, 32, 32 - bits);
    SameQuotient(value, base, Pow2(32 - bits));
  }

  datatype Block = Block(base: nat, bits: nat, reason: string)

  const DISALLOWED: seq<Block> := [
    Block(0x0000_0000, 8, "this-network (0.0.0.0/8)"),
    Block(0x0a00_0000, 8, "private (10.0.0.0/8)"),
    Block(0x6440_0000, 10, "carrier-grade NAT (100.64.0.0/10)"),
    Block(0x7f00_0000, 8, "loopback (127.0.0.0/8)"),
    Block(0xa9fe_0000, 16, "link-local / cloud metadata (169.254.0.0/16)"),
    Block(0xac10_0000, 12, "private (172.16.0.0/12)"),
    Block(0xc0a8_0000, 16, "private (192.168.0.0/16)"),
    Block(0xc000_0000, 24, "IETF protocol assignments (192.0.0.0/24)"),
    Block(0xc000_0200, 24, "documentation (192.0.2.0/24)"),
    Block(0xc612_0000, 15, "benchmarking (198.18.0.0/15)"),
    Block(0xc633_6400, 24, "documentation (198.51.100.0/24)"),
    Block(0xcb00_7100, 24, "documentation (203.0.113.0/24)"),
    Block(0xe000_0000, 4, "multicast (224.0.0.0/4)"),
    Block(0xf000_0000, 4, "reserved (240.0.0.0/4)"),
    Block(0xffff_ffff, 32, "broadcast (255.255.255.255)")
  ]

  /** The block starts at a multiple of its size. */
  predicate WellPlaced(b: Block) {
    b.bits <= 32 && b.base < TWO32 && Pow2(32 - b.bits) > 0 && b.base % Pow2(32 - b.bits) == 0
  }

  predicate Inside(value: nat, b: Block) {
    b.bits <= 32 && b.base <= value < b.base + Pow2(32 - b.bits)
  }

  /** The least prefix is of four bits, so every block is placed at a multiple of its size. */
  lemma AllWellPlaced()
    ensures forall b :: b in DISALLOWED ==> WellPlaced(b)
  {
    PowersOfTwo();
    hide Pow2;
    forall i | 0 <= i < |DISALLOWED| ensures WellPlaced(DISALLOWED[i]) {
    }
  }

  lemma AlignedInterval(v: nat, base: nat, p: nat)
    requires p > 0 && base % p == 0
    ensures v / p == base / p <==> base <= v < base + p
  {
    assert v == p * (v / p) + v % p && base == p * (base / p);
    if base <= v < base + p {
      DivisionUnique(v, p, base / p, v - base);
    }
  }

  lemma BlockIsInterval(value: nat, b: Block)
    requires value < TWO32 && WellPlaced(b)
    ensures InRange(value, b.base, b.bits) <==> Inside(value, b)
  {
    hide Pow2, InRange;
    MaskTestIsPrefixTest(value, b.base, b.bits);
    AlignedInterval(value, b.base, Pow2(32 - b.bits));
  }

  /** The reason of the first block whose mask test succeeds. */
  function FirstBlock(value: nat, blocks: seq<Block>): Option<string> {
    if blocks == [] then None
    else if blocks[0].bits <= 32 && InRange(value, blocks[0].base, blocks[0].bits) then Some(blocks[0].reason)
    else FirstBlock(value, blocks[1..])
  }

  method ClassifyIn(value: nat, blocks: seq<Block>) returns (reason: Option<string>)
    ensures reason == FirstBlock(value, blocks)
  {
    var i := 0;
    while i < |blocks|
      invariant 0 <= i <= |blocks|
      invariant FirstBlock(value, blocks[i..]) == FirstBlock(value, blocks)
    {
      assert blocks[i..][1..] == blocks[i + 1..];
      if blocks[i].bits <= 32 && InRange(value, blocks[i].base, blocks[i].bits) {
        return Some(blocks[i].reason);
      }
      i := i + 1;
    }
    return None;
  }

  method ClassifyIpv4(value: nat) returns (reason: Option<string>)
    ensures reason == FirstBlock(value, DISALLOWED)
  {
    hide DISALLOWED;
    reason := ClassifyIn(value, DISALLOWED);
  }

  /** `i` is the first block that contains the address. */
  ghost predicate FirstContaining(value: nat, blocks: seq<Block>, i: nat) {
    i < |blocks| && Inside(value, blocks[i]) && forall j :: 0 <= j < i ==> !Inside(value, blocks[j])
  }

  /** An address is disallowed exactly when it lies in the interval of some block, and the reason is
      that of the first such block. */
  lemma {:induction false} FirstBlockContains(value: nat, blocks: seq<Block>) returns (i: nat)
    requires value < TWO32 && forall b :: b in blocks ==> WellPlaced(b)
    ensures FirstBlock(value, blocks).None? ==> forall b :: b in blocks ==> !Inside(value, b)
    ensures FirstBlock(value, blocks).Some? ==>
              FirstContaining(value, blocks, i) && FirstBlock(value, blocks) == Some(blocks[i].reason)
  {
    hide Inside, InRange;
    i := 0;
    if blocks != [] {
      assert blocks[0] in blocks;
      BlockIsInterval(value, blocks[0]);
      assert blocks[0].bits <= 32;
      if !InRange(value, blocks[0].base, blocks[0].bits) {
        i := FirstBlockContains(value, blocks[1..]);
        i := i + 1;
        assert forall b :: b in blocks <==> b == blocks[0] || b in blocks[1..];
        assert forall j :: 1 <= j < |blocks| ==> blocks[j] == blocks[1..][j - 1];
      }
    }
  }

  lemma DisallowedIffInBlock(value: nat)
    requires value < TWO32
    ensures FirstBlock(value, DISALLOWED).Some? <==> exists b :: b in DISALLOWED && Inside(value, b)
  {
    AllWellPlaced();
    hide DISALLOWED, InRange, Inside, WellPlaced, FirstBlock;
    var i := FirstBlockContains(value, DISALLOWED);
  }
}
