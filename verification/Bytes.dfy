/** Fixed-width integers as bytes. */
module Bytes {
  import opened Common
  import opened Digits

  type u16 = x: int | 0 <= x < 0x1_0000
  type u32 = x: int | 0 <= x < 0x1_0000_0000

  function Be16(n: u16): (s: seq<byte>)
    ensures |s| == 2
  {
    var x: int := n;
    [x / 256, x % 256]
  }

  function Be32(n: u32): (s: seq<byte>)
    ensures |s| == 4
  {
    var x: int := n;
    [x / 0x100_0000, x / 0x1_0000 % 256, x / 256 % 256, x % 256]
  }

  function FromBe16(s: seq<byte>): u16
    requires |s| == 2
  {
    s[0] as int * 256 + s[1]
  }

  function FromBe32(s: seq<byte>): u32
    requires |s| == 4
  {
    s[0] as int * 0x100_0000 + s[1] as int * 0x1_0000 + s[2] as int * 256 + s[3]
  }

  function Le16(n: u16): (s: seq<byte>)
    ensures |s| == 2
  {
    var x: int := n;
    [x % 256, x / 256]
  }

  function Le32(n: u32): (s: seq<byte>)
    ensures |s| == 4
  {
    var x: int := n;
    [x % 256, x / 256 % 256, x / 0x1_0000 % 256, x / 0x100_0000]
  }

  function FromLe16(s: seq<byte>): u16
    requires |s| == 2
  {
    s[0] as int + s[1] as int * 256
  }

  function FromLe32(s: seq<byte>): u32
    requires |s| == 4
  {
    s[0] as int + s[1] as int * 256 + s[2] as int * 0x1_0000 + s[3] as int * 0x100_0000
  }

  /** Value of little-endian bytes. */
  function LeValue(bytes: seq<byte>): (n: nat)
  {
    if bytes == [] then 0 else bytes[0] + 256 * LeValue(bytes[1..])
  }

  /** The last `width` bytes of n, least significant first. */
  function LeBytes(n: nat, width: nat): (s: seq<byte>)
    ensures |s| == width
  {
    if width == 0 then [] else [n % 256] + LeBytes(n / 256, width - 1)
  }

  lemma {:induction false} LeBytesRoundTrip(n: nat, width: nat)
    requires n < Pow(256, width)
    ensures LeValue(LeBytes(n, width)) == n
  {
    if width != 0 {
      QuotientFits(n, 256, Pow(256, width - 1));
      LeBytesRoundTrip(n / 256, width - 1);
      DivShrinks(n, 256);
    }
  }

  /** Little-endian: the i-th byte counts 256^i. */
  lemma {:induction false} LeBytesAt(n: nat, width: nat, i: nat)
    requires i < width
    ensures 0 < Pow(256, i) && LeBytes(n, width)[i] == n / Pow(256, i) % 256
  {
    PowPositive(256, i);
    if i != 0 {
      DivShrinks(n, 256);
      LeBytesAt(n / 256, width - 1, i - 1);
      PowPositive(256, i - 1);
      DivDiv(n, 256, Pow(256, i - 1));
    }
  }

  /** The fixed-width forms are the big-endian numerals in base 256, and little-endian bytes. */
  lemma FixedWidths(n: u16, m: u32)
    ensures Be16(n) == Fixed(n, 256, 2) && Be32(m) == Fixed(m, 256, 4)
    ensures Le16(n) == LeBytes(n, 2) && Le32(m) == LeBytes(m, 4)
  {
    Unfold2(n);
    Unfold4(m);
    var a: int := m / 256;
    var b: int := a / 256;
    assert m / 0x1_0000 == b && m / 0x100_0000 == b / 256;
  }

  /** Read as big-endian numbers the fixed-width forms are the number, and little-endian ones likewise. */
  lemma FixedWidthValues(n: u16, m: u32)
    ensures Value(Be16(n), 256) == n && Value(Be32(m), 256) == m
    ensures LeValue(Le16(n)) == n && LeValue(Le32(m)) == m
  {
    hide Value, Fixed, LeBytes, LeValue, Be16, Be32, Le16, Le32;
    FixedWidths(n, m);
    WidthPowers();
    ValueOfFixed(n, 256, 2);
    ValueOfFixed(m, 256, 4);
    LeBytesRoundTrip(n, 2);
    LeBytesRoundTrip(m, 4);
  }

  lemma WidthPowers()
    ensures Pow(256, 2) == 0x1_0000 && Pow(256, 4) == 0x1_0000_0000
  {
    PowAdd(256, 2, 2);
    assert Pow(256, 1) == 256;
  }

  lemma LeStep(n: nat, width: nat)
    ensures LeBytes(n, 0) == [] && LeBytes(n, width + 1) == [n % 256] + LeBytes(n / 256, width)
  {
  }

  lemma Unfold2(n: nat)
    ensures Fixed(n, 256, 2) == [n / 256 % 256, n % 256] && LeBytes(n, 2) == [n % 256, n / 256 % 256]
  {
    hide Fixed, LeBytes;
    var a: nat := n / 256;
    FixedStep(a / 256, 256, 0);
    FixedStep(a, 256, 0);
    FixedStep(n, 256, 1);
    LeStep(a / 256, 0);
    LeStep(a, 0);
    LeStep(n, 1);
  }

  lemma Unfold4(n: nat)
    ensures var a := n / 256;
      var b := a / 256;
      && Fixed(n, 256, 4) == [b / 256 % 256, b % 256, a % 256, n % 256]
      && LeBytes(n, 4) == [n % 256, a % 256, b % 256, b / 256 % 256]
  {
    hide Fixed, LeBytes;
    var a: nat := n / 256;
    Unfold2(a / 256);
    FixedStep(a, 256, 2);
    FixedStep(n, 256, 3);
    LeStep(a, 2);
    LeStep(n, 3);
  }

  lemma Be16RoundTrip(n: u16)
    ensures FromBe16(Be16(n)) == n
  {
  }

  lemma Be32RoundTrip(n: u32)
    ensures FromBe32(Be32(n)) == n
  {
    var a: int := n / 256;
    var b: int := a / 256;
    assert n / 0x1_0000 == b && n / 0x100_0000 == b / 256;
  }

  lemma Le16RoundTrip(n: u16)
    ensures FromLe16(Le16(n)) == n
  {
  }

  lemma Le32RoundTrip(n: u32)
    ensures FromLe32(Le32(n)) == n
  {
    var a: int := n / 256;
    var b: int := a / 256;
    assert n / 0x1_0000 == b && n / 0x100_0000 == b / 256;
  }

  lemma Be32OfBytes(s: seq<byte>)
    requires |s| == 4
    ensures Be32(FromBe32(s)) == s
  {
    var a: int := s[0] as int * 256 + s[1];
    var b: int := a * 256 + s[2];
    var n: int := b * 256 + s[3];
    assert FromBe32(s) == n && n / 256 == b && b / 256 == a;
    assert n / 0x1_0000 == a && n / 0x100_0000 == s[0];
  }

  lemma Le16OfBytes(s: seq<byte>)
    requires |s| == 2
    ensures Le16(FromLe16(s)) == s
  {
  }

  lemma Le32OfBytes(s: seq<byte>)
    requires |s| == 4
    ensures Le32(FromLe32(s)) == s
  {
    var a: int := s[2] as int + s[3] as int * 256;
    var b: int := s[1] as int + a * 256;
    var n: int := s[0] as int + b * 256;
    assert FromLe32(s) == n && n / 256 == b && b / 256 == a;
    assert n / 0x1_0000 == a && n / 0x100_0000 == s[3];
  }

  /** The bytes x stand at position p. */
  ghost predicate Holds(data: seq<byte>, p: nat, x: seq<byte>)
  {
    p + |x| <= |data| && data[p..p + |x|] == x
  }

  lemma HoldsParts(data: seq<byte>, p: nat, x: seq<byte>, y: seq<byte>)
    requires Holds(data, p, x + y)
    ensures Holds(data, p, x) && Holds(data, p + |x|, y)
  {
    var xy := data[p..p + |x| + |y|];
    assert xy[..|x|] == x && xy[|x|..] == y;
  }
}
