/** MORAL amounts as decimal text. */
module Amount {
  import opened Common
  import opened Digits
  import opened JsText

  const MORAL_DECIMALS: nat := 12
  const ONE_MORAL: nat := 1_000_000_000_000

  function Unsigned(s: string, radix: nat): Option<int>
  {
    var ds := seq(|s|, i requires 0 <= i < |s| => DigitOf(s[i]));
    if s == "" || exists i :: 0 <= i < |s| && ds[i] >= radix then None else Some(Value(ds, radix))
  }

  /** The radix a literal without sign announces. */
  function Radix(t: string): nat
  {
    if |t| < 2 || t[0] != '0' then 10
    else if t[1] == 'x' || t[1] == 'X' then 16
    else if t[1] == 'o' || t[1] == 'O' then 8
    else if t[1] == 'b' || t[1] == 'B' then 2
    else 10
  }

  /** `BigInt(text)`; None is the SyntaxError. */
  function BigInt(s: string): Option<int>
  {
    var t := Trim(s);
    if t == "" then Some(0)
    else if Radix(t) != 10 then Unsigned(t[2..], Radix(t))
    else if t[0] == '+' then Unsigned(t[1..], 10)
    else if t[0] == '-' then
      var n := Unsigned(t[1..], 10);
      if n == None then None else Some(-n.value)
    else Unsigned(t, 10)
  }

  /** `parseMoralAmount`: the parts on both sides of the point are BigInt literals, signs and radix prefixes included; any
      other text is worth 0. */
  function Parse(amount: string): int
  {
    var trimmed := Trim(amount);
    if trimmed == "" then 0
    else
      var parts := Split(trimmed, '.');
      if |parts| > 2 then 0
      else
        var integerPart := if parts[0] == "" then "0" else parts[0];
        var fraction := if |parts| == 2 then parts[1] else "";
        var integer := BigInt(integerPart);
        var decimal := BigInt(Take(PadEnd(fraction, MORAL_DECIMALS, '0'), MORAL_DECIMALS));
        if integer == None || decimal == None then 0 else integer.value * ONE_MORAL + decimal.value
  }

  function Chars(ds: seq<int>): (s: string)
    requires AreDigits(ds, 10)
    ensures |s| == |ds|
  {
    seq(|ds|, i requires 0 <= i < |ds| => '0' + ds[i] as char)
  }

  /** `toString()` of a bigint. */
  function ToText(n: int): string
  {
    if n == 0 then "0"
    else if n < 0 then "-" + NatText(-n)
    else NatText(n)
  }

  function NatText(n: nat): string
  {
    NumeralShape(n, 10);
    Chars(Numeral(n, 10))
  }

  /** bigint division and remainder truncate toward zero. */
  function TruncDiv(n: int, d: nat): int
    requires 0 < d
  {
    if n >= 0 then n / d else -(-n / d)
  }

  function TruncRem(n: int, d: nat): int
    requires 0 < d
  {
    n - TruncDiv(n, d) * d
  }

  function DropTrailingZeros(s: string): (t: string)
    ensures t <= s && (t != "" ==> t[|t| - 1] != '0')
    ensures forall i :: |t| <= i < |s| ==> s[i] == '0'
  {
    if s != "" && s[|s| - 1] == '0' then DropTrailingZeros(s[..|s| - 1]) else s
  }

  /** `formatMoralAmount`. */
  function Format(planck: int, decimals: nat): string
  {
    var integer := TruncDiv(planck, ONE_MORAL);
    var remainder := TruncRem(planck, ONE_MORAL);
    var decimalStr := Take(PadStart(ToText(remainder), MORAL_DECIMALS, '0'), decimals);
    var trimmed := DropTrailingZeros(decimalStr);
    if trimmed == "" then ToText(integer) else ToText(integer) + ['.'] + trimmed
  }

  /** Signs and digits only. */
  ghost predicate SignsAndDigits(s: string)
  {
    forall i :: 0 <= i < |s| ==> s[i] == '-' || '0' <= s[i] <= '9'
  }

  lemma CharsAreDigits(ds: seq<int>)
    requires AreDigits(ds, 10)
    ensures forall i :: 0 <= i < |ds| ==> '0' <= Chars(ds)[i] <= '9' && DigitOf(Chars(ds)[i]) == ds[i]
  {
  }

  /** Texts of signs and digits hold no point and no white space. */
  lemma PlainText(s: string)
    requires SignsAndDigits(s)
    ensures '.' !in s && Trim(s) == s && (s != "" ==> !IsSpace(s[0]) && !IsSpace(s[|s| - 1]))
  {
    hide IsSpace, Trim;
    if s != "" {
      GraphicIsNoSpace(s[0]);
      GraphicIsNoSpace(s[|s| - 1]);
    }
    TrimIdentity(s);
  }

  lemma UnsignedDigits(ds: seq<int>)
    requires AreDigits(ds, 10) && ds != []
    ensures Unsigned(Chars(ds), 10) == Some(Value(ds, 10))
  {
    hide Value, Chars, DigitOf;
    var s := Chars(ds);
    CharsAreDigits(ds);
    assert seq(|s|, i requires 0 <= i < |s| => DigitOf(s[i])) == ds;
  }

  /** A run of decimal digits reads back as its value, a sign before it changes the value's. */
  lemma BigIntOfDigits(ds: seq<int>)
    requires AreDigits(ds, 10) && ds != []
    ensures BigInt(Chars(ds)) == Some(Value(ds, 10))
    ensures BigInt(['-'] + Chars(ds)) == Some(-Value(ds, 10))
  {
    hide Value, Chars, Unsigned, Trim, DigitOf;
    var s := Chars(ds);
    var t := ['-'] + s;
    CharsAreDigits(ds);
    UnsignedDigits(ds);
    PlainText(s);
    PlainText(t);
    assert t[1..] == s;
  }

  /** The first twelve characters of a text filled up with zeros. */
  function Fraction(f: string): (s: string)
    ensures |s| == MORAL_DECIMALS
    ensures forall i :: 0 <= i < MORAL_DECIMALS ==> s[i] == if i < |f| then f[i] else '0'
  {
    Take(PadEnd(f, MORAL_DECIMALS, '0'), MORAL_DECIMALS)
  }

  /** The digits of that fraction. */
  function Twelve(f: seq<int>): (ds: seq<int>)
    ensures |ds| == 12 && (AreDigits(f, 10) ==> AreDigits(ds, 10))
    ensures forall i :: 0 <= i < 12 ==> ds[i] == if i < |f| then f[i] else 0
  {
    (f + Zeros(12))[..12]
  }

  lemma FractionDigits(f: seq<int>)
    requires AreDigits(f, 10)
    ensures Fraction(Chars(f)) == Chars(Twelve(f))
    ensures BigInt(Fraction(Chars(f))) == Some(Value(Twelve(f), 10))
  {
    hide Value, BigInt, Fraction, Twelve;
    assert Fraction(Chars(f)) == Chars(Twelve(f));
    BigIntOfDigits(Twelve(f));
  }

  /** A text with one point means integer times 10^12 plus fraction, or 0 when one of them is no literal. */
  lemma ParseParts(i: string, f: string)
    requires i != "" && SignsAndDigits(i) && SignsAndDigits(f)
    ensures Parse(i + ['.'] + f) ==
            if BigInt(i) == None || BigInt(Fraction(f)) == None then 0
            else BigInt(i).value * ONE_MORAL + BigInt(Fraction(f)).value
  {
    hide BigInt, IsSpace, Trim, Split, SignsAndDigits;
    var s := i + ['.'] + f;
    PlainText(i);
    PlainText(f);
    GraphicIsNoSpace('.');
    assert s[0] == i[0] && s[|s| - 1] == if f == "" then '.' else f[|f| - 1];
    TrimIdentity(s);
    SplitOnce(i, f, '.');
  }

  lemma ParseWhole(i: string)
    requires i != "" && SignsAndDigits(i) && BigInt(i).Some?
    ensures Parse(i) == BigInt(i).value * ONE_MORAL
  {
    hide BigInt, IsSpace, Trim, Split, SignsAndDigits, Chars, Value;
    PlainText(i);
    SplitWithout(i, '.');
    NoFraction();
  }

  lemma NoFraction()
    ensures Chars([]) == "" && Twelve([]) == Zeros(12) && Value(Zeros(12), 10) == 0
    ensures BigInt(Fraction("")) == Some(0)
  {
    hide Value, BigInt, Fraction;
    FractionDigits([]);
    ValueOfZeros(Zeros(12), 10);
  }

  /** Plain decimal text means integer * 10^12 plus its first twelve fraction digits, zero-filled. */
  lemma ParseDecimal(i: seq<int>, f: seq<int>)
    requires AreDigits(i, 10) && AreDigits(f, 10) && i != []
    ensures Parse(Chars(i) + ['.'] + Chars(f)) == Value(i, 10) * ONE_MORAL + Value(Twelve(f), 10)
  {
    hide Value, Parse, BigInt, Fraction, Twelve, Chars, DigitOf;
    CharsAreDigits(i);
    CharsAreDigits(f);
    BigIntOfDigits(i);
    FractionDigits(f);
    ParseParts(Chars(i), Chars(f));
  }

  /** Nothing in front of the point counts as zero, and so does a text without point as a whole number. */
  lemma ParsePartial(i: seq<int>, f: seq<int>)
    requires AreDigits(i, 10) && AreDigits(f, 10)
    ensures Parse(['.'] + Chars(f)) == Value(Twelve(f), 10)
    ensures i != [] ==> Parse(Chars(i)) == Value(i, 10) * ONE_MORAL
  {
    hide Value, BigInt, Fraction, Twelve, Chars, DigitOf, Trim, IsSpace, Split;
    CharsAreDigits(f);
    CharsAreDigits(i);
    if i != [] {
      BigIntOfDigits(i);
      ParseWhole(Chars(i));
    }
    FractionDigits(f);
    var s := ['.'] + Chars(f);
    PlainText(Chars(f));
    GraphicIsNoSpace('.');
    TrimIdentity(s);
    SplitOnce("", Chars(f), '.');
    assert "" + ['.'] + Chars(f) == s;
    FractionMeans(Chars(f));
    ZeroText();
  }

  lemma ZeroText()
    ensures BigInt("0") == Some(0)
  {
    BigIntOfDigits([0]);
    ZeroDigit();
    hide BigInt;
    assert Chars([0]) == "0";
  }

  lemma ZeroDigit()
    ensures Value([0], 10) == 0
  {
    ValueSnoc([], 0, 10);
    assert [] + [0] == [0];
  }

  /** White space around the text is ignored; nothing else, or two points or more, is worth 0. */
  lemma ParseOutside(s: string)
    ensures Parse(s) == Parse(Trim(s))
    ensures Trim(s) == "" || Count(Trim(s), '.') > 1 ==> Parse(s) == 0
  {
    hide BigInt, Trim;
    TrimTwice(s);
    SplitCount(Trim(s), '.');
  }

  lemma FractionMeans(f: string)
    ensures Fraction(f) == Take(PadEnd(f, MORAL_DECIMALS, '0'), MORAL_DECIMALS)
  {
  }

  /** A non-empty run of digits of a radix. */
  predicate IsNumber(u: string, radix: nat)
  {
    u != "" && forall i :: 0 <= i < |u| ==> DigitOf(u[i]) < radix
  }

  function Number(u: string, radix: nat): int
  {
    Value(seq(|u|, i requires 0 <= i < |u| => DigitOf(u[i])), radix)
  }

  lemma UnsignedExactly(u: string, radix: nat)
    ensures Unsigned(u, radix) == if IsNumber(u, radix) then Some(Number(u, radix)) else None
  {
    hide Value, DigitOf;
    var ds := seq(|u|, i requires 0 <= i < |u| => DigitOf(u[i]));
    if IsNumber(u, radix) {
      assert Number(u, radix) == Value(ds, radix);
    } else if u != "" {
      var i :| 0 <= i < |u| && DigitOf(u[i]) >= radix;
      assert ds[i] >= radix;
    }
  }

  /** The literals that BigInt reads, by the grammar of StringIntegerLiteral: nothing, decimal digits with or without a
      sign, and digits behind the prefix of a radix; white space around them makes no difference. */
  lemma BigIntExactly(s: string)
    ensures var t := Trim(s);
      BigInt(s) ==
      if t == "" then Some(0)
      else if IsNumber(t, 10) then Some(Number(t, 10))
      else if t[0] == '+' && IsNumber(t[1..], 10) then Some(Number(t[1..], 10))
      else if t[0] == '-' && IsNumber(t[1..], 10) then Some(-Number(t[1..], 10))
      else if ("0x" <= t || "0X" <= t) && IsNumber(t[2..], 16) then Some(Number(t[2..], 16))
      else if ("0o" <= t || "0O" <= t) && IsNumber(t[2..], 8) then Some(Number(t[2..], 8))
      else if ("0b" <= t || "0B" <= t) && IsNumber(t[2..], 2) then Some(Number(t[2..], 2))
      else None
  {
    hide Trim, Unsigned, Number;
    var t := Trim(s);
    if t != "" {
      UnsignedExactly(t, 10);
      UnsignedExactly(t[1..], 10);
      if Radix(t) != 10 {
        UnsignedExactly(t[2..], Radix(t));
        assert DigitOf(t[1]) >= 10;
      }
    }
  }

  /** Every text with at most one point, by its parts: no integer part counts as 0, of the fraction twelve characters count,
      and the text is worth 0 when a part is no literal. */
  lemma ParseExactly(s: string, i: string, f: string)
    requires '.' !in i && '.' !in f
    ensures Trim(s) == i + ['.'] + f ==>
              var integer, decimal := if i == "" then Some(0) else BigInt(i), BigInt(Fraction(f));
              Parse(s) == if integer == None || decimal == None then 0 else integer.value * 1_000_000_000_000 + decimal.value
    ensures Trim(s) == i && i != "" ==>
              Parse(s) == if BigInt(i) == None then 0 else BigInt(i).value * 1_000_000_000_000
  {
    hide BigInt, Trim, Split, Value;
    NoFraction();
    ZeroText();
    FractionMeans(f);
    FractionMeans("");
    hide Fraction, PadEnd;
    if Trim(s) == i + ['.'] + f {
      SplitOnce(i, f, '.');
    } else if Trim(s) == i {
      SplitWithout(i, '.');
    }
  }

  /** The sign of a text reaches its integer part only: it means what it says exactly when the fraction is zero. */
  lemma ParseNegative(i: seq<int>, f: seq<int>)
    requires AreDigits(i, 10) && AreDigits(f, 10) && i != []
    ensures var parsed := Parse((['-'] + Chars(i)) + ['.'] + Chars(f));
      && parsed == -Value(i, 10) * ONE_MORAL + Value(Twelve(f), 10)
      && (parsed == -(Value(i, 10) * ONE_MORAL + Value(Twelve(f), 10)) <==> Value(Twelve(f), 10) == 0)
  {
    hide Value, Parse, BigInt, Fraction, Twelve, Chars, DigitOf;
    CharsAreDigits(i);
    CharsAreDigits(f);
    BigIntOfDigits(i);
    FractionDigits(f);
    ParseParts(['-'] + Chars(i), Chars(f));
  }

  function DecimalDigits(n: nat): seq<int>
  {
    if n == 0 then [0] else Numeral(n, 10)
  }

  lemma TextOfNat(n: nat)
    ensures var ds := DecimalDigits(n);
      AreDigits(ds, 10) && ds != [] && Value(ds, 10) == n && ToText(n) == Chars(ds)
  {
    NumeralShape(n, 10);
    ValueOfNumeral(n, 10);
    ValueSnoc([], 0, 10);
  }

  lemma PowersOfTen()
    ensures Pow(10, 10) == 10_000_000_000 && Pow(10, 11) == 100_000_000_000 && Pow(10, 12) == ONE_MORAL
  {
    PowAdd(10, 5, 5);
    PowAdd(10, 5, 6);
    PowAdd(10, 6, 6);
  }

  lemma CharsOfPadded(ds: seq<int>, k: nat)
    requires AreDigits(ds, 10)
    ensures AreDigits(Zeros(k) + ds, 10) && Chars(Zeros(k) + ds) == Repeat('0', k) + Chars(ds)
  {
  }

  lemma PaddedDigits(r: nat, w: nat)
    requires 0 < w && r < Pow(10, w)
    ensures |DecimalDigits(r)| <= w && Fixed(r, 10, w) == Zeros(w - |DecimalDigits(r)|) + DecimalDigits(r)
  {
    hide Numeral, Fixed, Value, Pow;
    FixedIsPadded(r, 10, w);
    NumeralShape(r, 10);
  }

  /** A number printed with padding is its fixed-width numeral. */
  lemma PaddedText(r: nat, w: nat)
    requires 0 < w && r < Pow(10, w)
    ensures AreDigits(Fixed(r, 10, w), 10)
    ensures PadStart(ToText(r), w, '0') == Chars(Fixed(r, 10, w))
  {
    hide DecimalDigits, Fixed, Value, Pow, ToText, Chars;
    FixedAreDigits(r, 10, w);
    PaddedDigits(r, w);
    TextOfNat(r);
    CharsOfPadded(DecimalDigits(r), w - |DecimalDigits(r)|);
  }

  lemma LowPart(q: int, a: int, m: int, high: int, low: int)
    requires 0 <= low < m
    ensures (q * (a * m) + (high * m + low)) % m == low
  {
    assert q * (a * m) == q * a * m;
    assert q * a * m + high * m == (q * a + high) * m;
    DivModUnique(q * a + high, low, m);
  }

  lemma Assemble(q: int, a: int, m: int, high: int, low: int, v: int, n: int)
    requires 0 <= low < m && v == high * m + low && n == a * m
    ensures high * m == v - (q * n + v) % m
  {
    LowPart(q, a, m, high, low);
  }

  /** Splitting a numeral after its k-th digit. */
  lemma SplitDigits(ds: seq<int>, k: nat)
    requires AreDigits(ds, 10) && k <= |ds|
    ensures 0 <= Value(ds, 10)
    ensures 0 <= Value(ds[k..], 10) < Pow(10, |ds| - k)
    ensures Value(ds, 10) == Value(ds[..k], 10) * Pow(10, |ds| - k) + Value(ds[k..], 10)
    ensures Value(ds[..k] + Zeros(|ds| - k), 10) == Value(ds[..k], 10) * Pow(10, |ds| - k)
  {
    hide Value, Pow;
    ValueBounds(ds, 10);
    ValueBounds(ds[k..], 10);
    assert ds == ds[..k] + ds[k..];
    ValueConcat(ds[..k], ds[k..], 10);
    ValueConcat(ds[..k], Zeros(|ds| - k), 10);
    ValueOfZeros(Zeros(|ds| - k), 10);
  }

  /** Zeroing the digits after the k-th clears the value below that digit's weight, whatever stands in front. */
  lemma TruncateDigits(q: nat, ds: seq<int>, k: nat)
    requires AreDigits(ds, 10) && k <= |ds|
    ensures 0 < Pow(10, |ds| - k) && 0 <= Value(ds, 10)
    ensures Value(ds[..k] + Zeros(|ds| - k), 10)
         == Value(ds, 10) - (q * Pow(10, |ds|) + Value(ds, 10)) % Pow(10, |ds| - k)
  {
    hide *;
    SplitDigits(ds, k);
    assert Pow(10, |ds|) == Pow(10, k) * Pow(10, |ds| - k) by {
      PowAdd(10, k, |ds| - k);
    }
    Assemble(q, Pow(10, k), Pow(10, |ds| - k), Value(ds[..k], 10), Value(ds[k..], 10), Value(ds, 10), Pow(10, |ds|));
  }

  function Shown(d: nat): nat { if d < 12 then d else 12 }

  /** The weight of the last digit that a text with d decimals shows. */
  function Cut(d: nat): (m: nat)
    ensures 0 < m
  {
    PowPositive(10, 12 - Shown(d));
    Pow(10, 12 - Shown(d))
  }

  lemma Truncation(p: nat, d: nat)
    ensures Value(Fixed(p % ONE_MORAL, 10, 12)[..Shown(d)] + Zeros(12 - Shown(d)), 10) == p % ONE_MORAL - p % Cut(d)
  {
    hide Value, Fixed, Pow;
    var r := p % ONE_MORAL;
    PowersOfTen();
    FixedAreDigits(r, 10, 12);
    ValueOfFixed(r, 10, 12);
    TruncateDigits(p / ONE_MORAL, Fixed(r, 10, 12), Shown(d));
  }

  /** Dropping trailing zeros from a run of digits, and filling up again. */
  lemma TrimmedDigits(digits: seq<int>)
    requires AreDigits(digits, 10) && |digits| <= 12
    ensures var t := |DropTrailingZeros(Chars(digits))|;
      && t <= |digits| && DropTrailingZeros(Chars(digits)) == Chars(digits[..t])
      && Twelve(digits[..t]) == digits + Zeros(12 - |digits|)
  {
    hide DropTrailingZeros;
    var t := |DropTrailingZeros(Chars(digits))|;
    forall i | t <= i < |digits| ensures digits[i] == 0 {
      assert Chars(digits)[i] == '0';
    }
  }

  /** The fraction `Format` prints is the first k digits of the remainder without trailing zeros. */
  lemma PrintedFraction(r: nat, d: nat)
    requires r < ONE_MORAL
    ensures AreDigits(Fixed(r, 10, 12), 10)
    ensures var digits := Fixed(r, 10, 12)[..Shown(d)];
      var t := |DropTrailingZeros(Chars(digits))|;
      && t <= Shown(d)
      && DropTrailingZeros(Take(PadStart(ToText(r), 12, '0'), d)) == Chars(digits[..t])
      && Twelve(digits[..t]) == digits + Zeros(12 - Shown(d))
  {
    hide DropTrailingZeros, Fixed, Pow, ToText, PadStart;
    PowersOfTen();
    PaddedText(r, 12);
    var digits := Fixed(r, 10, 12)[..Shown(d)];
    assert Take(Chars(Fixed(r, 10, 12)), d) == Chars(digits);
    TrimmedDigits(digits);
  }

  lemma ParsePrinted(n: nat, f: seq<int>)
    requires AreDigits(f, 10)
    ensures Parse(if f == [] then ToText(n) else ToText(n) + ['.'] + Chars(f)) == n * ONE_MORAL + Value(Twelve(f), 10)
  {
    hide Parse, ToText, DecimalDigits, Value, Twelve, BigInt;
    TextOfNat(n);
    var ds := DecimalDigits(n);
    if f == [] {
      CharsAreDigits(ds);
      BigIntOfDigits(ds);
      ParseWhole(Chars(ds));
      NoFraction();
    } else {
      ParseDecimal(ds, f);
    }
  }

  lemma FormatShape(p: nat, d: nat, fraction: string)
    requires fraction == DropTrailingZeros(Take(PadStart(ToText(p % ONE_MORAL), MORAL_DECIMALS, '0'), d))
    ensures var whole := ToText(p / ONE_MORAL);
      Format(p, d) == if fraction == "" then whole else whole + ['.'] + fraction
  {
    hide ToText, DropTrailingZeros, PadStart, Take;
    assert TruncDiv(p, ONE_MORAL) == p / ONE_MORAL;
    assert TruncRem(p, ONE_MORAL) == p % ONE_MORAL;
  }

  /** The text of a non-negative amount: its integer part, and behind a point, unless they are all zero, the first d of
      twelve decimals without trailing zeros. */
  lemma FormatExactly(p: nat, d: nat) returns (i: seq<int>, f: seq<int>)
    ensures AreDigits(i, 10) && Value(i, 10) == p / 1_000_000_000_000 && (i == [0] || (i != [] && i[0] != 0))
    ensures AreDigits(f, 10) && |f| <= d && |f| <= 12 && (f != [] ==> f[|f| - 1] != 0)
    ensures Value(f + Zeros(12 - |f|), 10) == p % 1_000_000_000_000 - p % Cut(d)
    ensures Format(p, d) == Chars(i) + if f == [] then "" else ['.'] + Chars(f)
  {
    hide Value, Cut, Format, Fixed, DropTrailingZeros, Twelve, ToText, PadStart, Take, DecimalDigits, Chars, Shown;
    var q, r := p / ONE_MORAL, p % ONE_MORAL;
    TextOfNat(q);
    NoLeadingZero(q);
    ShownBounds(d);
    i := DecimalDigits(q);
    PrintedFraction(r, d);
    var digits := Fixed(r, 10, 12)[..Shown(d)];
    f := digits[..|DropTrailingZeros(Chars(digits))|];
    FormatShape(p, d, Chars(f));
    Truncation(p, d);
    TwelveIsPadded(f);
    LastIsNoZero(digits);
  }

  lemma NoLeadingZero(n: nat)
    ensures var ds := DecimalDigits(n); ds == [0] || (ds != [] && ds[0] != 0)
  {
    hide Numeral;
    NumeralShape(n, 10);
  }

  lemma ShownBounds(d: nat)
    ensures Shown(d) <= d && Shown(d) <= 12
  {
  }

  lemma TwelveIsPadded(f: seq<int>)
    requires |f| <= 12
    ensures Twelve(f) == f + Zeros(12 - |f|)
  {
  }

  /** A trimmed run of digits does not end in zero. */
  lemma LastIsNoZero(digits: seq<int>)
    requires AreDigits(digits, 10) && |digits| <= 12
    ensures var t := |DropTrailingZeros(Chars(digits))|; t <= |digits| && (0 < t ==> digits[t - 1] != 0)
  {
    hide DropTrailingZeros;
    TrimmedDigits(digits);
    var t := |DropTrailingZeros(Chars(digits))|;
    if 0 < t {
      assert Chars(digits[..t])[t - 1] != '0';
    }
  }

  /** Printing a non-negative amount with d decimals and parsing it back loses exactly the digits that were cut. */
  lemma CutRoundTrip(p: nat, d: nat)
    ensures Parse(Format(p, d)) == p - p % Cut(d)
  {
    hide Value, Cut, Parse, Format, Fixed, DropTrailingZeros, Twelve, ToText, PadStart, Take, Shown;
    var r := p % ONE_MORAL;
    assert r < ONE_MORAL && p == p / ONE_MORAL * ONE_MORAL + r by {
      DivShrinks(p, ONE_MORAL);
    }
    PrintedFraction(r, d);
    var digits := Fixed(r, 10, 12)[..Shown(d)];
    var kept := digits[..|DropTrailingZeros(Chars(digits))|];
    FormatShape(p, d, Chars(kept));
    ParsePrinted(p / ONE_MORAL, kept);
    Truncation(p, d);
  }

  // --------------------------------------------------------- negative amounts --

  lemma MinusText(r: int)
    requires 0 < r
    ensures AreDigits(DecimalDigits(r), 10) && ToText(-r) == ['-'] + Chars(DecimalDigits(r))
  {
    hide NatText, Value, Chars, DecimalDigits;
    TextOfNat(r);
  }

  /** The integer part that is printed for -q MORAL and something. */
  lemma NegativeInteger(q: int)
    requires 0 <= q
    ensures ToText(-q) != "" && SignsAndDigits(ToText(-q)) && BigInt(ToText(-q)) == Some(-q)
  {
    hide BigInt, Value, ToText, DecimalDigits, Chars, DigitOf;
    TextOfNat(q);
    var ds := DecimalDigits(q);
    CharsAreDigits(ds);
    BigIntOfDigits(ds);
    if q != 0 {
      MinusText(q);
    }
  }

  /** What a printed fraction is worth when it is read back; None when it is no literal. */
  function Worth(f: string): Option<int>
  {
    if f == "" then Some(0) else BigInt(Fraction(f))
  }

  /** Parsing the text for -q MORAL with a fraction. */
  lemma ParseFormatted(q: int, f: string)
    requires 0 <= q && SignsAndDigits(f)
    ensures Parse(if f == "" then ToText(-q) else ToText(-q) + ['.'] + f) ==
            if Worth(f) == None then 0 else Worth(f).value - q * ONE_MORAL
  {
    hide Parse, BigInt, ToText, Fraction, SignsAndDigits;
    NegativeInteger(q);
    if f == "" {
      ParseWhole(ToText(-q));
    } else {
      ParseParts(ToText(-q), f);
    }
  }

  /** The fraction that is printed for a remainder of -r. */
  function NegativeFraction(r: int, d: nat): string
  {
    DropTrailingZeros(Take(PadStart(ToText(-r), MORAL_DECIMALS, '0'), d))
  }

  lemma FormatNegative(p: int, d: nat)
    requires 0 <= p
    ensures var q, f := p / ONE_MORAL, NegativeFraction(p % ONE_MORAL, d);
      Format(-p, d) == if f == "" then ToText(-q) else ToText(-q) + ['.'] + f
  {
    hide ToText, DropTrailingZeros, PadStart, Take;
    assert TruncDiv(-p, ONE_MORAL) == -(p / ONE_MORAL);
    assert TruncRem(-p, ONE_MORAL) == -(p % ONE_MORAL);
  }

  /** A fraction text that starts with zeros before the sign is no literal. */
  lemma MisplacedSign(s: string, z: nat)
    requires SignsAndDigits(s) && 1 <= z < |s| && s[z] == '-' && s[0] == '0'
    ensures BigInt(s) == None
  {
    hide Trim, IsSpace, Value;
    PlainText(s);
    var ds := seq(|s|, i requires 0 <= i < |s| => DigitOf(s[i]));
    assert ds[z] == 16;
    assert s[1] == '-' || '0' <= s[1] <= '9';
  }

  /** Up to ten digits: the sign falls behind padding zeros, so nothing or no literal is printed. */
  lemma ShortRemainder(text: string, d: nat)
    requires 2 <= |text| <= 11 && text[0] == '-' && SignsAndDigits(text)
    ensures var f := DropTrailingZeros(Take(PadStart(text, MORAL_DECIMALS, '0'), d));
      SignsAndDigits(f) && Worth(f) == if d <= 12 - |text| then Some(0) else None
  {
    hide BigInt, DropTrailingZeros, PadStart;
    var z := 12 - |text|;
    var padded := PadStart(text, MORAL_DECIMALS, '0');
    assert padded == Repeat('0', z) + text by {
      ShortPadded(text);
    }
    var f := DropTrailingZeros(Take(padded, d));
    assert f <= padded;
    FirstSign(padded, f, z, d);
    if f != "" {
      MisplacedSign(Fraction(f), z);
    }
  }

  lemma ShortPadded(text: string)
    requires |text| <= 11
    ensures PadStart(text, MORAL_DECIMALS, '0') == Repeat('0', 12 - |text|) + text
  {
  }

  /** What is left of zeros followed by a sign reaches the sign. */
  lemma FirstSign(padded: string, f: string, z: nat, d: nat)
    requires z < |padded| == 12 && padded[z] == '-' && forall i :: 0 <= i < z ==> padded[i] == '0'
    requires f == DropTrailingZeros(Take(padded, d))
    ensures if d <= z then f == "" else z < |f|
  {
    hide DropTrailingZeros;
    var s := Take(padded, d);
    assert f != "" ==> f[|f| - 1] != '0' && f[|f| - 1] == padded[|f| - 1];
    assert z < d ==> s[z] == '-';
  }

  /** What the first m digits of a remainder read back as, behind the sign. */
  function Eleven(ds: seq<int>, m: nat): (kept: seq<int>)
    requires m <= |ds|
    ensures |kept| == 11 && (AreDigits(ds, 10) ==> AreDigits(kept, 10))
    ensures forall i :: 0 <= i < 11 ==> kept[i] == if i < m then ds[i] else 0
  {
    (ds[..m] + Zeros(11))[..11]
  }

  /** Eleven or twelve digits: the sign comes first, and at most eleven digits are read back. */
  lemma LongRemainder(ds: seq<int>, m: nat, f: string)
    requires AreDigits(ds, 10) && 11 <= |ds| <= 12 && m <= |ds|
    requires f == DropTrailingZeros(['-'] + Chars(ds[..m]))
    ensures f != "" && SignsAndDigits(f) && BigInt(Fraction(f)) == Some(-Value(Eleven(ds, m), 10))
  {
    hide BigInt, Value, DropTrailingZeros, Fraction, Eleven;
    var s := ['-'] + Chars(ds[..m]);
    assert s[0] == '-' && |f| >= 1;
    var kept := Eleven(ds, m);
    forall i | 0 <= i < 12 ensures Fraction(f)[i] == (['-'] + Chars(kept))[i] {
      assert 0 < i <= m ==> s[i] == Chars(ds[..m])[i - 1];
    }
    assert Fraction(f) == ['-'] + Chars(kept);
    BigIntOfDigits(kept);
  }

  lemma DigitCount(r: nat)
    requires 0 < r < ONE_MORAL
    ensures var n := |DecimalDigits(r)|;
      1 <= n <= 12 && (n <= 10 <==> r < 10_000_000_000) && (n <= 11 <==> r < 100_000_000_000)
  {
    hide Numeral, Value, Pow;
    TextOfNat(r);
    NumeralShape(r, 10);
    var ds := DecimalDigits(r);
    ValueBounds(ds, 10);
    LeadBounds(ds, 10);
    var p := Pow(10, |ds| - 1);
    PowPositive(10, |ds| - 1);
    MulMonotone(1, ds[0], p);
    assert p <= r < Pow(10, |ds|);
    hide DecimalDigits;
    PowersOfTen();
    if |ds| > 12 {
      PowMonotone(10, 12, |ds| - 1);
    } else if |ds| < 10 {
      PowMonotone(10, |ds|, 10);
    }
  }

  /** The digits an eleven-digit remainder keeps. */
  lemma ElevenKept(ds: seq<int>, m: nat)
    requires AreDigits(ds, 10) && |ds| == 11 && m <= 11
    ensures 0 < Pow(10, 11 - m) && 0 <= Value(ds, 10)
    ensures Value(Eleven(ds, m), 10) == Value(ds, 10) - Value(ds, 10) % Pow(10, 11 - m)
  {
    hide Value, Pow;
    assert Eleven(ds, m) == ds[..m] + Zeros(11 - m);
    TruncateDigits(0, ds, m);
    assert 0 * Pow(10, 11) == 0;
  }

  /** The digits a twelve-digit remainder keeps, shifted by one because the sign takes a place. */
  lemma TwelveKept(ds: seq<int>, m: nat)
    requires AreDigits(ds, 10) && |ds| == 12 && m <= 12
    ensures var k := if m < 11 then m else 11;
      && 0 < Pow(10, 12 - k) && 0 <= Value(ds, 10)
      && Value(Eleven(ds, m), 10) * 10 == Value(ds, 10) - Value(ds, 10) % Pow(10, 12 - k)
  {
    hide Value, Pow;
    var k := if m < 11 then m else 11;
    assert Eleven(ds, m) + [0] == ds[..k] + Zeros(12 - k);
    ValueSnoc(Eleven(ds, m), 0, 10);
    TruncateDigits(0, ds, k);
    assert 0 * Pow(10, 12) == 0;
  }

  lemma CutOf(d: nat, k: nat)
    requires k == if d < 12 then d else 12
    ensures Cut(d) == Pow(10, 12 - k)
  {
    hide Pow;
  }

  lemma LongText(ds: seq<int>, d: nat)
    requires AreDigits(ds, 10) && 11 <= |ds| <= 12 && 1 <= d
    ensures var m := if d - 1 < |ds| then d - 1 else |ds|;
      Take(PadStart(['-'] + Chars(ds), MORAL_DECIMALS, '0'), d) == ['-'] + Chars(ds[..m])
  {
  }

  lemma MinusShape(ds: seq<int>)
    requires AreDigits(ds, 10)
    ensures SignsAndDigits(['-'] + Chars(ds)) && |['-'] + Chars(ds)| == |ds| + 1
  {
  }

  /** What reads back from the fraction that is printed for -r. The sign takes one of the twelve places: up to ten digits
      it falls behind padding zeros, with twelve digits it displaces the last one. */
  function NegativeWorth(r: nat, digits: nat, d: nat): Option<int>
  {
    if r == 0 || d == 0 then Some(0)
    else if digits <= 10 then if d <= 11 - digits then Some(0) else None
    else if digits == 11 then Some(r % Cut(d) - r)
    else
      var cut := Cut(if d - 1 < 11 then d - 1 else 11);
      Some(-((r - r % cut) / 10))
  }

  lemma LongWorth(ds: seq<int>, d: nat, r: nat, f: string)
    requires AreDigits(ds, 10) && 11 <= |ds| <= 12 && 1 <= d && r == Value(ds, 10)
    requires 0 < r && f == DropTrailingZeros(Take(PadStart(['-'] + Chars(ds), MORAL_DECIMALS, '0'), d))
    ensures SignsAndDigits(f) && Worth(f) == NegativeWorth(r, |ds|, d)
  {
    hide Value, Pow, BigInt, Fraction, PadStart, DropTrailingZeros, Take, Chars, Eleven, SignsAndDigits, Cut;
    var m := if d - 1 < |ds| then d - 1 else |ds|;
    LongText(ds, d);
    LongRemainder(ds, m, f);
    if |ds| == 11 {
      ElevenKept(ds, m);
      CutOf(d, if d < 12 then d else 12);
    } else {
      var k := if d - 1 < 11 then d - 1 else 11;
      TwelveKept(ds, m);
      CutOf(k, k);
      TenTimes(Value(Eleven(ds, m), 10), r - r % Cut(k));
    }
  }

  lemma TenTimes(x: int, y: int)
    requires x * 10 == y
    ensures x == y / 10
  {
  }

  lemma NegativeFractionWorth(r: nat, d: nat)
    requires r < ONE_MORAL
    ensures var f := NegativeFraction(r, d);
      SignsAndDigits(f) && Worth(f) == NegativeWorth(r, |DecimalDigits(r)|, d)
  {
    hide Value, BigInt, Fraction, PadStart, DropTrailingZeros, Take, DecimalDigits, ToText, Chars, SignsAndDigits, Cut;
    var ds := DecimalDigits(r);
    if r == 0 {
      WholeFraction(d);
    } else if d == 0 {
      NothingShown(r);
    } else {
      DigitCount(r);
      MinusText(r);
      TextOfNat(r);
      if |ds| <= 10 {
        MinusShape(ds);
        ShortRemainder(['-'] + Chars(ds), d);
      } else {
        LongWorth(ds, d, r, NegativeFraction(r, d));
      }
    }
  }

  lemma NothingShown(r: int)
    ensures NegativeFraction(r, 0) == "" && SignsAndDigits("")
  {
    hide ToText, PadStart;
  }

  lemma WholeFraction(d: nat)
    ensures NegativeFraction(0, d) == "" && SignsAndDigits("")
  {
  }

  /** What an amount comes back as: a non-negative one loses the digits that were cut; a negative one keeps its integer
      part and what its fraction reads back as, or becomes 0 when the fraction is no literal. */
  function ReadBack(n: int, d: nat): int
  {
    if n >= 0 then n - n % Cut(d)
    else
      var q, r := -n / ONE_MORAL, -n % ONE_MORAL;
      var fraction := NegativeWorth(r, |DecimalDigits(r)|, d);
      if fraction == None then 0 else fraction.value - q * ONE_MORAL
  }

  /** The value that printing with d decimals and parsing gives back, over all integers and numbers of decimals. */
  lemma RoundTrip(n: int, d: nat)
    ensures Parse(Format(n, d)) == ReadBack(n, d)
  {
    hide Parse, Format, Cut, NegativeFraction, Worth, NegativeWorth, ToText, SignsAndDigits, DecimalDigits;
    if n >= 0 {
      CutRoundTrip(n, d);
    } else {
      var p := -n;
      FormatNegative(p, d);
      NegativeFractionWorth(p % ONE_MORAL, d);
      ParseFormatted(p / ONE_MORAL, NegativeFraction(p % ONE_MORAL, d));
    }
  }

  /** A remainder of eleven digits none of which but zeros is cut. */
  predicate Kept(r: int, d: nat)
  {
    10_000_000_000 <= r < 100_000_000_000 && r % Cut(d) == 0
  }

  /** The amounts whose text with d decimals means the same amount: non-negative ones that lose no digit, negative ones
      that are whole, and negative ones with eleven digits behind the point of which none but zeros are lost. */
  predicate Exact(n: int, d: nat)
  {
    if n >= 0 then n % Cut(d) == 0 else -n % ONE_MORAL == 0 || Kept(-n % ONE_MORAL, d)
  }

  lemma CutOfNone(r: nat)
    requires 0 < r < ONE_MORAL
    ensures r % Cut(0) != 0
  {
    hide Pow;
    PowersOfTen();
  }

  lemma WorthExact(r: nat, d: nat)
    requires r < ONE_MORAL
    ensures NegativeWorth(r, |DecimalDigits(r)|, d) == Some(-(r as int)) <==> r == 0 || Kept(r, d)
  {
    hide DecimalDigits, Cut;
    if r != 0 {
      DigitCount(r);
      CutOfNone(r);
      var cut := Cut(if d > 0 && d - 1 < 11 then d - 1 else 11);
      assert 0 <= r % cut;
    }
  }

  /** Printing and parsing back returns the amount for exactly these. */
  lemma RoundTripExactly(n: int, d: nat)
    ensures Parse(Format(n, d)) == n <==> Exact(n, d)
  {
    hide Parse, Format, Cut, NegativeWorth, DecimalDigits, Kept;
    RoundTrip(n, d);
    if n < 0 {
      WorthExact(-n % ONE_MORAL, d);
    }
  }
}
