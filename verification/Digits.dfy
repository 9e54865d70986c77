/** Positional numerals: digit sequences written most significant digit first. */
module Digits {

  /** Value of a digit character in any radix up to 16; 16 when it is not one. */
  function DigitOf(c: char): (d: nat)
    ensures d <= 16
  {
    if '0' <= c <= '9' then (c - '0') as nat
    else if 'a' <= c <= 'f' then (c - 'a') as nat + 10
    else if 'A' <= c <= 'F' then (c - 'A') as nat + 10
    else 16
  }

  function Pow(b: nat, e: nat): nat
  {
    if e == 0 then 1 else b * Pow(b, e - 1)
  }

  ghost predicate AreDigits(ds: seq<int>, b: int)
  {
    forall i :: 0 <= i < |ds| ==> 0 <= ds[i] < b
  }

  /** The number a digit sequence stands for. */
  function Value(ds: seq<int>, b: int): int
  {
    if ds == [] then 0 else Value(ds[..|ds| - 1], b) * b + ds[|ds| - 1]
  }

  /** The shortest numeral of `n`; zero is the empty numeral. */
  function Numeral(n: nat, b: nat): seq<int>
    requires 2 <= b
    decreases n
  {
    if n == 0 then [] else (DivShrinks(n, b); Numeral(n / b, b) + [n % b])
  }

  /** The last `width` digits of `n`. */
  function Fixed(n: nat, b: nat, width: nat): (ds: seq<int>)
    requires 2 <= b
    ensures |ds| == width
  {
    if width == 0 then [] else (DivShrinks(n, b); Fixed(n / b, b, width - 1) + [n % b])
  }

  lemma FixedStep(n: nat, b: nat, width: nat)
    requires 2 <= b
    ensures Fixed(n, b, 0) == []
    ensures n / b >= 0 && Fixed(n, b, width + 1) == Fixed(n / b, b, width) + [n % b]
  {
    DivShrinks(n, b);
  }

  lemma DivShrinks(n: nat, b: nat)
    requires 2 <= b
    ensures 0 <= n / b <= n && (0 < n ==> n / b < n)
    ensures n == n / b * b + n % b
  {
    var q, r := n / b, n % b;
    assert n == q * b + r;
    if 0 < q {
      assert q * b >= q * 2;
    }
  }

  lemma MulMonotone(x: int, y: int, c: int)
    requires x <= y && 0 <= c
    ensures x * c <= y * c
  {
  }

  lemma MulSucc(x: int, c: int)
    ensures (x + 1) * c == x * c + c
  {
  }

  lemma MulStep(x: int, y: int, c: int)
    requires x < y && 0 <= c
    ensures x * c + c <= y * c
  {
    MulMonotone(x + 1, y, c);
    MulSucc(x, c);
  }

  lemma QuotientUnique(q: int, r: int, q': int, r': int, b: int)
    requires 0 <= r < b && 0 <= r' < b
    requires q * b + r == q' * b + r'
    ensures q == q' && r == r'
  {
    if q < q' {
      MulStep(q, q', b);
    } else if q' < q {
      MulStep(q', q, b);
    }
  }

  lemma DivModUnique(q: int, r: int, b: int)
    requires 0 <= r < b
    ensures (q * b + r) / b == q && (q * b + r) % b == r
  {
    var n := q * b + r;
    QuotientUnique(q, r, n / b, n % b, b);
  }

  lemma {:induction false} PowAdd(b: nat, m: nat, n: nat)
    ensures Pow(b, m + n) == Pow(b, m) * Pow(b, n)
  {
    if m != 0 {
      PowAdd(b, m - 1, n);
      assert b * (Pow(b, m - 1) * Pow(b, n)) == b * Pow(b, m - 1) * Pow(b, n);
    }
  }

  lemma {:induction false} PowPositive(b: nat, e: nat)
    requires 0 < b
    ensures 0 < Pow(b, e)
  {
    if e != 0 {
      PowPositive(b, e - 1);
    }
  }

  lemma ValueSnoc(ds: seq<int>, d: int, b: int)
    ensures Value(ds + [d], b) == Value(ds, b) * b + d
  {
    assert (ds + [d])[..|ds|] == ds;
  }

  /** Concatenating numerals shifts the first by the length of the second. */
  lemma {:induction false} ValueConcat(xs: seq<int>, ys: seq<int>, b: nat)
    ensures Value(xs + ys, b) == Value(xs, b) * Pow(b, |ys|) + Value(ys, b)
  {
    if ys == [] {
      assert xs + ys == xs;
    } else {
      var front, last := ys[..|ys| - 1], ys[|ys| - 1];
      ValueConcat(xs, front, b);
      assert xs + ys == (xs + front) + [last];
      ValueSnoc(xs + front, last, b);
      Shift(Value(xs, b), Pow(b, |front|), Value(front, b), b);
    }
  }

  lemma Shift(x: int, p: int, y: int, b: int)
    ensures (x * p + y) * b == x * (b * p) + y * b
  {
    assert x * p * b == x * (b * p);
  }

  lemma {:induction false} ValueBounds(ds: seq<int>, b: nat)
    requires 2 <= b && AreDigits(ds, b)
    ensures 0 <= Value(ds, b) < Pow(b, |ds|)
  {
    if ds != [] {
      var front := ds[..|ds| - 1];
      ValueBounds(front, b);
      SnocBounds(Value(front, b), ds[|ds| - 1], b, Pow(b, |front|));
    }
  }

  lemma SnocBounds(v: int, d: int, b: int, p: int)
    requires 0 <= v < p && 0 <= d < b
    ensures 0 <= v * b + d < b * p
  {
    MulStep(v, p, b);
    MulMonotone(0, v, b);
  }

  lemma {:induction false} ValuePositive(ds: seq<int>, b: nat)
    requires 2 <= b && AreDigits(ds, b) && ds != [] && ds[0] != 0
    ensures 0 < Value(ds, b)
  {
    var front := ds[..|ds| - 1];
    if front != [] {
      ValuePositive(front, b);
      assert 0 < Value(front, b) * b;
    }
  }

  lemma {:induction false} NumeralShape(n: nat, b: nat)
    requires 2 <= b
    ensures AreDigits(Numeral(n, b), b)
    ensures if n == 0 then Numeral(n, b) == [] else Numeral(n, b) != [] && Numeral(n, b)[0] != 0
    decreases n
  {
    if n != 0 {
      DivShrinks(n, b);
      NumeralShape(n / b, b);
    }
  }

  /** Writing a number and reading it back. */
  lemma {:induction false} ValueOfNumeral(n: nat, b: nat)
    requires 2 <= b
    ensures Value(Numeral(n, b), b) == n
    decreases n
  {
    if n != 0 {
      DivShrinks(n, b);
      ValueOfNumeral(n / b, b);
      ValueSnoc(Numeral(n / b, b), n % b, b);
    }
  }

  /** Reading a numeral without leading zero and writing it back. */
  lemma {:induction false} NumeralOfValue(ds: seq<int>, b: nat)
    requires 2 <= b && AreDigits(ds, b) && (ds != [] ==> ds[0] != 0)
    ensures 0 <= Value(ds, b)
    ensures Numeral(Value(ds, b), b) == ds
  {
    if ds != [] {
      var front, last := ds[..|ds| - 1], ds[|ds| - 1];
      ValueBounds(front, b);
      ValuePositive(ds, b);
      NumeralOfValue(front, b);
      DivModUnique(Value(front, b), last, b);
      assert ds == front + [last];
    }
  }

  lemma {:induction false} FixedAreDigits(n: nat, b: nat, width: nat)
    requires 2 <= b
    ensures AreDigits(Fixed(n, b, width), b)
  {
    if width != 0 {
      DivShrinks(n, b);
      FixedAreDigits(n / b, b, width - 1);
    }
  }

  /** The k-th digit from the right counts b^k. */
  lemma {:induction false} FixedAt(n: nat, b: nat, width: nat, k: nat)
    requires 2 <= b && k < width
    ensures 0 < Pow(b, k) && Fixed(n, b, width)[width - 1 - k] == n / Pow(b, k) % b
  {
    PowPositive(b, k);
    DivShrinks(n, b);
    if k != 0 {
      FixedAt(n / b, b, width - 1, k - 1);
      DivDiv(n, b, Pow(b, k - 1));
    }
  }

  lemma DivDiv(n: nat, a: nat, b: nat)
    requires 0 < a && 0 < b
    ensures 0 < a * b && n / a / b == n / (a * b)
  {
    var q, r := n / a, n % a;
    var q', r' := q / b, q % b;
    assert n == q * a + r && q == q' * b + r';
    assert n == q' * (a * b) + (r' * a + r) by {
      assert q * a == q' * b * a + r' * a;
      assert q' * b * a == q' * (a * b);
    }
    assert 0 <= r' * a + r < a * b by {
      MulStep(r', b, a);
      assert b * a == a * b;
    }
    DivModUnique(q', r' * a + r, a * b);
  }

  lemma QuotientFits(n: nat, b: nat, p: nat)
    requires 2 <= b && n < b * p
    ensures n / b < p
  {
    DivShrinks(n, b);
    if p <= n / b {
      MulMonotone(p, n / b, b);
    }
  }

  /** A fixed-width numeral keeps every number that fits its width. */
  lemma {:induction false} ValueOfFixed(n: nat, b: nat, width: nat)
    requires 2 <= b && n < Pow(b, width)
    ensures Value(Fixed(n, b, width), b) == n
  {
    if width != 0 {
      DivShrinks(n, b);
      QuotientFits(n, b, Pow(b, width - 1));
      ValueOfFixed(n / b, b, width - 1);
      ValueSnoc(Fixed(n / b, b, width - 1), n % b, b);
    }
  }

  lemma {:induction false} FixedOfValue(ds: seq<int>, b: nat)
    requires 2 <= b && AreDigits(ds, b)
    ensures 0 <= Value(ds, b)
    ensures Fixed(Value(ds, b), b, |ds|) == ds
  {
    if ds != [] {
      var front, last := ds[..|ds| - 1], ds[|ds| - 1];
      ValueBounds(front, b);
      FixedOfValue(front, b);
      DivModUnique(Value(front, b), last, b);
      assert 0 <= Value(front, b) * b;
      assert ds == front + [last];
    }
  }

  /** Leading zeros do not change the value. */
  lemma {:induction false} ValueOfZeros(zeros: seq<int>, b: nat)
    requires forall i :: 0 <= i < |zeros| ==> zeros[i] == 0
    ensures Value(zeros, b) == 0
  {
    if zeros != [] {
      ValueOfZeros(zeros[..|zeros| - 1], b);
    }
  }

  lemma {:induction false} PowMonotone(b: nat, m: nat, n: nat)
    requires 0 < b && m <= n
    ensures Pow(b, m) <= Pow(b, n)
  {
    PowAdd(b, m, n - m);
    PowPositive(b, m);
    PowPositive(b, n - m);
    MulMonotone(1, Pow(b, n - m), Pow(b, m));
  }

  lemma LeadBounds(ds: seq<int>, b: nat)
    requires 2 <= b && AreDigits(ds, b) && ds != []
    ensures ds[0] * Pow(b, |ds| - 1) <= Value(ds, b) < (ds[0] + 1) * Pow(b, |ds| - 1)
  {
    var lead, tail := ds[0], ds[1..];
    assert [lead] + tail == ds;
    ValueSnoc([], lead, b);
    ValueConcat([lead], tail, b);
    ValueBounds(tail, b);
    MulSucc(lead, Pow(b, |tail|));
  }

  function Zeros(k: nat): (z: seq<int>)
    ensures |z| == k && forall i :: 0 <= i < k ==> z[i] == 0
  {
    seq(k, _ => 0)
  }

  /** A fixed-width numeral is the shortest one behind leading zeros. */
  lemma FixedIsPadded(n: nat, b: nat, width: nat)
    requires 2 <= b && n < Pow(b, width)
    ensures |Numeral(n, b)| <= width
    ensures Fixed(n, b, width) == Zeros(width - |Numeral(n, b)|) + Numeral(n, b)
  {
    hide Value, Numeral, Pow, Fixed;
    var ds := Numeral(n, b);
    NumeralShape(n, b);
    ValueOfNumeral(n, b);
    if width < |ds| {
      PowMonotone(b, width, |ds| - 1);
      LeadBounds(ds, b);
      PowPositive(b, |ds| - 1);
      MulMonotone(1, ds[0], Pow(b, |ds| - 1));
    }
    var padded := Zeros(width - |ds|) + ds;
    ValueConcat(Zeros(width - |ds|), ds, b);
    ValueOfZeros(Zeros(width - |ds|), b);
    FixedOfValue(padded, b);
  }
}
