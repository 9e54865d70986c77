/** UTF-8, which a SCALE string must be. */
module Utf8 {
  import opened Common

  predicate IsTail(b: byte) { 0x80 <= b <= 0xBF }

  /** Length of the sequence at the front, by the syntax of section 4 of RFC 3629; 0 when there is none. */
  function SequenceLength(s: seq<byte>): (n: nat)
    requires s != []
    ensures n <= |s|
  {
    if s[0] <= 0x7F then 1
    else if |s| < 2 then 0
    else if 0xC2 <= s[0] <= 0xDF then if IsTail(s[1]) then 2 else 0
    else if |s| < 3 then 0
    else if 0xE0 <= s[0] <= 0xEF then
      if IsTail(s[1]) && IsTail(s[2]) && (s[0] == 0xE0 ==> 0xA0 <= s[1]) && (s[0] == 0xED ==> s[1] <= 0x9F) then 3 else 0
    else if |s| < 4 then 0
    else if 0xF0 <= s[0] <= 0xF4 then
      if IsTail(s[1]) && IsTail(s[2]) && IsTail(s[3]) && (s[0] == 0xF0 ==> 0x90 <= s[1]) && (s[0] == 0xF4 ==> s[1] <= 0x8F)
      then 4 else 0
    else 0
  }

  predicate IsUtf8(s: seq<byte>)
  {
    s == [] || (SequenceLength(s) != 0 && IsUtf8(s[SequenceLength(s)..]))
  }

  /** A String, held as its UTF-8 bytes. */
  type Text = s: seq<byte> | IsUtf8(s) witness []

  /** A Unicode character: a code point that is no surrogate. */
  predicate IsChar(c: int)
  {
    0 <= c < 0xD800 || 0xE000 <= c < 0x11_0000
  }

  predicate AreChars(cs: seq<int>)
  {
    forall i :: 0 <= i < |cs| ==> IsChar(cs[i])
  }

  /** The octets of a character, by the table of section 3 of RFC 3629. */
  function EncodeChar(c: int): (s: seq<byte>)
    requires IsChar(c)
    ensures s != []
  {
    if c < 0x80 then [c]
    else if c < 0x800 then [0xC0 + c / 64, 0x80 + c % 64]
    else if c < 0x1_0000 then [0xE0 + c / 4096, 0x80 + c / 64 % 64, 0x80 + c % 64]
    else [0xF0 + c / 262_144, 0x80 + c / 4096 % 64, 0x80 + c / 64 % 64, 0x80 + c % 64]
  }

  function EncodeText(cs: seq<int>): seq<byte>
    requires AreChars(cs)
  {
    if cs == [] then [] else EncodeChar(cs[0]) + EncodeText(cs[1..])
  }

  /** The octets of a character are one sequence, whatever follows. */
  lemma CharIsSequence(c: int, rest: seq<byte>)
    requires IsChar(c)
    ensures SequenceLength(EncodeChar(c) + rest) == |EncodeChar(c)|
  {
  }

  lemma Split3(a: nat, b: nat, d: nat)
    requires b < 64 && d < 64
    ensures var c := a * 4096 + b * 64 + d; c / 4096 == a && c / 64 % 64 == b && c % 64 == d
  {
    assert (a * 4096 + b * 64 + d) / 64 == a * 64 + b;
  }

  lemma Split4(a: nat, b: nat, d: nat, e: nat)
    requires b < 64 && d < 64 && e < 64
    ensures var c := a * 262_144 + b * 4096 + d * 64 + e;
      c / 262_144 == a && c / 4096 % 64 == b && c / 64 % 64 == d && c % 64 == e
  {
    Split3(a * 64 + b, d, e);
  }

  /** The bits of the octets, without those that tell their kind. */
  function Join3(x: int, y: int, z: int): int { (x - 0xE0) * 4096 + (y - 0x80) * 64 + (z - 0x80) }

  function Join4(x: int, y: int, z: int, w: int): int { (x - 0xF0) * 262_144 + (y - 0x80) * 4096 + (z - 0x80) * 64 + (w - 0x80) }

  /** The character whose octets a sequence is. */
  function CodePoint(s: seq<byte>): int
    requires s != []
  {
    if |s| == 1 then s[0]
    else if |s| == 2 then (s[0] as int - 0xC0) * 64 + (s[1] as int - 0x80)
    else if |s| == 3 then Join3(s[0], s[1], s[2])
    else if |s| == 4 then Join4(s[0], s[1], s[2], s[3])
    else 0
  }

  lemma Digits64(c: nat)
    ensures c / 64 == c / 4096 * 64 + c / 64 % 64
  {
    assert c / 64 / 64 == c / 4096;
  }

  lemma CodePointOfChar(c: int)
    requires IsChar(c)
    ensures CodePoint(EncodeChar(c)) == c
  {
    if 0x800 <= c {
      Digits64(c);
      Digits64(c / 64);
      assert c / 64 / 64 == c / 4096 && c / 64 / 4096 == c / 262_144;
    }
  }

  lemma Three(x: byte, y: byte, z: byte)
    requires 0xE0 <= x <= 0xEF && IsTail(y) && IsTail(z) && (x == 0xE0 ==> 0xA0 <= y) && (x == 0xED ==> y <= 0x9F)
    ensures var c := Join3(x, y, z); 0x800 <= c < 0x1_0000 && IsChar(c) && EncodeChar(c) == [x, y, z]
  {
    var a, b, d := x as int - 0xE0, y as int - 0x80, z as int - 0x80;
    Split3(a, b, d);
    assert Join3(x, y, z) == a * 4096 + b * 64 + d;
  }

  lemma Encode4(c: int, a: nat, b: nat, d: nat, e: nat)
    requires 0x1_0000 <= c < 0x11_0000
    requires c / 262_144 == a && c / 4096 % 64 == b && c / 64 % 64 == d && c % 64 == e
    ensures EncodeChar(c) == [0xF0 + a, 0x80 + b, 0x80 + d, 0x80 + e]
  {
  }

  lemma Four(x: byte, y: byte, z: byte, w: byte)
    requires 0xF0 <= x <= 0xF4 && IsTail(y) && IsTail(z) && IsTail(w) && (x == 0xF0 ==> 0x90 <= y) && (x == 0xF4 ==> y <= 0x8F)
    ensures var c := Join4(x, y, z, w); 0x1_0000 <= c && IsChar(c) && EncodeChar(c) == [x, y, z, w]
  {
    hide EncodeChar;
    var a, b, d, e := x as int - 0xF0, y as int - 0x80, z as int - 0x80, w as int - 0x80;
    var c := a * 262_144 + b * 4096 + d * 64 + e;
    assert 0x1_0000 <= c < 0x11_0000;
    Split4(a, b, d, e);
    Encode4(c, a, b, d, e);
  }

  /** Every sequence is the octets of a character. */
  lemma SequenceIsChar(s: seq<byte>)
    requires s != [] && |s| == SequenceLength(s)
    ensures IsChar(CodePoint(s)) && EncodeChar(CodePoint(s)) == s
  {
    hide Join3, Join4;
    if |s| >= 3 {
      hide EncodeChar;
      if |s| == 3 {
        Three(s[0], s[1], s[2]);
        assert s == [s[0], s[1], s[2]];
      } else {
        Four(s[0], s[1], s[2], s[3]);
        assert s == [s[0], s[1], s[2], s[3]];
      }
    }
  }

  lemma SequenceInFront(s: seq<byte>)
    requires s != [] && SequenceLength(s) != 0
    ensures SequenceLength(s[..SequenceLength(s)]) == SequenceLength(s)
  {
  }

  lemma {:induction false} TextIsUtf8(cs: seq<int>)
    requires AreChars(cs)
    ensures IsUtf8(EncodeText(cs))
  {
    hide EncodeChar, SequenceLength, CodePoint;
    if cs != [] {
      CharIsSequence(cs[0], EncodeText(cs[1..]));
      TextIsUtf8(cs[1..]);
      assert EncodeText(cs)[|EncodeChar(cs[0])|..] == EncodeText(cs[1..]);
    }
  }

  lemma {:induction false} Utf8IsText(s: seq<byte>) returns (cs: seq<int>)
    requires IsUtf8(s)
    ensures AreChars(cs) && EncodeText(cs) == s
  {
    hide EncodeChar, SequenceLength, CodePoint;
    if s == [] {
      cs := [];
    } else {
      var n := SequenceLength(s);
      SequenceInFront(s);
      SequenceIsChar(s[..n]);
      var rest := Utf8IsText(s[n..]);
      cs := [CodePoint(s[..n])] + rest;
      assert cs[1..] == rest && s == s[..n] + s[n..];
    }
  }

  /** Exactly the encodings of character sequences are UTF-8. */
  lemma Utf8Exactly(s: seq<byte>)
    ensures IsUtf8(s) <==> exists cs :: AreChars(cs) && EncodeText(cs) == s
  {
    if IsUtf8(s) {
      var cs := Utf8IsText(s);
    } else {
      forall cs | AreChars(cs) ensures EncodeText(cs) != s {
        TextIsUtf8(cs);
      }
    }
  }

  /** No two character sequences have the same encoding. */
  lemma {:induction false} TextInjective(cs: seq<int>, ds: seq<int>)
    requires AreChars(cs) && AreChars(ds) && EncodeText(cs) == EncodeText(ds)
    ensures cs == ds
  {
    hide EncodeChar, SequenceLength, CodePoint;
    if cs != [] && ds != [] {
      var s := EncodeText(cs);
      CharIsSequence(cs[0], EncodeText(cs[1..]));
      CharIsSequence(ds[0], EncodeText(ds[1..]));
      assert EncodeChar(cs[0]) == s[..SequenceLength(s)] == EncodeChar(ds[0]);
      CodePointOfChar(cs[0]);
      CodePointOfChar(ds[0]);
      assert EncodeText(cs[1..]) == s[SequenceLength(s)..] == EncodeText(ds[1..]);
      TextInjective(cs[1..], ds[1..]);
    }
  }
}
