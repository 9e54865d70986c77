/** Base64 text of byte arrays (section 4 of RFC 4648), as the storage RPC client produces and reads it. */
module Base64 {
  import opened Common
  import opened Digits

  function SextetChar(n: nat): (c: char)
    requires n < 64
    ensures InTable(c)
  {
    if n < 26 then 'A' + n as char
    else if n < 52 then 'a' + (n - 26) as char
    else if n < 62 then '0' + (n - 52) as char
    else if n == 62 then '+' else '/'
  }

  predicate InTable(c: char)
  {
    'A' <= c <= 'Z' || 'a' <= c <= 'z' || '0' <= c <= '9' || c == '+' || c == '/'
  }

  function CharSextet(c: char): (n: nat)
    requires InTable(c)
    ensures n < 64
  {
    if 'A' <= c <= 'Z' then (c - 'A') as nat
    else if 'a' <= c <= 'z' then (c - 'a') as nat + 26
    else if '0' <= c <= '9' then (c - '0') as nat + 52
    else if c == '+' then 62 else 63
  }

  lemma SextetRoundTrip(n: nat)
    requires n < 64
    ensures CharSextet(SextetChar(n)) == n
  {
  }

  /** Characters for the leading bytes; the last one carries the remaining high bits. */
  function One(a: byte): (s: string)
    ensures |s| == 2 && Clean(s)
  {
    [SextetChar(a / 4), SextetChar(a % 4 * 16)]
  }

  function Two(a: byte, b: byte): (s: string)
    ensures |s| == 3 && Clean(s)
  {
    [SextetChar(a / 4), SextetChar(a % 4 * 16 + b / 16), SextetChar(b % 16 * 4)]
  }

  function Three(a: byte, b: byte, c: byte): (s: string)
    ensures |s| == 4 && Clean(s)
  {
    [SextetChar(a / 4), SextetChar(a % 4 * 16 + b / 16), SextetChar(b % 16 * 4 + c / 64), SextetChar(c % 64)]
  }

  /** Base64 without the padding. */
  ghost function Raw(data: seq<byte>): string
  {
    if data == [] then ""
    else if |data| == 1 then One(data[0])
    else if |data| == 2 then Two(data[0], data[1])
    else Three(data[0], data[1], data[2]) + Raw(data[3..])
  }

  /** `btoa` in one call on the whole byte string. */
  function Encode(data: seq<byte>): string
  {
    if data == [] then ""
    else if |data| == 1 then One(data[0]) + "=="
    else if |data| == 2 then Two(data[0], data[1]) + "="
    else Three(data[0], data[1], data[2]) + Encode(data[3..])
  }

  ghost predicate Clean(s: string)
  {
    forall i :: 0 <= i < |s| ==> InTable(s[i])
  }

  // ------------------------------------------------ section 4 of RFC 4648 --

  /** Table 1 of RFC 4648. */
  const TABLE: string := CAPITALS + SMALL_LETTERS + NUMERALS + "+/"
  const CAPITALS: string := "ABCDEFGHIJKLMNOPQRSTUVWXYZ"
  const SMALL_LETTERS: string := "abcdefghijklmnopqrstuvwxyz"
  const NUMERALS: string := "0123456789"

  function TableChars(ds: seq<int>): (s: string)
    requires AreDigits(ds, 64)
    ensures |s| == |ds|
  {
    seq(|ds|, i requires 0 <= i < |ds| => TABLE[ds[i]])
  }

  /** Groups of 24 bits are written as four digits in base 64, most significant first; a last group is filled with zero
      bits to whole digits, and '=' stands for the digits that are missing. */
  ghost function Rfc4648(data: seq<byte>): string
  {
    if data == [] then ""
    else if |data| == 1 then Written(Value(data, 256) * 16, 2) + "=="
    else if |data| == 2 then Written(Value(data, 256) * 4, 3) + "="
    else Written(Value(data[..3], 256), 4) + Rfc4648(data[3..])
  }

  ghost function Written(n: int, width: nat): string
  {
    if n < 0 then ""
    else
      FixedAreDigits(n, 64, width);
      TableChars(Fixed(n, 64, width))
  }

  lemma CapitalAt(k: nat)
    requires k < 26
    ensures CAPITALS[k] == 'A' + k as char
  {
  }

  lemma SmallLetterAt(k: nat)
    requires k < 26
    ensures SMALL_LETTERS[k] == 'a' + k as char
  {
  }

  lemma NumeralAt(k: nat)
    requires k < 10
    ensures NUMERALS[k] == '0' + k as char
  {
  }

  lemma TableAt(n: nat)
    requires n < 64
    ensures TABLE[n] == SextetChar(n)
  {
    if n < 26 {
      assert TABLE[n] == CAPITALS[n];
      CapitalAt(n);
    } else if n < 52 {
      assert TABLE[n] == SMALL_LETTERS[n - 26];
      SmallLetterAt(n - 26);
    } else if n < 62 {
      assert TABLE[n] == NUMERALS[n - 52];
      NumeralAt(n - 52);
    }
  }

  lemma ValuesOfBytes(a: byte, b: byte, c: byte)
    ensures Value([a], 256) == a
    ensures Value([a, b], 256) == a * 256 + b
    ensures Value([a, b, c], 256) == (a * 256 + b) * 256 + c
  {
    ValueSnoc([], a, 256);
    ValueSnoc([a], b, 256);
    ValueSnoc([a, b], c, 256);
    assert [] + [a] == [a] && [a] + [b] == [a, b] && [a, b] + [c] == [a, b, c];
  }

  lemma ValueOfFour(p: int, q: int, r: int, t: int)
    ensures Value([p, q], 64) == p * 64 + q
    ensures Value([p, q, r], 64) == (p * 64 + q) * 64 + r
    ensures Value([p, q, r, t], 64) == ((p * 64 + q) * 64 + r) * 64 + t
  {
    hide Value;
    ValueSnoc([], p, 64);
    ValueSnoc([p], q, 64);
    ValueSnoc([p, q], r, 64);
    ValueSnoc([p, q, r], t, 64);
    NoDigits();
    assert [] + [p] == [p] && [p] + [q] == [p, q] && [p, q] + [r] == [p, q, r] && [p, q, r] + [t] == [p, q, r, t];
  }

  lemma NoDigits()
    ensures Value([], 64) == 0
  {
  }

  lemma DigitsOfThree(a: byte, b: byte, c: byte)
    ensures Fixed((a * 256 + b) * 256 + c, 64, 4) == [a / 4, a % 4 * 16 + b / 16, b % 16 * 4 + c / 64, c % 64]
    ensures Fixed((a * 256 + b) * 4, 64, 3) == [a / 4, a % 4 * 16 + b / 16, b % 16 * 4]
    ensures Fixed(a * 16, 64, 2) == [a / 4, a % 4 * 16]
  {
    hide Fixed, Value;
    var a1, a0, b1, b0, c1, c0 := a / 4, a % 4, b / 16, b % 16, c / 64, c % 64;
    ValueOfFour(a1, a0 * 16 + b1, b0 * 4 + c1, c0);
    ValueOfFour(a1, a0 * 16 + b1, b0 * 4, 0);
    ValueOfFour(a1, a0 * 16, 0, 0);
    FixedOfValue([a1, a0 * 16 + b1, b0 * 4 + c1, c0], 64);
    FixedOfValue([a1, a0 * 16 + b1, b0 * 4], 64);
    FixedOfValue([a1, a0 * 16], 64);
    assert a == a1 * 4 + a0 && b == b1 * 16 + b0 && c == c1 * 64 + c0;
  }

  lemma WrittenChars(n: nat, width: nat, ds: seq<nat>, s: string)
    requires Fixed(n, 64, width) == ds && |s| == |ds|
    requires forall i :: 0 <= i < |ds| ==> ds[i] < 64 && s[i] == SextetChar(ds[i])
    ensures Written(n, width) == s
  {
    hide Fixed, SextetChar;
    FixedAreDigits(n, 64, width);
    forall i | 0 <= i < |ds| ensures Written(n, width)[i] == s[i] {
      TableAt(ds[i]);
    }
  }

  lemma ThreeIsWritten(a: byte, b: byte, c: byte)
    ensures One(a) == Written(Value([a], 256) * 16, 2)
    ensures Two(a, b) == Written(Value([a, b], 256) * 4, 3)
    ensures Three(a, b, c) == Written(Value([a, b, c], 256), 4)
  {
    hide Fixed, SextetChar, Value, Written;
    ValuesOfBytes(a, b, c);
    DigitsOfThree(a, b, c);
    WrittenChars(a * 16, 2, [a / 4, a % 4 * 16], One(a));
    WrittenChars((a * 256 + b) * 4, 3, [a / 4, a % 4 * 16 + b / 16, b % 16 * 4], Two(a, b));
    WrittenChars((a * 256 + b) * 256 + c, 4, [a / 4, a % 4 * 16 + b / 16, b % 16 * 4 + c / 64, c % 64], Three(a, b, c));
  }

  /** The encoder is that of the RFC, on every byte string. */
  lemma {:induction false} EncodeMeetsRfc(data: seq<byte>)
    ensures Encode(data) == Rfc4648(data)
  {
    hide One, Two, Three, Value, Written;
    if |data| == 1 {
      assert data == [data[0]];
      ThreeIsWritten(data[0], 0, 0);
    } else if |data| == 2 {
      assert data == [data[0], data[1]];
      ThreeIsWritten(data[0], data[1], 0);
    } else if |data| >= 3 {
      assert data[..3] == [data[0], data[1], data[2]];
      ThreeIsWritten(data[0], data[1], data[2]);
      EncodeMeetsRfc(data[3..]);
    }
  }

  // ---------------------------------------------------- encoding in chunks --

  /** Cutting the input after a multiple of three bytes cuts the text in the same place. */
  lemma {:induction false} EncodeConcat(a: seq<byte>, b: seq<byte>)
    requires |a| % 3 == 0
    ensures Encode(a + b) == Encode(a) + Encode(b)
  {
    if a == [] {
      assert a + b == b;
    } else {
      assert (a + b)[3..] == a[3..] + b;
      EncodeConcat(a[3..], b);
    }
  }

  function Join(chunks: seq<string>): string
  {
    if chunks == [] then "" else Join(chunks[..|chunks| - 1]) + chunks[|chunks| - 1]
  }

  const CHUNK_SIZE: nat := 0x6000

  /** `uint8ArrayToBase64`: short inputs in one go, long ones chunk by chunk. */
  method Uint8ArrayToBase64(data: seq<byte>) returns (text: string)
    ensures text == Encode(data)
  {
    hide Encode, Join, Prefix;
    if |data| < 0x8000 {
      var binary := BinaryString(data, 0, |data|);
      assert data[0..|data|] == data;
      return Encode(binary);
    }
    var chunks: seq<string> := [];
    var i := 0;
    JoinEmpty(data);
    while i < |data|
      invariant i % 3 == 0
      invariant Join(chunks) == Encode(Prefix(data, i))
    {
      var end := if i + CHUNK_SIZE < |data| then i + CHUNK_SIZE else |data|;
      var binary := BinaryString(data, i, end);
      ChunkStep(data, i, end, chunks);
      chunks := chunks + [Encode(binary)];
      i := i + CHUNK_SIZE;
    }
    text := Join(chunks);
    WholePrefix(data, i);
  }

  function Prefix(data: seq<byte>, n: nat): seq<byte>
  {
    if n < |data| then data[..n] else data
  }

  lemma JoinEmpty(data: seq<byte>)
    ensures Join([]) == Encode(Prefix(data, 0))
  {
  }

  lemma WholePrefix(data: seq<byte>, n: nat)
    requires n >= |data|
    ensures Prefix(data, n) == data
  {
  }

  /** Because a chunk starts after a multiple of three bytes, its text continues the text before it. */
  lemma ChunkStep(data: seq<byte>, i: nat, end: nat, chunks: seq<string>)
    requires i % 3 == 0 && i < |data| && end == if i + CHUNK_SIZE < |data| then i + CHUNK_SIZE else |data|
    requires Join(chunks) == Encode(Prefix(data, i))
    ensures Join(chunks + [Encode(data[i..end])]) == Encode(Prefix(data, i + CHUNK_SIZE))
  {
    hide Encode, Join;
    assert Prefix(data, i + CHUNK_SIZE) == data[..i] + data[i..end];
    EncodeConcat(data[..i], data[i..end]);
    JoinSnoc(chunks, Encode(data[i..end]));
  }

  lemma JoinSnoc(chunks: seq<string>, last: string)
    ensures Join(chunks + [last]) == Join(chunks) + last
  {
    assert (chunks + [last])[..|chunks|] == chunks;
  }

  /** The inner `String.fromCharCode` loop. */
  method BinaryString(data: seq<byte>, start: nat, end: nat) returns (binary: seq<byte>)
    requires start <= end <= |data|
    ensures binary == data[start..end]
  {
    binary := [];
    for j := start to end
      invariant binary == data[start..j]
    {
      binary := binary + [data[j]];
    }
  }

  // ---------------------------------------------------------------- decoding --

  predicate IsAsciiSpace(c: char)
  {
    c in "\t\n\U{C}\r "
  }

  function WithoutSpace(s: string): string
  {
    if s == "" then "" else (if IsAsciiSpace(s[0]) then "" else [s[0]]) + WithoutSpace(s[1..])
  }

  /** At most two '=' signs are dropped from the end of a text whose length is a multiple of four. */
  function WithoutPadding(s: string): string
  {
    if s != "" && |s| % 4 == 0 && s[|s| - 1] == '=' then
      if s[|s| - 2] == '=' then s[..|s| - 2] else s[..|s| - 1]
    else s
  }

  /** The bytes that the characters of a group make. */
  function FirstByte(x: char, y: char): byte
    requires InTable(x) && InTable(y)
  {
    CharSextet(x) * 4 + CharSextet(y) / 16
  }

  function SecondByte(y: char, z: char): byte
    requires InTable(y) && InTable(z)
  {
    CharSextet(y) % 16 * 16 + CharSextet(z) / 4
  }

  function ThirdByte(z: char, w: char): byte
    requires InTable(z) && InTable(w)
  {
    CharSextet(z) % 4 * 64 + CharSextet(w)
  }

  function Groups(s: string): seq<byte>
    requires Clean(s)
  {
    if |s| < 2 then []
    else if |s| == 2 then [FirstByte(s[0], s[1])]
    else if |s| == 3 then [FirstByte(s[0], s[1]), SecondByte(s[1], s[2])]
    else [FirstByte(s[0], s[1]), SecondByte(s[1], s[2]), ThirdByte(s[2], s[3])] + Groups(s[4..])
  }

  /** `atob`: the forgiving decoder of the WHATWG Infra standard. */
  function Atob(b64: string): Result<seq<byte>, string>
  {
    var s := WithoutPadding(WithoutSpace(b64));
    if |s| % 4 == 1 || exists i :: 0 <= i < |s| && !InTable(s[i]) then Err("InvalidCharacterError")
    else Ok(Groups(s))
  }

  /** Cutting three bytes into four sextets loses no bit. */
  lemma Recombine(a: byte, b: byte, c: byte)
    ensures var q, r := a % 4 * 16 + b / 16, b % 16 * 4 + c / 64;
      a / 4 * 4 + q / 16 == a && q % 16 * 16 + r / 4 == b && r % 4 * 64 + c % 64 == c
  {
  }

  /** The sextets that the characters of a group stand for. */
  lemma SextetsOfThree(a: byte, b: byte, c: byte)
    ensures var s := Three(a, b, c);
      && CharSextet(s[0]) == a / 4 && CharSextet(s[1]) == a % 4 * 16 + b / 16
      && CharSextet(s[2]) == b % 16 * 4 + c / 64 && CharSextet(s[3]) == c % 64
  {
    hide CharSextet, SextetChar, InTable;
    SextetRoundTrip(a / 4);
    SextetRoundTrip(a % 4 * 16 + b / 16);
    SextetRoundTrip(b % 16 * 4 + c / 64);
    SextetRoundTrip(c % 64);
  }

  lemma CleanConcat(s: string, t: string)
    requires Clean(s) && Clean(t)
    ensures Clean(s + t)
  {
    hide InTable;
  }

  lemma GroupOfThree(a: byte, b: byte, c: byte, rest: string)
    requires Clean(rest)
    ensures Clean(Three(a, b, c) + rest)
    ensures Groups(Three(a, b, c) + rest) == [a, b, c] + Groups(rest)
  {
    hide Three, CharSextet, InTable;
    var s := Three(a, b, c) + rest;
    CleanConcat(Three(a, b, c), rest);
    assert s[4..] == rest;
    SextetsOfThree(a, b, c);
    Recombine(a, b, c);
  }

  lemma LastGroup(a: byte, b: byte)
    ensures Groups(One(a)) == [a] && Groups(Two(a, b)) == [a, b]
  {
    SextetRoundTrip(a / 4);
    SextetRoundTrip(a % 4 * 16);
    SextetRoundTrip(a % 4 * 16 + b / 16);
    SextetRoundTrip(b % 16 * 4);
  }

  lemma {:induction false} GroupsOfRaw(data: seq<byte>)
    ensures Clean(Raw(data)) && Groups(Raw(data)) == data
  {
    hide Groups, One, Two, Three, Clean;
    if |data| >= 3 {
      GroupsOfRaw(data[3..]);
      GroupOfThree(data[0], data[1], data[2], Raw(data[3..]));
      assert data == [data[0], data[1], data[2]] + data[3..];
    } else if data == [] {
      NoGroups();
    } else {
      LastGroup(data[0], data[|data| - 1]);
    }
  }

  lemma NoGroups()
    ensures Clean("") && Groups("") == []
  {
  }

  ghost function Padding(n: nat): string
  {
    if n % 3 == 0 then "" else if n % 3 == 1 then "==" else "="
  }

  lemma {:induction false} EncodeIsPadded(data: seq<byte>)
    ensures Encode(data) == Raw(data) + Padding(|data|)
    ensures |Encode(data)| % 4 == 0
  {
    hide One, Two, Three;
    if |data| >= 3 {
      var three, rest := Three(data[0], data[1], data[2]), data[3..];
      EncodeIsPadded(rest);
      assert three + (Raw(rest) + Padding(|rest|)) == three + Raw(rest) + Padding(|rest|);
    }
  }

  lemma EncodeHasNoSpace(data: seq<byte>)
    ensures forall i :: 0 <= i < |Encode(data)| ==> !IsAsciiSpace(Encode(data)[i])
  {
    hide Encode, Raw, Groups;
    EncodeIsPadded(data);
    GroupsOfRaw(data);
    forall c: char | InTable(c) || c == '=' ensures !IsAsciiSpace(c) {
    }
  }

  lemma {:induction false} NoSpaceToRemove(s: string)
    requires forall i :: 0 <= i < |s| ==> !IsAsciiSpace(s[i])
    ensures WithoutSpace(s) == s
  {
    if s != "" {
      NoSpaceToRemove(s[1..]);
    }
  }

  /** Decoding undoes encoding on every byte array. */
  lemma AtobOfEncode(data: seq<byte>)
    ensures Atob(Encode(data)) == Ok(data)
  {
    hide Encode, Raw, Groups, WithoutSpace;
    EncodeIsPadded(data);
    EncodeHasNoSpace(data);
    NoSpaceToRemove(Encode(data));
    GroupsOfRaw(data);
    var s := Encode(data);
    if Raw(data) != "" {
      assert InTable(Raw(data)[|Raw(data)| - 1]);
    }
    assert WithoutPadding(s) == Raw(data);
  }

  // ----------------------------------------------------- what else decodes --

  /** Characters of the table in section 4 of RFC 4648. */
  ghost predicate TableText(s: string)
  {
    forall i :: 0 <= i < |s| ==>
      'A' <= s[i] <= 'Z' || 'a' <= s[i] <= 'z' || '0' <= s[i] <= '9' || s[i] == '+' || s[i] == '/'
  }

  /** But for white space, b64 is a body in the table, of a length that bytes can have, and the padding it calls for or
      none. */
  ghost predicate Spells(b64: string, body: string, pad: string)
  {
    && WithoutSpace(b64) == body + pad && TableText(body) && |body| % 4 != 1
    && (pad == "" || ((pad == "=" || pad == "==") && |body + pad| % 4 == 0))
  }

  lemma TableIsClean(s: string)
    ensures TableText(s) <==> Clean(s)
  {
  }

  lemma CleanEnd(s: string)
    requires Clean(s) && s != ""
    ensures s[|s| - 1] != '='
  {
    assert InTable(s[|s| - 1]);
  }

  lemma BodyIsKept(b64: string, body: string, pad: string)
    requires Spells(b64, body, pad)
    ensures WithoutPadding(WithoutSpace(b64)) == body && Clean(body)
  {
    hide WithoutSpace, TableText, Clean, InTable;
    TableIsClean(body);
    if body != "" {
      CleanEnd(body);
    }
    assert (body + pad)[..|body|] == body;
    assert pad == "" ==> body + pad == body;
  }

  /** Exactly the texts of that form decode. */
  lemma AtobAccepts(b64: string)
    ensures Atob(b64).Ok? <==> exists body, pad :: Spells(b64, body, pad)
  {
    hide WithoutSpace, Groups;
    if Atob(b64).Ok? {
      TextIsSpelled(b64);
    }
    forall body, pad | Spells(b64, body, pad) ensures Atob(b64).Ok? {
      BodyIsKept(b64, body, pad);
    }
  }

  lemma TextIsSpelled(b64: string)
    requires Atob(b64).Ok?
    ensures exists body, pad :: Spells(b64, body, pad)
  {
    hide WithoutSpace, Groups, TableText, InTable;
    var t := WithoutSpace(b64);
    var body := WithoutPadding(t);
    var pad := t[|body|..];
    assert t == body + pad;
    TableIsClean(body);
    assert pad == "" || pad == "=" || pad == "==";
    assert Spells(b64, body, pad);
  }

  /** The decoded bytes are those whose text is the body, except that bits of its last character beyond the last whole byte
      do not count. */
  lemma AtobMeans(b64: string, body: string, pad: string)
    requires Spells(b64, body, pad)
    ensures Atob(b64).Ok? && SameBytes(Raw(Atob(b64).value), body)
    ensures |Atob(b64).value| == |body| * 3 / 4
  {
    hide WithoutSpace, WithoutPadding, Groups, Raw, InTable, SameBytes;
    BodyIsKept(b64, body, pad);
    RawOfGroups(body);
    RawLength(Groups(body));
    assert |Raw(Groups(body))| == |body| by {
      SameLength(Raw(Groups(body)), body);
    }
  }

  /** Tab, line feed, form feed, carriage return and space are skipped, and nothing else. */
  lemma AsciiSpaces(c: char)
    ensures IsAsciiSpace(c) <==> c as int in {9, 10, 12, 13, 32}
  {
    var spaces := "\t\n\U{C}\r ";
    assert spaces[0] as int == 9 && spaces[1] as int == 10 && spaces[2] as int == 12;
    assert spaces[3] as int == 13 && spaces[4] as int == 32;
  }

  lemma {:induction false} SpaceIsSkipped(s: string, c: char, t: string)
    requires IsAsciiSpace(c)
    ensures WithoutSpace(s + [c] + t) == WithoutSpace(s + t)
  {
    hide IsAsciiSpace;
    if s == "" {
      assert "" + t == t && ("" + [c] + t)[1..] == t;
    } else {
      SpaceIsSkipped(s[1..], c, t);
      assert (s + [c] + t)[1..] == s[1..] + [c] + t && (s + t)[1..] == s[1..] + t;
    }
  }

  /** White space makes no difference anywhere. */
  lemma AtobSpace(s: string, c: char, t: string)
    requires IsAsciiSpace(c)
    ensures Atob(s + [c] + t) == Atob(s + t)
  {
    hide WithoutSpace, WithoutPadding, Groups, IsAsciiSpace;
    SpaceIsSkipped(s, c, t);
  }

  ghost predicate SameBytes(raw: string, body: string)
  {
    var last := |body| - 1;
    && |raw| == |body| && Clean(raw) && Clean(body)
    && (|body| % 4 == 0 ==> raw == body)
    && (|body| % 4 == 2 ==> raw[..last] == body[..last] && CharSextet(raw[last]) == CharSextet(body[last]) / 16 * 16)
    && (|body| % 4 == 3 ==> raw[..last] == body[..last] && CharSextet(raw[last]) == CharSextet(body[last]) / 4 * 4)
  }

  lemma SameLength(raw: string, body: string)
    requires SameBytes(raw, body)
    ensures |raw| == |body|
  {
  }

  lemma CharRoundTrip(c: char)
    requires InTable(c)
    ensures SextetChar(CharSextet(c)) == c
  {
  }

  /** Four sextets make three bytes, which are cut into the same sextets. */
  lemma Regroup(p: nat, q: nat, r: nat, t: nat)
    requires p < 64 && q < 64 && r < 64 && t < 64
    ensures var a, b, c := p * 4 + q / 16, q % 16 * 16 + r / 4, r % 4 * 64 + t;
      && a < 256 && b < 256 && c < 256
      && a / 4 == p && a % 4 * 16 + b / 16 == q && b % 16 * 4 + c / 64 == r && c % 64 == t
      && a % 4 * 16 == q / 16 * 16 && b % 16 * 4 == r / 4 * 4
  {
  }

  lemma CharsOfBytes(x: char, y: char, z: char, w: char)
    requires InTable(x) && InTable(y) && InTable(z) && InTable(w)
    ensures One(FirstByte(x, y)) == [x, SextetChar(CharSextet(y) / 16 * 16)]
    ensures Two(FirstByte(x, y), SecondByte(y, z)) == [x, y, SextetChar(CharSextet(z) / 4 * 4)]
    ensures Three(FirstByte(x, y), SecondByte(y, z), ThirdByte(z, w)) == [x, y, z, w]
  {
    hide CharSextet, SextetChar, InTable;
    Regroup(CharSextet(x), CharSextet(y), CharSextet(z), CharSextet(w));
    CharRoundTrip(x);
    CharRoundTrip(y);
    CharRoundTrip(z);
    CharRoundTrip(w);
  }

  lemma RawUnfold(a: byte, b: byte, c: byte, rest: seq<byte>)
    ensures Raw([a]) == One(a) && Raw([a, b]) == Two(a, b)
    ensures Raw([a, b, c] + rest) == Three(a, b, c) + Raw(rest)
  {
    hide One, Two, Three;
    assert ([a, b, c] + rest)[3..] == rest;
  }

  lemma GroupsUnfold(x: char, y: char, z: char, w: char, rest: string)
    requires InTable(x) && InTable(y) && InTable(z) && InTable(w) && Clean(rest)
    ensures Clean([x, y]) && Groups([x, y]) == [FirstByte(x, y)]
    ensures Clean([x, y, z]) && Groups([x, y, z]) == [FirstByte(x, y), SecondByte(y, z)]
    ensures Clean([x, y, z, w] + rest)
    ensures Groups([x, y, z, w] + rest) == [FirstByte(x, y), SecondByte(y, z), ThirdByte(z, w)] + Groups(rest)
  {
    hide InTable, FirstByte, SecondByte, ThirdByte;
    assert ([x, y, z, w] + rest)[4..] == rest;
  }

  lemma WholeGroup(x: char, y: char, z: char, w: char, rest: string)
    requires InTable(x) && InTable(y) && InTable(z) && InTable(w) && Clean(rest)
    ensures Clean([x, y, z, w] + rest) && Raw(Groups([x, y, z, w] + rest)) == [x, y, z, w] + Raw(Groups(rest))
  {
    hide *;
    GroupsUnfold(x, y, z, w, rest);
    CharsOfBytes(x, y, z, w);
    RawUnfold(FirstByte(x, y), SecondByte(y, z), ThirdByte(z, w), Groups(rest));
  }

  lemma PartGroup(x: char, y: char, z: char)
    requires InTable(x) && InTable(y) && InTable(z)
    ensures Clean([x, y]) && SameBytes(Raw(Groups([x, y])), [x, y])
    ensures Clean([x, y, z]) && SameBytes(Raw(Groups([x, y, z])), [x, y, z])
  {
    hide *;
    NothingDecoded();
    GroupsUnfold(x, y, z, z, "");
    CharsOfBytes(x, y, z, z);
    RawUnfold(FirstByte(x, y), SecondByte(y, z), 0, []);
    var v, u := CharSextet(y) / 16 * 16, CharSextet(z) / 4 * 4;
    SextetRoundTrip(v);
    SextetRoundTrip(u);
    SameTwo(x, y, SextetChar(v));
    SameThree(x, y, z, SextetChar(u));
  }

  lemma SameTwo(x: char, y: char, v: char)
    requires InTable(x) && InTable(y) && InTable(v) && CharSextet(v) == CharSextet(y) / 16 * 16
    ensures SameBytes([x, v], [x, y])
  {
    hide InTable, CharSextet;
  }

  lemma SameThree(x: char, y: char, z: char, v: char)
    requires InTable(x) && InTable(y) && InTable(z) && InTable(v) && CharSextet(v) == CharSextet(z) / 4 * 4
    ensures SameBytes([x, y, v], [x, y, z])
  {
    hide InTable, CharSextet;
  }

  lemma SameBehind(front: string, raw: string, body: string)
    requires |front| == 4 && Clean(front) && SameBytes(raw, body)
    ensures SameBytes(front + raw, front + body)
  {
    hide InTable, CharSextet;
    var last := |body| - 1;
    if |body| % 4 >= 2 {
      assert (front + raw)[..4 + last] == front + raw[..last] && (front + body)[..4 + last] == front + body[..last];
    }
  }

  lemma {:induction false} RawOfGroups(s: string)
    requires Clean(s) && |s| % 4 != 1
    ensures SameBytes(Raw(Groups(s)), s)
  {
    hide Groups, Raw, SameBytes, InTable;
    if s == "" {
      NothingDecoded();
    } else if |s| < 4 {
      PartGroup(s[0], s[1], s[|s| - 1]);
      assert s == if |s| == 2 then [s[0], s[1]] else [s[0], s[1], s[2]];
    } else {
      var front, rest := [s[0], s[1], s[2], s[3]], s[4..];
      WholeGroup(s[0], s[1], s[2], s[3], rest);
      RawOfGroups(rest);
      SameBehind(front, Raw(Groups(rest)), rest);
      assert front + rest == s;
    }
  }

  lemma NothingDecoded()
    ensures Clean("") && SameBytes(Raw(Groups("")), "")
  {
  }

  lemma {:induction false} RawLength(data: seq<byte>)
    ensures |Raw(data)| == (|data| * 4 + 2) / 3
  {
    hide One, Two, Three;
    if |data| >= 3 {
      RawLength(data[3..]);
    }
  }

  /** `base64ToUint8Array`: copies the decoded binary string into a fresh buffer. */
  method Base64ToUint8Array(b64: string) returns (r: Result<seq<byte>, string>)
    ensures r == Atob(b64)
    ensures forall data :: b64 == Encode(data) ==> r == Ok(data)
  {
    hide Atob, Encode;
    forall data | b64 == Encode(data) ensures Atob(b64) == Ok(data) {
      AtobOfEncode(data);
    }
    var bin := Atob(b64);
    if bin.Err? {
      return bin;
    }
    var out := new byte[|bin.value|];
    for i := 0 to |bin.value|
      invariant out[..i] == bin.value[..i]
    {
      out[i] := bin.value[i];
    }
    assert out[..] == bin.value;
    r := Ok(out[..]);
  }
}
