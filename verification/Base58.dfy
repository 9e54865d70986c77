/** Base58 text and SS58 account addresses. */
module Base58 {
  import opened Common
  import opened Digits
  import opened JsText

  /** SS58_ALPHABET: no 0, O, I, l. */
  const ALPHABET: string := NUMERALS + UPPERCASE + LOWERCASE
  const NUMERALS: string := "123456789"
  const UPPERCASE: string := "ABCDEFGHJKLMNPQRSTUVWXYZ"
  const LOWERCASE: string := "abcdefghijkmnopqrstuvwxyz"

  /** `indexOf` on a string; -1 when the character is absent. */
  function IndexOf(s: string, c: char): (k: int)
    ensures -1 <= k < |s|
    ensures k >= 0 ==> s[k] == c
    ensures k == -1 <==> c !in s
  {
    if s == [] then -1
    else if s[0] == c then 0
    else
      var k := IndexOf(s[1..], c);
      if k == -1 then -1 else k + 1
  }

  predicate Known(c: char)
  {
    c in ALPHABET
  }

  /** ASCII letters and digits other than 0, O, I and l. */
  predicate IsBase58(c: char)
  {
    ('1' <= c <= '9' || 'A' <= c <= 'Z' || 'a' <= c <= 'z') && c != 'I' && c != 'O' && c != 'l'
  }

  /** Place of such a character among them. */
  function Place(c: char): (k: nat)
    requires IsBase58(c)
    ensures k < 58
  {
    if c <= '9' then (c - '1') as nat
    else if c <= 'H' then (c - 'A') as nat + 9
    else if c <= 'N' then (c - 'J') as nat + 17
    else if c <= 'Z' then (c - 'P') as nat + 22
    else if c <= 'k' then (c - 'a') as nat + 33
    else (c - 'm') as nat + 44
  }

  function CharAt(k: nat): (c: char)
    requires k < 58
    ensures IsBase58(c) && Place(c) == k
  {
    if k < 9 then '1' + k as char
    else if k < 17 then 'A' + (k - 9) as char
    else if k < 22 then 'J' + (k - 17) as char
    else if k < 33 then 'P' + (k - 22) as char
    else if k < 44 then 'a' + (k - 33) as char
    else 'm' + (k - 44) as char
  }

  lemma CharAtPlace(c: char)
    requires IsBase58(c)
    ensures CharAt(Place(c)) == c
  {
  }

  lemma PlaceOrders(c: char, d: char)
    requires IsBase58(c) && IsBase58(d)
    ensures c < d <==> Place(c) < Place(d)
  {
  }

  lemma NumeralAt(k: nat)
    requires k < 9
    ensures NUMERALS[k] == '1' + k as char
  {
  }

  lemma UppercaseAt(k: nat)
    requires k < 24
    ensures UPPERCASE[k] == if k < 8 then 'A' + k as char else if k < 13 then 'J' + (k - 8) as char else 'P' + (k - 13) as char
  {
  }

  lemma LowercaseAt(k: nat)
    requires k < 25
    ensures LOWERCASE[k] == if k < 11 then 'a' + k as char else 'm' + (k - 11) as char
  {
  }

  lemma AlphabetAt(k: nat)
    requires k < 58
    ensures ALPHABET[k] == CharAt(k)
  {
    if k < 9 {
      NumeralAt(k);
    } else if k < 33 {
      UppercaseAt(k - 9);
    } else {
      LowercaseAt(k - 33);
    }
  }

  /** The smaller Base58 characters. */
  ghost function Smaller(c: char): set<char>
  {
    set d: char | IsBase58(d) && d < c
  }

  lemma {:induction false} SmallerCount(k: nat)
    requires k < 58
    ensures |Smaller(CharAt(k))| == k
  {
    hide CharAt, Place;
    var c := CharAt(k);
    if k == 0 {
      forall d | IsBase58(d) ensures !(d < c) {
        PlaceOrders(d, c);
      }
      assert Smaller(c) == {};
    } else {
      var last := CharAt(k - 1);
      SmallerCount(k - 1);
      forall d | IsBase58(d) ensures d < c <==> d < last || d == last {
        PlaceOrders(d, c);
        PlaceOrders(d, last);
        CharAtPlace(d);
      }
      hide IsBase58;
      assert Smaller(c) == Smaller(last) + {last};
    }
  }

  /** The alphabet holds the ASCII letters and digits other than 0, O, I and l, and the digit a character stands for is
      the number of smaller ones. */
  lemma AlphabetExactly(c: char)
    ensures Known(c) <==>
            ('0' <= c <= '9' || 'A' <= c <= 'Z' || 'a' <= c <= 'z') && c != '0' && c != 'O' && c != 'I' && c != 'l'
    ensures Known(c) ==> CharDigit(c) == |Smaller(c)|
  {
    hide CharAt, Place, Smaller;
    if Known(c) {
      KnownIndex(c);
      AlphabetAt(CharDigit(c));
      SmallerCount(CharDigit(c));
    }
    if IsBase58(c) {
      AlphabetAt(Place(c));
      CharAtPlace(c);
      KnownAt(Place(c));
    }
  }

  lemma KnownIndex(c: char)
    requires Known(c)
    ensures CharDigit(c) < 58 && ALPHABET[CharDigit(c)] == c
  {
    hide IndexOf;
  }

  lemma KnownAt(k: nat)
    requires k < 58
    ensures Known(ALPHABET[k])
  {
    hide IndexOf;
  }

  ghost predicate InAlphabet(s: string)
  {
    forall i :: 0 <= i < |s| ==> Known(s[i])
  }

  function CharDigit(c: char): (d: nat)
    requires Known(c)
    ensures d < 58 && ALPHABET[d] == c
  {
    IndexOf(ALPHABET, c)
  }

  ghost function CharDigits(s: string): (ds: seq<int>)
    requires InAlphabet(s)
    ensures |ds| == |s| && AreDigits(ds, 58)
  {
    seq(|s|, i requires 0 <= i < |s| => CharDigit(s[i]))
  }

  function DigitChars(ds: seq<int>): (s: string)
    requires AreDigits(ds, 58)
    ensures |s| == |ds| && InAlphabet(s)
  {
    seq(|ds|, i requires 0 <= i < |ds| => ALPHABET[ds[i]])
  }

  lemma AlphabetIncreases(i: nat, j: nat)
    requires i < j < 58
    ensures ALPHABET[i] < ALPHABET[j]
  {
    hide CharAt, Place;
    AlphabetAt(i);
    AlphabetAt(j);
    PlaceOrders(CharAt(i), CharAt(j));
  }

  lemma AlphabetIndex(d: nat)
    requires d < 58
    ensures IndexOf(ALPHABET, ALPHABET[d]) == d
  {
    var k := IndexOf(ALPHABET, ALPHABET[d]);
    if k < d {
      AlphabetIncreases(k, d);
    } else if d < k {
      AlphabetIncreases(d, k);
    }
  }

  /** Number of leading zero digits. */
  function LeadingZeros(ds: seq<int>): (k: nat)
    ensures k <= |ds|
    ensures forall i :: 0 <= i < k ==> ds[i] == 0
    ensures k < |ds| ==> ds[k] != 0
  {
    if ds == [] || ds[0] != 0 then 0 else 1 + LeadingZeros(ds[1..])
  }

  /** Change of base that keeps each leading zero digit: both directions of Base58. */
  function Convert(ds: seq<int>, b: nat, c: nat): (r: seq<int>)
    requires 2 <= b && 2 <= c && AreDigits(ds, b)
    ensures AreDigits(r, c)
  {
    ValueBounds(ds, b);
    NumeralShape(Value(ds, b), c);
    Zeros(LeadingZeros(ds)) + Numeral(Value(ds, b), c)
  }

  lemma LeadingZerosUnique(ds: seq<int>, k: nat)
    requires k <= |ds| && (forall i :: 0 <= i < k ==> ds[i] == 0) && (k < |ds| ==> ds[k] != 0)
    ensures LeadingZeros(ds) == k
  {
  }

  lemma ValueAfterZeros(ds: seq<int>, b: nat)
    requires 2 <= b
    ensures Value(ds, b) == Value(ds[LeadingZeros(ds)..], b)
  {
    var k := LeadingZeros(ds);
    assert ds == ds[..k] + ds[k..];
    ValueConcat(ds[..k], ds[k..], b);
    ValueOfZeros(ds[..k], b);
  }

  /** Converting to another base and back is the identity on every digit sequence. */
  lemma ConvertInverse(ds: seq<int>, b: nat, c: nat)
    requires 2 <= b && 2 <= c && AreDigits(ds, b)
    ensures Convert(Convert(ds, b, c), c, b) == ds
  {
    hide Value, Numeral, LeadingZeros;
    var k, v := LeadingZeros(ds), Value(ds, b);
    ValueBounds(ds, b);
    NumeralShape(v, c);
    var r := Convert(ds, b, c);
    LeadingZerosUnique(r, k);
    ValueAfterZeros(r, c);
    assert r[k..] == Numeral(v, c);
    ValueOfNumeral(v, c);
    ValueAfterZeros(ds, b);
    NumeralOfValue(ds[k..], b);
    assert ds == Zeros(k) + ds[k..];
  }

  /** Base58 text of a byte string, as the `bs58` crate prints it. */
  function Encode(data: seq<byte>): (s: string)
    ensures InAlphabet(s)
  {
    DigitChars(Convert(data, 256, 58))
  }

  /** What `base58Decode` returns, or the exception it throws. */
  ghost function Decode(s: string): Result<seq<byte>, string>
  {
    if InAlphabet(s) then
      var data: seq<byte> := Convert(CharDigits(s), 58, 256);
      Ok(data)
    else
      Err("Invalid base58 character")
  }

  /** Decoding undoes encoding on every byte string. */
  lemma DecodeEncode(data: seq<byte>)
    ensures Decode(Encode(data)) == Ok(data)
  {
    var ds := Convert(data, 256, 58);
    forall i | 0 <= i < |ds| ensures CharDigits(DigitChars(ds))[i] == ds[i] {
      AlphabetIndex(ds[i]);
    }
    assert CharDigits(DigitChars(ds)) == ds;
    ConvertInverse(data, 256, 58);
  }

  /** Encoding undoes decoding on every alphabet string. */
  lemma EncodeDecode(s: string)
    requires InAlphabet(s)
    ensures Decode(s).Ok? && Encode(Decode(s).value) == s
  {
    ConvertInverse(CharDigits(s), 58, 256);
    assert DigitChars(CharDigits(s)) == s;
  }

  /** No two alphabet strings decode to the same bytes. */
  lemma DecodeInjective(s: string, t: string)
    requires InAlphabet(s) && InAlphabet(t) && Decode(s) == Decode(t)
    ensures s == t
  {
    EncodeDecode(s);
    EncodeDecode(t);
  }

  lemma PrefixStep(s: string, i: nat)
    requires i < |s| && InAlphabet(s[..i]) && Known(s[i])
    ensures InAlphabet(s[..i + 1])
    ensures Value(CharDigits(s[..i + 1]), 58) == Value(CharDigits(s[..i]), 58) * 58 + CharDigit(s[i])
  {
    hide Value, Known, CharDigit;
    assert InAlphabet(s[..i + 1]);
    assert CharDigits(s[..i + 1]) == CharDigits(s[..i]) + [CharDigit(s[i])];
    ValueSnoc(CharDigits(s[..i]), CharDigit(s[i]), 58);
  }

  ghost predicate StartsWithOnes(s: string, k: nat)
  {
    k <= |s| && forall i :: 0 <= i < k ==> s[i] == '1'
  }

  /** Leading '1' characters are exactly the leading zero digits. */
  lemma DecodeParts(s: string, k: nat, value: nat, bytes: seq<byte>)
    requires InAlphabet(s) && StartsWithOnes(s, k) && (k < |s| ==> s[k] != '1')
    requires value == Value(CharDigits(s), 58) && bytes == Numeral(value, 256)
    ensures Decode(s) == Ok(Zeros(k) + bytes)
  {
    assert ALPHABET[0] == '1';
    AlphabetIndex(0);
    LeadingZerosUnique(CharDigits(s), k);
  }

  /** `base58Decode`, loop one; loops two and three are `BigEndianBytes` and `CountOnes`. */
  method Base58Decode(encoded: string) returns (r: Result<seq<byte>, string>)
    ensures r == Decode(encoded)
  {
    var value := 0;
    for i := 0 to |encoded|
      invariant InAlphabet(encoded[..i])
      invariant value >= 0 && value == Value(CharDigits(encoded[..i]), 58)
    {
      var index := IndexOf(ALPHABET, encoded[i]);
      if index == -1 {
        return Err("Invalid base58 character");
      }
      PrefixStep(encoded, i);
      value := value * 58 + index;
    }
    assert encoded[..|encoded|] == encoded;
    var bytes := BigEndianBytes(value);
    var leadingOnes := CountOnes(encoded);
    DecodeParts(encoded, leadingOnes, value, bytes);
    var zeros: seq<byte> := Zeros(leadingOnes);
    r := Ok(zeros + bytes);
  }

  method BigEndianBytes(n: nat) returns (bytes: seq<byte>)
    ensures bytes == Numeral(n, 256)
  {
    bytes := [];
    var value := n;
    while value > 0
      invariant Numeral(n, 256) == Numeral(value, 256) + bytes
    {
      bytes := [value % 256] + bytes;
      value := value / 256;
    }
  }

  method CountOnes(encoded: string) returns (k: nat)
    ensures StartsWithOnes(encoded, k) && (k < |encoded| ==> encoded[k] != '1')
  {
    k := 0;
    while k < |encoded| && encoded[k] == '1'
      invariant StartsWithOnes(encoded, k)
    {
      k := k + 1;
    }
  }

  // ---------------------------------------------------------------- SS58 --

  const SS58_PREFIX: byte := 42

  type AccountId = a: seq<byte> | |a| == 32 witness seq(32, _ => 0)

  /** Output of Blake2b-512. */
  type Hash64 = h: seq<byte> | |h| == 64 witness seq(64, _ => 0)

  datatype ValidationResult = ValidationResult(valid: bool, error: Option<string>)

  /** The address, without surrounding white space, is the Base58 text of prefix, 32-byte key and 2-byte checksum. */
  ghost predicate CarriesKey(address: string, key: AccountId)
  {
    exists prefix: seq<byte>, checksum: seq<byte> ::
      1 <= |prefix| <= 2 && |checksum| == 2 && Trim(address) == Encode(prefix + key + checksum)
  }

  predicate IsLead(c: char) { c in "123456789" }

  lemma LeadIsDigit(c: char)
    ensures IsLead(c) <==> '1' <= c <= '9'
  {
    if '1' <= c <= '9' {
      var k := (c - '1') as nat;
      assert "123456789"[k] == c;
    }
  }

  /** What validation accepts: such a text of 47 or 48 characters that starts with a digit from 1 to 9. */
  ghost predicate Accepted(address: string)
  {
    && |Trim(address)| in {47, 48}
    && '1' <= Trim(address)[0] <= '9'
    && exists key: AccountId :: CarriesKey(address, key)
  }

  lemma SplitData(data: seq<byte>, p: nat)
    requires p + 32 <= |data|
    ensures data == data[..p] + data[p..p + 32] + data[p + 32..]
  {
  }

  lemma KeyInDecoded(address: string, data: seq<byte>)
    requires Decode(Trim(address)) == Ok(data)
    ensures |data| == 35 ==> CarriesKey(address, data[1..33])
    ensures |data| == 36 ==> CarriesKey(address, data[2..34])
  {
    hide Trim, Encode, InAlphabet;
    DecodeOk(Trim(address));
    EncodeDecode(Trim(address));
    hide Decode;
    if |data| == 35 {
      SplitData(data, 1);
    } else if |data| == 36 {
      SplitData(data, 2);
    }
  }

  lemma DecodeOk(s: string)
    ensures Decode(s).Ok? <==> InAlphabet(s)
  {
    hide Convert, InAlphabet;
  }

  lemma DecodedFromKey(address: string, key: AccountId)
    requires CarriesKey(address, key)
    ensures var d := Decode(Trim(address));
      d.Ok? && ((|d.value| == 35 && key == d.value[1..33]) || (|d.value| == 36 && key == d.value[2..34]))
  {
    var prefix: seq<byte>, checksum: seq<byte> :|
      1 <= |prefix| <= 2 && |checksum| == 2 && Trim(address) == Encode(prefix + key + checksum);
    hide Trim, Encode, Decode;
    DecodeEncode(prefix + key + checksum);
  }

  lemma AcceptedDecodes(address: string)
    requires Trim(address) != ""
    ensures Accepted(address) <==>
      var t, d := Trim(address), Decode(Trim(address));
      |t| in {47, 48} && '1' <= t[0] <= '9' && d.Ok? && 35 <= |d.value| <= 36
  {
    hide Trim, Decode, IsLead, CarriesKey;
    if Accepted(address) {
      var key: AccountId :| CarriesKey(address, key);
      DecodedFromKey(address, key);
    } else if Decode(Trim(address)).Ok? {
      KeyInDecoded(address, Decode(Trim(address)).value);
    }
  }

  method AllInAlphabet(s: string) returns (r: bool)
    ensures r <==> InAlphabet(s)
  {
    hide Known;
    for i := 0 to |s|
      invariant InAlphabet(s[..i])
    {
      if !Known(s[i]) {
        return false;
      }
    }
    assert s[..|s|] == s;
    return true;
  }

  lemma NothingAccepted(address: string)
    requires Trim(address) == ""
    ensures !Accepted(address)
  {
  }

  method ValidateSS58Address(address: string) returns (r: ValidationResult)
    ensures r.valid <==> Accepted(address)
    ensures r.valid <==> r.error == None
    ensures r.error == Some("error.emptyRecipient") <==> Trim(address) == ""
    ensures r.error == Some("error.invalidAddressLength") <==> Trim(address) != "" && |Trim(address)| !in {47, 48}
    ensures r.error == Some("error.invalidAddressCharacter") <==>
              |Trim(address)| in {47, 48} && !InAlphabet(Trim(address))
    ensures r.error == Some("error.invalidAddressPrefix") <==>
              |Trim(address)| in {47, 48} && InAlphabet(Trim(address)) && !('1' <= Trim(address)[0] <= '9')
    ensures r.error == Some("error.invalidRecipient") <==>
              |Trim(address)| in {47, 48} && InAlphabet(Trim(address)) && '1' <= Trim(address)[0] <= '9' && !Accepted(address)
  {
    hide Trim, Decode, IsLead, InAlphabet, Accepted;
    var trimmed := Trim(address);
    if trimmed == "" {
      NothingAccepted(address);
      return ValidationResult(false, Some("error.emptyRecipient"));
    }
    AcceptedDecodes(address);
    if |trimmed| !in {47, 48} {
      return ValidationResult(false, Some("error.invalidAddressLength"));
    }
    DecodeOk(trimmed);
    var allKnown := AllInAlphabet(trimmed);
    if !allKnown {
      return ValidationResult(false, Some("error.invalidAddressCharacter"));
    }
    LeadIsDigit(trimmed[0]);
    if !IsLead(trimmed[0]) {
      return ValidationResult(false, Some("error.invalidAddressPrefix"));
    }
    var decoded := Base58Decode(trimmed);
    if decoded.Err? || |decoded.value| < 35 || |decoded.value| > 36 {
      return ValidationResult(false, Some("error.invalidRecipient"));
    }
    return ValidationResult(true, None);
  }

  method ExtractPublicKey(address: string) returns (r: Option<seq<byte>>)
    ensures r.Some? ==> |r.value| == 32 && CarriesKey(address, r.value)
    ensures forall key: AccountId :: CarriesKey(address, key) ==> r == Some(key)
  {
    forall key: AccountId | CarriesKey(address, key)
      ensures var d := Decode(Trim(address));
        d.Ok? && ((|d.value| == 35 && key == d.value[1..33]) || (|d.value| == 36 && key == d.value[2..34]))
    {
      DecodedFromKey(address, key);
    }
    var decoded := Base58Decode(Trim(address));
    match decoded
    case Err(_) => r := None;
    case Ok(data) =>
      KeyInDecoded(address, data);
      r := if |data| == 35 then Some(data[1..33])
           else if |data| == 36 then Some(data[2..34])
           else None;
  }

  /** "SS58PRE". */
  const SS58PRE: seq<byte> := [0x53, 0x53, 0x35, 0x38, 0x50, 0x52, 0x45]

  /** The checksum's domain separator is this text. */
  lemma Ss58PreIsText(i: nat)
    requires i < 7
    ensures |SS58PRE| == 7 && SS58PRE[i] as char == "SS58PRE"[i]
  {
  }

  /** `ss58_address`: prefix 42, account, the first two bytes of the checksum hash. */
  method Ss58Address(account: AccountId, blake2b512: seq<byte> -> Hash64) returns (s: string)
    ensures |s| == 48 && s[0] == '5' && Trim(s) == s
    ensures Accepted(s) && CarriesKey(s, account)
    ensures Decode(s) == Ok([42] + account + blake2b512(SS58PRE + ([42] + account))[..2])
  {
    hide Encode, Decode, Trim, Accepted, CarriesKey;
    var data: seq<byte> := [SS58_PREFIX];
    data := data + account;
    var checksum := blake2b512(SS58PRE + data);
    data := data + checksum[..2];
    s := Encode(data);
    SignerAddress(account, checksum[..2]);
    DecodeEncode(data);
  }

  /** Numbers d * b^e and above, below (d + 1) * b^e, lie between b^e and b^(e + 1). */
  lemma IntervalBounds(n: nat, b: nat, d: nat, e: nat)
    requires 2 <= b && 0 < d < b
    requires d * Pow(b, e) <= n < (d + 1) * Pow(b, e)
    ensures Pow(b, e) <= n < Pow(b, e + 1)
  {
    PowPositive(b, e);
    MulMonotone(1, d, Pow(b, e));
    MulMonotone(d + 1, b, Pow(b, e));
  }

  /** Length and leading digit of a numeral, read off the power interval that holds the number. */
  lemma NumeralLead(n: nat, b: nat, d: nat, e: nat)
    requires 2 <= b && 0 < d < b
    requires d * Pow(b, e) <= n < (d + 1) * Pow(b, e)
    ensures |Numeral(n, b)| == e + 1 && Numeral(n, b)[0] == d
  {
    var ds := Numeral(n, b);
    IntervalBounds(n, b, d, e);
    PowPositive(b, e);
    NumeralShape(n, b);
    ValueOfNumeral(n, b);
    LeadBounds(ds, b);
    var lead, t := ds[0], |ds| - 1;
    IntervalBounds(n, b, lead, t);
    if t < e {
      PowMonotone(b, t + 1, e);
    } else if e < t {
      PowMonotone(b, e + 1, t);
    } else {
      QuotientUnique(lead, n - lead * Pow(b, e), d, n - d * Pow(b, e), Pow(b, e)) by {
        MulSucc(lead, Pow(b, e));
        MulSucc(d, Pow(b, e));
      }
    }
  }

  lemma PowersOf256()
    ensures Pow(256, 34) == 7588550360256754183279148073529370729071901715047420004889892225542594864082845696
  {
    PowAdd(256, 8, 8);
    PowAdd(256, 16, 16);
    PowAdd(256, 32, 2);
  }

  lemma SmallPowersOf58()
    ensures Pow(58, 20) == 185592264682226060569122324245118976 && Pow(58, 7) == 2207984167552
  {
    PowAdd(58, 5, 5);
    PowAdd(58, 10, 10);
  }

  lemma PowersOf58()
    ensures Pow(58, 47) == 76052885730833034359667250152955132889730604836002176491835299687357552942175485952
  {
    hide Pow;
    SmallPowersOf58();
    PowAdd(58, 20, 20);
    PowAdd(58, 40, 7);
  }

  /** 42 * 256^34 and everything up to 43 * 256^34 has 48 base-58 digits, the first being 4. */
  lemma AddressRange(v: nat)
    requires 42 * Pow(256, 34) <= v < 43 * Pow(256, 34)
    ensures |Numeral(v, 58)| == 48 && Numeral(v, 58)[0] == 4
  {
    PowersOf256();
    PowersOf58();
    NumeralLead(v, 58, 4, 47);
  }

  lemma AddressValue(rest: seq<byte>)
    requires |rest| == 34
    ensures 42 * Pow(256, 34) <= Value([42] + rest, 256) < 43 * Pow(256, 34)
  {
    ValueConcat([42], rest, 256);
    ValueSnoc([], 42, 256);
    ValueBounds(rest, 256);
  }

  lemma AddressDigits(rest: seq<byte>)
    requires |rest| == 34
    ensures var digits := Convert([42] + rest, 256, 58);
      |digits| == 48 && digits[0] == 4
  {
    hide Value, Pow, Numeral;
    AddressValue(rest);
    AddressRange(Value([42] + rest, 256));
    LeadingZerosUnique([42] + rest, 0);
    hide LeadingZeros;
    assert Convert([42] + rest, 256, 58) == Numeral(Value([42] + rest, 256), 58);
  }

  lemma AddressText(rest: seq<byte>)
    requires |rest| == 34
    ensures var s := Encode([42] + rest); |s| == 48 && s[0] == '5' && Trim(s) == s
  {
    hide Convert, Trim;
    AddressDigits(rest);
    assert ALPHABET[4] == '5';
    AlphabetHasNoSpace(Encode([42] + rest));
  }

  /** Every address the signer prints has 48 characters, starts with '5', is accepted and gives the account back. */
  lemma SignerAddress(account: AccountId, checksum: seq<byte>)
    requires |checksum| == 2
    ensures var s := Encode([SS58_PREFIX] + account + checksum);
      |s| == 48 && s[0] == '5' && Trim(s) == s && Accepted(s) && CarriesKey(s, account)
  {
    hide Encode, Trim, IsLead;
    var rest: seq<byte> := account + checksum;
    var prefix: seq<byte> := [SS58_PREFIX];
    assert prefix + account + checksum == [42] + rest;
    AddressText(rest);
    assert CarriesKey(Encode(prefix + account + checksum), account);
  }

  lemma AlphabetHasNoSpace(s: string)
    requires InAlphabet(s)
    ensures Trim(s) == s
  {
    hide Known, Trim, IsSpace, Smaller, CharDigit;
    if s != "" {
      assert Known(s[0]) && Known(s[|s| - 1]);
      AlphabetExactly(s[0]);
      AlphabetExactly(s[|s| - 1]);
      GraphicIsNoSpace(s[0]);
      GraphicIsNoSpace(s[|s| - 1]);
    }
    TrimIdentity(s);
  }
}
