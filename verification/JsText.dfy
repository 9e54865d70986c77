/** The ECMAScript string operations the frontend relies on. */
module JsText {

  /** WhiteSpace and LineTerminator of ECMAScript, removed by `String.prototype.trim`. */
  predicate IsSpace(c: char)
  {
    c in "\t\n\U{B}\U{C}\r \U{A0}\U{1680}\U{2028}\U{2029}\U{202F}\U{205F}\U{3000}\U{FEFF}" || '\U{2000}' <= c <= '\U{200A}'
  }

  /** By code point: tab, line feed, vertical tab, form feed, carriage return, space, no-break space, byte-order mark, line
      and paragraph separator, and the other space separators of Unicode. */
  lemma SpacesExactly(c: char)
    ensures IsSpace(c) <==>
            var n := c as int;
            9 <= n <= 13 || n == 32 || n == 160 || n == 5760 || 8192 <= n <= 8202 || n == 8232 || n == 8233 || n == 8239 ||
            n == 8287 || n == 12288 || n == 65279
  {
    var spaces := "\t\n\U{B}\U{C}\r \U{A0}\U{1680}\U{2028}\U{2029}\U{202F}\U{205F}\U{3000}\U{FEFF}";
    assert |spaces| == 14;
    assert spaces[0] as int == 9 && spaces[1] as int == 10 && spaces[2] as int == 11 && spaces[3] as int == 12;
    assert spaces[4] as int == 13 && spaces[5] as int == 32 && spaces[6] as int == 160 && spaces[7] as int == 5760;
    assert spaces[8] as int == 8232 && spaces[9] as int == 8233 && spaces[10] as int == 8239 && spaces[11] as int == 8287;
    assert spaces[12] as int == 12288 && spaces[13] as int == 65279;
  }

  /** Printable ASCII characters are no white space. */
  lemma GraphicIsNoSpace(c: char)
    requires '!' <= c <= '~'
    ensures !IsSpace(c)
  {
  }

  function TrimStart(s: string): string
  {
    if s != [] && IsSpace(s[0]) then TrimStart(s[1..]) else s
  }

  function TrimEnd(s: string): string
  {
    if s != [] && IsSpace(s[|s| - 1]) then TrimEnd(s[..|s| - 1]) else s
  }

  function Trim(s: string): string
  {
    TrimEnd(TrimStart(s))
  }

  /** Trimming takes the white space off both ends, and all of it. */
  lemma TrimExactly(s: string) returns (before: string, after: string)
    ensures s == before + Trim(s) + after
    ensures forall i :: 0 <= i < |before| ==> IsSpace(before[i])
    ensures forall i :: 0 <= i < |after| ==> IsSpace(after[i])
    ensures Trim(s) != "" ==> !IsSpace(Trim(s)[0]) && !IsSpace(Trim(s)[|Trim(s)| - 1])
  {
    hide IsSpace;
    before := StartParts(s);
    after := EndParts(TrimStart(s));
  }

  lemma {:induction false} StartParts(s: string) returns (before: string)
    ensures s == before + TrimStart(s)
    ensures forall i :: 0 <= i < |before| ==> IsSpace(before[i])
    ensures TrimStart(s) != "" ==> !IsSpace(TrimStart(s)[0])
  {
    hide IsSpace;
    if s != "" && IsSpace(s[0]) {
      before := StartParts(s[1..]);
      before := [s[0]] + before;
    } else {
      before := "";
    }
  }

  lemma {:induction false} EndParts(s: string) returns (after: string)
    ensures s == TrimEnd(s) + after
    ensures forall i :: 0 <= i < |after| ==> IsSpace(after[i])
    ensures TrimEnd(s) != "" ==> !IsSpace(TrimEnd(s)[|TrimEnd(s)| - 1]) && TrimEnd(s)[0] == s[0]
  {
    hide IsSpace;
    if s != "" && IsSpace(s[|s| - 1]) {
      after := EndParts(s[..|s| - 1]);
      after := after + [s[|s| - 1]];
    } else {
      after := "";
    }
  }

  lemma TrimTwice(s: string)
    ensures Trim(Trim(s)) == Trim(s)
  {
    hide IsSpace, Trim;
    var before, after := TrimExactly(s);
    TrimIdentity(Trim(s));
  }

  lemma TrimIdentity(s: string)
    requires s != [] ==> !IsSpace(s[0]) && !IsSpace(s[|s| - 1])
    ensures Trim(s) == s
  {
  }

  /** `s.split(c)` for a one-character separator. */
  function Split(s: string, c: char): (parts: seq<string>)
    ensures |parts| >= 1
  {
    if s == [] then [""]
    else
      var rest := Split(s[1..], c);
      if s[0] == c then [""] + rest
      else [[s[0]] + rest[0]] + rest[1..]
  }

  function Count(s: string, c: char): nat
  {
    if s == "" then 0 else (if s[0] == c then 1 else 0) + Count(s[1..], c)
  }

  /** One part more than there are separators. */
  lemma {:induction false} SplitCount(s: string, c: char)
    ensures |Split(s, c)| == 1 + Count(s, c)
  {
    if s != "" {
      SplitCount(s[1..], c);
    }
  }

  lemma {:induction false} SplitWithout(s: string, c: char)
    requires c !in s
    ensures Split(s, c) == [s]
  {
    if s != [] {
      SplitWithout(s[1..], c);
      assert [s[0]] + s[1..] == s;
    }
  }

  lemma {:induction false} SplitOnce(s: string, t: string, c: char)
    requires c !in s && c !in t
    ensures Split(s + [c] + t, c) == [s, t]
  {
    var whole := s + [c] + t;
    if s == [] {
      assert whole[1..] == t;
      SplitWithout(t, c);
    } else {
      assert whole[1..] == s[1..] + [c] + t;
      SplitOnce(s[1..], t, c);
      assert [s[0]] + s[1..] == s;
    }
  }

  function Repeat(c: char, n: nat): (s: string)
    ensures |s| == n && forall i :: 0 <= i < n ==> s[i] == c
  {
    seq(n, _ => c)
  }

  /** `padStart` and `padEnd` with a one-character filler. */
  function PadStart(s: string, width: nat, c: char): string
  {
    if |s| >= width then s else Repeat(c, width - |s|) + s
  }

  function PadEnd(s: string, width: nat, c: char): string
  {
    if |s| >= width then s else s + Repeat(c, width - |s|)
  }

  /** `slice(0, n)`. */
  function Take(s: string, n: nat): string
  {
    if n < |s| then s[..n] else s
  }
}
