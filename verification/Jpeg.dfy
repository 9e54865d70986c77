/** Removal of application metadata from JPEG files before upload. */
module Jpeg {
  import opened Common
  import opened Bytes

  /** `data[k]` as it ends up in the output array: reading past the end gives undefined, stored as 0. */
  function Get(data: seq<byte>, k: nat): byte
  {
    if k < |data| then data[k] else 0
  }

  /** The two-byte length at k: undefined counts as 0 in `(data[k] << 8) | data[k + 1]`. */
  function Length(data: seq<byte>, k: nat): nat
  {
    Get(data, k) as int * 256 + Get(data, k + 1)
  }

  /** n bytes from i on, zero-filled past the end. */
  function Copy(data: seq<byte>, i: nat, n: nat): (s: seq<byte>)
    ensures |s| == n
  {
    seq<byte>(n, j requires 0 <= j < n => Get(data, i + j))
  }

  function Min(a: nat, b: nat): nat { if a < b then a else b }

  predicate IsApp(marker: byte) { 0xE0 <= marker <= 0xEF }

  /** Segments copied with their length: SOFn, DHT, DQT, COM. */
  predicate IsTable(marker: byte) { 0xC0 <= marker <= 0xCF || marker == 0xDB || marker == 0xFE }

  predicate IsEnd(marker: byte) { marker == 0xD9 || marker == 0xDA }

  /** Where the bytes of a table segment at i end: its two length bytes may be missing, its data cut off. */
  function TableEnd(data: seq<byte>, i: nat): (end: nat)
    requires i + 2 <= |data|
    ensures i + 2 <= end <= |data|
  {
    if i + 3 < |data| then Min(i + 2 + Length(data, i + 2), |data|) else i + 2
  }

  /** One round of the scan at position i: what it emits and where it goes on. */
  ghost function Scan(data: seq<byte>, i: nat): (step: (seq<byte>, nat))
    requires i < |data|
    ensures i < step.1
  {
    if data[i] != 0xFF || i + 1 == |data| then ([data[i]], i + 1)
    else
      var marker := data[i + 1];
      if IsEnd(marker) then (data[i..], |data|)
      else if IsApp(marker) then
        var size := 2 + Length(data, i + 2);
        (if marker == 0xE0 then Copy(data, i, size) else [], i + size)
      else if IsTable(marker) then (data[i..TableEnd(data, i)], TableEnd(data, i))
      else ([0xFF], i + 1)
  }

  /** Everything the scan emits from position i on. */
  ghost function StripFrom(data: seq<byte>, i: nat): seq<byte>
    decreases |data| - i
  {
    if i >= |data| then [] else Scan(data, i).0 + StripFrom(data, Scan(data, i).1)
  }

  lemma Advance(data: seq<byte>, i: nat, result: seq<byte>)
    requires i < |data|
    ensures var (emitted, next) := Scan(data, i);
      && result + StripFrom(data, i) == result + emitted + StripFrom(data, next)
      && (emitted == [] ==> result + StripFrom(data, i) == result + StripFrom(data, next))
  {
    hide Scan;
    var (emitted, next) := Scan(data, i);
    assert emitted == [] ==> result + emitted == result;
    assert result + (emitted + StripFrom(data, next)) == result + emitted + StripFrom(data, next);
  }

  /** The result of the filter. */
  ghost function Strip(data: seq<byte>): seq<byte>
  {
    if |data| < 2 || data[0] != 0xFF || data[1] != 0xD8 then data else [0xFF, 0xD8] + StripFrom(data, 2)
  }

  method CopyTail(data: seq<byte>, start: nat, result: seq<byte>) returns (r: seq<byte>)
    requires start <= |data|
    ensures r == result + data[start..]
  {
    r := result;
    var i := start;
    while i < |data|
      invariant start <= i <= |data| && r == result + data[start..i]
    {
      r := r + [data[i]];
      i := i + 1;
    }
  }

  method CopySegment(data: seq<byte>, i: nat, size: nat, result: seq<byte>) returns (r: seq<byte>)
    ensures r == result + Copy(data, i, size)
  {
    r := result;
    for j := 0 to size
      invariant r == result + Copy(data, i, size)[..j]
    {
      r := r + [Get(data, i + j)];
    }
    assert Copy(data, i, size)[..size] == Copy(data, i, size);
  }

  method CopyTable(data: seq<byte>, start: nat, result: seq<byte>) returns (r: seq<byte>, i: nat)
    requires start + 2 <= |data|
    ensures i == TableEnd(data, start) && r == result + data[start..i]
  {
    r := result + [data[start], data[start + 1]];
    i := start + 2;
    if i + 1 < |data| {
      var length := Length(data, i);
      for j := 0 to length
        invariant i == Min(start + 2 + j, |data|)
        invariant r == result + data[start..i]
      {
        if i < |data| {
          r := r + [data[i]];
          i := i + 1;
        }
      }
    }
  }

  /** `stripExifFromJpeg`; terminates on every byte array. */
  method StripExifFromJpeg(data: seq<byte>) returns (r: seq<byte>)
    ensures r == Strip(data)
  {
    if |data| < 2 || data[0] != 0xFF || data[1] != 0xD8 {
      return data;
    }
    hide StripFrom, TableEnd, Copy, Length, Strip, IsEnd, IsApp, IsTable;
    StripStarts(data);
    var result: seq<byte> := [data[0], data[1]];
    var i := 2;
    while i < |data|
      invariant result + StripFrom(data, i) == Strip(data)
      decreases |data| - i
    {
      Advance(data, i, result);
      if data[i] != 0xFF || i + 1 == |data| {
        result := result + [data[i]];
        i := i + 1;
        continue;
      }
      var marker := data[i + 1];
      if IsEnd(marker) {
        result := CopyTail(data, i, result);
        NothingAfter(data, |data|);
        return result;
      }
      if IsApp(marker) {
        var length := Length(data, i + 2);
        if marker == 0xE0 {
          result := CopySegment(data, i, 2 + length, result);
        }
        i := i + 2 + length;
        continue;
      }
      if IsTable(marker) {
        result, i := CopyTable(data, i, result);
        continue;
      }
      result := result + [data[i]];
      i := i + 1;
    }
    NothingAfter(data, i);
    return result;
  }

  lemma StripStarts(data: seq<byte>)
    requires |data| >= 2 && data[0] == 0xFF && data[1] == 0xD8
    ensures Strip(data) == [data[0], data[1]] + StripFrom(data, 2)
  {
  }

  lemma NothingAfter(data: seq<byte>, i: nat)
    requires i >= |data|
    ensures StripFrom(data, i) == []
  {
  }

  // ------------------------------------------------------------ well-formed files --

  /** A marker segment (section B.1.1.4 of ITU-T T.81). */
  datatype Segment = Segment(marker: byte, payload: seq<byte>)

  /** SOFn, DHT, JPG and DAC; EOI, SOS and DQT; APPn; COM: the markers the filter acts on. */
  predicate IsKnown(marker: byte)
  {
    0xC0 <= marker <= 0xCF || 0xD9 <= marker <= 0xDB || 0xE0 <= marker <= 0xEF || marker == 0xFE
  }

  /** Of those, the markers of segments. */
  predicate HasLength(marker: byte)
  {
    0xC0 <= marker <= 0xCF || marker == 0xDB || 0xE0 <= marker <= 0xEF || marker == 0xFE
  }

  /** The markers that carry a length, and those the filter acts on, in terms of the sets of codes below. */
  lemma MarkerSets(marker: byte)
    ensures HasLength(marker) <==> IsApp(marker) || IsTable(marker)
    ensures IsKnown(marker) <==> HasLength(marker) || IsEnd(marker)
  {
  }

  /** No two bytes in a row look like a marker the filter acts on. */
  ghost predicate NoKnownPair(s: seq<byte>)
  {
    forall i :: 0 <= i < |s| - 1 && s[i] == 0xFF ==> !IsKnown(s[i + 1])
  }

  /** A segment the filter can tell apart: one it copies or drops by its length, or another one without such a pair. */
  ghost predicate WellFormed(s: Segment)
  {
    && |s.payload| + 2 < 0x1_0000
    && (HasLength(s.marker) || NoKnownPair([0xFF, s.marker] + (Be16(|s.payload| + 2) + s.payload)))
  }

  ghost function SegmentBytes(s: Segment): seq<byte>
    requires WellFormed(s)
  {
    [0xFF, s.marker] + (Be16(|s.payload| + 2) + s.payload)
  }

  ghost predicate AllWellFormed(segments: seq<Segment>)
  {
    forall i :: 0 <= i < |segments| ==> WellFormed(segments[i])
  }

  ghost function Concat(segments: seq<Segment>): seq<byte>
    requires AllWellFormed(segments)
  {
    if segments == [] then [] else SegmentBytes(segments[0]) + Concat(segments[1..])
  }

  /** The rest of a file: from the first scan, or an end of image without any. */
  ghost predicate IsTail(tail: seq<byte>)
  {
    |tail| >= 2 && tail[0] == 0xFF && (tail[1] == 0xD9 || tail[1] == 0xDA)
  }

  ghost function File(segments: seq<Segment>, tail: seq<byte>): seq<byte>
    requires AllWellFormed(segments)
  {
    [0xFF, 0xD8] + Concat(segments) + tail
  }

  /** Application data other than JFIF: APP1 (EXIF, XMP) to APP15. */
  predicate IsMetadata(s: Segment) { 0xE1 <= s.marker <= 0xEF }

  ghost function WithoutMetadata(segments: seq<Segment>): (kept: seq<Segment>)
    ensures AllWellFormed(segments) ==> AllWellFormed(kept)
    ensures forall i :: 0 <= i < |kept| ==> !IsMetadata(kept[i])
  {
    if segments == [] then []
    else (if IsMetadata(segments[0]) then [] else [segments[0]]) + WithoutMetadata(segments[1..])
  }

  /** What follows is the end of the data, or no byte that could complete a known marker. */
  ghost predicate Separated(data: seq<byte>, i: nat)
  {
    i < |data| ==> !IsKnown(data[i])
  }

  lemma RunStep(data: seq<byte>, i: nat, run: seq<byte>)
    requires Holds(data, i, run) && NoKnownPair(run) && Separated(data, i + |run|) && run != []
    ensures StripFrom(data, i) == [run[0]] + StripFrom(data, i + 1)
    ensures Holds(data, i + 1, run[1..]) && NoKnownPair(run[1..])
  {
    hide StripFrom, Holds, IsKnown;
    HeadAndRest(data, i, run);
    RestHasNoPair(run);
    if |run| > 1 {
      HeadAndRest(data, i + 1, run[1..]);
    }
    ScanPlain(data, i);
  }

  lemma {:induction false} CopiedRun(data: seq<byte>, i: nat, run: seq<byte>)
    requires Holds(data, i, run) && NoKnownPair(run) && Separated(data, i + |run|)
    ensures StripFrom(data, i) == run + StripFrom(data, i + |run|)
    decreases |run|
  {
    hide StripFrom, Holds, NoKnownPair, Separated;
    if run == [] {
      assert [] + StripFrom(data, i) == StripFrom(data, i);
    } else {
      var rest := run[1..];
      RunStep(data, i, run);
      CopiedRun(data, i + 1, rest);
      assert run == [run[0]] + rest;
      Regroup(run[0], rest, StripFrom(data, i + |run|));
    }
  }

  lemma RestHasNoPair(run: seq<byte>)
    requires run != [] && NoKnownPair(run)
    ensures NoKnownPair(run[1..])
  {
    forall i | 0 <= i < |run[1..]| - 1 && run[1..][i] == 0xFF ensures !IsKnown(run[1..][i + 1]) {
      assert run[i + 1] == 0xFF;
    }
  }

  lemma ScanPlain(data: seq<byte>, i: nat)
    requires i < |data| && (data[i] == 0xFF && i + 1 < |data| ==> !IsKnown(data[i + 1]))
    ensures StripFrom(data, i) == [data[i]] + StripFrom(data, i + 1)
  {
  }

  lemma Regroup(x: byte, y: seq<byte>, z: seq<byte>)
    ensures [x] + (y + z) == ([x] + y) + z
  {
  }

  lemma HeadAndRest(data: seq<byte>, i: nat, run: seq<byte>)
    requires Holds(data, i, run) && run != []
    ensures i < |data| && data[i] == run[0] && Holds(data, i + 1, run[1..])
  {
    assert data[i..i + |run|][0] == run[0];
    assert data[i..i + |run|][1..] == run[1..];
  }

  lemma SegmentAt(data: seq<byte>, i: nat, s: Segment)
    requires WellFormed(s) && Holds(data, i, SegmentBytes(s))
    ensures |SegmentBytes(s)| == |s.payload| + 4 && i + |s.payload| + 4 <= |data|
    ensures data[i] == 0xFF && data[i + 1] == s.marker
    ensures Length(data, i + 2) == |s.payload| + 2
    ensures data[i..i + |s.payload| + 4] == SegmentBytes(s)
    ensures Holds(data, i + 1, [s.marker] + (Be16(|s.payload| + 2) + s.payload))
  {
    var bytes, length := SegmentBytes(s), Be16(|s.payload| + 2);
    assert bytes == [0xFF] + ([s.marker] + (length + s.payload));
    HoldsParts(data, i, [0xFF], [s.marker] + (length + s.payload));
    HoldsParts(data, i + 1, [s.marker], length + s.payload);
    HoldsParts(data, i + 2, length, s.payload);
    HeadAndRest(data, i, [0xFF]);
    HeadAndRest(data, i + 1, [s.marker]);
    HeadAndRest(data, i + 2, length);
    HeadAndRest(data, i + 3, length[1..]);
    LengthBytes(|s.payload| + 2);
  }

  lemma LengthBytes(n: u16)
    ensures Be16(n)[0] as int * 256 + Be16(n)[1] == n
  {
  }

  lemma CopyInside(data: seq<byte>, i: nat, n: nat)
    requires i + n <= |data|
    ensures Copy(data, i, n) == data[i..i + n]
  {
    forall j | 0 <= j < n ensures Copy(data, i, n)[j] == data[i..i + n][j] {
      assert Get(data, i + j) == data[i + j];
    }
  }

  lemma LengthSegment(data: seq<byte>, i: nat, s: Segment)
    requires WellFormed(s) && Holds(data, i, SegmentBytes(s)) && (IsApp(s.marker) || IsTable(s.marker))
    ensures i < |data|
    ensures Scan(data, i) == (if IsMetadata(s) then [] else SegmentBytes(s), i + |SegmentBytes(s)|)
  {
    hide Length, Copy, Holds, SegmentBytes, WellFormed;
    SegmentAt(data, i, s);
    CopyInside(data, i, |s.payload| + 4);
  }

  /** One well-formed segment is copied or dropped as a whole. */
  lemma SegmentStep(data: seq<byte>, i: nat, s: Segment)
    requires WellFormed(s) && Holds(data, i, SegmentBytes(s)) && Separated(data, i + |SegmentBytes(s)|)
    ensures StripFrom(data, i)
         == (if IsMetadata(s) then [] else SegmentBytes(s)) + StripFrom(data, i + |SegmentBytes(s)|)
  {
    hide Scan, Holds, Separated, NoKnownPair;
    if IsApp(s.marker) || IsTable(s.marker) {
      hide SegmentBytes, WellFormed;
      LengthSegment(data, i, s);
    } else {
      CopiedRun(data, i, SegmentBytes(s));
    }
  }

  lemma {:induction false} StripSegments(data: seq<byte>, i: nat, segments: seq<Segment>, tail: seq<byte>)
    requires AllWellFormed(segments) && IsTail(tail)
    requires i <= |data| && data[i..] == Concat(segments) + tail
    ensures StripFrom(data, i) == Concat(WithoutMetadata(segments)) + tail
    decreases |segments|
  {
    hide Scan, SegmentBytes, WithoutMetadata, StripFrom;
    if segments == [] {
      TailStep(data, i, tail);
    } else {
      var s, more := segments[0], segments[1..];
      var n := |SegmentBytes(s)|;
      assert data[i..] == SegmentBytes(s) + (Concat(more) + tail);
      SplitRest(data, i, SegmentBytes(s), Concat(more) + tail);
      StartsWithMarker(more, tail);
      assert Separated(data, i + n) by {
        assert data[i + n..][0] == 0xFF;
      }
      SegmentStep(data, i, s);
      StripSegments(data, i + n, more, tail);
      KeptStep(segments);
    }
  }

  lemma StartsWithMarker(segments: seq<Segment>, tail: seq<byte>)
    requires AllWellFormed(segments) && IsTail(tail)
    ensures (Concat(segments) + tail)[0] == 0xFF
  {
    if segments != [] {
      assert (Concat(segments) + tail)[0] == SegmentBytes(segments[0])[0];
    }
  }

  lemma TailStep(data: seq<byte>, i: nat, tail: seq<byte>)
    requires i <= |data| && IsTail(tail) && data[i..] == Concat([]) + tail
    ensures StripFrom(data, i) == Concat(WithoutMetadata([])) + tail
  {
    assert data[i..] == tail;
    assert data[i] == tail[0] && data[i + 1] == tail[1];
    assert Scan(data, i) == (tail, |data|);
  }

  lemma SplitRest(data: seq<byte>, i: nat, x: seq<byte>, y: seq<byte>)
    requires i <= |data| && data[i..] == x + y
    ensures Holds(data, i, x) && data[i + |x|..] == y
  {
    assert data[i..][..|x|] == x && data[i..][|x|..] == y;
  }

  lemma KeptStep(segments: seq<Segment>)
    requires AllWellFormed(segments) && segments != []
    ensures Concat(WithoutMetadata(segments))
         == (if IsMetadata(segments[0]) then [] else SegmentBytes(segments[0])) + Concat(WithoutMetadata(segments[1..]))
  {
    var kept := WithoutMetadata(segments[1..]);
    if !IsMetadata(segments[0]) {
      assert ([segments[0]] + kept)[1..] == kept;
    } else {
      assert [] + kept == kept;
    }
  }

  /** On a well-formed file exactly the APP1 to APP15 segments disappear; all other bytes stay in order. */
  lemma StripRemovesMetadata(segments: seq<Segment>, tail: seq<byte>)
    requires AllWellFormed(segments) && IsTail(tail)
    ensures Strip(File(segments, tail)) == File(WithoutMetadata(segments), tail)
  {
    hide StripFrom, Concat, WithoutMetadata;
    var data := File(segments, tail);
    assert data[2..] == Concat(segments) + tail;
    StripSegments(data, 2, segments, tail);
  }

  lemma {:induction false} NothingLeftToRemove(segments: seq<Segment>)
    requires forall i :: 0 <= i < |segments| ==> !IsMetadata(segments[i])
    ensures WithoutMetadata(segments) == segments
  {
    if segments != [] {
      NothingLeftToRemove(segments[1..]);
    }
  }

  /** Filtering a well-formed file a second time changes nothing. */
  lemma StripIsIdempotent(segments: seq<Segment>, tail: seq<byte>)
    requires AllWellFormed(segments) && IsTail(tail)
    ensures Strip(Strip(File(segments, tail))) == Strip(File(segments, tail))
  {
    StripRemovesMetadata(segments, tail);
    StripRemovesMetadata(WithoutMetadata(segments), tail);
    NothingLeftToRemove(WithoutMetadata(segments));
  }

  // --------------------------------------------------- other and damaged files --

  /** What does not start with SOI comes back as it is. */
  lemma NoJpegIsKept(data: seq<byte>)
    requires !(|data| >= 2 && data[0] == 0xFF && data[1] == 0xD8)
    ensures Strip(data) == data
  {
  }

  /** What is emitted for a segment with a length that the file cuts off after c of its bytes: metadata goes, APP0 is
      filled up with zeros, anything else is what is left of it. */
  ghost function CutEmitted(s: Segment, c: nat): seq<byte>
    requires WellFormed(s) && HasLength(s.marker) && 4 <= c <= |SegmentBytes(s)|
  {
    if 0xE1 <= s.marker <= 0xEF then []
    else if s.marker == 0xE0 then SegmentBytes(s)[..c] + seq<byte>(|SegmentBytes(s)| - c, _ => 0)
    else SegmentBytes(s)[..c]
  }

  lemma CutBytes(data: seq<byte>, i: nat, s: Segment, c: nat)
    requires WellFormed(s) && 4 <= c <= |SegmentBytes(s)| && i <= |data| && data[i..] == SegmentBytes(s)[..c]
    ensures |data| == i + c && data[i] == 0xFF && data[i + 1] == s.marker
    ensures Length(data, i + 2) == |s.payload| + 2 && |SegmentBytes(s)| == |s.payload| + 4
  {
    var bytes := SegmentBytes(s);
    assert forall k :: 0 <= k < c ==> data[i + k] == data[i..][k] == bytes[k];
    assert bytes[2] == Be16(|s.payload| + 2)[0] && bytes[3] == Be16(|s.payload| + 2)[1];
    LengthBytes(|s.payload| + 2);
  }

  lemma CutStep(data: seq<byte>, i: nat, s: Segment, c: nat)
    requires WellFormed(s) && HasLength(s.marker) && 4 <= c <= |SegmentBytes(s)|
    requires i <= |data| && data[i..] == SegmentBytes(s)[..c]
    ensures StripFrom(data, i) == CutEmitted(s, c)
  {
    CutBytes(data, i, s, c);
    MarkerSets(s.marker);
    var n := |SegmentBytes(s)|;
    hide SegmentBytes, WellFormed, Length, Be16, Copy;
    CutCopy(data, i, n);
    NothingAfter(data, i + n);
    NothingAfter(data, i + c);
    assert TableEnd(data, i) == i + c;
    assert data[i..i + c] == data[i..];
    hide StripFrom;
    var (emitted, next) := Scan(data, i);
    assert emitted + [] == emitted;
    assert next >= |data|;
    OnlyStep(data, i);
  }

  lemma OnlyStep(data: seq<byte>, i: nat)
    requires i < |data| && Scan(data, i).1 >= |data|
    ensures StripFrom(data, i) == Scan(data, i).0
  {
    hide Scan;
    NothingAfter(data, Scan(data, i).1);
  }

  lemma CutCopy(data: seq<byte>, i: nat, n: nat)
    requires i <= |data| <= i + n
    ensures Copy(data, i, n) == data[i..] + seq<byte>(n - (|data| - i), _ => 0)
  {
    hide Length;
    forall j | 0 <= j < n ensures Copy(data, i, n)[j] == (data[i..] + seq<byte>(n - (|data| - i), _ => 0))[j] {
      assert Get(data, i + j) == if i + j < |data| then data[i + j] else 0;
    }
  }

  /** A file that ends inside a segment: what is before it is filtered as ever. */
  lemma {:induction false} StripCutFrom(data: seq<byte>, i: nat, segments: seq<Segment>, s: Segment, c: nat)
    requires AllWellFormed(segments) && WellFormed(s) && HasLength(s.marker) && 4 <= c <= |SegmentBytes(s)|
    requires i <= |data| && data[i..] == Concat(segments) + SegmentBytes(s)[..c]
    ensures StripFrom(data, i) == Concat(WithoutMetadata(segments)) + CutEmitted(s, c)
    decreases |segments|
  {
    hide Scan, SegmentBytes, WithoutMetadata, StripFrom, WellFormed, CutEmitted;
    var cut := SegmentBytes(s)[..c];
    if segments == [] {
      assert data[i..] == cut;
      CutStep(data, i, s, c);
      NoneKept();
    } else {
      var first, more := segments[0], segments[1..];
      var n := |SegmentBytes(first)|;
      assert data[i..] == SegmentBytes(first) + (Concat(more) + cut);
      SplitRest(data, i, SegmentBytes(first), Concat(more) + cut);
      CutStartsWithMarker(more, s, c);
      assert Separated(data, i + n) by {
        assert data[i + n..][0] == 0xFF;
      }
      SegmentStep(data, i, first);
      StripCutFrom(data, i + n, more, s, c);
      KeptStep(segments);
    }
  }

  lemma NoneKept()
    ensures WithoutMetadata([]) == [] && Concat([]) == []
  {
  }

  lemma CutStartsWithMarker(segments: seq<Segment>, s: Segment, c: nat)
    requires AllWellFormed(segments) && WellFormed(s) && 4 <= c <= |SegmentBytes(s)|
    ensures (Concat(segments) + SegmentBytes(s)[..c])[0] == 0xFF
  {
    if segments != [] {
      assert (Concat(segments) + SegmentBytes(s)[..c])[0] == SegmentBytes(segments[0])[0];
    }
  }

  lemma StripCut(segments: seq<Segment>, s: Segment, c: nat)
    requires AllWellFormed(segments) && WellFormed(s) && HasLength(s.marker) && 4 <= c <= |SegmentBytes(s)|
    ensures Strip([0xFF, 0xD8] + Concat(segments) + SegmentBytes(s)[..c])
         == [0xFF, 0xD8] + Concat(WithoutMetadata(segments)) + CutEmitted(s, c)
  {
    hide StripFrom, Concat, WithoutMetadata, SegmentBytes, WellFormed, CutEmitted;
    var data := [0xFF, 0xD8] + Concat(segments) + SegmentBytes(s)[..c];
    assert data[2..] == Concat(segments) + SegmentBytes(s)[..c];
    StripCutFrom(data, 2, segments, s, c);
  }

  // ------------------------------------------------------- a segment it misreads --

  /** DRI, with the two bytes of the restart interval: a segment whose length the filter does not read. */
  function Dri(a: byte, b: byte): Segment { Segment(0xDD, [a, b]) }

  function DriBytes(a: byte, b: byte): seq<byte> { [0xFF, 0xDD, 0, 4, a, b] }

  const EMPTY_APP1: seq<byte> := [0xFF, 0xE1, 0, 2]
  const EOI: seq<byte> := [0xFF, 0xD9]

  /** SOI, DRI, an empty APP1 segment, EOI. */
  function DriFile(a: byte, b: byte): seq<byte>
  {
    [0xFF, 0xD8] + DriBytes(a, b) + EMPTY_APP1 + EOI
  }

  lemma DriWellFormed(a: byte, b: byte)
    ensures WellFormed(Dri(a, b)) <==> !(a == 0xFF && IsKnown(b))
    ensures WellFormed(Dri(a, b)) ==> SegmentBytes(Dri(a, b)) == DriBytes(a, b)
  {
    var bytes := [0xFF, 0xDD] + (Be16(4) + [a, b]);
    assert bytes == DriBytes(a, b);
    if a == 0xFF && IsKnown(b) {
      assert bytes[4] == 0xFF && bytes[5] == b;
    }
  }

  lemma App1Bytes()
    ensures WellFormed(Segment(0xE1, [])) && SegmentBytes(Segment(0xE1, [])) == EMPTY_APP1
  {
  }

  /** The scan up to the restart interval copies byte by byte. */
  lemma DriStart(a: byte, b: byte)
    ensures Strip(DriFile(a, b)) == [0xFF, 0xD8] + ([0xFF, 0xDD, 0, 4] + StripFrom(DriFile(a, b), 6))
  {
    hide StripFrom;
    var data := DriFile(a, b);
    assert data[2..6] == [0xFF, 0xDD, 0, 4];
    CopiedPrefix(data);
  }

  lemma CopiedPrefix(data: seq<byte>)
    requires |data| > 6 && data[2..6] == [0xFF, 0xDD, 0, 4]
    ensures StripFrom(data, 2) == [0xFF, 0xDD, 0, 4] + StripFrom(data, 6)
  {
    hide StripFrom;
    assert data[2] == data[2..6][0] && data[3] == data[2..6][1] && data[4] == data[2..6][2] && data[5] == data[2..6][3];
    ScanPlain(data, 2);
    ScanPlain(data, 3);
    ScanPlain(data, 4);
    ScanPlain(data, 5);
  }

  /** At a known pair the filter leaves the segment structure: 65505, the next marker's bytes, is taken for a length. */
  lemma DriMisread(b: byte)
    requires IsKnown(b)
    ensures |StripFrom(DriFile(0xFF, b), 6)| != 4
  {
    var data := DriFile(0xFF, b);
    assert |data| == 14 && data[6] == 0xFF && data[7] == b && data[8] == 0xFF && data[9] == 0xE1;
    assert Length(data, 8) == 65505;
    hide Copy, Length;
    var next := Scan(data, 6).1;
    assert next >= |data|;
    NothingAfter(data, next);
    assert |Scan(data, 6).0| == if IsApp(b) then (if b == 0xE0 then 65507 else 0) else 8;
  }

  /** From this file of fourteen bytes the filter removes the metadata, and nothing else, exactly when the interval is not
      0xFF followed by the code of a marker it acts on. */
  lemma DriExactly(a: byte, b: byte)
    ensures Strip(DriFile(a, b)) == [0xFF, 0xD8] + DriBytes(a, b) + EOI <==>
            !(a == 0xFF && (0xC0 <= b <= 0xCF || 0xD9 <= b <= 0xDB || 0xE0 <= b <= 0xEF || b == 0xFE))
  {
    assert IsKnown(b) <==> 0xC0 <= b <= 0xCF || 0xD9 <= b <= 0xDB || 0xE0 <= b <= 0xEF || b == 0xFE;
    hide Strip, StripFrom, WellFormed, SegmentBytes, IsKnown;
    DriWellFormed(a, b);
    if a == 0xFF && IsKnown(b) {
      DriStart(a, b);
      DriMisread(b);
    } else {
      App1Bytes();
      var app1 := Segment(0xE1, []);
      StripTwo(Dri(a, b), app1);
    }
  }

  lemma OneKept(s: Segment, app1: Segment)
    requires IsMetadata(app1) && !IsMetadata(s)
    ensures WithoutMetadata([s, app1]) == [s]
  {
    hide IsMetadata;
    var none: seq<Segment> := [];
    assert WithoutMetadata(none) == none;
    assert [app1][1..] == none && WithoutMetadata([app1]) == none;
    assert [s, app1][1..] == [app1];
  }

  lemma StripTwo(s: Segment, app1: Segment)
    requires WellFormed(s) && WellFormed(app1) && IsMetadata(app1) && !IsMetadata(s)
    ensures Strip([0xFF, 0xD8] + SegmentBytes(s) + SegmentBytes(app1) + EOI) == [0xFF, 0xD8] + SegmentBytes(s) + EOI
  {
    hide Strip, WellFormed, SegmentBytes;
    var both := [s, app1];
    assert both[1..] == [app1] && [app1][1..] == [] && [s][1..] == [];
    OneKept(s, app1);
    assert Concat([app1]) == SegmentBytes(app1) && Concat([s]) == SegmentBytes(s);
    assert Concat(both) == SegmentBytes(s) + SegmentBytes(app1);
    StripRemovesMetadata(both, EOI);
    assert File(both, EOI) == [0xFF, 0xD8] + SegmentBytes(s) + SegmentBytes(app1) + EOI;
    assert File([s], EOI) == [0xFF, 0xD8] + SegmentBytes(s) + EOI;
  }

  lemma {:induction false} ConcatTwo(a: seq<Segment>, b: seq<Segment>)
    requires AllWellFormed(a) && AllWellFormed(b)
    ensures AllWellFormed(a + b) && Concat(a + b) == Concat(a) + Concat(b)
  {
    hide WellFormed, SegmentBytes;
    if a == [] {
      assert a + b == b;
    } else {
      assert (a + b)[1..] == a[1..] + b;
      ConcatTwo(a[1..], b);
    }
  }

  lemma {:induction false} KeptTwo(a: seq<Segment>, b: seq<Segment>)
    ensures WithoutMetadata(a + b) == WithoutMetadata(a) + WithoutMetadata(b)
  {
    if a == [] {
      assert a + b == b;
    } else {
      assert (a + b)[1..] == a[1..] + b;
      KeptTwo(a[1..], b);
    }
  }

  /** A file with this restart interval between other segments. */
  ghost function FileAround(before: seq<Segment>, a: byte, b: byte, after: seq<Segment>, tail: seq<byte>): seq<byte>
    requires AllWellFormed(before) && AllWellFormed(after)
  {
    [0xFF, 0xD8] + Concat(before) + DriBytes(a, b) + Concat(after) + tail
  }

  /** The filter removes exactly the metadata from every file that holds this restart interval. */
  ghost predicate DriIsSafe(a: byte, b: byte)
  {
    forall before, after, tail :: AllWellFormed(before) && AllWellFormed(after) && IsTail(tail) ==>
      FilteredRight(before, a, b, after, tail)
  }

  ghost predicate FilteredRight(before: seq<Segment>, a: byte, b: byte, after: seq<Segment>, tail: seq<byte>)
    requires AllWellFormed(before) && AllWellFormed(after)
  {
    Strip(FileAround(before, a, b, after, tail)) == FileAround(WithoutMetadata(before), a, b, WithoutMetadata(after), tail)
  }

  lemma SafeAround(before: seq<Segment>, a: byte, b: byte, after: seq<Segment>, tail: seq<byte>)
    requires AllWellFormed(before) && AllWellFormed(after) && IsTail(tail) && WellFormed(Dri(a, b))
    ensures FilteredRight(before, a, b, after, tail)
  {
    hide Strip, WellFormed, SegmentBytes, Concat, WithoutMetadata;
    var dri := [Dri(a, b)];
    DriWellFormed(a, b);
    OneSegment(Dri(a, b));
    ConcatTwo(before, dri);
    ConcatTwo(before + dri, after);
    KeptTwo(before, dri);
    KeptTwo(before + dri, after);
    ConcatTwo(WithoutMetadata(before), dri);
    ConcatTwo(WithoutMetadata(before) + dri, WithoutMetadata(after));
    StripRemovesMetadata(before + dri + after, tail);
    assert FileAround(before, a, b, after, tail) == File(before + dri + after, tail);
  }

  lemma OneSegment(s: Segment)
    requires WellFormed(s) && !IsMetadata(s)
    ensures AllWellFormed([s]) && Concat([s]) == SegmentBytes(s) && WithoutMetadata([s]) == [s]
  {
    hide WellFormed, SegmentBytes;
    assert [s][1..] == [];
    assert SegmentBytes(s) + [] == SegmentBytes(s);
  }

  lemma UnsafeFile(a: byte, b: byte)
    ensures var app1 := [Segment(0xE1, [])];
      && AllWellFormed([]) && AllWellFormed(app1) && IsTail(EOI)
      && FileAround([], a, b, app1, EOI) == DriFile(a, b)
      && FileAround(WithoutMetadata([]), a, b, WithoutMetadata(app1), EOI) == [0xFF, 0xD8] + DriBytes(a, b) + EOI
  {
    hide WellFormed, SegmentBytes;
    App1Bytes();
    var app1 := Segment(0xE1, []);
    assert [app1][1..] == [];
    assert Concat([app1]) == EMPTY_APP1;
    assert WithoutMetadata([app1]) == [];
  }

  /** The restart intervals that are safe in every file: all but 0xFF followed by the code of a marker the filter acts
      on. */
  lemma DriSafeExactly(a: byte, b: byte)
    ensures DriIsSafe(a, b) <==>
            !(a == 0xFF && (0xC0 <= b <= 0xCF || 0xD9 <= b <= 0xDB || 0xE0 <= b <= 0xEF || b == 0xFE))
  {
    assert IsKnown(b) <==> 0xC0 <= b <= 0xCF || 0xD9 <= b <= 0xDB || 0xE0 <= b <= 0xEF || b == 0xFE;
    hide FileAround, Strip, DriFile, DriBytes, WithoutMetadata, WellFormed, IsKnown;
    DriWellFormed(a, b);
    if a == 0xFF && IsKnown(b) {
      UnsafeFile(a, b);
      DriExactly(a, b);
      assert !FilteredRight([], a, b, [Segment(0xE1, [])], EOI);
    } else {
      forall before, after, tail | AllWellFormed(before) && AllWellFormed(after) && IsTail(tail)
        ensures FilteredRight(before, a, b, after, tail)
      {
        SafeAround(before, a, b, after, tail);
      }
    }
  }
}
