/** The binary format of a post: text and media, with strings taken as their UTF-8 bytes. */
module PostCodec {
  import opened Common
  import opened Bytes
  import opened Digits

  const CODEC_VERSION: byte := 1

  datatype MediaItem = MediaItem(mime: seq<byte>, filename: seq<byte>, width: int, height: int, data: seq<byte>)

  datatype PostContent = PostContent(text: seq<byte>, media: seq<MediaItem>)

  /** `setUint16` and `setUint32` keep the low bits; so does a store into a Uint8Array. */
  function Low8(n: int): byte { n % 0x100 }

  function Low16(n: int): u16 { n % 0x1_0000 }

  function Low32(n: int): u32 { n % 0x1_0000_0000 }

  // ---------------------------------------------------------------- encoding --

  function EncodeItem(m: MediaItem): seq<byte>
  {
    [Low8(|m.mime|)] + (m.mime + EncodeNamed(m))
  }

  /** The fields of an item from the file name on, and from the width on. */
  function EncodeNamed(m: MediaItem): seq<byte>
  {
    Be16(Low16(|m.filename|)) + (m.filename + EncodeSized(m))
  }

  function EncodeSized(m: MediaItem): seq<byte>
  {
    Be16(Low16(m.width)) + (Be16(Low16(m.height)) + (Be32(Low32(|m.data|)) + m.data))
  }

  function EncodeItems(media: seq<MediaItem>): seq<byte>
  {
    if media == [] then [] else EncodeItems(media[..|media| - 1]) + EncodeItem(media[|media| - 1])
  }

  function EncodeHeader(content: PostContent): seq<byte>
  {
    [CODEC_VERSION] + (Be32(Low32(|content.text|)) + (content.text + [Low8(|content.media|)]))
  }

  /** The encoded post. */
  function Encode(content: PostContent): seq<byte>
  {
    EncodeHeader(content) + EncodeItems(content.media)
  }

  lemma {:induction false} ItemsPrefix(media: seq<MediaItem>, i: nat)
    requires i <= |media|
    ensures |EncodeItems(media[..i])| <= |EncodeItems(media)|
    decreases |media| - i
  {
    if i == |media| {
      assert media[..i] == media;
    } else {
      ItemsStep(media, i);
      ItemsPrefix(media, i + 1);
    }
  }

  lemma ItemsStep(media: seq<MediaItem>, i: nat)
    requires i < |media|
    ensures EncodeItems(media[..i + 1]) == EncodeItems(media[..i]) + EncodeItem(media[i])
  {
    assert media[..i + 1][..i] == media[..i];
  }

  /** `buffer.set(bytes, offset)` and the DataView stores: overwrite in place, return the new offset. */
  method Store(buffer: array<byte>, offset: nat, bytes: seq<byte>) returns (next: nat)
    requires offset + |bytes| <= buffer.Length
    modifies buffer
    ensures next == offset + |bytes|
    ensures buffer[..next] == old(buffer[..offset]) + bytes
  {
    forall i | 0 <= i < |bytes| {
      buffer[offset + i] := bytes[i];
    }
    next := offset + |bytes|;
  }

  /** The size loop of `encodePostContent`. */
  method TotalSize(content: PostContent) returns (size: nat)
    ensures size == |Encode(content)|
  {
    hide EncodeItem;
    size := 1 + 4 + |content.text| + 1;
    for i := 0 to |content.media|
      invariant size == |EncodeHeader(content)| + |EncodeItems(content.media[..i])|
    {
      var m := content.media[i];
      ItemsStep(content.media, i);
      ItemSize(m);
      size := size + (1 + |m.mime| + 2 + |m.filename| + 2 + 2 + 4 + |m.data|);
    }
    assert content.media[..|content.media|] == content.media;
  }

  lemma ItemSize(m: MediaItem)
    ensures |EncodeItem(m)| == 1 + |m.mime| + 2 + |m.filename| + 2 + 2 + 4 + |m.data|
  {
  }

  method StoreItem(buffer: array<byte>, start: nat, m: MediaItem) returns (offset: nat)
    requires start + |EncodeItem(m)| <= buffer.Length
    modifies buffer
    ensures offset == start + |EncodeItem(m)|
    ensures buffer[..offset] == old(buffer[..start]) + EncodeItem(m)
  {
    hide Be16, Be32, Low8, Low16, Low32, EncodeItem;
    ItemSize(m);
    ghost var before := buffer[..start];
    offset := Store(buffer, start, [Low8(|m.mime|)]);
    offset := Store(buffer, offset, m.mime);
    offset := Store(buffer, offset, Be16(Low16(|m.filename|)));
    offset := Store(buffer, offset, m.filename);
    offset := Store(buffer, offset, Be16(Low16(m.width)));
    offset := Store(buffer, offset, Be16(Low16(m.height)));
    offset := Store(buffer, offset, Be32(Low32(|m.data|)));
    offset := Store(buffer, offset, m.data);
    ItemInOrder(before, m);
  }

  /** Appending the fields one by one appends the encoded item. */
  lemma ItemInOrder(before: seq<byte>, m: MediaItem)
    ensures before + [Low8(|m.mime|)] + m.mime + Be16(Low16(|m.filename|)) + m.filename +
            Be16(Low16(m.width)) + Be16(Low16(m.height)) + Be32(Low32(|m.data|)) + m.data
         == before + EncodeItem(m)
  {
    hide Be16, Be32, Low8, Low16, Low32;
  }

  lemma HeaderInOrder(content: PostContent)
    ensures [CODEC_VERSION] + Be32(Low32(|content.text|)) + content.text + [Low8(|content.media|)] == EncodeHeader(content)
  {
    hide Be32, Low8, Low32;
  }

  method StoreHeader(buffer: array<byte>, content: PostContent) returns (offset: nat)
    requires |EncodeHeader(content)| <= buffer.Length
    modifies buffer
    ensures offset == |EncodeHeader(content)| && buffer[..offset] == EncodeHeader(content)
  {
    hide Be32, Low8, Low32, EncodeHeader;
    HeaderInOrder(content);
    offset := Store(buffer, 0, [CODEC_VERSION]);
    offset := Store(buffer, offset, Be32(Low32(|content.text|)));
    offset := Store(buffer, offset, content.text);
    offset := Store(buffer, offset, [Low8(|content.media|)]);
  }

  lemma NoItems(media: seq<MediaItem>)
    ensures EncodeItems(media[..0]) == []
  {
  }

  /** `encodePostContent` fills a buffer of exactly the computed size, for every content. */
  method EncodePostContent(content: PostContent) returns (buffer: array<byte>)
    ensures fresh(buffer) && buffer[..] == Encode(content)
  {
    hide EncodeItem, EncodeHeader, EncodeItems;
    var totalSize := TotalSize(content);
    buffer := new byte[totalSize];
    var offset := StoreHeader(buffer, content);
    NoItems(content.media);
    for i := 0 to |content.media|
      invariant offset == |EncodeHeader(content)| + |EncodeItems(content.media[..i])| <= buffer.Length
      invariant buffer[..offset] == EncodeHeader(content) + EncodeItems(content.media[..i])
    {
      ItemsStep(content.media, i);
      ItemsPrefix(content.media, i + 1);
      offset := StoreItem(buffer, offset, content.media[i]);
    }
    assert content.media[..|content.media|] == content.media;
    assert buffer[..] == buffer[..offset];
  }

  // ---------------------------------------------------------------- decoding --

  /** A JavaScript offset: a position, or NaN once `undefined` has been added to it. */
  datatype Offset = At(pos: nat) | NaN
  {
    function Plus(n: Option<nat>): Offset { if NaN? || n == None then NaN else At(pos + n.value) }
  }

  /** `data[offset]`; None is `undefined`. */
  function ByteAt(data: seq<byte>, o: Offset): Option<byte>
  {
    if o.At? && o.pos < |data| then Some(data[o.pos]) else None
  }

  function Min(a: nat, b: nat): nat { if a < b then a else b }

  /** `data.slice(offset, offset + length)`: clipped to the data, empty when an end is NaN. */
  function SliceAt(data: seq<byte>, o: Offset, length: Option<nat>): seq<byte>
  {
    if o.NaN? || length == None then [] else data[Min(o.pos, |data|)..Min(o.pos + length.value, |data|)]
  }

  /** Where a DataView reads: NaN counts as 0. */
  function ViewIndex(o: Offset): nat { if o.NaN? then 0 else o.pos }

  function GetUint16(data: seq<byte>, o: Offset): Result<u16, string>
  {
    var i := ViewIndex(o);
    if i + 2 <= |data| then Ok(FromBe16(data[i..i + 2])) else Err("RangeError")
  }

  function GetUint32(data: seq<byte>, o: Offset): Result<u32, string>
  {
    var i := ViewIndex(o);
    if i + 4 <= |data| then Ok(FromBe32(data[i..i + 4])) else Err("RangeError")
  }

  function DecodeItem(data: seq<byte>, start: Offset): Result<(MediaItem, Offset), string>
  {
    var typeLength := ByteAt(data, start);
    var o1 := start.Plus(Some(1));
    var mime := SliceAt(data, o1, typeLength);
    var o2 := o1.Plus(typeLength);
    var filenameLength := GetUint16(data, o2);
    if filenameLength.Err? then Err(filenameLength.error) else
    var o3 := o2.Plus(Some(2));
    var filename := SliceAt(data, o3, Some(filenameLength.value));
    var o4 := o3.Plus(Some(filenameLength.value));
    var width := GetUint16(data, o4);
    if width.Err? then Err(width.error) else
    var o5 := o4.Plus(Some(2));
    var height := GetUint16(data, o5);
    if height.Err? then Err(height.error) else
    var o6 := o5.Plus(Some(2));
    var dataLength := GetUint32(data, o6);
    if dataLength.Err? then Err(dataLength.error) else
    var o7 := o6.Plus(Some(4));
    var mediaData := SliceAt(data, o7, Some(dataLength.value));
    Ok((MediaItem(mime, filename, width.value, height.value, mediaData), o7.Plus(Some(dataLength.value))))
  }

  function DecodeItems(data: seq<byte>, start: Offset, count: nat): Result<(seq<MediaItem>, Offset), string>
  {
    if count == 0 then Ok(([], start))
    else
      match DecodeItems(data, start, count - 1)
      case Err(e) => Err(e)
      case Ok((media, o)) =>
        match DecodeItem(data, o)
        case Err(e) => Err(e)
        case Ok((item, o')) => Ok((media + [item], o'))
  }

  /** What `decodePostContent` returns or throws. */
  function Decode(data: seq<byte>): Result<PostContent, string>
  {
    if data == [] || data[0] != CODEC_VERSION then Err("Unsupported codec version")
    else
      var textLength := GetUint32(data, At(1));
      if textLength.Err? then Err(textLength.error) else
      var text := SliceAt(data, At(5), Some(textLength.value));
      var mediaCount := ByteAt(data, At(5 + textLength.value));
      var media := DecodeItems(data, At(5 + textLength.value + 1), if mediaCount == None then 0 else mediaCount.value);
      if media.Err? then Err(media.error) else Ok(PostContent(text, media.value.0))
  }

  /** `decodePostContent`. */
  method DecodePostContent(data: seq<byte>) returns (r: Result<PostContent, string>)
    ensures r == Decode(data)
  {
    hide DecodeItem, SliceAt, GetUint32;
    var offset := At(0);
    var version := ByteAt(data, offset);
    offset := offset.Plus(Some(1));
    if version != Some(CODEC_VERSION) {
      return Err("Unsupported codec version");
    }
    var textLength := GetUint32(data, offset);
    if textLength.Err? {
      return Err(textLength.error);
    }
    offset := offset.Plus(Some(4));
    var text := SliceAt(data, offset, Some(textLength.value));
    offset := offset.Plus(Some(textLength.value));
    var mediaCount := ByteAt(data, offset);
    offset := offset.Plus(Some(1));
    ghost var first := offset;
    var media: seq<MediaItem> := [];
    var i := 0;
    while mediaCount.Some? && i < mediaCount.value
      invariant 0 <= i && (if mediaCount.Some? then i <= mediaCount.value else i == 0)
      invariant DecodeItems(data, first, i) == Ok((media, offset))
    {
      var item := DecodeItem(data, offset);
      if item.Err? {
        ErrorStays(data, first, i + 1, mediaCount.value);
        return Err(item.error);
      }
      media := media + [item.value.0];
      offset := item.value.1;
      i := i + 1;
    }
    return Ok(PostContent(text, media));
  }

  lemma {:induction false} ErrorStays(data: seq<byte>, start: Offset, i: nat, n: nat)
    requires i <= n && DecodeItems(data, start, i).Err?
    ensures DecodeItems(data, start, n) == DecodeItems(data, start, i)
  {
    hide DecodeItem;
    if i < n {
      ErrorStays(data, start, i, n - 1);
    }
  }

  // -------------------------------------------------------------- round trip --

  /** Every length and size fits the field that carries it. */
  ghost predicate ItemFits(m: MediaItem)
  {
    && |m.mime| < 0x100 && |m.filename| < 0x1_0000 && |m.data| < 0x1_0000_0000
    && 0 <= m.width < 0x1_0000 && 0 <= m.height < 0x1_0000
  }

  ghost predicate Fits(content: PostContent)
  {
    && |content.text| < 0x1_0000_0000 && |content.media| < 0x100
    && forall i :: 0 <= i < |content.media| ==> ItemFits(content.media[i])
  }

  lemma ReadBytes(data: seq<byte>, p: nat, x: seq<byte>)
    requires Holds(data, p, x)
    ensures SliceAt(data, At(p), Some(|x|)) == x
  {
  }

  lemma ReadByte(data: seq<byte>, p: nat, x: byte)
    requires Holds(data, p, [x])
    ensures ByteAt(data, At(p)) == Some(x)
  {
    assert data[p..p + 1][0] == x;
  }

  lemma ReadUint16(data: seq<byte>, p: nat, n: u16)
    requires Holds(data, p, Be16(n))
    ensures GetUint16(data, At(p)) == Ok(n)
  {
    Be16RoundTrip(n);
  }

  lemma ReadUint32(data: seq<byte>, p: nat, n: u32)
    requires Holds(data, p, Be32(n))
    ensures GetUint32(data, At(p)) == Ok(n)
  {
    Be32RoundTrip(n);
  }

  /** Where the fields of an item stand. */
  lemma ItemFields(data: seq<byte>, p: nat, m: MediaItem)
    requires Holds(data, p, EncodeItem(m))
    ensures Holds(data, p, [Low8(|m.mime|)])
    ensures Holds(data, p + 1, m.mime)
    ensures Holds(data, p + 1 + |m.mime|, EncodeNamed(m))
  {
    hide Holds, Low8, EncodeNamed;
    HoldsParts(data, p, [Low8(|m.mime|)], m.mime + EncodeNamed(m));
    HoldsParts(data, p + 1, m.mime, EncodeNamed(m));
  }

  lemma NamedFields(data: seq<byte>, p: nat, m: MediaItem)
    requires Holds(data, p, EncodeNamed(m))
    ensures Holds(data, p, Be16(Low16(|m.filename|)))
    ensures Holds(data, p + 2, m.filename)
    ensures Holds(data, p + 2 + |m.filename|, EncodeSized(m))
  {
    hide Holds, Be16, Low16, EncodeSized;
    HoldsParts(data, p, Be16(Low16(|m.filename|)), m.filename + EncodeSized(m));
    HoldsParts(data, p + 2, m.filename, EncodeSized(m));
  }

  lemma SizedFields(data: seq<byte>, p: nat, m: MediaItem)
    requires Holds(data, p, EncodeSized(m))
    ensures Holds(data, p, Be16(Low16(m.width)))
    ensures Holds(data, p + 2, Be16(Low16(m.height)))
    ensures Holds(data, p + 4, Be32(Low32(|m.data|)))
    ensures Holds(data, p + 8, m.data)
  {
    hide Holds, Be16, Be32, Low16, Low32;
    var rest := Be32(Low32(|m.data|)) + m.data;
    HoldsParts(data, p, Be16(Low16(m.width)), Be16(Low16(m.height)) + rest);
    HoldsParts(data, p + 2, Be16(Low16(m.height)), rest);
    HoldsParts(data, p + 4, Be32(Low32(|m.data|)), m.data);
  }

  lemma ItemRoundTrip(data: seq<byte>, p: nat, m: MediaItem)
    requires ItemFits(m) && Holds(data, p, EncodeItem(m))
    ensures DecodeItem(data, At(p)) == Ok((m, At(p + |EncodeItem(m)|)))
  {
    hide Holds, Be16, Be32, GetUint16, GetUint32, SliceAt, ByteAt, EncodeItem, EncodeNamed, EncodeSized;
    var p3 := p + 1 + |m.mime| + 2;
    var p4 := p3 + |m.filename|;
    ItemFields(data, p, m);
    NamedFields(data, p3 - 2, m);
    SizedFields(data, p4, m);
    ItemSize(m);
    ReadByte(data, p, Low8(|m.mime|));
    ReadBytes(data, p + 1, m.mime);
    ReadUint16(data, p3 - 2, Low16(|m.filename|));
    ReadBytes(data, p3, m.filename);
    ReadUint16(data, p4, Low16(m.width));
    ReadUint16(data, p4 + 2, Low16(m.height));
    ReadUint32(data, p4 + 4, Low32(|m.data|));
    ReadBytes(data, p4 + 8, m.data);
  }

  lemma {:induction false} ItemsRoundTrip(data: seq<byte>, p: nat, media: seq<MediaItem>)
    requires forall i :: 0 <= i < |media| ==> ItemFits(media[i])
    requires Holds(data, p, EncodeItems(media))
    ensures DecodeItems(data, At(p), |media|) == Ok((media, At(p + |EncodeItems(media)|)))
  {
    hide EncodeItem, DecodeItem, Holds;
    if media != [] {
      var front, last := media[..|media| - 1], media[|media| - 1];
      HoldsParts(data, p, EncodeItems(front), EncodeItem(last));
      ItemsRoundTrip(data, p, front);
      ItemRoundTrip(data, p + |EncodeItems(front)|, last);
      assert front + [last] == media;
    }
  }

  /** A content that fits comes back, whatever bytes follow the encoding. */
  lemma DecodeEncode(content: PostContent, rest: seq<byte>)
    requires Fits(content)
    ensures Decode(Encode(content) + rest) == Ok(content)
  {
    hide Holds, Be32, EncodeItems, DecodeItems, GetUint32, SliceAt, ByteAt;
    var data := Encode(content) + rest;
    var s3 := content.text + [Low8(|content.media|)];
    var s2 := Be32(Low32(|content.text|)) + s3;
    WholeHolds(Encode(content), rest);
    HoldsParts(data, 0, EncodeHeader(content), EncodeItems(content.media));
    HoldsParts(data, 0, [CODEC_VERSION], s2);
    HoldsParts(data, 1, Be32(Low32(|content.text|)), s3);
    ReadUint32(data, 1, Low32(|content.text|));
    HoldsParts(data, 5, content.text, [Low8(|content.media|)]);
    ReadBytes(data, 5, content.text);
    ReadByte(data, 5 + |content.text|, Low8(|content.media|));
    ItemsRoundTrip(data, 5 + |content.text| + 1, content.media);
  }

  lemma WholeHolds(x: seq<byte>, rest: seq<byte>)
    ensures Holds(x + rest, 0, x)
  {
    assert (x + rest)[..|x|] == x;
  }

  /** Whatever is decoded fits, from well-formed or malformed bytes alike. */
  lemma DecodedFits(data: seq<byte>)
    requires Decode(data).Ok?
    ensures Fits(Decode(data).value)
  {
    hide DecodeItem, DecodeItems, GetUint32;
    var textLength: nat := GetUint32(data, At(1)).value;
    var mediaCount := ByteAt(data, At(5 + textLength));
    DecodedItemsFit(data, At(5 + textLength + 1), if mediaCount == None then 0 else mediaCount.value);
  }

  lemma {:induction false} DecodedItemsFit(data: seq<byte>, start: Offset, count: nat)
    requires DecodeItems(data, start, count).Ok?
    ensures var media := DecodeItems(data, start, count).value.0;
      |media| == count && forall i :: 0 <= i < |media| ==> ItemFits(media[i])
  {
    hide DecodeItem, ItemFits;
    if count != 0 {
      DecodedItemsFit(data, start, count - 1);
      DecodedItemFits(data, DecodeItems(data, start, count - 1).value.1);
    }
  }

  lemma DecodedItemFits(data: seq<byte>, o: Offset)
    requires DecodeItem(data, o).Ok?
    ensures ItemFits(DecodeItem(data, o).value.0)
  {
    hide GetUint16, GetUint32;
  }

  /** Encoding then decoding is the identity exactly on the contents that fit their fields. */
  lemma RoundTripExactly(content: PostContent, rest: seq<byte>)
    ensures Decode(Encode(content) + rest) == Ok(content) <==> Fits(content)
  {
    hide Decode, Encode, Fits;
    if Fits(content) {
      DecodeEncode(content, rest);
    } else if Decode(Encode(content) + rest) == Ok(content) {
      DecodedFits(Encode(content) + rest);
    }
  }

  // ------------------------------------------------------------------ layout --

  /** Where the i-th medium starts: behind version, text length, text and count, and 11 bytes of fixed fields and the
      variable ones for each medium before it. */
  function MediumStart(content: PostContent, i: nat): nat
    requires i <= |content.media|
  {
    if i == 0 then 6 + |content.text|
    else
      var m := content.media[i - 1];
      MediumStart(content, i - 1) + 11 + |m.mime| + |m.filename| + |m.data|
  }

  /** n stands at position p as a big-endian number of `width` bytes. */
  ghost predicate NumberAt(data: seq<byte>, p: nat, width: nat, n: int)
  {
    p + width <= |data| && Value(data[p..p + width], 256) == n
  }

  ghost predicate BytesAt(data: seq<byte>, p: nat, x: seq<byte>)
  {
    p + |x| <= |data| && data[p..p + |x|] == x
  }

  lemma {:induction false} MediumPlace(content: PostContent, i: nat)
    requires i <= |content.media|
    ensures MediumStart(content, i) == |EncodeHeader(content)| + |EncodeItems(content.media[..i])|
  {
    hide EncodeItem, EncodeItems;
    var media := content.media;
    if i == 0 {
      NoItems(media);
    } else {
      MediumPlace(content, i - 1);
      ItemsStep(media, i - 1);
      ItemSize(media[i - 1]);
    }
  }

  lemma MediumHolds(content: PostContent, i: nat)
    requires i < |content.media|
    ensures Holds(Encode(content), MediumStart(content, i), EncodeItem(content.media[i]))
  {
    hide EncodeItem, EncodeItems, EncodeHeader, MediumStart, Holds;
    var media := content.media;
    MediumPlace(content, i);
    ItemsStep(media, i);
    ItemsArePrefix(media, i + 1);
    var front := EncodeHeader(content) + EncodeItems(media[..i]);
    assert front + EncodeItem(media[i]) <= Encode(content);
    PrefixHolds(front, EncodeItem(media[i]), Encode(content));
  }

  lemma {:induction false} ItemsArePrefix(media: seq<MediaItem>, i: nat)
    requires i <= |media|
    ensures EncodeItems(media[..i]) <= EncodeItems(media)
    decreases |media| - i
  {
    hide EncodeItem;
    if i == |media| {
      assert media[..i] == media;
    } else {
      ItemsStep(media, i);
      ItemsArePrefix(media, i + 1);
    }
  }

  lemma PrefixHolds(front: seq<byte>, x: seq<byte>, data: seq<byte>)
    requires front + x <= data
    ensures Holds(data, |front|, x)
  {
    assert data[..|front| + |x|] == front + x;
    assert data[|front|..|front| + |x|] == (front + x)[|front|..];
  }

  /** The format of a post: version 1; text length, four bytes; text; media count, one byte. Lengths and counts that do not
      fit keep their low bits. */
  lemma PostLayout(content: PostContent)
    ensures var data := Encode(content);
      && NumberAt(data, 0, 1, 1)
      && NumberAt(data, 1, 4, |content.text| % 4_294_967_296)
      && BytesAt(data, 5, content.text)
      && NumberAt(data, 5 + |content.text|, 1, |content.media| % 256)
      && |data| == MediumStart(content, |content.media|)
  {
    hide Value, Be32, EncodeItems, Holds;
    var data := Encode(content);
    var s3 := content.text + [Low8(|content.media|)];
    var s2 := Be32(Low32(|content.text|)) + s3;
    WholeHolds(EncodeHeader(content), EncodeItems(content.media));
    HoldsParts(data, 0, [CODEC_VERSION], s2);
    HoldsParts(data, 1, Be32(Low32(|content.text|)), s3);
    HoldsParts(data, 5, content.text, [Low8(|content.media|)]);
    HoldsNumber(data, 1, Low32(|content.text|));
    HoldsByte(data, 0, CODEC_VERSION);
    HoldsByte(data, 5 + |content.text|, Low8(|content.media|));
    HoldsBytes(data, 5, content.text);
    MediumPlace(content, |content.media|);
    assert content.media[..|content.media|] == content.media;
  }

  lemma HoldsBytes(data: seq<byte>, p: nat, x: seq<byte>)
    requires Holds(data, p, x)
    ensures BytesAt(data, p, x)
  {
  }

  lemma HoldsByte(data: seq<byte>, p: nat, x: byte)
    requires Holds(data, p, [x])
    ensures NumberAt(data, p, 1, x)
  {
    ValueSnoc([], x, 256);
    assert [] + [x] == [x];
  }

  lemma HoldsShort(data: seq<byte>, p: nat, n: u16)
    requires Holds(data, p, Be16(n))
    ensures NumberAt(data, p, 2, n)
  {
    hide Value;
    FixedWidthValues(n, 0);
  }

  lemma HoldsNumber(data: seq<byte>, p: nat, n: u32)
    requires Holds(data, p, Be32(n))
    ensures NumberAt(data, p, 4, n)
  {
    hide Value;
    FixedWidthValues(0, n);
  }

  /** The format of a medium: type length, one byte; type; name length, two bytes; name; width and height, two bytes each;
      data length, four bytes; data. */
  lemma MediumLayout(content: PostContent, i: nat)
    requires i < |content.media|
    ensures var data, m, p := Encode(content), content.media[i], MediumStart(content, i);
      var q := p + 1 + |m.mime|;
      var r := q + 2 + |m.filename|;
      && NumberAt(data, p, 1, |m.mime| % 256) && BytesAt(data, p + 1, m.mime)
      && NumberAt(data, q, 2, |m.filename| % 65_536) && BytesAt(data, q + 2, m.filename)
      && NumberAt(data, r, 2, m.width % 65_536)
      && NumberAt(data, r + 2, 2, m.height % 65_536)
      && NumberAt(data, r + 4, 4, |m.data| % 4_294_967_296) && BytesAt(data, r + 8, m.data)
      && r + 8 + |m.data| == MediumStart(content, i + 1)
  {
    hide Encode, Holds, Be16, Be32, EncodeItem, EncodeNamed, EncodeSized, NumberAt, BytesAt;
    var data, m, p := Encode(content), content.media[i], MediumStart(content, i);
    var q := p + 1 + |m.mime|;
    var r := q + 2 + |m.filename|;
    MediumHolds(content, i);
    ItemFields(data, p, m);
    NamedFields(data, q, m);
    SizedFields(data, r, m);
    HoldsByte(data, p, Low8(|m.mime|));
    HoldsBytes(data, p + 1, m.mime);
    HoldsShort(data, q, Low16(|m.filename|));
    HoldsBytes(data, q + 2, m.filename);
    HoldsShort(data, r, Low16(m.width));
    HoldsShort(data, r + 2, Low16(m.height));
    HoldsNumber(data, r + 4, Low32(|m.data|));
    HoldsBytes(data, r + 8, m.data);
  }

  /** Damaged headers: another version is refused; a text length that is cut off is an error; a text that is cut off is
      what is left of it, without media. */
  lemma DamagedHeader(data: seq<byte>)
    ensures Decode(data) == Err("Unsupported codec version") <==> data == [] || data[0] != 1
    ensures data != [] && data[0] == 1 && |data| < 5 ==> Decode(data) == Err("RangeError")
    ensures |data| >= 5 && data[0] == 1 && Value(data[1..5], 256) >= |data| - 5 ==> Decode(data) == Ok(PostContent(data[5..], []))
  {
    hide DecodeItem;
    if |data| >= 5 && data[0] == 1 {
      ReadIsValue(data[1..5]);
      hide Value, FromBe32;
      var length: nat := FromBe32(data[1..5]);
      if length >= |data| - 5 {
        assert SliceAt(data, At(5), Some(length)) == data[5..];
        assert ByteAt(data, At(5 + length)) == None;
      }
    }
    MediaErrors(data);
  }

  lemma ReadIsValue(s: seq<byte>)
    requires |s| == 4
    ensures Value(s, 256) == FromBe32(s)
  {
    Be32OfBytes(s);
    FixedWidthValues(0, FromBe32(s));
  }

  lemma MediaErrors(data: seq<byte>)
    ensures forall o, n :: DecodeItems(data, o, n).Err? ==> DecodeItems(data, o, n).error == "RangeError"
  {
    forall o: Offset, n: nat ensures DecodeItems(data, o, n).Err? ==> DecodeItems(data, o, n).error == "RangeError" {
      OneMediaError(data, o, n);
    }
  }

  lemma {:induction false} OneMediaError(data: seq<byte>, o: Offset, n: nat)
    ensures DecodeItems(data, o, n).Err? ==> DecodeItems(data, o, n).error == "RangeError"
  {
    hide DecodeItem;
    if n != 0 {
      OneMediaError(data, o, n - 1);
      if DecodeItems(data, o, n - 1).Ok? {
        ItemError(data, DecodeItems(data, o, n - 1).value.1);
      }
    }
  }

  lemma ItemError(data: seq<byte>, o: Offset)
    ensures DecodeItem(data, o).Err? ==> DecodeItem(data, o).error == "RangeError"
  {
    hide FromBe16, FromBe32, SliceAt;
  }

  // --------------------------------------------------------- files cut short --

  /** What the decoder makes of a medium of which there is nothing: its offset is NaN from the first byte on, so it reads
      the sizes at the front of the file. */
  function Phantom(data: seq<byte>): MediaItem
    requires |data| >= 2
  {
    MediaItem([], [], FromBe16(data[..2]), FromBe16(data[..2]), [])
  }

  lemma PastEnd(data: seq<byte>, o: Offset)
    requires |data| >= 6 && (o.NaN? || o.pos >= |data|)
    ensures DecodeItem(data, o) == Ok((Phantom(data), NaN))
  {
    hide FromBe16, FromBe32;
    assert ByteAt(data, o) == None;
    assert data[0..2] == data[..2];
  }

  lemma {:induction false} Phantoms(data: seq<byte>, start: Offset, media: seq<MediaItem>, o: Offset, n: nat)
    requires |data| >= 6 && (o.NaN? || o.pos >= |data|)
    requires DecodeItems(data, start, |media|) == Ok((media, o))
    ensures DecodeItems(data, start, |media| + n) == Ok((media + seq(n, _ => Phantom(data)), if n == 0 then o else NaN))
  {
    hide DecodeItem, Phantom;
    if n == 0 {
      assert media + [] == media;
    } else {
      Phantoms(data, start, media, o, n - 1);
      PastEnd(data, if n == 1 then o else NaN);
      assert media + seq(n - 1, _ => Phantom(data)) + [Phantom(data)] == media + seq(n, _ => Phantom(data));
    }
  }

  lemma HoldsInFront(full: seq<byte>, cut: nat, p: nat, x: seq<byte>)
    requires cut <= |full| && Holds(full, p, x) && p + |x| <= cut
    ensures Holds(full[..cut], p, x)
  {
    assert full[..cut][p..p + |x|] == full[p..p + |x|];
  }

  /** Version, text and media count are read from a file that is cut behind them. */
  lemma CutHeader(content: PostContent, cut: nat)
    requires Fits(content) && MediumStart(content, 0) <= cut <= |Encode(content)|
    ensures var data := Encode(content)[..cut];
      && data[0] == CODEC_VERSION && data[1] == |content.text| / 16_777_216
      && GetUint32(data, At(1)) == Ok(|content.text|)
      && SliceAt(data, At(5), Some(|content.text|)) == content.text
      && ByteAt(data, At(5 + |content.text|)) == Some(|content.media|)
  {
    hide Be32, Holds, EncodeItems, GetUint32, SliceAt, ByteAt;
    var full := Encode(content);
    var data := full[..cut];
    var s3 := content.text + [Low8(|content.media|)];
    var s2 := Be32(Low32(|content.text|)) + s3;
    WholeHolds(EncodeHeader(content), EncodeItems(content.media));
    HoldsInFront(full, cut, 0, EncodeHeader(content));
    HoldsParts(data, 0, [CODEC_VERSION], s2);
    HoldsParts(data, 1, Be32(Low32(|content.text|)), s3);
    HoldsParts(data, 5, content.text, [Low8(|content.media|)]);
    ReadByte(data, 0, CODEC_VERSION);
    ReadUint32(data, 1, Low32(|content.text|));
    ReadBytes(data, 5, content.text);
    ReadByte(data, 5 + |content.text|, Low8(|content.media|));
    FirstBytes(data, CODEC_VERSION, |content.text|);
  }

  lemma FirstBytes(data: seq<byte>, x: byte, n: u32)
    requires Holds(data, 0, [x]) && Holds(data, 1, Be32(n))
    ensures |data| >= 5 && data[0] == x && data[1] == n / 16_777_216
  {
    assert data[0..1][0] == x;
    assert data[1..5][0] == Be32(n)[0];
  }

  /** The first i media are read from a file that is cut behind them. */
  lemma CutItems(content: PostContent, i: nat, cut: nat)
    requires Fits(content) && i <= |content.media| && MediumStart(content, i) <= cut <= |Encode(content)|
    ensures DecodeItems(Encode(content)[..cut], At(MediumStart(content, 0)), i)
         == Ok((content.media[..i], At(MediumStart(content, i))))
  {
    hide Holds, EncodeItems, EncodeHeader, EncodeItem, DecodeItems;
    var media := content.media;
    var front := EncodeHeader(content);
    MediumPlace(content, 0);
    MediumPlace(content, i);
    NoItems(media);
    ItemsArePrefix(media, i);
    assert front + EncodeItems(media[..i]) <= Encode(content);
    PrefixHolds(front, EncodeItems(media[..i]), Encode(content));
    HoldsInFront(Encode(content), cut, |front|, EncodeItems(media[..i]));
    ItemsRoundTrip(Encode(content)[..cut], |front|, media[..i]);
  }

  /** What is read of a medium of which all but some data is there. */
  lemma CutFields(full: seq<byte>, p: nat, m: MediaItem, c: nat)
    requires ItemFits(m) && Holds(full, p, EncodeItem(m)) && c <= |m.data|
    requires p + 11 + |m.mime| + |m.filename| + c <= |full|
    ensures var p2 := p + 1 + |m.mime|;
      var p4 := p2 + 2 + |m.filename|;
      var data := full[..p4 + 8 + c];
      && ByteAt(data, At(p)) == Some(|m.mime|) && SliceAt(data, At(p + 1), Some(|m.mime|)) == m.mime
      && GetUint16(data, At(p2)) == Ok(|m.filename|) && SliceAt(data, At(p2 + 2), Some(|m.filename|)) == m.filename
      && GetUint16(data, At(p4)) == Ok(m.width) && GetUint16(data, At(p4 + 2)) == Ok(m.height)
      && GetUint32(data, At(p4 + 4)) == Ok(|m.data|) && SliceAt(data, At(p4 + 8), Some(|m.data|)) == m.data[..c]
  {
    hide Holds, Be16, Be32, GetUint16, GetUint32, SliceAt, ByteAt, EncodeItem, EncodeNamed, EncodeSized;
    var p2 := p + 1 + |m.mime|;
    var p4 := p2 + 2 + |m.filename|;
    var cut := p4 + 8 + c;
    var data := full[..cut];
    ItemFields(full, p, m);
    NamedFields(full, p2, m);
    SizedFields(full, p4, m);
    HoldsInFront(full, cut, p, [Low8(|m.mime|)]);
    ReadByte(data, p, Low8(|m.mime|));
    HoldsInFront(full, cut, p + 1, m.mime);
    ReadBytes(data, p + 1, m.mime);
    HoldsInFront(full, cut, p2, Be16(Low16(|m.filename|)));
    ReadUint16(data, p2, Low16(|m.filename|));
    HoldsInFront(full, cut, p2 + 2, m.filename);
    ReadBytes(data, p2 + 2, m.filename);
    HoldsInFront(full, cut, p4, Be16(Low16(m.width)));
    ReadUint16(data, p4, Low16(m.width));
    HoldsInFront(full, cut, p4 + 2, Be16(Low16(m.height)));
    ReadUint16(data, p4 + 2, Low16(m.height));
    HoldsInFront(full, cut, p4 + 4, Be32(Low32(|m.data|)));
    ReadUint32(data, p4 + 4, Low32(|m.data|));
    CutSlice(full, p4 + 8, m.data, c);
  }

  lemma CutItem(full: seq<byte>, p: nat, m: MediaItem, c: nat)
    requires ItemFits(m) && Holds(full, p, EncodeItem(m)) && c <= |m.data|
    requires p + 11 + |m.mime| + |m.filename| + c <= |full|
    ensures DecodeItem(full[..p + 11 + |m.mime| + |m.filename| + c], At(p))
         == Ok((m.(data := m.data[..c]), At(p + |EncodeItem(m)|)))
  {
    hide Holds, GetUint16, GetUint32, SliceAt, ByteAt, EncodeItem;
    CutFields(full, p, m, c);
    ItemSize(m);
  }

  lemma CutSlice(full: seq<byte>, p: nat, x: seq<byte>, c: nat)
    requires Holds(full, p, x) && c <= |x|
    ensures SliceAt(full[..p + c], At(p), Some(|x|)) == x[..c]
  {
    assert full[..p + c][p..p + c] == full[p..p + |x|][..c];
  }

  /** What is returned for each medium that is not there: no text, no data, and both sizes are the first two bytes of the
      file, version and top byte of the text length. */
  function Lost(content: PostContent): MediaItem
  {
    MediaItem([], [], 256 + |content.text| / 16_777_216, 256 + |content.text| / 16_777_216, [])
  }

  /** A file cut off where a medium starts: the media before it are returned, and a phantom for each of the others. */
  lemma CutBetweenMedia(content: PostContent, i: nat)
    requires Fits(content) && i <= |content.media|
    ensures MediumStart(content, i) <= |Encode(content)|
    ensures var n := |content.media| - i;
      Decode(Encode(content)[..MediumStart(content, i)]) ==
      Ok(PostContent(content.text, content.media[..i] + seq(n, _ => Lost(content))))
  {
    hide Encode, Decode, DecodeItems;
    var cut := MediumStart(content, i);
    MediumOrder(content, i);
    MediumInside(content, i);
    CutItems(content, i, cut);
    CutDecode(content, cut, content.media[..i], At(cut));
  }

  /** A file cut off in the data of a medium: that medium comes back with what is left of its data. */
  lemma CutInData(content: PostContent, i: nat, c: nat)
    requires Fits(content) && i < |content.media| && c <= |content.media[i].data|
    ensures MediumStart(content, i + 1) <= |Encode(content)|
    ensures var m, n := content.media[i], |content.media| - i - 1;
      Decode(Encode(content)[..MediumStart(content, i + 1) - (|m.data| - c)]) ==
      Ok(PostContent(content.text, content.media[..i] + [m.(data := m.data[..c])] + seq(n, _ => Lost(content))))
  {
    hide Encode, Decode, DecodeItem, EncodeItem, Holds;
    var m, p := content.media[i], MediumStart(content, i);
    var cut := p + 11 + |m.mime| + |m.filename| + c;
    MediumOrder(content, i);
    MediumInside(content, i + 1);
    CutItems(content, i, cut);
    MediumHolds(content, i);
    CutItem(Encode(content), p, m, c);
    ItemSize(m);
    CutDecode(content, cut, content.media[..i] + [m.(data := m.data[..c])], At(p + |EncodeItem(m)|));
  }

  lemma {:induction false} MediumOrder(content: PostContent, i: nat)
    requires i <= |content.media|
    ensures MediumStart(content, 0) <= MediumStart(content, i)
  {
    if i != 0 {
      MediumOrder(content, i - 1);
    }
  }

  lemma MediumInside(content: PostContent, i: nat)
    requires i <= |content.media|
    ensures MediumStart(content, i) <= |Encode(content)|
  {
    hide EncodeItems, EncodeHeader, MediumStart;
    MediumPlace(content, i);
    ItemsArePrefix(content.media, i);
  }

  /** The decoder on a cut file, from the point where it has passed the end. */
  lemma CutDecode(content: PostContent, cut: nat, media: seq<MediaItem>, o: Offset)
    requires Fits(content) && MediumStart(content, 0) <= cut <= |Encode(content)| && |media| <= |content.media|
    requires DecodeItems(Encode(content)[..cut], At(MediumStart(content, 0)), |media|) == Ok((media, o))
    requires o.NaN? || o.pos >= cut
    ensures var n := |content.media| - |media|;
      Decode(Encode(content)[..cut]) == Ok(PostContent(content.text, media + seq(n, _ => Lost(content))))
  {
    hide Encode, DecodeItems, DecodeItem, GetUint32, SliceAt, ByteAt;
    var data, n := Encode(content)[..cut], |content.media| - |media|;
    CutHeader(content, cut);
    Phantoms(data, At(MediumStart(content, 0)), media, o, n);
    assert Phantom(data) == Lost(content) by {
      assert data[..2][0] == 1 && data[..2][1] == data[1];
    }
    assert seq(n, _ => Phantom(data)) == seq(n, _ => Lost(content));
  }
}
