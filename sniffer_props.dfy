/** What `getImageInfo` promises: the order in which formats are tried, the
    fields each one is read from, and round trips from headers built with a
    known size back to that size. */
module SnifferProperties {
  import opened Bytes
  import opened Sniffer

  // ---------------------------------------------------------------------------
  // Detection order and fallback

  /** The three signatures exclude one another (their first bytes differ), so
      the order matters only between the two PNG layouts. */
  lemma SignaturesDisjoint(d: seq<Byte>)
    ensures !(IsGif(d) && IsLegacyPng(d))
    ensures !(IsGif(d) && IsJpeg(d))
    ensures !(IsLegacyPng(d) && IsJpeg(d))
    ensures IsPng(d) ==> IsLegacyPng(d)
  {
    if IsGif(d) { assert d[0] == d[..6][0]; }
    if IsLegacyPng(d) { assert d[0] == d[..8][0]; }
    if IsJpeg(d) { assert d[0] == d[..2][0]; }
  }

  /** Which branch answers, for every buffer: GIF first, then PNG in either
      layout, then JPEG (the only branch that can raise), else no format and
      no size. */
  lemma DetectionOrder(d: seq<Byte>)
    ensures (ImageInfo(d).Ok? && ImageInfo(d).info.format == Gif) <==> IsGif(d)
    ensures (ImageInfo(d).Ok? && ImageInfo(d).info.format == Png) <==> IsLegacyPng(d)
    ensures (ImageInfo(d).Raised? || ImageInfo(d).info.format == Jpeg) <==> IsJpeg(d)
    ensures ImageInfo(d) == Ok(Info(Unknown, -1, -1))
            <==> !IsGif(d) && !IsLegacyPng(d) && !IsJpeg(d)
  {
    SignaturesDisjoint(d);
  }

  /** The content type returned is the one the answering branch assigns:
      `image/gif`, `image/png` for either PNG layout, `image/jpeg`, or the empty
      string when no branch answers. */
  lemma ContentTypeReported(d: seq<Byte>)
    requires ImageInfo(d).Ok?
    ensures ContentType(ImageInfo(d).info.format)
            == if IsGif(d) then "image/gif"
               else if IsLegacyPng(d) then "image/png"
               else if IsJpeg(d) then "image/jpeg"
               else ""
  {
    DetectionOrder(d);
  }

  /** Buffers too short for every header are unknown, never read out of range. */
  lemma ShortBufferUnknown(d: seq<Byte>)
    requires |d| < 2
    ensures ImageInfo(d) == Ok(Info(Unknown, -1, -1))
  {
  }

  // ---------------------------------------------------------------------------
  // GIF and PNG fields

  /** GIF: width and height are the little-endian words at offsets 6 and 8. */
  lemma GifSize(d: seq<Byte>)
    requires IsGif(d)
    ensures ImageInfo(d) == Ok(Info(Gif, d[6] as int + 0x100 * d[7] as int, d[8] as int + 0x100 * d[9] as int))
    ensures 0 <= ImageInfo(d).info.width < 0x1_0000 && 0 <= ImageInfo(d).info.height < 0x1_0000
  {
  }

  /** PNG with IHDR at offset 12: the big-endian words at offsets 16 and 20. */
  lemma PngSize(d: seq<Byte>)
    requires IsPng(d)
    ensures ImageInfo(d) == Ok(Info(Png, BigEndian32(d[16..20]), BigEndian32(d[20..24])))
  {
    SignaturesDisjoint(d);
  }

  /** The PNG signature without IHDR at offset 12 (or a buffer under 24 bytes)
      falls back to the words at offsets 8 and 12. */
  lemma LegacyPngFallback(d: seq<Byte>)
    requires IsLegacyPng(d) && !IsPng(d)
    ensures ImageInfo(d) == Ok(Info(Png, BigEndian32(d[8..12]), BigEndian32(d[12..16])))
  {
    SignaturesDisjoint(d);
  }

  // ---------------------------------------------------------------------------
  // GIF and PNG headers with a known size

  function GifHeader(version: seq<Byte>, width: int, height: int): seq<Byte>
    requires 0 <= width < 0x1_0000 && 0 <= height < 0x1_0000
  {
    version + EncodeLittleEndian16(width) + EncodeLittleEndian16(height)
  }

  lemma GifRoundTrip(version: seq<Byte>, width: int, height: int, tail: seq<Byte>)
    requires version == GIF87A || version == GIF89A
    requires 0 <= width < 0x1_0000 && 0 <= height < 0x1_0000
    ensures ImageInfo(GifHeader(version, width, height) + tail) == Ok(Info(Gif, width, height))
  {
    var d := GifHeader(version, width, height) + tail;
    assert d[..6] == version;
    assert d[6..8] == EncodeLittleEndian16(width);
    assert d[8..10] == EncodeLittleEndian16(height);
  }

  /** Signature, a 4-byte chunk length, "IHDR", then width and height. */
  function PngHeader(chunkLength: seq<Byte>, width: int, height: int): seq<Byte>
    requires 0 <= width < 0x1_0000_0000 && 0 <= height < 0x1_0000_0000
  {
    PNG_SIGNATURE + chunkLength + IHDR + EncodeBigEndian32(width) + EncodeBigEndian32(height)
  }

  lemma PngRoundTrip(chunkLength: seq<Byte>, width: int, height: int, tail: seq<Byte>)
    requires |chunkLength| == 4
    requires 0 <= width < 0x1_0000_0000 && 0 <= height < 0x1_0000_0000
    ensures ImageInfo(PngHeader(chunkLength, width, height) + tail) == Ok(Info(Png, width, height))
  {
    var d := PngHeader(chunkLength, width, height) + tail;
    assert d[..8] == PNG_SIGNATURE;
    assert d[12..16] == IHDR;
    assert d[16..20] == EncodeBigEndian32(width);
    assert d[20..24] == EncodeBigEndian32(height);
    PngSize(d);
  }

  /** Signature, then width and height straight away. */
  function LegacyPngHeader(width: int, height: int): seq<Byte>
    requires 0 <= width < 0x1_0000_0000 && 0 <= height < 0x1_0000_0000
  {
    PNG_SIGNATURE + EncodeBigEndian32(width) + EncodeBigEndian32(height)
  }

  /** The legacy layout is read back unless its height happens to spell "IHDR"
      and at least 8 more bytes follow, in which case the modern reading wins. */
  lemma LegacyPngRoundTrip(width: int, height: int, tail: seq<Byte>)
    requires 0 <= width < 0x1_0000_0000 && 0 <= height < 0x1_0000_0000
    requires EncodeBigEndian32(height) != IHDR || |tail| < 8
    ensures ImageInfo(LegacyPngHeader(width, height) + tail) == Ok(Info(Png, width, height))
  {
    var d := LegacyPngHeader(width, height) + tail;
    assert d[..8] == PNG_SIGNATURE;
    assert d[8..12] == EncodeBigEndian32(width);
    assert d[12..16] == EncodeBigEndian32(height);
    LegacyPngFallback(d);
  }

  // ---------------------------------------------------------------------------
  // JPEG marker segments

  /** A segment that is not a frame header: `fill` extra 0xFF bytes, the marker
      code, the big-endian length (payload + 2) and the payload. */
  datatype Segment = Segment(fill: nat, marker: Byte, payload: seq<Byte>)

  predicate ValidSegment(g: Segment)
  {
    g.marker != PADDING && !IsStartOfFrame(g.marker) && |g.payload| + 2 < 0x1_0000
  }

  function EncodeSegment(g: Segment): seq<Byte>
    requires ValidSegment(g)
  {
    Repeat(PADDING, 1 + g.fill) + [g.marker] + EncodeBigEndian16(|g.payload| + 2) + g.payload
  }

  function EncodeSegments(gs: seq<Segment>): seq<Byte>
    requires forall i :: 0 <= i < |gs| ==> ValidSegment(gs[i])
  {
    if gs == [] then [] else EncodeSegment(gs[0]) + EncodeSegments(gs[1..])
  }

  /** A frame header (SOF0-SOF3): fill, marker, three bytes the scanner skips
      (length and sample precision), then height and width. */
  datatype Frame = Frame(fill: nat, marker: Byte, skipped: seq<Byte>, height: int, width: int)

  predicate ValidFrame(f: Frame)
  {
    IsStartOfFrame(f.marker) && |f.skipped| == 3
    && 0 <= f.height < 0x1_0000 && 0 <= f.width < 0x1_0000
  }

  function EncodeFrame(f: Frame): seq<Byte>
    requires ValidFrame(f)
  {
    Repeat(PADDING, 1 + f.fill) + [f.marker] + f.skipped
      + EncodeBigEndian16(f.height) + EncodeBigEndian16(f.width)
  }

  /** A run of `k` fill bytes is exactly what the padding loop consumes. */
  lemma {:induction false} FillConsumed(k: nat, s: seq<Byte>)
    requires s == [] || s[0] != PADDING
    ensures PaddingLength(Repeat(PADDING, k) + s) == k
    ensures DropPadding(Repeat(PADDING, k) + s) == s
  {
    if k > 0 {
      FillConsumed(k - 1, s);
      assert (Repeat(PADDING, k) + s)[1..] == Repeat(PADDING, k - 1) + s;
    }
    assert (Repeat(PADDING, k) + s)[k..] == s;
  }

  /** Two streams that start with fill and agree after it scan alike. */
  lemma SameAfterFill(s1: seq<Byte>, s2: seq<Byte>)
    requires s1 != [] && s1[0] == PADDING && s2 != [] && s2[0] == PADDING
    requires DropPadding(s1) == DropPadding(s2)
    ensures MarkerScan(s1) == MarkerScan(s2)
  {
  }

  /** Fill in front of fill makes one longer run. */
  lemma {:induction false} FillAbsorbed(k: nat, s: seq<Byte>)
    ensures DropPadding(Repeat(PADDING, k) + s) == DropPadding(s)
  {
    var x := Repeat(PADDING, k) + s;
    if k == 0 {
      assert x == s;
    } else {
      FillAbsorbed(k - 1, s);
      assert x[1..] == Repeat(PADDING, k - 1) + s;
      assert PaddingLength(x) == 1 + PaddingLength(x[1..]);
      assert x[PaddingLength(x)..] == x[1..][PaddingLength(x[1..])..];
    }
  }

  /** Extra 0xFF bytes in front of a marker do not change the scan. */
  lemma PaddingTolerated(k: nat, s: seq<Byte>)
    requires s != [] && s[0] == PADDING
    ensures MarkerScan(Repeat(PADDING, k) + s) == MarkerScan(s)
  {
    FillAbsorbed(k, s);
    assert (Repeat(PADDING, k) + s)[0] == PADDING;
    SameAfterFill(Repeat(PADDING, k) + s, s);
  }

  /** A whole non-frame segment is skipped: its length field is read and the
      payload it announces is passed over. */
  lemma SegmentSkipped(g: Segment, rest: seq<Byte>)
    requires ValidSegment(g)
    ensures MarkerScan(EncodeSegment(g) + rest) == MarkerScan(rest)
  {
    var length := EncodeBigEndian16(|g.payload| + 2);
    var t := [g.marker] + length + g.payload + rest;
    assert EncodeSegment(g) + rest == Repeat(PADDING, 1 + g.fill) + t;
    FillConsumed(1 + g.fill, t);
    assert t[1..3] == length;
    assert t[3..] == g.payload + rest;
    assert Drop(t[3..], |g.payload|) == rest;
  }

  lemma EncodeSegmentsFirst(gs: seq<Segment>, rest: seq<Byte>)
    requires gs != [] && forall i :: 0 <= i < |gs| ==> ValidSegment(gs[i])
    ensures EncodeSegments(gs) + rest == EncodeSegment(gs[0]) + (EncodeSegments(gs[1..]) + rest)
  {
  }

  lemma {:induction false} SegmentsSkipped(gs: seq<Segment>, rest: seq<Byte>)
    requires forall i :: 0 <= i < |gs| ==> ValidSegment(gs[i])
    ensures MarkerScan(EncodeSegments(gs) + rest) == MarkerScan(rest)
  {
    if gs != [] {
      var later := EncodeSegments(gs[1..]) + rest;
      SegmentsSkipped(gs[1..], rest);
      assert MarkerScan(later) == MarkerScan(rest);
      SegmentSkipped(gs[0], later);
      EncodeSegmentsFirst(gs, rest);
      assert EncodeSegments(gs) + rest == EncodeSegment(gs[0]) + later;
    } else {
      assert EncodeSegments(gs) + rest == rest;
    }
  }

  /** A frame header yields the height field first and the width field second. */
  lemma FrameRead(f: Frame, rest: seq<Byte>)
    requires ValidFrame(f)
    ensures MarkerScan(EncodeFrame(f) + rest) == Ok(Info(Jpeg, f.width, f.height))
  {
    var h := EncodeBigEndian16(f.height);
    var w := EncodeBigEndian16(f.width);
    var t := [f.marker] + f.skipped + h + w + rest;
    assert EncodeFrame(f) + rest == Repeat(PADDING, 1 + f.fill) + t;
    FillConsumed(1 + f.fill, t);
    assert t[1..] == f.skipped + (h + w + rest);
    var size := Drop(t[1..], 3);
    assert size == h + w + rest;
    assert size[..2] == h && size[2..4] == w;
  }

  /** Everything after the start-of-image marker is the scan's input. */
  lemma JpegBuffer(gs: seq<Segment>, rest: seq<Byte>)
    requires forall i :: 0 <= i < |gs| ==> ValidSegment(gs[i])
    ensures ImageInfo(SOI + EncodeSegments(gs) + rest) == MarkerScan(rest)
  {
    var d := SOI + EncodeSegments(gs) + rest;
    assert d[..2] == SOI && d[2..] == EncodeSegments(gs) + rest;
    SignaturesDisjoint(d);
    SegmentsSkipped(gs, rest);
  }

  /** SOI, any segments, then a frame header: the frame's size is reported. */
  lemma JpegRoundTrip(gs: seq<Segment>, f: Frame, tail: seq<Byte>)
    requires forall i :: 0 <= i < |gs| ==> ValidSegment(gs[i])
    requires ValidFrame(f)
    ensures ImageInfo(SOI + EncodeSegments(gs) + EncodeFrame(f) + tail)
            == Ok(Info(Jpeg, f.width, f.height))
  {
    assert SOI + EncodeSegments(gs) + EncodeFrame(f) + tail
        == SOI + EncodeSegments(gs) + (EncodeFrame(f) + tail);
    JpegBuffer(gs, EncodeFrame(f) + tail);
    FrameRead(f, tail);
  }

  // ---------------------------------------------------------------------------
  // JPEG failure paths

  /** A frame header cut short before its four size bytes are complete gives
      `image/jpeg` with no size (the caught `struct.error`). */
  lemma FrameCutShort(fill: nat, marker: Byte, partial: seq<Byte>)
    requires IsStartOfFrame(marker) && |partial| < 7
    ensures MarkerScan(Repeat(PADDING, 1 + fill) + ([marker] + partial)) == Ok(Info(Jpeg, -1, -1))
  {
    var t := [marker] + partial;
    FillConsumed(1 + fill, t);
    assert t[1..] == partial;
    assert |Drop(partial, 3)| < 4;
  }

  /** The same after any well-formed segments, from the whole buffer. */
  lemma TruncatedFrame(gs: seq<Segment>, fill: nat, marker: Byte, partial: seq<Byte>)
    requires forall i :: 0 <= i < |gs| ==> ValidSegment(gs[i])
    requires IsStartOfFrame(marker) && |partial| < 7
    ensures ImageInfo(SOI + EncodeSegments(gs) + (Repeat(PADDING, 1 + fill) + [marker] + partial))
            == Ok(Info(Jpeg, -1, -1))
  {
    var frame := Repeat(PADDING, 1 + fill) + [marker] + partial;
    assert frame == Repeat(PADDING, 1 + fill) + ([marker] + partial);
    FrameCutShort(fill, marker, partial);
    JpegBuffer(gs, frame);
  }

  /** A segment marker with fewer than two bytes after it: no size either. */
  lemma TruncatedLength(gs: seq<Segment>, fill: nat, marker: Byte, partial: seq<Byte>)
    requires forall i :: 0 <= i < |gs| ==> ValidSegment(gs[i])
    requires marker != PADDING && !IsStartOfFrame(marker) && |partial| < 2
    ensures ImageInfo(SOI + EncodeSegments(gs) + (Repeat(PADDING, 1 + fill) + [marker] + partial))
            == Ok(Info(Jpeg, -1, -1))
  {
    var t := [marker] + partial;
    assert Repeat(PADDING, 1 + fill) + [marker] + partial == Repeat(PADDING, 1 + fill) + t;
    FillConsumed(1 + fill, t);
    JpegBuffer(gs, Repeat(PADDING, 1 + fill) + t);
  }

  /** A length field below 2 makes the skip read to the end, as does one that
      runs past the end; the loop then stops with no frame, and `getImageInfo`
      raises. */
  lemma LengthSkipsToEnd(fill: nat, marker: Byte, length: int, tail: seq<Byte>)
    requires marker != PADDING && !IsStartOfFrame(marker)
    requires 0 <= length < 0x1_0000 && (length < 2 || length - 2 >= |tail|)
    ensures MarkerScan(Repeat(PADDING, 1 + fill) + [marker] + EncodeBigEndian16(length) + tail)
            == Raised(UnboundLocalError)
  {
    var t := [marker] + EncodeBigEndian16(length) + tail;
    assert Repeat(PADDING, 1 + fill) + [marker] + EncodeBigEndian16(length) + tail
        == Repeat(PADDING, 1 + fill) + t;
    FillConsumed(1 + fill, t);
    assert t[1..3] == EncodeBigEndian16(length);
    assert |t[3..]| == |tail|;
  }

  /** Segments that end the buffer, or reach a 0xDA where a marker's 0xFF is
      expected, without a frame header: `getImageInfo` raises. */
  lemma NoFrameRaises(gs: seq<Segment>, tail: seq<Byte>)
    requires forall i :: 0 <= i < |gs| ==> ValidSegment(gs[i])
    requires tail == [] || tail[0] == SOS
    ensures ImageInfo(SOI + EncodeSegments(gs) + tail) == Raised(UnboundLocalError)
  {
    JpegBuffer(gs, tail);
  }

  /** Any other byte where a marker's 0xFF is expected also raises. */
  lemma StrayByteRaises(gs: seq<Segment>, stray: Byte, tail: seq<Byte>)
    requires forall i :: 0 <= i < |gs| ==> ValidSegment(gs[i])
    requires stray != PADDING && stray != SOS
    ensures ImageInfo(SOI + EncodeSegments(gs) + ([stray] + tail)) == Raised(TypeError)
  {
    JpegBuffer(gs, [stray] + tail);
  }
}
