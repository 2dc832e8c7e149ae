/** `getImageInfo` of thumbnail-service.py: recognise a GIF, PNG, legacy PNG or
    JPEG header in a raw byte string and read the image's pixel size from it.

    The outcome is either the `(content_type, width, height)` triple the Python
    function returns, or the exception it lets escape. */
module Sniffer {
  import opened Bytes

  /** The content type reported; `Unknown` is the empty string. */
  datatype Format = Unknown | Gif | Png | Jpeg

  function ContentType(f: Format): string
  {
    match f
    case Unknown => ""
    case Gif => "image/gif"
    case Png => "image/png"
    case Jpeg => "image/jpeg"
  }

  /** The returned triple; a size that was not found is -1. */
  datatype Info = Info(format: Format, width: int, height: int)

  /** Exceptions that escape `getImageInfo` (it catches only `struct.error`
      and `ValueError`). */
  datatype Exception =
    | TypeError          // `ord` applied to something that is not one character
    | UnboundLocalError  // `w`/`h` read although no frame header assigned them

  datatype Sniffed = Ok(info: Info) | Raised(exception: Exception)

  const GIF87A: seq<Byte> := [0x47, 0x49, 0x46, 0x38, 0x37, 0x61]
  const GIF89A: seq<Byte> := [0x47, 0x49, 0x46, 0x38, 0x39, 0x61]
  const PNG_SIGNATURE: seq<Byte> := [0x89, 0x50, 0x4E, 0x47, 0x0D, 0x0A, 0x1A, 0x0A]
  const IHDR: seq<Byte> := [0x49, 0x48, 0x44, 0x52]
  /** JPEG start-of-image marker. */
  const SOI: seq<Byte> := [0xFF, 0xD8]
  /** JPEG start-of-scan marker code. */
  const SOS: Byte := 0xDA
  const PADDING: Byte := 0xFF

  // ---------------------------------------------------------------------------
  // Branch guards, in the order the source tries them

  predicate IsGif(d: seq<Byte>)
  {
    |d| >= 10 && (d[..6] == GIF87A || d[..6] == GIF89A)
  }

  predicate IsPng(d: seq<Byte>)
  {
    |d| >= 24 && d[..8] == PNG_SIGNATURE && d[12..16] == IHDR
  }

  predicate IsLegacyPng(d: seq<Byte>)
  {
    |d| >= 16 && d[..8] == PNG_SIGNATURE
  }

  predicate IsJpeg(d: seq<Byte>)
  {
    |d| >= 2 && d[..2] == SOI
  }

  /** GIF logical screen width and height, little-endian at offsets 6 and 8. */
  function GifInfo(d: seq<Byte>): (i: Info)
    requires IsGif(d)
    ensures i.format == Gif && 0 <= i.width < 0x1_0000 && 0 <= i.height < 0x1_0000
  {
    Info(Gif, LittleEndian16(d[6..8]), LittleEndian16(d[8..10]))
  }

  /** PNG IHDR width and height, big-endian at offsets 16 and 20. */
  function PngInfo(d: seq<Byte>): (i: Info)
    requires IsPng(d)
    ensures i.format == Png && 0 <= i.width < 0x1_0000_0000 && 0 <= i.height < 0x1_0000_0000
  {
    Info(Png, BigEndian32(d[16..20]), BigEndian32(d[20..24]))
  }

  /** The fallback for signatures without IHDR at offset 12: offsets 8 and 12. */
  function LegacyPngInfo(d: seq<Byte>): (i: Info)
    requires IsLegacyPng(d)
    ensures i.format == Png && 0 <= i.width < 0x1_0000_0000 && 0 <= i.height < 0x1_0000_0000
  {
    Info(Png, BigEndian32(d[8..12]), BigEndian32(d[12..16]))
  }

  // ---------------------------------------------------------------------------
  // The JPEG marker scan, as a function of the bytes not yet consumed

  predicate IsStartOfFrame(marker: Byte)
  {
    0xC0 <= marker <= 0xC3
  }

  /** What is left after `StringIO.read(n)`: a negative count reads to the end,
      a count past the end stops there. */
  function Drop(s: seq<Byte>, n: int): (t: seq<Byte>)
    ensures |t| <= |s|
    ensures 0 <= n <= |s| ==> |t| == |s| - n
    ensures n < 0 || n > |s| ==> t == []
  {
    if 0 <= n <= |s| then s[n..] else []
  }

  /** What `Drop` leaves is always the tail of the stream: the bytes are
      consumed from the front and the rest keep their order. */
  lemma DropIsSuffix(s: seq<Byte>, n: int)
    ensures Drop(s, n) == s[|s| - |Drop(s, n)|..]
  {
  }

  /** The length of the run of 0xFF fill bytes at the head of `s`. */
  function PaddingLength(s: seq<Byte>): (n: nat)
    ensures n <= |s|
    ensures forall i :: 0 <= i < n ==> s[i] == PADDING
    ensures n < |s| ==> s[n] != PADDING
  {
    if |s| > 0 && s[0] == PADDING then 1 + PaddingLength(s[1..]) else 0
  }

  /** The stream after the fill bytes. */
  function DropPadding(s: seq<Byte>): seq<Byte>
  {
    s[PaddingLength(s)..]
  }

  /** The outcome of the JPEG loop when `s` is `b` followed by the unread bytes.
      Whatever it returns normally reports `image/jpeg`, with either no size or
      a size that fits in 16 bits. */
  function MarkerScan(s: seq<Byte>): (r: Sniffed)
    ensures r.Ok? ==> r.info.format == Jpeg
    ensures r.Ok? ==> (r.info.width == -1 && r.info.height == -1)
                      || (0 <= r.info.width < 0x1_0000 && 0 <= r.info.height < 0x1_0000)
    decreases |s|
  {
    if |s| == 0 || s[0] == SOS then
      // the loop ends without a frame header: `int(w)` on an unbound local
      Raised(UnboundLocalError)
    else if s[0] != PADDING then
      // `b = jpeg.read` (no call): the next `ord(b)` gets a bound method
      Raised(TypeError)
    else
      var t := DropPadding(s);
      if |t| == 0 then
        // the fill ran to the end of the buffer: `ord('')`
        Raised(TypeError)
      else if IsStartOfFrame(t[0]) then
        // skip the segment length and sample precision, then height, width
        var rest := Drop(t[1..], 3);
        if |rest| < 4 then Ok(Info(Jpeg, -1, -1))  // struct.error, caught
        else Ok(Info(Jpeg, BigEndian16(rest[2..4]), BigEndian16(rest[..2])))
      else if |t| < 3 then
        Ok(Info(Jpeg, -1, -1))  // struct.error on the length field, caught
      else
        MarkerScan(Drop(t[3..], BigEndian16(t[1..3]) - 2))
  }

  /** The value of `getImageInfo(d)`: the first branch whose guard holds wins. */
  function ImageInfo(d: seq<Byte>): (r: Sniffed)
    ensures r.Raised? ==> IsJpeg(d)
    ensures r.Ok? && r.info.format == Unknown ==> r.info.width == -1 && r.info.height == -1
    ensures r.Ok? ==> -1 <= r.info.width && -1 <= r.info.height
  {
    if IsGif(d) then Ok(GifInfo(d))
    else if IsPng(d) then Ok(PngInfo(d))
    else if IsLegacyPng(d) then Ok(LegacyPngInfo(d))
    else if IsJpeg(d) then MarkerScan(d[2..])
    else Ok(Info(Unknown, -1, -1))
  }

  // ---------------------------------------------------------------------------
  // The imperative scanner

  /** Python 2's `StringIO` over a fixed buffer: a read cursor. */
  class StringIO {
    const buf: seq<Byte>
    var pos: nat

    constructor (s: seq<Byte>)
      ensures buf == s && pos == 0
    {
      buf := s;
      pos := 0;
    }

    ghost predicate Valid()
      reads this
    {
      pos <= |buf|
    }

    /** The bytes not read yet. */
    ghost function Unread(): seq<Byte>
      reads this
      requires Valid()
    {
      buf[pos..]
    }

    /** `read(n)`: the next `n` bytes, fewer at the end, all of them when `n < 0`. */
    method Read(n: int) returns (chunk: seq<Byte>)
      requires Valid()
      modifies this
      ensures Valid()
      ensures pos == if n < 0 then |buf| else Min(old(pos) + n, |buf|)
      ensures chunk == buf[old(pos)..pos]
      ensures chunk + Unread() == old(Unread())
      ensures Unread() == Drop(old(Unread()), n)
    {
      var next := if n < 0 then |buf| else Min(pos + n, |buf|);
      chunk := buf[pos..next];
      pos := next;
    }
  }

  /** One turn of the outer loop when the marker is a frame header. */
  lemma FrameStep(s: seq<Byte>, rest: seq<Byte>)
    requires |s| > 0 && s[0] == PADDING
    requires |DropPadding(s)| > 0 && IsStartOfFrame(DropPadding(s)[0])
    requires rest == Drop(DropPadding(s)[1..], 3)
    ensures |rest| < 4 ==> MarkerScan(s) == Ok(Info(Jpeg, -1, -1))
    ensures |rest| >= 4 ==>
      MarkerScan(s) == Ok(Info(Jpeg, BigEndian16(rest[2..4]), BigEndian16(rest[..2])))
  {
  }

  /** One turn of the outer loop when the marker starts any other segment. */
  lemma SegmentStep(s: seq<Byte>, rest: seq<Byte>)
    requires |s| > 0 && s[0] == PADDING
    requires |DropPadding(s)| > 0 && !IsStartOfFrame(DropPadding(s)[0])
    requires rest == DropPadding(s)[1..]
    ensures |rest| < 2 ==> MarkerScan(s) == Ok(Info(Jpeg, -1, -1))
    ensures |rest| >= 2 ==> MarkerScan(s) == MarkerScan(Drop(rest[2..], BigEndian16(rest[..2]) - 2))
    ensures |rest| >= 2 ==> rest[2..] == DropPadding(s)[3..] && rest[..2] == DropPadding(s)[1..3]
  {
    var t := DropPadding(s);
    if |rest| >= 2 {
      assert rest[2..] == t[3..];
      assert rest[..2] == t[1..3];
    }
  }

  /** The outer loop stops at the end of the buffer or at 0xDA. */
  lemma LoopExit(s: seq<Byte>)
    requires |s| == 0 || s[0] == SOS
    ensures MarkerScan(s) == Raised(UnboundLocalError)
  {
  }

  /** Any other byte where a marker's 0xFF should be. */
  lemma StrayByte(s: seq<Byte>)
    requires |s| > 0 && s[0] != SOS && s[0] != PADDING
    ensures MarkerScan(s) == Raised(TypeError)
  {
  }

  /** Fill bytes that run to the end of the buffer. */
  lemma PaddingToEnd(s: seq<Byte>)
    requires |s| > 0 && s[0] == PADDING && DropPadding(s) == []
    ensures MarkerScan(s) == Raised(TypeError)
  {
  }

  /** Lines 62-63: skip the frame header's length and precision, then unpack
      height and width; a short read is the caught `struct.error`. */
  method ReadFrameSize(jpeg: StringIO) returns (r: Sniffed)
    requires jpeg.Valid()
    modifies jpeg
    ensures jpeg.Valid()
    ensures var rest := Drop(old(jpeg.Unread()), 3);
      r == if |rest| < 4 then Ok(Info(Jpeg, -1, -1))
           else Ok(Info(Jpeg, BigEndian16(rest[2..4]), BigEndian16(rest[..2])))
    ensures jpeg.Unread() == Drop(Drop(old(jpeg.Unread()), 3), 4)
  {
    var header := jpeg.Read(3);
    ghost var rest := jpeg.Unread();
    var size := jpeg.Read(4);
    if |size| != 4 {
      return Ok(Info(Jpeg, -1, -1));
    }
    assert size == rest[..4];
    assert size[..2] == rest[..2] && size[2..4] == rest[2..4];
    r := Ok(Info(Jpeg, BigEndian16(size[2..4]), BigEndian16(size[..2])));
  }

  /** Line 66: unpack the segment length and skip the rest of the segment; a
      short read of the length is the caught `struct.error`. */
  method SkipSegment(jpeg: StringIO) returns (truncated: bool)
    requires jpeg.Valid()
    modifies jpeg
    ensures jpeg.Valid()
    ensures truncated <==> |old(jpeg.Unread())| < 2
    ensures truncated ==> jpeg.Unread() == []
    ensures !truncated ==> var rest := old(jpeg.Unread());
      jpeg.Unread() == Drop(rest[2..], BigEndian16(rest[..2]) - 2)
  {
    ghost var rest := jpeg.Unread();
    var lengthField := jpeg.Read(2);
    if |lengthField| != 2 {
      return true;
    }
    assert lengthField == rest[..2] && jpeg.Unread() == rest[2..];
    var payload := jpeg.Read(BigEndian16(lengthField) - 2);
    truncated := false;
  }

  /** Line 60: read past the 0xFF fill that starts at `b`; the byte after it
      (or nothing, at the end of the buffer) is returned. */
  method SkipFill(jpeg: StringIO, b0: seq<Byte>) returns (b: seq<Byte>)
    requires jpeg.Valid() && b0 == [PADDING]
    modifies jpeg
    ensures jpeg.Valid()
    ensures |b| <= 1 && (b == [] ==> jpeg.Unread() == [])
    ensures b + jpeg.Unread() == DropPadding(b0 + old(jpeg.Unread()))
  {
    ghost var segment := b0 + jpeg.Unread();
    b := b0;
    while |b| == 1 && b[0] == PADDING
      invariant jpeg.Valid()
      invariant |b| <= 1 && (b == [] ==> jpeg.Unread() == [])
      invariant DropPadding(b + jpeg.Unread()) == DropPadding(segment)
      decreases |b + jpeg.Unread()|
    {
      b := jpeg.Read(1);
    }
  }

  /** One turn of the outer loop (lines 59-67), entered with a marker byte `b`
      that is not 0xDA. It either finishes the scan with `r` or returns the byte
      read after the segment, the scan's outcome unchanged and the stream shorter. */
  method ScanSegment(jpeg: StringIO, b: seq<Byte>) returns (done: bool, r: Sniffed, next: seq<Byte>)
    requires jpeg.Valid() && |b| == 1 && b[0] != SOS
    modifies jpeg
    ensures jpeg.Valid()
    ensures done ==> r == MarkerScan(b + old(jpeg.Unread()))
    ensures !done ==> |next| <= 1 && (next == [] ==> jpeg.Unread() == [])
    ensures !done ==> MarkerScan(next + jpeg.Unread()) == MarkerScan(b + old(jpeg.Unread()))
    ensures !done ==> |next + jpeg.Unread()| < |b + old(jpeg.Unread())|
    ensures !done ==>
              var t := DropPadding(b + old(jpeg.Unread()));
              |t| >= 3 && !IsStartOfFrame(t[0])
              && next + jpeg.Unread() == Drop(t[3..], BigEndian16(t[1..3]) - 2)
  {
    ghost var segment := b + jpeg.Unread();
    if b[0] != PADDING {
      // `b = jpeg.read` binds the method, and `ord(b)` raises
      StrayByte(segment);
      return true, Raised(TypeError), [];
    }
    var marker := SkipFill(jpeg, b);
    if marker == [] {
      PaddingToEnd(segment);
      return true, Raised(TypeError), [];  // `ord('')`
    }
    ghost var rest := jpeg.Unread();
    assert (marker + rest)[1..] == rest;
    if IsStartOfFrame(marker[0]) {
      FrameStep(segment, Drop(rest, 3));
      r := ReadFrameSize(jpeg);
      return true, r, [];
    }
    SegmentStep(segment, rest);
    var truncated := SkipSegment(jpeg);
    if truncated {
      return true, Ok(Info(Jpeg, -1, -1)), [];
    }
    ghost var after := jpeg.Unread();
    ghost var t := DropPadding(segment);
    assert after == Drop(t[3..], BigEndian16(t[1..3]) - 2);
    next := jpeg.Read(1);
    assert next + jpeg.Unread() == after;
    done, r := false, Ok(Info(Jpeg, -1, -1));
  }

  /** The JPEG branch: a cursor over `data` that has consumed the SOI marker,
      driven by the outer loop of the source. */
  method ScanJpeg(data: seq<Byte>) returns (r: Sniffed)
    requires |data| >= 2
    ensures r == MarkerScan(data[2..])
  {
    var jpeg := new StringIO(data);
    var soi := jpeg.Read(2);
    var b := jpeg.Read(1);
    while |b| == 1 && b[0] != SOS
      invariant jpeg.Valid()
      invariant |b| <= 1 && (b == [] ==> jpeg.Unread() == [])
      invariant MarkerScan(b + jpeg.Unread()) == MarkerScan(data[2..])
      decreases |b + jpeg.Unread()|
    {
      var done;
      done, r, b := ScanSegment(jpeg, b);
      if done {
        return;
      }
    }
    LoopExit(b + jpeg.Unread());
    r := Raised(UnboundLocalError);
  }

  /** `getImageInfo(data)`. */
  method GetImageInfo(data: seq<Byte>) returns (r: Sniffed)
    ensures r == ImageInfo(data)
  {
    var size := |data|;
    if size >= 10 && (data[..6] == GIF87A || data[..6] == GIF89A) {
      r := Ok(Info(Gif, LittleEndian16(data[6..8]), LittleEndian16(data[8..10])));
    } else if size >= 24 && data[..8] == PNG_SIGNATURE && data[12..16] == IHDR {
      r := Ok(Info(Png, BigEndian32(data[16..20]), BigEndian32(data[20..24])));
    } else if size >= 16 && data[..8] == PNG_SIGNATURE {
      r := Ok(Info(Png, BigEndian32(data[8..12]), BigEndian32(data[12..16])));
    } else if size >= 2 && data[..2] == SOI {
      r := ScanJpeg(data);
    } else {
      r := Ok(Info(Unknown, -1, -1));
    }
  }
}
