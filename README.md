# Thumbnail service: header sniffer and crop/resize planner

This project models the core of `thumbnail-service.py`, a small App Engine
service that fetches an image and returns a JPEG thumbnail. The core has two
parts.

- **`getImageInfo`**: it reads the format and pixel size from the first bytes of
  an image. The checks run in a fixed order:
  - GIF: the logical screen descriptor, little-endian 16-bit;
  - PNG with `IHDR` at offset 12: big-endian 32-bit fields at offsets 16 and 20;
  - older PNG: offsets 8 and 12;
  - JPEG: a marker-segment scan after SOI `FF D8` that takes height and then
    width from an SOF0–SOF3 segment.
- **`generate_thumbnail` geometry**: the optional explicit crop box is turned
  into fractions of the image size. The image is then resized by width or by
  height, depending on how its aspect ratio compares with the target's. When
  there was no explicit crop, a centred crop trims the resized image to the
  target aspect ratio.

Files:
- `bytes.dfy` (`Bytes`): bytes, and the `struct` layouts `<H`, `>H` and `>L` with their encoders.
- `sniffer.dfy` (`Sniffer`):
  - `ImageInfo` and `MarkerScan`, which specify the sniffer;
  - a `StringIO` class, a byte string with a read cursor;
  - the imperative JPEG scanner `ScanJpeg` and the whole-function method `GetImageInfo`, each proved equal to its specification.
- `sniffer_props.dfy` (`SnifferProperties`): detection order, field offsets, round trips from header builders, and the JPEG padding, skip, truncation and error behaviour.
- `planner.dfy` (`Planner`): the two-stage plan of engine steps (`Crop`, `ResizeToWidth`, `ResizeToHeight`) over `real`. It includes an ideal engine model, used only in lemmas, to state what a plan produces.
- `thumbnail.dfy` (`Thumbnail`): `generate_thumbnail` end to end. Both measurements and both plan stages are chained in the source's order.

How the sniffer's outcomes are modelled, following the code:
- `getImageInfo` returns a `Sniffed` value: either `Ok(Info(format, width, height))` or `Raised(exception)`, for an exception that escapes the function.
- A short read of the SOF payload or of a segment length raises `struct.error`. The code catches it, so the result is JPEG with size -1 × -1.
- A loop that ends at end of data or at `0xDA` without an SOF reaches `int(w)` with `w` unbound. That raises `UnboundLocalError`.
- A non-`0xFF` byte where a marker is expected makes line 59 bind `b` to the method `jpeg.read` instead of calling it, so the next `ord(b)` raises `TypeError`. `ord('')` at end of data inside the padding loop raises the same error.
- `StringIO.read(n)` reads to the end when `n` is negative and is clamped at the end otherwise. This is `Drop` in the model, so a segment length below 2 skips to the end.

Behaviour of the code that the model keeps:
- The JPEG branch can raise instead of returning: `UnboundLocalError` when no
  SOF is found before the end or `0xDA`, and `TypeError` at a stray byte or at
  padding that runs to the end.
- `generate_thumbnail` has no guard against the -1 × -1 that `getImageInfo`
  returns for an unrecognised image. Those values flow through the arithmetic,
  with a source ratio of 1.0 (`Thumbnail.UnrecognisedImage`). Only a zero
  divisor fails, as `Err(DivisionByZero)`.
- With an explicit crop box, line 91 chooses the resize side from the size read
  at line 80, before the crop, and line 102 then skips the second crop. The
  thumbnail can come out smaller than the target (`Planner.CropBoxMissesTarget`).

## Model

| member | source | states |
|---|---|---|
| Bytes.LittleEndian16 | thumbnail-service.py:29 | `struct.unpack("<H")` of two bytes lies in [0, 65535] |
| Bytes.BigEndian16 | thumbnail-service.py:63 | `struct.unpack(">H")` of two bytes lies in [0, 65535] |
| Bytes.BigEndian32 | thumbnail-service.py:39 | `struct.unpack(">L")` of four bytes lies in [0, 2^32) |
| Bytes.EncodeLittleEndian16 | thumbnail-service.py:29 | two bytes that the `<H` read decodes back to the given value |
| Bytes.EncodeBigEndian16 | thumbnail-service.py:63 | two bytes that the `>H` read decodes back to the given value |
| Bytes.EncodeBigEndian32 | thumbnail-service.py:47 | four bytes that the `>L` read decodes back to the given value |
| Bytes.LittleEndian16Bijective | thumbnail-service.py:29 | encoding the decoded `<H` value gives the same two bytes back |
| Bytes.BigEndian16Bijective | thumbnail-service.py:63 | encoding the decoded `>H` value gives the same two bytes back |
| Bytes.BigEndian32Bijective | thumbnail-service.py:39 | encoding the decoded `>L` value gives the same four bytes back |
| Sniffer.PaddingLength | thumbnail-service.py:60 | the number of leading `0xFF` bytes: all bytes before it are `0xFF`, and the byte at it, if any, is not |
| Sniffer.Drop | thumbnail-service.py:66 | `StringIO.read(n)` consumes at most what is left: exactly `n` bytes when they are there, and everything when `n` is negative or past the end; that what remains is the tail of the stream is `Sniffer.DropIsSuffix` |
| Sniffer.DropIsSuffix | thumbnail-service.py:66 | after any `read(n)` the unread bytes are the tail of the stream, in order: bytes are consumed from the front only |
| Sniffer.GifInfo | thumbnail-service.py:26-31 | the GIF branch reports `image/gif` with width and height in [0, 65535]; the offsets are stated by `SnifferProperties.GifSize` |
| Sniffer.PngInfo | thumbnail-service.py:36-41 | the IHDR branch reports `image/png` with 32-bit width and height; the offsets are stated by `SnifferProperties.PngSize` |
| Sniffer.LegacyPngInfo | thumbnail-service.py:44-49 | the older-PNG branch reports `image/png` with 32-bit width and height; the offsets are stated by `SnifferProperties.LegacyPngFallback` |
| Sniffer.ImageInfo | thumbnail-service.py:18-75 | the value of `getImageInfo`: only a JPEG buffer can raise, an unknown format has size -1 × -1, and no size is below -1; which branch answers is stated by `SnifferProperties.DetectionOrder` |
| Sniffer.MarkerScan | thumbnail-service.py:56-73 | the JPEG scan of the bytes after SOI; any size it returns is JPEG and either -1 × -1 or both sides in [0, 65535] |
| Sniffer.StringIO.constructor | thumbnail-service.py:54 | a fresh reader over the whole buffer, cursor at 0 |
| Sniffer.StringIO.Read | thumbnail-service.py:55-67 | `read(n)` returns the next `n` bytes, or the rest of the buffer when `n` is negative or too large; the unread part is what was unread minus that chunk |
| Sniffer.FrameStep | thumbnail-service.py:61-64 | at an SOF marker the scan skips 3 bytes and reads height, then width, or gives -1 × -1 when fewer than 4 bytes remain |
| Sniffer.SegmentStep | thumbnail-service.py:65-67 | at any other marker the scan reads a big-endian length L and goes on after skipping L−2 bytes, or gives -1 × -1 when the length is cut short |
| Sniffer.LoopExit | thumbnail-service.py:58-69 | end of data or `0xDA` at a marker position raises `UnboundLocalError` |
| Sniffer.StrayByte | thumbnail-service.py:59 | a byte other than `0xFF` or `0xDA` at a marker position raises `TypeError` |
| Sniffer.PaddingToEnd | thumbnail-service.py:60 | data that ends inside `0xFF` padding raises `TypeError` |
| Sniffer.SkipFill | thumbnail-service.py:60 | the padding loop leaves exactly the first non-`0xFF` byte in `b` and the stream after it |
| Sniffer.ReadFrameSize | thumbnail-service.py:62-64 | the SOF reads give the frame's height and width, or -1 × -1 on a short read, and leave the cursor after `read(3)` and `read(4)` |
| Sniffer.SkipSegment | thumbnail-service.py:66 | reports a short length field exactly when fewer than 2 bytes remain, and then leaves the cursor at the end; otherwise skips length−2 bytes |
| Sniffer.ScanSegment | thumbnail-service.py:58-67 | one turn of the marker loop either finishes with the scan's outcome, or skips exactly the one segment after the padding (marker, 2-byte big-endian length L, then L-2 bytes) and leaves the next byte plus the unread stream equal to what follows it, with the scan's outcome unchanged |
| Sniffer.ScanJpeg | thumbnail-service.py:54-73 | the cursor-driven scan returns exactly `MarkerScan` of the bytes after SOI |
| Sniffer.GetImageInfo | thumbnail-service.py:18-75 | the imperative `getImageInfo` returns exactly `ImageInfo` |
| SnifferProperties.SignaturesDisjoint | thumbnail-service.py:26-52 | no buffer has two of the GIF, PNG and JPEG signatures; a PNG with `IHDR` also passes the older-PNG test |
| SnifferProperties.DetectionOrder | thumbnail-service.py:18-75 | GIF exactly when the GIF test passes, PNG exactly when the PNG signature test passes, a JPEG outcome exactly when the JPEG test passes, and `('', -1, -1)` otherwise |
| SnifferProperties.ContentTypeReported | thumbnail-service.py:23-53 | the content type returned is the one the answering branch assigns (lines 28, 38, 46, 53), or `''` when none answers |
| SnifferProperties.ShortBufferUnknown | thumbnail-service.py:21-75 | fewer than 2 bytes are always unknown with size -1 × -1 |
| SnifferProperties.GifSize | thumbnail-service.py:26-31 | GIF width is `d[6] + 256·d[7]` and height is `d[8] + 256·d[9]`, both in [0, 65535] |
| SnifferProperties.PngSize | thumbnail-service.py:36-41 | PNG with `IHDR` takes big-endian 32-bit width and height at offsets 16 and 20 |
| SnifferProperties.LegacyPngFallback | thumbnail-service.py:44-49 | a PNG signature without `IHDR` at offset 12 takes width and height at offsets 8 and 12 |
| SnifferProperties.GifRoundTrip | thumbnail-service.py:26-31 | a GIF header built from any width and height reads back as exactly that size |
| SnifferProperties.PngRoundTrip | thumbnail-service.py:36-41 | a PNG `IHDR` header built from any 32-bit width and height reads back as exactly that size |
| SnifferProperties.LegacyPngRoundTrip | thumbnail-service.py:44-49 | an older PNG header reads back as its size, unless the height bytes spell `IHDR` and the PNG branch takes over |
| SnifferProperties.FillConsumed | thumbnail-service.py:60 | the padding loop consumes exactly k bytes of k `0xFF`s before a non-`0xFF` byte |
| SnifferProperties.FillAbsorbed | thumbnail-service.py:60 | extra `0xFF` bytes before a marker are skipped along with the rest |
| SnifferProperties.SameAfterFill | thumbnail-service.py:58-60 | two streams with the same marker and bytes after the padding scan alike |
| SnifferProperties.PaddingTolerated | thumbnail-service.py:60 | any amount of extra `0xFF` padding before a marker does not change the scan |
| SnifferProperties.SegmentSkipped | thumbnail-service.py:65-67 | a well-formed non-SOF segment is skipped entirely |
| SnifferProperties.SegmentsSkipped | thumbnail-service.py:58-67 | any sequence of well-formed non-SOF segments is skipped entirely |
| SnifferProperties.FrameRead | thumbnail-service.py:61-64 | an SOF segment reports its height and width in that order from the bytes after the 3 skipped |
| SnifferProperties.JpegBuffer | thumbnail-service.py:52-56 | a buffer of SOI and segments is sniffed as the scan of what follows the segments |
| SnifferProperties.JpegRoundTrip | thumbnail-service.py:52-69 | SOI, any well-formed segments and an SOF frame read back as JPEG with that frame's width and height |
| SnifferProperties.FrameCutShort | thumbnail-service.py:61-71 | at an SOF marker with fewer than 4 size bytes after the 3 skipped, the scan gives JPEG with -1 × -1 |
| SnifferProperties.TruncatedFrame | thumbnail-service.py:61-71 | an SOF frame cut short before its 4 size bytes gives JPEG with -1 × -1 |
| SnifferProperties.TruncatedLength | thumbnail-service.py:66-71 | a segment cut short inside its length field gives JPEG with -1 × -1 |
| SnifferProperties.LengthSkipsToEnd | thumbnail-service.py:66-69 | a length below 2 or past the end skips to the end, and the loop then raises `UnboundLocalError` |
| SnifferProperties.NoFrameRaises | thumbnail-service.py:58-69 | segments followed by the end or by `0xDA` raise `UnboundLocalError` |
| SnifferProperties.StrayByteRaises | thumbnail-service.py:59 | a stray byte at a marker position after the segments raises `TypeError` |
| Planner.Trunc | thumbnail-service.py:92-94 | Python's `int()`: the result is within 1 of the value, rounded toward zero |
| Planner.PlanPreResize | thumbnail-service.py:83-94 | the first stage is one or two steps: the explicit crop exactly when the plan is marked cropped, and a resize last; meaning stated by `Planner.PreResizeFails`, `Planner.ExplicitCropFirst` and `Planner.ResizeChoice` |
| Planner.PlanPostResize | thumbnail-service.py:101-116 | the second stage is at most one crop, only when nothing was cropped before, and it is symmetric (left + right = 1, top + bottom = 1); meaning stated by `Planner.PostResizeSkipped`, `Planner.PostResizeFails` and `Planner.PostResizeCentred` |
| Planner.PlanThumbnail | thumbnail-service.py:83-116 | the whole plan is the first stage's steps followed by at most one more; the step it adds is stated by `Planner.PostResizeCentred`, and the size the two chained stages produce by `Planner.ThumbnailHasTargetSize` |
| Planner.PreResizeFails | thumbnail-service.py:84-91 | the first stage fails exactly when a crop box divides by a zero side, or when a non-zero target height meets a zero source height |
| Planner.ExplicitCropFirst | thumbnail-service.py:83-88 | with all four coordinates truthy, the first step is the box as fractions, and each fraction times its side gives the coordinate back; the plan is marked cropped; without a box, the resize is the only step |
| Planner.ResizeChoice | thumbnail-service.py:90-94 | resize to `int(t_width)` exactly when there is no target height or the source ratio is below the target's, otherwise to `int(t_height)` |
| Planner.ResizeCoversTarget | thumbnail-service.py:90-94 | without a crop box, for a positive source and whole positive targets, an aspect-keeping resize matches the target on one side and is at least the target on the other (with a box it need not: `Planner.CropBoxMissesTarget`) |
| Planner.PostResizeSkipped | thumbnail-service.py:102 | there is no second crop exactly when the image was cropped explicitly or a target side is zero |
| Planner.PostResizeFails | thumbnail-service.py:102-105 | when the second crop runs (nothing cropped, both targets non-zero), it fails exactly when the resized height is zero, or the width is zero and the target ratio negative |
| Planner.WideCrop | thumbnail-service.py:104-105 | for a wider image the width offset lies in (0, 1/2) and the kept width is `t_width/t_height` times the height |
| Planner.TallCrop | thumbnail-service.py:107-108 | for a narrower image the height offset lies in [0, 1/2) and the kept height is `t_height/t_width` times the width |
| Planner.PostResizeCentred | thumbnail-service.py:101-116 | the second crop is centred (left + right = 1, top + bottom = 1), offsets lie in [0, 1/2), the trimmed side is chosen by ratio, and the kept region has exactly the target aspect ratio |
| Planner.ExplicitCropSkipsPostCrop | thumbnail-service.py:86-102 | a plan that starts with an explicit crop has no second crop |
| Planner.CropBoxMissesTarget | thumbnail-service.py:83-102 | box (100, 50, 300, 350) on 800 × 400 is cropped to 200 × 300 and then resized by height to a width of 83⅓ < 125, and no second crop follows, whatever size the engine reports |
| Planner.CropOnCover | thumbnail-service.py:101-116 | on an image that covers the target with one side equal, the second crop yields exactly the target size |
| Planner.ThumbnailHasTargetSize | thumbnail-service.py:83-116 | with no crop box, a positive source and whole positive targets, resizing and then cropping as planned gives exactly the target size |
| Planner.ExplicitCropExample | thumbnail-service.py:83-94 | box (100, 50, 300, 250) on 800 × 400 gives `Crop(0.125, 0.125, 0.375, 0.625)` then a resize to height 125 |
| Planner.ResizeThenCropExample | thumbnail-service.py:90-116 | 800 × 400 to 125 × 125 resizes to height 125, and at 250 × 125 crops to (0.25, 0, 0.75, 1) |
| Thumbnail.GenerateThumbnail | thumbnail-service.py:77-119 | a `getImageInfo` exception escapes exactly when the first call raises, or when the first stage succeeds and the second call raises, and it is that call's exception; a division by zero in the first stage ends the call before the second measurement, and one in the second stage gives `ZeroDivision` too |
| Thumbnail.PlanOfMeasuredSizes | thumbnail-service.py:80-116 | when both measurements succeed, the steps are the two-stage plan on the sizes read |
| Thumbnail.UnrecognisedImage | thumbnail-service.py:80-94 | an unrecognised image is planned with size -1 × -1, so a target ratio of at most 1 resizes by height |

## Left out

- The `MainPage` request handler: cache headers, the 304 response, the domain allow-list, `urlfetch`, and the parse of `thumb_data` into floats. It only passes floats to `generate_thumbnail`, which is why the planner divides over `real`.
- The WSGI application and `main`: framework wiring.
- The App Engine `images` operations and JPEG encoding. They are foreign pixel code. The planner returns the steps it would issue, and the engine's output is a parameter (`resized` in `Thumbnail.GenerateThumbnail`). The idealised `Planner.Transform` is used only in lemmas: exact resize, no rounding to whole pixels.
- Floating-point rounding: all geometry is over exact reals.
- `logging` calls: they have side effects only.
- Python's `ZeroDivisionError`: the model returns `Err(DivisionByZero)` (and `Thumbnail.ZeroDivision`) at exactly the divisions that would raise it.
- The `except ValueError` clause: no statement in the JPEG branch can raise `ValueError`, so it has no counterpart.
- The `str(data)` conversion: inputs are modelled as byte sequences already.
- Planner.ResizeCoversTarget: assumes whole-number targets, so that `int(t)` equals `t`, and an engine that keeps the aspect ratio exactly.
- Planner.ResizeCoversTarget: also requires no crop box. With a box, line 91 picks the resize side from the uncropped size read at line 80, so the resize can fall short of the target (`Planner.CropBoxMissesTarget`).
- Planner.ThumbnailHasTargetSize: same assumptions, and no crop box for the same reason. With a box, line 102 skips the second crop, and the result can be smaller than the target.
- Thumbnail.GenerateThumbnail: its contract pins every exception and division-by-zero outcome, in both stages. The planned steps themselves are stated by `Thumbnail.PlanOfMeasuredSizes`.
- The defaults `t_width=125, t_height=125` of line 77: `Planner.Request` has no defaults, so a caller passes 125.0 for a side it omits (as `MainPage` does for the height when `thumb_data` has one field).
