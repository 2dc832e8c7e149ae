/** The crop and resize decisions of `generate_thumbnail` in thumbnail-service.py.

    The source drives the App Engine image engine directly; here each decision
    is a step in a plan. The plan has two halves because the source re-reads the
    image size after the resize: `PlanPreResize` (explicit crop, then resize by
    width or by height) and `PlanPostResize` (the centred crop to the target
    aspect ratio), which takes the resized size as a parameter. */
module Planner {

  datatype Option<T> = None | Some(value: T)

  /** One engine call: a crop to a rectangle given as fractions of the current
      width and height, or a resize to a pixel width or height that keeps the
      aspect ratio. */
  datatype Step =
    | Crop(left: real, top: real, right: real, bottom: real)
    | ResizeToWidth(width: int)
    | ResizeToHeight(height: int)

  /** The source divides by a size of zero. */
  datatype PlanError = DivisionByZero

  datatype Result<T> = Ok(value: T) | Err(error: PlanError)

  /** The arguments of `generate_thumbnail` besides the image: target size and
      the optional crop box in source pixels. */
  datatype Request = Request(
    targetWidth: real, targetHeight: real,
    x: Option<real>, y: Option<real>, x2: Option<real>, y2: Option<real>)

  /** The steps before the resized image is measured again, and whether one of
      them was the explicit crop. */
  datatype PreResize = PreResize(steps: seq<Step>, cropped: bool)

  /** Python's `int(v)`: truncation toward zero. */
  function Trunc(v: real): (n: int)
    ensures 0.0 <= v ==> n as real <= v < n as real + 1.0
    ensures v < 0.0 ==> n as real - 1.0 < v <= n as real
  {
    if 0.0 <= v then v.Floor else -((-v).Floor)
  }

  /** Python truthiness of an optional number: present and not zero. */
  predicate Truthy(c: Option<real>)
  {
    c.Some? && c.value != 0.0
  }

  /** `x and y and x2 and y2`. */
  predicate HasCropBox(req: Request)
  {
    Truthy(req.x) && Truthy(req.y) && Truthy(req.x2) && Truthy(req.y2)
  }

  /** Lines 83-94: the optional explicit crop, then the resize. The resize is by
      width when there is no target height or the source is narrower than the
      target, and by height otherwise. */
  function PlanPreResize(width: int, height: int, req: Request): (r: Result<PreResize>)
    ensures r.Ok? ==>
              1 <= |r.value.steps| <= 2
              && !r.value.steps[|r.value.steps| - 1].Crop?
              && (|r.value.steps| == 2 <==> r.value.cropped)
              && (r.value.cropped ==> r.value.steps[0].Crop?)
  {
    var w, h := width as real, height as real;
    if HasCropBox(req) && (width == 0 || height == 0) then Err(DivisionByZero)
    else if req.targetHeight != 0.0 && height == 0 then Err(DivisionByZero)
    else
      var crop := if HasCropBox(req)
        then [Crop(req.x.value / w, req.y.value / h, req.x2.value / w, req.y2.value / h)]
        else [];
      var resize := if req.targetHeight == 0.0 || w / h < req.targetWidth / req.targetHeight
        then ResizeToWidth(Trunc(req.targetWidth))
        else ResizeToHeight(Trunc(req.targetHeight));
      Ok(PreResize(crop + [resize], HasCropBox(req)))
  }

  /** Lines 101-116: unless the image was cropped explicitly or a target side is
      zero, trim the resized image symmetrically, across its width when it is
      wider than the target ratio and across its height otherwise. */
  function PlanPostResize(cropped: bool, width: real, height: real, targetWidth: real, targetHeight: real)
    : (r: Result<seq<Step>>)
    ensures r.Ok? ==> |r.value| <= 1
    ensures r.Ok? && |r.value| == 1 ==>
              r.value[0].Crop? && !cropped
              && r.value[0].left + r.value[0].right == 1.0
              && r.value[0].top + r.value[0].bottom == 1.0
  {
    if cropped || targetHeight == 0.0 || targetWidth == 0.0 then Ok([])
    else if height == 0.0 then Err(DivisionByZero)
    else if width / height > targetWidth / targetHeight then
      if width == 0.0 then Err(DivisionByZero)
      else
        var c := (width - targetWidth / targetHeight * height) / width / 2.0;
        Ok([Crop(c, 0.0, 1.0 - c, 1.0)])
    else
      var c := (height - targetHeight / targetWidth * width) / height / 2.0;
      Ok([Crop(0.0, c, 1.0, 1.0 - c)])
  }

  /** The whole plan of `generate_thumbnail`, given the size the engine reports
      after the first transforms. */
  function PlanThumbnail(width: int, height: int, req: Request, resizedWidth: int, resizedHeight: int)
    : (r: Result<seq<Step>>)
    ensures r.Ok? ==>
              var pre := PlanPreResize(width, height, req);
              pre.Ok? && |pre.value.steps| <= |r.value| <= |pre.value.steps| + 1
              && r.value[..|pre.value.steps|] == pre.value.steps
  {
    match PlanPreResize(width, height, req)
    case Err(e) => Err(e)
    case Ok(pre) =>
      match PlanPostResize(pre.cropped, resizedWidth as real, resizedHeight as real,
                           req.targetWidth, req.targetHeight)
      case Err(e) => Err(e)
      case Ok(post) => Ok(pre.steps + post)
  }

  // ---------------------------------------------------------------------------
  // What the engine does with a step, for reasoning about plans: crops keep the
  // given fraction of each side; a resize sets one side and scales the other by
  // the same factor (no rounding).

  datatype Size = Size(width: real, height: real)

  function Transform(s: Size, step: Step): Size
    requires s.width > 0.0 && s.height > 0.0
  {
    match step
    case Crop(l, t, r, b) => Size((r - l) * s.width, (b - t) * s.height)
    case ResizeToWidth(n) => Size(n as real, n as real * s.height / s.width)
    case ResizeToHeight(n) => Size(n as real * s.width / s.height, n as real)
  }

  predicate IsWhole(v: real)
  {
    v == v.Floor as real
  }

  // ---------------------------------------------------------------------------
  // Stage one

  /** The plan fails exactly where the source divides by zero. */
  lemma PreResizeFails(width: int, height: int, req: Request)
    ensures PlanPreResize(width, height, req).Err?
            <==> (HasCropBox(req) && (width == 0 || height == 0))
                 || (req.targetHeight != 0.0 && height == 0)
  {
  }

  /** With a crop box, the first step is that box as fractions of the source
      size (each fraction times the side gives the pixel coordinate back), and
      the plan records that it cropped; without one, the resize is the only step. */
  lemma ExplicitCropFirst(width: int, height: int, req: Request)
    requires PlanPreResize(width, height, req).Ok?
    ensures var pre := PlanPreResize(width, height, req).value;
      pre.cropped == HasCropBox(req)
      && |pre.steps| == (if HasCropBox(req) then 2 else 1)
      && !pre.steps[|pre.steps| - 1].Crop?
      && (HasCropBox(req) ==>
            pre.steps[0].Crop?
            && pre.steps[0].left * width as real == req.x.value
            && pre.steps[0].top * height as real == req.y.value
            && pre.steps[0].right * width as real == req.x2.value
            && pre.steps[0].bottom * height as real == req.y2.value)
  {
  }

  /** The resize is by width exactly when there is no target height or the
      source's aspect ratio is below the target's, and by height otherwise; the
      pixel count is the truncated target. */
  lemma ResizeChoice(width: int, height: int, req: Request)
    requires PlanPreResize(width, height, req).Ok?
    ensures var steps := PlanPreResize(width, height, req).value.steps;
      var last := steps[|steps| - 1];
      (last.ResizeToWidth? <==> req.targetHeight == 0.0
                                || width as real / height as real < req.targetWidth / req.targetHeight)
      && (last.ResizeToWidth? ==> last.width == Trunc(req.targetWidth))
      && (last.ResizeToHeight? ==> last.height == Trunc(req.targetHeight))
      && (last.ResizeToWidth? || last.ResizeToHeight?)
  {
  }

  /** For a positive source and whole positive targets, the engine's result of
      the resize covers the target: one side equals it and the other is at
      least as large, so the later crop never has to enlarge. */
  lemma ResizeCoversTarget(width: int, height: int, req: Request)
    requires width > 0 && height > 0 && !HasCropBox(req)
    requires req.targetWidth > 0.0 && req.targetHeight > 0.0
    requires IsWhole(req.targetWidth) && IsWhole(req.targetHeight)
    ensures PlanPreResize(width, height, req).Ok?
    ensures var steps := PlanPreResize(width, height, req).value.steps;
      var s := Transform(Size(width as real, height as real), steps[|steps| - 1]);
      s.width >= req.targetWidth && s.height >= req.targetHeight
      && (s.width == req.targetWidth || s.height == req.targetHeight)
  {
    var w, h := width as real, height as real;
    var tw, th := req.targetWidth, req.targetHeight;
    assert Trunc(tw) as real == tw && Trunc(th) as real == th;
    if w / h < tw / th {
      // tw * h / w > th  <==  w / h < tw / th
      assert w * th < tw * h by { DivLess(w, h, tw, th); }
      MulDivGreater(tw, h, w, th);
    } else {
      assert w * th >= tw * h by { DivAtLeast(w, h, tw, th); }
      MulDivAtLeast(th, w, h, tw);
    }
  }

  /** `a / b < c / d` for positive denominators is `a * d < c * b`. */
  lemma DivLess(a: real, b: real, c: real, d: real)
    requires b > 0.0 && d > 0.0 && a / b < c / d
    ensures a * d < c * b
  {
    var p, q := a / b, c / d;
    assert a == p * b && c == q * d;
    assert p * b * d < q * d * b;
  }

  /** `a / b >= c / d` for positive denominators gives `a * d >= c * b`. */
  lemma DivAtLeast(a: real, b: real, c: real, d: real)
    requires b > 0.0 && d > 0.0 && a / b >= c / d
    ensures a * d >= c * b
  {
    var p, q := a / b, c / d;
    assert a == p * b && c == q * d;
    assert p * b * d >= q * d * b;
  }

  /** `a / b <= c / d` for positive denominators gives `a * d <= c * b`. */
  lemma DivAtMost(a: real, b: real, c: real, d: real)
    requires b > 0.0 && d > 0.0 && a / b <= c / d
    ensures a * d <= c * b
  {
    var p, q := a / b, c / d;
    assert a == p * b && c == q * d;
    assert p * b * d <= q * d * b;
  }

  /** `n * h / w > t` when `w * t < n * h`. */
  lemma MulDivGreater(n: real, h: real, w: real, t: real)
    requires w > 0.0 && w * t < n * h
    ensures n * h / w > t
  {
    var q := n * h / w;
    assert q * w == n * h;
    assert q * w > t * w;
  }

  /** `n * w / h >= t` when `h * t <= n * w`. */
  lemma MulDivAtLeast(n: real, w: real, h: real, t: real)
    requires h > 0.0 && h * t <= n * w
    ensures n * w / h >= t
  {
    var q := n * w / h;
    assert q * h == n * w;
    assert q * h >= t * h;
  }

  // ---------------------------------------------------------------------------
  // Stage two

  /** No second crop after an explicit crop or without both target sides. */
  lemma PostResizeSkipped(cropped: bool, width: real, height: real, targetWidth: real, targetHeight: real)
    ensures cropped || targetWidth == 0.0 || targetHeight == 0.0
            <==> PlanPostResize(cropped, width, height, targetWidth, targetHeight) == Ok([])
  {
  }

  /** The second crop fails exactly where the source divides by zero. */
  lemma PostResizeFails(width: real, height: real, targetWidth: real, targetHeight: real)
    requires targetWidth != 0.0 && targetHeight != 0.0
    ensures PlanPostResize(false, width, height, targetWidth, targetHeight).Err?
            <==> height == 0.0 || (width == 0.0 && 0.0 > targetWidth / targetHeight)
  {
  }

  /** An image wider than the target ratio: the offset trimmed from each end of
      the width is in (0, 1/2) and what is kept has the target ratio. */
  lemma WideCrop(width: real, height: real, targetWidth: real, targetHeight: real)
    requires width > 0.0 && height > 0.0 && targetWidth > 0.0 && targetHeight > 0.0
    requires width / height > targetWidth / targetHeight
    ensures var c := (width - targetWidth / targetHeight * height) / width / 2.0;
      0.0 < c < 0.5 && (1.0 - c - c) * width == targetWidth / targetHeight * height
  {
  }

  /** An image no wider than the target ratio: the offset trimmed from each end
      of the height is in [0, 1/2) and what is kept has the target ratio. */
  lemma TallCrop(width: real, height: real, targetWidth: real, targetHeight: real)
    requires width > 0.0 && height > 0.0 && targetWidth > 0.0 && targetHeight > 0.0
    requires width / height <= targetWidth / targetHeight
    ensures var c := (height - targetHeight / targetWidth * width) / height / 2.0;
      0.0 <= c < 0.5 && (1.0 - c - c) * height == targetHeight / targetWidth * width
  {
  }

  /** For positive sizes the second crop is one centred crop: the offset lies in
      [0, 1/2), is taken off both ends of the width when the image is wider than
      the target ratio and off both ends of the height otherwise, and the kept
      region has exactly the target aspect ratio. */
  lemma PostResizeCentred(width: real, height: real, targetWidth: real, targetHeight: real)
    requires width > 0.0 && height > 0.0 && targetWidth > 0.0 && targetHeight > 0.0
    ensures PlanPostResize(false, width, height, targetWidth, targetHeight).Ok?
    ensures var steps := PlanPostResize(false, width, height, targetWidth, targetHeight).value;
      |steps| == 1 && steps[0].Crop?
      && var c := steps[0];
      c.left + c.right == 1.0 && c.top + c.bottom == 1.0
      && 0.0 <= c.left < 0.5 && 0.0 <= c.top < 0.5
      && (width / height > targetWidth / targetHeight ==> c.top == 0.0 && 0.0 < c.left)
      && (width / height <= targetWidth / targetHeight ==> c.left == 0.0)
      && (c.right - c.left) * width * targetHeight == (c.bottom - c.top) * height * targetWidth
  {
    if width / height > targetWidth / targetHeight {
      WideCrop(width, height, targetWidth, targetHeight);
    } else {
      TallCrop(width, height, targetWidth, targetHeight);
    }
  }

  /** A plan that starts from a crop box never adds the second crop. */
  lemma ExplicitCropSkipsPostCrop(width: int, height: int, req: Request, resizedWidth: int, resizedHeight: int)
    requires HasCropBox(req) && PlanPreResize(width, height, req).Ok?
    ensures PlanThumbnail(width, height, req, resizedWidth, resizedHeight)
            == Ok(PlanPreResize(width, height, req).value.steps)
  {
    assert PlanPreResize(width, height, req).value.steps + [] == PlanPreResize(width, height, req).value.steps;
  }

  /** The resize side is chosen from the size before the explicit crop, and the
      second crop is then skipped, so with a crop box the result need not cover
      the target: box (100, 50, 300, 350) on 800 x 400 keeps 200 x 300, which is
      then resized to height 125 and so to a width of 83 1/3, below 125. */
  lemma CropBoxMissesTarget()
    ensures var req := Request(125.0, 125.0, Some(100.0), Some(50.0), Some(300.0), Some(350.0));
      var pre := PlanPreResize(800, 400, req);
      pre == Ok(PreResize([Crop(0.125, 0.125, 0.375, 0.875), ResizeToHeight(125)], true))
      && Transform(Size(800.0, 400.0), pre.value.steps[0]) == Size(200.0, 300.0)
      && Transform(Size(200.0, 300.0), pre.value.steps[1]).width < 125.0
      && forall rw: int, rh: int :: PlanThumbnail(800, 400, req, rw, rh) == Ok(pre.value.steps)
  {
    var req := Request(125.0, 125.0, Some(100.0), Some(50.0), Some(300.0), Some(350.0));
    var pre := PlanPreResize(800, 400, req);
    assert HasCropBox(req) && pre.Ok?;
    assert Trunc(125.0) == 125;
    assert pre.value.steps == [Crop(0.125, 0.125, 0.375, 0.875), ResizeToHeight(125)];
    forall rw: int, rh: int
      ensures PlanThumbnail(800, 400, req, rw, rh) == Ok(pre.value.steps)
    {
      ExplicitCropSkipsPostCrop(800, 400, req, rw, rh);
    }
  }

  /** On an image that covers the target with one side equal to it, the second
      crop leaves exactly the target size. */
  lemma CropOnCover(width: real, height: real, targetWidth: real, targetHeight: real)
    requires targetWidth > 0.0 && targetHeight > 0.0
    requires width >= targetWidth && height >= targetHeight
    requires width == targetWidth || height == targetHeight
    ensures PlanPostResize(false, width, height, targetWidth, targetHeight).Ok?
    ensures var post := PlanPostResize(false, width, height, targetWidth, targetHeight).value;
      |post| == 1 && Transform(Size(width, height), post[0]) == Size(targetWidth, targetHeight)
  {
    if width / height > targetWidth / targetHeight {
      assert height == targetHeight by {
        if width == targetWidth {
          NarrowerWhenTaller(targetWidth, height, targetHeight);
        }
      }
      WideCrop(width, height, targetWidth, targetHeight);
      RatioCancels(targetWidth, targetHeight);
    } else {
      assert width == targetWidth by {
        if height == targetHeight {
          DivAtMost(width, height, targetWidth, targetHeight);
        }
      }
      TallCrop(width, height, targetWidth, targetHeight);
      RatioCancels(targetHeight, targetWidth);
    }
  }

  /** Of two images with the same width, the taller one is no wider in ratio. */
  lemma NarrowerWhenTaller(width: real, height: real, targetHeight: real)
    requires width > 0.0 && height >= targetHeight > 0.0
    ensures width / height <= width / targetHeight
  {
  }

  /** A ratio times its denominator is its numerator. */
  lemma RatioCancels(s: real, t: real)
    requires t != 0.0
    ensures s / t * t == s
  {
  }

  /** End to end, for a positive source, whole positive targets and no crop box:
      resizing as planned and then cropping as planned on the engine's result
      gives an image of exactly the target size. */
  lemma ThumbnailHasTargetSize(width: int, height: int, req: Request)
    requires width > 0 && height > 0 && !HasCropBox(req)
    requires req.targetWidth > 0.0 && req.targetHeight > 0.0
    requires IsWhole(req.targetWidth) && IsWhole(req.targetHeight)
    ensures PlanPreResize(width, height, req).Ok?
    ensures var pre := PlanPreResize(width, height, req).value;
      var resized := Transform(Size(width as real, height as real), pre.steps[|pre.steps| - 1]);
      PlanPostResize(pre.cropped, resized.width, resized.height, req.targetWidth, req.targetHeight).Ok?
      && var post := PlanPostResize(pre.cropped, resized.width, resized.height, req.targetWidth, req.targetHeight).value;
      |post| == 1
      && Transform(resized, post[0]) == Size(req.targetWidth, req.targetHeight)
  {
    ResizeCoversTarget(width, height, req);
    var pre := PlanPreResize(width, height, req).value;
    var resized := Transform(Size(width as real, height as real), pre.steps[|pre.steps| - 1]);
    CropOnCover(resized.width, resized.height, req.targetWidth, req.targetHeight);
  }

  // ---------------------------------------------------------------------------
  // Worked examples

  /** Crop box (100, 50, 300, 250) on an 800 x 400 source. */
  lemma ExplicitCropExample()
    ensures PlanPreResize(800, 400, Request(125.0, 125.0, Some(100.0), Some(50.0), Some(300.0), Some(250.0)))
            == Ok(PreResize([Crop(0.125, 0.125, 0.375, 0.625), ResizeToHeight(125)], true))
  {
    var req := Request(125.0, 125.0, Some(100.0), Some(50.0), Some(300.0), Some(250.0));
    var r := PlanPreResize(800, 400, req);
    assert HasCropBox(req) && r.Ok?;
    assert Trunc(125.0) == 125;
    assert r.value.steps == [Crop(0.125, 0.125, 0.375, 0.625), ResizeToHeight(125)];
  }

  /** An 800 x 400 source to 125 x 125: resize to height 125, then keep the
      middle half of the 250 x 125 result. */
  lemma ResizeThenCropExample()
    ensures PlanThumbnail(800, 400, Request(125.0, 125.0, None, None, None, None), 250, 125)
            == Ok([ResizeToHeight(125), Crop(0.25, 0.0, 0.75, 1.0)])
  {
    var req := Request(125.0, 125.0, None, None, None, None);
    var r := PlanPreResize(800, 400, req);
    assert r.Ok? && !r.value.cropped;
    assert Trunc(125.0) == 125;
    assert r.value.steps == [ResizeToHeight(125)];
    assert 250.0 / 125.0 > 125.0 / 125.0;
    assert (250.0 - 125.0 / 125.0 * 125.0) / 250.0 / 2.0 == 0.25;
    assert PlanPostResize(false, 250 as real, 125 as real, 125.0, 125.0) == Ok([Crop(0.25, 0.0, 0.75, 1.0)]);
    assert r.value.steps + [Crop(0.25, 0.0, 0.75, 1.0)] == [ResizeToHeight(125), Crop(0.25, 0.0, 0.75, 1.0)];
  }
}
