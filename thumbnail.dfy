/** `generate_thumbnail` as a whole: the image size is read from the source
    bytes, the first transforms are planned, the engine's output is measured
    again, and the trimming crop is planned. The engine itself is outside the
    model: its output bytes are a parameter. */
module Thumbnail {
  import opened Bytes
  import Sniffer
  import Planner

  /** What a call of `generate_thumbnail` comes to: the engine steps it issues,
      a division by zero, or an exception out of `getImageInfo`. */
  datatype Outcome =
    | Planned(steps: seq<Planner.Step>)
    | ZeroDivision
    | Raised(exception: Sniffer.Exception)

  /** Lines 77-119, with `resized` the bytes the engine returns after the first
      transforms. An exception from the first measurement stops everything; a
      division by zero in the first half comes before the second measurement. */
  function GenerateThumbnail(data: seq<Byte>, req: Planner.Request, resized: seq<Byte>): (o: Outcome)
    ensures o.Raised? <==>
              Sniffer.ImageInfo(data).Raised?
              || (Planner.PlanPreResize(Sniffer.ImageInfo(data).info.width,
                                        Sniffer.ImageInfo(data).info.height, req).Ok?
                  && Sniffer.ImageInfo(resized).Raised?)
    ensures Sniffer.ImageInfo(data).Raised? ==> o == Raised(Sniffer.ImageInfo(data).exception)
    ensures Sniffer.ImageInfo(data).Ok? ==>
              var source := Sniffer.ImageInfo(data).info;
              var pre := Planner.PlanPreResize(source.width, source.height, req);
              (pre.Err? ==> o == ZeroDivision)
              && (pre.Ok? && Sniffer.ImageInfo(resized).Raised? ==>
                    o == Raised(Sniffer.ImageInfo(resized).exception))
    ensures Sniffer.ImageInfo(data).Ok? && Sniffer.ImageInfo(resized).Ok? ==>
              var source, after := Sniffer.ImageInfo(data).info, Sniffer.ImageInfo(resized).info;
              Planner.PlanThumbnail(source.width, source.height, req, after.width, after.height).Err?
              ==> o == ZeroDivision
  {
    match Sniffer.ImageInfo(data)
    case Raised(e) => Raised(e)
    case Ok(source) =>
      match Planner.PlanPreResize(source.width, source.height, req)
      case Err(_) => ZeroDivision
      case Ok(pre) =>
        match Sniffer.ImageInfo(resized)
        case Raised(e) => Raised(e)
        case Ok(after) =>
          match Planner.PlanPostResize(pre.cropped, after.width as real, after.height as real,
                                       req.targetWidth, req.targetHeight)
          case Err(_) => ZeroDivision
          case Ok(post) => Planned(pre.steps + post)
  }

  /** When both measurements succeed, the steps are those of the two-stage plan
      on the sizes read. */
  lemma PlanOfMeasuredSizes(data: seq<Byte>, req: Planner.Request, resized: seq<Byte>)
    requires Sniffer.ImageInfo(data).Ok? && Sniffer.ImageInfo(resized).Ok?
    ensures var source, after := Sniffer.ImageInfo(data).info, Sniffer.ImageInfo(resized).info;
      match Planner.PlanThumbnail(source.width, source.height, req, after.width, after.height)
      case Ok(steps) => GenerateThumbnail(data, req, resized) == Planned(steps)
      case Err(_) => GenerateThumbnail(data, req, resized) == ZeroDivision
  {
  }

  /** An image whose format is not recognised is planned with the size -1 x -1
      that `getImageInfo` reports for it: no division by zero, and without a
      crop box the resize is by height whenever the target ratio is at most 1. */
  lemma UnrecognisedImage(data: seq<Byte>, req: Planner.Request, resized: seq<Byte>)
    requires Sniffer.ImageInfo(data) == Sniffer.Ok(Sniffer.Info(Sniffer.Unknown, -1, -1))
    requires req.targetHeight != 0.0 && req.targetWidth / req.targetHeight <= 1.0
    requires Sniffer.ImageInfo(resized).Ok?
    ensures GenerateThumbnail(data, req, resized).ZeroDivision? ==>
              Sniffer.ImageInfo(resized).info.height == 0
              || (Sniffer.ImageInfo(resized).info.width == 0
                  && 0.0 > req.targetWidth / req.targetHeight)
    ensures var pre := Planner.PlanPreResize(-1, -1, req);
      pre.Ok? && pre.value.steps[|pre.value.steps| - 1] == Planner.ResizeToHeight(Planner.Trunc(req.targetHeight))
  {
    Planner.ResizeChoice(-1, -1, req);
    assert (-1) as real / (-1) as real == 1.0;
  }
}
