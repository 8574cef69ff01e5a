/** The request models of app/models.py: shape annotations with their
    validators, and the image-upload payload. A request field that is absent or
    of the wrong type is `None` in a raw record; validation either builds the
    typed record or reports why it cannot. */
module Models {
  import opened Wrappers
  import opened Errors

  newtype byte = b: int | 0 <= b < 256

  datatype Point = Point(x: real, y: real)

  /** A validated `RectangleAnnotation`. */
  datatype Rectangle = Rectangle(
    className: string, classId: real, x: real, y: real, height: real, width: real,
    kind: string, color: string, edit: bool, rotation: real)

  /** A validated `PolygonAnnotation` or `SegmentationAnnotation` (same fields). */
  datatype PointShape = PointShape(
    className: string, classId: real, points: seq<Point>, color: string, kind: string, edit: bool)

  datatype RawRectangle = RawRectangle(
    className: Option<string>, classId: Option<real>, x: Option<real>, y: Option<real>,
    height: Option<real>, width: Option<real>, kind: Option<string>, color: Option<string>,
    edit: Option<bool>, rotation: Option<real>)

  datatype RawPointShape = RawPointShape(
    className: Option<string>, classId: Option<real>, points: Option<seq<Point>>,
    color: Option<string>, kind: Option<string>, edit: Option<bool>)

  const PolygonKind: string := "polygon"
  const SegmentationKind: string := "segmentation"
  const RectangleKind: string := "rectangle"
  const PolygonMessage: string := "Polygon must have at least 3 points"
  const SegmentationMessage: string := "Segmentation must have at least 1 point"

  /** Every required rectangle field is present (`type` is not required). */
  predicate RectangleComplete(raw: RawRectangle) {
    raw.className.Some? && raw.classId.Some? && raw.x.Some? && raw.y.Some?
    && raw.height.Some? && raw.width.Some? && raw.color.Some? && raw.edit.Some?
    && raw.rotation.Some?
  }

  /** Every required polygon/segmentation field is present (`type` is not required). */
  predicate PointShapeComplete(raw: RawPointShape) {
    raw.className.Some? && raw.classId.Some? && raw.points.Some? && raw.color.Some? && raw.edit.Some?
  }

  /** `annotation.dict()`: the raw record of a validated annotation. */
  function RectangleDict(a: Rectangle): RawRectangle {
    RawRectangle(Some(a.className), Some(a.classId), Some(a.x), Some(a.y), Some(a.height),
      Some(a.width), Some(a.kind), Some(a.color), Some(a.edit), Some(a.rotation))
  }

  function PointShapeDict(a: PointShape): RawPointShape {
    RawPointShape(Some(a.className), Some(a.classId), Some(a.points), Some(a.color), Some(a.kind), Some(a.edit))
  }

  /** `RectangleAnnotation(...)`: no geometric check, `type` defaults to 'rectangle'. */
  function ValidateRectangle(raw: RawRectangle): (r: Result<Rectangle, ValidationError>)
    ensures r.Success? <==> RectangleComplete(raw)
    ensures r.Failure? ==> r.error == MissingField
    ensures r.Success? ==> r.value.kind == raw.kind.GetOr(RectangleKind)
    ensures r.Success? ==> RectangleDict(r.value) == raw.(kind := Some(raw.kind.GetOr(RectangleKind)))
  {
    if !RectangleComplete(raw) then Failure(MissingField)
    else Success(Rectangle(raw.className.value, raw.classId.value, raw.x.value, raw.y.value,
      raw.height.value, raw.width.value, raw.kind.GetOr(RectangleKind), raw.color.value,
      raw.edit.value, raw.rotation.value))
  }

  /** `PolygonAnnotation.validate_points`. */
  function ValidatePolygonPoints(v: seq<Point>): (r: Result<seq<Point>, ValidationError>)
    ensures r.Success? <==> |v| >= 3
    ensures r.Success? ==> r.value == v
    ensures r.Failure? ==> r.error == TooFewPoints(PolygonMessage)
  {
    if |v| < 3 then Failure(TooFewPoints(PolygonMessage)) else Success(v)
  }

  /** `SegmentationAnnotation.validate_points`: the same `< 3` check, although
      its message speaks of one point. */
  function ValidateSegmentationPoints(v: seq<Point>): (r: Result<seq<Point>, ValidationError>)
    ensures r.Success? <==> |v| >= 3
    ensures r.Success? ==> r.value == v
    ensures r.Failure? ==> r.error == TooFewPoints(SegmentationMessage)
  {
    if |v| < 3 then Failure(TooFewPoints(SegmentationMessage)) else Success(v)
  }

  /** Builds a point shape once its points passed their validator. */
  function BuildPointShape(raw: RawPointShape, points: Result<seq<Point>, ValidationError>, defaultKind: string)
    : Result<PointShape, ValidationError>
    requires PointShapeComplete(raw)
  {
    match points
    case Failure(e) => Failure(e)
    case Success(v) =>
      Success(PointShape(raw.className.value, raw.classId.value, v, raw.color.value,
        raw.kind.GetOr(defaultKind), raw.edit.value))
  }

  /** `PolygonAnnotation(...)`. */
  function ValidatePolygon(raw: RawPointShape): (r: Result<PointShape, ValidationError>)
    ensures r.Success? <==> PointShapeComplete(raw) && |raw.points.value| >= 3
    ensures r.Success? ==> r.value.points == raw.points.value && r.value.kind == raw.kind.GetOr(PolygonKind)
    ensures r.Success? ==> PointShapeDict(r.value) == raw.(kind := Some(raw.kind.GetOr(PolygonKind)))
    ensures PointShapeComplete(raw) && |raw.points.value| < 3 ==> r == Failure(TooFewPoints(PolygonMessage))
  {
    if !PointShapeComplete(raw) then Failure(MissingField)
    else BuildPointShape(raw, ValidatePolygonPoints(raw.points.value), PolygonKind)
  }

  /** `SegmentationAnnotation(...)`. */
  function ValidateSegmentation(raw: RawPointShape): (r: Result<PointShape, ValidationError>)
    ensures r.Success? <==> PointShapeComplete(raw) && |raw.points.value| >= 3
    ensures r.Success? ==> r.value.points == raw.points.value && r.value.kind == raw.kind.GetOr(SegmentationKind)
    ensures r.Success? ==> PointShapeDict(r.value) == raw.(kind := Some(raw.kind.GetOr(SegmentationKind)))
    ensures PointShapeComplete(raw) && |raw.points.value| < 3 ==> r == Failure(TooFewPoints(SegmentationMessage))
  {
    if !PointShapeComplete(raw) then Failure(MissingField)
    else BuildPointShape(raw, ValidateSegmentationPoints(raw.points.value), SegmentationKind)
  }

  /** Validates every element; the first invalid element makes the whole list invalid. */
  function ValidateAll<R, T>(xs: seq<R>, validate: R -> Result<T, ValidationError>): (r: Result<seq<T>, ValidationError>)
    ensures r.Success? <==> forall k :: 0 <= k < |xs| ==> validate(xs[k]).Success?
    ensures r.Success? ==> |r.value| == |xs| && forall k :: 0 <= k < |xs| ==> r.value[k] == validate(xs[k]).value
    ensures r.Failure? ==> exists k :: 0 <= k < |xs| && validate(xs[k]).Failure? && r.error == validate(xs[k]).error
  {
    if xs == [] then Success([])
    else
      match validate(xs[0])
      case Failure(e) => Failure(e)
      case Success(v) =>
        match ValidateAll(xs[1..], validate)
        case Failure(e) =>
          assert forall k :: 0 <= k < |xs| - 1 ==> xs[1..][k] == xs[k + 1];
          Failure(e)
        case Success(vs) =>
          assert forall k :: 0 <= k < |xs| - 1 ==> xs[1..][k] == xs[k + 1];
          Success([v] + vs)
  }

  /** An optional list field: absent stays absent, present is validated element-wise. */
  function ValidateOptional<R, T>(o: Option<seq<R>>, validate: R -> Result<T, ValidationError>)
    : (r: Result<Option<seq<T>>, ValidationError>)
    ensures o.None? ==> r == Success(None)
    ensures o.Some? ==> (r.Success? <==> ValidateAll(o.value, validate).Success?)
    ensures o.Some? && r.Success? ==> r.value == Some(ValidateAll(o.value, validate).value)
    ensures o.Some? && r.Success? ==>
      (r.value.Some? && |r.value.value| == |o.value|
       && forall k :: 0 <= k < |o.value| ==> validate(o.value[k]).Success? && r.value.value[k] == validate(o.value[k]).value)
  {
    match o
    case None => Success(None)
    case Some(xs) =>
      match ValidateAll(xs, validate)
      case Failure(e) => Failure(e)
      case Success(vs) => Success(Some(vs))
  }

  /** The image-upload payload before validation. `image` (display metadata) is not modelled. */
  datatype RawUpload = RawUpload(
    rectangles: Option<seq<RawRectangle>>,
    polygons: Option<seq<RawPointShape>>,
    segmentations: Option<seq<RawPointShape>>,
    fileContent: seq<byte>,
    fileName: string,
    mimeType: Option<string>)

  /** A validated `UploadData`. */
  datatype UploadData = UploadData(
    rectangles: Option<seq<Rectangle>>,
    polygons: Option<seq<PointShape>>,
    segmentations: Option<seq<PointShape>>,
    fileContent: seq<byte>,
    fileName: string,
    mimeType: Option<string>)

  /** Every annotation in a validated upload satisfies its model's checks. */
  predicate UploadWellFormed(u: UploadData) {
    (u.polygons.Some? ==> forall k :: 0 <= k < |u.polygons.value| ==> |u.polygons.value[k].points| >= 3)
    && (u.segmentations.Some? ==> forall k :: 0 <= k < |u.segmentations.value| ==> |u.segmentations.value[k].points| >= 3)
  }

  /** `UploadData(...)`: all three lists are validated; any invalid element refuses the payload. */
  function ValidateUpload(raw: RawUpload): (r: Result<UploadData, ValidationError>)
    ensures r.Success? ==> UploadWellFormed(r.value)
    ensures r.Success? ==>
      (r.value.fileContent == raw.fileContent && r.value.fileName == raw.fileName
       && r.value.mimeType == raw.mimeType)
    ensures r.Success? ==>
      ((r.value.rectangles.None? <==> raw.rectangles.None?)
       && (r.value.polygons.None? <==> raw.polygons.None?)
       && (r.value.segmentations.None? <==> raw.segmentations.None?))
  {
    var rects := ValidateOptional(raw.rectangles, ValidateRectangle);
    var polys := ValidateOptional(raw.polygons, ValidatePolygon);
    var segs := ValidateOptional(raw.segmentations, ValidateSegmentation);
    if rects.Failure? then Failure(rects.error)
    else if polys.Failure? then Failure(polys.error)
    else if segs.Failure? then Failure(segs.error)
    else Success(UploadData(rects.value, polys.value, segs.value, raw.fileContent, raw.fileName, raw.mimeType))
  }

  /** A payload is accepted exactly when every element of every present list validates. */
  lemma ValidateUploadAccepts(raw: RawUpload)
    ensures ValidateUpload(raw).Success? <==>
      ((raw.rectangles.Some? ==> forall k :: 0 <= k < |raw.rectangles.value| ==> RectangleComplete(raw.rectangles.value[k]))
       && (raw.polygons.Some? ==> forall k :: 0 <= k < |raw.polygons.value| ==> ValidatePolygon(raw.polygons.value[k]).Success?)
       && (raw.segmentations.Some? ==> forall k :: 0 <= k < |raw.segmentations.value| ==> ValidateSegmentation(raw.segmentations.value[k]).Success?))
  {
  }

  /** An accepted payload holds, position by position, the validated elements. */
  lemma ValidateUploadElements(raw: RawUpload)
    requires ValidateUpload(raw).Success?
    ensures var u := ValidateUpload(raw).value;
      (raw.rectangles.Some? ==>
          (|u.rectangles.value| == |raw.rectangles.value|
           && forall k :: 0 <= k < |raw.rectangles.value| ==>
                u.rectangles.value[k] == ValidateRectangle(raw.rectangles.value[k]).value))
      && (raw.polygons.Some? ==>
          (|u.polygons.value| == |raw.polygons.value|
           && forall k :: 0 <= k < |raw.polygons.value| ==>
                u.polygons.value[k] == ValidatePolygon(raw.polygons.value[k]).value))
      && (raw.segmentations.Some? ==>
          (|u.segmentations.value| == |raw.segmentations.value|
           && forall k :: 0 <= k < |raw.segmentations.value| ==>
                u.segmentations.value[k] == ValidateSegmentation(raw.segmentations.value[k]).value))
  {
  }

  /** The upload route rebuilds every validated annotation from its dict
      (`PolygonAnnotation(**annotation.dict())`); that second validation gives
      the annotation back unchanged. It follows from the validators' contracts,
      which tie every field of the result to the raw record. */
  lemma RevalidatePolygon(a: PointShape)
    requires |a.points| >= 3
    ensures ValidatePolygon(PointShapeDict(a)) == Success(a)
  {
  }

  /** The same for `SegmentationAnnotation(**annotation.dict())`. */
  lemma RevalidateSegmentation(a: PointShape)
    requires |a.points| >= 3
    ensures ValidateSegmentation(PointShapeDict(a)) == Success(a)
  {
  }

  /** The same for `RectangleAnnotation(**annotation.dict())`. */
  lemma RevalidateRectangle(a: Rectangle)
    ensures ValidateRectangle(RectangleDict(a)) == Success(a)
  {
  }
}
