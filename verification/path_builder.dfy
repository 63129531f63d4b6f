/** Rebuilding a drawable path from one evaluated frame of a shape's outline.

    A shape is an initial point, an ordered list of cubic curve segments and a
    closed flag. The builder replays it into a caller-owned path sink as a
    sequence of drawing operations, replacing a cubic by a straight line when
    both of its control points coincide exactly with its end points. */
module PathBuilder {

  /** A 2D coordinate. Points are compared by exact equality, never with a tolerance. */
  datatype Point = Point(x: real, y: real)

  /** One segment of authored cubic data: two control points and the segment's end vertex. */
  datatype CurveVertex = CurveVertex(controlPoint1: Point, controlPoint2: Point, vertex: Point)

  /** One evaluated frame of a shape outline; the order of `curves` is the drawing order. */
  datatype ShapeData = ShapeData(initialPoint: Point, curves: seq<CurveVertex>, closed: bool)

  /** The operations a path sink records. */
  datatype Op =
    | MoveTo(p: Point)
    | LineTo(p: Point)
    | CubicTo(c1: Point, c2: Point, p: Point)
    | Close

  /** The caller-supplied path sink: it only records, in order, the operations it is sent. */
  class Path {
    var ops: seq<Op>

    constructor ()
      ensures ops == []
    {
      ops := [];
    }

    method Reset()
      modifies this
      ensures ops == []
    {
      ops := [];
    }

    method MoveTo(p: Point)
      modifies this
      ensures ops == old(ops) + [Op.MoveTo(p)]
    {
      ops := ops + [Op.MoveTo(p)];
    }

    method LineTo(p: Point)
      modifies this
      ensures ops == old(ops) + [Op.LineTo(p)]
    {
      ops := ops + [Op.LineTo(p)];
    }

    method CubicTo(c1: Point, c2: Point, p: Point)
      modifies this
      ensures ops == old(ops) + [Op.CubicTo(c1, c2, p)]
    {
      ops := ops + [Op.CubicTo(c1, c2, p)];
    }

    method Close()
      modifies this
      ensures ops == old(ops) + [Op.Close]
    {
      ops := ops + [Op.Close];
    }
  }

  // ---------------------------------------------------------------------------
  // Specification of the emitted operations

  /** The operation drawn for curve `c` when the pen stands at `current`:
      a straight line exactly when the cubic is degenerate. */
  function SegmentOp(current: Point, c: CurveVertex): Op
  {
    if c.controlPoint1 == current && c.controlPoint2 == c.vertex then LineTo(c.vertex)
    else CubicTo(c.controlPoint1, c.controlPoint2, c.vertex)
  }

  /** Where the pen stands after drawing `curves` from `start`. */
  function EndPoint(start: Point, curves: seq<CurveVertex>): Point
  {
    if curves == [] then start else curves[|curves| - 1].vertex
  }

  /** The pen position before curve `i`: the initial point, or the previous curve's vertex. */
  function PointBefore(shape: ShapeData, i: nat): Point
    requires i < |shape.curves|
  {
    if i == 0 then shape.initialPoint else shape.curves[i - 1].vertex
  }

  /** The operations drawn for `curves`, starting at `start`, one per curve. */
  function CurveOps(start: Point, curves: seq<CurveVertex>): (r: seq<Op>)
    ensures |r| == |curves|
    ensures forall k :: 0 <= k < |r| ==> !r[k].MoveTo? && !r[k].Close?
  {
    if curves == [] then []
    else
      var init := curves[..|curves| - 1];
      CurveOps(start, init) + [SegmentOp(EndPoint(start, init), curves[|curves| - 1])]
  }

  /** Everything the sink holds after the shape has been built into it. */
  function PathOps(shape: ShapeData): seq<Op>
  {
    [MoveTo(shape.initialPoint)]
    + CurveOps(shape.initialPoint, shape.curves)
    + (if shape.closed then [Close] else [])
  }

  // ---------------------------------------------------------------------------
  // The builder

  /** Resets `outPath`, moves to the initial point, draws each curve in order
      (as a line when degenerate, otherwise as a cubic) and closes if the shape is closed. */
  method GetPathFromData(shapeData: ShapeData, outPath: Path)
    modifies outPath
    ensures outPath.ops == PathOps(shapeData)
  {
    outPath.Reset();
    var initialPoint := shapeData.initialPoint;
    outPath.MoveTo(initialPoint);
    var currentPoint := initialPoint;
    for i := 0 to |shapeData.curves|
      invariant currentPoint == EndPoint(initialPoint, shapeData.curves[..i])
      invariant outPath.ops == [Op.MoveTo(initialPoint)] + CurveOps(initialPoint, shapeData.curves[..i])
    {
      var curveData := shapeData.curves[i];
      var cp1 := curveData.controlPoint1;
      var cp2 := curveData.controlPoint2;
      var vertex := curveData.vertex;
      assert shapeData.curves[..i + 1][..i] == shapeData.curves[..i];

      if cp1 == currentPoint && cp2 == vertex {
        outPath.LineTo(vertex);
      } else {
        outPath.CubicTo(cp1, cp2, vertex);
      }

      currentPoint := currentPoint.(x := vertex.x, y := vertex.y);
    }

    if shapeData.closed {
      outPath.Close();
    }
    assert shapeData.curves[..|shapeData.curves|] == shapeData.curves;
  }

  /** Whatever the sink held before, building the same shape twice leaves
      exactly the operations of building it once. */
  method BuildTwice(shapeData: ShapeData, outPath: Path) returns (first: seq<Op>)
    modifies outPath
    ensures first == PathOps(shapeData)
    ensures outPath.ops == first
  {
    GetPathFromData(shapeData, outPath);
    first := outPath.ops;
    GetPathFromData(shapeData, outPath);
  }

  // ---------------------------------------------------------------------------
  // Properties of the emitted operations

  /** Curve `i` is drawn by the operation at index `i`, from the pen position
      before it, which is the previous curve's vertex. */
  lemma {:induction false} CurveOpsAt(start: Point, curves: seq<CurveVertex>, i: nat)
    requires i < |curves|
    ensures CurveOps(start, curves)[i]
         == SegmentOp(if i == 0 then start else curves[i - 1].vertex, curves[i])
  {
    var n := |curves|;
    var init := curves[..n - 1];
    if i < n - 1 {
      CurveOpsAt(start, init, i);
      assert init[i] == curves[i];
      assert i > 0 ==> init[i - 1] == curves[i - 1];
    }
  }

  /** The sink holds one MoveTo, one op per curve, and a Close only for a closed shape. */
  lemma PathOpsLength(shape: ShapeData)
    ensures |PathOps(shape)| == 1 + |shape.curves| + (if shape.closed then 1 else 0)
  {
  }

  /** The op for curve `i` is a LineTo of its vertex exactly when control point 1
      equals the pen position and control point 2 equals the vertex; otherwise
      it is the full cubic. Curve ops sit in the order of the curves. */
  lemma CurveOpInPath(shape: ShapeData, i: nat)
    requires i < |shape.curves|
    ensures var c := shape.curves[i];
      var op := PathOps(shape)[i + 1];
      (c.controlPoint1 == PointBefore(shape, i) && c.controlPoint2 == c.vertex ==> op == LineTo(c.vertex))
      && (c.controlPoint1 != PointBefore(shape, i) || c.controlPoint2 != c.vertex
          ==> op == CubicTo(c.controlPoint1, c.controlPoint2, c.vertex))
  {
    CurveOpsAt(shape.initialPoint, shape.curves, i);
  }

  /** The first op is a MoveTo to the initial point and it is the only MoveTo. */
  lemma SingleMoveToFirst(shape: ShapeData)
    ensures PathOps(shape)[0] == MoveTo(shape.initialPoint)
    ensures forall k :: 0 < k < |PathOps(shape)| ==> !PathOps(shape)[k].MoveTo?
  {
    var ops := PathOps(shape);
    var curveOps := CurveOps(shape.initialPoint, shape.curves);
    forall k | 0 < k < |ops|
      ensures !ops[k].MoveTo?
    {
      if k <= |curveOps| {
        assert ops[k] == curveOps[k - 1];
      }
    }
  }

  /** A Close appears exactly when the shape is closed, and then only as the last op. */
  lemma CloseOnlyLast(shape: ShapeData)
    ensures forall k :: 0 <= k < |PathOps(shape)| ==>
      (PathOps(shape)[k] == Close <==> shape.closed && k == |PathOps(shape)| - 1)
  {
    var ops := PathOps(shape);
    var curveOps := CurveOps(shape.initialPoint, shape.curves);
    forall k | 0 <= k < |ops|
      ensures ops[k] == Close <==> shape.closed && k == |ops| - 1
    {
      if 0 < k <= |curveOps| {
        assert ops[k] == curveOps[k - 1];
      }
    }
  }

  /** A shape without curves is a single point: a MoveTo, then a Close if closed. */
  lemma EmptyShape(shape: ShapeData)
    requires shape.curves == []
    ensures PathOps(shape) == if shape.closed then [MoveTo(shape.initialPoint), Close]
                              else [MoveTo(shape.initialPoint)]
  {
  }
}
