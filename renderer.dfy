/**
 * The SVG renderer: an append-only list of projected shapes, written out
 * as an SVG document with one indented line per shape (the `rect`,
 * `circle`, `line` and `polygon` basic shapes of SVG 1.1, chapter 9).
 *
 * `{:.2}` number formatting is not computed here: the operations that write
 * numbers take it as the parameter `fixed2`.  The renderer keeps the square
 * root and the tangent that projection needs as constants fixed when it is
 * created.
 */
module Rendering {
  import opened Float
  import opened Errors
  import opened Vectors
  import opened Points
  import opened Text
  import opened Cameras
  import opened Projection
  import Segments
  import Triangles
  import Spheres
  import Boxes

  // ---------------------------------------------------------------------
  // Elements

  /** One drawn shape, in screen coordinates. */
  datatype SVGElement =
    | Circle(cx: real, cy: real, r: real, stroke: string, fill: Option<string>, strokeWidth: real)
    | Line(x1: real, y1: real, x2: real, y2: real, stroke: string, strokeWidth: real)
    | Polygon(points: seq<(real, real)>, stroke: string, fill: Option<string>, strokeWidth: real)

  /** `name="value"`. */
  function Attribute(name: string, value: string): string
  {
    name + "=\"" + value + "\""
  }

  /** A missing fill is written as `fill="none"`. */
  function FillAttribute(fill: Option<string>): string
  {
    match fill
    case Some(f) => Attribute("fill", f)
    case None => Attribute("fill", "none")
  }

  /** One polygon vertex, `x,y` with both numbers formatted by `{:.2}`. */
  function PointPair(p: (real, real), fixed2: real -> string): string
  {
    fixed2(p.0) + "," + fixed2(p.1)
  }

  function PointPairs(points: seq<(real, real)>, fixed2: real -> string): (r: seq<string>)
    ensures |r| == |points|
  {
    seq(|points|, i requires 0 <= i < |points| => PointPair(points[i], fixed2))
  }

  function TagName(e: SVGElement): string
  {
    match e
    case Circle(_, _, _, _, _, _) => "circle"
    case Line(_, _, _, _, _, _) => "line"
    case Polygon(_, _, _, _) => "polygon"
  }

  /** The attributes of an element, in the order the element writes them. */
  function Attributes(e: SVGElement, fixed2: real -> string): seq<string>
  {
    match e
    case Circle(cx, cy, r, stroke, fill, strokeWidth) =>
      [Attribute("cx", fixed2(cx)), Attribute("cy", fixed2(cy)), Attribute("r", fixed2(r)),
       Attribute("stroke", stroke), FillAttribute(fill), Attribute("stroke-width", fixed2(strokeWidth))]
    case Line(x1, y1, x2, y2, stroke, strokeWidth) =>
      [Attribute("x1", fixed2(x1)), Attribute("y1", fixed2(y1)), Attribute("x2", fixed2(x2)),
       Attribute("y2", fixed2(y2)), Attribute("stroke", stroke), Attribute("stroke-width", fixed2(strokeWidth))]
    case Polygon(points, stroke, fill, strokeWidth) =>
      [Attribute("points", Join(PointPairs(points, fixed2), " ")), Attribute("stroke", stroke),
       FillAttribute(fill), Attribute("stroke-width", fixed2(strokeWidth))]
  }

  /** `SVGElement::to_svg_string`: a self-closing tag, attributes separated by single spaces. */
  function ElementString(e: SVGElement, fixed2: real -> string): string
  {
    "<" + TagName(e) + " " + Join(Attributes(e, fixed2), " ") + " />"
  }

  // ---------------------------------------------------------------------
  // The document

  /** `writeln!`: the text followed by a line break. */
  function Writeln(text: string): string
  {
    text + "\n"
  }

  /** The opening `svg` tag with the canvas size. */
  function SvgTag(width: nat, height: nat): string
  {
    "<svg width=\"" + NatToString(width) + "\" height=\"" + NatToString(height)
    + "\" xmlns=\"http://www.w3.org/2000/svg\">"
  }

  function Header(width: nat, height: nat): string
  {
    Writeln(SvgTag(width, height))
  }

  /** The full-canvas background rectangle. */
  function RectTag(bg: string): string
  {
    "<rect width=\"100%\" height=\"100%\" fill=\"" + bg + "\" />"
  }

  /** The background line, present only when a colour is set. */
  function BackgroundLine(background: Option<string>): string
  {
    match background
    case Some(bg) => Writeln("  " + RectTag(bg))
    case None => ""
  }

  /** One element on its own line, indented by two spaces. */
  function ElementLine(e: SVGElement, fixed2: real -> string): string
  {
    Writeln("  " + ElementString(e, fixed2))
  }

  /** The element lines in insertion order. */
  function ElementLines(elements: seq<SVGElement>, fixed2: real -> string): string
    decreases |elements|
  {
    if |elements| == 0 then ""
    else ElementLines(elements[..|elements| - 1], fixed2) + ElementLine(elements[|elements| - 1], fixed2)
  }

  /** Appending one element appends its line. */
  lemma ElementLinesStep(elements: seq<SVGElement>, i: nat, fixed2: real -> string)
    requires i < |elements|
    ensures ElementLines(elements[..i + 1], fixed2) == ElementLines(elements[..i], fixed2) + ElementLine(elements[i], fixed2)
  {
    assert elements[..i + 1][..i] == elements[..i];
  }

  /** The `Display` output of a renderer in the given state; the closing tag ends no line. */
  function Document(width: nat, height: nat, background: Option<string>,
                    elements: seq<SVGElement>, fixed2: real -> string): string
  {
    Header(width, height) + BackgroundLine(background) + ElementLines(elements, fixed2) + "</svg>"
  }

  // ---------------------------------------------------------------------
  // Boxes drawn as wireframes

  /** The eight corners of a box: the bottom face (minimum z) counter-clockwise, then the top face. */
  function Corners(box: Boxes.AABB): (r: seq<Point3D>)
    ensures |r| == 8
  {
    var lo := box.min;
    var hi := box.max;
    [Point3D(lo.x, lo.y, lo.z), Point3D(hi.x, lo.y, lo.z), Point3D(hi.x, hi.y, lo.z), Point3D(lo.x, hi.y, lo.z),
     Point3D(lo.x, lo.y, hi.z), Point3D(hi.x, lo.y, hi.z), Point3D(hi.x, hi.y, hi.z), Point3D(lo.x, hi.y, hi.z)]
  }

  /** The twelve edges as pairs of corner indices: bottom face, top face, then the verticals. */
  const Edges: seq<(nat, nat)> :=
    [(0, 1), (1, 2), (2, 3), (3, 0), (4, 5), (5, 6), (6, 7), (7, 4), (0, 4), (1, 5), (2, 6), (3, 7)]

  function EdgeEnds(k: nat): (r: (nat, nat))
    requires k < 12
    ensures r.0 < 8 && r.1 < 8
  {
    Edges[k]
  }

  /** Edge `k` of the box, from its first corner to its second. */
  function BoxEdge(box: Boxes.AABB, k: nat): Segments.LineSegment
    requires k < 12
  {
    Segments.LineSegment(Corners(box)[EdgeEnds(k).0], Corners(box)[EdgeEnds(k).1])
  }

  /** Coordinate `axis` (0 for x, 1 for y, 2 for z) of a point. */
  function Coordinate(p: Point3D, axis: nat): real
    requires axis < 3
  {
    if axis == 0 then p.x else if axis == 1 then p.y else p.z
  }

  /** The axis edge `k` runs along. */
  function EdgeAxis(k: nat): (axis: nat)
    requires k < 12
    ensures axis < 3
  {
    if k < 8 then k % 2 else 2
  }

  /**
   * `add_aabb` as written: every edge goes through `LineSegment::new(..)`
   * and is unwrapped, so drawing the box panics unless all twelve succeed.
   */
  predicate EdgeUnwrapsSucceed(box: Boxes.AABB)
  {
    forall k | 0 <= k < 12 :: Segments.New(BoxEdge(box, k).start, BoxEdge(box, k).end).Ok?
  }

  /** The point one radius to the right of a sphere's centre. */
  function RadiusPoint(sphere: Spheres.Sphere): Point3D
  {
    Point3D(sphere.center.x + sphere.radius, sphere.center.y, sphere.center.z)
  }

  // ---------------------------------------------------------------------
  // Properties of the wireframe

  /**
   * Edge `k` runs along axis `EdgeAxis(k)`: its two ends agree on the other
   * two coordinates and span the box on that one.
   */
  lemma BoxEdgeAlongAxis(box: Boxes.AABB, k: nat)
    requires k < 12
    ensures var e := BoxEdge(box, k); var a := EdgeAxis(k);
      (forall b | 0 <= b < 3 && b != a :: Coordinate(e.start, b) == Coordinate(e.end, b))
      && ((Coordinate(e.start, a) == Coordinate(box.min, a) && Coordinate(e.end, a) == Coordinate(box.max, a))
          || (Coordinate(e.start, a) == Coordinate(box.max, a) && Coordinate(e.end, a) == Coordinate(box.min, a)))
  {
    var c := Corners(box);
    assert EdgeEnds(k) == Edges[k];
    if k == 0 { assert EdgeEnds(k) == (0, 1); }
    else if k == 1 { assert EdgeEnds(k) == (1, 2); }
    else if k == 2 { assert EdgeEnds(k) == (2, 3); }
    else if k == 3 { assert EdgeEnds(k) == (3, 0); }
    else if k == 4 { assert EdgeEnds(k) == (4, 5); }
    else if k == 5 { assert EdgeEnds(k) == (5, 6); }
    else if k == 6 { assert EdgeEnds(k) == (6, 7); }
    else if k == 7 { assert EdgeEnds(k) == (7, 4); }
    else if k == 8 { assert EdgeEnds(k) == (0, 4); }
    else if k == 9 { assert EdgeEnds(k) == (1, 5); }
    else if k == 10 { assert EdgeEnds(k) == (2, 6); }
    else { assert EdgeEnds(k) == (3, 7); }
  }

  /** No edge is listed twice, in either direction. */
  lemma EdgesDistinct()
    ensures forall k1, k2 | 0 <= k1 < k2 < 12 ::
      EdgeEnds(k1) != EdgeEnds(k2) && EdgeEnds(k1) != (EdgeEnds(k2).1, EdgeEnds(k2).0)
  {
  }

  /** In a box whose minimum lies strictly below its maximum, the two ends of every edge differ. */
  lemma EdgeEndsDiffer(box: Boxes.AABB, k: nat)
    requires k < 12 && Boxes.StrictlyOrdered(box.min, box.max)
    ensures BoxEdge(box, k).start != BoxEdge(box, k).end
  {
    BoxEdgeAlongAxis(box, k);
    var a := EdgeAxis(k);
    assert Coordinate(box.min, a) < Coordinate(box.max, a);
  }

  /** `LineSegment::new` accepts edge `k` exactly when the box is not thinner than `EPSILON` along its axis. */
  lemma EdgeUnwrapIff(box: Boxes.AABB, k: nat)
    requires k < 12
    ensures var e := BoxEdge(box, k);
      (Segments.New(e.start, e.end).Ok? <==> !ApproxEq(Coordinate(box.min, EdgeAxis(k)), Coordinate(box.max, EdgeAxis(k))))
      && (Segments.New(e.start, e.end).Ok? ==> Segments.New(e.start, e.end).value == e)
  {
    var e := BoxEdge(box, k);
    var a := EdgeAxis(k);
    BoxEdgeAlongAxis(box, k);
    ApproxEqIff(Coordinate(box.min, a), Coordinate(box.max, a));
    ApproxEqIff(Coordinate(e.start, a), Coordinate(e.end, a));
    assert Points.ApproxEqual(e.start, e.end) <==>
      ApproxEq(Coordinate(e.start, 0), Coordinate(e.end, 0))
      && ApproxEq(Coordinate(e.start, 1), Coordinate(e.end, 1))
      && ApproxEq(Coordinate(e.start, 2), Coordinate(e.end, 2));
  }

  /**
   * All twelve unwraps of `add_aabb` succeed exactly when the box is at
   * least `EPSILON` thick along every axis.
   */
  lemma UnwrapsSucceedIff(box: Boxes.AABB)
    ensures EdgeUnwrapsSucceed(box) <==>
      forall a | 0 <= a < 3 :: !ApproxEq(Coordinate(box.min, a), Coordinate(box.max, a))
  {
    forall k | 0 <= k < 12
      ensures var e := BoxEdge(box, k);
        Segments.New(e.start, e.end).Ok? <==> !ApproxEq(Coordinate(box.min, EdgeAxis(k)), Coordinate(box.max, EdgeAxis(k)))
    {
      EdgeUnwrapIff(box, k);
    }
    assert EdgeAxis(0) == 0 && EdgeAxis(1) == 1 && EdgeAxis(8) == 2;
  }

  /**
   * A box `AABB::new` accepts, 1e-11 wide along x, on which `add_aabb` as
   * written panics: its first edge is rejected by `LineSegment::new`.
   */
  lemma ThinBoxPanics(min: Point3D, max: Point3D)
    requires min == Point3D(0.0, 0.0, 0.0) && max == Point3D(0.00000000001, 1.0, 1.0)
    ensures Boxes.New(min, max).Ok?
    ensures !EdgeUnwrapsSucceed(Boxes.AABB(min, max))
  {
    var box := Boxes.AABB(min, max);
    assert ApproxEq(Coordinate(box.min, 0), Coordinate(box.max, 0));
    UnwrapsSucceedIff(box);
  }

  // ---------------------------------------------------------------------
  // Properties of the written text

  /** No `{:.2}` output contains the character `c`. */
  ghost predicate FormatAvoids(fixed2: real -> string, c: char)
  {
    forall x :: c !in fixed2(x)
  }

  lemma FormatAvoidsAt(fixed2: real -> string, c: char, x: real)
    requires FormatAvoids(fixed2, c)
    ensures c !in fixed2(x)
  {
  }

  /** The colours an element carries fit on one line. */
  predicate SingleLine(e: SVGElement)
  {
    '\n' !in e.stroke
    && match e
       case Line(_, _, _, _, _, _) => true
       case Circle(_, _, _, _, fill, _) => fill.Some? ==> '\n' !in fill.value
       case Polygon(_, _, fill, _) => fill.Some? ==> '\n' !in fill.value
  }

  /** The fill attribute, with the value `none` standing for no fill. */
  lemma FillAttributeText(fill: Option<string>)
    ensures fill == None ==> FillAttribute(fill) == "fill=\"none\""
    ensures fill.Some? ==> FillAttribute(fill) == "fill=\"" + fill.value + "\""
  {
    if fill.Some? {
      ConcatAssociative("fill", "=\"", fill.value);
    } else {
      assert "fill" + "=\"" + "none" + "\"" == "fill=\"none\"";
    }
  }

  /**
   * Circles and polygons always carry a fill attribute: `fill="none"` when
   * the element has no fill colour.
   */
  lemma FillIsWritten(e: SVGElement, fixed2: real -> string)
    requires e.Circle? || e.Polygon?
    ensures e.fill == None ==> Contains(ElementString(e, fixed2), "fill=\"none\"")
    ensures e.fill.Some? ==> Contains(ElementString(e, fixed2), "fill=\"" + e.fill.value + "\"")
  {
    var attributes := Attributes(e, fixed2);
    var k := if e.Polygon? then 2 else 4;
    assert attributes[k] == FillAttribute(e.fill);
    JoinContainsPart(attributes, " ", k);
    ContainsWithin("<" + TagName(e) + " ", Join(attributes, " "), " />", FillAttribute(e.fill));
    FillAttributeText(e.fill);
  }

  /** A vertex pair is its two numbers joined by a comma. */
  lemma PointPairIsJoin(p: (real, real), fixed2: real -> string)
    ensures PointPair(p, fixed2) == Join([fixed2(p.0), fixed2(p.1)], ",")
  {
    var parts := [fixed2(p.0), fixed2(p.1)];
    assert parts[1..] == [fixed2(p.1)];
  }

  /**
   * Polygon vertices are written as `x,y` pairs separated by single spaces:
   * when the number format writes no spaces, splitting the points text at
   * the spaces gives back the pairs, and splitting a pair at its comma gives
   * back its two numbers when the format writes no commas either.
   */
  lemma PolygonPointsSplit(points: seq<(real, real)>, fixed2: real -> string)
    requires |points| >= 1 && FormatAvoids(fixed2, ' ')
    ensures Split(Join(PointPairs(points, fixed2), " "), ' ') == PointPairs(points, fixed2)
    ensures FormatAvoids(fixed2, ',') ==>
      forall i | 0 <= i < |points| :: Split(PointPairs(points, fixed2)[i], ',') == [fixed2(points[i].0), fixed2(points[i].1)]
  {
    var pairs := PointPairs(points, fixed2);
    forall i | 0 <= i < |pairs|
      ensures ' ' !in pairs[i]
    {
      FormatAvoidsAt(fixed2, ' ', points[i].0);
      FormatAvoidsAt(fixed2, ' ', points[i].1);
    }
    SplitJoin(pairs, ' ');
    if FormatAvoids(fixed2, ',') {
      forall i | 0 <= i < |points|
        ensures Split(pairs[i], ',') == [fixed2(points[i].0), fixed2(points[i].1)]
      {
        FormatAvoidsAt(fixed2, ',', points[i].0);
        FormatAvoidsAt(fixed2, ',', points[i].1);
        PointPairIsJoin(points[i], fixed2);
        SplitJoin([fixed2(points[i].0), fixed2(points[i].1)], ',');
      }
    }
  }

  lemma AttributeAvoids(name: string, value: string, c: char)
    requires c !in name && c !in value && c != '=' && c != '"'
    ensures c !in Attribute(name, value)
  {
  }

  /** The points text of a polygon holds no line break. */
  lemma PointsAvoid(points: seq<(real, real)>, fixed2: real -> string)
    requires FormatAvoids(fixed2, '\n')
    ensures '\n' !in Join(PointPairs(points, fixed2), " ")
  {
    var pairs := PointPairs(points, fixed2);
    forall i | 0 <= i < |pairs|
      ensures '\n' !in pairs[i]
    {
      FormatAvoidsAt(fixed2, '\n', points[i].0);
      FormatAvoidsAt(fixed2, '\n', points[i].1);
    }
    JoinAvoids(pairs, " ", '\n');
  }

  /** No attribute of a single-line element holds a line break. */
  lemma AttributesAvoid(e: SVGElement, fixed2: real -> string)
    requires SingleLine(e) && FormatAvoids(fixed2, '\n')
    ensures forall i | 0 <= i < |Attributes(e, fixed2)| :: '\n' !in Attributes(e, fixed2)[i]
  {
    match e
    case Circle(cx, cy, r, stroke, fill, strokeWidth) =>
      FormatAvoidsAt(fixed2, '\n', cx);
      FormatAvoidsAt(fixed2, '\n', cy);
      FormatAvoidsAt(fixed2, '\n', r);
      FormatAvoidsAt(fixed2, '\n', strokeWidth);
      AttributeAvoids("cx", fixed2(cx), '\n');
      AttributeAvoids("cy", fixed2(cy), '\n');
      AttributeAvoids("r", fixed2(r), '\n');
      AttributeAvoids("stroke", stroke, '\n');
      AttributeAvoids("fill", if fill.Some? then fill.value else "none", '\n');
      AttributeAvoids("stroke-width", fixed2(strokeWidth), '\n');
    case Line(x1, y1, x2, y2, stroke, strokeWidth) =>
      FormatAvoidsAt(fixed2, '\n', x1);
      FormatAvoidsAt(fixed2, '\n', y1);
      FormatAvoidsAt(fixed2, '\n', x2);
      FormatAvoidsAt(fixed2, '\n', y2);
      FormatAvoidsAt(fixed2, '\n', strokeWidth);
      AttributeAvoids("x1", fixed2(x1), '\n');
      AttributeAvoids("y1", fixed2(y1), '\n');
      AttributeAvoids("x2", fixed2(x2), '\n');
      AttributeAvoids("y2", fixed2(y2), '\n');
      AttributeAvoids("stroke", stroke, '\n');
      AttributeAvoids("stroke-width", fixed2(strokeWidth), '\n');
    case Polygon(points, stroke, fill, strokeWidth) =>
      PointsAvoid(points, fixed2);
      FormatAvoidsAt(fixed2, '\n', strokeWidth);
      AttributeAvoids("points", Join(PointPairs(points, fixed2), " "), '\n');
      AttributeAvoids("stroke", stroke, '\n');
      AttributeAvoids("fill", if fill.Some? then fill.value else "none", '\n');
      AttributeAvoids("stroke-width", fixed2(strokeWidth), '\n');
  }

  /** An element whose colours and numbers hold no line break is written on one line. */
  lemma ElementIsOneLine(e: SVGElement, fixed2: real -> string)
    requires SingleLine(e) && FormatAvoids(fixed2, '\n')
    ensures '\n' !in ElementString(e, fixed2)
  {
    AttributesAvoid(e, fixed2);
    JoinAvoids(Attributes(e, fixed2), " ", '\n');
    assert '\n' !in TagName(e);
  }

  /** The element lines of two lists one after the other are those of the joined list. */
  lemma {:induction false} ElementLinesAppend(a: seq<SVGElement>, b: seq<SVGElement>, fixed2: real -> string)
    ensures ElementLines(a + b, fixed2) == ElementLines(a, fixed2) + ElementLines(b, fixed2)
    decreases |b|
  {
    if |b| == 0 {
      assert a + b == a;
    } else {
      var last := b[|b| - 1];
      assert (a + b)[..|a + b| - 1] == a + b[..|b| - 1];
      ElementLinesAppend(a, b[..|b| - 1], fixed2);
      ConcatAssociative(ElementLines(a, fixed2), ElementLines(b[..|b| - 1], fixed2), ElementLine(last, fixed2));
    }
  }

  /** Element `i` is written after the elements before it and before the ones after it. */
  lemma ElementLinesAt(elements: seq<SVGElement>, i: nat, fixed2: real -> string)
    requires i < |elements|
    ensures ElementLines(elements, fixed2)
      == ElementLines(elements[..i], fixed2) + ElementLine(elements[i], fixed2) + ElementLines(elements[i + 1..], fixed2)
  {
    assert elements == elements[..i + 1] + elements[i + 1..];
    ElementLinesAppend(elements[..i + 1], elements[i + 1..], fixed2);
    ElementLinesStep(elements, i, fixed2);
  }

  /** The document is the header followed by the rest of the output. */
  lemma DocumentParts(width: nat, height: nat, background: Option<string>,
                      elements: seq<SVGElement>, fixed2: real -> string)
    ensures Document(width, height, background, elements, fixed2)
      == Header(width, height) + (BackgroundLine(background) + ElementLines(elements, fixed2) + "</svg>")
  {
    var b := BackgroundLine(background);
    var lines := ElementLines(elements, fixed2);
    ConcatAssociative(Header(width, height), b, lines);
    ConcatAssociative(Header(width, height), b + lines, "</svg>");
  }

  /** The document opens with the `svg` header and ends with the closing tag. */
  lemma DocumentFrame(width: nat, height: nat, background: Option<string>,
                      elements: seq<SVGElement>, fixed2: real -> string)
    ensures var d := Document(width, height, background, elements, fixed2);
      |d| >= |Header(width, height)| + 6
      && d[..|Header(width, height)|] == Header(width, height)
      && d[|d| - 6..] == "</svg>"
      && Contains(d, "<svg") && Contains(d, "</svg>")
  {
    var h := Header(width, height);
    var d := Document(width, height, background, elements, fixed2);
    DocumentParts(width, height, background, elements, fixed2);
    assert d[..|h|] == h;
    assert d[|d| - 6..] == "</svg>";
    assert d[..4] == h[..4] == "<svg";
    assert OccursAt(d, "<svg", 0);
    assert OccursAt(d, "</svg>", |d| - 6);
  }

  /** Every element line opens with two spaces and its tag, `  <c`, `  <l` or `  <p`. */
  lemma ElementLineOpening(e: SVGElement, fixed2: real -> string)
    ensures var line := ElementLine(e, fixed2);
      |line| >= 4 && line[0] == ' ' && line[1] == ' ' && line[2] == '<'
      && line[3] == TagName(e)[0] && line[3] != 'r'
  {
    var es := ElementString(e, fixed2);
    assert es[0] == '<' && es[1] == TagName(e)[0];
  }

  lemma BackgroundLineOpening(bg: string)
    ensures var line := BackgroundLine(Some(bg));
      |line| >= 4 && line[..4] == "  <r"
  {
    var line := BackgroundLine(Some(bg));
    var tag := RectTag(bg);
    assert tag[0] == '<' && tag[1] == 'r';
    assert line[0] == ' ' && line[1] == ' ' && line[2] == tag[0] && line[3] == tag[1];
  }

  /** Without a background, the text after the header does not open with `  <r`. */
  lemma ElementsOpening(elements: seq<SVGElement>, fixed2: real -> string)
    ensures var t := ElementLines(elements, fixed2) + "</svg>";
      |t| >= 4 && (t[0] != ' ' || t[3] != 'r')
  {
    var t := ElementLines(elements, fixed2) + "</svg>";
    if |elements| == 0 {
      assert t == "</svg>";
      assert t[0] == '<';
    } else {
      var first := ElementLine(elements[0], fixed2);
      ElementLinesAt(elements, 0, fixed2);
      assert elements[..0] == [];
      ElementLineOpening(elements[0], fixed2);
      assert ElementLines(elements, fixed2)[3] == first[3];
      assert t[3] == first[3];
    }
  }

  /** The output after any header opens with `  <r` exactly when there is a background. */
  lemma OpeningAfter(h: string, background: Option<string>, elements: seq<SVGElement>, fixed2: real -> string)
    ensures var d := h + (BackgroundLine(background) + ElementLines(elements, fixed2) + "</svg>");
      |d| >= |h| + 4 && (d[|h|..|h| + 4] == "  <r" <==> background.Some?)
  {
    var b := BackgroundLine(background);
    var after := ElementLines(elements, fixed2) + "</svg>";
    var tail := b + ElementLines(elements, fixed2) + "</svg>";
    SliceAfter(h, tail, 4);
    ConcatAssociative(b, ElementLines(elements, fixed2), "</svg>");
    assert tail == b + after;
    if background.Some? {
      BackgroundLineOpening(background.value);
      PrefixOfConcat(b, after, 4);
    } else {
      assert tail == after;
      ElementsOpening(elements, fixed2);
      assert tail[..4][0] == tail[0] && tail[..4][3] == tail[3];
    }
  }

  /**
   * Right after the header comes the background rectangle when a
   * background is set, and something else (an element or the closing tag)
   * when none is.
   */
  lemma BackgroundFollowsHeader(width: nat, height: nat, background: Option<string>,
                                elements: seq<SVGElement>, fixed2: real -> string)
    ensures var d := Document(width, height, background, elements, fixed2);
      var n := |Header(width, height)|;
      |d| >= n + 4 && (d[n..n + 4] == "  <r" <==> background.Some?)
  {
    DocumentParts(width, height, background, elements, fixed2);
    OpeningAfter(Header(width, height), background, elements, fixed2);
  }

  /** Number of line breaks in `s`. */
  function LineBreaks(s: string): nat
  {
    Occurrences(s, '\n')
  }

  /** The breaks of four pieces, the last of which holds none. */
  lemma BreaksBeforeClosing(a: string, b: string, c: string, closing: string)
    requires '\n' !in closing
    ensures LineBreaks(a + b + c + closing) == LineBreaks(a) + LineBreaks(b) + LineBreaks(c)
  {
    OccurrencesZero(closing, '\n');
    OccurrencesAppend(a, b, '\n');
    OccurrencesAppend(a + b, c, '\n');
    OccurrencesAppend(a + b + c, closing, '\n');
  }

  /** A line written with `writeln!` counts one break when the text holds none. */
  lemma WritelnBreaks(text: string)
    requires '\n' !in text
    ensures LineBreaks(Writeln(text)) == 1
  {
    OccurrencesZero(text, '\n');
    OccurrencesAppend(text, "\n", '\n');
    assert "\n"[..0] == [];
  }

  lemma {:induction false} ElementLinesCount(elements: seq<SVGElement>, fixed2: real -> string)
    requires FormatAvoids(fixed2, '\n')
    requires forall i | 0 <= i < |elements| :: SingleLine(elements[i])
    ensures LineBreaks(ElementLines(elements, fixed2)) == |elements|
    decreases |elements|
  {
    if |elements| > 0 {
      var last := elements[|elements| - 1];
      ElementLinesCount(elements[..|elements| - 1], fixed2);
      ElementIsOneLine(last, fixed2);
      WritelnBreaks("  " + ElementString(last, fixed2));
      OccurrencesAppend(ElementLines(elements[..|elements| - 1], fixed2), ElementLine(last, fixed2), '\n');
    }
  }

  lemma HeaderBreaks(width: nat, height: nat)
    ensures LineBreaks(Header(width, height)) == 1
  {
    var w := NatToString(width);
    var h := NatToString(height);
    assert '\n' !in w by {
      assert forall i | 0 <= i < |w| :: w[i] != '\n';
    }
    assert '\n' !in h by {
      assert forall i | 0 <= i < |h| :: h[i] != '\n';
    }
    assert '\n' !in "<svg width=\"";
    assert '\n' !in "\" height=\"";
    assert '\n' !in "\" xmlns=\"http://www.w3.org/2000/svg\">";
    WritelnBreaks(SvgTag(width, height));
  }

  lemma BackgroundBreaks(background: Option<string>)
    requires background.Some? ==> '\n' !in background.value
    ensures LineBreaks(BackgroundLine(background)) == if background.Some? then 1 else 0
  {
    if background.Some? {
      WritelnBreaks("  " + RectTag(background.value));
    }
  }

  /**
   * The document has one line for the header, one for the background when
   * it is set, and one per element; the closing tag ends no line.
   */
  lemma DocumentLineCount(width: nat, height: nat, background: Option<string>,
                          elements: seq<SVGElement>, fixed2: real -> string)
    requires FormatAvoids(fixed2, '\n')
    requires background.Some? ==> '\n' !in background.value
    requires forall i | 0 <= i < |elements| :: SingleLine(elements[i])
    ensures LineBreaks(Document(width, height, background, elements, fixed2))
      == 1 + (if background.Some? then 1 else 0) + |elements|
  {
    ElementLinesCount(elements, fixed2);
    HeaderBreaks(width, height);
    BackgroundBreaks(background);
    BreaksBeforeClosing(Header(width, height), BackgroundLine(background), ElementLines(elements, fixed2), "</svg>");
  }

  lemma AttributeShowsValue(name: string, value: string)
    ensures Contains(Attribute(name, value), value)
  {
    ContainsMiddle(name + "=\"", value, "\"");
  }

  /** The stroke colour is written into the element. */
  lemma StrokeIsWritten(e: SVGElement, fixed2: real -> string)
    ensures Contains(ElementString(e, fixed2), e.stroke)
  {
    var attributes := Attributes(e, fixed2);
    var k := if e.Polygon? then 1 else if e.Circle? then 3 else 4;
    assert attributes[k] == Attribute("stroke", e.stroke);
    AttributeShowsValue("stroke", e.stroke);
    JoinContainsPart(attributes, " ", k);
    ContainsTransitive(Join(attributes, " "), attributes[k], e.stroke);
    ContainsWithin("<" + TagName(e) + " ", Join(attributes, " "), " />", e.stroke);
  }

  lemma BackgroundShowsColour(bg: string)
    ensures Contains(BackgroundLine(Some(bg)), bg)
  {
    ContainsMiddle("<rect width=\"100%\" height=\"100%\" fill=\"", bg, "\" />");
    ContainsWithin("  ", RectTag(bg), "\n", bg);
  }

  /** Each element line, and so each stroke colour, is written into the document. */
  lemma DocumentShowsElement(width: nat, height: nat, background: Option<string>,
                             elements: seq<SVGElement>, fixed2: real -> string, i: nat)
    requires i < |elements|
    ensures Contains(Document(width, height, background, elements, fixed2), ElementLine(elements[i], fixed2))
    ensures Contains(Document(width, height, background, elements, fixed2), elements[i].stroke)
  {
    var h := Header(width, height);
    var b := BackgroundLine(background);
    var lines := ElementLines(elements, fixed2);
    var d := Document(width, height, background, elements, fixed2);
    var line := ElementLine(elements[i], fixed2);
    ElementLinesAt(elements, i, fixed2);
    ContainsMiddle(ElementLines(elements[..i], fixed2), line, ElementLines(elements[i + 1..], fixed2));
    ContainsWithin(h + b, lines, "</svg>", line);
    StrokeIsWritten(elements[i], fixed2);
    ContainsWithin("  ", ElementString(elements[i], fixed2), "\n", elements[i].stroke);
    ContainsTransitive(d, line, elements[i].stroke);
  }

  /** The background colour and every element, with its stroke colour, appear in the document. */
  lemma DocumentShows(width: nat, height: nat, background: Option<string>,
                      elements: seq<SVGElement>, fixed2: real -> string)
    ensures background.Some? ==> Contains(Document(width, height, background, elements, fixed2), background.value)
    ensures forall i | 0 <= i < |elements| ::
      Contains(Document(width, height, background, elements, fixed2), ElementLine(elements[i], fixed2))
      && Contains(Document(width, height, background, elements, fixed2), elements[i].stroke)
  {
    var h := Header(width, height);
    var b := BackgroundLine(background);
    var lines := ElementLines(elements, fixed2);
    if background.Some? {
      BackgroundShowsColour(background.value);
      ContainsWithin(h, b, lines + "</svg>", background.value);
      ConcatAssociative(h + b, lines, "</svg>");
    }
    forall i | 0 <= i < |elements|
      ensures Contains(Document(width, height, background, elements, fixed2), ElementLine(elements[i], fixed2))
      ensures Contains(Document(width, height, background, elements, fixed2), elements[i].stroke)
    {
      DocumentShowsElement(width, height, background, elements, fixed2, i);
    }
  }

  /**
   * The renderer's string test: 800 x 600, a white background and one red
   * point; the output holds the `svg` tags and both colours.
   */
  lemma ToStringExample(point: (real, real), fixed2: real -> string)
    ensures var d := Document(800, 600, Some("#ffffff"),
                              [Circle(point.0, point.1, 5.0, "#ff0000", Some("#ff0000"), 1.0)], fixed2);
      Contains(d, "<svg") && Contains(d, "</svg>") && Contains(d, "#ffffff") && Contains(d, "#ff0000")
  {
    var elements := [Circle(point.0, point.1, 5.0, "#ff0000", Some("#ff0000"), 1.0)];
    DocumentFrame(800, 600, Some("#ffffff"), elements, fixed2);
    DocumentShows(800, 600, Some("#ffffff"), elements, fixed2);
    assert elements[0].stroke == "#ff0000";
  }

  // ---------------------------------------------------------------------
  // The renderer

  class SVGRenderer {
    const width: nat
    const height: nat
    const camera: Camera
    const sqrt: real -> real
    const tan: real -> real
    var background: Option<string>
    var elements: seq<SVGElement>

    /** `SVGRenderer::new`: no background and no elements yet. */
    constructor (width: nat, height: nat, camera: Camera, sqrt: real -> real, tan: real -> real)
      ensures this.width == width && this.height == height && this.camera == camera
      ensures this.sqrt == sqrt && this.tan == tan
      ensures background == None && elements == []
    {
      this.width := width;
      this.height := height;
      this.camera := camera;
      this.sqrt := sqrt;
      this.tan := tan;
      background := None;
      elements := [];
    }

    /** The camera's projection matrix exists (no zero denominators). */
    predicate Projectable()
    {
      ProjectionDefined(camera, tan)
    }

    /** A world point on this renderer's screen. */
    function Project(p: Point3D): (real, real)
      requires Projectable()
    {
      ProjectPoint(p, camera, width, height, sqrt, tan)
    }

    /** The `line` element `add_line_segment` draws for a segment. */
    function SegmentLine(segment: Segments.LineSegment, color: string, strokeWidth: real): SVGElement
      requires Projectable()
    {
      var (x1, y1) := Project(segment.start);
      var (x2, y2) := Project(segment.end);
      Line(x1, y1, x2, y2, color, strokeWidth)
    }

    /** The twelve edge lines of a box, in edge order. */
    function Outline(box: Boxes.AABB, color: string, strokeWidth: real): (r: seq<SVGElement>)
      requires Projectable()
      ensures |r| == 12
    {
      seq(12, k requires 0 <= k < 12 => SegmentLine(BoxEdge(box, k), color, strokeWidth))
    }

    /** The outline circle `add_sphere` draws: centred on the projected centre, never a negative radius. */
    function SphereCircle(sphere: Spheres.Sphere, color: string, strokeWidth: real): (e: SVGElement)
      requires Projectable()
      ensures e.Circle? && e.fill == None && e.r >= 0.0
      ensures (e.cx, e.cy) == Project(sphere.center)
      ensures e.r == Abs(Project(RadiusPoint(sphere)).0 - e.cx)
    {
      var centre := Project(sphere.center);
      Circle(centre.0, centre.1, Abs(Project(RadiusPoint(sphere)).0 - centre.0), color, None, strokeWidth)
    }

    /**
     * A sphere centred on the point the camera looks at is drawn centred on
     * the screen (when the camera's frame is well defined).
     */
    lemma SphereAtTargetIsCentred(sphere: Spheres.Sphere, color: string, strokeWidth: real)
      requires Projectable() && sphere.center == camera.target
      requires SqrtAt(sqrt, MagnitudeSquared(FromPoints(camera.position, camera.target))) && SqrtAt(sqrt, 1.0)
      requires Normalize(FromPoints(camera.position, camera.target), sqrt).Ok?
      requires Normalize(Cross(Forward(camera, sqrt), camera.up), sqrt).Ok?
      ensures SphereCircle(sphere, color, strokeWidth).cx == width as real / 2.0
      ensures SphereCircle(sphere, color, strokeWidth).cy == height as real / 2.0
    {
      TargetProjectsToCentre(camera, width, height, sqrt, tan);
    }

    /** `set_background`: sets or replaces the background colour. */
    method SetBackground(color: string)
      modifies this`background
      ensures background == Some(color)
    {
      background := Some(color);
    }

    /** `add_point`: a filled dot of radius `size` in the given colour. */
    method AddPoint(point: Point3D, color: string, size: real)
      requires Projectable()
      modifies this`elements
      ensures elements == old(elements) + [Circle(Project(point).0, Project(point).1, size, color, Some(color), 1.0)]
    {
      var (x, y) := Project(point);
      elements := elements + [Circle(x, y, size, color, Some(color), 1.0)];
    }

    /** `add_line_segment`: a line between the projected end points. */
    method AddLineSegment(segment: Segments.LineSegment, color: string, strokeWidth: real)
      requires Projectable()
      modifies this`elements
      ensures elements == old(elements) + [SegmentLine(segment, color, strokeWidth)]
      ensures var (x1, y1) := Project(segment.start); var (x2, y2) := Project(segment.end);
        elements[|elements| - 1] == Line(x1, y1, x2, y2, color, strokeWidth)
    {
      var (x1, y1) := Project(segment.start);
      var (x2, y2) := Project(segment.end);
      elements := elements + [Line(x1, y1, x2, y2, color, strokeWidth)];
    }

    /** `add_triangle`: a polygon through the three projected vertices. */
    method AddTriangle(triangle: Triangles.Triangle, stroke: string, fill: Option<string>, strokeWidth: real)
      requires Projectable()
      modifies this`elements
      ensures elements == old(elements)
        + [Polygon([Project(triangle.a), Project(triangle.b), Project(triangle.c)], stroke, fill, strokeWidth)]
    {
      var p1 := Project(triangle.a);
      var p2 := Project(triangle.b);
      var p3 := Project(triangle.c);
      elements := elements + [Polygon([p1, p2, p3], stroke, fill, strokeWidth)];
    }

    /** `add_sphere`: an unfilled circle whose radius is the projected horizontal radius. */
    method AddSphere(sphere: Spheres.Sphere, color: string, strokeWidth: real)
      requires Projectable()
      modifies this`elements
      ensures elements == old(elements) + [SphereCircle(sphere, color, strokeWidth)]
    {
      var circle := SphereCircle(sphere, color, strokeWidth);
      elements := elements + [circle];
    }

    /**
     * `add_aabb`: the twelve edges of the box as lines, in edge order.  No
     * edge is unwrapped, so every box is drawn (see `ThinBoxPanics`).
     */
    method AddAabb(box: Boxes.AABB, color: string, strokeWidth: real)
      requires Projectable()
      modifies this`elements
      ensures elements == old(elements) + Outline(box, color, strokeWidth)
      ensures |elements| == |old(elements)| + 12
      ensures forall k | |old(elements)| <= k < |elements| :: elements[k].Line?
    {
      ghost var before := elements;
      for k := 0 to 12
        invariant elements == before + Outline(box, color, strokeWidth)[..k]
      {
        ghost var drawn := Outline(box, color, strokeWidth);
        assert drawn[..k + 1] == drawn[..k] + [SegmentLine(BoxEdge(box, k), color, strokeWidth)];
        ConcatAssociative(before, drawn[..k], [SegmentLine(BoxEdge(box, k), color, strokeWidth)]);
        AddLineSegment(BoxEdge(box, k), color, strokeWidth);
      }
      assert Outline(box, color, strokeWidth)[..12] == Outline(box, color, strokeWidth);
    }

    /** `to_svg_string` / `Display`: the header, the background, the element lines in order, the closing tag. */
    method ToSvgString(fixed2: real -> string) returns (s: string)
      ensures s == Document(width, height, background, elements, fixed2)
    {
      s := Header(width, height);
      if background.Some? {
        s := s + BackgroundLine(background);
      }
      ghost var opening := s;
      assert opening == Header(width, height) + BackgroundLine(background);
      for i := 0 to |elements|
        invariant s == opening + ElementLines(elements[..i], fixed2)
      {
        ElementLinesStep(elements, i, fixed2);
        ConcatAssociative(opening, ElementLines(elements[..i], fixed2), ElementLine(elements[i], fixed2));
        s := s + ElementLine(elements[i], fixed2);
      }
      assert elements[..|elements|] == elements;
      s := s + "</svg>";
    }
  }
}
