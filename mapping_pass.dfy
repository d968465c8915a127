/**
 * The per-frame pass itself: the nested loop over the camera grid that fills
 * the range, reflectance and confidence components of the point-cloud
 * container, proved against the specification functions of TextureMapping.
 */
module MappingPass {
  import opened Pixels
  import opened Indexing
  import opened TextureMapping

  /** One pass over a width-by-height grid of camera points. Point p of the
      grid is handled at column x == p % width of row y == p / width; it is
      copied to pointCloud[p] outside the colour branch, and inside it only
      when its texture coordinate lies in the unit square, in which case
      reflectance[p] also takes the colour of the texel the coordinate maps
      to. When confidence is extracted, the point's confidence byte goes to
      column x of row y of the pitched confidence buffer. An unallocated
      component is a null array. The ghost trace records the iterations. */
  method MapFrame<F>(
    vertices: seq<Point3d<F>>, texCoords: seq<TexCoord>,
    hasColor: bool, colorData: seq<byte>, stride: nat, texW: nat, texH: nat,
    extractConfidence: bool, confidenceData: seq<byte>,
    width: nat, height: nat,
    pointCloud: array<Point3d<F>>, reflectance: array?<Color>,
    confidence: array?<byte>, confPitch: nat)
    returns (ghost trace: seq<Visit>)
    requires |vertices| >= width * height && |texCoords| >= width * height
    requires pointCloud.Length >= width * height
    requires reflectance != null ==> reflectance.Length >= width * height
    requires Textures(hasColor, reflectance != null) ==> ColorFrameFits(texW, texH, stride, |colorData|)
    requires extractConfidence ==>
               confidence != null && |confidenceData| >= width * height &&
               PitchedFits(width, height, confPitch, confidence.Length)
    modifies pointCloud, reflectance, confidence
    ensures trace == Visits(width, width * height)
    ensures pointCloud[..] ==
              RangeAfter(old(pointCloud[..]), vertices, texCoords, Textures(hasColor, reflectance != null),
                         width * height)
    ensures reflectance != null ==>
              reflectance[..] ==
                ReflectanceAfter(old(reflectance[..]), texCoords, Textures(hasColor, true),
                                 texW, texH, stride, colorData, width * height)
    ensures confidence != null ==>
              confidence[..] ==
                ConfidenceAfter(old(confidence[..]), confidenceData, extractConfidence,
                                width, height, confPitch, width * height)
  {
    ghost var textured := Textures(hasColor, reflectance != null);
    ghost var range0 := pointCloud[..];
    ghost var colors0 := if reflectance != null then reflectance[..] else [];
    ghost var conf0 := if confidence != null then confidence[..] else [];
    trace := [];
    var p := 0;
    var y := 0;
    while y < height
      invariant 0 <= y <= height && p == Linear(0, y, width) && p <= width * height
      invariant trace == Visits(width, p)
      invariant pointCloud[..] == RangeAfter(range0, vertices, texCoords, textured, p)
      invariant reflectance != null ==>
                  reflectance[..] == ReflectanceAfter(colors0, texCoords, textured, texW, texH, stride, colorData, p)
      invariant confidence != null ==>
                  confidence[..] == ConfidenceAfter(conf0, confidenceData, extractConfidence,
                                                    width, height, confPitch, p)
    {
      RowEndBound(y, width, height);
      RowEnd(y, width);
      p, trace := MapRow(y, p, trace, vertices, texCoords, hasColor, colorData, stride, texW, texH,
                         extractConfidence, confidenceData, width, height,
                         pointCloud, reflectance, confidence, confPitch, range0, colors0, conf0);
      y := y + 1;
    }
    GridEnd(width, height);
  }

  /** The inner loop of the pass: row y, from running index p0 on. The
      ghost sequences are the contents of the components before the pass. */
  method MapRow<F>(
    y: nat, p0: nat, ghost trace0: seq<Visit>,
    vertices: seq<Point3d<F>>, texCoords: seq<TexCoord>,
    hasColor: bool, colorData: seq<byte>, stride: nat, texW: nat, texH: nat,
    extractConfidence: bool, confidenceData: seq<byte>,
    width: nat, height: nat,
    pointCloud: array<Point3d<F>>, reflectance: array?<Color>,
    confidence: array?<byte>, confPitch: nat,
    ghost range0: seq<Point3d<F>>, ghost colors0: seq<Color>, ghost conf0: seq<byte>)
    returns (p: nat, ghost trace: seq<Visit>)
    requires y < height && p0 == Linear(0, y, width) && p0 + width <= width * height
    requires |vertices| >= width * height && |texCoords| >= width * height
    requires Textures(hasColor, reflectance != null) ==> ColorFrameFits(texW, texH, stride, |colorData|)
    requires extractConfidence ==>
               confidence != null && |confidenceData| >= width * height &&
               PitchedFits(width, height, confPitch, |conf0|)
    requires trace0 == Visits(width, p0)
    requires |range0| >= width * height &&
             pointCloud[..] == RangeAfter(range0, vertices, texCoords, Textures(hasColor, reflectance != null), p0)
    requires reflectance != null ==>
               |colors0| >= width * height &&
               reflectance[..] == ReflectanceAfter(colors0, texCoords, Textures(hasColor, true),
                                                   texW, texH, stride, colorData, p0)
    requires confidence != null ==>
               confidence[..] == ConfidenceAfter(conf0, confidenceData, extractConfidence,
                                                 width, height, confPitch, p0)
    modifies pointCloud, reflectance, confidence
    ensures p == p0 + width && p == Linear(0, y + 1, width) && trace == Visits(width, p)
    ensures pointCloud[..] == RangeAfter(range0, vertices, texCoords, Textures(hasColor, reflectance != null), p)
    ensures reflectance != null ==>
              reflectance[..] == ReflectanceAfter(colors0, texCoords, Textures(hasColor, true),
                                                  texW, texH, stride, colorData, p)
    ensures confidence != null ==>
              confidence[..] == ConfidenceAfter(conf0, confidenceData, extractConfidence,
                                                width, height, confPitch, p)
  {
    ghost var textured := Textures(hasColor, reflectance != null);
    RowEnd(y, width);
    p, trace := p0, trace0;
    var x := 0;
    while x < width
      invariant 0 <= x <= width && p == p0 + x && p == Linear(x, y, width)
      invariant trace == Visits(width, p)
      invariant pointCloud[..] == RangeAfter(range0, vertices, texCoords, textured, p)
      invariant reflectance != null ==>
                  reflectance[..] == ReflectanceAfter(colors0, texCoords, textured, texW, texH, stride, colorData, p)
      invariant confidence != null ==>
                  confidence[..] == ConfidenceAfter(conf0, confidenceData, extractConfidence,
                                                    width, height, confPitch, p)
    {
      MapPoint(p, x, y, vertices, texCoords, hasColor, colorData, stride, texW, texH,
               extractConfidence, confidenceData, width, height,
               pointCloud, reflectance, confidence, confPitch, range0, colors0, conf0);
      VisitsStep(width, x, y);
      trace := trace + [Visit(x, y, p)];
      p := p + 1;
      x := x + 1;
    }
  }

  /** The body of the pass for point p, at column x of row y: it takes each
      component from its content after the first p points of the pass to its
      content after the first p + 1. The ghost sequences are the contents of
      the components before the pass. */
  method MapPoint<F>(
    p: nat, x: nat, y: nat,
    vertices: seq<Point3d<F>>, texCoords: seq<TexCoord>,
    hasColor: bool, colorData: seq<byte>, stride: nat, texW: nat, texH: nat,
    extractConfidence: bool, confidenceData: seq<byte>,
    width: nat, height: nat,
    pointCloud: array<Point3d<F>>, reflectance: array?<Color>,
    confidence: array?<byte>, confPitch: nat,
    ghost range0: seq<Point3d<F>>, ghost colors0: seq<Color>, ghost conf0: seq<byte>)
    requires x < width && y < height && p == Linear(x, y, width) && p < width * height
    requires |vertices| >= width * height && |texCoords| >= width * height
    requires Textures(hasColor, reflectance != null) ==> ColorFrameFits(texW, texH, stride, |colorData|)
    requires extractConfidence ==>
               confidence != null && |confidenceData| >= width * height &&
               PitchedFits(width, height, confPitch, |conf0|)
    requires |range0| >= width * height &&
             pointCloud[..] == RangeAfter(range0, vertices, texCoords, Textures(hasColor, reflectance != null), p)
    requires reflectance != null ==>
               |colors0| >= width * height &&
               reflectance[..] == ReflectanceAfter(colors0, texCoords, Textures(hasColor, true),
                                                   texW, texH, stride, colorData, p)
    requires confidence != null ==>
               confidence[..] == ConfidenceAfter(conf0, confidenceData, extractConfidence,
                                                 width, height, confPitch, p)
    modifies pointCloud, reflectance, confidence
    ensures pointCloud[..] == RangeAfter(range0, vertices, texCoords, Textures(hasColor, reflectance != null), p + 1)
    ensures reflectance != null ==>
              reflectance[..] == ReflectanceAfter(colors0, texCoords, Textures(hasColor, true),
                                                  texW, texH, stride, colorData, p + 1)
    ensures confidence != null ==>
              confidence[..] == ConfidenceAfter(conf0, confidenceData, extractConfidence,
                                                width, height, confPitch, p + 1)
  {
    if hasColor && reflectance != null {
      if InUnitSquare(texCoords[p]) {
        pointCloud[p] := vertices[p];
        var mappedX := TexelIndex(texCoords[p].u, texW);
        var mappedY := TexelIndex(texCoords[p].v, texH);
        var k := ColorOffset(mappedX, mappedY, stride);
        ColorOffsetInBounds(mappedX, mappedY, texW, texH, stride, |colorData|);
        reflectance[p] := reflectance[p].(x := colorData[k], y := colorData[k + 1], z := colorData[k + 2]);
      }
    } else {
      pointCloud[p] := vertices[p];
    }
    if extractConfidence {
      LinearCoordinates(x, y, width);
      LinearBounds(x, y, width, height, confPitch);
      confidence[Linear(x, y, confPitch)] := confidenceData[p];
    }
  }
}
