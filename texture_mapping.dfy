/**
 * The per-frame pass of the acquisition loop that turns the camera's vertices
 * and texture coordinates into the range, reflectance and confidence
 * components of the point-cloud container.
 */
module TextureMapping {
  import opened Pixels
  import opened Indexing

  /** SPoint3d: a vertex position with three coordinates of the float type F.
      The pass only copies vertices, so F is left abstract. */
  datatype Point3d<F> = Point3d(x: F, y: F, z: F)

  /** SPoint2d: a normalised texture coordinate. Floats are modelled as reals. */
  datatype TexCoord = TexCoord(u: real, v: real)

  /** The guard of the colour branch: the coordinate lies in [0, 1] x [0, 1]. */
  predicate InUnitSquare(t: TexCoord) {
    t.u >= 0.0 && t.u <= 1.0 && t.v >= 0.0 && t.v <= 1.0
  }

  /** A normalised coordinate scaled to a texture of `size` texels (the
      float product u * TextureWidth, or v * TextureHeight). */
  function Scaled(c: real, size: nat): real {
    c * size as real
  }

  /** Scaling a normalised coordinate in [0, 1] by the texture size keeps it
      in [0, size], strictly below size when the coordinate is below 1. */
  lemma ScaledCoordinate(c: real, size: nat)
    requires c >= 0.0
    ensures 0.0 <= Scaled(c, size)
    ensures c < 1.0 && size > 0 ==> Scaled(c, size) < size as real
    ensures c == 1.0 ==> Scaled(c, size) == size as real
  {
    var s := size as real;
    assert Scaled(c, size) == c * s;
    assert 0.0 <= c * s;
    if c < 1.0 && size > 0 {
      var d := 1.0 - c;
      assert 0.0 < d && 0.0 < s;
      assert 0.0 < d * s;
      assert c * s == s - d * s;
    }
    if c == 1.0 {
      assert c * s == s;
    }
  }

  /** The texel column (or row) for a normalised coordinate c on a texture of
      `size` texels: the coordinate is scaled, truncated to an unsigned
      integer (the floor, since c is not negative) and reduced modulo size.
      The result is always a valid texel; below 1 it is the texel whose span
      contains the scaled coordinate, and the right (bottom) edge c == 1
      wraps to 0. */
  function TexelIndex(c: real, size: nat): (m: nat)
    requires c >= 0.0 && size > 0
    ensures m < size
    ensures c < 1.0 ==> m as real <= Scaled(c, size) < m as real + 1.0
    ensures c == 1.0 ==> m == 0
  {
    ScaledCoordinate(c, size);
    FloorModulo(Scaled(c, size), size);
    Scaled(c, size).Floor % size
  }

  /** Truncating a scaled coordinate in [0, size) and reducing it modulo size
      keeps the truncated value; the edge value size itself wraps to 0. */
  lemma FloorModulo(r: real, size: nat)
    requires 0.0 <= r && size > 0
    ensures r < size as real ==> 0 <= r.Floor < size && r.Floor % size == r.Floor
    ensures r < size as real ==> (r.Floor % size) as real <= r < (r.Floor % size) as real + 1.0
    ensures r == size as real ==> r.Floor % size == 0
  {
    var f := r.Floor;
    assert f as real <= r < f as real + 1.0;
    assert 0 <= f;
    if r < size as real {
      assert f < size;
      LinearCoordinates(f, 0, size);
    }
    if r == size as real {
      assert f == size;
      LinearCoordinates(0, 1, size);
    }
  }

  /** The texture lookup of one point: the receiver's colour channels become
      the three consecutive bytes of the RGB8 texel the coordinate maps to;
      its alpha channel is kept. */
  function Texel(t: TexCoord, texW: nat, texH: nat, stride: nat, colorData: seq<byte>, prior: Color): (c: Color)
    requires InUnitSquare(t) && ColorFrameFits(texW, texH, stride, |colorData|)
    ensures c.a == prior.a
  {
    var col := TexelIndex(t.u, texW);
    var row := TexelIndex(t.v, texH);
    ColorOffsetInBounds(col, row, texW, texH, stride, |colorData|);
    var k := ColorOffset(col, row, stride);
    prior.(x := colorData[k], y := colorData[k + 1], z := colorData[k + 2])
  }

  /** The texel a coordinate falls on: below 1 the scaled coordinate lies in
      its span, and the edge value 1 belongs to the first texel. */
  predicate Covers(c: real, size: nat, m: nat) {
    if c < 1.0 then m as real <= Scaled(c, size) < m as real + 1.0 else m == 0
  }

  /** The lookup reads the three bytes of the texel that covers the point's
      scaled texture coordinates, whichever way that texel is found. */
  lemma TexelOfCoveringCell(t: TexCoord, texW: nat, texH: nat, stride: nat, colorData: seq<byte>,
                            prior: Color, col: nat, row: nat)
    requires InUnitSquare(t) && ColorFrameFits(texW, texH, stride, |colorData|)
    requires col < texW && Covers(t.u, texW, col) && row < texH && Covers(t.v, texH, row)
    ensures 0 <= ColorOffset(col, row, stride) && ColorOffset(col, row, stride) + 2 < |colorData|
    ensures Texel(t, texW, texH, stride, colorData, prior) ==
              prior.(x := colorData[ColorOffset(col, row, stride)],
                     y := colorData[ColorOffset(col, row, stride) + 1],
                     z := colorData[ColorOffset(col, row, stride) + 2])
  {
    ColorOffsetInBounds(col, row, texW, texH, stride, |colorData|);
    assert TexelIndex(t.u, texW) == col;
    assert TexelIndex(t.v, texH) == row;
  }

  /** What the set-up before the acquisition loop decides about texturing:
      whether the reflectance component was allocated, and the texture size
      the pass scales by (0 unless set). */
  datatype TextureSetup = TextureSetup(reflectanceAllocated: bool, texW: nat, texH: nat)

  /** The set-up, from the first frame set: the texture size is recorded and
      the reflectance component allocated only when that frame has a colour
      frame in RGB8 format; otherwise the texture size stays 0. */
  function SetUpTexture(firstHasColor: bool, firstIsRgb8: bool, colorW: nat, colorH: nat): (s: TextureSetup)
    ensures s.reflectanceAllocated <==> firstHasColor && firstIsRgb8
    ensures s.reflectanceAllocated ==> s.texW == colorW && s.texH == colorH
    ensures !s.reflectanceAllocated ==> s.texW == 0 && s.texH == 0
  {
    if firstHasColor && firstIsRgb8 then TextureSetup(true, colorW, colorH) else TextureSetup(false, 0, 0)
  }

  /** The colour branch as the pass is written: taken whenever the current
      frame set has a colour frame. The allocation flag is ignored; it is a
      parameter only so that the guard reads like the corrected `Textures`. */
  predicate TexturesAsWritten(frameHasColor: bool, reflectanceAllocated: bool) {
    frameHasColor
  }

  /** The colour branch as evidently intended: taken when the current frame
      set has a colour frame and there is a reflectance component to fill. */
  predicate Textures(frameHasColor: bool, reflectanceAllocated: bool) {
    frameHasColor && reflectanceAllocated
  }

  /** As written, a first colour frame in a format other than RGB8 leaves no
      reflectance component and a texture width of 0, yet the colour branch
      is still taken for every later frame with colour: it reduces modulo 0
      and writes through a null reflectance pointer. */
  lemma AsWrittenBranchWithoutTexture()
    ensures var s := SetUpTexture(true, false, 640, 480);
            TexturesAsWritten(true, s.reflectanceAllocated) &&
            !s.reflectanceAllocated && s.texW == 0 && s.texH == 0
  {
  }

  /** With the intended guard, the colour branch is taken only when the set-up
      allocated the reflectance component with a non-empty texture, and then
      exactly when the current and the first frame sets have colour and the
      first was RGB8. */
  lemma BranchHasTexture(firstHasColor: bool, firstIsRgb8: bool, colorW: nat, colorH: nat, frameHasColor: bool)
    requires colorW > 0 && colorH > 0
    ensures var s := SetUpTexture(firstHasColor, firstIsRgb8, colorW, colorH);
            (Textures(frameHasColor, s.reflectanceAllocated) ==>
               s.reflectanceAllocated && s.texW > 0 && s.texH > 0) &&
            (Textures(frameHasColor, s.reflectanceAllocated) <==>
               frameHasColor && firstHasColor && firstIsRgb8)
  {
  }

  /** One iteration of the pass: the column, row and running index it handled. */
  datatype Visit = Visit(x: int, y: int, p: int)

  /** The first `done` iterations of the pass over a grid `width` points
      wide, as the row-major order prescribes: iteration q handles column
      q % width of row q / width. */
  function Visits(width: nat, done: nat): (t: seq<Visit>)
    requires width > 0 || done == 0
    ensures |t| == done
  {
    if done == 0 then []
    else Visits(width, done - 1) + [Visit((done - 1) % width, (done - 1) / width, done - 1)]
  }

  /** Handling column x of row y as iteration y * width + x extends the
      row-major order by one. */
  lemma VisitsStep(width: nat, x: nat, y: nat)
    requires x < width
    ensures Visits(width, Linear(x, y, width) + 1) == Visits(width, Linear(x, y, width)) + [Visit(x, y, Linear(x, y, width))]
  {
    LinearCoordinates(x, y, width);
  }

  /** The iterations so far handled the indices 0, 1, 2, ... in order, each at
      a column and row of the grid whose row-major index it is. */
  ghost predicate VisitedInOrder(trace: seq<Visit>, width: nat, height: nat) {
    forall k :: 0 <= k < |trace| ==>
      trace[k].p == k && 0 <= trace[k].x < width && 0 <= trace[k].y < height &&
      Linear(trace[k].x, trace[k].y, width) == trace[k].p
  }

  /** The row-major order stays inside the grid and keeps p == y * width + x
      at every iteration. */
  lemma {:induction false} VisitsInOrder(width: nat, height: nat, done: nat)
    requires done <= width * height
    ensures width > 0 || done == 0
    ensures VisitedInOrder(Visits(width, done), width, height)
  {
    if done > 0 {
      LinearOnto(done - 1, width, height);
      VisitsInOrder(width, height, done - 1);
    }
  }

  /** A complete pass visits every cell of the grid: cell (x, y) at
      iteration y * width + x, so each cell exactly once. */
  lemma EveryCellVisited(trace: seq<Visit>, width: nat, height: nat)
    requires VisitedInOrder(trace, width, height) && |trace| == width * height
    ensures forall x, y :: 0 <= x < width && 0 <= y < height ==>
              0 <= Linear(x, y, width) < |trace| &&
              trace[Linear(x, y, width)] == Visit(x, y, Linear(x, y, width))
  {
    forall x, y | 0 <= x < width && 0 <= y < height
      ensures 0 <= Linear(x, y, width) < |trace|
      ensures trace[Linear(x, y, width)] == Visit(x, y, Linear(x, y, width))
    {
      var k := Linear(x, y, width);
      LinearBounds(x, y, width, height, width);
      LinearInjective(x, y, trace[k].x, trace[k].y, width);
    }
  }

  /** The copy of a vertex into the range component is made outside the
      colour branch, and inside it only for coordinates in the unit square. */
  predicate Copies(textured: bool, t: TexCoord) {
    !textured || InUnitSquare(t)
  }

  /** The range component after the pass has handled points 0 .. done - 1,
      one point at a time. */
  function RangeAfter<F>(before: seq<Point3d<F>>, vertices: seq<Point3d<F>>, texCoords: seq<TexCoord>,
                         textured: bool, done: nat): (r: seq<Point3d<F>>)
    requires done <= |before| && done <= |vertices| && done <= |texCoords|
    ensures |r| == |before|
  {
    if done == 0 then before
    else
      var prev := RangeAfter(before, vertices, texCoords, textured, done - 1);
      if Copies(textured, texCoords[done - 1]) then prev[done - 1 := vertices[done - 1]] else prev
  }

  /** A handled point holds its vertex when it is copied; every other entry,
      including the points outside the unit square, keeps its earlier value. */
  lemma {:induction false} RangeAfterEntries<F>(before: seq<Point3d<F>>, vertices: seq<Point3d<F>>,
                                                texCoords: seq<TexCoord>, textured: bool, done: nat)
    requires done <= |before| && done <= |vertices| && done <= |texCoords|
    ensures forall i :: 0 <= i < |before| ==>
              RangeAfter(before, vertices, texCoords, textured, done)[i] ==
                if i < done && Copies(textured, texCoords[i]) then vertices[i] else before[i]
  {
    if done > 0 {
      RangeAfterEntries(before, vertices, texCoords, textured, done - 1);
    }
  }

  /** The reflectance component after the pass has handled points
      0 .. done - 1: in the colour branch, a point inside the unit square
      takes the colour of its texel. */
  function ReflectanceAfter(before: seq<Color>, texCoords: seq<TexCoord>, textured: bool,
                            texW: nat, texH: nat, stride: nat, colorData: seq<byte>, done: nat): (r: seq<Color>)
    requires done <= |before| && done <= |texCoords|
    requires textured ==> ColorFrameFits(texW, texH, stride, |colorData|)
    ensures |r| == |before|
  {
    if done == 0 then before
    else
      var prev := ReflectanceAfter(before, texCoords, textured, texW, texH, stride, colorData, done - 1);
      var t := texCoords[done - 1];
      if textured && InUnitSquare(t)
      then prev[done - 1 := Texel(t, texW, texH, stride, colorData, prev[done - 1])]
      else prev
  }

  /** A handled point in the unit square holds the colour of its texel with
      its alpha kept; every other entry keeps its earlier value. */
  lemma {:induction false} ReflectanceAfterEntries(before: seq<Color>, texCoords: seq<TexCoord>, textured: bool,
                                                   texW: nat, texH: nat, stride: nat, colorData: seq<byte>,
                                                   done: nat)
    requires done <= |before| && done <= |texCoords|
    requires textured ==> ColorFrameFits(texW, texH, stride, |colorData|)
    ensures forall i :: 0 <= i < |before| ==>
              ReflectanceAfter(before, texCoords, textured, texW, texH, stride, colorData, done)[i] ==
                if textured && i < done && InUnitSquare(texCoords[i])
                then Texel(texCoords[i], texW, texH, stride, colorData, before[i])
                else before[i]
  {
    if done > 0 {
      ReflectanceAfterEntries(before, texCoords, textured, texW, texH, stride, colorData, done - 1);
    }
  }

  /** Outside the colour branch the pass copies every vertex and leaves the
      reflectance component as it was. */
  lemma {:induction false} UntexturedPassCopiesAll<F>(range: seq<Point3d<F>>, colors: seq<Color>,
                                                      vertices: seq<Point3d<F>>, texCoords: seq<TexCoord>,
                                                      texW: nat, texH: nat, stride: nat, colorData: seq<byte>,
                                                      done: nat)
    requires done <= |range| && done <= |colors| && done <= |vertices| && done <= |texCoords|
    ensures forall i :: 0 <= i < done ==> RangeAfter(range, vertices, texCoords, false, done)[i] == vertices[i]
    ensures ReflectanceAfter(colors, texCoords, false, texW, texH, stride, colorData, done) == colors
  {
    RangeAfterEntries(range, vertices, texCoords, false, done);
    ReflectanceAfterEntries(colors, texCoords, false, texW, texH, stride, colorData, done);
  }

  /** The confidence buffer holds `height` rows of `pitch` bytes, of which the
      last needs only its first `width`. */
  predicate PitchedFits(width: nat, height: nat, pitch: nat, length: nat) {
    width <= pitch && (height > 0 ==> (height - 1) * pitch + width <= length)
  }

  /** The confidence component after the pass has handled points
      0 .. done - 1: when confidence is extracted, point q's byte goes to
      column q % width of row q / width of the pitched buffer. */
  function ConfidenceAfter(before: seq<byte>, confidenceData: seq<byte>, extract: bool,
                           width: nat, height: nat, pitch: nat, done: nat): (r: seq<byte>)
    requires done <= width * height
    requires extract ==> done <= |confidenceData| && PitchedFits(width, height, pitch, |before|)
    ensures |r| == |before|
  {
    if done == 0 || !extract then before
    else
      var q := done - 1;
      LinearOnto(q, width, height);
      LinearBounds(q % width, q / width, width, height, pitch);
      var prev := ConfidenceAfter(before, confidenceData, extract, width, height, pitch, q);
      prev[Linear(q % width, q / width, pitch) := confidenceData[q]]
  }

  /** The cells written by the first `done` points are exactly those before
      the pass's position (done % width, done / width); each holds the byte
      of its own point, and every other entry keeps its earlier value. */
  lemma {:induction false} ConfidenceAfterEntries(before: seq<byte>, confidenceData: seq<byte>,
                                                  width: nat, height: nat, pitch: nat, done: nat)
    requires width > 0 && done <= width * height
    requires done <= |confidenceData| && PitchedFits(width, height, pitch, |before|)
    ensures forall i :: 0 <= i < |before| ==>
              if WrittenBefore(i, width, pitch, done % width, done / width)
              then 0 <= Linear(i % pitch, i / pitch, width) < done &&
                   ConfidenceAfter(before, confidenceData, true, width, height, pitch, done)[i] ==
                     confidenceData[Linear(i % pitch, i / pitch, width)]
              else ConfidenceAfter(before, confidenceData, true, width, height, pitch, done)[i] == before[i]
  {
    if done > 0 {
      var q := done - 1;
      ConfidenceAfterEntries(before, confidenceData, width, height, pitch, q);
      LinearOnto(q, width, height);
      var x, y := q % width, q / width;
      LinearCoordinates(x, y, pitch);
      LinearBounds(x, y, width, height, pitch);
      var k := Linear(x, y, pitch);
      var prev := ConfidenceAfter(before, confidenceData, true, width, height, pitch, q);
      var now := ConfidenceAfter(before, confidenceData, true, width, height, pitch, done);
      assert now == prev[k := confidenceData[q]];
      forall i | 0 <= i < |before|
        ensures if WrittenBefore(i, width, pitch, done % width, done / width)
                then 0 <= Linear(i % pitch, i / pitch, width) < done &&
                     now[i] == confidenceData[Linear(i % pitch, i / pitch, width)]
                else now[i] == before[i]
      {
        WrittenAdvance(i, width, pitch, q);
      }
    }
  }

  /** After a complete pass that extracts confidence, column x of row y of
      the pitched buffer holds the byte of point y * width + x, and the
      padding at the end of each row keeps its earlier value. */
  lemma ConfidenceAtGridCells(before: seq<byte>, confidenceData: seq<byte>, width: nat, height: nat, pitch: nat)
    requires |confidenceData| >= width * height && PitchedFits(width, height, pitch, |before|)
    ensures var now := ConfidenceAfter(before, confidenceData, true, width, height, pitch, width * height);
            (forall x, y :: 0 <= x < width && 0 <= y < height ==>
               0 <= Linear(x, y, pitch) < |now| &&
               Linear(x, y, width) < |confidenceData| &&
               now[Linear(x, y, pitch)] == confidenceData[Linear(x, y, width)]) &&
            (forall i :: 0 <= i < |now| && !IsGridCell(i, width, height, pitch) ==> now[i] == before[i])
  {
    if width > 0 {
      var now := ConfidenceAfter(before, confidenceData, true, width, height, pitch, width * height);
      ConfidenceAfterEntries(before, confidenceData, width, height, pitch, width * height);
      LinearCoordinates(0, height, width);
      forall x, y | 0 <= x < width && 0 <= y < height
        ensures 0 <= Linear(x, y, pitch) < |now|
        ensures Linear(x, y, width) < |confidenceData|
        ensures now[Linear(x, y, pitch)] == confidenceData[Linear(x, y, width)]
      {
        LinearBounds(x, y, width, height, pitch);
        LinearBounds(x, y, width, height, width);
        LinearCoordinates(x, y, pitch);
        assert WrittenBefore(Linear(x, y, pitch), width, pitch, 0, height);
      }
    }
  }
}
