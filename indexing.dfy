/**
 * Index arithmetic of the mapping pass: linear indices into row-major and
 * pitched 2-D buffers, and byte offsets into a packed RGB8 colour frame.
 */
module Indexing {

  /** The linear index of column x in row y of a buffer whose rows are
      `pitch` elements apart. With pitch equal to the grid width this is the
      running counter p of the pass; with the confidence pitch it is the
      confidence index x + y * pitch. */
  function Linear(x: int, y: int, pitch: int): int {
    x + y * pitch
  }

  lemma MulLeft(a: int, b: int, c: int)
    requires 0 <= c && a <= b
    ensures a * c <= b * c
  {
    assert (b - a) * c >= 0;
  }

  /** Every column x < width <= pitch of rows y < height lands in the first
      (height - 1) * pitch + width cells, which fit in height * pitch. */
  lemma LinearBounds(x: int, y: int, width: int, height: int, pitch: int)
    requires 0 <= x < width <= pitch && 0 <= y < height
    ensures 0 <= Linear(x, y, pitch) < (height - 1) * pitch + width
    ensures (height - 1) * pitch + width <= height * pitch
  {
    MulLeft(y, height - 1, pitch);
    assert 0 <= y * pitch;
  }

  /** The row after any row y of a grid of `height` rows starts no later
      than the end of the grid. */
  lemma RowEndBound(y: int, width: int, height: int)
    requires 0 <= y < height && 0 <= width
    ensures Linear(0, y + 1, width) <= width * height
  {
    MulLeft(y + 1, height, width);
  }

  /** One past the last column of row y is the start of row y + 1. */
  lemma RowEnd(y: int, width: int)
    ensures Linear(width, y, width) == Linear(0, y + 1, width)
  {
    assert (y + 1) * width == y * width + width;
  }

  /** The row after the last one starts at width * height. */
  lemma GridEnd(width: int, height: int)
    ensures Linear(0, height, width) == width * height
  {
  }

  /** Splitting a linear index by the pitch gives back its column and row. */
  lemma LinearCoordinates(x: int, y: int, pitch: int)
    requires 0 <= x < pitch && 0 <= y
    ensures Linear(x, y, pitch) / pitch == y
    ensures Linear(x, y, pitch) % pitch == x
  {
    var i := Linear(x, y, pitch);
    var q, r := i / pitch, i % pitch;
    assert i == q * pitch + r && 0 <= r < pitch;
    assert (y - q) * pitch == r - x;
    if y - q >= 1 {
      MulLeft(1, y - q, pitch);
      assert false;
    } else if y - q <= -1 {
      MulLeft(y - q, -1, pitch);
      assert false;
    }
  }

  /** Distinct cells of a pitched buffer have distinct linear indices; with
      pitch equal to the width this says the pass visits each index once. */
  lemma LinearInjective(x1: int, y1: int, x2: int, y2: int, pitch: int)
    requires 0 <= x1 < pitch && 0 <= y1 && 0 <= x2 < pitch && 0 <= y2
    requires Linear(x1, y1, pitch) == Linear(x2, y2, pitch)
    ensures x1 == x2 && y1 == y2
  {
    LinearCoordinates(x1, y1, pitch);
    LinearCoordinates(x2, y2, pitch);
  }

  /** Every index below width * height is the linear index of exactly one
      cell of the width-by-height grid: the one at (i % width, i / width). */
  lemma LinearOnto(i: int, width: nat, height: nat)
    requires 0 <= i < width * height
    ensures width > 0
    ensures 0 <= i % width < width && 0 <= i / width < height
    ensures Linear(i % width, i / width, width) == i
  {
    if width == 0 {
      assert false;
    }
    if i / width >= height {
      MulLeft(height, i / width, width);
      assert false;
    }
  }

  /** Entries of a pitched buffer that the pass has written before it
      reaches column `col` of row `row`: those in an earlier row, or earlier
      in this row, whose column lies inside the grid width. */
  predicate WrittenBefore(i: int, width: int, pitch: int, col: int, row: int) {
    pitch > 0 && 0 <= i && i % pitch < width &&
    (i / pitch < row || (i / pitch == row && i % pitch < col))
  }

  /** Entries of a pitched buffer that belong to a width-by-height grid, as
      opposed to the padding bytes at the end of each row. */
  predicate IsGridCell(i: int, width: int, height: int, pitch: int) {
    WrittenBefore(i, width, pitch, 0, height)
  }

  /** A cell inside the grid is a grid cell, at the column and row it was
      addressed with; padding entries are not in the grid. */
  lemma GridCellIff(i: int, width: int, height: int, pitch: int)
    requires 0 <= width <= pitch && pitch > 0 && 0 <= i
    ensures IsGridCell(i, width, height, pitch) <==>
            exists x, y :: 0 <= x < width && 0 <= y < height && Linear(x, y, pitch) == i
  {
    if IsGridCell(i, width, height, pitch) {
      assert Linear(i % pitch, i / pitch, pitch) == i;
    }
    if exists x, y :: 0 <= x < width && 0 <= y < height && Linear(x, y, pitch) == i {
      var x, y :| 0 <= x < width && 0 <= y < height && Linear(x, y, pitch) == i;
      LinearCoordinates(x, y, pitch);
    }
  }

  /** Writing column col of row row adds exactly that cell to the written
      set: the frontier moves by one. */
  lemma WrittenStep(i: int, width: int, pitch: int, col: int, row: int)
    requires 0 <= col < width <= pitch && 0 <= row && 0 <= i
    ensures WrittenBefore(i, width, pitch, col + 1, row) <==>
            WrittenBefore(i, width, pitch, col, row) || i == Linear(col, row, pitch)
  {
    LinearCoordinates(col, row, pitch);
    if i / pitch == row && i % pitch == col {
      assert i == Linear(col, row, pitch);
    }
  }

  /** Finishing a row is the same as starting the next one. */
  lemma WrittenRowDone(i: int, width: int, pitch: int, row: int)
    ensures WrittenBefore(i, width, pitch, width, row) <==> WrittenBefore(i, width, pitch, 0, row + 1)
  {
  }

  /** The running index q + 1 sits one column to the right of q, or at the
      start of the next row when q ends a row. */
  lemma NextPosition(q: int, width: int)
    requires 0 <= q && 0 < width
    ensures (q + 1) % width == (if q % width + 1 < width then q % width + 1 else 0)
    ensures (q + 1) / width == (if q % width + 1 < width then q / width else q / width + 1)
  {
    var x, y := q % width, q / width;
    assert q == Linear(x, y, width);
    if x + 1 < width {
      assert q + 1 == Linear(x + 1, y, width);
      LinearCoordinates(x + 1, y, width);
    } else {
      RowEnd(y, width);
      LinearCoordinates(0, y + 1, width);
    }
  }

  /** Handling running index q of a width-wide grid writes exactly one more
      cell of the pitched buffer: column q % width of row q / width. */
  lemma WrittenAdvance(i: int, width: int, pitch: int, q: int)
    requires 0 <= q && 0 < width <= pitch && 0 <= i
    ensures WrittenBefore(i, width, pitch, (q + 1) % width, (q + 1) / width) <==>
            WrittenBefore(i, width, pitch, q % width, q / width) || i == Linear(q % width, q / width, pitch)
  {
    NextPosition(q, width);
    WrittenStep(i, width, pitch, q % width, q / width);
    WrittenRowDone(i, width, pitch, q / width);
  }

  /** Byte offset of texel (col, row) in a packed RGB8 frame whose rows are
      `stride` bytes apart. */
  function ColorOffset(col: int, row: int, stride: int): int {
    row * stride + 3 * col
  }

  /** The RGB8 frame is large enough for a texW-by-texH texture: rows hold at
      least 3 * texW bytes and there are texH of them. */
  predicate ColorFrameFits(texW: int, texH: int, stride: int, length: int) {
    texW > 0 && texH > 0 && stride >= 3 * texW && length >= texH * stride
  }

  /** The three bytes of any texel of the texture lie inside the frame. */
  lemma ColorOffsetInBounds(col: int, row: int, texW: int, texH: int, stride: int, length: int)
    requires 0 <= col < texW && 0 <= row < texH
    requires ColorFrameFits(texW, texH, stride, length)
    ensures 0 <= ColorOffset(col, row, stride)
    ensures ColorOffset(col, row, stride) + 2 < length
  {
    MulLeft(row + 1, texH, stride);
    assert 0 <= row * stride;
  }
}
