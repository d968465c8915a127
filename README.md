# Intel RealSense to MIL point-cloud conversion, modelled in Dafny

The example program acquires frames from an Intel RealSense depth camera and
copies them, once per frame, into the components of a MIL point-cloud
container: the range component (one `SPoint3d` vertex per camera point), the
reflectance component (one four-channel `SColor` per point, filled by texture
mapping from the RGB8 colour frame) and, when `EXTRACT_CONFIDENCE` is set, the
confidence component (one byte per point, in a buffer with its own row pitch).
The project models that per-frame pass and the `SColor::ConvertRGBBGR` helper,
and proves what they do.

- `pixels.dfy` (module `Pixels`): the 8-bit channel type, the `Color` value
  held by an `SColor` record, and `SColor` itself as a class whose method
  `ConvertRGBBGR` assigns its three colour fields one after the other.
- `indexing.dfy` (module `Indexing`): the index arithmetic of the pass — the
  running index `p == y * width + x`, the pitched confidence index
  `x + y * pitch`, the byte offset `mappedY * stride + 3 * mappedX` of a texel
  in the colour frame — and the facts about them (bounds, recovering column
  and row, injectivity, which cells of a pitched buffer have been written).
- `texture_mapping.dfy` (module `TextureMapping`): the data of one frame
  (`Point3d`, `TexCoord`), the texel lookup (`TexelIndex`, `Texel`), the
  texture set-up done before the acquisition loop, and the specification of
  the pass: functions giving the content of each component after the first
  `done` points (`RangeAfter`, `ReflectanceAfter`, `ConfidenceAfter`) and the
  order of the iterations (`Visits`), with lemmas that characterise them
  entry by entry.
- `mapping_pass.dfy` (module `MappingPass`): the nested loop itself,
  imperative over arrays: `MapFrame` (the row loop), `MapRow` (the column
  loop) and `MapPoint` (the body for one point), each proved against those
  functions.

Floating-point values are modelled as reals; vertex coordinates are a type
parameter because the pass only copies them. A component that was not
allocated is a null array. The camera SDK, the MIL buffer allocation and the
display are not modelled: the frame data, the component arrays and their
pitches are parameters of `MapFrame`.

## Model

| member | source | states |
|---|---|---|
| Pixels.SColor.ConvertRGBBGR | C++/Intel_RealSense_MXSP4.cpp:28-33 | the receiver's x and y become the other record's z and y, its alpha is kept, its z becomes the other's x; the other record is unchanged when distinct; on itself, x is overwritten first so the result is (z, y, z) |
| Pixels.ConvertedTwiceRestoresRgb | C++/Intel_RealSense_MXSP4.cpp:28-33 | converting twice gives back the original colour channels (RGB to BGR is an involution), with the last receiver's alpha |
| Indexing.LinearBounds | C++/Intel_RealSense_MXSP4.cpp:280-311 | every column x < width <= pitch of a row y < height has an index `x + y * pitch` in [0, (height - 1) * pitch + width), which fits in height * pitch |
| Indexing.LinearCoordinates | C++/Intel_RealSense_MXSP4.cpp:280-313 | the index `x + y * pitch` divided by the pitch gives back y, and its remainder gives back x |
| Indexing.LinearInjective | C++/Intel_RealSense_MXSP4.cpp:280-313 | distinct cells have distinct indices, so no index is written twice |
| Indexing.LinearOnto | C++/Intel_RealSense_MXSP4.cpp:280-313 | every index below width * height is the index of the grid cell (i % width, i / width) |
| Indexing.NextPosition | C++/Intel_RealSense_MXSP4.cpp:280-313 | index q + 1 is one column right of q, or the first column of the next row when q ends a row |
| Indexing.GridCellIff | C++/Intel_RealSense_MXSP4.cpp:309-312 | an entry of a pitched buffer is a grid cell exactly when it is `x + y * pitch` for some x < width, y < height |
| Indexing.WrittenStep | C++/Intel_RealSense_MXSP4.cpp:309-312 | writing column col of row row adds exactly that cell to the cells written so far |
| Indexing.WrittenAdvance | C++/Intel_RealSense_MXSP4.cpp:309-313 | handling running index q writes exactly one more cell of the pitched buffer, at column q % width of row q / width |
| Indexing.ColorOffsetInBounds | C++/Intel_RealSense_MXSP4.cpp:297-299 | for any texel col < texW, row < texH of a frame with stride >= 3 * texW and at least texH * stride bytes, the offset `row * stride + 3 * col` and the two bytes after it are inside the frame |
| TextureMapping.ScaledCoordinate | C++/Intel_RealSense_MXSP4.cpp:295-296 | a coordinate in [0, 1] scaled by the texture size lies in [0, size], strictly below size when the coordinate is below 1 |
| TextureMapping.FloorModulo | C++/Intel_RealSense_MXSP4.cpp:295-296 | truncating a scaled value in [0, size) and reducing it modulo size keeps the truncated value; the value size itself wraps to 0 |
| TextureMapping.TexelIndex | C++/Intel_RealSense_MXSP4.cpp:295-296 | mappedX < TextureWidth (mappedY < TextureHeight); below 1 it is the texel whose span contains u * TextureWidth; u == 1 wraps to texel 0 |
| TextureMapping.Texel | C++/Intel_RealSense_MXSP4.cpp:295-299 | the looked-up colour keeps the receiver's alpha channel |
| TextureMapping.TexelOfCoveringCell | C++/Intel_RealSense_MXSP4.cpp:295-299 | the colour written for a point is the three bytes at `row * stride + 3 * col` of the texel (col, row) covering its scaled coordinates, all in bounds, alpha kept |
| TextureMapping.AsWrittenBranchWithoutTexture | C++/Intel_RealSense_MXSP4.cpp:287-299 | with a first colour frame not in RGB8, the colour branch as written is still taken while no reflectance exists and the texture width is 0 |
| TextureMapping.BranchHasTexture | C++/Intel_RealSense_MXSP4.cpp:201-211 | with the corrected guard the colour branch implies an allocated reflectance and a non-empty texture, and is taken exactly when the current and first frame sets have colour and the first was RGB8 |
| TextureMapping.Visits | C++/Intel_RealSense_MXSP4.cpp:280-314 | the row-major order has exactly one iteration per handled point |
| TextureMapping.VisitsStep | C++/Intel_RealSense_MXSP4.cpp:280-314 | handling column x of row y as iteration y * width + x extends the row-major order by that one visit |
| TextureMapping.VisitsInOrder | C++/Intel_RealSense_MXSP4.cpp:280-314 | the first done <= width * height iterations handle indices 0, 1, 2, ... in order, each at a grid cell (x, y) with p == y * width + x |
| TextureMapping.EveryCellVisited | C++/Intel_RealSense_MXSP4.cpp:280-314 | a complete pass of width * height iterations visits every cell (x, y), at iteration y * width + x, hence each exactly once |
| TextureMapping.RangeAfter | C++/Intel_RealSense_MXSP4.cpp:284-307 | the range component keeps its size through the pass |
| TextureMapping.RangeAfterEntries | C++/Intel_RealSense_MXSP4.cpp:284-307 | a handled point holds its vertex when it is copied (always without colour, inside the unit square with colour); every other entry, including points outside the unit square, keeps its earlier value |
| TextureMapping.ReflectanceAfter | C++/Intel_RealSense_MXSP4.cpp:287-299 | the reflectance component keeps its size through the pass |
| TextureMapping.ReflectanceAfterEntries | C++/Intel_RealSense_MXSP4.cpp:287-299 | in the colour branch a handled point inside the unit square holds the colour of its texel with its alpha kept; every other entry keeps its earlier value |
| TextureMapping.UntexturedPassCopiesAll | C++/Intel_RealSense_MXSP4.cpp:301-307 | without colour every handled point receives its vertex and the reflectance component is left exactly as it was |
| TextureMapping.ConfidenceAfter | C++/Intel_RealSense_MXSP4.cpp:309-313 | the confidence component keeps its size through the pass |
| TextureMapping.ConfidenceAfterEntries | C++/Intel_RealSense_MXSP4.cpp:309-313 | after done points, exactly the cells before position (done % width, done / width) are written, each with the byte of its own point; all other entries keep their value |
| TextureMapping.ConfidenceAtGridCells | C++/Intel_RealSense_MXSP4.cpp:309-312 | after a full pass, `confidence[x + y * pitch] == ConfidenceData[y * width + x]` for every cell, and the padding at the end of each row is unchanged |
| MappingPass.MapFrame | C++/Intel_RealSense_MXSP4.cpp:280-314 | the pass iterates in row-major order over all width * height points and leaves the range, reflectance and confidence components holding `RangeAfter`, `ReflectanceAfter` and `ConfidenceAfter` of their old contents for all points |
| MappingPass.MapRow | C++/Intel_RealSense_MXSP4.cpp:282-314 | the column loop of row y takes the running index from y * width to (y + 1) * width and advances every component by that row's points |
| MappingPass.MapPoint | C++/Intel_RealSense_MXSP4.cpp:284-312 | the body for point p at (x, y) advances every component from its content after p points to its content after p + 1 points, and every index it uses is in bounds |

## Left out

- Camera SDK calls (pipeline start, `wait_for_frames`, `map_to`, `calculate`, frame getters; lines 151-175 and 259-278): the vertices, texture coordinates, colour data, stride and confidence data of a frame set are parameters of `MapFrame`.
- MIL allocation and inquiry (lines 180-225 and `GetMILContainerComponent`, lines 337-357): the components are arrays passed in, `null` when not allocated, and the confidence pitch is a parameter; the range and reflectance pitches are ignored, as the pass itself ignores them.
- 3-D display set-up and the conversion for display (lines 227-251, 317): no effect on the component contents.
- The acquisition loop `while (!MosKbhit())` (line 256): one iteration of it is one call of `MapFrame`; keyboard polling is not modelled.
- `main`, `PrintHeader`, console output and the exception handlers (lines 55-142, 320-336): I/O only.
- The compile-time switches: `EXTRACT_CONFIDENCE` is the parameter `extractConfidence`; `REALSENSESDK_INSTALLED` and `DISPLAY_ADJUST_SPECIFIC` select code that is not modelled.
- Floating point: `MIL_FLOAT` values are reals, so the rounding of `u * TextureWidth`, NaN and infinities are not modelled; the cast to `MIL_UINT` is the floor, which is what truncation does on the non-negative values the guard lets through.
- Integer widths: `MIL_INT` and `MIL_UINT` are unbounded integers; the indices of a camera frame are far below 2^63.
- Memory safety the source takes for granted: `MapFrame` requires that the frame data hold width * height points, that the colour frame hold TextureHeight rows of at least 3 * TextureWidth bytes (`ColorFrameFits`) and that the components be large enough; the source checks none of these and relies on the camera keeping its stream sizes.
- The reflectance component is an array of `Color` values rather than of `SColor` objects: the pass writes the x, y and z fields of an element in place, modelled as replacing the element with a value whose x, y and z changed.
- The colour branch uses the corrected guard (see Findings). With a colour frame but no reflectance component, the source as written still takes the colour branch: a point outside the unit square is skipped there and its range entry keeps its previous value, and only a point inside the unit square reaches the undefined behaviour (a division by zero and a null write). The model takes the other branch in that case and copies every vertex, so it does not reproduce the skipping of out-of-square points; the as-written guard is exhibited by a lemma only.
- Texel: its own contract states only that alpha is kept; the full channel content is stated by `TexelOfCoveringCell`.
- RangeAfter, ReflectanceAfter, ConfidenceAfter: their own contracts state only the size; the contents are stated by `RangeAfterEntries`, `ReflectanceAfterEntries`, `ConfidenceAfterEntries` and `ConfidenceAtGridCells`.
- Visits: its own contract states only the length; the order and the coordinates are stated by `VisitsInOrder` and `EveryCellVisited`.

## Findings

| source | as written | input that shows it | evidently intended | confidence | as-written member | corrected member |
|---|---|---|---|---|---|---|
| C++/Intel_RealSense_MXSP4.cpp:287 | the colour branch is guarded by the current frame set's `color` alone, while the reflectance component and `TextureWidth`/`TextureHeight` are set only when the first frame set had an RGB8 colour frame (lines 201-211) | first frame set with a colour frame in a format other than RGB8 (e.g. 640 x 480 YUYV), later frame sets with colour: for every point whose texture coordinate lies in the unit square, `% TextureWidth` divides by 0 and `pReflectance[p]` is a null pointer (points outside the square are skipped and keep their previous range entry) | take the colour branch only when there is a reflectance component: `color && pReflectance` | not executed | TextureMapping.AsWrittenBranchWithoutTexture | TextureMapping.BranchHasTexture |
