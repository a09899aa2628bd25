# Marching squares: isoline extraction

A Dafny model of the contouring core of the marching-squares tutorial app.

The library `src/lib/utils.js` is modelled by the module `Isolines` (isolines.dfy). It covers:
- classifying a sample against the isovalue (`getState`);
- packing four corner states into a 4-bit case code (`getCase`);
- the interpolation parameter `getT`;
- the two endpoint placements, by interpolation and by midpoint;
- building a cell's four corners from the sample grid (`getCoordsForCellAt`);
- the 16-entry case table `getEndpointsForCase`.

The extraction part of `renderValues` in `src/components/Canvas.jsx` is modelled by the module `Render` (render.dfy). It covers:
- the size guard;
- the loop that builds the cells in row-major order;
- the loop that classifies each cell and collects its endpoint list;
- the grid spacing from `getResolution`;
- how the stroke loop reads each list as segments.

Sample values and canvas coordinates are exact reals. `Math.trunc` is the function `Trunc`, which rounds toward zero for either sign. The `getCase` loop runs on a 32-bit word, `(code << 1) | bit`, and that wrap-around is written out modulo 2^32.

The two imperative functions of the library are methods proved equal to specification functions:
- `GetCase` has its shift/OR loop and is proved equal to `CaseCode` of the last four states.
- `GetEndpointsForCase` has the switch, with `t1`/`t2` reassigned and endpoints pushed. It is proved equal to `CaseEndpoints`, which places one endpoint per side listed by `TableEdges`.

The table is checked against an independent description: a side is listed exactly when the code gives its two corners different states (`Crosses`).

`RenderValues` has the two nested loop pairs of `renderValues`. It is proved to return `None` exactly when the guard rejects the samples, and otherwise `Contour`, the row-major flattening of one endpoint list per cell.

The model follows the code's behaviour, including these points:
- A uniform cell (code 0 or 15) yields the pair `(0,0), (0,0)`, not an empty list. `UniformCellDegenerate` and `UniformFieldDegenerate` state this.
- `getT` measures t from the lower of the two values, but the endpoint is laid off from the first corner passed. When the first corner holds the higher value, the endpoint lands at the mirror image of the crossing point. `GetTFromLowerCorner` states this in general. `MirroredInterpolationExample` shows a cell where the linear crossing is 600 units along the side and the endpoint lands at 200. The tutorial text in `src/App.js:377` gives t as (v - f1)/(f2 - f1), measured from the first corner; the code does not compute that.
- `getT` has no guard against equal values and no fallback t. In interpolation mode the model requires the two values to differ. `CellCaseSidesBipolar` proves this always holds on the sides that a cell's own code selects.
- Saddles 5 and 10 are resolved by the code alone, with fixed pairings. The averaging test that `src/App.js:327` describes is not in the code.

## Model

| member | source | states |
|---|---|---|
| Isolines.GetState | marching-squares/src/lib/utils.js:20-22 | the state is 1 exactly when the value is at or above the isovalue, else 0 |
| Isolines.StateAntitone | marching-squares/src/lib/utils.js:20-22 | for a fixed value, raising the isovalue can only turn a state from 1 to 0 |
| Isolines.GetCase | marching-squares/src/lib/utils.js:24-35 | fails exactly when fewer than 4 states are given; otherwise the 32-bit shift/OR loop masked by 15 equals 8a+4b+2c+d of the last four states |
| Isolines.LowNibble | marching-squares/src/lib/utils.js:29-34 | the low four bits of the binary numeral of the states, reduced to 32 bits, are the case code of the last four states |
| Isolines.ShiftIntoWord | marching-squares/src/lib/utils.js:31 | shifting the 32-bit word and OR-ing a bit agrees with shifting the unbounded numeral and then reducing it |
| Isolines.DecodeCaseCode | marching-squares/src/lib/utils.js:24-35 | shifting a case code back recovers the four states it was built from |
| Isolines.CaseCodeOfDecode | marching-squares/src/lib/utils.js:24-35 | every code in 0..15 is the case code of its own four bits, so all 16 codes arise |
| Isolines.CaseCodeInjective | marching-squares/src/lib/utils.js:24-35 | distinct 4-state inputs give distinct codes |
| Isolines.GetT | marching-squares/src/lib/utils.js:37-41 | getT: min + t*(max-min) is the isovalue, so t is the fraction of the way from the lower value to the higher one where the isovalue lies (GetTRange adds the range facts) |
| Isolines.GetTRange | marching-squares/src/lib/utils.js:37-41 | min + t*(max-min) is the isovalue; t is in [0,1] exactly when the isovalue is between the two values; t is 0 exactly at the min and 1 exactly at the max |
| Isolines.GetTSymmetric | marching-squares/src/lib/utils.js:37-41 | swapping the two corners does not change t |
| Isolines.GetTFromLowerCorner | marching-squares/src/lib/utils.js:37-41 | t is the crossing fraction measured from the first corner when that corner is lower, and one minus that fraction when it is higher |
| Isolines.Trunc | marching-squares/src/lib/utils.js:44-45 | Math.trunc drops the fractional part toward zero, for either sign |
| Isolines.TruncMonotone | marching-squares/src/lib/utils.js:44-45 | truncation preserves order |
| Isolines.LerpWithin | marching-squares/src/lib/utils.js:44-45 | for t in [0,1], (1-t)*a + t*b lies between a and b |
| Isolines.LerpBetween | marching-squares/src/lib/utils.js:44-45 | the truncated interpolant is the truncated first end at t = 0, the truncated second end at t = 1, and between them for t in [0,1] |
| Isolines.GetEndpointByInterpolation | marching-squares/src/lib/utils.js:43-48 | getEndpointByInterpolation: the endpoint is trunc(p0) at t = 0 and trunc(p1) at t = 1 (InterpolationBounds adds betweenness) |
| Isolines.InterpolationBounds | marching-squares/src/lib/utils.js:43-48 | the interpolated endpoint is trunc(p0) at t = 0, trunc(p1) at t = 1, and between them on each axis for t in [0,1] |
| Isolines.GetEndpointByMidpoint | marching-squares/src/lib/utils.js:50-55 | the midpoint endpoint is trunc((p0+p1)/2) on each axis and lies between the truncated corners |
| Isolines.MidpointSymmetric | marching-squares/src/lib/utils.js:50-55 | the midpoint does not depend on the order of the two corners |
| Isolines.MidpointIsHalfwayInterpolation | marching-squares/src/lib/utils.js:43-55 | the midpoint equals the interpolated endpoint at t = 1/2 |
| Isolines.GetEndpointAtT | marching-squares/src/lib/utils.js:102-104 | the placer the mode selects (GetEndpoint) is the interpolated endpoint at the given t in interpolation mode, and at t = 1/2 in midpoint mode, whatever t is passed |
| Isolines.EdgeT | marching-squares/src/lib/utils.js:113-184 | the t1/t2 computed for a side: in interpolation mode it satisfies min + t*(max-min) = isovalue for the side's two values |
| Isolines.PlacedAt | marching-squares/src/lib/utils.js:43-55 | a side's endpoint is (trunc((1-t)*p0.x + t*p1.x), trunc((1-t)*p0.y + t*p1.y)) at t = getT of its corners when interpolating and t = 1/2 at the midpoint |
| Isolines.GetCoordsForCellAt | marching-squares/src/lib/utils.js:57-88 | top left at (col*ColumnGap, row*RowGap); the cell is the axis-aligned rectangle ColumnGap wide and RowGap high; the corners carry samples [r][c], [r][c+1], [r+1][c+1], [r+1][c] |
| Isolines.CellCase | marching-squares/src/components/Canvas.jsx:151-158 | the code of a cell's [TL, TR, BR, BL] states is below 16; it is 0 exactly when all four samples are below the isovalue and 15 exactly when all four are at or above it |
| Isolines.TableEdges | marching-squares/src/lib/utils.js:106-193 | the saddles list four sides, the other codes in 1..14 two, and codes outside 1..14 none |
| Isolines.TableEdgesAreCrossed | marching-squares/src/lib/utils.js:106-193 | for every code, a side is listed exactly when the code gives its two corners different states |
| Isolines.CaseEndpointsShape | marching-squares/src/lib/utils.js:106-195 | for the table-driven list CaseEndpoints: codes 5 and 10 give 4 points; 0 and 15 give two (0,0) points; other codes in 0..15 give 2 points; codes outside 0..15 give the empty list |
| Isolines.TableComplement | marching-squares/src/lib/utils.js:107-190 | a code and its complement list the same sides in the same order, except 5 and 10 |
| Isolines.ComplementSymmetry | marching-squares/src/lib/utils.js:107-190 | for c in 0..15 other than 5 and 10, c and 15-c give identical endpoint lists |
| Isolines.SaddleSides | marching-squares/src/lib/utils.js:151-170 | the saddle entries use all four sides |
| Isolines.SaddlePairings | marching-squares/src/lib/utils.js:151-170 | both saddles place the same p0..p3 (top, left, bottom, right); code 5 emits p0,p3,p1,p2 and code 10 emits p0,p1,p2,p3 |
| Isolines.PairedSides | marching-squares/src/lib/utils.js:111-190 | a one-segment code emits the endpoints of its two listed sides, in the order the switch pushes them |
| Isolines.GetEndpointsForCase | marching-squares/src/lib/utils.js:90-196 | the switch, with its t1/t2 reassignments and pushes, returns exactly the table's endpoint list for every integer code |
| Isolines.CellCaseBits | marching-squares/src/components/Canvas.jsx:151-158 | each bit of a cell's case code is the state of the matching corner against the isovalue |
| Isolines.CellCaseSidesBipolar | marching-squares/src/lib/utils.js:113-184 | the sides listed for a cell's own code are exactly those with one corner below and one at or above the isovalue, so getT never divides by zero there |
| Isolines.CellCasePlaceable | marching-squares/src/lib/utils.js:113-184 | in either mode, every side a cell's own code uses can take an endpoint |
| Isolines.UniformCellDegenerate | marching-squares/src/lib/utils.js:107-110 | a cell entirely below, or entirely at or above, the isovalue has code 0 or 15 and yields the (0,0),(0,0) pair |
| Isolines.InterpolatedEndpointsOnTheirSides | marching-squares/src/lib/utils.js:111-190 | for a non-uniform cell, every interpolated endpoint has t in (0,1] and lies between the truncated corners of its side |
| Render.GetResolution | marching-squares/src/components/Canvas.jsx:13-18 | the gaps are positive, and cols columns and rows rows span exactly the 800 x 800 canvas |
| Render.CellPlacement | marching-squares/src/components/Canvas.jsx:134-139 | cell (i, j) is the i-th of gridSize equal bands of the canvas height and the j-th of its width, and carries the samples at its four grid points |
| Render.BuildCells | marching-squares/src/components/Canvas.jsx:133-146 | the first loop pair builds gridSize rows of gridSize cells, and cell (i, j) is getCoordsForCellAt(i, j) |
| Render.ExtractCell | marching-squares/src/components/Canvas.jsx:151-161 | states [TL, TR, BR, BL], then getCase, then getEndpointsForCase, give the cell's endpoint list for its own code |
| Render.RenderValues | marching-squares/src/components/Canvas.jsx:129-163 | nothing is computed unless samples are present with exactly gridSize+1 rows; otherwise the result is one endpoint list per cell, flattened row by row |
| Render.Contour | marching-squares/src/components/Canvas.jsx:148-163 | the list renderValues collects holds gridSize*gridSize endpoint lists |
| Render.ContourRowMajor | marching-squares/src/components/Canvas.jsx:148-163 | entry i*gridSize+j of that list belongs to cell (i, j), so the lists are in row-major order |
| Render.SingleCellContour | marching-squares/src/components/Canvas.jsx:148-163 | a one-cell grid yields exactly its cell's list |
| Render.UniformFieldDegenerate | marching-squares/src/components/Canvas.jsx:129-163 | a field entirely below, or entirely at or above, the isovalue yields the (0,0),(0,0) pair for every cell |
| Render.Strokes | marching-squares/src/components/Canvas.jsx:167-175 | the stroke loop draws one segment per pair of points, segment k joining points 2k and 2k+1: one segment for two points, two when there are more |
| Render.CellStrokes | marching-squares/src/components/Canvas.jsx:167-175 | every list has 2 or 4 points; a uniform cell strokes one zero-length segment at the origin, a non-saddle one segment, code 5 top-right and left-bottom, code 10 top-left and bottom-right |
| Render.UnitSideT | marching-squares/src/lib/utils.js:37-41 | on a side with values 0 and 1, in either order, t is the isovalue |
| Render.UnitSidePlaced | marching-squares/src/lib/utils.js:43-55 | a side with values 0 and 1 can take an endpoint, which lies at fraction t from its first corner |
| Render.VerticalGridCell | marching-squares/src/lib/utils.js:57-88 | the one cell of the grid [[0,1],[0,1]] spans the canvas, with the left corners at 0 and the right corners at 1 |
| Render.VerticalCellEndpoints | marching-squares/src/lib/utils.js:171-180 | that cell at isovalue 0.5 has code 6, and both modes give (400,0), (400,800) |
| Render.VerticalContourExample | marching-squares/src/components/Canvas.jsx:129-163 | the grid [[0,1],[0,1]] at 0.5 gives the single list [(400,0), (400,800)], a vertical segment down the middle |
| Render.MirroredInterpolationExample | marching-squares/src/lib/utils.js:181-190 | with 1 at the top left, 0 elsewhere and isovalue 0.25, the field crosses 0.25 at 600 units along the top and left sides, but the endpoints land at (200,0) and (0,200) |
| Render.SaddleStrokesExample | marching-squares/src/lib/utils.js:151-169 | with 1 at the top left and bottom right, isovalue 0.5 gives code 10 and the strokes (400,0)-(0,400) and (400,800)-(800,400) |

## Left out

- `generateSamples` (utils.js:8-18) is not modelled: it draws from `Math.random`. Sample grids are parameters instead. The component calls it with two numbers where it expects a dimensions object (Canvas.jsx:182), which gives an empty sample list, and the guard then rejects that list.
- Drawing, the grid-value labels and their de-duplicating set, React state, effects and event handlers in Canvas.jsx are not modelled. The stroke loop is modelled only as the segments it reads (`Strokes`).
- The isovalue arriving as a string from the slider handler is not modelled. The isovalue is a real.
- IEEE-754 doubles are not modelled: rounding error, NaN and Infinity are absent because values and coordinates are exact reals.
- App.js is not part of this model: it is tutorial prose whose snippets repeat utils.js.
- GetT: requires the two values to differ. The source divides anyway and yields Infinity or NaN. Only interpolation mode needs it, and `CellCaseSidesBipolar` proves it for every side a cell's own code uses.
- GetEndpointsForCase: in interpolation mode, requires the sides listed for the code to have different values (`CasePlaceable`). The source would produce non-finite coordinates otherwise.
- GetEndpointsForCase: in midpoint mode the source still calls getT, and the result is never read. The model does not compute it. Equal values there give an unread NaN in the source, with no effect on the output.
- RenderValues: requires gridSize > 0 and, once the guard passes, every row to hold more than gridSize samples. The source checks only the row count. Short rows would read `undefined`, which becomes NaN corner values.
- On a failed guard the source returns silently; RenderValues returns None.
