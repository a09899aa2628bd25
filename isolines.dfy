/**
  The marching-squares library: corner classification, the 4-bit case code,
  the interpolation parameter, the two endpoint placements, the corners of a
  cell and the 16-entry case table (src/lib/utils.js).

  Sample values and canvas coordinates are exact reals; Math.trunc is the
  function Trunc below.
 */
module Isolines {

  /** The state of one corner: 1 when its sample is at or above the isovalue. */
  type Bit = b: int | 0 <= b <= 1

  /** A grid point in canvas space together with its sample value. */
  datatype Corner = Corner(x: real, y: real, v: real)

  /** An endpoint of a contour segment; both coordinates are truncated. */
  datatype Point = Point(x: int, y: int)

  /** The four corners of one cell, clockwise from the top left. */
  datatype Cell = Cell(topLeft: Corner, topRight: Corner, bottomRight: Corner, bottomLeft: Corner)

  /** Spacing of the sample grid in canvas units. */
  datatype Resolution = Resolution(columnGap: real, rowGap: real)

  /** How an endpoint is placed on a cell side. */
  datatype Placement = Interpolation | Midpoint

  datatype CaseError = TooFewValues
  datatype Result<T> = Success(value: T) | Failure(error: CaseError)

  /** The corners of a cell, named by position. */
  datatype Position = TopLeft | TopRight | BottomRight | BottomLeft

  /** The sides of a cell; each joins two corners, in the order the case table passes them. */
  datatype Edge = Top | Left | Bottom | Right

  // ---------------------------------------------------------------------------
  // Corner state and case code

  function GetState(value: real, isovalue: real): (s: Bit)
    ensures s == 1 <==> value >= isovalue
  {
    if value >= isovalue then 1 else 0
  }

  /** For a fixed sample, raising the isovalue can only turn a corner off. */
  lemma StateAntitone(value: real, lower: real, higher: real)
    requires lower <= higher
    ensures GetState(value, higher) <= GetState(value, lower)
    ensures GetState(value, higher) == 1 ==> GetState(value, lower) == 1
  {
  }

  /** The bits read as a binary numeral, most significant first. */
  function Numeral(bits: seq<Bit>): (n: nat)
  {
    if bits == [] then 0 else 2 * Numeral(bits[..|bits| - 1]) + bits[|bits| - 1]
  }

  /** The case code of four corner states given top-left, top-right, bottom-right, bottom-left. */
  function CaseCode(tl: Bit, tr: Bit, br: Bit, bl: Bit): (code: nat)
    ensures code < 16
  {
    (if tl == 1 then 8 else 0) + (if tr == 1 then 4 else 0) + (if br == 1 then 2 else 0) + bl
  }

  /** The bit of a case code that records a corner: top-left is bit 3, bottom-left bit 0. */
  function CodeBit(code: nat, p: Position): Bit
  {
    match p
    case TopLeft => (code / 8) % 2
    case TopRight => (code / 4) % 2
    case BottomRight => (code / 2) % 2
    case BottomLeft => code % 2
  }

  /** The four states recovered from a case code by shifting it back. */
  function Decode(code: nat): seq<Bit>
  {
    [CodeBit(code, TopLeft), CodeBit(code, TopRight), CodeBit(code, BottomRight), CodeBit(code, BottomLeft)]
  }

  const Int32Span: nat := 0x1_0000_0000

  /**
    getCase: fails on fewer than four states; otherwise shifts every state
    into a 32-bit word, most significant first, and keeps the low four bits.
   */
  method GetCase(values: seq<Bit>) returns (r: Result<nat>)
    ensures r.Failure? <==> |values| < 4
    ensures r.Success? ==>
      var n := |values|;
      r.value == CaseCode(values[n - 4], values[n - 3], values[n - 2], values[n - 1])
  {
    if |values| < 4 {
      return Failure(TooFewValues);
    }
    var code: nat := 0;
    var i := 0;
    while i < |values|
      invariant 0 <= i <= |values|
      invariant code == Numeral(values[..i]) % Int32Span
    {
      assert values[..i + 1][..i] == values[..i];
      ShiftIntoWord(Numeral(values[..i]), values[i]);
      // (code << 1) | values[i], as a 32-bit word
      code := (2 * code + values[i]) % Int32Span;
      i := i + 1;
    }
    assert values[..i] == values;
    LowNibble(values);
    return Success(code % 16);
  }

  /** Shifting the reduced word equals reducing the shifted numeral. */
  lemma ShiftIntoWord(n: nat, b: Bit)
    ensures (2 * (n % Int32Span) + b) % Int32Span == (2 * n + b) % Int32Span
  {
    var q := n / Int32Span;
    var r := n % Int32Span;
    assert n == q * Int32Span + r;
    assert 2 * n + b == (2 * r + b) + (2 * q) * Int32Span;
    var w := 2 * r + b;
    assert w < 2 * Int32Span;
    if w < Int32Span {
      WordRemainder(2 * n + b, 2 * q, w);
      WordRemainder(w, 0, w);
    } else {
      WordRemainder(2 * n + b, 2 * q + 1, w - Int32Span);
      WordRemainder(w, 1, w - Int32Span);
    }
  }

  /** The remainder modulo 2^32 is the unique r below 2^32 with x = q * 2^32 + r. */
  lemma WordRemainder(x: int, q: int, r: int)
    requires 0 <= r < Int32Span && x == q * Int32Span + r
    ensures x % Int32Span == r
  {
  }

  /** The remainder modulo 16 is the unique r below 16 with x = q * 16 + r. */
  lemma NibbleRemainder(x: int, q: int, r: int)
    requires 0 <= r < 16 && x == q * 16 + r
    ensures x % 16 == r
  {
  }

  /** The low four bits of a numeral of at least four bits are its last four bits. */
  lemma {:induction false} LowNibble(bits: seq<Bit>)
    requires |bits| >= 4
    ensures var n := |bits|;
      Numeral(bits) % Int32Span % 16 == CaseCode(bits[n - 4], bits[n - 3], bits[n - 2], bits[n - 1])
  {
    var n := |bits|;
    var head := bits[..n - 4];
    assert bits[..n - 1][..n - 2] == bits[..n - 2];
    assert bits[..n - 2][..n - 3] == bits[..n - 3];
    assert bits[..n - 3][..n - 4] == head;
    assert Numeral(bits) == 2 * Numeral(bits[..n - 1]) + bits[n - 1];
    assert Numeral(bits[..n - 1]) == 2 * Numeral(bits[..n - 2]) + bits[n - 2];
    assert Numeral(bits[..n - 2]) == 2 * Numeral(bits[..n - 3]) + bits[n - 3];
    assert Numeral(bits[..n - 3]) == 2 * Numeral(head) + bits[n - 4];
    var code := CaseCode(bits[n - 4], bits[n - 3], bits[n - 2], bits[n - 1]);
    var w := Numeral(bits);
    assert w == 16 * Numeral(head) + code;
    var q := w / Int32Span;
    var r := w % Int32Span;
    assert w == q * Int32Span + r;
    assert r == (Numeral(head) - q * 0x1000_0000) * 16 + code;
    NibbleRemainder(r, Numeral(head) - q * 0x1000_0000, code);
  }

  /** Decoding a case code gives back the four states it was built from. */
  lemma DecodeCaseCode(tl: Bit, tr: Bit, br: Bit, bl: Bit)
    ensures Decode(CaseCode(tl, tr, br, bl)) == [tl, tr, br, bl]
  {
    var code := CaseCode(tl, tr, br, bl);
    assert code / 8 == tl;
    assert code / 4 == 2 * tl + tr;
    assert code / 2 == 4 * tl + 2 * tr + br;
  }

  /** Every code in 0..15 is the case code of its decoded states. */
  lemma CaseCodeOfDecode(code: nat)
    requires code < 16
    ensures CaseCode(CodeBit(code, TopLeft), CodeBit(code, TopRight), CodeBit(code, BottomRight), CodeBit(code, BottomLeft)) == code
  {
    var half, quarter := code / 2, code / 4;
    assert code == 2 * half + code % 2;
    assert half == 2 * quarter + half % 2;
    assert quarter / 2 == code / 8 && quarter % 2 == (code / 4) % 2;
    assert quarter == 2 * (code / 8) + quarter % 2;
  }

  /** Distinct corner states give distinct case codes. */
  lemma CaseCodeInjective(a: seq<Bit>, b: seq<Bit>)
    requires |a| == 4 && |b| == 4
    requires CaseCode(a[0], a[1], a[2], a[3]) == CaseCode(b[0], b[1], b[2], b[3])
    ensures a == b
  {
    DecodeCaseCode(a[0], a[1], a[2], a[3]);
    DecodeCaseCode(b[0], b[1], b[2], b[3]);
    assert a == [a[0], a[1], a[2], a[3]];
    assert b == [b[0], b[1], b[2], b[3]];
  }

  // ---------------------------------------------------------------------------
  // Interpolation parameter and endpoint placement

  function Min(a: real, b: real): (m: real) { if a <= b then a else b }
  function Max(a: real, b: real): (m: real) { if a <= b then b else a }

  /** What dividing by a positive d says about the quotient. */
  lemma Ratio(a: real, d: real)
    requires d > 0.0
    ensures (a / d) * d == a
    ensures 0.0 <= a / d <==> 0.0 <= a
    ensures a / d <= 1.0 <==> a <= d
    ensures a / d == 0.0 <==> a == 0.0
    ensures a / d == 1.0 <==> a == d
  {
    var q := a / d;
    assert q * d == a;
    if q < 0.0 {
      assert (-q) * d > 0.0;
    }
    if q > 1.0 {
      assert (q - 1.0) * d > 0.0;
    }
    if a < 0.0 {
      assert q < 0.0;
    }
    if a == 0.0 {
      CancelPositive(q, 0.0, d);
    }
    if a == d {
      CancelPositive(q, 1.0, d);
    }
  }

  /**
    getT: the fraction of the way from the lower sample value to the higher
    one at which the isovalue lies. The source divides without a guard.
   */
  function GetT(f1: Corner, f2: Corner, isovalue: real): (t: real)
    requires f1.v != f2.v
    ensures Min(f1.v, f2.v) + t * (Max(f1.v, f2.v) - Min(f1.v, f2.v)) == isovalue
  {
    var v2 := Max(f2.v, f1.v);
    var v1 := Min(f2.v, f1.v);
    (isovalue - v1) / (v2 - v1)
  }

  /**
    t locates the isovalue between the two values: min + t * (max - min) is
    the isovalue, t lies in [0, 1] exactly when the isovalue lies between
    them, and t is 0 at the minimum and 1 at the maximum.
   */
  lemma GetTRange(f1: Corner, f2: Corner, isovalue: real)
    requires f1.v != f2.v
    ensures var t, lo, hi := GetT(f1, f2, isovalue), Min(f1.v, f2.v), Max(f1.v, f2.v);
      && lo + t * (hi - lo) == isovalue
      && (lo <= isovalue <= hi <==> 0.0 <= t <= 1.0)
      && (isovalue == lo <==> t == 0.0)
      && (isovalue == hi <==> t == 1.0)
  {
    var t, lo, hi := GetT(f1, f2, isovalue), Min(f1.v, f2.v), Max(f1.v, f2.v);
    assert t == (isovalue - lo) / (hi - lo);
    Ratio(isovalue - lo, hi - lo);
  }

  /** getT uses only the minimum and maximum, so the two corners commute. */
  lemma GetTSymmetric(f1: Corner, f2: Corner, isovalue: real)
    requires f1.v != f2.v
    ensures GetT(f1, f2, isovalue) == GetT(f2, f1, isovalue)
  {
  }

  /**
    t is measured from the lower value, not from the first corner: it is the
    crossing fraction from f1 when f1 is the lower corner, and its mirror
    image when f1 is the higher one.
   */
  lemma GetTFromLowerCorner(f1: Corner, f2: Corner, isovalue: real)
    requires f1.v != f2.v
    ensures var s := (isovalue - f1.v) / (f2.v - f1.v);
      GetT(f1, f2, isovalue) == if f1.v < f2.v then s else 1.0 - s
  {
    var s := (isovalue - f1.v) / (f2.v - f1.v);
    var t := GetT(f1, f2, isovalue);
    if f1.v > f2.v {
      var d := f1.v - f2.v;
      Ratio(isovalue - f2.v, d);
      assert t * d == isovalue - f2.v;
      assert (1.0 - t) * d == d - t * d;
      DivUnique(f1.v - isovalue, d, 1.0 - t);
      assert s * (f2.v - f1.v) == isovalue - f1.v;
      assert s * d == f1.v - isovalue;
      DivUnique(f1.v - isovalue, d, s);
    }
  }

  /** A quotient by a positive d is the only q with q * d == a. */
  lemma DivUnique(a: real, d: real, q: real)
    requires d > 0.0 && q * d == a
    ensures a / d == q
  {
    Ratio(a, d);
    CancelPositive(a / d, q, d);
  }

  lemma CancelPositive(x: real, y: real, d: real)
    requires d > 0.0 && x * d == y * d
    ensures x == y
  {
    assert (x - y) * d == 0.0;
  }

  /** Math.trunc: drops the fractional part, rounding toward zero. */
  function Trunc(x: real): (n: int)
    ensures 0.0 <= x ==> 0 <= n && n as real <= x < n as real + 1.0
    ensures x < 0.0 ==> n <= 0 && n as real - 1.0 < x <= n as real
  {
    if x >= 0.0 then x.Floor else -((-x).Floor)
  }

  lemma TruncMonotone(x: real, y: real)
    requires x <= y
    ensures Trunc(x) <= Trunc(y)
  {
  }

  predicate Between(n: int, a: int, b: int)
  {
    (a <= n <= b) || (b <= n <= a)
  }

  /** The point a fraction t of the way from a to b. */
  function Lerp(a: real, b: real, t: real): (r: real)
  {
    (1.0 - t) * a + t * b
  }

  /** A product of two non-negative reals is non-negative. */
  lemma ProductNonnegative(x: real, y: real)
    requires 0.0 <= x && 0.0 <= y
    ensures 0.0 <= x * y
  {
  }

  /** For t in [0, 1] the interpolated value lies between the two ends. */
  lemma LerpWithin(a: real, b: real, t: real)
    requires 0.0 <= t <= 1.0
    ensures Min(a, b) <= Lerp(a, b, t) <= Max(a, b)
  {
    var lo, hi := Min(a, b), Max(a, b);
    ProductNonnegative(t, hi - lo);
    ProductNonnegative(1.0 - t, hi - lo);
    if a <= b {
      assert Lerp(a, b, t) == a + t * (b - a) == b - (1.0 - t) * (b - a);
    } else {
      assert Lerp(a, b, t) == b + (1.0 - t) * (a - b) == a - t * (a - b);
    }
  }

  /** Truncating a point of the segment a..b lands between the truncated ends; t = 0 and t = 1 give the ends. */
  lemma LerpBetween(a: real, b: real, t: real)
    ensures t == 0.0 ==> Trunc(Lerp(a, b, t)) == Trunc(a)
    ensures t == 1.0 ==> Trunc(Lerp(a, b, t)) == Trunc(b)
    ensures 0.0 <= t <= 1.0 ==> Between(Trunc(Lerp(a, b, t)), Trunc(a), Trunc(b))
  {
    if 0.0 <= t <= 1.0 {
      var m := Lerp(a, b, t);
      LerpWithin(a, b, t);
      TruncMonotone(Min(a, b), m);
      TruncMonotone(m, Max(a, b));
    }
  }

  function GetEndpointByInterpolation(p0: Corner, p1: Corner, t: real): (r: Point)
    ensures t == 0.0 ==> r == Point(Trunc(p0.x), Trunc(p0.y))
    ensures t == 1.0 ==> r == Point(Trunc(p1.x), Trunc(p1.y))
  {
    Point(Trunc(Lerp(p0.x, p1.x, t)), Trunc(Lerp(p0.y, p1.y, t)))
  }

  /**
    The interpolated endpoint is the first corner (truncated) at t = 0, the
    second at t = 1, and between the two truncated corners for t in [0, 1].
   */
  lemma InterpolationBounds(p0: Corner, p1: Corner, t: real)
    ensures var r := GetEndpointByInterpolation(p0, p1, t);
      && (t == 0.0 ==> r == Point(Trunc(p0.x), Trunc(p0.y)))
      && (t == 1.0 ==> r == Point(Trunc(p1.x), Trunc(p1.y)))
      && (0.0 <= t <= 1.0 ==> Between(r.x, Trunc(p0.x), Trunc(p1.x)) && Between(r.y, Trunc(p0.y), Trunc(p1.y)))
  {
    LerpBetween(p0.x, p1.x, t);
    LerpBetween(p0.y, p1.y, t);
  }

  function GetEndpointByMidpoint(p0: Corner, p1: Corner): (r: Point)
    ensures r == Point(Trunc((p0.x + p1.x) / 2.0), Trunc((p0.y + p1.y) / 2.0))
    ensures Between(r.x, Trunc(p0.x), Trunc(p1.x)) && Between(r.y, Trunc(p0.y), Trunc(p1.y))
  {
    LerpBetween(p0.x, p1.x, 0.5);
    LerpBetween(p0.y, p1.y, 0.5);
    var x := p0.x + (p1.x - p0.x) / 2.0;
    var y := p0.y + (p1.y - p0.y) / 2.0;
    assert x == Lerp(p0.x, p1.x, 0.5) && y == Lerp(p0.y, p1.y, 0.5);
    Point(Trunc(x), Trunc(y))
  }

  /** The midpoint ignores the field and the order of the two corners. */
  lemma MidpointSymmetric(p0: Corner, p1: Corner)
    ensures GetEndpointByMidpoint(p0, p1) == GetEndpointByMidpoint(p1, p0)
  {
  }

  /** The midpoint is the interpolated endpoint at t = 1/2. */
  lemma MidpointIsHalfwayInterpolation(p0: Corner, p1: Corner)
    ensures GetEndpointByMidpoint(p0, p1) == GetEndpointByInterpolation(p0, p1, 0.5)
  {
  }

  // ---------------------------------------------------------------------------
  // Cells

  function At(cell: Cell, p: Position): Corner
  {
    match p
    case TopLeft => cell.topLeft
    case TopRight => cell.topRight
    case BottomRight => cell.bottomRight
    case BottomLeft => cell.bottomLeft
  }

  /** The cell is the axis-aligned rectangle of the given width and height at its top-left corner. */
  predicate IsRectangle(cell: Cell, width: real, height: real)
  {
    && cell.topRight.x == cell.topLeft.x + width && cell.topRight.y == cell.topLeft.y
    && cell.bottomRight.x == cell.topLeft.x + width && cell.bottomRight.y == cell.topLeft.y + height
    && cell.bottomLeft.x == cell.topLeft.x && cell.bottomLeft.y == cell.topLeft.y + height
  }

  function GetCoordsForCellAt(cellRow: nat, cellColumn: nat, resolution: Resolution, samples: seq<seq<real>>): (cell: Cell)
    requires cellRow + 1 < |samples|
    requires cellColumn + 1 < |samples[cellRow]| && cellColumn + 1 < |samples[cellRow + 1]|
    ensures cell.topLeft.x == cellColumn as real * resolution.columnGap
    ensures cell.topLeft.y == cellRow as real * resolution.rowGap
    ensures IsRectangle(cell, resolution.columnGap, resolution.rowGap)
    ensures cell.topLeft.v == samples[cellRow][cellColumn]
    ensures cell.topRight.v == samples[cellRow][cellColumn + 1]
    ensures cell.bottomRight.v == samples[cellRow + 1][cellColumn + 1]
    ensures cell.bottomLeft.v == samples[cellRow + 1][cellColumn]
  {
    var topLeft := Corner(cellColumn as real * resolution.columnGap, cellRow as real * resolution.rowGap,
                          samples[cellRow][cellColumn]);
    var topRight := Corner(topLeft.x + resolution.columnGap, topLeft.y, samples[cellRow][cellColumn + 1]);
    var bottomRight := Corner(topLeft.x + resolution.columnGap, topLeft.y + resolution.rowGap,
                              samples[cellRow + 1][cellColumn + 1]);
    var bottomLeft := Corner(topLeft.x, topLeft.y + resolution.rowGap, samples[cellRow + 1][cellColumn]);
    Cell(topLeft, topRight, bottomRight, bottomLeft)
  }

  /** The case code of a cell: its corner states against the isovalue, clockwise from the top left. */
  function CellCase(cell: Cell, isovalue: real): (code: nat)
    ensures code < 16
    ensures code == 0 <==>
      cell.topLeft.v < isovalue && cell.topRight.v < isovalue && cell.bottomRight.v < isovalue && cell.bottomLeft.v < isovalue
    ensures code == 15 <==>
      cell.topLeft.v >= isovalue && cell.topRight.v >= isovalue && cell.bottomRight.v >= isovalue && cell.bottomLeft.v >= isovalue
  {
    CaseCode(GetState(cell.topLeft.v, isovalue), GetState(cell.topRight.v, isovalue),
             GetState(cell.bottomRight.v, isovalue), GetState(cell.bottomLeft.v, isovalue))
  }

  // ---------------------------------------------------------------------------
  // The case table

  /** The two corners a side joins, in the order the table passes them. */
  function Ends(e: Edge): (Position, Position)
  {
    match e
    case Top => (TopLeft, TopRight)
    case Left => (TopLeft, BottomLeft)
    case Bottom => (BottomLeft, BottomRight)
    case Right => (TopRight, BottomRight)
  }

  /** A side is crossed by the contour of a code when the code gives its two corners different states. */
  predicate Crosses(code: nat, e: Edge)
  {
    CodeBit(code, Ends(e).0) != CodeBit(code, Ends(e).1)
  }

  /** The sides that the table places endpoints on for a code, in the order it emits them. */
  function TableEdges(code: int): (es: seq<Edge>)
    ensures code == 5 || code == 10 ==> |es| == 4
    ensures 0 < code < 15 && code != 5 && code != 10 ==> |es| == 2
    ensures code <= 0 || 15 <= code ==> es == []
  {
    match code
    case 1 | 14 => [Left, Bottom]
    case 2 | 13 => [Right, Bottom]
    case 3 | 12 => [Left, Right]
    case 4 | 11 => [Top, Right]
    case 5 => [Top, Right, Left, Bottom]
    case 10 => [Top, Left, Bottom, Right]
    case 6 | 9 => [Top, Bottom]
    case 7 | 8 => [Top, Left]
    case _ => []
  }

  /** Each table entry lists exactly the sides whose corners the code sets apart. */
  lemma TableEdgesAreCrossed(code: nat)
    requires code < 16
    ensures forall e :: e in TableEdges(code) <==> Crosses(code, e)
  {
  }

  /** A side can take an endpoint in this mode: interpolation needs two different values. */
  predicate Placeable(cell: Cell, e: Edge, mode: Placement)
  {
    mode == Interpolation ==> At(cell, Ends(e).0).v != At(cell, Ends(e).1).v
  }

  /** The endpoint placed on one side of a cell, from the t of that side, in the given mode. */
  function PlaceOn(cell: Cell, e: Edge, isovalue: real, mode: Placement): Point
    requires Placeable(cell, e, mode)
  {
    var p0 := At(cell, Ends(e).0);
    var p1 := At(cell, Ends(e).1);
    GetEndpoint(mode, p0, p1, EdgeT(p0, p1, isovalue, mode))
  }

  /**
    A side's endpoint is its truncated interpolant at the side's t: getT of
    its two corners when interpolating, one half at the midpoint.
   */
  lemma PlacedAt(cell: Cell, e: Edge, isovalue: real, mode: Placement)
    requires Placeable(cell, e, mode)
    ensures var p0, p1 := At(cell, Ends(e).0), At(cell, Ends(e).1);
      var t := if mode == Interpolation then GetT(p0, p1, isovalue) else 0.5;
      PlaceOn(cell, e, isovalue, mode) == Point(Trunc(Lerp(p0.x, p1.x, t)), Trunc(Lerp(p0.y, p1.y, t)))
  {
    var p0, p1 := At(cell, Ends(e).0), At(cell, Ends(e).1);
    GetEndpointAtT(mode, p0, p1, EdgeT(p0, p1, isovalue, mode));
  }

  /** One endpoint per listed side, in the order of the list. */
  function PlaceAll(cell: Cell, es: seq<Edge>, isovalue: real, mode: Placement): seq<Point>
    requires forall e :: e in es ==> Placeable(cell, e, mode)
  {
    seq(|es|, k requires 0 <= k < |es| => PlaceOn(cell, es[k], isovalue, mode))
  }

  predicate CasePlaceable(code: int, cell: Cell, mode: Placement)
  {
    forall e :: e in TableEdges(code) ==> Placeable(cell, e, mode)
  }

  const Origin := Point(0, 0)

  /**
    The endpoint list of a code: one endpoint per table side, in table order;
    the uniform codes 0 and 15 give two origin points.
   */
  function CaseEndpoints(code: int, cell: Cell, isovalue: real, mode: Placement): (ps: seq<Point>)
    requires CasePlaceable(code, cell, mode)
  {
    if code == 0 || code == 15 then [Origin, Origin]
    else PlaceAll(cell, TableEdges(code), isovalue, mode)
  }

  /** The length of every entry: 4 for the saddles, 2 for codes 0..15 otherwise, 0 outside 0..15. */
  lemma CaseEndpointsShape(code: int, cell: Cell, isovalue: real, mode: Placement)
    requires CasePlaceable(code, cell, mode)
    ensures var ps := CaseEndpoints(code, cell, isovalue, mode);
      && (code == 5 || code == 10 <==> |ps| == 4)
      && (0 <= code <= 15 && code != 5 && code != 10 <==> |ps| == 2)
      && (code < 0 || 15 < code <==> ps == [])
      && (code == 0 || code == 15 ==> ps == [Origin, Origin])
  {
  }

  /** A code and its complement give the same list, except the two saddle codes. */
  lemma ComplementSymmetry(code: int, cell: Cell, isovalue: real, mode: Placement)
    requires 0 <= code <= 15 && code != 5 && code != 10
    requires CasePlaceable(code, cell, mode)
    ensures CasePlaceable(15 - code, cell, mode)
    ensures CaseEndpoints(code, cell, isovalue, mode) == CaseEndpoints(15 - code, cell, isovalue, mode)
  {
    TableComplement(code);
  }

  /** The table lists the same sides, in the same order, for a code and its complement, saddles aside. */
  lemma TableComplement(code: int)
    requires 0 <= code <= 15 && code != 5 && code != 10
    ensures TableEdges(code) == TableEdges(15 - code)
  {
    var c := 15 - code;
    if code == 0 { assert c == 15; }
    else if code == 1 { assert c == 14; }
    else if code == 2 { assert c == 13; }
    else if code == 3 { assert c == 12; }
    else if code == 4 { assert c == 11; }
    else if code == 6 { assert c == 9; }
    else if code == 7 { assert c == 8; }
    else if code == 8 { assert c == 7; }
    else if code == 9 { assert c == 6; }
    else if code == 11 { assert c == 4; }
    else if code == 12 { assert c == 3; }
    else if code == 13 { assert c == 2; }
    else if code == 14 { assert c == 1; }
    else { assert code == 15 && c == 0; }
  }

  predicate AllPlaceable(cell: Cell, mode: Placement)
  {
    Placeable(cell, Top, mode) && Placeable(cell, Left, mode) && Placeable(cell, Bottom, mode) && Placeable(cell, Right, mode)
  }

  /** The saddle entries use all four sides. */
  lemma SaddleSides(code: int, cell: Cell, mode: Placement)
    requires code == 5 || code == 10
    requires CasePlaceable(code, cell, mode)
    ensures AllPlaceable(cell, mode)
  {
    assert Top in TableEdges(code) && Left in TableEdges(code);
    assert Bottom in TableEdges(code) && Right in TableEdges(code);
  }

  /**
    The saddle codes place the same four endpoints p0..p3 (on the top, left,
    bottom and right sides) and pair them differently: code 5 as p0-p3, p1-p2
    and code 10 as p0-p1, p2-p3.
   */
  lemma SaddlePairings(cell: Cell, isovalue: real, mode: Placement)
    requires AllPlaceable(cell, mode)
    ensures var p0, p1, p2, p3 := PlaceOn(cell, Top, isovalue, mode), PlaceOn(cell, Left, isovalue, mode),
                                  PlaceOn(cell, Bottom, isovalue, mode), PlaceOn(cell, Right, isovalue, mode);
      && CaseEndpoints(5, cell, isovalue, mode) == [p0, p3, p1, p2]
      && CaseEndpoints(10, cell, isovalue, mode) == [p0, p1, p2, p3]
  {
    var five, ten := TableEdges(5), TableEdges(10);
    assert five == [Top, Right, Left, Bottom];
    assert ten == [Top, Left, Bottom, Right];
    var ps5, ps10 := PlaceAll(cell, five, isovalue, mode), PlaceAll(cell, ten, isovalue, mode);
    assert ps5[0] == PlaceOn(cell, Top, isovalue, mode) && ps5[1] == PlaceOn(cell, Right, isovalue, mode);
    assert ps5[2] == PlaceOn(cell, Left, isovalue, mode) && ps5[3] == PlaceOn(cell, Bottom, isovalue, mode);
    assert ps10[0] == PlaceOn(cell, Top, isovalue, mode) && ps10[1] == PlaceOn(cell, Left, isovalue, mode);
    assert ps10[2] == PlaceOn(cell, Bottom, isovalue, mode) && ps10[3] == PlaceOn(cell, Right, isovalue, mode);
  }

  // ---------------------------------------------------------------------------
  // The table applied to a classified cell

  /** The corner states a cell's case code records are the corners' own states. */
  lemma CellCaseBits(cell: Cell, isovalue: real, p: Position)
    ensures CodeBit(CellCase(cell, isovalue), p) == GetState(At(cell, p).v, isovalue)
  {
    DecodeCaseCode(GetState(cell.topLeft.v, isovalue), GetState(cell.topRight.v, isovalue),
                   GetState(cell.bottomRight.v, isovalue), GetState(cell.bottomLeft.v, isovalue));
  }

  /** The side's corners lie on opposite sides of the isovalue: one below, one at or above. */
  predicate Bipolar(cell: Cell, e: Edge, isovalue: real)
  {
    GetState(At(cell, Ends(e).0).v, isovalue) != GetState(At(cell, Ends(e).1).v, isovalue)
  }

  /** Every side the table uses for a cell's own code is bipolar, so getT never divides by zero there. */
  lemma {:induction false} CellCaseSidesBipolar(cell: Cell, isovalue: real)
    ensures forall e :: e in TableEdges(CellCase(cell, isovalue)) <==> Bipolar(cell, e, isovalue)
    ensures forall mode, e :: e in TableEdges(CellCase(cell, isovalue)) ==> Placeable(cell, e, mode)
  {
    var code := CellCase(cell, isovalue);
    TableEdgesAreCrossed(code);
    forall e ensures Crosses(code, e) <==> Bipolar(cell, e, isovalue) {
      CellCaseBits(cell, isovalue, Ends(e).0);
      CellCaseBits(cell, isovalue, Ends(e).1);
    }
  }

  /** In either placement mode, getT is defined on every side the table uses for a cell's own code. */
  lemma CellCasePlaceable(cell: Cell, isovalue: real, mode: Placement)
    ensures CasePlaceable(CellCase(cell, isovalue), cell, mode)
  {
    CellCaseSidesBipolar(cell, isovalue);
  }

  /** The endpoint list of a cell classified against the isovalue. */
  function CellEndpoints(cell: Cell, isovalue: real, mode: Placement): seq<Point>
  {
    CellCasePlaceable(cell, isovalue, mode);
    CaseEndpoints(CellCase(cell, isovalue), cell, isovalue, mode)
  }

  /** A cell whose four samples are all below, or all at or above, the isovalue gives the origin pair. */
  lemma UniformCellDegenerate(cell: Cell, isovalue: real, mode: Placement)
    requires (forall p :: At(cell, p).v < isovalue) || (forall p :: At(cell, p).v >= isovalue)
    ensures CellCase(cell, isovalue) == 0 || CellCase(cell, isovalue) == 15
    ensures CellEndpoints(cell, isovalue, mode) == [Origin, Origin]
  {
    assert At(cell, TopLeft) == cell.topLeft && At(cell, TopRight) == cell.topRight;
    assert At(cell, BottomRight) == cell.bottomRight && At(cell, BottomLeft) == cell.bottomLeft;
  }

  /**
    Every interpolated endpoint of a non-uniform cell lies on the side it was
    placed on, strictly past the lower corner's value.
   */
  lemma InterpolatedEndpointsOnTheirSides(cell: Cell, isovalue: real, k: nat)
    requires var code := CellCase(cell, isovalue); code != 0 && code != 15
    requires k < |TableEdges(CellCase(cell, isovalue))|
    ensures var e := TableEdges(CellCase(cell, isovalue))[k];
      var p0, p1 := At(cell, Ends(e).0), At(cell, Ends(e).1);
      var r := CellEndpoints(cell, isovalue, Interpolation)[k];
      && p0.v != p1.v
      && 0.0 < GetT(p0, p1, isovalue) <= 1.0
      && Between(r.x, Trunc(p0.x), Trunc(p1.x)) && Between(r.y, Trunc(p0.y), Trunc(p1.y))
  {
    CellCaseSidesBipolar(cell, isovalue);
    var e := TableEdges(CellCase(cell, isovalue))[k];
    assert e in TableEdges(CellCase(cell, isovalue));
    var p0, p1 := At(cell, Ends(e).0), At(cell, Ends(e).1);
    GetTRange(p0, p1, isovalue);
    InterpolationBounds(p0, p1, GetT(p0, p1, isovalue));
  }

  /**
    getEndpointsForCase: the switch over the code, computing t1 and t2 for a
    pair of sides and pushing the endpoints placed on them. In midpoint mode
    the source computes t too but never reads it; the model skips it there.
   */
  method GetEndpointsForCase(c: int, subgrid: Cell, isovalue: real, mode: Placement) returns (endpoints: seq<Point>)
    requires CasePlaceable(c, subgrid, mode)
    ensures endpoints == CaseEndpoints(c, subgrid, isovalue, mode)
  {
    ghost var es := TableEdges(c);
    endpoints := [];
    var topLeft, topRight := subgrid.topLeft, subgrid.topRight;
    var bottomRight, bottomLeft := subgrid.bottomRight, subgrid.bottomLeft;
    var t1: real, t2: real;
    match c
    case 0 | 15 =>
      endpoints := endpoints + [Point(0, 0), Point(0, 0)];
      assert endpoints == CaseEndpoints(c, subgrid, isovalue, mode);
    case 1 | 14 =>
      assert es == [Left, Bottom];
      PairedSides(c, subgrid, isovalue, mode);
      t1 := EdgeT(topLeft, bottomLeft, isovalue, mode);
      t2 := EdgeT(bottomLeft, bottomRight, isovalue, mode);
      endpoints := endpoints + [GetEndpoint(mode, topLeft, bottomLeft, t1), GetEndpoint(mode, bottomLeft, bottomRight, t2)];
    case 2 | 13 =>
      assert es == [Right, Bottom];
      PairedSides(c, subgrid, isovalue, mode);
      t1 := EdgeT(topRight, bottomRight, isovalue, mode);
      t2 := EdgeT(bottomLeft, bottomRight, isovalue, mode);
      endpoints := endpoints + [GetEndpoint(mode, topRight, bottomRight, t1), GetEndpoint(mode, bottomLeft, bottomRight, t2)];
    case 3 | 12 =>
      assert es == [Left, Right];
      PairedSides(c, subgrid, isovalue, mode);
      t1 := EdgeT(topLeft, bottomLeft, isovalue, mode);
      t2 := EdgeT(topRight, bottomRight, isovalue, mode);
      endpoints := endpoints + [GetEndpoint(mode, topLeft, bottomLeft, t1), GetEndpoint(mode, topRight, bottomRight, t2)];
    case 4 | 11 =>
      assert es == [Top, Right];
      PairedSides(c, subgrid, isovalue, mode);
      t1 := EdgeT(topLeft, topRight, isovalue, mode);
      t2 := EdgeT(topRight, bottomRight, isovalue, mode);
      endpoints := endpoints + [GetEndpoint(mode, topLeft, topRight, t1), GetEndpoint(mode, topRight, bottomRight, t2)];
    case 5 | 10 =>
      SaddleSides(c, subgrid, mode);
      SaddlePairings(subgrid, isovalue, mode);
      t1 := EdgeT(topLeft, topRight, isovalue, mode);
      t2 := EdgeT(topLeft, bottomLeft, isovalue, mode);
      var p0 := GetEndpoint(mode, topLeft, topRight, t1);
      var p1 := GetEndpoint(mode, topLeft, bottomLeft, t2);
      t1 := EdgeT(bottomLeft, bottomRight, isovalue, mode);
      t2 := EdgeT(topRight, bottomRight, isovalue, mode);
      var p2 := GetEndpoint(mode, bottomLeft, bottomRight, t1);
      var p3 := GetEndpoint(mode, topRight, bottomRight, t2);
      assert p0 == PlaceOn(subgrid, Top, isovalue, mode) && p1 == PlaceOn(subgrid, Left, isovalue, mode);
      assert p2 == PlaceOn(subgrid, Bottom, isovalue, mode) && p3 == PlaceOn(subgrid, Right, isovalue, mode);
      if c == 5 {
        endpoints := endpoints + [p0, p3, p1, p2];
      } else if c == 10 {
        endpoints := endpoints + [p0, p1, p2, p3];
      }
    case 6 | 9 =>
      assert es == [Top, Bottom];
      PairedSides(c, subgrid, isovalue, mode);
      t1 := EdgeT(topLeft, topRight, isovalue, mode);
      t2 := EdgeT(bottomLeft, bottomRight, isovalue, mode);
      endpoints := endpoints + [GetEndpoint(mode, topLeft, topRight, t1), GetEndpoint(mode, bottomLeft, bottomRight, t2)];
    case 7 | 8 =>
      assert es == [Top, Left];
      PairedSides(c, subgrid, isovalue, mode);
      t1 := EdgeT(topLeft, topRight, isovalue, mode);
      t2 := EdgeT(topLeft, bottomLeft, isovalue, mode);
      endpoints := endpoints + [GetEndpoint(mode, topLeft, topRight, t1), GetEndpoint(mode, topLeft, bottomLeft, t2)];
    case _ =>
      assert endpoints == CaseEndpoints(c, subgrid, isovalue, mode);
  }

  /** The endpoint list of a one-segment code is its two sides' endpoints, each as the switch computes it. */
  lemma PairedSides(code: int, cell: Cell, isovalue: real, mode: Placement)
    requires 0 < code < 15 && code != 5 && code != 10
    requires CasePlaceable(code, cell, mode)
    ensures var es := TableEdges(code);
      && Placeable(cell, es[0], mode) && Placeable(cell, es[1], mode)
      && CaseEndpoints(code, cell, isovalue, mode) == [PlaceOn(cell, es[0], isovalue, mode), PlaceOn(cell, es[1], isovalue, mode)]
  {
  }

  /** The t computed for a side: getT in interpolation mode; unread, and so not computed, in midpoint mode. */
  function EdgeT(p0: Corner, p1: Corner, isovalue: real, mode: Placement): (t: real)
    requires mode == Interpolation ==> p0.v != p1.v
    ensures mode == Interpolation ==> Min(p0.v, p1.v) + t * (Max(p0.v, p1.v) - Min(p0.v, p1.v)) == isovalue
  {
    if mode == Interpolation then GetT(p0, p1, isovalue) else 0.0
  }

  /** The placement the mode selects. */
  function GetEndpoint(mode: Placement, p0: Corner, p1: Corner, t: real): Point
  {
    match mode
    case Interpolation => GetEndpointByInterpolation(p0, p1, t)
    case Midpoint => GetEndpointByMidpoint(p0, p1)
  }

  /** Whichever placement the mode selects is the interpolant at some t: the given t, or one half at the midpoint, which ignores t. */
  lemma GetEndpointAtT(mode: Placement, p0: Corner, p1: Corner, t: real)
    ensures GetEndpoint(mode, p0, p1, t) == GetEndpointByInterpolation(p0, p1, if mode == Interpolation then t else 0.5)
  {
    MidpointIsHalfwayInterpolation(p0, p1);
  }
}
