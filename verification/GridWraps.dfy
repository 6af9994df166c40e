/** The wrapping grid: elements fill rows along the main axis and are drawn by moving one
    cumulative offset. */
module GridWraps {

  datatype Point = Point(x: int, y: int) {
    function Plus(p: Point): Point {
      Point(x + p.x, y + p.y)
    }
  }

  datatype Axis = Horizontal | Vertical

  datatype Alignment = Start | End | Middle | Baseline

  datatype Dims = Dims(size: Point, baseline: int)

  /** A recorded element: its measured dimensions and which one it is. */
  datatype WrapData = WrapData(dims: Dims, index: nat)

  /** Something drawn: an element's index and the rectangle it covers. */
  datatype Rect = Rect(index: nat, at: Point, size: Point)

  /** Lays out an element under a maximum constraint. */
  type Element = (Point, nat) -> Dims

  const INF := 1000000

  function AxisMain(a: Axis, p: Point): int {
    if a == Horizontal then p.x else p.y
  }

  function AxisCross(a: Axis, p: Point): int {
    if a == Horizontal then p.y else p.x
  }

  function AxisPoint(a: Axis, main: int, cross: int): Point {
    if a == Horizontal then Point(main, cross) else Point(cross, main)
  }

  function Max(a: int, b: int): int {
    if a > b then a else b
  }

  /** Integer division by two that truncates toward zero. */
  function Half(n: int): int {
    if n >= 0 then n / 2 else -(-n / 2)
  }

  /** A row: its elements, its extent across, and its baseline. */
  datatype Row = Row(els: seq<WrapData>, cross: int, base: int)

  /** The grid while it is being laid out: finished rows, the row under way, running positions and
      the constraint left for the next element. */
  datatype Progress = Progress(
    done: seq<Row>, row: Row,
    mainSize: int, mainPos: int, crossSize: int, max: Point)

  datatype GridWrap = GridWrap(axis: Axis, alignment: Alignment)
  {
    function Main(w: WrapData): int {
      AxisMain(axis, w.dims.size)
    }

    function Cross(w: WrapData): int {
      AxisCross(axis, w.dims.size)
    }

    // What an element measures when the main axis is unconstrained
    function Measure(max: Point, i: nat, el: Element): Dims {
      el(if axis == Horizontal then Point(INF, max.y) else Point(max.x, INF), i)
    }

    predicate FitsMain(max: Point, dims: Dims) {
      AxisMain(axis, dims.size) <= AxisMain(axis, max)
    }

    predicate FitsCross(max: Point, dims: Dims) {
      AxisCross(axis, dims.size) <= AxisCross(axis, max)
    }

    function Begin(csMax: Point): Progress {
      Progress([], Row([], 0, 0), 0, 0, 0, csMax)
    }

    /** Adds an element to the row under way. */
    function Extend(csMax: Point, p: Progress, w: WrapData): Progress {
      var row := Row(p.row.els + [w], Max(p.row.cross, Cross(w)), Max(p.row.base, w.dims.baseline));
      p.(row := row, mainPos := p.mainPos + Main(w),
         max := AxisPoint(axis, AxisMain(axis, p.max) - Main(w), AxisCross(axis, csMax)))
    }

    /** Closes the row under way and starts the next one with an element. */
    function Break(csMax: Point, p: Progress, w: WrapData): Progress {
      Progress(p.done + [p.row], Row([w], Cross(w), w.dims.baseline),
               Max(p.mainSize, p.mainPos), Main(w), p.crossSize + p.row.cross,
               AxisPoint(axis, AxisMain(axis, csMax) - Main(w), AxisCross(axis, csMax) - p.row.cross))
    }

    /** The grid after the elements from i on; it stops at one that fits neither way. */
    function Fill(csMax: Point, num: nat, el: Element, i: nat, p: Progress): Progress
      decreases num - i
    {
      if i >= num then p
      else
        var w := WrapData(Measure(p.max, i, el), i);
        if FitsMain(p.max, w.dims) then Fill(csMax, num, el, i + 1, Extend(csMax, p, w))
        else if FitsCross(p.max, w.dims) then Fill(csMax, num, el, i + 1, Break(csMax, p, w))
        else p
    }

    function Result(csMax: Point, num: nat, el: Element): Progress {
      Fill(csMax, num, el, 0, Begin(csMax))
    }

    // -------------------------------------------------------------------------------------
    // Where things are drawn

    function SumMain(els: seq<WrapData>): int {
      if els == [] then 0 else SumMain(els[..|els| - 1]) + Main(els[|els| - 1])
    }

    function Align(w: WrapData, row: Row): int {
      match alignment
      case Start => 0
      case End => row.cross - Cross(w)
      case Middle => Half(row.cross - Cross(w))
      case Baseline => if axis == Horizontal then row.base - w.dims.baseline else 0
    }

    /** The rectangles of the first k elements of a row that starts at the given offset. */
    function RowRects(row: Row, k: nat, origin: Point): seq<Rect>
      requires k <= |row.els|
    {
      if k == 0 then []
      else
        var w := row.els[k - 1];
        RowRects(row, k - 1, origin)
        + [Rect(w.index, origin.Plus(AxisPoint(axis, SumMain(row.els[..k - 1]), Align(w, row))), w.dims.size)]
    }

    function SumCross(rows: seq<Row>): int {
      if rows == [] then 0
      else SumCross(rows[..|rows| - 1]) + (if rows[|rows| - 1].els == [] then 0 else rows[|rows| - 1].cross)
    }

    /** The rectangles of all rows, each below the one before. */
    function Rects(rows: seq<Row>, origin: Point): seq<Rect> {
      if rows == [] then []
      else
        var before, row := rows[..|rows| - 1], rows[|rows| - 1];
        Rects(before, origin) + RowRects(row, |row.els|, RowStart(this, before, origin))
    }
  }

  /** The operation list: drawing happens at the current offset. */
  class Ops {
    var offset: Point
    var drawn: seq<Rect>

    method Offset(p: Point)
      modifies this`offset
      ensures offset == old(offset).Plus(p)
    {
      offset := offset.Plus(p);
    }

    method Call(w: WrapData)
      modifies this`drawn
      ensures drawn == old(drawn) + [Rect(w.index, offset, w.dims.size)]
    {
      drawn := drawn + [Rect(w.index, offset, w.dims.size)];
    }
  }

  /** Draws a finished row and leaves the offset where the next row starts. */
  method PlaceAll(g: GridWrap, ops: Ops, row: Row)
    modifies ops
    ensures ops.drawn == old(ops.drawn) + g.RowRects(row, |row.els|, old(ops.offset))
    ensures ops.offset == old(ops.offset).Plus(AxisPoint(g.axis, 0, if row.els == [] then 0 else row.cross))
  {
    var mainPos := 0;
    var els := row.els;
    for i := 0 to |els|
      invariant ops.drawn == old(ops.drawn) + g.RowRects(row, i, old(ops.offset))
      invariant mainPos == g.SumMain(els[..if i == |els| > 0 then i - 1 else i])
      invariant ops.offset == old(ops.offset).Plus(
        if i == |els| > 0 then AxisPoint(g.axis, 0, row.cross) else AxisPoint(g.axis, mainPos, 0))
    {
      DrawAligned(g, ops, els[i], g.Align(els[i], row));
      if i == |els| - 1 {
        ops.Offset(AxisPoint(g.axis, -mainPos, row.cross));
      } else {
        var main := g.Main(els[i]);
        ops.Offset(AxisPoint(g.axis, main, 0));
        mainPos := mainPos + main;
        assert els[..i + 1][..i] == els[..i];
      }
    }
  }

  /** Draws an element moved across the axis, and restores the offset. */
  method DrawAligned(g: GridWrap, ops: Ops, w: WrapData, cross: int)
    modifies ops
    ensures ops.offset == old(ops.offset)
    ensures ops.drawn == old(ops.drawn)
                         + [Rect(w.index, old(ops.offset).Plus(AxisPoint(g.axis, 0, cross)), w.dims.size)]
  {
    if cross == 0 {
      ops.Call(w);
    } else {
      var pt := AxisPoint(g.axis, 0, cross);
      ops.Offset(pt);
      ops.Call(w);
      ops.Offset(Point(-pt.x, -pt.y));
    }
  }

  /** Draws one more row below the rows drawn so far. */
  method CloseRow(g: GridWrap, ops: Ops, row: Row, ghost rows: seq<Row>, ghost origin: Point, ghost before: seq<Rect>)
    requires ops.drawn == before + g.Rects(rows, origin) && ops.offset == RowStart(g, rows, origin)
    modifies ops
    ensures ops.drawn == before + g.Rects(rows + [row], origin) && ops.offset == RowStart(g, rows + [row], origin)
  {
    PlaceAll(g, ops, row);
    OneMoreRow(g, rows, row, origin);
  }

  method Layout(g: GridWrap, ops: Ops, csMax: Point, num: nat, el: Element) returns (size: Point)
    modifies ops
    ensures var p := g.Result(csMax, num, el);
      && ops.drawn == old(ops.drawn) + g.Rects(p.done + [p.row], old(ops.offset))
      && size == AxisPoint(g.axis, Max(p.mainSize, p.mainPos), p.crossSize + p.row.cross)
  {
    var mainSize, crossSize, mainPos, crossPos, base := 0, 0, 0, 0, 0;
    var max := csMax;
    var mainCs := AxisMain(g.axis, csMax);
    var crossCs := AxisCross(g.axis, csMax);
    var els: seq<WrapData> := [];
    ghost var p, origin, before := g.Begin(csMax), ops.offset, ops.drawn;
    var i := 0;
    while i < num
      invariant i <= num && g.Fill(csMax, num, el, i, p) == g.Result(csMax, num, el)
      invariant p.row == Row(els, crossPos, base) && p.max == max
      invariant p.mainSize == mainSize && p.mainPos == mainPos && p.crossSize == crossSize
      invariant ops.drawn == before + g.Rects(p.done, origin)
      invariant ops.offset == RowStart(g, p.done, origin)
    {
      var dims := g.Measure(max, i, el);
      var okMain, okCross := g.FitsMain(max, dims), g.FitsCross(max, dims);
      if !okMain && !okCross {
        break;
      }
      var main, cross := AxisMain(g.axis, dims.size), AxisCross(g.axis, dims.size);
      assert g.Fill(csMax, num, el, i, p) == g.Fill(csMax, num, el, i + 1,
        if okMain then g.Extend(csMax, p, WrapData(dims, i)) else g.Break(csMax, p, WrapData(dims, i)));
      if okMain {
        els := els + [WrapData(dims, i)];
        max := AxisPoint(g.axis, AxisMain(g.axis, max) - main, crossCs);
        mainPos := mainPos + main;
        crossPos := Max(crossPos, cross);
        base := Max(base, dims.baseline);
        p := g.Extend(csMax, p, WrapData(dims, i));
      } else {
        mainSize := Max(mainSize, mainPos);
        crossSize := crossSize + crossPos;
        CloseRow(g, ops, Row(els, crossPos, base), p.done, origin, before);
        els := [WrapData(dims, i)];
        max := AxisPoint(g.axis, mainCs - main, crossCs - crossPos);
        mainPos := main;
        crossPos := cross;
        base := dims.baseline;
        p := g.Break(csMax, p, WrapData(dims, i));
      }
      i := i + 1;
    }
    mainSize := Max(mainSize, mainPos);
    crossSize := crossSize + crossPos;
    CloseRow(g, ops, Row(els, crossPos, base), p.done, origin, before);
    size := AxisPoint(g.axis, mainSize, crossSize);
  }

  /** Where the row after these starts. */
  function RowStart(g: GridWrap, rows: seq<Row>, origin: Point): Point {
    origin.Plus(AxisPoint(g.axis, 0, g.SumCross(rows)))
  }

  lemma OneMoreRow(g: GridWrap, rows: seq<Row>, row: Row, origin: Point)
    ensures g.Rects(rows + [row], origin)
      == g.Rects(rows, origin) + g.RowRects(row, |row.els|, RowStart(g, rows, origin))
    ensures RowStart(g, rows + [row], origin)
      == RowStart(g, rows, origin).Plus(AxisPoint(g.axis, 0, if row.els == [] then 0 else row.cross))
    ensures g.SumCross(rows + [row]) == g.SumCross(rows) + if row.els == [] then 0 else row.cross
  {
    assert (rows + [row])[..|rows|] == rows;
  }
}
