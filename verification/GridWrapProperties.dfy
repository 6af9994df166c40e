/** The wrapping grid draws without overlap and within the size it reports, and wraps greedily. */
module GridWrapProperties {
  import opened GridWraps

  function Min(a: int, b: int): int {
    if a < b then a else b
  }

  /** Two rectangles share area. */
  predicate Overlap(a: Rect, b: Rect) {
    && Max(a.at.x, b.at.x) < Min(a.at.x + a.size.x, b.at.x + b.size.x)
    && Max(a.at.y, b.at.y) < Min(a.at.y + a.size.y, b.at.y + b.size.y)
  }

  ghost predicate PairwiseDisjoint(rs: seq<Rect>) {
    forall i, j | 0 <= i < j < |rs| :: !Overlap(rs[i], rs[j])
  }

  /** The rectangle lies between these bounds along and across the grid's axis. */
  predicate Between(g: GridWrap, r: Rect, main: int, mainEnd: int, cross: int, crossEnd: int) {
    && main <= AxisMain(g.axis, r.at) && AxisMain(g.axis, r.at) + AxisMain(g.axis, r.size) <= mainEnd
    && cross <= AxisCross(g.axis, r.at) && AxisCross(g.axis, r.at) + AxisCross(g.axis, r.size) <= crossEnd
  }

  ghost predicate AllBetween(g: GridWrap, rs: seq<Rect>, main: int, mainEnd: int, cross: int, crossEnd: int) {
    forall i | 0 <= i < |rs| :: Between(g, rs[i], main, mainEnd, cross, crossEnd)
  }

  lemma SideBySide(g: GridWrap, a: Rect, b: Rect, m0: int, m1: int, m2: int, c0: int, c1: int, c2: int, c3: int)
    requires Between(g, a, m0, m1, c0, c1) && Between(g, b, m1, m2, c2, c3)
    ensures !Overlap(a, b)
  {
  }

  lemma OneBelow(g: GridWrap, a: Rect, b: Rect, m0: int, m1: int, m2: int, m3: int, c0: int, c1: int, c2: int)
    requires Between(g, a, m0, m1, c0, c1) && Between(g, b, m2, m3, c1, c2)
    ensures !Overlap(a, b)
  {
  }

  /** Elements have non-negative sizes, no larger across than their row. */
  ghost predicate RowFits(g: GridWrap, row: Row) {
    && row.cross >= 0 && (row.els == [] ==> row.cross == 0)
    && forall k | 0 <= k < |row.els| :: g.Main(row.els[k]) >= 0 && 0 <= g.Cross(row.els[k]) <= row.cross
  }

  lemma {:induction false} SumMainGrows(g: GridWrap, els: seq<WrapData>, k: nat)
    requires forall i | 0 <= i < |els| :: g.Main(els[i]) >= 0
    requires k <= |els|
    ensures 0 <= g.SumMain(els[..k]) <= g.SumMain(els)
  {
    if k < |els| {
      SumMainGrows(g, els[..|els| - 1], k);
      assert els[..|els| - 1][..k] == els[..k];
    } else {
      assert els[..k] == els;
      if k > 0 {
        SumMainGrows(g, els[..k - 1], k - 1);
        assert els[..k - 1][..k - 1] == els[..k - 1];
      }
    }
  }

  /** Rows that fit, none longer than the width. */
  ghost predicate DoneFits(g: GridWrap, rows: seq<Row>, width: int) {
    forall r | 0 <= r < |rows| :: RowFits(g, rows[r]) && g.SumMain(rows[r].els) <= width
  }

  /** One row's rectangles lie side by side in the row's band. */
  lemma {:induction false} RowLaid(g: GridWrap, row: Row, k: nat, start: int)
    requires g.alignment != Baseline && RowFits(g, row) && k <= |row.els|
    ensures var rs := g.RowRects(row, k, AxisPoint(g.axis, 0, start));
      AllBetween(g, rs, 0, g.SumMain(row.els[..k]), start, start + row.cross) && PairwiseDisjoint(rs)
  {
    if k > 0 {
      var w, m := row.els[k - 1], g.SumMain(row.els[..k - 1]);
      RowLaid(g, row, k - 1, start);
      assert row.els[..k][..k - 1] == row.els[..k - 1];
      var before := g.RowRects(row, k - 1, AxisPoint(g.axis, 0, start));
      var last := Rect(w.index, AxisPoint(g.axis, 0, start).Plus(AxisPoint(g.axis, m, g.Align(w, row))), w.dims.size);
      SumMainGrows(g, row.els[..k - 1], 0);
      assert Between(g, last, m, m + g.Main(w), start, start + row.cross);
      forall i | 0 <= i < |before| ensures !Overlap(before[i], last) {
        SideBySide(g, before[i], last, 0, m, m + g.Main(w), start, start + row.cross, start, start + row.cross);
      }
    }
  }

  /** All rows lie below one another. */
  lemma {:induction false} RowsLaid(g: GridWrap, rows: seq<Row>, width: int)
    requires g.alignment != Baseline && DoneFits(g, rows, width)
    ensures var rs := g.Rects(rows, Point(0, 0));
      AllBetween(g, rs, 0, width, 0, g.SumCross(rows)) && PairwiseDisjoint(rs) && g.SumCross(rows) >= 0
  {
    if rows != [] {
      var before, row := rows[..|rows| - 1], rows[|rows| - 1];
      RowsLaid(g, before, width);
      var start := g.SumCross(before);
      RowLaid(g, row, |row.els|, start);
      assert row.els[..|row.els|] == row.els;
      assert Point(0, 0).Plus(AxisPoint(g.axis, 0, start)) == AxisPoint(g.axis, 0, start);
      var a, b := g.Rects(before, Point(0, 0)), g.RowRects(row, |row.els|, AxisPoint(g.axis, 0, start));
      JoinBands(g, a, b, width, start, start + row.cross);
    }
  }

  lemma JoinBands(g: GridWrap, a: seq<Rect>, b: seq<Rect>, width: int, middle: int, bottom: int)
    requires 0 <= middle <= bottom
    requires AllBetween(g, a, 0, width, 0, middle) && PairwiseDisjoint(a)
    requires AllBetween(g, b, 0, width, middle, bottom) && PairwiseDisjoint(b)
    ensures AllBetween(g, a + b, 0, width, 0, bottom) && PairwiseDisjoint(a + b)
  {
    forall i, j | 0 <= i < |a| && 0 <= j < |b| ensures !Overlap(a[i], b[j]) {
      OneBelow(g, a[i], b[j], 0, width, 0, width, 0, middle, bottom);
    }
  }

  // ---------------------------------------------------------------------------------------
  // What the loop keeps

  function Indices(rows: seq<Row>): seq<nat> {
    if rows == [] then [] else Indices(rows[..|rows| - 1]) + IndicesOf(rows[|rows| - 1].els)
  }

  function IndicesOf(els: seq<WrapData>): seq<nat> {
    seq(|els|, i requires 0 <= i < |els| => els[i].index)
  }

  function UpTo(n: nat): seq<nat> {
    seq(n, i => i)
  }

  /** A row that is wider than the limit holds at most one element. */
  ghost predicate WideAlone(g: GridWrap, row: Row, limit: int) {
    g.SumMain(row.els) <= limit || |row.els| <= 1
  }

  /** The row starts with an element that did not fit in what was left of the row before it. */
  ghost predicate Wrapped(g: GridWrap, before: Row, row: Row, limit: int) {
    row.els != [] && g.SumMain(before.els) + g.Main(row.els[0]) > limit
  }

  ghost predicate Greedy(g: GridWrap, rows: seq<Row>, limit: int) {
    && (forall r | 0 <= r < |rows| :: WideAlone(g, rows[r], limit))
    && (forall r | 0 < r < |rows| :: Wrapped(g, rows[r - 1], rows[r], limit))
  }

  ghost predicate Sound(g: GridWrap, csMax: Point, p: Progress, i: nat) {
    var limit := AxisMain(g.axis, csMax);
    && AxisMain(g.axis, p.max) == limit - p.mainPos
    && p.mainPos == g.SumMain(p.row.els) && p.mainSize >= 0 && p.crossSize == g.SumCross(p.done)
    && DoneFits(g, p.done, p.mainSize) && RowFits(g, p.row)
    && Indices(p.done) + IndicesOf(p.row.els) == UpTo(i)
    && Greedy(g, p.done, limit) && WideAlone(g, p.row, limit)
    && (p.done != [] ==> Wrapped(g, p.done[|p.done| - 1], p.row, limit))
  }

  ghost predicate NonNegative(el: Element) {
    forall max, i :: el(max, i).size.x >= 0 && el(max, i).size.y >= 0
  }

  lemma RowSnoc(g: GridWrap, els: seq<WrapData>, w: WrapData)
    ensures g.SumMain(els + [w]) == g.SumMain(els) + g.Main(w)
    ensures IndicesOf(els + [w]) == IndicesOf(els) + [w.index]
  {
    assert (els + [w])[..|els|] == els;
  }

  lemma RowsSnoc(g: GridWrap, rows: seq<Row>, row: Row)
    ensures Indices(rows + [row]) == Indices(rows) + IndicesOf(row.els)
    ensures g.SumCross(rows + [row]) == g.SumCross(rows) + if row.els == [] then 0 else row.cross
  {
    assert (rows + [row])[..|rows|] == rows;
  }

  lemma GreedySnoc(g: GridWrap, rows: seq<Row>, row: Row, limit: int)
    requires Greedy(g, rows, limit) && WideAlone(g, row, limit)
    requires rows != [] ==> Wrapped(g, rows[|rows| - 1], row, limit)
    ensures Greedy(g, rows + [row], limit)
  {
  }

  lemma ExtendKeeps(g: GridWrap, csMax: Point, p: Progress, w: WrapData, i: nat)
    requires Sound(g, csMax, p, i) && w.index == i && g.Main(w) >= 0 && g.Cross(w) >= 0 && g.FitsMain(p.max, w.dims)
    ensures Sound(g, csMax, g.Extend(csMax, p, w), i + 1)
  {
    RowSnoc(g, p.row.els, w);
    assert UpTo(i + 1) == UpTo(i) + [i];
    assert Indices(p.done) + (IndicesOf(p.row.els) + [i]) == Indices(p.done) + IndicesOf(p.row.els) + [i];
  }

  /** Closing the row under way keeps the finished rows sound. */
  lemma CloseKeeps(g: GridWrap, csMax: Point, p: Progress, i: nat)
    requires Sound(g, csMax, p, i)
    ensures var rows := p.done + [p.row];
      && DoneFits(g, rows, Max(p.mainSize, p.mainPos))
      && Greedy(g, rows, AxisMain(g.axis, csMax))
      && Indices(rows) == UpTo(i)
      && g.SumCross(rows) == p.crossSize + p.row.cross
  {
    RowsSnoc(g, p.done, p.row);
    GreedySnoc(g, p.done, p.row, AxisMain(g.axis, csMax));
    DoneFitsSnoc(g, p.done, p.row, p.mainSize, Max(p.mainSize, p.mainPos));
  }

  lemma BreakKeeps(g: GridWrap, csMax: Point, p: Progress, w: WrapData, i: nat)
    requires Sound(g, csMax, p, i) && w.index == i && g.Main(w) >= 0 && g.Cross(w) >= 0 && !g.FitsMain(p.max, w.dims)
    ensures Sound(g, csMax, g.Break(csMax, p, w), i + 1)
  {
    CloseKeeps(g, csMax, p, i);
    RowSnoc(g, [], w);
    assert [] + [w] == [w];
    assert UpTo(i + 1) == UpTo(i) + [i];
  }

  /** The loop keeps all of it, and stops at the end or at an element that fits neither way. */
  lemma {:induction false} FillKeeps(g: GridWrap, csMax: Point, num: nat, el: Element, i: nat, p: Progress)
    returns (n: nat)
    requires NonNegative(el) && i <= num && Sound(g, csMax, p, i)
    ensures i <= n <= num && Sound(g, csMax, g.Fill(csMax, num, el, i, p), n)
    ensures n < num ==> Stuck(g, g.Fill(csMax, num, el, i, p), n, el)
    decreases num - i
  {
    n := i;
    if i < num {
      var w := WrapData(g.Measure(p.max, i, el), i);
      MeasuresNonNegative(g, p.max, i, el);
      if g.FitsMain(p.max, w.dims) || g.FitsCross(p.max, w.dims) {
        var p1 := if g.FitsMain(p.max, w.dims) then g.Extend(csMax, p, w) else g.Break(csMax, p, w);
        PlacedKeeps(g, csMax, p, w, i, p1);
        assert g.Fill(csMax, num, el, i, p) == g.Fill(csMax, num, el, i + 1, p1);
        n := FillKeeps(g, csMax, num, el, i + 1, p1);
      }
    }
  }

  lemma MeasuresNonNegative(g: GridWrap, max: Point, i: nat, el: Element)
    requires NonNegative(el)
    ensures AxisMain(g.axis, g.Measure(max, i, el).size) >= 0 && AxisCross(g.axis, g.Measure(max, i, el).size) >= 0
  {
  }

  lemma PlacedKeeps(g: GridWrap, csMax: Point, p: Progress, w: WrapData, i: nat, p1: Progress)
    requires Sound(g, csMax, p, i) && w.index == i && g.Main(w) >= 0 && g.Cross(w) >= 0
    requires p1 == if g.FitsMain(p.max, w.dims) then g.Extend(csMax, p, w) else g.Break(csMax, p, w)
    ensures Sound(g, csMax, p1, i + 1)
  {
    if g.FitsMain(p.max, w.dims) {
      ExtendKeeps(g, csMax, p, w, i);
    } else {
      BreakKeeps(g, csMax, p, w, i);
    }
  }

  /** The next element fits neither along the row nor across. */
  predicate Stuck(g: GridWrap, p: Progress, n: nat, el: Element) {
    var dims := g.Measure(p.max, n, el);
    && AxisMain(g.axis, dims.size) > AxisMain(g.axis, p.max)
    && AxisCross(g.axis, dims.size) > AxisCross(g.axis, p.max)
  }

  // ---------------------------------------------------------------------------------------
  // Main results

  lemma SoundLaid(g: GridWrap, csMax: Point, p: Progress, n: nat)
    requires Sound(g, csMax, p, n) && g.alignment != Baseline
    ensures var rs := g.Rects(p.done + [p.row], Point(0, 0));
      PairwiseDisjoint(rs) && AllBetween(g, rs, 0, Max(p.mainSize, p.mainPos), 0, p.crossSize + p.row.cross)
  {
    var rows, width := p.done + [p.row], Max(p.mainSize, p.mainPos);
    assert g.SumCross(rows) == p.crossSize + p.row.cross by {
      RowsSnoc(g, p.done, p.row);
    }
    assert DoneFits(g, rows, width) by {
      DoneFitsSnoc(g, p.done, p.row, p.mainSize, width);
    }
    RowsLaid(g, rows, width);
  }

  lemma DoneFitsSnoc(g: GridWrap, rows: seq<Row>, row: Row, width: int, wider: int)
    requires DoneFits(g, rows, width) && RowFits(g, row) && width <= wider && g.SumMain(row.els) <= wider
    ensures DoneFits(g, rows + [row], wider)
  {
  }

  /** The same rectangles, all moved by an offset. */
  ghost predicate Moved(a: seq<Rect>, b: seq<Rect>, shift: Point) {
    && |a| == |b|
    && forall i | 0 <= i < |a| :: b[i] == a[i].(at := a[i].at.Plus(shift))
  }

  lemma {:induction false} RowMoves(g: GridWrap, row: Row, k: nat, from: Point, shift: Point)
    requires k <= |row.els|
    ensures Moved(g.RowRects(row, k, from), g.RowRects(row, k, from.Plus(shift)), shift)
  {
    if k > 0 {
      RowMoves(g, row, k - 1, from, shift);
    }
  }

  /** Drawing at another offset moves everything drawn by that offset. */
  lemma {:induction false} RowsMove(g: GridWrap, rows: seq<Row>, shift: Point)
    ensures Moved(g.Rects(rows, Point(0, 0)), g.Rects(rows, shift), shift)
  {
    if rows != [] {
      var before, row := rows[..|rows| - 1], rows[|rows| - 1];
      RowsMove(g, before, shift);
      var start := RowStart(g, before, Point(0, 0));
      assert RowStart(g, before, shift) == start.Plus(shift);
      RowMoves(g, row, |row.els|, start, shift);
    }
  }

  lemma MovedStaysApart(g: GridWrap, a: seq<Rect>, b: seq<Rect>, shift: Point, width: int, height: int)
    requires Moved(a, b, shift) && PairwiseDisjoint(a) && AllBetween(g, a, 0, width, 0, height)
    ensures PairwiseDisjoint(b)
    ensures var main, cross := AxisMain(g.axis, shift), AxisCross(g.axis, shift);
      AllBetween(g, b, main, main + width, cross, cross + height)
  {
    forall i, j | 0 <= i < j < |b| ensures !Overlap(b[i], b[j]) {
      assert !Overlap(a[i], a[j]);
    }
  }

  /** Everything is drawn apart, within the size the layout returns, measured from the origin. */
  ghost predicate DrawnApartInside(g: GridWrap, p: Progress, origin: Point) {
    var rs := g.Rects(p.done + [p.row], origin);
    var main, cross := AxisMain(g.axis, origin), AxisCross(g.axis, origin);
    && PairwiseDisjoint(rs)
    && AllBetween(g, rs, main, main + Max(p.mainSize, p.mainPos), cross, cross + (p.crossSize + p.row.cross))
  }

  lemma SoundLaidAt(g: GridWrap, csMax: Point, p: Progress, n: nat, origin: Point)
    requires Sound(g, csMax, p, n) && g.alignment != Baseline
    ensures DrawnApartInside(g, p, origin)
  {
    var rows := p.done + [p.row];
    SoundLaid(g, csMax, p, n);
    RowsMove(g, rows, origin);
    MovedStaysApart(g, g.Rects(rows, Point(0, 0)), g.Rects(rows, origin), origin,
                    Max(p.mainSize, p.mainPos), p.crossSize + p.row.cross);
  }

  /** With non-negative sizes and any alignment but the baseline, what the layout draws at any offset is
      pairwise disjoint in area and lies inside the size that it returns. */
  lemma DrawnDisjointInside(g: GridWrap, csMax: Point, num: nat, el: Element, origin: Point)
    requires NonNegative(el) && g.alignment != Baseline
    ensures DrawnApartInside(g, g.Result(csMax, num, el), origin)
  {
    var n := FillKeeps(g, csMax, num, el, 0, g.Begin(csMax));
    SoundLaidAt(g, csMax, g.Result(csMax, num, el), n, origin);
  }

  /** The elements placed are the first n, in order and each once, row by row greedily. */
  lemma WrapsGreedily(g: GridWrap, csMax: Point, num: nat, el: Element) returns (n: nat)
    requires NonNegative(el)
    ensures var p := g.Result(csMax, num, el);
      && n <= num && Indices(p.done + [p.row]) == UpTo(n)
      && Greedy(g, p.done + [p.row], AxisMain(g.axis, csMax))
      && (n < num ==> Stuck(g, p, n, el))
  {
    n := FillKeeps(g, csMax, num, el, 0, g.Begin(csMax));
    var p := g.Result(csMax, num, el);
    RowsSnoc(g, p.done, p.row);
    GreedySnoc(g, p.done, p.row, AxisMain(g.axis, csMax));
  }

  /** Each element is drawn once: the rectangles carry the indices in the order of the rows. */
  lemma {:induction false} DrawnInOrder(g: GridWrap, rows: seq<Row>, origin: Point)
    ensures IndicesDrawn(g.Rects(rows, origin)) == Indices(rows)
  {
    if rows != [] {
      var before, row := rows[..|rows| - 1], rows[|rows| - 1];
      DrawnInOrder(g, before, origin);
      var start := RowStart(g, before, origin);
      RowDrawnInOrder(g, row, |row.els|, start);
      assert row.els[..|row.els|] == row.els;
      DrawnConcat(g.Rects(before, origin), g.RowRects(row, |row.els|, start));
    }
  }

  lemma DrawnConcat(a: seq<Rect>, b: seq<Rect>)
    ensures IndicesDrawn(a + b) == IndicesDrawn(a) + IndicesDrawn(b)
  {
  }

  lemma {:induction false} RowDrawnInOrder(g: GridWrap, row: Row, k: nat, origin: Point)
    requires k <= |row.els|
    ensures IndicesDrawn(g.RowRects(row, k, origin)) == IndicesOf(row.els[..k])
  {
    if k == 0 {
      assert row.els[..k] == [];
    } else {
      RowDrawnInOrder(g, row, k - 1, origin);
      RowSnoc(g, row.els[..k - 1], row.els[k - 1]);
      assert row.els[..k] == row.els[..k - 1] + [row.els[k - 1]];
    }
  }

  function IndicesDrawn(rs: seq<Rect>): seq<nat> {
    seq(|rs|, i requires 0 <= i < |rs| => rs[i].index)
  }

  // ---------------------------------------------------------------------------------------
  // Where exactly, and how large exactly

  /** How far an element is moved across the axis: not at all, down to the row's far edge, to the middle
      with the odd unit behind it, or until the baselines meet. */
  ghost predicate AlignedBy(g: GridWrap, row: Row, w: WrapData, a: int) {
    var size := if g.axis == Horizontal then w.dims.size.y else w.dims.size.x;
    match g.alignment
    case Start => a == 0
    case End => a + size == row.cross
    case Middle => size <= row.cross ==> a <= row.cross - size - a <= a + 1
    case Baseline => if g.axis == Horizontal then a + w.dims.baseline == row.base else a == 0
  }

  /** Each element of a row is drawn behind the ones before it, aligned across the axis, in its own size. */
  lemma {:induction false} PlacedAt(g: GridWrap, row: Row, n: nat, k: nat, origin: Point)
    requires k < n <= |row.els|
    ensures |g.RowRects(row, n, origin)| == n
    ensures var r := g.RowRects(row, n, origin)[k];
      var a := g.Align(row.els[k], row);
      && AlignedBy(g, row, row.els[k], a)
      && r.size == row.els[k].dims.size && r.index == row.els[k].index
      && (g.axis == Horizontal ==> r.at == Point(origin.x + g.SumMain(row.els[..k]), origin.y + a))
      && (g.axis == Vertical ==> r.at == Point(origin.x + a, origin.y + g.SumMain(row.els[..k])))
  {
    RowCount(g, row, n - 1, origin);
    if k < n - 1 {
      PlacedAt(g, row, n - 1, k, origin);
    }
  }

  lemma {:induction false} RowCount(g: GridWrap, row: Row, n: nat, origin: Point)
    requires n <= |row.els|
    ensures |g.RowRects(row, n, origin)| == n
  {
    if n > 0 {
      RowCount(g, row, n - 1, origin);
    }
  }

  /** Lengths along the axis add up without gaps. */
  lemma WidthsAddUp(g: GridWrap, els: seq<WrapData>, w: WrapData)
    ensures g.SumMain([]) == 0
    ensures g.SumMain(els + [w]) == g.SumMain(els) + if g.axis == Horizontal then w.dims.size.x else w.dims.size.y
  {
    RowSnoc(g, els, w);
  }

  /** A row is as large across as its largest element, and its baseline is the lowest one. */
  ghost predicate RowTight(g: GridWrap, row: Row) {
    && (forall e | 0 <= e < |row.els| :: g.Cross(row.els[e]) <= row.cross && row.els[e].dims.baseline <= row.base)
    && (row.els == [] ==> row.cross == 0)
    && (row.els != [] ==> exists e :: 0 <= e < |row.els| && g.Cross(row.els[e]) == row.cross)
    && (row.base != 0 ==> exists e :: 0 <= e < |row.els| && row.els[e].dims.baseline == row.base)
  }

  ghost predicate AllTight(g: GridWrap, rows: seq<Row>) {
    forall r | 0 <= r < |rows| :: RowTight(g, rows[r])
  }

  /** The width is that of the longest row. */
  ghost predicate Widest(g: GridWrap, rows: seq<Row>, width: int) {
    && width >= 0
    && (forall r | 0 <= r < |rows| :: g.SumMain(rows[r].els) <= width)
    && (width != 0 ==> exists r :: 0 <= r < |rows| && g.SumMain(rows[r].els) == width)
  }

  /** An element is offered what is left of the limits: across, the whole limit, less the row just finished
      for the second element of a row. */
  ghost predicate Offered(g: GridWrap, csMax: Point, p: Progress) {
    && AxisMain(g.axis, p.max) == AxisMain(g.axis, csMax) - p.mainPos
    && AxisCross(g.axis, p.max) == AxisCross(g.axis, csMax)
         - if p.done != [] && |p.row.els| == 1 then p.done[|p.done| - 1].cross else 0
  }

  ghost predicate Tight(g: GridWrap, csMax: Point, p: Progress) {
    && AllTight(g, p.done) && RowTight(g, p.row) && Widest(g, p.done, p.mainSize)
    && 0 <= p.mainPos == g.SumMain(p.row.els) && (p.done != [] ==> p.row.els != [])
    && Offered(g, csMax, p)
  }

  lemma ExtendTight(g: GridWrap, csMax: Point, p: Progress, w: WrapData)
    requires Tight(g, csMax, p) && g.Cross(w) >= 0 && g.Main(w) >= 0
    ensures Tight(g, csMax, g.Extend(csMax, p, w))
  {
    RowSnoc(g, p.row.els, w);
    RowGrows(g, p.row, w);
  }

  lemma RowGrows(g: GridWrap, row: Row, w: WrapData)
    requires RowTight(g, row) && g.Cross(w) >= 0
    ensures RowTight(g, Row(row.els + [w], Max(row.cross, g.Cross(w)), Max(row.base, w.dims.baseline)))
  {
    var els := row.els + [w];
    assert els[|row.els|] == w;
    forall e | 0 <= e < |row.els| ensures els[e] == row.els[e] {}
    if row.els != [] {
      var e :| 0 <= e < |row.els| && g.Cross(row.els[e]) == row.cross;
      assert g.Cross(els[e]) == row.cross;
    }
    if row.base != 0 {
      var e :| 0 <= e < |row.els| && row.els[e].dims.baseline == row.base;
      assert els[e].dims.baseline == row.base;
    }
  }

  lemma AllTightSnoc(g: GridWrap, rows: seq<Row>, row: Row)
    requires AllTight(g, rows) && RowTight(g, row)
    ensures AllTight(g, rows + [row])
  {
  }

  lemma WidestSnoc(g: GridWrap, rows: seq<Row>, row: Row, width: int)
    requires Widest(g, rows, width) && g.SumMain(row.els) >= 0
    ensures Widest(g, rows + [row], Max(width, g.SumMain(row.els)))
    ensures exists r :: 0 <= r <= |rows| && g.SumMain((rows + [row])[r].els) == Max(width, g.SumMain(row.els))
  {
    var all := rows + [row];
    assert all[|rows|] == row && forall r | 0 <= r < |rows| :: all[r] == rows[r];
    if width > g.SumMain(row.els) {
      var r :| 0 <= r < |rows| && g.SumMain(rows[r].els) == width;
      assert g.SumMain(all[r].els) == width;
    }
  }

  lemma BreakTight(g: GridWrap, csMax: Point, p: Progress, w: WrapData)
    requires Tight(g, csMax, p) && g.Main(w) >= 0
    ensures Tight(g, csMax, g.Break(csMax, p, w))
  {
    AllTightSnoc(g, p.done, p.row);
    WidestSnoc(g, p.done, p.row, p.mainSize);
    SingleTight(g, w);
  }

  lemma SingleTight(g: GridWrap, w: WrapData)
    ensures RowTight(g, Row([w], g.Cross(w), w.dims.baseline)) && g.SumMain([w]) == g.Main(w)
  {
    RowSnoc(g, [], w);
    assert [] + [w] == [w] && [w][0] == w;
  }

  lemma {:induction false} FillTight(g: GridWrap, csMax: Point, num: nat, el: Element, i: nat, p: Progress)
    requires NonNegative(el) && i <= num && Tight(g, csMax, p)
    ensures Tight(g, csMax, g.Fill(csMax, num, el, i, p))
    decreases num - i
  {
    if i < num {
      var w := WrapData(g.Measure(p.max, i, el), i);
      MeasuresNonNegative(g, p.max, i, el);
      if g.FitsMain(p.max, w.dims) {
        ExtendTight(g, csMax, p, w);
        FillTight(g, csMax, num, el, i + 1, g.Extend(csMax, p, w));
      } else if g.FitsCross(p.max, w.dims) {
        BreakTight(g, csMax, p, w);
        FillTight(g, csMax, num, el, i + 1, g.Break(csMax, p, w));
      }
    }
  }

  /** The size the layout returns is exact: as long as the longest row, and across the sum of the largest
      elements of the rows. */
  lemma SizeIsExact(g: GridWrap, csMax: Point, num: nat, el: Element)
    requires NonNegative(el)
    ensures ExactSize(g, g.Result(csMax, num, el))
  {
    FillTight(g, csMax, num, el, 0, g.Begin(csMax));
    var n := FillKeeps(g, csMax, num, el, 0, g.Begin(csMax));
    TightSize(g, csMax, g.Result(csMax, num, el), n);
  }

  ghost predicate ExactSize(g: GridWrap, p: Progress) {
    var rows, width := p.done + [p.row], Max(p.mainSize, p.mainPos);
    && AllTight(g, rows) && Widest(g, rows, width)
    && (exists r :: 0 <= r < |rows| && g.SumMain(rows[r].els) == width)
    && p.crossSize + p.row.cross == g.SumCross(rows)
  }

  lemma TightSize(g: GridWrap, csMax: Point, p: Progress, n: nat)
    requires Tight(g, csMax, p) && Sound(g, csMax, p, n)
    ensures ExactSize(g, p)
  {
    AllTightSnoc(g, p.done, p.row);
    WidestSnoc(g, p.done, p.row, p.mainSize);
    RowsSnoc(g, p.done, p.row);
  }

  /** An element is measured with its limit along the axis lifted to a million. */
  lemma MeasuredUnbounded(g: GridWrap, max: Point, i: nat, el: Element)
    ensures g.Measure(max, i, el) ==
      el(if g.axis == Horizontal then Point(1000000, max.y) else Point(max.x, 1000000), i)
  {
  }
}
