/**
 * The value-level pieces of the round engine (`Pattern`): the 4x4 grid of
 * cells in row-major order, the injected random source, the hit test, the
 * score multiplier and the zoom scale.
 */
module Grid {
  import opened Primitives
  import opened Input

  const Cells: nat := 16
  const Columns: nat := 4
  /** `gen_range(0..15)`: a draw never names the last cell. */
  const DrawBound: nat := 15
  const FilledCells: nat := 3

  /** The zoom scale in quarter steps: `SCALE_CHANGE` is 0.25, `SCALE_MIN` 0.5, `SCALE_MAX` 3.0. */
  const ScaleMinQuarters: int := 2
  const ScaleMaxQuarters: int := 12
  const DefaultScaleQuarters: int := 4
  const BaseTileSize: real := 250.0

  /** Number of filled cells. */
  function CountTrue(s: seq<bool>): (n: nat)
    ensures n <= |s|
  {
    CountFrom(s, 0)
  }

  /** Number of filled cells at positions `i` and beyond. */
  function CountFrom(s: seq<bool>, i: nat): (n: nat)
    requires i <= |s|
    ensures n <= |s| - i
    decreases |s| - i
  {
    if i == |s| then 0 else (if s[i] then 1 else 0) + CountFrom(s, i + 1)
  }

  /** Setting one cell changes the count by exactly the change at that cell. */
  lemma CountTrueUpdate(s: seq<bool>, i: nat, b: bool)
    requires i < |s|
    ensures CountTrue(s[i := b]) == CountTrue(s) - (if s[i] then 1 else 0) + (if b then 1 else 0)
  {
    CountFromUpdate(s, 0, i, b);
  }

  lemma {:induction false} CountFromUpdate(s: seq<bool>, from: nat, i: nat, b: bool)
    requires from <= |s| && i < |s|
    ensures CountFrom(s[i := b], from)
      == CountFrom(s, from) - (if from <= i && s[i] then 1 else 0) + (if from <= i && b then 1 else 0)
    decreases |s| - from
  {
    if from < |s| {
      CountFromUpdate(s, from + 1, i, b);
    }
  }

  /** A grid with no filled cell counts zero. */
  lemma {:induction false} CountFromNone(s: seq<bool>, from: nat)
    requires from <= |s| && forall k :: from <= k < |s| ==> !s[k]
    ensures CountFrom(s, from) == 0
    decreases |s| - from
  {
    if from < |s| {
      CountFromNone(s, from + 1);
    }
  }

  /** Fewer than `b` filled cells leave an empty one among the first `b`. */
  lemma SomeCellEmpty(s: seq<bool>, b: nat)
    requires b <= |s| && CountTrue(s) < b
    ensures exists i :: 0 <= i < b && !s[i]
  {
    SomeCellEmptyFrom(s, 0, b);
  }

  lemma {:induction false} SomeCellEmptyFrom(s: seq<bool>, from: nat, b: nat)
    requires from <= b <= |s| && CountFrom(s, from) < b - from
    ensures exists i :: from <= i < b && !s[i]
    decreases |s| - from
  {
    if s[from] {
      SomeCellEmptyFrom(s, from + 1, b);
    } else {
      assert !s[from];
    }
  }

  // ---------------------------------------------------------------------------
  // The random source. `ThreadRng` is a stream of draws `rng(0), rng(1), ...`;
  // the position reached so far is part of the round's state.

  /** The value `c` is drawn again at some position from `n` on. */
  ghost predicate Recurs(rng: nat -> nat, c: nat, n: nat) {
    exists m :: m >= n && rng(m) == c
  }

  /**
   * What `gen_range(0..15)` on a thread-local generator provides: every draw is
   * below 15, and (almost surely) every value below 15 keeps coming up.
   */
  ghost predicate FairSource(rng: nat -> nat) {
    && (forall n :: rng(n) < DrawBound)
    && (forall c: nat, n: nat :: c < DrawBound ==> Recurs(rng, c, n))
  }

  /** The draw at position `j` names a filled cell. */
  ghost predicate NamesFilled(rng: nat -> nat, tiles: seq<bool>, j: nat) {
    rng(j) < |tiles| && tiles[rng(j)]
  }

  /** Position `k` holds the first draw from `from` on that names an empty cell. */
  ghost predicate FirstEmptyDraw(rng: nat -> nat, tiles: seq<bool>, from: nat, k: nat) {
    && from <= k && rng(k) < |tiles| && !tiles[rng(k)]
    && forall j :: from <= j < k ==> NamesFilled(rng, tiles, j)
  }

  /** A draw naming an empty cell at `m` means a first such draw exists. */
  lemma {:induction false} FirstEmptyDrawExists(rng: nat -> nat, tiles: seq<bool>, from: nat, m: nat)
    requires forall n :: rng(n) < |tiles|
    requires from <= m && !tiles[rng(m)]
    ensures exists k :: FirstEmptyDraw(rng, tiles, from, k)
    decreases m - from
  {
    if j :| from <= j < m && !NamesFilled(rng, tiles, j) {
      FirstEmptyDrawExists(rng, tiles, from, j);
    } else {
      assert FirstEmptyDraw(rng, tiles, from, m);
    }
  }

  /**
   * The position of the draw that a rejection loop starting at `from` accepts
   * on a grid whose first 15 cells are not all filled.
   */
  ghost function NextEmptyDraw(rng: nat -> nat, tiles: seq<bool>, from: nat): (k: nat)
    requires FairSource(rng) && |tiles| == Cells && CountTrue(tiles) < DrawBound
    ensures FirstEmptyDraw(rng, tiles, from, k)
  {
    SomeCellEmpty(tiles, DrawBound);
    var c :| 0 <= c < DrawBound && !tiles[c];
    assert Recurs(rng, c, from);
    var m: nat :| m >= from && rng(m) == c;
    FirstEmptyDrawExists(rng, tiles, from, m);
    var k: nat :| FirstEmptyDraw(rng, tiles, from, k);
    k
  }

  /** There is only one first draw naming an empty cell. */
  lemma NextEmptyDrawUnique(rng: nat -> nat, tiles: seq<bool>, from: nat, k: nat)
    requires FairSource(rng) && |tiles| == Cells && CountTrue(tiles) < DrawBound
    requires FirstEmptyDraw(rng, tiles, from, k)
    ensures k == NextEmptyDraw(rng, tiles, from)
  {
    var n := NextEmptyDraw(rng, tiles, from);
    assert !NamesFilled(rng, tiles, k) && !NamesFilled(rng, tiles, n);
  }

  /** A draw that names a filled cell is passed over: the first empty draw from the next position is the same. */
  lemma NextEmptyDrawSkip(rng: nat -> nat, tiles: seq<bool>, from: nat)
    requires FairSource(rng) && |tiles| == Cells && CountTrue(tiles) < DrawBound
    requires tiles[rng(from)]
    ensures NextEmptyDraw(rng, tiles, from + 1) == NextEmptyDraw(rng, tiles, from)
  {
    var k := NextEmptyDraw(rng, tiles, from);
    assert k != from;
    assert FirstEmptyDraw(rng, tiles, from + 1, k);
    NextEmptyDrawUnique(rng, tiles, from + 1, k);
  }

  // ---------------------------------------------------------------------------
  // The hit test.

  /** Top-left corner of the grid: the grid is centred on the screen. */
  function GridOrigin(screenWidth: real, screenHeight: real, size: real): (o: Point)
    ensures o.x + size / 2.0 == screenWidth / 2.0 && o.y + size / 2.0 == screenHeight / 2.0
  {
    Point(screenWidth / 2.0 - size / 2.0, screenHeight / 2.0 - size / 2.0)
  }

  /** Strictly inside the square of side `size` at `origin`. */
  ghost predicate InsideGrid(mouse: Point, origin: Point, size: real) {
    && origin.x < mouse.x < origin.x + size
    && origin.y < mouse.y < origin.y + size
  }

  /** The square in which `render` draws cell `i`: column `i % 4`, row `i / 4`, side `size / 4`. */
  ghost predicate InCell(mouse: Point, origin: Point, size: real, i: nat) {
    var cell := size / 4.0;
    var col := i % Columns;
    var row := i / Columns;
    && origin.x + col as real * cell <= mouse.x < origin.x + (col + 1) as real * cell
    && origin.y + row as real * cell <= mouse.y < origin.y + (row + 1) as real * cell
  }

  lemma MulNonneg(x: real, y: real)
    requires x >= 0.0 && y >= 0.0
    ensures x * y >= 0.0
  {
  }

  lemma MulLeq(x: real, y: real, c: real)
    requires x <= y && c >= 0.0
    ensures x * c <= y * c
  {
    MulNonneg(y - x, c);
    assert (y - x) * c == y * c - x * c;
  }

  /** 0 < a < size puts a / size strictly between 0 and 1, and a is recovered from it. */
  lemma UnitRatio(a: real, size: real)
    requires size > 0.0 && 0.0 < a < size
    ensures 0.0 < a / size * 4.0 < 4.0
    ensures (a / size * 4.0) * (size / 4.0) == a
  {
    var d := a / size;
    assert d * size == a;
    if d >= 1.0 { MulLeq(1.0, d, size); }
    if d <= 0.0 { MulNonneg(-d, size); }
  }

  /** Scaling an offset inside (0, size) to four slots lands on slot floor(4a/size). */
  lemma FloorSlot(a: real, size: real)
    requires size > 0.0 && 0.0 < a < size
    ensures var k := (a / size * 4.0).Floor;
      && 0 <= k < 4
      && k as real * (size / 4.0) <= a < (k + 1) as real * (size / 4.0)
  {
    UnitRatio(a, size);
    SlotBounds(a / size * 4.0, size / 4.0, a);
  }

  /** With q * cell == a, the slot floor(q) brackets a between two multiples of cell. */
  lemma SlotBounds(q: real, cell: real, a: real)
    requires cell > 0.0 && 0.0 < q < 4.0 && q * cell == a
    ensures 0 <= q.Floor < 4
    ensures q.Floor as real * cell <= a
    ensures a < (q.Floor + 1) as real * cell
  {
    SlotLower(q, cell, a);
    SlotUpper(q, cell, a);
  }

  lemma SlotLower(q: real, cell: real, a: real)
    requires cell > 0.0 && q * cell == a
    ensures q.Floor as real * cell <= a
  {
    var lo := q.Floor as real;
    assert q >= lo;
    assert (q - lo) * cell >= 0.0;
    assert (q - lo) * cell == a - lo * cell;
  }

  lemma SlotUpper(q: real, cell: real, a: real)
    requires cell > 0.0 && q * cell == a
    ensures a < (q.Floor + 1) as real * cell
  {
    var hi := q.Floor as real + 1.0;
    assert q < hi;
    assert (hi - q) * cell > 0.0;
    assert hi * cell == q.Floor as real * cell + cell;
  }

  /** An offset strictly inside (0, size) scales to one of the four slots 0..3. */
  lemma SlotRange(a: real, size: real)
    requires size > 0.0 && 0.0 < a < size
    ensures 0 <= (a / size * 4.0).Floor < 4
  {
    UnitRatio(a, size);
  }

  /** The mouse position under the cursor as a cell index, or nothing outside the grid. */
  function HitTest(mouse: Point, origin: Point, size: real): (r: Option<nat>)
    requires size > 0.0
    ensures r.Some? <==> InsideGrid(mouse, origin, size)
    ensures r.Some? ==> r.value < Cells
  {
    var cell := size / 4.0;
    if mouse.x > origin.x && mouse.y > origin.y
       && mouse.x < origin.x + cell * 4.0 && mouse.y < origin.y + cell * 4.0
    then
      SlotRange(mouse.x - origin.x, size);
      SlotRange(mouse.y - origin.y, size);
      var x := ((mouse.x - origin.x) / size * 4.0).Floor;
      var y := ((mouse.y - origin.y) / size * 4.0).Floor;
      Some(x + (y as real * 4.0).Floor)
    else
      None
  }

  /**
   * A click strictly inside the grid maps to the cell `col + 4 * row` whose
   * square, as `render` draws it, contains the click.
   */
  lemma HitTestCell(mouse: Point, origin: Point, size: real)
    requires size > 0.0 && InsideGrid(mouse, origin, size)
    ensures var r := HitTest(mouse, origin, size);
      r.Some? && r.value < Cells && InCell(mouse, origin, size, r.value)
  {
    FloorSlot(mouse.x - origin.x, size);
    FloorSlot(mouse.y - origin.y, size);
    var x := ((mouse.x - origin.x) / size * 4.0).Floor;
    var y := ((mouse.y - origin.y) / size * 4.0).Floor;
    RowMajor(x, y);
    SlotsInCell(mouse, origin, size, x, y);
  }

  /** Column `x` and row `y` make the row-major index `x + 4 * y`. */
  lemma RowMajor(x: int, y: int)
    requires 0 <= x < Columns && 0 <= y < Columns
    ensures x + (y as real * 4.0).Floor == x + Columns * y
    ensures (x + Columns * y) % Columns == x && (x + Columns * y) / Columns == y
  {
  }

  /** A click bracketed in column slot `x` and row slot `y` lies in the square of cell `x + 4 * y`. */
  lemma SlotsInCell(mouse: Point, origin: Point, size: real, x: int, y: int)
    requires 0 <= x < Columns && 0 <= y < Columns
    requires x as real * (size / 4.0) <= mouse.x - origin.x < (x + 1) as real * (size / 4.0)
    requires y as real * (size / 4.0) <= mouse.y - origin.y < (y + 1) as real * (size / 4.0)
    ensures InCell(mouse, origin, size, x + Columns * y)
  {
    RowMajor(x, y);
  }

  // ---------------------------------------------------------------------------
  // Multiplier and scale.

  /**
   * `(1.0 + dt_click * (clicks / 4.5)).floor() as u16`, where `dt_click` is the
   * time since the last scoring click.
   */
  function Multiplier(now: real, lastTimeClicked: real, clicks: U64): (m: U16)
    ensures clicks == 0 ==> m == 1
  {
    SaturateU16(Ramp(now - lastTimeClicked, clicks).Floor)
  }

  /** The multiplier before the floor: `1.0 + dt_click * (clicks / 4.5)`. */
  function Ramp(dtClick: real, clicks: U64): real {
    1.0 + dtClick * (clicks as real / 4.5)
  }

  lemma RampMonotone(d1: real, d2: real, clicks: U64)
    requires d1 <= d2
    ensures Ramp(d1, clicks) <= Ramp(d2, clicks)
  {
    MulLeq(d1, d2, clicks as real / 4.5);
  }

  /** On a clock that does not run backwards the multiplier is at least 1. */
  lemma MultiplierAtLeastOne(now: real, lastTimeClicked: real, clicks: U64)
    requires now >= lastTimeClicked
    ensures Multiplier(now, lastTimeClicked, clicks) >= 1
  {
    MulNonneg(now - lastTimeClicked, clicks as real / 4.5);
  }

  /** Waiting longer never lowers the multiplier. */
  lemma MultiplierMonotone(t1: real, t2: real, lastTimeClicked: real, clicks: U64)
    requires t1 <= t2
    ensures Multiplier(t1, lastTimeClicked, clicks) <= Multiplier(t2, lastTimeClicked, clicks)
  {
    RampMonotone(t1 - lastTimeClicked, t2 - lastTimeClicked, clicks);
    SaturatedFloorMonotone(Ramp(t1 - lastTimeClicked, clicks), Ramp(t2 - lastTimeClicked, clicks));
  }

  lemma SaturatedFloorMonotone(x: real, y: real)
    requires x <= y
    ensures SaturateU16(x.Floor) <= SaturateU16(y.Floor)
  {
    assert x.Floor as real <= x <= y < y.Floor as real + 1.0;
  }

  /** The multiplier counts the whole multiples of 4.5 / clicks seconds since the last click, plus one. */
  lemma MultiplierSteps(lastTimeClicked: real, clicks: U64, n: nat)
    requires 0 < clicks && n < U16_LIMIT - 1
    ensures Multiplier(lastTimeClicked + n as real * 4.5 / clicks as real, lastTimeClicked, clicks) == n + 1
  {
    var c := clicks as real;
    var dt := n as real * 4.5 / c;
    assert dt * (c / 4.5) == n as real;
  }

  /** One frame's requested change of scale: PageUp wins over PageDown. */
  function ScaleStep(pageUp: bool, pageDown: bool): (r: int)
    ensures -1 <= r <= 1
    ensures r > 0 <==> pageUp
    ensures r < 0 <==> !pageUp && pageDown
  {
    if pageUp then 1 else if pageDown then -1 else 0
  }

  /** A scale the clamp allows. */
  predicate ScaleAllowed(q: int) {
    ScaleMinQuarters <= q <= ScaleMaxQuarters
  }

  /** `m` lies between `a` and `b`. */
  predicate Between(a: int, m: int, b: int) {
    (a <= m <= b) || (b <= m <= a)
  }

  /** The scale clamp: the allowed scale nearest to the requested one. */
  function ClampScale(q: int): (r: int)
    ensures ScaleAllowed(r)
    ensures forall v :: ScaleAllowed(v) ==> Between(q, r, v)
  {
    if q > ScaleMaxQuarters then ScaleMaxQuarters
    else if q < ScaleMinQuarters then ScaleMinQuarters
    else q
  }

  /** The scale as the source stores it. */
  function Scale(quarters: int): real {
    quarters as real / 4.0
  }

  /** `tiles_size = 250.0 * scale`. */
  function TileSize(quarters: int): (size: real)
    ensures ScaleMinQuarters <= quarters <= ScaleMaxQuarters ==> 125.0 <= size <= 750.0
  {
    BaseTileSize * Scale(quarters)
  }
}
