/**
 * The round engine (`Pattern`): a 4x4 grid with three filled cells, a thirty
 * second timer, the score and its time-based multiplier, and the zoom scale.
 *
 * The random source `ThreadRng` is the stream `rng(0), rng(1), ...` of draws of
 * `gen_range(0..15)`; `drawn` is how far a round has read it. The state of a
 * round is also given as a value, `RoundState`, and every method of `Pattern`
 * is tied to a function on that value; the properties of a round are lemmas
 * about those functions.
 */
module Round {
  import opened Primitives
  import opened Input
  import opened Grid

  /** `time` at the start of a round. */
  const RoundSeconds: real := 30.0

  /** `[false; n]`. */
  function Cleared(n: nat): (r: seq<bool>)
    ensures |r| == n && forall i :: 0 <= i < n ==> !r[i]
  {
    if n == 0 then [] else [false] + Cleared(n - 1)
  }

  /** `[false; 16]`. */
  const NoTiles: seq<bool> := Cleared(Cells)

  /** The grid the engine keeps: sixteen cells, three filled, the last cell never filled. */
  ghost predicate Seeded(tiles: seq<bool>) {
    |tiles| == Cells && CountTrue(tiles) == FilledCells && !tiles[Cells - 1]
  }

  // ---------------------------------------------------------------------------
  // The rejection loops of `setup` and of a scoring click.

  /**
   * One accepted draw of a rejection loop that starts reading the stream at
   * `from`: the grid with the drawn empty cell filled, and the next position.
   */
  ghost function AcceptDraw(rng: nat -> nat, tiles: seq<bool>, from: nat): (r: (seq<bool>, nat))
    requires FairSource(rng) && |tiles| == Cells && CountTrue(tiles) < DrawBound
    ensures |r.0| == Cells && from < r.1
  {
    var k := NextEmptyDraw(rng, tiles, from);
    (tiles[rng(k) := true], k + 1)
  }

  /** The accepted draw fills exactly one cell, an empty one below 15. */
  lemma AcceptDrawFills(rng: nat -> nat, tiles: seq<bool>, from: nat)
    requires FairSource(rng) && |tiles| == Cells && CountTrue(tiles) < DrawBound
    ensures var r := AcceptDraw(rng, tiles, from);
      && CountTrue(r.0) == CountTrue(tiles) + 1
      && (exists c :: 0 <= c < DrawBound && !tiles[c] && r.0 == tiles[c := true])
      && (forall i :: 0 <= i < Cells && tiles[i] ==> r.0[i])
      && (forall i :: DrawBound <= i < Cells ==> r.0[i] == tiles[i])
  {
    var k := NextEmptyDraw(rng, tiles, from);
    CountTrueUpdate(tiles, rng(k), true);
    assert AcceptDraw(rng, tiles, from).0 == tiles[rng(k) := true];
  }

  /** `n` accepted draws in a row, as `setup` makes them. */
  ghost function Fill(rng: nat -> nat, tiles: seq<bool>, from: nat, n: nat): (r: (seq<bool>, nat))
    requires FairSource(rng) && |tiles| == Cells && CountTrue(tiles) + n <= DrawBound
    ensures |r.0| == Cells && CountTrue(r.0) == CountTrue(tiles) + n
    ensures r.0[Cells - 1] == tiles[Cells - 1]
    ensures from + n <= r.1
    decreases n
  {
    if n == 0 then (tiles, from)
    else
      AcceptDrawFills(rng, tiles, from);
      var next := AcceptDraw(rng, tiles, from);
      Fill(rng, next.0, next.1, n - 1)
  }

  /** A draw that names a filled cell is rejected: the accepted draw is the same one later on. */
  lemma AcceptDrawSkip(rng: nat -> nat, tiles: seq<bool>, from: nat)
    requires FairSource(rng) && |tiles| == Cells && CountTrue(tiles) < DrawBound
    requires tiles[rng(from)]
    ensures AcceptDraw(rng, tiles, from + 1) == AcceptDraw(rng, tiles, from)
  {
    var k := NextEmptyDraw(rng, tiles, from);
    NextEmptyDrawSkip(rng, tiles, from);
    assert AcceptDraw(rng, tiles, from + 1) == (tiles[rng(k) := true], k + 1);
  }

  /** A draw that names an empty cell is accepted on the spot. */
  lemma AcceptDrawHit(rng: nat -> nat, tiles: seq<bool>, from: nat)
    requires FairSource(rng) && |tiles| == Cells && CountTrue(tiles) < DrawBound
    requires !tiles[rng(from)]
    ensures AcceptDraw(rng, tiles, from) == (tiles[rng(from) := true], from + 1)
  {
    assert FirstEmptyDraw(rng, tiles, from, from);
    NextEmptyDrawUnique(rng, tiles, from, from);
  }

  /** `setup`'s loop, on a draw that names a filled cell: nothing is filled and the draw is spent. */
  lemma FillSkip(rng: nat -> nat, tiles: seq<bool>, from: nat, n: nat)
    requires FairSource(rng) && |tiles| == Cells && CountTrue(tiles) + n <= DrawBound
    requires n > 0 && tiles[rng(from)]
    ensures Fill(rng, tiles, from + 1, n) == Fill(rng, tiles, from, n)
  {
    AcceptDrawSkip(rng, tiles, from);
  }

  /** `setup`'s loop, on a draw that names an empty cell: that cell is filled and one fewer is left to fill. */
  lemma FillHit(rng: nat -> nat, tiles: seq<bool>, from: nat, n: nat)
    requires FairSource(rng) && |tiles| == Cells && CountTrue(tiles) + n <= DrawBound
    requires n > 0 && !tiles[rng(from)]
    ensures CountTrue(tiles[rng(from) := true]) == CountTrue(tiles) + 1
    ensures Fill(rng, tiles, from, n) == Fill(rng, tiles[rng(from) := true], from + 1, n - 1)
  {
    AcceptDrawHit(rng, tiles, from);
    CountTrueUpdate(tiles, rng(from), true);
  }

  /**
   * `setup`'s loop as a function: with `generated` cells filled so far, draw
   * from position `drawn` on until three are filled. It makes the same
   * accepted draws as `Fill`.
   */
  ghost function SeedRun(rng: nat -> nat, tiles: seq<bool>, drawn: nat, generated: nat): (r: (seq<bool>, nat))
    requires FairSource(rng) && |tiles| == Cells && generated <= FilledCells && CountTrue(tiles) == generated
    ensures r == Fill(rng, tiles, drawn, FilledCells - generated)
    decreases FilledCells - generated, Fill(rng, tiles, drawn, FilledCells - generated).1 - drawn
  {
    if generated == FilledCells then (tiles, drawn)
    else if tiles[rng(drawn)] then
      FillSkip(rng, tiles, drawn, FilledCells - generated);
      SeedRun(rng, tiles, drawn + 1, generated)
    else
      FillHit(rng, tiles, drawn, FilledCells - generated);
      SeedRun(rng, tiles[rng(drawn) := true], drawn + 1, generated + 1)
  }

  // ---------------------------------------------------------------------------
  // The state of a round as a value, and what `setup` and `update` do to it.

  datatype RoundState = RoundState(
    score: U32,
    multiplier: U16,
    scaleQuarters: int,
    time: real,
    done: bool,
    clicks: U64,
    lastClickPos: Point,
    lastTimeClicked: real,
    displayInfo: bool,
    displayGrid: bool,
    tiles: seq<bool>,
    tilesSize: real,
    drawn: nat)

  /** What every reachable round satisfies. */
  ghost predicate Consistent(st: RoundState) {
    && Seeded(st.tiles)
    && ScaleAllowed(st.scaleQuarters)
    && st.tilesSize == TileSize(st.scaleQuarters)
    && st.time <= RoundSeconds
  }

  /** `Pattern::default()`, before `new` runs `setup`. */
  function DefaultState(drawn: nat): (st: RoundState)
    ensures st.tiles == NoTiles && st.scaleQuarters == DefaultScaleQuarters && st.tilesSize == BaseTileSize
  {
    RoundState(0, 1, DefaultScaleQuarters, RoundSeconds, false, 0, Point(0.0, 0.0), 0.0,
               true, true, NoTiles, BaseTileSize, drawn)
  }

  /** `setup`: the round counters are reset and three cells are seeded, none of them the last. */
  ghost function SetupState(st: RoundState, rng: nat -> nat): (r: RoundState)
    requires FairSource(rng) && |st.tiles| == Cells
    ensures Seeded(r.tiles)
    ensures ScaleAllowed(st.scaleQuarters) && st.tilesSize == TileSize(st.scaleQuarters) ==> Consistent(r)
  {
    var seeded := SetupFill(st, rng);
    st.(score := 0, multiplier := 1, time := RoundSeconds, clicks := 0,
        lastClickPos := Point(0.0, 0.0), lastTimeClicked := 0.0, done := false,
        tiles := seeded.0, drawn := seeded.1)
  }

  /** The three draws of `setup` on a cleared grid. */
  ghost function SetupFill(st: RoundState, rng: nat -> nat): (r: (seq<bool>, nat))
    requires FairSource(rng) && |st.tiles| == Cells
    ensures Seeded(r.0)
  {
    ClearedEmpty(|st.tiles|);
    Fill(rng, Cleared(|st.tiles|), st.drawn, FilledCells)
  }

  lemma ClearedEmpty(n: nat)
    ensures CountTrue(Cleared(n)) == 0
  {
    CountFromNone(Cleared(n), 0);
  }

  /** The R, Tab and G keys: restart the round, toggle the information and grid overlays. */
  ghost function KeysState(st: RoundState, rng: nat -> nat, f: Frame): (r: RoundState)
    requires FairSource(rng) && |st.tiles| == Cells
    ensures Consistent(st) ==> Consistent(r)
    ensures r.scaleQuarters == st.scaleQuarters && r.tilesSize == st.tilesSize
    ensures r.displayInfo == (st.displayInfo != f.tab) && r.displayGrid == (st.displayGrid != f.g)
    ensures r.(displayInfo := st.displayInfo, displayGrid := st.displayGrid) == if f.r then SetupState(st, rng) else st
  {
    var s := if f.r then SetupState(st, rng) else st;
    s.(displayInfo := if f.tab then !s.displayInfo else s.displayInfo,
       displayGrid := if f.g then !s.displayGrid else s.displayGrid)
  }

  /** PageUp / PageDown, the clamp into [0.5, 3.0] and `tiles_size = 250 * scale`. */
  function RescaleState(st: RoundState, f: Frame): (r: RoundState)
    ensures ScaleAllowed(r.scaleQuarters) && r.tilesSize == TileSize(r.scaleQuarters)
    ensures Consistent(st) ==> Consistent(r)
  {
    var q := ClampScale(st.scaleQuarters + ScaleStep(f.pageUp, f.pageDown));
    st.(scaleQuarters := q, tilesSize := TileSize(q))
  }

  /** The timer of an active frame: count down and recompute the multiplier, or end the round. */
  function TickState(st: RoundState, f: Frame): (r: RoundState)
    ensures Consistent(st) ==> Consistent(r)
    ensures r.time <= st.time || (r.done && r.time == 0.0)
    ensures r.scaleQuarters == st.scaleQuarters && r.tilesSize == st.tilesSize
  {
    if st.time > 0.0 then
      st.(time := st.time - f.frameTime, multiplier := Multiplier(f.now, st.lastTimeClicked, st.clicks))
    else
      st.(time := 0.0, done := true)
  }

  /** The cell under a left click of this frame, if the click lands on the grid. */
  function ClickedCell(f: Frame, tilesSize: real): (r: Option<nat>)
    requires tilesSize > 0.0
    ensures r.Some? ==> r.value < Cells
  {
    if f.leftClick then HitTest(f.mouse, GridOrigin(f.screenWidth, f.screenHeight, tilesSize), tilesSize)
    else None
  }

  /** A click on filled cell `i`: refill an empty cell, then clear `i`, and score. */
  ghost function ScoreState(st: RoundState, rng: nat -> nat, i: nat, now: real): (r: RoundState)
    requires FairSource(rng) && Seeded(st.tiles) && i < Cells && st.tiles[i]
    ensures Seeded(r.tiles) && !r.tiles[i]
  {
    var refilled := AcceptDraw(rng, st.tiles, st.drawn);
    CountTrueUpdate(refilled.0, i, false);
    AcceptDrawFills(rng, st.tiles, st.drawn);
    st.(tiles := refilled.0[i := false], drawn := refilled.1,
        score := WrapU32(st.score + st.multiplier), lastTimeClicked := now,
        clicks := WrapU64(st.clicks + 1))
  }

  /** A scoring click moves a filled cell: one empty cell below 15 is filled and the clicked cell is emptied. */
  lemma ScoreStateMoves(st: RoundState, rng: nat -> nat, i: nat, now: real)
    requires FairSource(rng) && Seeded(st.tiles) && i < Cells && st.tiles[i]
    ensures var r := ScoreState(st, rng, i, now);
      exists j :: 0 <= j < DrawBound && j != i && !st.tiles[j] && r.tiles == st.tiles[j := true][i := false]
  {
    AcceptDrawFills(rng, st.tiles, st.drawn);
  }

  /** The left click of an active frame: ignored off the grid, scores on a filled cell, ends the round on an empty one. */
  ghost function ClickState(st: RoundState, rng: nat -> nat, f: Frame): (r: RoundState)
    requires FairSource(rng) && Consistent(st)
    ensures Consistent(r)
    ensures r.scaleQuarters == st.scaleQuarters && r.tilesSize == st.tilesSize
  {
    match ClickedCell(f, st.tilesSize)
    case None => st
    case Some(i) =>
      if st.tiles[i] then ScoreState(st, rng, i, f.now)
      else st.(lastClickPos := f.mouse, done := true)
  }

  /** One call of `update`. */
  ghost function UpdateState(st: RoundState, rng: nat -> nat, f: Frame): (r: RoundState)
    requires FairSource(rng) && Consistent(st)
    ensures Consistent(r)
    ensures r.scaleQuarters == ClampScale(st.scaleQuarters + ScaleStep(f.pageUp, f.pageDown))
    ensures r.tilesSize == TileSize(r.scaleQuarters)
  {
    var scaled := RescaleState(KeysState(st, rng, f), f);
    if scaled.done then scaled
    else ClickState(TickState(scaled, f), rng, f)
  }

  // ---------------------------------------------------------------------------
  // Properties of a round.

  /**
   * `setup` resets the counters (the click clock to 0, not to the current time)
   * and seeds exactly three filled cells, none of them the last cell; the scale
   * is kept.
   */
  lemma SetupResets(st: RoundState, rng: nat -> nat)
    requires FairSource(rng) && |st.tiles| == Cells
    ensures var r := SetupState(st, rng);
      && r.score == 0 && r.multiplier == 1 && r.time == RoundSeconds && r.clicks == 0
      && r.lastClickPos == Point(0.0, 0.0) && r.lastTimeClicked == 0.0 && !r.done
      && CountTrue(r.tiles) == 3 && !r.tiles[15]
      && r.scaleQuarters == st.scaleQuarters && r.tilesSize == st.tilesSize
  {
  }

  /**
   * Scale clamp: after every frame the scale is the request of PageUp (which
   * wins over PageDown) clamped into [0.5, 3.0], and the tiles are 250 pixels
   * per unit of scale.
   */
  lemma UpdateScale(st: RoundState, rng: nat -> nat, f: Frame)
    requires FairSource(rng) && Consistent(st)
    ensures var r := UpdateState(st, rng, f);
      && r.scaleQuarters == ClampScale(st.scaleQuarters + ScaleStep(f.pageUp, f.pageDown))
      && 0.5 <= Scale(r.scaleQuarters) <= 3.0
      && r.tilesSize == 250.0 * Scale(r.scaleQuarters)
      && (f.pageUp && st.scaleQuarters < ScaleMaxQuarters ==> r.scaleQuarters == st.scaleQuarters + 1)
      && (!f.pageUp && f.pageDown && st.scaleQuarters > ScaleMinQuarters ==> r.scaleQuarters == st.scaleQuarters - 1)
  {
    ScaleRange(UpdateState(st, rng, f).scaleQuarters);
  }

  lemma ScaleRange(q: int)
    requires ScaleAllowed(q)
    ensures 0.5 <= Scale(q) <= 3.0 && TileSize(q) == 250.0 * Scale(q)
  {
  }

  /** Done is terminal: unless R restarts the round, a finished round keeps its gameplay state. */
  lemma DoneIsTerminal(st: RoundState, rng: nat -> nat, f: Frame)
    requires FairSource(rng) && Consistent(st)
    requires st.done && !f.r
    ensures var r := UpdateState(st, rng, f);
      && r.score == st.score && r.multiplier == st.multiplier && r.time == st.time
      && r.clicks == st.clicks && r.tiles == st.tiles && r.lastClickPos == st.lastClickPos
      && r.lastTimeClicked == st.lastTimeClicked && r.done && r.drawn == st.drawn
  {
  }

  /** The state of an active frame after its keys, scale change and timer, before its click. */
  ghost function Ticked(st: RoundState, rng: nat -> nat, f: Frame): (r: RoundState)
    requires FairSource(rng) && Consistent(st) && !st.done && !f.r
    ensures Consistent(r) && UpdateState(st, rng, f) == ClickState(r, rng, f)
    ensures r.tiles == st.tiles && r.score == st.score && r.clicks == st.clicks && r.drawn == st.drawn
    ensures r.lastClickPos == st.lastClickPos && r.lastTimeClicked == st.lastTimeClicked
    ensures r.tilesSize == FrameTileSize(st, f)
  {
    TickState(RescaleState(KeysState(st, rng, f), f), f)
  }

  /** A frame that finds the timer at or below zero ends the round with the timer at zero. */
  lemma TimerExpires(st: RoundState, rng: nat -> nat, f: Frame)
    requires FairSource(rng) && Consistent(st)
    requires !st.done && !f.r && st.time <= 0.0
    ensures var r := UpdateState(st, rng, f);
      r.time == 0.0 && r.done && r.multiplier == st.multiplier
  {
    var ticked := Ticked(st, rng, f);
    assert ticked.time == 0.0 && ticked.done && ticked.multiplier == st.multiplier;
    ClickKeepsFrame(ticked, rng, f);
  }

  /** The click of a frame leaves the timer, the multiplier and the scale alone, and never un-ends a round. */
  lemma ClickKeepsFrame(st: RoundState, rng: nat -> nat, f: Frame)
    requires FairSource(rng) && Consistent(st)
    ensures var r := ClickState(st, rng, f);
      && r.time == st.time && r.multiplier == st.multiplier && (st.done ==> r.done)
      && r.scaleQuarters == st.scaleQuarters && r.tilesSize == st.tilesSize
  {
  }

  /**
   * An active frame with time left counts the timer down by the frame time and
   * sets the multiplier to floor(1 + (now - last click) * clicks / 4.5), which is
   * 1 before the first scoring click.
   */
  lemma TimerRuns(st: RoundState, rng: nat -> nat, f: Frame)
    requires FairSource(rng) && Consistent(st)
    requires !st.done && !f.r && st.time > 0.0
    ensures var r := UpdateState(st, rng, f);
      && r.time == st.time - f.frameTime && r.time <= st.time
      && r.multiplier == Multiplier(f.now, st.lastTimeClicked, st.clicks)
      && (st.clicks == 0 ==> r.multiplier == 1)
  {
    var ticked := Ticked(st, rng, f);
    assert ticked.time == st.time - f.frameTime;
    assert ticked.multiplier == Multiplier(f.now, st.lastTimeClicked, st.clicks);
    ClickKeepsFrame(ticked, rng, f);
  }

  /** Pressing R starts a fresh round, which the same frame already plays: a full timer less one frame, multiplier 1. */
  lemma RestartFrame(st: RoundState, rng: nat -> nat, f: Frame)
    requires FairSource(rng) && Consistent(st)
    requires f.r
    ensures var r := UpdateState(st, rng, f);
      && r.time == RoundSeconds - f.frameTime && r.multiplier == 1
      && r.score <= 1 && r.clicks <= 1
  {
    var scaled := RescaleState(KeysState(st, rng, f), f);
    assert !scaled.done && scaled.time == RoundSeconds && scaled.clicks == 0 && scaled.score == 0;
    var ticked := TickState(scaled, f);
    assert ticked.multiplier == 1;
    ClickKeepsFrame(ticked, rng, f);
  }

  /** The tile size the hit test of a frame uses: the one after this frame's scale change. */
  function FrameTileSize(st: RoundState, f: Frame): (size: real)
    ensures ScaleAllowed(st.scaleQuarters) ==> size > 0.0
  {
    TileSize(ClampScale(st.scaleQuarters + ScaleStep(f.pageUp, f.pageDown)))
  }

  /** A click off the grid, or no click, changes nothing but the timer. */
  lemma ClickOffGrid(st: RoundState, rng: nat -> nat, f: Frame)
    requires FairSource(rng) && Consistent(st)
    requires !st.done && !f.r && ClickedCell(f, FrameTileSize(st, f)).None?
    ensures var r := UpdateState(st, rng, f);
      && r.tiles == st.tiles && r.score == st.score && r.clicks == st.clicks
      && r.lastClickPos == st.lastClickPos && r.lastTimeClicked == st.lastTimeClicked
      && r.drawn == st.drawn && (r.done <==> st.time <= 0.0)
  {
    var ticked := Ticked(st, rng, f);
    assert ticked.done <==> st.time <= 0.0;
  }

  /**
   * Scoring click: exactly three cells stay filled; one cell that was empty,
   * and so never the clicked one, becomes filled; the clicked cell is emptied.
   * The score grows by the multiplier of this frame, the click is counted and
   * the click clock is set to now.
   */
  lemma ScoringClick(st: RoundState, rng: nat -> nat, f: Frame, i: nat)
    requires FairSource(rng) && Consistent(st)
    requires !st.done && !f.r && ClickedCell(f, FrameTileSize(st, f)) == Some(i) && st.tiles[i]
    ensures var r := UpdateState(st, rng, f);
      && Seeded(r.tiles) && !r.tiles[i]
      && (exists j :: 0 <= j < DrawBound && j != i && !st.tiles[j] && r.tiles == st.tiles[j := true][i := false])
      && r.score == WrapU32(st.score + r.multiplier)
      && (st.score + r.multiplier < U32_LIMIT ==> r.score == st.score + r.multiplier)
      && r.clicks == WrapU64(st.clicks + 1)
      && r.lastTimeClicked == f.now && r.lastClickPos == st.lastClickPos
      && r.done == (st.time <= 0.0)
  {
    var ticked := Ticked(st, rng, f);
    assert ticked.done <==> st.time <= 0.0;
    var r := ScoreState(ticked, rng, i, f.now);
    ScoreStateMoves(ticked, rng, i, f.now);
    assert UpdateState(st, rng, f) == r;
  }

  /** Miss: a click on an empty cell of the grid ends the round where the mouse was; grid and score stay. */
  lemma MissClick(st: RoundState, rng: nat -> nat, f: Frame, i: nat)
    requires FairSource(rng) && Consistent(st)
    requires !st.done && !f.r && ClickedCell(f, FrameTileSize(st, f)) == Some(i) && !st.tiles[i]
    ensures var r := UpdateState(st, rng, f);
      && r.done && r.lastClickPos == f.mouse
      && r.tiles == st.tiles && r.score == st.score && r.clicks == st.clicks && r.drawn == st.drawn
  {
    var ticked := Ticked(st, rng, f);
  }

  /** Strict bounds: a click exactly on the grid's top-left pixel is off the grid. */
  lemma OriginPixelOffGrid(origin: Point, size: real)
    requires size > 0.0
    ensures HitTest(origin, origin, size) == None
  {
  }

  // ---------------------------------------------------------------------------
  // The engine itself.

  class Pattern {
    var score: U32
    var multiplier: U16
    /** `scale` in steps of 0.25. */
    var scaleQuarters: int
    var time: real
    var done: bool
    var clicks: U64
    var lastClickPos: Point
    var lastTimeClicked: real
    var displayInfo: bool
    var displayGrid: bool
    const tiles: array<bool>
    var tilesSize: real
    /** The thread-local generator: its stream of draws and how far it has been read. */
    const rng: nat -> nat
    var drawn: nat

    function State(): RoundState
      reads this, tiles
    {
      RoundState(score, multiplier, scaleQuarters, time, done, clicks, lastClickPos, lastTimeClicked,
                 displayInfo, displayGrid, tiles[..], tilesSize, drawn)
    }

    ghost predicate Valid()
      reads this, tiles
    {
      tiles.Length == Cells && FairSource(rng) && Consistent(State())
    }

    /** `Pattern::new`: the default values, then `setup`. */
    constructor (rng: nat -> nat, drawn: nat)
      requires FairSource(rng)
      ensures Valid() && fresh(tiles) && this.rng == rng
      ensures State() == SetupState(DefaultState(drawn), rng)
    {
      score, multiplier, scaleQuarters, time, done := 0, 1, DefaultScaleQuarters, RoundSeconds, false;
      clicks, lastClickPos, lastTimeClicked := 0, Point(0.0, 0.0), 0.0;
      displayInfo, displayGrid := true, true;
      tiles := new bool[Cells](_ => false);
      tilesSize := BaseTileSize;
      this.rng := rng;
      this.drawn := drawn;
      new;
      assert State() == DefaultState(drawn);
      Setup();
    }

    /** `setup`: start a new round (also from the all-empty grid of `Pattern::default`). */
    method Setup()
      requires tiles.Length == Cells && FairSource(rng)
      requires ScaleAllowed(scaleQuarters) && tilesSize == TileSize(scaleQuarters)
      modifies this, tiles
      ensures Valid()
      ensures State() == SetupState(old(State()), rng)
    {
      ghost var before := State();
      ResetCounters();
      ghost var reset := before.(score := 0, multiplier := 1, time := RoundSeconds, clicks := 0,
        lastClickPos := Point(0.0, 0.0), lastTimeClicked := 0.0, done := false);
      assert State() == reset;
      ReseedTiles();
      ghost var seeded := SetupFill(before, rng);
      assert State() == reset.(tiles := seeded.0, drawn := seeded.1);
    }

    /** The grid part of `setup`: clear all cells, then seed three. */
    method ReseedTiles()
      requires tiles.Length == Cells && FairSource(rng)
      modifies this`drawn, tiles
      ensures (tiles[..], drawn) == SetupFill(old(State()), rng)
    {
      ClearTiles();
      SeedCells();
    }

    /** The counters `setup` resets. */
    method ResetCounters()
      modifies this`score, this`multiplier, this`time, this`clicks, this`lastClickPos, this`lastTimeClicked, this`done
      ensures score == 0 && multiplier == 1 && time == RoundSeconds && clicks == 0
      ensures lastClickPos == Point(0.0, 0.0) && lastTimeClicked == 0.0 && !done
    {
      score := 0;
      multiplier := 1;
      time := RoundSeconds;
      clicks := 0;
      lastClickPos := Point(0.0, 0.0);
      lastTimeClicked := 0.0;
      done := false;
    }

    /** `self.tiles = [false; 16]`. */
    method ClearTiles()
      modifies tiles
      ensures tiles[..] == Cleared(tiles.Length) && CountTrue(tiles[..]) == 0
    {
      forall i | 0 <= i < tiles.Length {
        tiles[i] := false;
      }
      ClearedEmpty(tiles.Length);
    }

    /** The seeding loop of `setup`: draw until three distinct cells are filled. */
    method SeedCells()
      requires tiles.Length == Cells && FairSource(rng) && CountTrue(tiles[..]) == 0
      modifies this`drawn, tiles
      ensures (tiles[..], drawn) == Fill(rng, old(tiles[..]), old(drawn), FilledCells)
    {
      ghost var target := SeedRun(rng, tiles[..], drawn, 0);
      var generatedCells := 0;
      while generatedCells < FilledCells
        invariant generatedCells <= FilledCells && CountTrue(tiles[..]) == generatedCells
        invariant SeedRun(rng, tiles[..], drawn, generatedCells) == target
        decreases FilledCells - generatedCells, target.1 - drawn
      {
        var newCellFound := Draw();
        if newCellFound {
          generatedCells := generatedCells + 1;
        }
      }
    }

    /** One draw of the generator: an empty cell it names is filled, a filled one is left alone. */
    method Draw() returns (newCellFound: bool)
      requires tiles.Length == Cells
      requires forall n :: rng(n) < DrawBound
      modifies this`drawn, tiles
      ensures drawn == old(drawn) + 1
      ensures newCellFound == !old(tiles[..][rng(drawn)])
      ensures newCellFound ==> tiles[..] == old(tiles[..][rng(drawn) := true])
      ensures !newCellFound ==> tiles[..] == old(tiles[..])
    {
      var newCell := rng(drawn);
      var newCellVal := tiles[newCell];
      if !newCellVal {
        tiles[newCell] := !newCellVal;
      }
      newCellFound := !newCellVal;
      drawn := drawn + 1;
    }

    /** `update`: one frame of the round. */
    method Update(f: Frame)
      requires Valid()
      modifies this, tiles
      ensures Valid()
      ensures State() == UpdateState(old(State()), rng, f)
    {
      HandleKeys(f);
      Rescale(f);
      if !done {
        Tick(f);
        HandleClick(f);
      }
    }

    /** The key part of `update`: R restarts the round, Tab and G toggle the overlays. */
    method HandleKeys(f: Frame)
      requires Valid()
      modifies this, tiles
      ensures Valid()
      ensures State() == KeysState(old(State()), rng, f)
    {
      ghost var st := State();
      if f.r {
        Setup();
      }
      ghost var cur := if f.r then SetupState(st, rng) else st;
      assert State() == cur;
      if f.tab {
        displayInfo := !displayInfo;
        cur := cur.(displayInfo := !cur.displayInfo);
        assert State() == cur;
      }
      if f.g {
        displayGrid := !displayGrid;
        cur := cur.(displayGrid := !cur.displayGrid);
        assert State() == cur;
      }
    }

    /** PageUp / PageDown change the scale by a quarter, clamped, and the tile size follows. */
    method Rescale(f: Frame)
      requires Valid()
      modifies this`scaleQuarters, this`tilesSize
      ensures Valid()
      ensures State() == RescaleState(old(State()), f)
    {
      if f.pageUp {
        scaleQuarters := scaleQuarters + 1;
      } else if f.pageDown {
        scaleQuarters := scaleQuarters - 1;
      }
      if scaleQuarters > ScaleMaxQuarters {
        scaleQuarters := ScaleMaxQuarters;
      } else if scaleQuarters < ScaleMinQuarters {
        scaleQuarters := ScaleMinQuarters;
      }
      assert scaleQuarters == ClampScale(old(scaleQuarters) + ScaleStep(f.pageUp, f.pageDown));
      tilesSize := TileSize(scaleQuarters);
    }

    /** The timer of an active frame. */
    method Tick(f: Frame)
      requires Valid()
      modifies this`time, this`multiplier, this`done
      ensures Valid()
      ensures State() == TickState(old(State()), f)
    {
      if time > 0.0 {
        time := time - f.frameTime;
        multiplier := Multiplier(f.now, lastTimeClicked, clicks);
      } else {
        time := 0.0;
        done := true;
      }
    }

    /** The left click of an active frame. */
    method HandleClick(f: Frame)
      requires Valid()
      modifies this, tiles
      ensures Valid()
      ensures State() == ClickState(old(State()), rng, f)
    {
      ghost var st := State();
      if f.leftClick {
        var hit := HitTest(f.mouse, GridOrigin(f.screenWidth, f.screenHeight, tilesSize), tilesSize);
        assert hit == ClickedCell(f, st.tilesSize);
        if hit.Some? {
          var cellPos := hit.value;
          var cellVal := tiles[cellPos];
          if cellVal {
            ScoreCell(cellPos, f.now);
          } else {
            lastClickPos := f.mouse;
            done := true;
          }
        }
      }
    }

    /** A click on filled cell `i`: refill an empty cell, clear `i`, and score with the multiplier. */
    method ScoreCell(i: nat, now: real)
      requires tiles.Length == Cells && FairSource(rng) && Seeded(tiles[..]) && i < Cells && tiles[i]
      modifies this`drawn, this`score, this`lastTimeClicked, this`clicks, tiles
      ensures State() == ScoreState(old(State()), rng, i, now)
    {
      ghost var st := State();
      ghost var refilled := AcceptDraw(rng, st.tiles, st.drawn);
      Refill();
      tiles[i] := !tiles[i];
      assert tiles[..] == refilled.0[i := false];
      CountClick(now);
      assert State() == st.(tiles := refilled.0[i := false], drawn := refilled.1,
        score := WrapU32(st.score + st.multiplier), lastTimeClicked := now, clicks := WrapU64(st.clicks + 1));
    }

    /** The counters of a scoring click: the score grows by the multiplier, the click is timed and counted. */
    method CountClick(now: real)
      modifies this`score, this`lastTimeClicked, this`clicks
      ensures score == WrapU32(old(score) + multiplier) && lastTimeClicked == now
      ensures clicks == WrapU64(old(clicks) + 1)
    {
      score := WrapU32(score + multiplier);
      lastTimeClicked := now;
      clicks := WrapU64(clicks + 1);
    }

    /** The refill loop of a scoring click: draw until an empty cell comes up, and fill it. */
    method Refill()
      requires tiles.Length == Cells && FairSource(rng) && Seeded(tiles[..])
      modifies this`drawn, tiles
      ensures (tiles[..], drawn) == AcceptDraw(rng, old(tiles[..]), old(drawn))
    {
      ghost var t0 := tiles[..];
      ghost var target := AcceptDraw(rng, t0, drawn);
      var newCellFound := false;
      while !newCellFound
        invariant newCellFound ==> (tiles[..], drawn) == target
        invariant !newCellFound ==> tiles[..] == t0 && AcceptDraw(rng, t0, drawn) == target
        decreases if newCellFound then 0 else 1, NextEmptyDraw(rng, t0, drawn) - drawn
      {
        var newCell := rng(drawn);
        var newCellVal := tiles[newCell];
        if !newCellVal {
          AcceptDrawHit(rng, t0, drawn);
          tiles[newCell] := !newCellVal;
          newCellFound := true;
        } else {
          AcceptDrawSkip(rng, t0, drawn);
          NextEmptyDrawSkip(rng, t0, drawn);
        }
        drawn := drawn + 1;
      }
    }
  }
}
