/**
 * The game shell (`Game`): the main menu, the dispatch into a round, the score
 * table and the settings screen, and the frame loop that runs until the shell
 * is closing.
 */
module Shell {
  import opened Primitives
  import opened Input
  import opened Grid
  import opened Round
  import HighscoreTable

  datatype GameState = Menu | Running | Highscore | Settings | Closing

  datatype MenuSelect = Run | Highscore | Settings | Close

  /** The menu entries, top to bottom. */
  const Entries: seq<MenuSelect> := [Run, MenuSelect.Highscore, MenuSelect.Settings, Close]

  /** Position of a menu entry, top to bottom. */
  function Index(m: MenuSelect): (i: nat)
    ensures i < |Entries| && Entries[i] == m
  {
    match m
    case Run => 0
    case Highscore => 1
    case Settings => 2
    case Close => 3
  }

  /** Up moves the cursor one entry towards the top and Down one towards the bottom, Up winning; both stop at the ends. */
  function MenuMove(m: MenuSelect, up: bool, down: bool): (r: MenuSelect)
    ensures up ==> Index(r) == if Index(m) == 0 then 0 else Index(m) - 1
    ensures !up && down ==> Index(r) == if Index(m) == 3 then 3 else Index(m) + 1
    ensures !up && !down ==> r == m
  {
    if up then
      match m
      case Run => Run
      case Highscore => Run
      case Settings => MenuSelect.Highscore
      case Close => MenuSelect.Settings
    else if down then
      match m
      case Run => MenuSelect.Highscore
      case Highscore => MenuSelect.Settings
      case Settings => Close
      case Close => Close
    else m
  }

  /** The screen that Enter opens for a menu entry. */
  function Destination(m: MenuSelect): (r: GameState)
    ensures r != Menu
    ensures r == Closing <==> m == Close
    ensures r == Running <==> m == Run
    ensures m == MenuSelect.Highscore ==> r == GameState.Highscore
    ensures m == MenuSelect.Settings ==> r == GameState.Settings
  {
    match m
    case Run => Running
    case Highscore => GameState.Highscore
    case Settings => GameState.Settings
    case Close => Closing
  }

  /** The score check after a running frame: a finished round whose score is not yet listed goes through `add_score`. */
  function RecordScore(table: seq<U32>, done: bool, score: U32): (r: seq<U32>)
    ensures |r| == |table|
    ensures !done ==> r == table
  {
    if done && score !in table then HighscoreTable.InsertPass(table, score) else table
  }

  /** The whole shell as a value. */
  datatype ShellState = ShellState(
    state: GameState,
    menuSelected: MenuSelect,
    round: RoundState,
    table: seq<U32>)

  /** The invariant of the shell: a consistent round and a ranked nine-slot table. */
  ghost predicate Sound(g: ShellState) {
    Consistent(g.round) && |g.table| == HighscoreTable.Capacity && HighscoreTable.Ranked(g.table)
  }

  /** `Game::default`: the menu with Start selected, a fresh round and an empty table. */
  ghost function InitialShell(rng: nat -> nat, drawn: nat): (r: ShellState)
    requires FairSource(rng)
    ensures Sound(r) && r.state == Menu && r.menuSelected == Run
    ensures r.table == HighscoreTable.EmptyTable
  {
    HighscoreTable.EmptyTableRanked();
    ShellState(Menu, Run, SetupState(DefaultState(drawn), rng), HighscoreTable.EmptyTable)
  }

  /** One call of `Game::update`. */
  ghost function Step(g: ShellState, rng: nat -> nat, f: Frame): (r: ShellState)
    requires FairSource(rng) && Consistent(g.round)
    ensures Consistent(r.round)
  {
    match g.state
    case Menu => MenuStep(g, rng, f)
    case Running => RunningStep(g, rng, f)
    case Highscore => g.(state := if f.escape then Menu else GameState.Highscore)
    case Settings => g.(state := if f.escape then Menu else GameState.Settings)
    case Closing => g
  }

  /** A frame in the menu: the cursor moves, then Enter opens the selected entry; Start also begins a new round. */
  ghost function MenuStep(g: ShellState, rng: nat -> nat, f: Frame): (r: ShellState)
    requires FairSource(rng) && Consistent(g.round)
    ensures Consistent(r.round)
  {
    var sel := MenuMove(g.menuSelected, f.up, f.down);
    if !f.enter then g.(menuSelected := sel)
    else if sel == Run then g.(menuSelected := sel, round := SetupState(g.round, rng), state := Running)
    else g.(menuSelected := sel, state := Destination(sel))
  }

  /** A frame of a running round: Escape returns to the menu, the round advances, and a finished round's score is recorded. */
  ghost function RunningStep(g: ShellState, rng: nat -> nat, f: Frame): (r: ShellState)
    requires FairSource(rng) && Consistent(g.round)
    ensures Consistent(r.round)
  {
    var round := UpdateState(g.round, rng, f);
    g.(state := if f.escape then Menu else Running, round := round,
       table := RecordScore(g.table, round.done, round.score))
  }

  // ---------------------------------------------------------------------------
  // Properties of the shell.

  /** Every frame keeps the shell sound: in particular the table stays sorted and free of repeated scores. */
  lemma StepSound(g: ShellState, rng: nat -> nat, f: Frame)
    requires FairSource(rng) && Sound(g)
    ensures Sound(Step(g, rng, f))
  {
    if g.state == Running {
      var round := UpdateState(g.round, rng, f);
      if round.done && round.score !in g.table {
        HighscoreTable.InsertPassKeepsRanked(g.table, round.score);
      }
    }
  }

  /** In the menu without Enter only the cursor moves. */
  lemma MenuCursor(g: ShellState, rng: nat -> nat, f: Frame)
    requires FairSource(rng) && Consistent(g.round)
    requires g.state == Menu && !f.enter
    ensures Step(g, rng, f) == g.(menuSelected := MenuMove(g.menuSelected, f.up, f.down))
    ensures f.up && g.menuSelected != Run ==> Index(Step(g, rng, f).menuSelected) == Index(g.menuSelected) - 1
    ensures !f.up && f.down && g.menuSelected != Close ==> Index(Step(g, rng, f).menuSelected) == Index(g.menuSelected) + 1
  {
  }

  /**
   * Enter in the menu leaves it for the selected entry's screen (after this
   * frame's cursor move); Start begins a fresh round, Exit closes the shell.
   */
  lemma EnterDispatch(g: ShellState, rng: nat -> nat, f: Frame)
    requires FairSource(rng) && Consistent(g.round)
    requires g.state == Menu && f.enter
    ensures var r := Step(g, rng, f);
      && r.state == Destination(MenuMove(g.menuSelected, f.up, f.down))
      && r.table == g.table
      && (r.state == Closing <==> MenuMove(g.menuSelected, f.up, f.down) == Close)
      && (r.state == Running ==> r.round.score == 0 && r.round.time == RoundSeconds && !r.round.done
                                 && r.round.clicks == 0 && Seeded(r.round.tiles))
      && (r.state != Running ==> r.round == g.round)
  {
    var sel := MenuMove(g.menuSelected, f.up, f.down);
    if sel == Run {
      SetupResets(g.round, rng);
    }
  }

  /** Escape during a round returns to the menu, but the round still gets this frame's update. */
  lemma EscapeFromRunning(g: ShellState, rng: nat -> nat, f: Frame)
    requires FairSource(rng) && Consistent(g.round)
    requires g.state == Running && f.escape
    ensures Step(g, rng, f).state == Menu
    ensures Step(g, rng, f).round == UpdateState(g.round, rng, f)
  {
  }

  /** The score table and the settings screen only react to Escape, back to the menu. */
  lemma OtherScreens(g: ShellState, rng: nat -> nat, f: Frame)
    requires FairSource(rng) && Consistent(g.round)
    requires g.state == GameState.Highscore || g.state == GameState.Settings
    ensures Step(g, rng, f) == g.(state := if f.escape then Menu else g.state)
  {
  }

  /** Once the shell is closing, a frame changes nothing. */
  lemma ClosingIsFinal(g: ShellState, rng: nat -> nat, f: Frame)
    requires FairSource(rng) && Consistent(g.round)
    requires g.state == Closing
    ensures Step(g, rng, f) == g
  {
  }

  /**
   * What a finished round does to a sound table: a listed score changes
   * nothing, an unlisted one enters in sorted position, dropping the last slot,
   * exactly when it beats the last slot.
   */
  lemma RecordScoreOutcome(table: seq<U32>, score: U32)
    requires |table| == HighscoreTable.Capacity && HighscoreTable.Ranked(table)
    ensures score in table ==> RecordScore(table, true, score) == table
    ensures score !in table && score > table[|table| - 1] ==>
      RecordScore(table, true, score) == HighscoreTable.SortedInsert(table, score)[..|table|]
    ensures score in RecordScore(table, true, score) <==> score in table || score > table[|table| - 1]
  {
    if score !in table {
      HighscoreTable.InsertPassOutcome(table, score);
    }
  }

  /** A score of zero never changes the table: zeros are what empty slots hold. */
  lemma RecordZero(table: seq<U32>, done: bool)
    requires |table| == HighscoreTable.Capacity && HighscoreTable.Ranked(table)
    ensures RecordScore(table, done, 0) == table
  {
    if done && 0 !in table {
      HighscoreTable.InsertPassOutcome(table, 0);
      assert table[|table| - 1] in table;
    }
  }

  // ---------------------------------------------------------------------------
  // The engine itself.

  class Game {
    var state: GameState
    var menuSelected: MenuSelect
    const pattern: Pattern
    const highscore: HighscoreTable.Highscore

    ghost function View(): ShellState
      reads this, pattern, pattern.tiles, highscore, highscore.scores
    {
      ShellState(state, menuSelected, pattern.State(), highscore.Table())
    }

    ghost predicate Valid()
      reads this, pattern, pattern.tiles, highscore, highscore.scores
    {
      pattern.Valid() && highscore.Valid() && Sound(View())
    }

    /** `Game::new`, i.e. `Default`: the menu, Start selected, a new round and an empty table. */
    constructor (rng: nat -> nat, drawn: nat)
      requires FairSource(rng)
      ensures Valid() && pattern.rng == rng
      ensures fresh(pattern) && fresh(pattern.tiles) && fresh(highscore) && fresh(highscore.scores)
      ensures View() == InitialShell(rng, drawn)
    {
      state := Menu;
      menuSelected := Run;
      pattern := new Pattern(rng, drawn);
      highscore := new HighscoreTable.Highscore();
      new;
      HighscoreTable.EmptyTableRanked();
    }

    /** `Game::update`: one frame of the shell. */
    method Update(f: Frame)
      requires Valid()
      modifies this, pattern, pattern.tiles, highscore.scores
      ensures Valid()
      ensures View() == Step(old(View()), pattern.rng, f)
    {
      match state
      case Menu =>
        UpdateMenu(f);
      case Running =>
        UpdateRunning(f);
      case Highscore =>
        if f.escape {
          state := Menu;
        }
      case Settings =>
        if f.escape {
          state := Menu;
        }
      case Closing =>
    }

    /** The menu: move the cursor, then on Enter open the selected entry. */
    method UpdateMenu(f: Frame)
      requires Valid() && state == Menu
      modifies this, pattern, pattern.tiles
      ensures Valid()
      ensures View() == MenuStep(old(View()), pattern.rng, f)
    {
      ghost var g := View();
      MoveCursor(f);
      assert View() == g.(menuSelected := MenuMove(g.menuSelected, f.up, f.down));
      if f.enter {
        match menuSelected
        case Run =>
          StartRound();
        case Highscore =>
          state := GameState.Highscore;
        case Settings =>
          state := GameState.Settings;
        case Close =>
          state := Closing;
      }
    }

    /** Start: a new round begins and the shell shows it. */
    method StartRound()
      requires Valid()
      modifies this`state, pattern, pattern.tiles
      ensures Valid()
      ensures View() == old(View()).(round := SetupState(old(pattern.State()), pattern.rng), state := Running)
    {
      pattern.Setup();
      state := Running;
    }

    /** Up / Down in the menu. */
    method MoveCursor(f: Frame)
      modifies this`menuSelected
      ensures menuSelected == MenuMove(old(menuSelected), f.up, f.down)
    {
      if f.up {
        match menuSelected
        case Run =>
        case Highscore => menuSelected := Run;
        case Settings => menuSelected := MenuSelect.Highscore;
        case Close => menuSelected := MenuSelect.Settings;
      } else if f.down {
        match menuSelected
        case Run => menuSelected := MenuSelect.Highscore;
        case Highscore => menuSelected := MenuSelect.Settings;
        case Settings => menuSelected := Close;
        case Close =>
      }
    }

    /** A running round: Escape returns to the menu, the round is updated, and a finished score is recorded. */
    method UpdateRunning(f: Frame)
      requires Valid() && state == Running
      modifies this, pattern, pattern.tiles, highscore.scores
      ensures Valid()
      ensures View() == RunningStep(old(View()), pattern.rng, f)
    {
      ghost var g := View();
      if f.escape {
        state := Menu;
      }
      pattern.Update(f);
      assert pattern.State() == UpdateState(g.round, pattern.rng, f);
      if pattern.done && !highscore.ScoreExist(pattern.score) {
        HighscoreTable.InsertPassKeepsRanked(highscore.Table(), pattern.score);
        highscore.AddScore(pattern.score);
      }
    }
  }

  /**
   * The frame loop of `main`: update the shell once per frame until it is
   * closing, or until the frames run out. Returns how many frames were used.
   */
  method RunFrames(game: Game, frames: seq<Frame>) returns (used: nat)
    requires game.Valid()
    modifies game, game.pattern, game.pattern.tiles, game.highscore.scores
    ensures game.Valid()
    ensures used <= |frames|
    ensures used < |frames| ==> game.state == Closing
    ensures game.View() == Steps(old(game.View()), game.pattern.rng, frames[..used])
  {
    ghost var start := game.View();
    ghost var rng := game.pattern.rng;
    used := 0;
    while used < |frames| && game.state != Closing
      invariant game.Valid() && game.pattern.rng == rng && used <= |frames|
      invariant game.View() == Steps(start, rng, frames[..used])
    {
      game.Update(frames[used]);
      assert frames[..used + 1][..used] == frames[..used];
      used := used + 1;
    }
  }

  /** The shell after a sequence of frames, each through `Step`. */
  ghost function Steps(g: ShellState, rng: nat -> nat, frames: seq<Frame>): (r: ShellState)
    requires FairSource(rng) && Sound(g)
    ensures Sound(r)
    decreases |frames|
  {
    if frames == [] then g
    else
      var before := Steps(g, rng, frames[..|frames| - 1]);
      StepSound(before, rng, frames[|frames| - 1]);
      Step(before, rng, frames[|frames| - 1])
  }

  /** A closing shell stays closed for every later frame. */
  lemma {:induction false} StepsFromClosing(g: ShellState, rng: nat -> nat, frames: seq<Frame>)
    requires FairSource(rng) && Sound(g) && g.state == Closing
    ensures Steps(g, rng, frames) == g
    decreases |frames|
  {
    if frames != [] {
      StepsFromClosing(g, rng, frames[..|frames| - 1]);
    }
  }
}
