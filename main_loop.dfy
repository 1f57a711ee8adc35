/** One pass of the Game of Life loop in `src/main.rs`: advance the board if
    the game is running, take at most one incoming message, and act on it. */
module MainLoop {
  import opened Bytes
  import opened Wrappers
  import opened Life
  import opened NoteCodec
  import opened Midi

  /** Control-row note of the start button. */
  const StartNote: Byte := 104
  /** Control-row note of the quit button. */
  const QuitNote: Byte := 105

  /** How a pass ends: the loop goes on, leaves (quit pressed), or the
      program panics (a `u8` underflow or an out-of-range index). */
  datatype Outcome = Continue | Quit | Panic

  /** The fields of `Conway` the loop reads and writes. */
  datatype Game = Game(board: Board, running: bool)

  /** What the loop does with one received frame `[status, note, velocity]`:
      a control-row frame starts the game (note 104) or quits (note 105) and
      is otherwise ignored; any other frame with velocity 0 (a release) is
      ignored; any other frame toggles the pad its note decodes to, with the
      board's row count as the row width. The decoding panics for notes
      below 11, indexing `board[0]` panics on a board without rows, and the
      toggle panics when the decoded cell is off the board. */
  function Step(g: Game, f: Frame): (r: (Game, Outcome))
    ensures r.1 != Continue ==> r.0 == g
    ensures r.0.running <==> g.running || (f.status == ControlSection && f.note == StartNote)
    ensures r.0.board != g.board ==> f.status != ControlSection && f.velocity != 0
  {
    if f.status == ControlSection then
      if f.note == StartNote then (g.(running := true), Continue)
      else if f.note == QuitNote then (g, Quit)
      else (g, Continue)
    else if f.velocity == 0 then (g, Continue)
    else if |g.board| == 0 || f.note < FirstNote then (g, Panic)
    else
      var (x, y) := CoordOfNote(f.note, |g.board|);
      if InBoard(g.board, x, y) then (g.(board := Toggled(g.board, x, y)), Continue)
      else (g, Panic)
  }

  /** A release on the grid changes nothing. */
  lemma ReleaseIgnored(g: Game, f: Frame)
    requires f.status != ControlSection && f.velocity == 0
    ensures Step(g, f) == (g, Continue)
  {
  }

  /** A control-row frame never touches the board and never panics: it quits
      exactly for note 105 and leaves the game running exactly when it was
      already running or the note is 104. */
  lemma ControlRow(g: Game, f: Frame)
    requires f.status == ControlSection
    ensures Step(g, f).0.board == g.board
    ensures Step(g, f).1 != Panic
    ensures Step(g, f).1 == Quit <==> f.note == QuitNote
    ensures Step(g, f).0.running <==> g.running || f.note == StartNote
  {
  }

  /** Nothing stops a running game: every frame leaves `running` set. */
  lemma RunningSticky(g: Game, f: Frame)
    requires g.running
    ensures Step(g, f).0.running
  {
  }

  /** A frame that changes the board is a press (not a control-row frame, not
      a release), and what it changes is exactly one pad: the pad whose note,
      on a grid as wide as the board has rows, is the frame's note. */
  lemma PressTogglesItsPad(g: Game, f: Frame)
    requires |g.board| <= 255
    requires Step(g, f).0.board != g.board
    ensures f.status != ControlSection && f.velocity != 0 && f.note >= FirstNote && Step(g, f).1 == Continue
    ensures var w: Byte := |g.board|;
      exists x: Byte, y: Byte :: x <= w && FirstNote + x + y + y * w <= 255
        && CoordToNote(w, Height(g.board) % 256, x, y) == f.note
        && InBoard(g.board, x, y) && Step(g, f).0.board == Toggled(g.board, x, y)
  {
    var w: Byte := |g.board|;
    var (x, y) := CoordOfNote(f.note, w);
    CoordRoundTrip(f.note, w, Height(g.board) % 256);
    assert CoordToNote(w, Height(g.board) % 256, x, y) == f.note;
  }

  /** Every pad of the board can be reached: pressing the note of pad
      `(x, y)` toggles exactly that cell. */
  lemma EveryPadReachable(g: Game, x: Byte, y: Byte, velocity: Byte)
    requires |g.board| <= 255 && InBoard(g.board, x, y) && velocity != 0
    requires FirstNote + x + y + y * |g.board| <= 255
    ensures var note := CoordToNote(|g.board|, Height(g.board) % 256, x, y);
      Step(g, Frame(LedSection, note, velocity)) == (g.(board := Toggled(g.board, x, y)), Continue)
  {
    NoteRoundTrip(|g.board|, Height(g.board) % 256, x, y);
  }

  /** On a board of 0/1 cells, the same grid frame handled twice in a row
      (without a tick in between) leaves the game as it was. */
  lemma PressTwiceRestores(g: Game, f: Frame)
    requires Binary(g.board) && f.status != ControlSection && Step(g, f).1 == Continue
    ensures Step(Step(g, f).0, f) == (g, Continue)
  {
    if f.velocity != 0 {
      var (x, y) := CoordOfNote(f.note, |g.board|);
      ToggleTwice(g.board, x, y);
    }
  }

  /** A pass keeps the board rectangular and its cells 0 or 1, and keeps its shape. */
  lemma StepKeepsBoard(g: Game, f: Frame)
    requires Rectangular(g.board) && Binary(g.board)
    ensures Rectangular(Step(g, f).0.board) && Binary(Step(g, f).0.board)
    ensures |Step(g, f).0.board| == |g.board| && Height(Step(g, f).0.board) == Height(g.board)
  {
    if f.status != ControlSection && f.velocity != 0 && |g.board| != 0 && f.note >= FirstNote {
      var (x, y) := CoordOfNote(f.note, |g.board|);
      if InBoard(g.board, x, y) {
        ToggleFlips(g.board, x, y);
      }
    }
  }

  /** The board `main` plays on: `Conway::new(9, 8)`, nine rows of eight cells. */
  predicate LaunchpadBoard(b: Board)
  {
    |b| == 9 && forall i :: 0 <= i < 9 ==> |b[i]| == 8
  }

  /** On the board `main` builds, a press (not a control-row frame, velocity
      not 0) panics exactly for notes below 11, notes whose last decimal
      digit is 0 (they decode to a ninth column that the nine-row board
      indexes as a tenth row) and notes from 91 on (a ninth grid row). */
  lemma LaunchpadPressPanics(g: Game, f: Frame)
    requires LaunchpadBoard(g.board)
    requires f.status != ControlSection && f.velocity != 0
    ensures Step(g, f).1 == Panic <==> f.note < 11 || f.note % 10 == 0 || f.note >= 91
    ensures Step(g, f).1 != Panic ==> Step(g, f).1 == Continue
  {
    if f.note >= FirstNote {
      var (x, y) := CoordOfNote(f.note, 9);
      assert x == (f.note - 11) % 10 && y == (f.note - 11) / 10;
      assert f.note - 11 == y * 10 + x;
      assert x == 9 <==> f.note % 10 == 0;
      assert y >= 8 <==> f.note >= 91;
    }
  }

  /** What the body of `main`'s loop does to the game and to the incoming
      queue: after an optional tick, the first queued message (if any) is
      taken and passed to `Step`. */
  function Pass(g: Game, queue: seq<IncomingMessage>): (r: (Game, Outcome))
    requires Rectangular(g.board)
    ensures r.1 == Quit <==> queue != [] && queue[0].data.status == ControlSection && queue[0].data.note == QuitNote
    ensures queue == [] ==> r.1 == Continue && r.0.running == g.running
    ensures !g.running && (queue == [] || queue[0].data.status == ControlSection) ==> r.0.board == g.board
  {
    var ticked := if g.running then g.(board := Generation(g.board)) else g;
    if queue == [] then (ticked, Continue) else Step(ticked, queue[0].data)
  }

  /** Dispatches one received frame on the game, as the end of `main`'s loop
      body does. */
  method Dispatch(game: Conway, f: Frame) returns (outcome: Outcome)
    requires game.Valid()
    modifies game
    ensures game.Valid()
    ensures (Game(game.board, game.running), outcome) == Step(Game(old(game.board), old(game.running)), f)
  {
    if f.status == ControlSection {
      if f.note == StartNote {
        game.running := true;
      }
      if f.note == QuitNote {
        return Quit;
      }
      return Continue;
    }
    if f.velocity == 0 {
      return Continue;
    }
    if |game.board| == 0 || f.note < FirstNote {
      return Panic;
    }
    var x, y := NoteToCoord(f.note, |game.board|, |game.board[0]|);
    if !(x < |game.board| && y < |game.board[x]|) {
      return Panic;
    }
    game.ToggleCellState(x, y);
    return Continue;
  }

  /** One pass of `main`'s loop: tick if running, then take at most one
      message from the incoming queue and dispatch it. The LEDs are not
      redrawn (see the README). */
  method Iteration(game: Conway, midi: Midi) returns (outcome: Outcome)
    requires game.Valid()
    modifies game, midi`incoming
    ensures game.Valid()
    ensures (Game(game.board, game.running), outcome) == Pass(Game(old(game.board), old(game.running)), old(midi.incoming))
    ensures midi.incoming == if old(midi.incoming) == [] then [] else old(midi.incoming)[1..]
  {
    if game.running {
      game.Tick();
    }
    var res := midi.TryRecv();
    if res.None? {
      return Continue;
    }
    outcome := Dispatch(game, res.value.data);
  }
}
