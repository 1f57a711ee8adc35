# launchpad-controller in Dafny

A model of the core of `launchpad-controller`, a Rust program that turns a
Novation Launchpad MK2 into a Game of Life toy and drives media and volume
controls through `playerctl` and `amixer`:

- `life.dfy` (module `Life`): the `Conway` board. It is a class whose `board`
  field (rows of byte cells, `board[x][y]`) is updated in place by `tick`,
  `toggle_cell_state` and `set_cell_state`. `tick` works in place, in
  row-major order. Each cell is updated using the neighbour count at the
  swapped position `check_neighbors(y, x)`. The model follows exactly this:
  `Generation` is the in-place, swapped-count fold that `Tick` is proved to
  compute.
- `note_codec.dfy` (module `NoteCodec`): `coord_to_note` and `note_to_coord`,
  the pad numbering of the Game of Life grid (row stride `x_dimen + 1`,
  first pad note 11).
- `key_codec.dfy` (module `KeyCodec`): `coord_to_key` and `key_to_coord`
  from `src/utils/mod.rs` (row stride 10, first key 1).
- `midi.dfy` (module `Midi`): colours, brightness tiers, the palette codes,
  the four LED commands and the three-byte frames `Midi::send` writes. The
  `Midi` class keeps the frames sent so far and the queue of received
  messages.
- `main_loop.dfy` (module `MainLoop`): one pass of `main`'s loop. If the game
  is running, it ticks. Then it takes at most one received message and
  dispatches it: start, quit, ignore a release, or toggle the pressed pad.
  Panics (a `u8` underflow or an out-of-range index) are an explicit
  `Panic` outcome.
- `track.dfy` and `volume.dfy` (modules `TrackService`, `VolumeService`):
  the media services. Each command the program would spawn is appended to
  the `issued` log of a `Shell.Log` object. The command's output is
  a parameter of the operation.
- `strings.dfy` (module `Strings`): the standard-library string operations
  the services rely on (`split`, `trim_end_matches`, `trim_start_matches`,
  `format!("{}")` for bytes, `parse::<u8>`).
- `base.dfy`: `Option` and the `Byte` type (`u8`).

Integer arithmetic follows a debug build of Rust: a `u8` overflow or
underflow panics. The pure codecs therefore require that no step overflows;
the dispatch step reports `Panic`.

Two behaviours of the code are worth stating up front:

- Under the textbook Life rule a 3x3 blinker turns into the perpendicular
  line. `tick` as written works in place and counts the neighbours of the
  transposed cell, so the blinker `[[0,1,0],[0,1,0],[0,1,0]]` stays as it is
  (`Life.BlinkerIsStill`).
- The loop tests the control section before the velocity, so releasing the
  start or quit button starts or quits as a press does (`MainLoop.ControlRow`).

## Model

| member | source | states |
|---|---|---|
| Life.WithCell | src/main.rs:102 | writing one cell keeps the board's shape and changes that cell only |
| Life.NeighborCountSum | src/main.rs:57-87 | the neighbour count is the sum of the eight in-bounds Moore neighbours that hold 1, and at most 8 |
| Life.NeighborCountZero | src/main.rs:57-87 | the count is 0 exactly when no in-bounds neighbour is alive |
| Life.NextCell | src/main.rs:42-51 | the rule `tick` applies to one cell (stated by `NextCellRule`) |
| Life.NextCellRule | src/main.rs:42-51 | on a 0/1 cell the result is 0/1, and alive exactly with three live neighbours, or two when already alive |
| Life.NeighborCount | src/main.rs:57-87 | the live in-bounds Moore neighbours of a cell (its sum and bound are stated by `NeighborCountSum`) |
| Life.StepCell | src/main.rs:42-51 | updating one cell keeps the board rectangular, its size, and 0/1 cells |
| Life.TickRow | src/main.rs:41-52 | walking one row keeps the board's shape and 0/1 cells |
| Life.TickRows | src/main.rs:40-53 | walking the rows keeps the board's shape and 0/1 cells |
| Life.TickRowCells | src/main.rs:41-52 | walking row x changes no other row and no cell not yet reached |
| Life.TickRowsRows | src/main.rs:40-53 | walking rows leaves later rows untouched |
| Life.BeforeCells | src/main.rs:40-53 | when tick reaches a cell, earlier cells hold new values and later cells old ones |
| Life.GenerationCell | src/main.rs:39-54 | each new cell is the rule applied to its old value and the swapped-position count on the partly updated board |
| Life.StillLife | src/main.rs:39-54 | tick leaves a board unchanged exactly when the rule keeps every cell of it |
| Life.Generation | src/main.rs:39-54 | the next board keeps the shape and 0/1 cells (cell by cell it is stated by `GenerationCell`) |
| Life.BlinkerIsStill | src/main.rs:39-54 | the 3x3 blinker is a fixed point of tick as written |
| Life.Toggled | src/main.rs:89-95 | the toggled cell is 0 exactly when it was not 0, and the board keeps its row count |
| Life.ToggleFlips | src/main.rs:89-95 | toggling flips a 0/1 cell and no other cell |
| Life.ToggleTwice | src/main.rs:89-95 | toggling the same cell twice restores the board |
| Life.Conway.constructor | src/main.rs:22-37 | x_size rows of y_size dead cells, not running |
| Life.Conway.CheckNeighbors | src/main.rs:57-87 | the loop's count equals the neighbour count |
| Life.Conway.Tick | src/main.rs:39-54 | the new board is the next generation of the old one; running is unchanged |
| Life.Conway.ToggleCellState | src/main.rs:89-95 | the board becomes the toggled board |
| Life.Conway.SetCellState | src/main.rs:97-103 | the cell becomes 1 or 0 by the flag and nothing else changes |
| NoteCodec.CoordToNote | src/main.rs:126-137 | a pad's note is at least 11 |
| NoteCodec.CoordOfNote | src/main.rs:139-149 | the decoded column is at most x_dimen (as a u8) |
| NoteCodec.NoteToCoord | src/main.rs:139-149 | the subtraction loop yields remainder and quotient of note - 11 by x_dimen + 1 |
| NoteCodec.NoteRoundTrip | src/main.rs:126-149 | decoding a pad's note gives the pad back when x <= x_dimen |
| NoteCodec.CoordRoundTrip | src/main.rs:126-149 | every note from 11 on is the note of the pad it decodes to |
| KeyCodec.CoordToKey | src/utils/mod.rs:1-3 | a key is at least 1 |
| KeyCodec.KeyToCoord | src/utils/mod.rs:5-7 | a decoded column is at most 8 and a row at most 25 |
| KeyCodec.KeyRoundTrip | src/utils/mod.rs:1-7 | decoding a pad's key gives the pad back for columns 0 to 8 |
| KeyCodec.CoordRoundTrip | src/utils/mod.rs:1-7 | every key not ending in 0 is the key of what it decodes to |
| KeyCodec.NumberingsDifferByOneRow | src/utils/mod.rs:1-3 | on the nine-wide grid, note row y is key row y + 1 |
| Midi.BrightnessFrom | src/midi.rs:29-38 | the tier of a value (its bounds are stated by `BrightnessTiers`) |
| Midi.BrightnessTiers | src/midi.rs:29-40 | Low exactly up to 3, Medium exactly 4 to 6, High exactly from 7 |
| Midi.BrightnessMonotone | src/midi.rs:29-40 | a larger value never gets a dimmer tier |
| Midi.Code | src/midi.rs:64-94 | every colour has a code of at most 127, and the code is 0 exactly for Off |
| Midi.CodeRoundTrip | src/midi.rs:64-94 | each lit colour is read back from its code |
| Midi.CodeInjective | src/midi.rs:64-94 | different lit colours have different codes |
| Midi.FrameOf | src/midi.rs:189-206 | a frame has the LED or control status, the command's note and a velocity of at most 127 |
| Midi.FrameRoundTrip | src/midi.rs:189-206 | reading a sent frame back gives the command, an "on in Off" command read as "off" |
| Midi.FrameInjective | src/midi.rs:189-206 | two commands give the same frame exactly when they mean the same |
| Midi.CanonicalFrame | src/midi.rs:189-206 | a command and its canonical form send the same bytes |
| Midi.Midi.Send | src/midi.rs:189-206 | exactly one frame, the command's, is appended to what was sent |
| Midi.Midi.TryRecv | src/main.rs:170-174 | takes the oldest queued message, or none when the queue is empty |
| MainLoop.Step | src/main.rs:177-193 | a quit or a panic leaves the game as it was; the game runs afterwards exactly when it ran or the frame was the start button; only a grid press can change the board |
| MainLoop.Pass | src/main.rs:162-174 | the pass quits exactly when the oldest queued frame is the quit button; with an empty queue it goes on and keeps `running`; a stopped game keeps its board unless a grid frame arrives |
| MainLoop.ReleaseIgnored | src/main.rs:188-190 | a grid frame with velocity 0 changes nothing |
| MainLoop.ControlRow | src/main.rs:177-186 | a control frame never touches the board or panics; it quits exactly for 105 and starts for 104 |
| MainLoop.RunningSticky | src/main.rs:177-180 | no frame stops a running game |
| MainLoop.PressTogglesItsPad | src/main.rs:192-193 | a frame that changes the board is a press, and toggles exactly the pad whose note it carries |
| MainLoop.EveryPadReachable | src/main.rs:192-193 | pressing a pad's note toggles exactly that pad |
| MainLoop.PressTwiceRestores | src/main.rs:188-193 | the same grid frame twice restores the game |
| MainLoop.StepKeepsBoard | src/main.rs:170-193 | handling a frame keeps the board's shape and its 0/1 cells |
| MainLoop.LaunchpadPressPanics | src/main.rs:159-193 | on the 9x8 board, a press panics exactly for notes below 11, ending in 0, or from 91 |
| MainLoop.Dispatch | src/main.rs:176-193 | the game and outcome after a frame are those of Step |
| MainLoop.Iteration | src/main.rs:162-194 | one pass ticks a running game, then dispatches the oldest queued message if there is one |
| Shell.Log.Run | src/services/track.rs:57 | one command is appended to the commands issued |
| Strings.Split | src/services/track.rs:40-42 | there is at least one piece and no piece contains the separator |
| Strings.SplitJoin | src/services/track.rs:40-42 | the pieces joined with the separator give the text back |
| Strings.SplitPieces | src/services/track.rs:40-42 | a separator-free text is a piece exactly when it occurs between separators or text ends |
| Strings.TrimEndMatches | src/services/track.rs:71 | the result is a prefix of the text that no longer ends in the pattern |
| Strings.TrimEndCopies | src/services/track.rs:71 | the text is the result followed by whole copies of the pattern |
| Strings.TrimNewlines | src/services/track.rs:71 | trimming line feeds undoes appending them |
| Strings.TrimStartMatches | src/services/volume.rs:21-22 | the result is a suffix, everything removed before it is the character, and it does not start with the character |
| Strings.Decimal | src/services/volume.rs:49 | decimal text is one or more digits without a leading zero |
| Strings.DecimalValue | src/services/volume.rs:49 | the digits denote the number written |
| Strings.ParseU8 | src/services/volume.rs:23 | `parse::<u8>`: an optional `+` and one or more digits denoting at most 255 (its inverse is stated by `DecimalParses`) |
| Strings.DecimalParses | src/services/volume.rs:23-33 | parsing a byte's decimal text as u8 gives the byte |
| TrackService.LoopStateName | src/services/track.rs:19-27 | each mode's word is nonempty and has no line feed |
| TrackService.ParseLoopState | src/services/track.rs:70-77 | a mode other than None is read only from output that, without its trailing line feeds, is that mode's word |
| TrackService.LoopStateRoundTrip | src/services/track.rs:64-78 | a mode's word followed by line feeds reads back as that mode |
| TrackService.NextLoopState | src/services/track.rs:82-86 | the next mode always differs from the current one |
| TrackService.LoopCycle | src/services/track.rs:80-87 | toggling always changes the mode and three toggles return to it |
| TrackService.PlayStateOf | src/services/track.rs:40-47 | Playing exactly when some line is "Playing" (stated by `PlayingLine`) |
| TrackService.PlayingLine | src/services/track.rs:33-48 | the state is Playing exactly when some whole line is "Playing" |
| TrackService.GetPlayState | src/services/track.rs:33-48 | issues `playerctl -a status` and returns the state of its output |
| TrackService.TogglePlayState | src/services/track.rs:50-54 | issues `playerctl -a play-pause` only |
| TrackService.Pause | src/services/track.rs:56-58 | issues `playerctl -a pause` only |
| TrackService.Play | src/services/track.rs:60-62 | issues `playerctl -a play` only |
| TrackService.GetLoopState | src/services/track.rs:64-78 | issues `playerctl -a loop` and returns the mode its output names |
| TrackService.ToggleLoopState | src/services/track.rs:80-87 | issues the loop query, then sets the next mode of the cycle |
| TrackService.SetLoopState | src/services/track.rs:89-94 | issues `playerctl -a loop <mode word>` only |
| TrackService.Next | src/services/track.rs:96-98 | issues `playerctl -a next` only |
| TrackService.Previous | src/services/track.rs:100-102 | issues `playerctl -a previous` only |
| VolumeService.FindPercentClose | src/services/volume.rs:6 | finds the first `%]` at or after a position, or reports there is none |
| VolumeService.PercentMatch | src/services/volume.rs:15-16 | the match of `\[(.*?)\%\]` on a line (stated by `PercentMatchSpec` and `PercentMatchLeftmost`) |
| VolumeService.PercentMatchSpec | src/services/volume.rs:15-16 | a line has a match exactly when a `[` precedes a `%]`; a match starts with `[` and ends with `%]` |
| VolumeService.PercentMatchLeftmost | src/services/volume.rs:15-16 | the match runs from the first `[` of the line to the first `%]` that begins after it |
| VolumeService.TokenMatch | src/services/volume.rs:15-16 | on a line whose first `[` opens `[d%]`, the match is that token |
| VolumeService.DigitTokenMatch | src/services/volume.rs:15-16 | on a line whose first `[` opens a run of digits followed by `%]`, the match is that token |
| VolumeService.FieldOf | src/services/volume.rs:19-22 | a match with every trailing `%]` and then every leading `[` removed (stated for tokens by `TokenTrim`) |
| VolumeService.TokenTrim | src/services/volume.rs:19-22 | trimming a `[d%]` token leaves the digits of d |
| VolumeService.TokenField | src/services/volume.rs:15-22 | the field of such a line is the digits of d |
| VolumeService.VolumeFromLines | src/services/volume.rs:15-35 | a result other than (0, 0) is the pair of u8 values the two fields parse to |
| VolumeService.CurrentVolume | src/services/volume.rs:12-35 | the volume read from lines 5 and 6 of the output (stated for token lines by `VolumeOfTokens`) |
| VolumeService.VolumeFallback | src/services/volume.rs:23-33 | a field that is not a u8 makes the result (0, 0) |
| VolumeService.VolumeOfTokens | src/services/volume.rs:5-36 | channel lines with tokens `[l%]` and `[r%]` give (l, r) |
| VolumeService.GetCurrentVolume | src/services/volume.rs:5-36 | issues `amixer -D pulse sget Master` and returns the volume of lines 5 and 6 of its output |
| VolumeService.LevelArg | src/services/volume.rs:49 | the level argument: the level's decimal text and `%` (stated by `ArgsCarryLevel`) |
| VolumeService.NudgeArg | src/services/volume.rs:63 | the step argument: the step's decimal text, `%`, then `+` or `-` (stated by `ArgsCarryLevel`) |
| VolumeService.ArgsCarryLevel | src/services/volume.rs:49-63 | the level argument parses back to the level; nudges append `+` or `-` to it |
| VolumeService.SetVolume | src/services/volume.rs:38-53 | above 100 nothing is issued; otherwise exactly `sset Master <n>%` |
| VolumeService.Nudge | src/services/volume.rs:55-67 | issues exactly `sset Master <by>%+` or `<by>%-` |

## Left out

- `Midi::new` (src/midi.rs:108-187): port discovery by name, opening the
  connections and the input callback thread are not modelled. The callback's
  effect is the `incoming` queue of the `Midi` class, filled from outside.
- `Midi::close` (src/midi.rs:208) does nothing and has no model.
- `draw_conway_to_midi` (src/main.rs:106-124) is not modelled. As written it
  does not compile: it passes the integer 100 where `LED_ON` expects a
  `Color`, and gives `LED_OFF` two arguments. `Iteration` therefore does not
  redraw the LEDs.
- The unbounded repetition of `main`'s loop, the start-up sequence in `main`
  (src/main.rs:151-160) and the final message are not modelled.
  `Iteration` models one pass.
- Sleeps, the debug `println!` in the input callback, and the message time
  stamp (carried but never read) have no effect on the model.
- Spawning `playerctl` and `amixer` is not modelled: the command line is
  logged and the program's output is a parameter. A spawn failure, which
  makes `unwrap` panic in the getters, `set_volume` and `nudge`, is not
  modelled.
- `String::from_utf8_lossy`: the output parameter is already text.
- The regular expression engine: `PercentMatch` models only the one pattern
  `\[(.*?)\%\]`, on lines without line feeds (the only lines it is applied to).
- `PlayState::Stopped`'s word `"Stopped"` is declared but never used, so
  it is not modelled.
- `NoteCodec.CoordToNote`: requires that the result fits in a `u8`. A debug
  build panics on overflow and a release build wraps; neither is modelled.
- `KeyCodec.CoordToKey`: requires that the result fits in a `u8`, for the same
  reason.
- `KeyCodec.KeyToCoord`: requires a key not ending in 0; such keys underflow
  the `u8` subtraction, which is not modelled.
- `VolumeService.CurrentVolume` and `VolumeService.GetCurrentVolume`: require
  at least seven lines and a match on lines 5 and 6. Otherwise indexing or
  `unwrap` panics, which is not modelled.
- `VolumeService.VolumeFromLines`: requires a match on both lines, for the
  same reason.
- `MainLoop.PressTogglesItsPad` and `MainLoop.EveryPadReachable` are stated
  for boards of at most 255 rows, where `board.len() as u8` does not truncate.
  `Step` itself handles every size.
