/** The media-player service of `src/services/track.rs`, which drives
    `playerctl -a`: play state, loop mode and track skipping. */
module TrackService {
  import opened Strings
  import opened Shell

  datatype PlayState = Playing | Stopped

  datatype LoopState = None | Track | Playlist

  const PlayingStatus := "Playing"
  const NoneStatus := "None"
  const TrackStatus := "Track"
  const PlaylistStatus := "Playlist"

  /** `Into<String> for LoopState`: the word `playerctl loop` uses for a mode. */
  function LoopStateName(s: LoopState): (r: string)
    ensures |r| > 0 && '\n' !in r
  {
    match s
    case None => NoneStatus
    case Playlist => PlaylistStatus
    case Track => TrackStatus
  }

  /** The loop mode `get_loop_state` reads from `playerctl -a loop` output:
      trailing line feeds are removed, then "Playlist" and "Track" name
      their modes and everything else, "None" included, means None. */
  function ParseLoopState(output: string): (r: LoopState)
    ensures r != None ==> TrimEndMatches(output, "\n") == LoopStateName(r)
  {
    var cleaned := TrimEndMatches(output, "\n");
    if cleaned == PlaylistStatus then Playlist
    else if cleaned == TrackStatus then Track
    else None
  }

  /** Reading back the word for a mode, followed by any number of line feeds,
      gives the mode. */
  lemma LoopStateRoundTrip(s: LoopState, k: nat)
    ensures ParseLoopState(LoopStateName(s) + Newlines(k)) == s
  {
    var name := LoopStateName(s);
    assert name[|name| - 1] in name;
    TrimNewlines(name, k);
  }

  /** The mode `toggle_loop_state` switches to. */
  function NextLoopState(s: LoopState): (r: LoopState)
    ensures r != s
  {
    match s
    case None => Playlist
    case Playlist => Track
    case Track => None
  }

  /** Toggling cycles None, Playlist, Track: each toggle changes the mode and
      three toggles return to the start. */
  lemma LoopCycle(s: LoopState)
    ensures NextLoopState(s) != s
    ensures NextLoopState(NextLoopState(NextLoopState(s))) == s
    ensures NextLoopState(None) == Playlist && NextLoopState(Playlist) == Track
  {
  }

  /** The play state `get_play_state` derives from `playerctl -a status` output:
      Playing when one of its lines is exactly "Playing". */
  function PlayStateOf(output: string): PlayState
  {
    if PlayingStatus in Split(output, '\n') then Playing else Stopped
  }

  /** The output reports Playing exactly when "Playing" occurs in it with a
      line feed or an end of the text on both sides. */
  lemma PlayingLine(output: string)
    ensures PlayStateOf(output) == Playing <==>
      exists i :: 0 <= i <= |output| && PieceAt(output, PlayingStatus, '\n', i)
  {
    SplitPieces(output, PlayingStatus, '\n');
  }

  /** `get_play_state()`: asks `playerctl -a status`, whose answer is `output`. */
  method GetPlayState(log: Log, output: string) returns (state: PlayState)
    modifies log
    ensures log.issued == old(log.issued) + [Command("playerctl", ["-a", "status"])]
    ensures state == PlayStateOf(output)
  {
    log.Run(Command("playerctl", ["-a", "status"]));
    state := PlayStateOf(output);
  }

  /** `toggle_play_state()`. */
  method TogglePlayState(log: Log)
    modifies log
    ensures log.issued == old(log.issued) + [Command("playerctl", ["-a", "play-pause"])]
  {
    log.Run(Command("playerctl", ["-a", "play-pause"]));
  }

  /** `pause()`. */
  method Pause(log: Log)
    modifies log
    ensures log.issued == old(log.issued) + [Command("playerctl", ["-a", "pause"])]
  {
    log.Run(Command("playerctl", ["-a", "pause"]));
  }

  /** `play()`. */
  method Play(log: Log)
    modifies log
    ensures log.issued == old(log.issued) + [Command("playerctl", ["-a", "play"])]
  {
    log.Run(Command("playerctl", ["-a", "play"]));
  }

  /** `get_loop_state()`: asks `playerctl -a loop`, whose answer is `output`. */
  method GetLoopState(log: Log, output: string) returns (state: LoopState)
    modifies log
    ensures log.issued == old(log.issued) + [Command("playerctl", ["-a", "loop"])]
    ensures state == ParseLoopState(output)
  {
    log.Run(Command("playerctl", ["-a", "loop"]));
    state := ParseLoopState(output);
  }

  /** `toggle_loop_state()`: reads the current mode (the query answers
      `output`) and sets the next one in the cycle. */
  method ToggleLoopState(log: Log, output: string)
    modifies log
    ensures log.issued == old(log.issued) + [
      Command("playerctl", ["-a", "loop"]),
      Command("playerctl", ["-a", "loop", LoopStateName(NextLoopState(ParseLoopState(output)))])]
  {
    var current := GetLoopState(log, output);
    match current
    case None => SetLoopState(log, Playlist);
    case Playlist => SetLoopState(log, Track);
    case Track => SetLoopState(log, None);
  }

  /** `set_loop_state(s)`: one `playerctl -a loop <mode>` command. */
  method SetLoopState(log: Log, s: LoopState)
    modifies log
    ensures log.issued == old(log.issued) + [Command("playerctl", ["-a", "loop", LoopStateName(s)])]
  {
    var name := LoopStateName(s);
    log.Run(Command("playerctl", ["-a", "loop", name]));
  }

  /** `next()`. */
  method Next(log: Log)
    modifies log
    ensures log.issued == old(log.issued) + [Command("playerctl", ["-a", "next"])]
  {
    log.Run(Command("playerctl", ["-a", "next"]));
  }

  /** `previous()`. */
  method Previous(log: Log)
    modifies log
    ensures log.issued == old(log.issued) + [Command("playerctl", ["-a", "previous"])]
  {
    log.Run(Command("playerctl", ["-a", "previous"]));
  }
}
