/** The volume service of `src/services/volume.rs`, which drives
    `amixer -D pulse` on the Master control. */
module VolumeService {
  import opened Wrappers
  import opened Bytes
  import opened Strings
  import opened Shell

  /** Index of the first `%]` that starts at or after `from`, if there is one. */
  function FindPercentClose(s: string, from: nat): (r: Option<nat>)
    decreases |s| - from
    ensures r.Some? ==> from <= r.value && r.value + 1 < |s| && s[r.value] == '%' && s[r.value + 1] == ']'
    ensures r.Some? ==> forall k :: from <= k < r.value ==> !(s[k] == '%' && s[k + 1] == ']')
    ensures r.None? ==> forall k :: from <= k && k + 1 < |s| ==> !(s[k] == '%' && s[k + 1] == ']')
  {
    if from + 1 >= |s| then None
    else if s[from] == '%' && s[from + 1] == ']' then Some(from)
    else FindPercentClose(s, from + 1)
  }

  /** A `%]` starts at index `k` of `s`. */
  predicate ClosesAt(s: string, k: int)
  {
    0 <= k && k + 1 < |s| && s[k] == '%' && s[k + 1] == ']'
  }

  /** What `Regex::new("\\[(.*?)\\%\\]").find(line)` returns on a line (a
      string without line feeds, which `.` would not cross): the leftmost
      match, which starts at the first `[`, and the shortest one from there,
      which ends at the first `%]` after it. */
  function PercentMatch(line: string): Option<string>
    requires '\n' !in line
  {
    match FindChar(line, '[', 0)
    case None => None
    case Some(i) =>
      match FindPercentClose(line, i + 1)
      case None => None
      case Some(j) => Some(line[i..j + 2])
  }

  /** There is a match exactly when some `[` is followed, later on, by `%]`;
      a match is a piece of the line that starts with `[` and ends with `%]`. */
  lemma PercentMatchSpec(line: string)
    requires '\n' !in line
    ensures PercentMatch(line).None? <==>
      !exists i, j :: 0 <= i < j && j + 1 < |line| && line[i] == '[' && line[j] == '%' && line[j + 1] == ']'
    ensures PercentMatch(line).Some? ==>
      var m := PercentMatch(line).value;
      && |m| >= 3 && m[0] == '[' && m[|m| - 2..] == "%]"
      && exists i :: 0 <= i < |line| && line[i] == '[' && i + |m| <= |line| && line[i..i + |m|] == m
  {
    match FindChar(line, '[', 0)
    case None =>
    case Some(i) =>
      match FindPercentClose(line, i + 1)
      case None =>
        assert forall i', j :: 0 <= i' < j && j + 1 < |line| && line[i'] == '[' && line[j] == '%' ==> line[j + 1] != ']' by {
          forall i', j | 0 <= i' < j && j + 1 < |line| && line[i'] == '[' && line[j] == '%'
            ensures line[j + 1] != ']'
          {
            assert i <= i';
          }
        }
      case Some(j) =>
        var m := line[i..j + 2];
        assert line[i..i + |m|] == m;
        assert m[|m| - 2..] == line[j..j + 2];
  }

  /** Which match it is: the leftmost-first one, from the first `[` of the
      line to the first `%]` that begins after that `[`. */
  lemma PercentMatchLeftmost(line: string)
    requires '\n' !in line
    ensures PercentMatch(line).Some? ==>
      exists i, j :: 0 <= i < j && j + 1 < |line|
        && line[i] == '[' && (forall k :: 0 <= k < i ==> line[k] != '[')
        && ClosesAt(line, j) && (forall k :: i < k < j ==> !ClosesAt(line, k))
        && PercentMatch(line).value == line[i..j + 2]
  {
    match FindChar(line, '[', 0)
    case None =>
    case Some(i) =>
      match FindPercentClose(line, i + 1)
      case None =>
      case Some(j) =>
        assert ClosesAt(line, j) && forall k :: i < k < j ==> !ClosesAt(line, k);
  }

  /** The text of a match as `get_current_volume` trims it: every trailing
      `%]`, then every leading `[`. */
  function FieldOf(m: string): string
  {
    TrimStartMatches(TrimEndMatches(m, "%]"), '[')
  }

  /** The `(left, right)` pair `get_current_volume` computes from the two
      channel lines: each line's match trimmed and parsed as `u8`, and
      `(0, 0)` as soon as either does not parse. A line without a match makes
      `unwrap` panic, so each line must have one. */
  function VolumeFromLines(left: string, right: string): (r: (Byte, Byte))
    requires '\n' !in left && '\n' !in right
    requires PercentMatch(left).Some? && PercentMatch(right).Some?
    ensures r != (0, 0) ==>
      ParseU8(FieldOf(PercentMatch(left).value)) == Some(r.0) && ParseU8(FieldOf(PercentMatch(right).value)) == Some(r.1)
  {
    var l := ParseU8(FieldOf(PercentMatch(left).value));
    var r := ParseU8(FieldOf(PercentMatch(right).value));
    if l.None? then (0, 0)
    else if r.None? then (0, 0)
    else (l.value, r.value)
  }

  /** The output of `amixer -D pulse sget Master` has the two channel lines
      `get_current_volume` reads (indices 5 and 6 after splitting at line
      feeds), and each has a match; otherwise indexing or `unwrap` panics. */
  predicate VolumeReadable(output: string)
  {
    var lines := Split(output, '\n');
    |lines| >= 7 && PercentMatch(lines[5]).Some? && PercentMatch(lines[6]).Some?
  }

  /** What `get_current_volume` returns for the command output `output`. */
  function CurrentVolume(output: string): (Byte, Byte)
    requires VolumeReadable(output)
  {
    var lines := Split(output, '\n');
    VolumeFromLines(lines[5], lines[6])
  }

  /** If either channel's field is not a valid `u8` in decimal, the result is `(0, 0)`. */
  lemma VolumeFallback(left: string, right: string)
    requires '\n' !in left && '\n' !in right
    requires PercentMatch(left).Some? && PercentMatch(right).Some?
    requires ParseU8(FieldOf(PercentMatch(left).value)).None? || ParseU8(FieldOf(PercentMatch(right).value)).None?
    ensures VolumeFromLines(left, right) == (0, 0)
  {
  }

  /** Trimming `%]` from a bracketed run of digits followed by `%]` leaves the
      bracket and the digits. */
  lemma TrimEndToken(digits: string)
    requires |digits| >= 1 && AllDigits(digits)
    ensures TrimEndMatches("[" + digits + "%]", "%]") == "[" + digits
  {
    var open := "[" + digits;
    var token := open + "%]";
    assert token[..|token| - 2] == open;
    assert EndsWith(token, "%]");
    assert open[|open| - 1] == digits[|digits| - 1];
    assert !EndsWith(open, "%]");
  }

  /** Trimming `[` from a bracket followed by digits leaves the digits. */
  lemma TrimStartToken(digits: string)
    requires |digits| >= 1 && AllDigits(digits)
    ensures TrimStartMatches("[" + digits, '[') == digits
  {
    assert ("[" + digits)[1..] == digits;
    assert IsDigit(digits[0]);
  }

  /** A token `[d%]` is its own field once trimmed: the decimal text of `d`. */
  lemma TokenTrim(d: Byte)
    ensures FieldOf("[" + Decimal(d) + "%]") == Decimal(d)
  {
    TrimEndToken(Decimal(d));
    TrimStartToken(Decimal(d));
  }

  /** A line made of a text, a bracketed run of digits followed by `%]`, and
      a rest has no line feed when its outer parts have none. */
  lemma TokenLineNoNewline(pre: string, digits: string, post: string)
    requires AllDigits(digits) && '\n' !in pre && '\n' !in post
    ensures '\n' !in pre + "[" + digits + "%]" + post
  {
    assert '\n' !in digits by {
      forall k | 0 <= k < |digits| ensures digits[k] != '\n' {
        assert IsDigit(digits[k]);
      }
    }
    assert pre + "[" + digits + "%]" + post == pre + ("[" + (digits + ("%]" + post)));
  }

  /** `FindChar` stops at the first `[`. */
  lemma FirstOpen(line: string, p: nat)
    requires p < |line| && line[p] == '['
    requires forall k :: 0 <= k < p ==> line[k] != '['
    ensures FindChar(line, '[', 0) == Some(p)
  {
  }

  /** `FindPercentClose` stops at the first `%]`, which comes before any
      other `%` from the starting point on. */
  lemma FirstClose(line: string, from: nat, close: nat)
    requires from <= close && close + 1 < |line| && line[close] == '%' && line[close + 1] == ']'
    requires forall k :: from <= k < close ==> line[k] != '%'
    ensures FindPercentClose(line, from) == Some(close)
  {
  }

  /** On a line whose first `[` opens a bracketed run of digits followed by
      `%]`, the match is that token. */
  lemma DigitTokenMatch(pre: string, digits: string, post: string)
    requires AllDigits(digits) && '[' !in pre && '\n' !in pre && '\n' !in post
    ensures var line := pre + "[" + digits + "%]" + post;
      && '\n' !in line
      && PercentMatch(line) == Some("[" + digits + "%]")
  {
    TokenLineNoNewline(pre, digits, post);
    var line := pre + "[" + digits + "%]" + post;
    var p := |pre|;
    var close := p + 1 + |digits|;
    assert line[p] == '[';
    assert forall k :: 0 <= k < p ==> line[k] == pre[k];
    FirstOpen(line, p);
    assert forall k :: p + 1 <= k < close ==> line[k] == digits[k - p - 1];
    assert forall k :: p + 1 <= k < close ==> IsDigit(line[k]);
    assert line[close] == '%' && line[close + 1] == ']';
    FirstClose(line, p + 1, close);
    assert line[p..close + 2] == "[" + digits + "%]";
  }

  /** The match on a line whose first `[` opens a `[d%]` token is that token. */
  lemma TokenMatch(pre: string, d: Byte, post: string)
    requires '[' !in pre && '\n' !in pre && '\n' !in post
    ensures var line := pre + "[" + Decimal(d) + "%]" + post;
      && '\n' !in line
      && PercentMatch(line) == Some("[" + Decimal(d) + "%]")
  {
    DigitTokenMatch(pre, Decimal(d), post);
  }

  /** The match on a line whose first `[` opens a `[d%]` token is that token,
      and its field is the decimal text of `d`. */
  lemma TokenField(pre: string, d: Byte, post: string)
    requires '[' !in pre && '\n' !in pre && '\n' !in post
    ensures var line := pre + "[" + Decimal(d) + "%]" + post;
      && '\n' !in line
      && PercentMatch(line) == Some("[" + Decimal(d) + "%]")
      && FieldOf(PercentMatch(line).value) == Decimal(d)
  {
    TokenMatch(pre, d, post);
    TokenTrim(d);
  }

  /** Two channel lines whose first tokens are `[l%]` and `[r%]` give `(l, r)`. */
  lemma VolumeOfTokens(preL: string, l: Byte, postL: string, preR: string, r: Byte, postR: string)
    requires '[' !in preL && '\n' !in preL && '\n' !in postL
    requires '[' !in preR && '\n' !in preR && '\n' !in postR
    ensures var left := preL + "[" + Decimal(l) + "%]" + postL;
      var right := preR + "[" + Decimal(r) + "%]" + postR;
      && '\n' !in left && '\n' !in right
      && PercentMatch(left).Some? && PercentMatch(right).Some?
      && VolumeFromLines(left, right) == (l, r)
  {
    TokenField(preL, l, postL);
    TokenField(preR, r, postR);
    DecimalParses(l);
    DecimalParses(r);
  }

  /** `get_current_volume()`: asks `amixer -D pulse sget Master`, whose answer is `output`. */
  method GetCurrentVolume(log: Log, output: string) returns (left: Byte, right: Byte)
    requires VolumeReadable(output)
    modifies log
    ensures log.issued == old(log.issued) + [Command("amixer", ["-D", "pulse", "sget", "Master"])]
    ensures (left, right) == CurrentVolume(output)
  {
    log.Run(Command("amixer", ["-D", "pulse", "sget", "Master"]));
    var lines := Split(output, '\n');
    left, right := VolumeFromLines(lines[5], lines[6]).0, VolumeFromLines(lines[5], lines[6]).1;
  }

  /** The level argument `format!("{}%", n)`. */
  function LevelArg(n: Byte): string
  {
    Decimal(n) + "%"
  }

  /** The step argument `format!("{}%{}", by, "+" or "-")`. */
  function NudgeArg(amount: Byte, up: bool): string
  {
    Decimal(amount) + "%" + (if up then "+" else "-")
  }

  /** The level argument carries the level: dropping its `%` leaves text that
      parses back to it, and the two nudge directions extend it differently. */
  lemma ArgsCarryLevel(n: Byte)
    ensures ParseU8(TrimEndMatches(LevelArg(n), "%")) == Some(n)
    ensures NudgeArg(n, true) == LevelArg(n) + "+" && NudgeArg(n, false) == LevelArg(n) + "-"
  {
    var digits := Decimal(n);
    var arg := LevelArg(n);
    assert arg[..|arg| - 1] == digits;
    assert EndsWith(arg, "%");
    assert !EndsWith(digits, "%") by {
      assert IsDigit(digits[|digits| - 1]);
    }
    DecimalParses(n);
  }

  /** `set_volume(new_value)`: levels above 100 are ignored; otherwise one
      `sset Master <n>%` command. */
  method SetVolume(log: Log, newValue: Byte)
    modifies log
    ensures newValue > 100 ==> log.issued == old(log.issued)
    ensures newValue <= 100 ==>
      log.issued == old(log.issued) + [Command("amixer", ["-D", "pulse", "sset", "Master", LevelArg(newValue)])]
  {
    if newValue > 100 {
      return;
    }
    log.Run(Command("amixer", ["-D", "pulse", "sset", "Master", LevelArg(newValue)]));
  }

  /** `nudge(by, nudge_up)`: one `sset Master <by>%+` or `<by>%-` command, `amount` standing for `by`. */
  method Nudge(log: Log, amount: Byte, nudgeUp: bool)
    modifies log
    ensures log.issued == old(log.issued) + [Command("amixer", ["-D", "pulse", "sset", "Master", NudgeArg(amount, nudgeUp)])]
  {
    var nudgeSymbol := if nudgeUp then "+" else "-";
    log.Run(Command("amixer", ["-D", "pulse", "sset", "Master", Decimal(amount) + "%" + nudgeSymbol]));
  }
}
