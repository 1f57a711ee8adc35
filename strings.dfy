/** The pieces of Rust's `str` API that the media services rely on:
    `split`, `trim_end_matches`, `trim_start_matches`, `u8` formatting with
    `{}` and `u8` parsing with `parse::<u8>()`. */
module Strings {
  import opened Wrappers
  import opened Bytes

  /** Index of the first `c` in `s` at or after `from`, if there is one. */
  function FindChar(s: string, c: char, from: nat): (r: Option<nat>)
    decreases |s| - from
    ensures r.Some? ==> from <= r.value < |s| && s[r.value] == c
    ensures r.Some? ==> forall k :: from <= k < r.value ==> s[k] != c
    ensures r.None? ==> forall k :: from <= k < |s| ==> s[k] != c
  {
    if from >= |s| then None
    else if s[from] == c then Some(from)
    else FindChar(s, c, from + 1)
  }

  /** The pieces joined back together with `sep` between each two. */
  function Join(parts: seq<string>, sep: char): string
    requires |parts| >= 1
  {
    if |parts| == 1 then parts[0] else parts[0] + [sep] + Join(parts[1..], sep)
  }

  /** `s.split(sep)`: the maximal `sep`-free pieces, always at least one
      (the empty string splits into one empty piece). */
  function Split(s: string, sep: char): (r: seq<string>)
    decreases |s|
    ensures |r| >= 1
    ensures forall i :: 0 <= i < |r| ==> sep !in r[i]
  {
    match FindChar(s, sep, 0)
    case None => [s]
    case Some(i) => [s[..i]] + Split(s[i + 1..], sep)
  }

  /** Joining the pieces with the separator gives the text back. */
  lemma {:induction false} SplitJoin(s: string, sep: char)
    ensures Join(Split(s, sep), sep) == s
    decreases |s|
  {
    match FindChar(s, sep, 0)
    case None =>
    case Some(i) =>
      var rest := Split(s[i + 1..], sep);
      SplitJoin(s[i + 1..], sep);
      assert s == s[..i] + [sep] + s[i + 1..];
      assert ([s[..i]] + rest)[1..] == rest;
  }

  /** `s` occurs in `t` as one whole `sep`-delimited piece starting at `i`. */
  predicate PieceAt(t: string, s: string, sep: char, i: nat)
  {
    && i + |s| <= |t|
    && t[i..i + |s|] == s
    && (i == 0 || t[i - 1] == sep)
    && (i + |s| == |t| || t[i + |s|] == sep)
  }

  /** A piece of the text after the first separator is a piece of the whole. */
  lemma PieceAfterSeparator(t: string, k: nat, s: string, sep: char, j: nat)
    requires k < |t| && t[k] == sep
    requires PieceAt(t[k + 1..], s, sep, j)
    ensures PieceAt(t, s, sep, k + 1 + j)
  {
    var tail := t[k + 1..];
    assert t[k + 1 + j..k + 1 + j + |s|] == tail[j..j + |s|];
    assert j > 0 ==> t[k + 1 + j - 1] == tail[j - 1];
    assert j + |s| < |tail| ==> t[k + 1 + j + |s|] == tail[j + |s|];
  }

  /** A piece of the whole that starts after the first separator is a piece
      of the text after it. */
  lemma PieceBeforeSeparator(t: string, k: nat, s: string, sep: char, i: nat)
    requires k < |t| && t[k] == sep && k < i
    requires PieceAt(t, s, sep, i)
    ensures PieceAt(t[k + 1..], s, sep, i - (k + 1))
  {
    var tail := t[k + 1..];
    var j := i - (k + 1);
    assert tail[j..j + |s|] == t[i..i + |s|];
    assert j > 0 ==> tail[j - 1] == t[i - 1];
    assert j + |s| < |tail| ==> tail[j + |s|] == t[i + |s|];
  }

  /** Every piece of `t` occurs in `t` bounded by separators or ends. */
  lemma {:induction false} SplitPieceOccurs(t: string, s: string, sep: char)
    requires s in Split(t, sep)
    ensures exists i :: 0 <= i <= |t| && PieceAt(t, s, sep, i)
    decreases |t|
  {
    match FindChar(t, sep, 0)
    case None =>
      assert Split(t, sep) == [t];
      assert PieceAt(t, s, sep, 0);
    case Some(k) =>
      var tail := t[k + 1..];
      assert Split(t, sep) == [t[..k]] + Split(tail, sep);
      if s == t[..k] {
        assert PieceAt(t, s, sep, 0);
      } else {
        assert s in Split(tail, sep);
        SplitPieceOccurs(tail, s, sep);
        var j :| 0 <= j <= |tail| && PieceAt(tail, s, sep, j);
        PieceAfterSeparator(t, k, s, sep, j);
      }
  }

  /** A separator-free piece at the start of `t` runs up to the first separator. */
  lemma FirstPiece(t: string, s: string, sep: char, k: nat)
    requires FindChar(t, sep, 0) == Some(k)
    requires sep !in s && PieceAt(t, s, sep, 0)
    ensures s == t[..k]
  {
    assert forall j :: 0 <= j < |s| ==> t[j] == s[j] != sep;
    assert |s| >= k;
    assert |s| <= k;
  }

  /** In a text without separators, the only piece is the whole text. */
  lemma WholePiece(t: string, s: string, sep: char, i: nat)
    requires FindChar(t, sep, 0).None? && PieceAt(t, s, sep, i)
    ensures s == t
  {
    assert i == 0;
    assert |s| == |t|;
    assert s == t[0..|t|];
  }

  /** A piece that does not start the text starts after the first separator. */
  lemma LaterPiece(t: string, s: string, sep: char, i: nat, k: nat)
    requires FindChar(t, sep, 0) == Some(k) && PieceAt(t, s, sep, i) && i > 0
    ensures k < i
  {
    assert t[i - 1] == sep;
  }

  /** Every separator-free occurrence bounded by separators or ends is a piece. */
  lemma {:induction false} OccurrenceIsPiece(t: string, s: string, sep: char, i: nat)
    requires sep !in s && PieceAt(t, s, sep, i)
    ensures s in Split(t, sep)
    decreases |t|
  {
    match FindChar(t, sep, 0)
    case None =>
      assert Split(t, sep) == [t];
      WholePiece(t, s, sep, i);
    case Some(k) =>
      var tail := t[k + 1..];
      SplitAtFirst(t, sep, k);
      if i == 0 {
        FirstPiece(t, s, sep, k);
        InCons(t[..k], Split(tail, sep), s);
      } else {
        LaterPiece(t, s, sep, i, k);
        PieceBeforeSeparator(t, k, s, sep, i);
        OccurrenceIsPiece(tail, s, sep, i - (k + 1));
        InCons(t[..k], Split(tail, sep), s);
      }
  }

  /** Splitting at the first separator: the first piece, then the pieces of the rest. */
  lemma SplitAtFirst(t: string, sep: char, k: nat)
    requires FindChar(t, sep, 0) == Some(k)
    ensures Split(t, sep) == [t[..k]] + Split(t[k + 1..], sep)
  {
  }

  /** Membership in a list with one more element in front. */
  lemma InCons(h: string, rest: seq<string>, s: string)
    requires s == h || s in rest
    ensures s in [h] + rest
  {
    if s == h {
      assert ([h] + rest)[0] == s;
    } else {
      var j :| 0 <= j < |rest| && rest[j] == s;
      assert ([h] + rest)[j + 1] == s;
    }
  }

  /** A `sep`-free string is one of the pieces of `t` exactly when it occurs
      in `t` bounded on both sides by `sep` or by an end of `t`. */
  lemma SplitPieces(t: string, s: string, sep: char)
    requires sep !in s
    ensures s in Split(t, sep) <==> exists i :: 0 <= i <= |t| && PieceAt(t, s, sep, i)
  {
    if s in Split(t, sep) {
      SplitPieceOccurs(t, s, sep);
    }
    if i :| 0 <= i <= |t| && PieceAt(t, s, sep, i) {
      OccurrenceIsPiece(t, s, sep, i);
    }
  }

  /** `s` has `pat` as a suffix. */
  predicate EndsWith(s: string, pat: string)
  {
    |pat| <= |s| && s[|s| - |pat|..] == pat
  }

  /** `k` copies of `pat`, one after another. */
  function Repeat(pat: string, k: nat): string
  {
    if k == 0 then [] else Repeat(pat, k - 1) + pat
  }

  /** `s.trim_end_matches(pat)`: every trailing repetition of `pat` removed. */
  function TrimEndMatches(s: string, pat: string): (r: string)
    requires |pat| > 0
    decreases |s|
    ensures r <= s
    ensures !EndsWith(r, pat)
  {
    if EndsWith(s, pat) then TrimEndMatches(s[..|s| - |pat|], pat) else s
  }

  /** Appending one more copy of `pat` after `k` copies gives `k + 1` copies. */
  lemma RepeatOneMore(r: string, pat: string, k: nat)
    ensures r + Repeat(pat, k) + pat == r + Repeat(pat, k + 1)
  {
    assert Repeat(pat, k + 1) == Repeat(pat, k) + pat;
  }

  /** What `trim_end_matches` removes is whole copies of the pattern: the
      text is the result followed by some number of copies. */
  lemma {:induction false} TrimEndCopies(s: string, pat: string)
    requires |pat| > 0
    decreases |s|
    ensures exists k :: s == TrimEndMatches(s, pat) + Repeat(pat, k)
  {
    var r := TrimEndMatches(s, pat);
    if EndsWith(s, pat) {
      var shorter := s[..|s| - |pat|];
      assert r == TrimEndMatches(shorter, pat);
      TrimEndCopies(shorter, pat);
      var k: nat :| shorter == r + Repeat(pat, k);
      assert s == shorter + pat;
      RepeatOneMore(r, pat, k);
    } else {
      assert s == r + Repeat(pat, 0);
    }
  }

  /** `s.trim_start_matches(c)`: every leading `c` removed. */
  function TrimStartMatches(s: string, c: char): (r: string)
    decreases |s|
    ensures |r| <= |s| && r == s[|s| - |r|..]
    ensures forall i :: 0 <= i < |s| - |r| ==> s[i] == c
    ensures r == [] || r[0] != c
  {
    if |s| > 0 && s[0] == c then
      var r := TrimStartMatches(s[1..], c);
      assert forall i :: 1 <= i < |s| ==> s[i] == s[1..][i - 1];
      r
    else s
  }

  /** A run of `k` line feeds. */
  function Newlines(k: nat): (r: string)
    ensures |r| == k && forall i :: 0 <= i < k ==> r[i] == '\n'
  {
    seq(k, _ => '\n')
  }

  /** Trimming trailing line feeds undoes appending them to a string that
      does not itself end in one. */
  lemma {:induction false} TrimNewlines(t: string, k: nat)
    requires t == [] || t[|t| - 1] != '\n'
    ensures TrimEndMatches(t + Newlines(k), "\n") == t
  {
    if k == 0 {
      assert t + Newlines(0) == t;
      assert !EndsWith(t, "\n");
    } else {
      var s := t + Newlines(k);
      assert EndsWith(s, "\n");
      assert s[..|s| - 1] == t + Newlines(k - 1);
      TrimNewlines(t, k - 1);
    }
  }

  predicate IsDigit(c: char)
  {
    '0' <= c <= '9'
  }

  predicate AllDigits(s: string)
  {
    forall i :: 0 <= i < |s| ==> IsDigit(s[i])
  }

  function DigitChar(d: nat): (c: char)
    requires d < 10
    ensures IsDigit(c)
  {
    ('0' as int + d) as char
  }

  function DigitValue(c: char): (d: nat)
    requires IsDigit(c)
    ensures d < 10 && DigitChar(d) == c
  {
    c as int - '0' as int
  }

  /** `format!("{}", n)`: decimal digits, most significant first, no leading zero. */
  function Decimal(n: nat): (r: string)
    ensures |r| >= 1 && AllDigits(r)
    ensures r[0] == '0' ==> r == "0"
  {
    if n < 10 then [DigitChar(n)] else Decimal(n / 10) + [DigitChar(n % 10)]
  }

  /** The number a string of decimal digits denotes. */
  function DigitsValue(s: string): nat
    requires AllDigits(s)
  {
    if s == [] then 0 else DigitsValue(s[..|s| - 1]) * 10 + DigitValue(s[|s| - 1])
  }

  /** Reading back what `Decimal` writes gives the number again. */
  lemma {:induction false} DecimalValue(n: nat)
    ensures DigitsValue(Decimal(n)) == n
  {
    if n >= 10 {
      var r := Decimal(n);
      assert r[..|r| - 1] == Decimal(n / 10);
      DecimalValue(n / 10);
    }
  }

  /** `s.parse::<u8>()`: an optional `+` sign, then one or more decimal digits
      (leading zeros allowed) denoting at most 255; anything else is an error. */
  function ParseU8(s: string): Option<Byte>
  {
    var digits := if |s| > 0 && s[0] == '+' then s[1..] else s;
    if digits == [] || !AllDigits(digits) then None
    else if DigitsValue(digits) > 255 then None
    else Some(DigitsValue(digits))
  }

  /** Parsing what `format!("{}", n)` writes for a byte returns that byte. */
  lemma DecimalParses(n: Byte)
    ensures ParseU8(Decimal(n)) == Some(n)
  {
    var r := Decimal(n);
    assert IsDigit(r[0]);
    DecimalValue(n);
  }
}
