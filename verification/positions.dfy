/** Character positions in a source text and the line lookups used to decorate error
    messages (org.smtlib.impl.Pos and Pos.Source). */
module Positions {
  import opened Wrappers

  /** The character a source yields past the last character it read
      (`CharSequenceInfinite.endChar`, taken to be U+FFFF). */
  const EndChar: char := '\U{FFFF}'

  /** A source of text: its characters and an optional designator of where they came from. */
  datatype Source = Source(chars: seq<char>, location: Option<string>)

  /** A range of characters in a source: `charStart` is the first character (0-based),
      `charEnd` one past the last; the source may be absent. The constructor stores the
      three values and the field selectors are the accessors. */
  datatype Pos = Pos(charStart: int, charEnd: int, source: Option<Source>)

  predicate IsTerminator(c: char) {
    c == '\n' || c == '\r'
  }

  /** The characters of a source as the scans see them: the text read, then the end marker. */
  predicate WellFormed(chars: seq<char>) {
    && |chars| > 0
    && chars[|chars| - 1] == EndChar
    && forall k | 0 <= k < |chars| - 1 :: chars[k] != EndChar
  }

  /** Position `pos` holds the `\n` of a `\r\n` pair. */
  predicate AtCrLfEnd(chars: seq<char>, pos: nat)
    requires pos < |chars|
  {
    pos > 0 && chars[pos] == '\n' && chars[pos - 1] == '\r'
  }

  /** Where `lineBeginning` starts scanning backwards: one step back over a `\r\n` pair. */
  function ScanStart(chars: seq<char>, pos: nat): (p: nat)
    requires pos < |chars|
    ensures p <= pos
  {
    if AtCrLfEnd(chars, pos) then pos - 1 else pos
  }

  /** The backward scan of `lineBeginning`: from `p` down to the first line terminator,
      answering the index just after it. */
  function ScanBack(chars: seq<char>, p: int): (r: nat)
    requires -1 <= p < |chars|
    ensures r <= p + 1
    ensures r == 0 || IsTerminator(chars[r - 1])
    ensures forall k | r <= k <= p :: !IsTerminator(chars[k])
    decreases p + 1
  {
    if p >= 0 && !IsTerminator(chars[p]) then ScanBack(chars, p - 1) else p + 1
  }

  /** The start of the line around `pos`: the index just after the last line terminator at
      or before the scan start, or 0. A lone terminator at `pos` is not stepped over, so the
      answer is then `pos + 1`; the `\n` of a `\r\n` pair answers `pos`. A negative
      position fails both scan tests at once and is answered `pos + 1`. */
  function LineBeginning(chars: seq<char>, pos: int): (r: int)
    requires pos < |chars|
    ensures pos < 0 ==> r == pos + 1
    ensures pos >= 0 ==> 0 <= r <= pos + 1
    ensures pos >= 0 ==> r == 0 || IsTerminator(chars[r - 1])
    ensures pos >= 0 ==> forall k | r <= k <= ScanStart(chars, pos) :: !IsTerminator(chars[k])
    ensures pos >= 0 && !IsTerminator(chars[pos]) ==> r <= pos
    ensures pos >= 0 && IsTerminator(chars[pos]) ==> r == (if AtCrLfEnd(chars, pos) then pos else pos + 1)
  {
    if pos < 0 then pos + 1 else ScanBack(chars, ScanStart(chars, pos))
  }

  /** The forward scan of `nextLineTermination`: the first index at or after `p` holding a
      line terminator or the end marker. */
  function ScanForward(chars: seq<char>, p: nat): (q: nat)
    requires WellFormed(chars) && p < |chars|
    ensures p <= q < |chars|
    ensures IsTerminator(chars[q]) || chars[q] == EndChar
    ensures forall k | p <= k < q :: !IsTerminator(chars[k]) && chars[k] != EndChar
    decreases |chars| - p
  {
    if IsTerminator(chars[p]) || chars[p] == EndChar then p else ScanForward(chars, p + 1)
  }

  /** The last character of the line terminator that ends the line holding `pos`, or the
      index just before the end marker. A `\r\n` pair is taken as one terminator, so the
      answer is then its `\n`. The answer is at least `pos` except when `pos` itself holds
      the end marker: then it is `pos - 1`, below the bound `\result >= pos` that the Java
      method's own specification states. */
  function NextLineTermination(chars: seq<char>, pos: nat): (r: int)
    requires WellFormed(chars) && pos < |chars|
    ensures pos - 1 <= r < |chars| - 1
    ensures chars[pos] != EndChar ==> r >= pos
    ensures chars[pos] == EndChar ==> r == pos - 1
    ensures forall k | pos <= k <= r :: chars[k] != EndChar
    ensures forall k | pos <= k < r :: !IsTerminator(chars[k]) || (k == r - 1 && chars[k] == '\r' && chars[r] == '\n')
    ensures (r >= 0 && IsTerminator(chars[r])) || chars[r + 1] == EndChar
    ensures r >= 0 && chars[r] == '\r' ==> chars[r + 1] != '\n'
  {
    var q := ScanForward(chars, pos);
    if chars[q] == '\r' && chars[q + 1] == '\n' then q + 1
    else if chars[q] == EndChar then q - 1
    else q
  }

  /** Characters that form at most one line: no end marker, and line terminators only as
      the trailing `\n`, `\r` or `\r\n`. */
  predicate IsOneLine(s: seq<char>) {
    && (forall k | 0 <= k < |s| :: s[k] != EndChar)
    && (forall k | 0 <= k < |s| && IsTerminator(s[k]) ::
          k == |s| - 1 || (k == |s| - 2 && s[k] == '\r' && s[k + 1] == '\n'))
  }

  predicate EndsWithTerminator(s: seq<char>) {
    |s| > 0 && IsTerminator(s[|s| - 1])
  }

  /** The characters from the line's beginning through its terminator hold no end marker and
      no terminator before the last one (counting a `\r\n` pair as one). */
  lemma LineBodyIsOneLine(chars: seq<char>, pos: nat)
    requires WellFormed(chars) && pos < |chars|
    ensures LineBeginning(chars, pos) <= NextLineTermination(chars, pos) + 1
    ensures IsOneLine(chars[LineBeginning(chars, pos)..NextLineTermination(chars, pos) + 1])
  {
  }

  /** The text of the line holding `pos`: the characters from the line's beginning through
      its terminator, with the system line separator `eol` appended when that text is empty
      or does not end with a terminator. */
  function TextLine(chars: seq<char>, pos: nat, eol: string): (line: string)
    requires WellFormed(chars) && pos < |chars|
    ensures LineBeginning(chars, pos) <= NextLineTermination(chars, pos) + 1
    ensures var body := chars[LineBeginning(chars, pos)..NextLineTermination(chars, pos) + 1];
      && IsOneLine(body)
      && (line == body || line == body + eol)
      && (EndsWithTerminator(body) ==> line == body)
      && (!EndsWithTerminator(body) ==> line == body + eol)
    ensures EndsWithTerminator(eol) ==> EndsWithTerminator(line)
    ensures !IsTerminator(chars[pos]) && chars[pos] != EndChar ==>
      LineBeginning(chars, pos) <= pos <= NextLineTermination(chars, pos)
  {
    LineBodyIsOneLine(chars, pos);
    var b := LineBeginning(chars, pos);
    var e := NextLineTermination(chars, pos);
    var s := chars[b..e + 1];
    var c := if |s| == 0 then ' ' else s[|s| - 1];
    if !IsTerminator(c) then s + eol else s
  }

  /** Whether a line break ends at index `i`: every `\r` does, and a `\n` does unless it
      completes a `\r\n` pair. */
  predicate IsBreakAt(chars: seq<char>, i: nat)
    requires i < |chars|
  {
    chars[i] == '\r' || (chars[i] == '\n' && !(i > 0 && chars[i - 1] == '\r'))
  }

  /** The number of line breaks among the first `n` characters, a `\r\n` pair counting once. */
  ghost function Breaks(chars: seq<char>, n: nat): nat
    requires n <= |chars|
  {
    if n == 0 then 0 else Breaks(chars, n - 1) + (if IsBreakAt(chars, n - 1) then 1 else 0)
  }

  /** The 1-based number of the line holding `pos`; a position at or before the start of the
      text is on line 1. */
  method LineNumber(chars: seq<char>, pos: int) returns (line: nat)
    requires pos < |chars|
    ensures line == 1 + Breaks(chars, if pos < 0 then 0 else pos)
    ensures line >= 1
    ensures pos <= 0 ==> line == 1
  {
    var bound: nat := if pos < 0 then 0 else pos;
    line := 1;
    var i := 0;
    while i < pos
      invariant 0 <= i <= bound + 1
      invariant line == 1 + Breaks(chars, if i <= bound then i else bound)
      invariant 0 < i < |chars| ==> !(chars[i - 1] == '\r' && chars[i] == '\n')
      decreases bound + 1 - i
    {
      var c := chars[i];
      if c == '\n' {
        line := line + 1;
      } else if c == '\r' {
        line := line + 1;
        if chars[i + 1] == '\n' {
          i := i + 1;
        }
      }
      i := i + 1;
    }
  }
}
