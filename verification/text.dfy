/** String helpers: substring search, decimal rendering of numerals, concatenation and joining. */
module Text {

  /** `w` occurs in `s` starting at index `i`. */
  predicate OccursAt(s: string, w: string, i: nat) {
    i + |w| <= |s| && s[i..i + |w|] == w
  }

  /** Java's `String.contains`: `w` occurs somewhere in `s`. */
  predicate Contains(s: string, w: string) {
    exists i: nat | i <= |s| :: OccursAt(s, w, i)
  }

  /** Every text that contains "unsat" also contains "sat"; this is why a check reply
      must be searched for "unsat" before "sat". */
  lemma UnsatContainsSat(s: string)
    requires Contains(s, "unsat")
    ensures Contains(s, "sat")
  {
    var i: nat :| i <= |s| && OccursAt(s, "unsat", i);
    assert s[i + 2..i + 5] == s[i..i + 5][2..5];
    assert OccursAt(s, "sat", i + 2);
  }

  predicate IsDigit(c: char) {
    '0' <= c <= '9'
  }

  function DigitChar(d: nat): (c: char)
    requires d < 10
    ensures IsDigit(c)
  {
    "0123456789"[d]
  }

  function DigitValue(c: char): (d: nat)
    requires IsDigit(c)
    ensures d < 10
  {
    (c as int - '0' as int) as nat
  }

  /** The canonical decimal rendering of a natural number (Java's `BigInteger.toString()`). */
  function NatToString(n: nat): (r: string)
    ensures |r| >= 1
    ensures forall i | 0 <= i < |r| :: IsDigit(r[i])
    decreases n
  {
    if n < 10 then [DigitChar(n)] else NatToString(n / 10) + [DigitChar(n % 10)]
  }

  /** The value of a string of decimal digits. */
  function DigitsValue(s: string): nat
    requires forall i | 0 <= i < |s| :: IsDigit(s[i])
  {
    if |s| == 0 then 0 else 10 * DigitsValue(s[..|s| - 1]) + DigitValue(s[|s| - 1])
  }

  /** Reading the rendering of a numeral back gives the numeral, and the rendering has no
      leading zero: a rendering that starts with `0` is exactly `0`. */
  lemma {:induction false} NatToStringRoundTrip(n: nat)
    ensures DigitsValue(NatToString(n)) == n
    ensures NatToString(n)[0] == '0' ==> n == 0
    ensures NatToString(n)[0] == '0' ==> NatToString(n) == "0"
    decreases n
  {
    var r := NatToString(n);
    if n < 10 {
      assert r == [DigitChar(n)];
      assert DigitValue(DigitChar(n)) == n;
    } else {
      var q := NatToString(n / 10);
      NatToStringRoundTrip(n / 10);
      assert r[..|r| - 1] == q;
      assert DigitValue(DigitChar(n % 10)) == n % 10;
      assert r[0] == q[0];
    }
  }

  /** The concatenation of a sequence of strings, in order. */
  function Concat(ss: seq<string>): string {
    if |ss| == 0 then "" else Concat(ss[..|ss| - 1]) + ss[|ss| - 1]
  }

  lemma {:induction false} ConcatAppend(ss: seq<string>, t: seq<string>)
    ensures Concat(ss + t) == Concat(ss) + Concat(t)
    decreases |t|
  {
    if |t| == 0 {
      assert ss + t == ss;
    } else {
      var t' := t[..|t| - 1];
      var last := t[|t| - 1];
      ConcatAppend(ss, t');
      assert (ss + t)[..|ss + t| - 1] == ss + t';
      assert Concat(ss + t) == Concat(ss + t') + last;
      assert Concat(t) == Concat(t') + last;
      assert Concat(ss) + Concat(t') + last == Concat(ss) + (Concat(t') + last);
    }
  }

  /** The strings of `xs` separated by `sep`. */
  function Join(sep: string, xs: seq<string>): string {
    if |xs| == 0 then "" else if |xs| == 1 then xs[0] else xs[0] + sep + Join(sep, xs[1..])
  }

  /** Each string of `xs` preceded by a single space. */
  function Spaced(xs: seq<string>): (r: seq<string>)
    ensures |r| == |xs|
    ensures forall i | 0 <= i < |xs| :: r[i] == " " + xs[i]
  {
    seq(|xs|, i requires 0 <= i < |xs| => " " + xs[i])
  }

  /** Prefixing every element with a space and concatenating is joining with spaces
      behind a leading space. */
  lemma {:induction false} SpacedIsJoin(xs: seq<string>)
    requires |xs| >= 1
    ensures Concat(Spaced(xs)) == " " + Join(" ", xs)
    decreases |xs|
  {
    if |xs| == 1 {
      assert Spaced(xs) == [" " + xs[0]];
      assert Concat(Spaced(xs)) == Concat([]) + (" " + xs[0]);
    } else {
      var tail := xs[1..];
      SpacedIsJoin(tail);
      assert Spaced(xs) == [" " + xs[0]] + Spaced(tail);
      ConcatAppend([" " + xs[0]], Spaced(tail));
      assert Concat([" " + xs[0]]) == Concat([]) + (" " + xs[0]);
    }
  }

  /** Spacing distributes over appending one more string. */
  lemma SpacedAppend(ss: seq<string>, rs: string)
    ensures Concat(Spaced(ss + [rs])) == Concat(Spaced(ss)) + (" " + rs)
  {
    var all := Spaced(ss + [rs]);
    assert all[..|ss|] == Spaced(ss);
    assert Concat(all) == Concat(all[..|ss|]) + all[|ss|];
  }

  /** Adding one more spaced string extends the space-separated join. */
  lemma SpacedSnoc(ss: seq<string>, rs: string)
    ensures Concat(Spaced(ss)) + (" " + rs) == " " + Join(" ", ss + [rs])
  {
    SpacedAppend(ss, rs);
    SpacedIsJoin(ss + [rs]);
  }
}
