/** Value types shared by every part of the model: optional values, bytes and
    the handful of .NET string primitives the analyser relies on. */
module Common {

  /** A value that may be absent: C#'s `null` for a reference. */
  datatype Option<+T> = None | Some(value: T)

  /** One octet of an address. */
  newtype byte = x: int | 0 <= x < 256

  /** Char.IsWhiteSpace: the control characters U+0009..U+000D, U+0085, and the
      Unicode space, line and paragraph separators. */
  predicate IsWhiteSpace(c: char) {
    || ('\t' <= c <= '\r')
    || c == ' '
    || c == '\U{0085}'
    || c == '\U{00A0}'
    || c == '\U{1680}'
    || ('\U{2000}' <= c <= '\U{200A}')
    || c == '\U{2028}'
    || c == '\U{2029}'
    || c == '\U{202F}'
    || c == '\U{205F}'
    || c == '\U{3000}'
  }

  /** string.IsNullOrWhiteSpace on a string that may be null. */
  predicate IsNullOrWhiteSpace(s: Option<string>) {
    s.None? || forall i :: 0 <= i < |s.value| ==> IsWhiteSpace(s.value[i])
  }

  /** What C# string concatenation makes of a possibly null string. */
  function OrEmpty(s: Option<string>): string {
    if s.Some? then s.value else ""
  }

  /** The decimal digit for 0..9. */
  function Digit(d: nat): (c: char)
    requires d < 10
    ensures '0' <= c <= '9' && DigitValue(c) == d
  {
    ('0' as int + d) as char
  }

  /** The value of a decimal digit. */
  function DigitValue(c: char): int {
    c as int - '0' as int
  }

  /** The number a string of decimal digits denotes, most significant first. */
  function DecimalValue(s: string): int
    decreases |s|
  {
    if s == [] then 0 else DecimalValue(s[..|s| - 1]) * 10 + DigitValue(s[|s| - 1])
  }

  /** Int32.ToString() on a non-negative value: its decimal numeral, which
      reads back as the value. */
  function Decimal(n: nat): (s: string)
    ensures 1 <= |s|
    ensures forall i :: 0 <= i < |s| ==> '0' <= s[i] <= '9'
    ensures n >= 10 ==> s[0] != '0'
    ensures DecimalValue(s) == n
  {
    if n < 10 then [Digit(n)]
    else
      var s := Decimal(n / 10) + [Digit(n % 10)];
      assert s[..|s| - 1] == Decimal(n / 10);
      s
  }

  /** Int32.ToString() on any value. */
  function IntText(n: int): string {
    if n < 0 then "-" + Decimal(-n) else Decimal(n)
  }

  /** string.TrimEnd(c): the string without every trailing occurrence of `c`. */
  function TrimEnd(s: string, c: char): (r: string)
    ensures r <= s
    ensures r == [] || r[|r| - 1] != c
    ensures forall i :: |r| <= i < |s| ==> s[i] == c
  {
    if s == [] || s[|s| - 1] != c then s else TrimEnd(s[..|s| - 1], c)
  }

  /** string.Split(sep): the pieces between the separators, in order; a
      string without a separator is one piece. */
  function Split(s: string, sep: char): (r: seq<string>)
    ensures |r| >= 1
    decreases |s|
  {
    if s == [] then [[]]
    else
      var pieces := Split(s[..|s| - 1], sep);
      if s[|s| - 1] == sep then pieces + [[]]
      else pieces[..|pieces| - 1] + [pieces[|pieces| - 1] + [s[|s| - 1]]]
  }

  /** A string without the separator splits into itself. */
  lemma {:induction false} SplitWithout(s: string, sep: char)
    requires forall i :: 0 <= i < |s| ==> s[i] != sep
    ensures Split(s, sep) == [s]
    decreases |s|
  {
    if s != [] {
      SplitWithout(s[..|s| - 1], sep);
      assert s[..|s| - 1] + [s[|s| - 1]] == s;
    }
  }

  /** Splitting at a separator splits each side on its own. */
  lemma {:induction false} SplitJoin(x: string, y: string, sep: char)
    ensures Split(x + [sep] + y, sep) == Split(x, sep) + Split(y, sep)
    decreases |y|
  {
    if y == [] {
      SplitSnoc(x, sep, sep);
      assert x + [sep] + y == x + [sep];
    } else {
      var init, c := y[..|y| - 1], y[|y| - 1];
      SplitJoin(x, init, sep);
      assert x + [sep] + y == (x + [sep] + init) + [c];
      assert y == init + [c];
      SplitSnoc(x + [sep] + init, c, sep);
      SplitSnoc(init, c, sep);
      ExtendLastPiece(Split(x, sep), Split(init, sep), c, sep);
    }
  }

  /** One more character either starts a new piece or extends the last. */
  lemma SplitSnoc(t: string, c: char, sep: char)
    ensures var pieces := Split(t, sep);
            Split(t + [c], sep)
              == if c == sep then pieces + [[]] else pieces[..|pieces| - 1] + [pieces[|pieces| - 1] + [c]]
  {
    assert (t + [c])[..|t|] == t;
  }

  /** What one more character does to the pieces of a concatenation. */
  lemma ExtendLastPiece(front: seq<string>, back: seq<string>, c: char, sep: char)
    requires |back| >= 1
    ensures var both := front + back;
            && (c == sep ==> both + [[]] == front + (back + [[]]))
            && (c != sep ==> both[..|both| - 1] + [both[|both| - 1] + [c]]
                             == front + (back[..|back| - 1] + [back[|back| - 1] + [c]]))
  {
    var both := front + back;
    assert both[..|both| - 1] == front + back[..|back| - 1];
  }
}
