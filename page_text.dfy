/**
 * Reading values out of the text a page renders: the score (the first run of
 * digits), a cell's integer value (an ASCII model of Python's int()), and the
 * game-over flag (a substring test on the overlay's inline style). Both players
 * read the page the same way.
 */
module PageText {
  import opened Common

  predicate IsDigit(c: char) {
    '0' <= c <= '9'
  }

  predicate AllDigits(s: string) {
    forall k :: 0 <= k < |s| ==> IsDigit(s[k])
  }

  predicate NoDigits(s: string) {
    forall k :: 0 <= k < |s| ==> !IsDigit(s[k])
  }

  function DigitValue(c: char): nat
    requires IsDigit(c)
  {
    (c as int) - ('0' as int)
  }

  /** The number denoted by a run of decimal digits, most significant first. */
  function DigitsValue(s: string): nat
    requires AllDigits(s)
  {
    if s == [] then 0 else DigitsValue(s[..|s| - 1]) * 10 + DigitValue(s[|s| - 1])
  }

  function DigitChar(d: nat): (c: char)
    requires d < 10
    ensures IsDigit(c) && DigitValue(c) == d
  {
    ('0' as int + d) as char
  }

  /** The decimal rendering of `n`, as a page would show it. */
  function Decimal(n: nat): (s: string)
    ensures s != [] && AllDigits(s)
  {
    if n < 10 then [DigitChar(n)] else Decimal(n / 10) + [DigitChar(n % 10)]
  }

  lemma {:induction false} DecimalValue(n: nat)
    ensures DigitsValue(Decimal(n)) == n
  {
    if n >= 10 {
      DecimalValue(n / 10);
      var s := Decimal(n);
      assert s[..|s| - 1] == Decimal(n / 10);
    }
  }

  // ---------------------------------------------------------------------------
  // Score: the first maximal run of digits (a search for \d+), or 0.

  /** Index of the first digit of `s`, or |s| when there is none. */
  function FirstDigit(s: string): (i: nat)
    ensures i <= |s| && NoDigits(s[..i])
    ensures i < |s| ==> IsDigit(s[i])
  {
    if s == [] || IsDigit(s[0]) then 0
    else
      var i := 1 + FirstDigit(s[1..]);
      assert forall k :: 1 <= k < i ==> s[..i][k] == s[1..][..i - 1][k - 1];
      i
  }

  /** End of the run of digits that starts at `i`. */
  function DigitRunEnd(s: string, i: nat): (j: nat)
    requires i <= |s|
    ensures i <= j <= |s| && AllDigits(s[i..j])
    ensures j < |s| ==> !IsDigit(s[j])
    ensures i < |s| && IsDigit(s[i]) ==> i < j
    decreases |s| - i
  {
    if i < |s| && IsDigit(s[i]) then
      var j := DigitRunEnd(s, i + 1);
      assert forall k :: i <= k < j ==> s[i..j][k - i] == s[k];
      assert forall k :: i + 1 <= k < j ==> s[i + 1..j][k - i - 1] == s[k];
      j
    else i
  }

  /** Bounds of the first maximal run of digits in `s`, if it has a digit. */
  function FirstDigitRun(s: string): (r: Option<(nat, nat)>)
    ensures r.None? <==> NoDigits(s)
    ensures r.Some? ==>
      var (i, j) := r.value;
      i < j <= |s| && NoDigits(s[..i]) && AllDigits(s[i..j]) && (j < |s| ==> !IsDigit(s[j]))
  {
    var i := FirstDigit(s);
    if i == |s| then
      assert s[..i] == s;
      None
    else
      Some((i, DigitRunEnd(s, i)))
  }

  /**
   * The score shown by the score element, given its inner text, or None when
   * the page has no score element.
   */
  function ScoreOf(scoreText: Option<string>): (score: nat)
    ensures scoreText.None? ==> score == 0
    ensures scoreText.Some? && NoDigits(scoreText.value) ==> score == 0
  {
    match scoreText
    case None => 0
    case Some(s) =>
      match FirstDigitRun(s)
      case None => 0
      case Some((i, j)) => DigitsValue(s[i..j])
  }

  /** Any run of digits that starts after a digit-free prefix and is maximal is the score. */
  lemma ScoreIsFirstRun(s: string, i: nat, j: nat)
    requires i < j <= |s| && NoDigits(s[..i]) && AllDigits(s[i..j])
    requires j < |s| ==> !IsDigit(s[j])
    ensures ScoreOf(Some(s)) == DigitsValue(s[i..j])
  {
    var i' := FirstDigit(s);
    assert forall k :: 0 <= k < i' ==> s[..i'][k] == s[k];
    assert forall k :: 0 <= k < i ==> s[..i][k] == s[k];
    assert IsDigit(s[i]) by { assert s[i..j][0] == s[i]; }
    assert i' == i;
    var j' := DigitRunEnd(s, i);
    assert forall k :: i <= k < j' ==> s[i..j'][k - i] == s[k];
    assert forall k :: i <= k < j ==> s[i..j][k - i] == s[k];
    assert j' == j;
  }

  /** Reading back a number rendered between text that holds no adjacent digit yields that number. */
  lemma ScoreOfRendered(prefix: string, n: nat, suffix: string)
    requires NoDigits(prefix)
    requires suffix != [] ==> !IsDigit(suffix[0])
    ensures ScoreOf(Some(prefix + Decimal(n) + suffix)) == n
  {
    var d := Decimal(n);
    var s := prefix + d + suffix;
    var i, j := |prefix|, |prefix| + |d|;
    assert s[..i] == prefix;
    assert s[i..j] == d;
    assert j < |s| ==> s[j] == suffix[0];
    ScoreIsFirstRun(s, i, j);
    DecimalValue(n);
  }

  lemma ScoreExample()
    ensures ScoreOf(Some("Score: 1234")) == 1234
  {
    assert Decimal(1234) == "1234";
    assert "Score: " + Decimal(1234) + "" == "Score: 1234";
    ScoreOfRendered("Score: ", 1234, "");
  }

  /** A label without digits, and a page without a score element, read as 0. */
  lemma ScoreWithoutDigits()
    ensures ScoreOf(Some("Score:")) == 0
    ensures ScoreOf(None) == 0
  {
  }

  // ---------------------------------------------------------------------------
  // Cell values: int() on the cell's text.

  /**
   * Python's int() on a cell text, restricted to ASCII: an optional sign
   * followed by one or more decimal digits; anything else is None (the
   * ValueError the players catch).
   */
  function ParseInt(s: string): (r: Option<int>)
    ensures r.Some? ==> s != []
    ensures s != [] && AllDigits(s) ==> r == Some(DigitsValue(s))
    ensures r.Some? && r.value < 0 ==> s[0] == '-'
    ensures r.Some? <==>
      (s != [] && AllDigits(s)) || (|s| >= 2 && (s[0] == '-' || s[0] == '+') && AllDigits(s[1..]))
    ensures r.Some? && |s| >= 2 && s[0] == '-' ==> r.value == -(DigitsValue(s[1..]) as int)
    ensures r.Some? && |s| >= 2 && s[0] == '+' ==> r.value == DigitsValue(s[1..])
  {
    if s != [] && (s[0] == '-' || s[0] == '+') then
      var d := s[1..];
      if d != [] && AllDigits(d) then
        Some(if s[0] == '-' then -(DigitsValue(d) as int) else DigitsValue(d))
      else None
    else if s != [] && AllDigits(s) then Some(DigitsValue(s))
    else None
  }

  /** int() reads back every rendered integer. */
  lemma ParseIntDecimal(n: nat)
    ensures ParseInt(Decimal(n)) == Some(n)
    ensures ParseInt("-" + Decimal(n)) == Some(-(n as int))
    ensures ParseInt("+" + Decimal(n)) == Some(n)
  {
    DecimalValue(n);
    assert ("-" + Decimal(n))[1..] == Decimal(n);
    assert ("+" + Decimal(n))[1..] == Decimal(n);
  }

  // ---------------------------------------------------------------------------
  // Game-over flag: the overlay's style contains "display: flex".

  /** Python's `t in s` on strings. */
  predicate Contains(s: string, t: string)
    decreases |s|
  {
    t <= s || (s != [] && Contains(s[1..], t))
  }

  lemma {:induction false} ContainsAt(s: string, t: string)
    ensures Contains(s, t) <==> exists i :: 0 <= i <= |s| && t <= s[i..]
    decreases |s|
  {
    assert s[0..] == s;
    if s != [] {
      ContainsAt(s[1..], t);
      if Contains(s, t) && !(t <= s) {
        var i :| 0 <= i <= |s| - 1 && t <= s[1..][i..];
        assert s[1..][i..] == s[i + 1..];
      }
      if exists i :: 0 <= i <= |s| && t <= s[i..] {
        var i :| 0 <= i <= |s| && t <= s[i..];
        if i > 0 {
          assert s[1..][i - 1..] == s[i..];
        }
      }
    }
  }

  /** The game-over overlay element: absent, or present with an optional style attribute. */
  datatype Overlay = Absent | Present(style: Option<string>)

  const FlexDisplay: string := "display: flex"

  function IsGameOver(overlay: Overlay): (over: bool)
    ensures over <==>
      overlay.Present? &&
      var style := overlay.style.GetOr("");
      exists i :: 0 <= i <= |style| && FlexDisplay <= style[i..]
  {
    match overlay
    case Absent => false
    case Present(style) =>
      ContainsAt(style.GetOr(""), FlexDisplay);
      Contains(style.GetOr(""), FlexDisplay)
  }
}
