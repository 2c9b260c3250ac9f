/**
 * The parts of PHP's string runtime the plugin relies on: `trim` with its
 * default character list, `empty()` on a string, and the decimal rendering
 * of a non-negative integer when it is concatenated to a string.
 *
 * A string is the sequence of its Unicode code points. `trim` strips only
 * ASCII characters, and no byte of a multi-byte UTF-8 sequence is ASCII, so
 * trimming the code points gives the same string as trimming the bytes.
 */
module PhpRuntime {

  /** A string as the sequence of its Unicode code points. */
  type CodePoints = seq<int>

  const Nul: int := 0x00
  const Tab: int := 0x09
  const LineFeed: int := 0x0A
  const VerticalTab: int := 0x0B
  const CarriageReturn: int := 0x0D
  const Space: int := 0x20
  const DigitZero: int := 0x30
  const DigitNine: int := 0x39

  /** The characters `trim` strips when it is given no character list. */
  predicate IsTrimSpace(c: int) {
    c == Space || c == Tab || c == LineFeed || c == CarriageReturn || c == Nul || c == VerticalTab
  }

  predicate AllTrimSpace(s: CodePoints) {
    forall i | 0 <= i < |s| :: IsTrimSpace(s[i])
  }

  /** `ltrim($s)`. */
  function TrimStart(s: CodePoints): CodePoints {
    if s != [] && IsTrimSpace(s[0]) then TrimStart(s[1..]) else s
  }

  /** `rtrim($s)`. */
  function TrimEnd(s: CodePoints): CodePoints {
    if s != [] && IsTrimSpace(s[|s| - 1]) then TrimEnd(s[..|s| - 1]) else s
  }

  /** `trim($s)`. */
  function Trim(s: CodePoints): CodePoints {
    TrimEnd(TrimStart(s))
  }

  /** `ltrim` keeps a suffix, drops only trim characters, and stops at the first other one. */
  lemma {:induction false} TrimStartSpec(s: CodePoints)
    ensures var r := TrimStart(s);
      && |r| <= |s| && r == s[|s| - |r|..]
      && AllTrimSpace(s[..|s| - |r|])
      && (r != [] ==> !IsTrimSpace(r[0]))
  {
    if s != [] && IsTrimSpace(s[0]) {
      TrimStartSpec(s[1..]);
      var r := TrimStart(s[1..]);
      assert s[..|s| - |r|] == [s[0]] + s[1..][..|s| - 1 - |r|];
    }
  }

  /** `rtrim` keeps a prefix, drops only trim characters, and stops at the last other one. */
  lemma {:induction false} TrimEndSpec(s: CodePoints)
    ensures var r := TrimEnd(s);
      && |r| <= |s| && r == s[..|r|]
      && AllTrimSpace(s[|r|..])
      && (r != [] ==> !IsTrimSpace(r[|r| - 1]))
  {
    if s != [] && IsTrimSpace(s[|s| - 1]) {
      TrimEndSpec(s[..|s| - 1]);
      var r := TrimEnd(s[..|s| - 1]);
      assert s[|r|..] == s[..|s| - 1][|r|..] + [s[|s| - 1]];
    }
  }

  /** `trim` leaves nothing exactly when the string is made only of trim characters. */
  lemma TrimEmptyIffBlank(s: CodePoints)
    ensures Trim(s) == [] <==> AllTrimSpace(s)
  {
    TrimStartSpec(s);
    var t := TrimStart(s);
    TrimEndSpec(t);
    if !AllTrimSpace(s) {
      var i :| 0 <= i < |s| && !IsTrimSpace(s[i]);
      assert i >= |s| - |t| && t[i - (|s| - |t|)] == s[i];
    }
  }

  /** A string that does not start with a trim character keeps its first character through `trim`. */
  lemma TrimKeepsFirst(s: CodePoints)
    requires s != [] && !IsTrimSpace(s[0])
    ensures Trim(s) != [] && Trim(s)[0] == s[0]
  {
    assert TrimStart(s) == s;
    TrimEndSpec(s);
  }

  /** PHP's `empty()` on a string: true for `""` and for `"0"`. */
  predicate PhpEmpty(s: CodePoints) {
    s == [] || s == [DigitZero]
  }

  predicate IsDigit(c: int) {
    DigitZero <= c <= DigitNine
  }

  /**
   * The string PHP makes of a non-negative integer (as in `'x' . time()`):
   * its decimal digits, most significant first, without leading zeros.
   */
  function DecimalDigits(n: nat): (r: CodePoints)
    ensures |r| >= 1
    ensures forall i | 0 <= i < |r| :: IsDigit(r[i])
    ensures r[0] == DigitZero ==> n == 0
    decreases n
  {
    if n < 10 then [DigitZero + n] else DecimalDigits(n / 10) + [DigitZero + n % 10]
  }

  /** The number a string of decimal digits denotes. */
  function DecimalValue(digits: CodePoints): int {
    if digits == [] then 0
    else DecimalValue(digits[..|digits| - 1]) * 10 + (digits[|digits| - 1] - DigitZero)
  }

  /** Reading back the digits of `n` gives `n`. */
  lemma {:induction false} DecimalRoundTrip(n: nat)
    ensures DecimalValue(DecimalDigits(n)) == n
    decreases n
  {
    if n >= 10 {
      var d := DecimalDigits(n);
      assert d[..|d| - 1] == DecimalDigits(n / 10);
      DecimalRoundTrip(n / 10);
    }
  }
}
