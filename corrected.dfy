/**
 * The evidently intended behaviour where the plugin's code departs from it:
 * the username check with PCRE's `D` modifier, so that `$` matches only at
 * the very end, and a substitute login whose digits are Chinese numerals,
 * so that it passes the check it stands in for. The rewriting handlers are
 * restated on top of these two definitions.
 */
module Corrected {
  import opened PhpRuntime
  import opened ChinesePattern
  import Registration = ChineseOnlyRegistration

  /** The username check with `$` anchored at the very end of the string. */
  predicate IsChineseOnly(s: CodePoints) {
    if PhpEmpty(Trim(s)) then false else PregMatch(s, true)
  }

  /** Accepted exactly when the string is one or more code points in U+4E00..U+9FFF. */
  lemma IsChineseOnlyIsAllInClass(s: CodePoints)
    ensures IsChineseOnly(s) <==> s != [] && AllInClass(s)
  {
    PregMatchShape(s, true);
    if s != [] && AllInClass(s) {
      assert InClass(s[0]);
      TrimKeepsFirst(s);
    }
  }

  /** The corrected check differs from the original only on a class run followed by one newline. */
  lemma DiffersOnlyOnTrailingNewline(s: CodePoints)
    ensures IsChineseOnly(s) ==> Registration.IsChineseOnly(s)
    ensures Registration.IsChineseOnly(s) && !IsChineseOnly(s) <==>
      |s| >= 2 && s[|s| - 1] == LineFeed && AllInClass(s[..|s| - 1])
  {
    IsChineseOnlyIsAllInClass(s);
    Registration.IsChineseOnlyShape(s);
  }

  /** The Chinese numeral for the decimal digit `c`: 零 一 二 三 四 五 六 七 八 九. */
  function NumeralFor(c: int): (n: int)
    requires IsDigit(c)
    ensures InClass(n)
  {
    if c == DigitZero then 0x96F6
    else if c == DigitZero + 1 then 0x4E00
    else if c == DigitZero + 2 then 0x4E8C
    else if c == DigitZero + 3 then 0x4E09
    else if c == DigitZero + 4 then 0x56DB
    else if c == DigitZero + 5 then 0x4E94
    else if c == DigitZero + 6 then 0x516D
    else if c == DigitZero + 7 then 0x4E03
    else if c == DigitZero + 8 then 0x516B
    else 0x4E5D
  }

  /** Distinct digits get distinct numerals. */
  lemma NumeralForInjective(c: int, d: int)
    requires IsDigit(c) && IsDigit(d)
    ensures NumeralFor(c) == NumeralFor(d) ==> c == d
  {
  }

  /** The decimal digits of `n`, each written as its Chinese numeral. */
  function ChineseNumerals(n: nat): (r: CodePoints)
    ensures |r| == |DecimalDigits(n)| >= 1
    ensures AllInClass(r)
  {
    var d := DecimalDigits(n);
    seq(|d|, i requires 0 <= i < |d| => NumeralFor(d[i]))
  }

  /** The substitute login: `用户` followed by the numerals of `now`. */
  function Placeholder(now: nat): (p: CodePoints)
    ensures IsChineseOnly(p) && Registration.IsChineseOnly(p)
  {
    var numerals := ChineseNumerals(now);
    var p := [0x7528, 0x6237] + numerals;
    assert forall i | 2 <= i < |p| :: p[i] == numerals[i - 2];
    assert AllInClass(p);
    IsChineseOnlyIsAllInClass(p);
    DiffersOnlyOnTrailingNewline(p);
    p
  }

  /** Different timestamps give different substitute logins. */
  lemma PlaceholderInjective(a: nat, b: nat)
    ensures Placeholder(a) == Placeholder(b) ==> a == b
  {
    if Placeholder(a) == Placeholder(b) {
      var da, db := DecimalDigits(a), DecimalDigits(b);
      assert ChineseNumerals(a) == Placeholder(a)[2..] == ChineseNumerals(b);
      forall i | 0 <= i < |da|
        ensures da[i] == db[i]
      {
        assert ChineseNumerals(a)[i] == NumeralFor(da[i]);
        assert ChineseNumerals(b)[i] == NumeralFor(db[i]);
        NumeralForInjective(da[i], db[i]);
      }
      assert da == db;
      DecimalRoundTrip(a);
      DecimalRoundTrip(b);
    }
  }

  /** `pre_user_login_validation` with both corrections: its result always passes the check. */
  function PreUserLoginValidation(userLogin: CodePoints, now: nat): (r: CodePoints)
    ensures IsChineseOnly(r)
    ensures IsChineseOnly(userLogin) ==> r == userLogin
    ensures !IsChineseOnly(userLogin) ==> r == Placeholder(now)
  {
    if !IsChineseOnly(userLogin) then Placeholder(now) else userLogin
  }

  /**
   * `pre_insert_user_data` with both corrections: on creation the stored
   * user_login always passes the check, a passing one is kept, and no other
   * entry changes.
   */
  function PreInsertUserData(data: map<string, CodePoints>, update: bool, id: int, now: nat): (r: map<string, CodePoints>)
    ensures r.Keys == data.Keys
    ensures forall k | k in data && k != Registration.UserLoginKey :: r[k] == data[k]
    ensures update ==> r == data
    ensures !update && Registration.UserLoginKey in data ==> IsChineseOnly(r[Registration.UserLoginKey])
    ensures !update && Registration.UserLoginKey in data && !IsChineseOnly(data[Registration.UserLoginKey]) ==>
      r[Registration.UserLoginKey] == Placeholder(now)
    ensures Registration.UserLoginKey in data && IsChineseOnly(data[Registration.UserLoginKey]) ==> r == data
  {
    var key := Registration.UserLoginKey;
    if update then data
    else if key in data && !IsChineseOnly(data[key]) then data[key := Placeholder(now)]
    else data
  }
}
