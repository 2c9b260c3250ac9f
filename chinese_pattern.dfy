/**
 * The regular expression the plugin applies to a username,
 * `/^[\x{4e00}-\x{9fff}]+$/u`, as PCRE runs it on a string of code points:
 * `^` anchors at offset 0, the greedy `[...]+` takes the longest run of
 * code points in U+4E00..U+9FFF, and the engine then tries `$` after that
 * run, backing off one code point at a time while the run stays non-empty.
 *
 * Without the `D` modifier PCRE's `$` matches at the end of the subject and
 * also just before a newline that is its last character. `dollarEndOnly`
 * selects the `D` behaviour, where `$` matches only at the very end.
 *
 * The same pattern is also emitted as JavaScript with `\u` escapes
 * for the browser. There `$` without the `m` flag matches only at the very
 * end, so browser and server disagree on a CJK run followed by `"\n"`:
 * the browser rejects it and the server accepts it.
 */
module ChinesePattern {
  import opened PhpRuntime

  /** The bounds of the character class `[\x{4e00}-\x{9fff}]`. */
  const ClassFirst: int := 0x4E00
  const ClassLast: int := 0x9FFF

  predicate InClass(c: int) {
    ClassFirst <= c <= ClassLast
  }

  predicate AllInClass(s: CodePoints) {
    forall i | 0 <= i < |s| :: InClass(s[i])
  }

  /** Whether `$` matches at offset `i` of `s`. */
  predicate DollarAt(s: CodePoints, i: nat, dollarEndOnly: bool) {
    i == |s| || (!dollarEndOnly && i + 1 == |s| && s[i] == LineFeed)
  }

  /** How many code points the greedy `[...]+` consumes from the start of `s`. */
  function GreedyRun(s: CodePoints): (n: nat)
    ensures n <= |s|
  {
    if s == [] || !InClass(s[0]) then 0 else 1 + GreedyRun(s[1..])
  }

  /** The greedy run is a class run that ends at the end of `s` or before a non-class code point. */
  lemma {:induction false} GreedyRunSpec(s: CodePoints)
    ensures var n := GreedyRun(s);
      AllInClass(s[..n]) && (n < |s| ==> !InClass(s[n]))
  {
    if s != [] && InClass(s[0]) {
      GreedyRunSpec(s[1..]);
      var rest := GreedyRun(s[1..]);
      assert s[..1 + rest] == [s[0]] + s[1..][..rest];
    }
  }

  /** Backtracking: `$` is tried after `k`, `k - 1`, ..., `1` code points of the run. */
  function Backtrack(s: CodePoints, k: nat, dollarEndOnly: bool): bool
    requires k <= |s|
  {
    if k == 0 then false
    else DollarAt(s, k, dollarEndOnly) || Backtrack(s, k - 1, dollarEndOnly)
  }

  /** Backtracking from `k` succeeds exactly when `$` holds after some `j` in 1..k. */
  lemma {:induction false} BacktrackSpec(s: CodePoints, k: nat, dollarEndOnly: bool)
    requires k <= |s|
    ensures Backtrack(s, k, dollarEndOnly) <==> exists j :: 1 <= j <= k && DollarAt(s, j, dollarEndOnly)
  {
    if k > 0 {
      BacktrackSpec(s, k - 1, dollarEndOnly);
    }
  }

  /** `preg_match` of the pattern on `s`; its 1 and 0 are true and false. */
  function PregMatch(s: CodePoints, dollarEndOnly: bool): bool {
    Backtrack(s, GreedyRun(s), dollarEndOnly)
  }

  /** The strings the pattern describes: a non-empty class run at offset 0 that `$` can follow. */
  ghost predicate InLanguage(s: CodePoints, dollarEndOnly: bool) {
    exists k :: 1 <= k <= |s| && AllInClass(s[..k]) && DollarAt(s, k, dollarEndOnly)
  }

  /** A class run at the start of `s` is never longer than the greedy one. */
  lemma {:induction false} RunWithinGreedy(s: CodePoints, k: nat)
    requires k <= |s| && AllInClass(s[..k])
    ensures k <= GreedyRun(s)
  {
    if k > 0 {
      assert InClass(s[..k][0]);
      assert GreedyRun(s) == 1 + GreedyRun(s[1..]);
      assert s[1..][..k - 1] == s[..k][1..];
      RunWithinGreedy(s[1..], k - 1);
    }
  }

  /** The matcher accepts exactly the strings of the pattern's language. */
  lemma PregMatchIsLanguage(s: CodePoints, dollarEndOnly: bool)
    ensures PregMatch(s, dollarEndOnly) <==> InLanguage(s, dollarEndOnly)
  {
    var n := GreedyRun(s);
    GreedyRunSpec(s);
    BacktrackSpec(s, n, dollarEndOnly);
    if PregMatch(s, dollarEndOnly) {
      var j :| 1 <= j <= n && DollarAt(s, j, dollarEndOnly);
      assert s[..j] == s[..n][..j];
    }
    if InLanguage(s, dollarEndOnly) {
      var k :| 1 <= k <= |s| && AllInClass(s[..k]) && DollarAt(s, k, dollarEndOnly);
      RunWithinGreedy(s, k);
    }
  }

  /**
   * Backing off never helps: every code point inside the run is a class
   * character, neither the end nor a final newline, so the pattern matches
   * exactly when `$` holds right after the whole greedy run.
   */
  lemma NoBacktrackNeeded(s: CodePoints, dollarEndOnly: bool)
    ensures PregMatch(s, dollarEndOnly) <==> GreedyRun(s) >= 1 && DollarAt(s, GreedyRun(s), dollarEndOnly)
  {
    var n := GreedyRun(s);
    GreedyRunSpec(s);
    BacktrackSpec(s, n, dollarEndOnly);
    if PregMatch(s, dollarEndOnly) {
      var j :| 1 <= j <= n && DollarAt(s, j, dollarEndOnly);
      if j < n {
        assert s[..n][j] == s[j];
      }
    }
  }

  /**
   * The shape of an accepted string: one or more class code points, then,
   * only without the `D` modifier, optionally one final newline.
   */
  lemma PregMatchShape(s: CodePoints, dollarEndOnly: bool)
    ensures PregMatch(s, dollarEndOnly) <==>
      (s != [] && AllInClass(s)) ||
      (!dollarEndOnly && |s| >= 2 && s[|s| - 1] == LineFeed && AllInClass(s[..|s| - 1]))
  {
    NoBacktrackNeeded(s, dollarEndOnly);
    GreedyRunSpec(s);
    var n := GreedyRun(s);
    if s != [] && AllInClass(s) {
      RunWithinGreedy(s, |s|);
      assert s[..|s|] == s;
    }
    if !dollarEndOnly && |s| >= 2 && s[|s| - 1] == LineFeed && AllInClass(s[..|s| - 1]) {
      RunWithinGreedy(s, |s| - 1);
    }
    if n >= 1 && DollarAt(s, n, dollarEndOnly) && n == |s| {
      assert s[..n] == s;
    }
  }
}
