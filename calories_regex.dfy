/** A matcher for the one regular expression the recipe parser uses,
    `/:\s*(\d+)\s*calorie/`, without a general regular-expression engine.

    `\s` and `\d` match disjoint sets of characters, so backtracking cannot change
    how a match that starts at a given position is decomposed: the white space
    before the digits, the digits and the white space after them are each the
    longest run there is. `PatternAt` states the regular expression declaratively;
    `MatchAt` computes the greedy decomposition; `Match` is `String.prototype.match`
    without the global flag, which reports the leftmost match and its first group. */
module CaloriesRegex {
  import opened Wrappers
  import opened JsBuiltins

  /** The literal that closes the pattern (case-sensitive). */
  const CalorieWord: string := "calorie"

  /** Every character of `s` from index `i` up to (not including) `j` is a digit. */
  predicate DigitsBetween(s: string, i: nat, j: nat) {
    i <= j <= |s| && forall k | i <= k < j :: IsDigit(s[k])
  }

  /** The literal `w` appears in `s` at index `c`, compared character by character. */
  predicate LiteralAt(s: string, w: string, c: nat) {
    c + |w| <= |s| && forall k | 0 <= k < |w| :: s[c + k] == w[k]
  }

  lemma LiteralAtIsSitsAt(s: string, w: string, c: nat)
    ensures LiteralAt(s, w, c) <==> SitsAt(s, w, c)
  {
    if SitsAt(s, w, c) {
      forall k | 0 <= k < |w| ensures s[c + k] == w[k] {
        assert s[c + k] == w[k];
      }
    }
  }

  /** The regular expression matches `s` at `p` with `w1` characters of white space
      after the colon, the `n` digits of the captured group, then `w2` characters of
      white space and the word "calorie". */
  predicate PatternAt(s: string, p: nat, w1: nat, n: nat, w2: nat) {
    p < |s| && s[p] == ':' &&
    SpacesBetween(s, p + 1, p + 1 + w1) &&
    0 < n && DigitsBetween(s, p + 1 + w1, p + 1 + w1 + n) &&
    SpacesBetween(s, p + 1 + w1 + n, p + 1 + w1 + n + w2) &&
    LiteralAt(s, CalorieWord, p + 1 + w1 + n + w2)
  }

  /** The length of the longest run of white space from index `i`: what a greedy
      `\s*` consumes there. */
  function SpaceRun(s: string, i: nat): (n: nat)
    requires i <= |s|
    ensures SpacesBetween(s, i, i + n)
    ensures i + n == |s| || !IsSpace(s[i + n])
    decreases |s| - i
  {
    if i < |s| && IsSpace(s[i]) then 1 + SpaceRun(s, i + 1) else 0
  }

  /** The length of the longest run of digits from index `i`: what a greedy `\d+`
      consumes there (when it is not zero). */
  function DigitRun(s: string, i: nat): (n: nat)
    requires i <= |s|
    ensures DigitsBetween(s, i, i + n)
    ensures i + n == |s| || !IsDigit(s[i + n])
    decreases |s| - i
  {
    if i < |s| && IsDigit(s[i]) then 1 + DigitRun(s, i + 1) else 0
  }

  /** The captured group of the match that starts at `p`, if the pattern matches there. */
  function MatchAt(s: string, p: nat): (g: Option<string>)
    ensures g.Some? ==> |g.value| > 0 && AllDigits(g.value)
  {
    if p < |s| && s[p] == ':' then
      var a := p + 1 + SpaceRun(s, p + 1);
      var b := a + DigitRun(s, a);
      var c := b + SpaceRun(s, b);
      if a < b && LiteralAt(s, CalorieWord, c) then Some(s[a..b]) else None
    else
      None
  }

  /** A run of white space is determined by where it stops. */
  lemma SpaceRunStopsAt(s: string, i: nat, m: nat)
    requires SpacesBetween(s, i, i + m)
    requires i + m == |s| || !IsSpace(s[i + m])
    ensures SpaceRun(s, i) == m
  {
  }

  /** A run of digits is determined by where it stops. */
  lemma DigitRunStopsAt(s: string, i: nat, m: nat)
    requires DigitsBetween(s, i, i + m)
    requires i + m == |s| || !IsDigit(s[i + m])
    ensures DigitRun(s, i) == m
  {
  }

  /** Any way the pattern can match at `p` is the one `MatchAt` finds, so the
      captured group does not depend on the order in which a backtracking engine
      tries the alternatives. */
  lemma MatchAtComplete(s: string, p: nat, w1: nat, n: nat, w2: nat)
    requires PatternAt(s, p, w1, n, w2)
    ensures MatchAt(s, p) == Some(s[p + 1 + w1..p + 1 + w1 + n])
  {
    var a, b, c := p + 1 + w1, p + 1 + w1 + n, p + 1 + w1 + n + w2;
    assert s[c + 0] == CalorieWord[0];
    assert IsDigit(s[a]);
    SpaceRunStopsAt(s, p + 1, w1);
    assert !IsDigit(s[b]) by {
      if w2 != 0 { assert IsSpace(s[b]); }
    }
    DigitRunStopsAt(s, a, n);
    SpaceRunStopsAt(s, b, w2);
  }

  /** Whatever `MatchAt` reports is a match of the pattern, with the group it captures. */
  lemma MatchAtSound(s: string, p: nat)
    requires MatchAt(s, p).Some?
    ensures exists w1: nat, w2: nat ::
              (PatternAt(s, p, w1, |MatchAt(s, p).value|, w2) &&
               MatchAt(s, p).value == s[p + 1 + w1..p + 1 + w1 + |MatchAt(s, p).value|])
  {
    var g := MatchAt(s, p).value;
    var w1 := SpaceRun(s, p + 1);
    var a := p + 1 + w1;
    var n := DigitRun(s, a);
    var w2 := SpaceRun(s, a + n);
    assert g == s[a..a + n] && 0 < n && LiteralAt(s, CalorieWord, a + n + w2);
    assert PatternAt(s, p, w1, |g|, w2) && g == s[a..a + |g|];
  }

  /** The pattern matches at `p` exactly when `MatchAt` reports a group there. */
  lemma MatchAtIffPattern(s: string, p: nat)
    ensures MatchAt(s, p).Some? <==> exists w1: nat, n: nat, w2: nat :: PatternAt(s, p, w1, n, w2)
  {
    if MatchAt(s, p).Some? {
      MatchAtSound(s, p);
    } else {
      forall w1: nat, n: nat, w2: nat ensures !PatternAt(s, p, w1, n, w2) {
        if PatternAt(s, p, w1, n, w2) {
          MatchAtComplete(s, p, w1, n, w2);
          assert false;
        }
      }
    }
  }

  /** A match reported by `match`: where it starts and the text of group 1. */
  datatype RegexMatch = RegexMatch(index: nat, group: string)

  /** The leftmost match that starts at `from` or later. */
  function FirstMatchFrom(s: string, from: nat): (m: Option<RegexMatch>)
    requires from <= |s|
    ensures m.Some? ==> from <= m.value.index < |s| && MatchAt(s, m.value.index) == Some(m.value.group)
    ensures forall q | from <= q < |s| && (m.None? || q < m.value.index) :: MatchAt(s, q).None?
    decreases |s| - from
  {
    if from == |s| then None
    else match MatchAt(s, from)
      case Some(g) => Some(RegexMatch(from, g))
      case None => FirstMatchFrom(s, from + 1)
  }

  /** `s.match(/:\s*(\d+)\s*calorie/)`: the leftmost match, or `None` for `null`. */
  function Match(s: string): (m: Option<RegexMatch>)
    ensures m.Some? ==> |m.value.group| > 0 && AllDigits(m.value.group)
  {
    FirstMatchFrom(s, 0)
  }

  /** `match` reports the leftmost position at which the pattern matches, with the
      digits that position captures. */
  lemma MatchIsLeftmost(s: string, p: nat, w1: nat, n: nat, w2: nat)
    requires PatternAt(s, p, w1, n, w2)
    requires forall q: nat, v1: nat, m: nat, v2: nat | q < p :: !PatternAt(s, q, v1, m, v2)
    ensures Match(s) == Some(RegexMatch(p, s[p + 1 + w1..p + 1 + w1 + n]))
  {
    MatchAtComplete(s, p, w1, n, w2);
    var m := Match(s);
    if m.Some? && m.value.index < p {
      MatchAtSound(s, m.value.index);
      assert false;
    }
  }

  /** `match` yields `null` exactly when the pattern matches nowhere in `s`. */
  lemma NoMatchIffNoPattern(s: string)
    ensures Match(s).None? <==>
      forall p: nat, w1: nat, n: nat, w2: nat :: !PatternAt(s, p, w1, n, w2)
  {
    if Match(s).None? {
      forall p: nat, w1: nat, n: nat, w2: nat ensures !PatternAt(s, p, w1, n, w2) {
        if PatternAt(s, p, w1, n, w2) {
          MatchAtComplete(s, p, w1, n, w2);
          assert false;
        }
      }
    } else {
      MatchAtSound(s, Match(s).value.index);
    }
  }
}
