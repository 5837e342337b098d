/** The JavaScript string and array built-ins that the recipe parser relies on,
    stated over Dafny sequences. A JavaScript string is a `seq<char>`, an array a
    `seq<T>`; integer arguments and results that may be negative (a relative slice
    index, the -1 of "not found") are kept as `int`. */
module JsBuiltins {

  /** The code points that JavaScript's `String.prototype.trim` removes and that the
      regular-expression class `\s` matches: WhiteSpace and LineTerminator. */
  predicate IsSpace(c: char) {
    c == '\t' || c == '\n' || c == '\U{B}' || c == '\U{C}' || c == '\r' || c == ' ' ||
    c == '\U{A0}' || c == '\U{1680}' || ('\U{2000}' <= c <= '\U{200A}') ||
    c == '\U{2028}' || c == '\U{2029}' || c == '\U{202F}' || c == '\U{205F}' ||
    c == '\U{3000}' || c == '\U{FEFF}'
  }

  /** Every character of `s` from index `i` up to (not including) `j` is white space. */
  predicate SpacesBetween(s: string, i: nat, j: nat) {
    i <= j <= |s| && forall k {:trigger IsSpace(s[k])} | i <= k < j :: IsSpace(s[k])
  }

  /** The regular-expression class `\d`: ASCII decimal digits only. */
  predicate IsDigit(c: char) {
    '0' <= c <= '9'
  }

  predicate AllDigits(s: string) {
    forall k | 0 <= k < |s| :: IsDigit(s[k])
  }

  /** `r` occurs in `s` at offset `a`, element by element: `r == s[a..a + |r|]`.
      This is the form contracts use. Its trigger needs an element of each side
      already at hand, so it never makes the solver build new index terms, whereas
      a postcondition `r == s[a..]` sends it into a loop once `a` is known to be 0.
      `OccursAt` below and `CaloriesRegex.LiteralAt` are the executable forms of the
      same relation; `OccursAtIsSitsAt` and `CaloriesRegex.LiteralAtIsSitsAt` say so. */
  ghost predicate SitsAt<T>(s: seq<T>, r: seq<T>, a: nat) {
    a + |r| <= |s| && forall i, j {:trigger s[i], r[j]} | 0 <= j < |r| && i == a + j :: s[i] == r[j]
  }

  // ---------------------------------------------------------------------------
  // trim


  /** Drops the leading white space. What the result is, the longest suffix of `s`
      that does not start with white space, is `TrimStartCutsSpace`. */
  function TrimStart(s: string): (r: string)
    ensures |r| <= |s|
    ensures r == [] || !IsSpace(r[0])
  {
    if s != [] && IsSpace(s[0]) then TrimStart(s[1..]) else s
  }

  /** `TrimStart` keeps a suffix of `s` and cuts off only white space. */
  lemma {:induction false} TrimStartCutsSpace(s: string)
    ensures SitsAt(s, TrimStart(s), |s| - |TrimStart(s)|)
    ensures SpacesBetween(s, 0, |s| - |TrimStart(s)|)
  {
    if s != [] && IsSpace(s[0]) {
      TrimStartCutsSpace(s[1..]);
    }
  }

  /** Drops the trailing white space. What the result is, the longest prefix of `s`
      that does not end with white space, is `TrimEndCutsSpace`. */
  function TrimEnd(s: string): (r: string)
    ensures |r| <= |s|
    ensures r == [] || !IsSpace(r[|r| - 1])
  {
    if s != [] && IsSpace(s[|s| - 1]) then TrimEnd(s[..|s| - 1]) else s
  }

  /** `TrimEnd` keeps a prefix of `s` and cuts off only white space. */
  lemma {:induction false} TrimEndCutsSpace(s: string)
    ensures SitsAt(s, TrimEnd(s), 0)
    ensures SpacesBetween(s, |TrimEnd(s)|, |s|)
  {
    if s != [] && IsSpace(s[|s| - 1]) {
      TrimEndCutsSpace(s[..|s| - 1]);
    }
  }

  /** `r` sits at offset `a` of `s` with nothing but white space around it. */
  ghost predicate SurroundedBySpace(s: string, r: string, a: nat) {
    SitsAt(s, r, a) &&
    SpacesBetween(s, 0, a) && SpacesBetween(s, a + |r|, |s|)
  }

  /** `String.prototype.trim`: the white space at both ends of `s` removed. Where
      the result sits in `s` is `TrimSurrounded`. */
  function Trim(s: string): (r: string)
    ensures |r| <= |s|
    ensures r == [] || (!IsSpace(r[0]) && !IsSpace(r[|r| - 1]))
  {
    var t := TrimStart(s);
    TrimEndCutsSpace(t);
    TrimEnd(t)
  }

  /** What `Trim` keeps sits in `s` after the leading white space that `TrimStart`
      drops, with only white space after it. */
  lemma TrimSurrounded(s: string)
    ensures SurroundedBySpace(s, Trim(s), |s| - |TrimStart(s)|)
  {
    var t := TrimStart(s);
    var r := TrimEnd(t);
    var a := |s| - |t|;
    TrimStartCutsSpace(s);
    TrimEndCutsSpace(t);
    forall k | 0 <= k < |r| ensures s[a + k] == r[k] {
      assert t[k] == r[k];
    }
    forall k | a + |r| <= k < |s| ensures IsSpace(s[k]) {
      assert s[k] == t[k - a];
    }
  }

  /** A string with only white space in front of a non-space character (or nothing)
      loses exactly that white space. */
  lemma {:induction false} TrimStartDropsLeadingSpace(s: string, a: nat)
    requires SpacesBetween(s, 0, a)
    requires a == |s| || !IsSpace(s[a])
    ensures TrimStart(s) == s[a..]
  {
    if a > 0 {
      assert IsSpace(s[0]);
      assert s[1..][a - 1..] == s[a..];
      TrimStartDropsLeadingSpace(s[1..], a - 1);
    }
  }

  /** A string with only white space after a non-space character (or nothing)
      loses exactly that white space. */
  lemma {:induction false} TrimEndDropsTrailingSpace(s: string, b: nat)
    requires SpacesBetween(s, b, |s|)
    requires b == 0 || !IsSpace(s[b - 1])
    ensures TrimEnd(s) == s[..b]
  {
    if b < |s| {
      assert IsSpace(s[|s| - 1]);
      var u := s[..|s| - 1];
      assert u[..b] == s[..b];
      TrimEndDropsTrailingSpace(u, b);
    }
  }

  /** `Trim(s)` is the only string that is surrounded by white space in `s` and has
      no white space at either end. */
  lemma TrimUnique(s: string, r: string, a: nat)
    requires SurroundedBySpace(s, r, a)
    requires r == [] || (!IsSpace(r[0]) && !IsSpace(r[|r| - 1]))
    ensures Trim(s) == r
  {
    if r == [] {
      assert SpacesBetween(s, 0, |s|);
      TrimStartDropsLeadingSpace(s, |s|);
    } else {
      assert s[a] == r[0];
      TrimStartDropsLeadingSpace(s, a);
      var t := s[a..];
      assert SpacesBetween(t, |r|, |t|) by {
        forall k | |r| <= k < |t| ensures IsSpace(t[k]) {
          assert t[k] == s[a + k];
        }
      }
      assert t[|r| - 1] == r[|r| - 1];
      TrimEndDropsTrailingSpace(t, |r|);
    }
  }

  /** Trimming twice is trimming once. */
  lemma TrimIdempotent(s: string)
    ensures Trim(Trim(s)) == Trim(s)
  {
    var r := Trim(s);
    assert SurroundedBySpace(r, r, 0);
    TrimUnique(r, r, 0);
  }

  // ---------------------------------------------------------------------------
  // slice

  /** How `slice` resolves one of its bounds: a negative bound counts back from the
      end, and the result is clamped into `0..len`. */
  function RelativeIndex(k: int, len: nat): (r: nat)
    ensures r <= len
    ensures 0 <= k <= len ==> r == k
    ensures k < 0 && 0 <= len + k ==> r == len + k
    ensures len < k ==> r == len
    ensures len + k < 0 ==> r == 0
  {
    if k < 0 then (if len + k < 0 then 0 else len + k)
    else if k < len then k
    else len
  }

  /** `Array.prototype.slice(start, end)`, and `String.prototype.slice`, which
      resolves its bounds the same way. */
  function Slice<T>(s: seq<T>, start: int, end: int): (r: seq<T>)
    ensures |r| <= |s|
    ensures RelativeIndex(end, |s|) <= RelativeIndex(start, |s|) ==> r == []
    ensures RelativeIndex(start, |s|) < RelativeIndex(end, |s|) ==>
      |r| == RelativeIndex(end, |s|) - RelativeIndex(start, |s|) && SitsAt(s, r, RelativeIndex(start, |s|))
    ensures |s| <= start ==> r == []
    ensures 0 <= start <= end <= |s| ==> |r| == end - start && SitsAt(s, r, start)
    ensures 0 <= end <= start ==> r == []
    ensures end == -1 && 0 <= start < |s| ==> |r| == |s| - 1 - start && SitsAt(s, r, start)
    ensures end == -1 && s == [] ==> r == []
  {
    var from, to := RelativeIndex(start, |s|), RelativeIndex(end, |s|);
    if from < to then
      var r := s[from..to];
      assert forall j | 0 <= j < |r| :: s[from + j] == r[j];
      r
    else []
  }

  /** `slice(start)` with the end left out, which stands for the length. */
  function SliceFrom<T>(s: seq<T>, start: int): (r: seq<T>)
    ensures 0 <= start <= |s| ==> |r| == |s| - start && SitsAt(s, r, start)
    ensures |s| <= start ==> r == []
  {
    Slice(s, start, |s|)
  }

  // ---------------------------------------------------------------------------
  // lastIndexOf, includes

  /** `p` occurs in `s` starting at index `i`: the comparison `lastIndexOf` and
      `includes` make. */
  predicate OccursAt(s: string, p: string, i: int) {
    0 <= i && i + |p| <= |s| && s[i..i + |p|] == p
  }

  lemma OccursAtIsSitsAt(s: string, p: string, i: int)
    ensures OccursAt(s, p, i) <==> 0 <= i && SitsAt(s, p, i)
  {
    if 0 <= i && SitsAt(s, p, i) {
      forall j | 0 <= j < |p| ensures s[i..i + |p|][j] == p[j] {
        assert s[i + j] == p[j];
      }
    }
  }

  /** The largest index up to `k` at which `p` occurs, or -1. */
  function LastOccurrenceUpTo(s: string, p: string, k: int): (r: int)
    ensures r == -1 || (r <= k && OccursAt(s, p, r))
    ensures forall i | r < i <= k :: !OccursAt(s, p, i)
    decreases k + 1
  {
    if k < 0 then -1
    else if OccursAt(s, p, k) then k
    else LastOccurrenceUpTo(s, p, k - 1)
  }

  /** `String.prototype.lastIndexOf(p)`: the start of the last occurrence of `p`
      in `s`, or -1 when `p` does not occur. */
  function LastIndexOf(s: string, p: string): (r: int)
    ensures r == -1 || OccursAt(s, p, r)
    ensures forall i | r < i :: !OccursAt(s, p, i)
  {
    LastOccurrenceUpTo(s, p, |s| - |p|)
  }

  /** `String.prototype.includes(sub)`. */
  predicate Includes(s: string, sub: string) {
    exists i | 0 <= i <= |s| - |sub| :: OccursAt(s, sub, i)
  }

  // ---------------------------------------------------------------------------
  // findIndex

  /** `k` is what `findIndex(p)` must return on `s`: the first index whose element
      satisfies `p`, or -1 when no element does. */
  ghost predicate IsFirstIndex<T>(s: seq<T>, p: T -> bool, k: int) {
    if k == -1 then forall i | 0 <= i < |s| :: !p(s[i])
    else 0 <= k < |s| && p(s[k]) && forall i | 0 <= i < k :: !p(s[i])
  }

  /** `Array.prototype.findIndex(p)`. */
  function FindIndex<T>(s: seq<T>, p: T -> bool): (r: int)
    ensures -1 <= r < |s|
    ensures 0 <= r ==> p(s[r])
    ensures forall i | 0 <= i < |s| && (r == -1 || i < r) :: !p(s[i])
  {
    if s == [] then -1
    else if p(s[0]) then 0
    else
      var r := FindIndex(s[1..], p);
      assert forall i | 1 <= i < |s| :: s[i] == s[1..][i - 1];
      if r == -1 then -1 else r + 1
  }

  /** There is exactly one answer `findIndex` may give. */
  lemma FindIndexIsFirst<T>(s: seq<T>, p: T -> bool, k: int)
    requires IsFirstIndex(s, p, k)
    ensures FindIndex(s, p) == k
  {
  }

  // ---------------------------------------------------------------------------
  // split, join

  /** `Array.prototype.join(sep)` on an array of strings. */
  function Join(lines: seq<string>, sep: char): string {
    if |lines| == 0 then []
    else if |lines| == 1 then lines[0]
    else lines[0] + [sep] + Join(lines[1..], sep)
  }

  function IsSeparator(sep: char): char -> bool {
    c => c == sep
  }

  /** `String.prototype.split(sep)` with a one-character separator: the pieces
      between separators, never fewer than one, none containing the separator, and
      joined back with the separator they give `s` again. */
  function Split(s: string, sep: char): (lines: seq<string>)
    ensures |lines| >= 1
    ensures Join(lines, sep) == s
    ensures forall k | 0 <= k < |lines| :: sep !in lines[k]
    decreases |s|
  {
    var i := FindIndex(s, IsSeparator(sep));
    if i == -1 then
      [s]
    else
      var rest := Split(s[i + 1..], sep);
      assert s == s[..i] + [sep] + s[i + 1..];
      [s[..i]] + rest
  }

  /** Joining two or more pieces without the separator puts the first separator
      right after the first piece, followed by the join of the rest. */
  lemma JoinFirstSeparator(lines: seq<string>, sep: char)
    requires |lines| >= 2
    requires sep !in lines[0]
    ensures var s, n := Join(lines, sep), |lines[0]|;
      FindIndex(s, IsSeparator(sep)) == n && s[..n] == lines[0] && s[n + 1..] == Join(lines[1..], sep)
  {
    var s, n := Join(lines, sep), |lines[0]|;
    var rest := Join(lines[1..], sep);
    assert s == lines[0] + [sep] + rest;
    assert IsFirstIndex(s, IsSeparator(sep), n) by {
      forall i | 0 <= i < n ensures s[i] != sep {
        assert s[i] == lines[0][i];
      }
    }
    FindIndexIsFirst(s, IsSeparator(sep), n);
    assert s[..n] == lines[0];
    assert s[n + 1..] == rest;
  }

  /** Splitting undoes joining pieces that do not contain the separator. */
  lemma {:induction false} SplitJoin(lines: seq<string>, sep: char)
    requires |lines| >= 1
    requires forall k | 0 <= k < |lines| :: sep !in lines[k]
    ensures Split(Join(lines, sep), sep) == lines
  {
    if |lines| == 1 {
      assert FindIndex(lines[0], IsSeparator(sep)) == -1;
    } else {
      JoinFirstSeparator(lines, sep);
      SplitJoin(lines[1..], sep);
      assert lines == [lines[0]] + lines[1..];
    }
  }

  /** The first piece of a split is the text up to the first separator. */
  lemma SplitFirstPiece(s: string, sep: char)
    ensures var first := Split(s, sep)[0];
      first <= s && sep !in first && (|first| == |s| || s[|first|] == sep)
  {
  }

  // ---------------------------------------------------------------------------
  // toLowerCase

  /** ASCII lower-casing of one character. */
  function LowerChar(c: char): (r: char)
    ensures !('A' <= r <= 'Z')
    ensures 'a' <= r <= 'z' <==> 'a' <= c <= 'z' || 'A' <= c <= 'Z'
    ensures r == c || 'A' <= c <= 'Z'
    ensures 'A' <= c <= 'Z' ==> r as int - 'a' as int == c as int - 'A' as int
  {
    if 'A' <= c <= 'Z' then (c as int + 32) as char else c
  }

  /** `String.prototype.toLowerCase`, restricted to ASCII letters. */
  function ToLower(s: string): (r: string)
    ensures |r| == |s|
    ensures forall k | 0 <= k < |s| :: r[k] == LowerChar(s[k])
  {
    if s == [] then [] else [LowerChar(s[0])] + ToLower(s[1..])
  }

  /** `w` has no capital ASCII letter: lower-casing leaves it as it is. */
  predicate IsLowerCase(w: string) {
    forall k | 0 <= k < |w| :: LowerChar(w[k]) == w[k]
  }

  /** `w` occurs in `s` at `i` when the case of ASCII letters is ignored. */
  predicate OccursAtIgnoringCase(s: string, w: string, i: int) {
    0 <= i && i + |w| <= |s| && forall k | 0 <= k < |w| :: LowerChar(s[i + k]) == LowerChar(w[k])
  }

  /** Looking for a lower-case word in the lower-cased text finds it at `i` exactly
      when the text has it there in any mix of cases. */
  lemma OccursInLowerIff(s: string, w: string, i: int)
    requires IsLowerCase(w)
    ensures OccursAt(ToLower(s), w, i) <==> OccursAtIgnoringCase(s, w, i)
  {
    if 0 <= i && i + |w| <= |s| {
      var t := ToLower(s)[i..i + |w|];
      if OccursAtIgnoringCase(s, w, i) {
        forall k | 0 <= k < |w| ensures t[k] == w[k] {
          assert t[k] == ToLower(s)[i + k];
        }
      }
      if OccursAt(ToLower(s), w, i) {
        forall k | 0 <= k < |w| ensures LowerChar(s[i + k]) == LowerChar(w[k]) {
          assert t[k] == w[k];
        }
      }
    }
  }

  /** `s.toLowerCase().includes(w)`, for a lower-case `w`, is a case-insensitive
      search for `w` in `s`. */
  lemma IncludesInLowerIff(s: string, w: string)
    requires IsLowerCase(w)
    ensures Includes(ToLower(s), w) <==> exists i | 0 <= i <= |s| - |w| :: OccursAtIgnoringCase(s, w, i)
  {
    if Includes(ToLower(s), w) {
      var i :| 0 <= i <= |s| - |w| && OccursAt(ToLower(s), w, i);
      OccursInLowerIff(s, w, i);
    }
    if exists i | 0 <= i <= |s| - |w| :: OccursAtIgnoringCase(s, w, i) {
      var i :| 0 <= i <= |s| - |w| && OccursAtIgnoringCase(s, w, i);
      OccursInLowerIff(s, w, i);
    }
  }

  // ---------------------------------------------------------------------------
  // parseInt

  function DigitValue(c: char): (d: nat)
    requires IsDigit(c)
    ensures d < 10
  {
    c as int - '0' as int
  }

  function DigitChar(d: nat): (c: char)
    requires d < 10
    ensures IsDigit(c) && DigitValue(c) == d
  {
    ('0' as int + d) as char
  }

  function Pow10(n: nat): nat {
    if n == 0 then 1 else 10 * Pow10(n - 1)
  }

  /** `parseInt` on a non-empty run of decimal digits: its value in base ten, which
      is below ten to the number of digits. */
  function ParseInt(digits: string): (n: nat)
    requires |digits| > 0 && AllDigits(digits)
    ensures n < Pow10(|digits|)
    ensures n == 0 <==> forall k | 0 <= k < |digits| :: digits[k] == '0'
  {
    if |digits| == 1 then DigitValue(digits[0])
    else ParseInt(digits[..|digits| - 1]) * 10 + DigitValue(digits[|digits| - 1])
  }

  /** The decimal numeral of `n` without leading zeros, as `Number.prototype.toString`
      writes it. */
  function DecimalString(n: nat): (s: string)
    ensures |s| > 0 && AllDigits(s)
    ensures |s| > 1 ==> s[0] != '0'
  {
    if n < 10 then [DigitChar(n)] else DecimalString(n / 10) + [DigitChar(n % 10)]
  }

  /** `parseInt` reads back what `toString` writes. */
  lemma {:induction false} ParseIntOfDecimalString(n: nat)
    ensures ParseInt(DecimalString(n)) == n
  {
    if n >= 10 {
      var s := DecimalString(n);
      assert s[..|s| - 1] == DecimalString(n / 10);
      ParseIntOfDecimalString(n / 10);
    }
  }

  /** `parseInt` ignores leading zeros: "0320" is read as 320. */
  lemma {:induction false} ParseIntSkipsLeadingZero(digits: string)
    requires |digits| > 0 && AllDigits(digits)
    ensures ParseInt(['0'] + digits) == ParseInt(digits)
  {
    var z := ['0'] + digits;
    if |digits| > 1 {
      assert z[..|z| - 1] == ['0'] + digits[..|digits| - 1];
      ParseIntSkipsLeadingZero(digits[..|digits| - 1]);
    }
  }
}
