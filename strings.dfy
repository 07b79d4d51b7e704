/** Small string vocabulary shared by the scanner model: prefixes and
    suffixes, substring search, Ruby's line structure (its `^` and `$`
    anchors work per line), decimal digits, `Integer#to_s` and `String#to_i`. */
module Strings {

  datatype Option<+T> = None | Some(value: T)

  predicate StartsWith(s: string, prefix: string) {
    |prefix| <= |s| && s[..|prefix|] == prefix
  }

  predicate EndsWith(s: string, suffix: string) {
    |suffix| <= |s| && s[|s| - |suffix|..] == suffix
  }

  /** `s.include?(part)` */
  predicate Contains(s: string, part: string)
    decreases |s|
  {
    StartsWith(s, part) || (|s| > 0 && Contains(s[1..], part))
  }

  /** `part` occurs in `s` starting at position `i`. */
  predicate OccursAt(s: string, part: string, i: int) {
    0 <= i && i + |part| <= |s| && s[i..i + |part|] == part
  }

  /** `include?` holds wherever the part occurs. */
  lemma {:induction false} ContainsAt(s: string, part: string, i: nat)
    requires OccursAt(s, part, i)
    ensures Contains(s, part)
    decreases i
  {
    if i > 0 {
      assert s[1..][i - 1..i - 1 + |part|] == s[i..i + |part|];
      ContainsAt(s[1..], part, i - 1);
    }
  }

  /** Conversely, `include?` holds only when the part occurs somewhere. */
  lemma {:induction false} ContainsWitness(s: string, part: string)
    requires Contains(s, part)
    ensures exists i :: OccursAt(s, part, i)
    decreases |s|
  {
    if StartsWith(s, part) {
      assert OccursAt(s, part, 0);
    } else {
      ContainsWitness(s[1..], part);
      var j :| OccursAt(s[1..], part, j);
      assert s[j + 1..j + 1 + |part|] == s[1..][j..j + |part|];
      assert OccursAt(s, part, j + 1);
    }
  }

  // ---------------------------------------------------------------------
  // Lines: Ruby's `^` matches after every "\n" and `$` before every "\n",
  // so a pattern anchored at both ends is matched against each line.

  /** The lines of `s`, split at every newline; there is always at least
      one (possibly empty) line. */
  function Lines(s: string): (r: seq<string>)
    ensures |r| >= 1
    decreases |s|
  {
    if s == [] then [[]]
    else
      var rest := Lines(s[1..]);
      if s[0] == '\n' then [[]] + rest else [[s[0]] + rest[0]] + rest[1..]
  }

  /** The lines glued back together with newlines. */
  function JoinLines(ls: seq<string>): string
    requires |ls| >= 1
    decreases |ls|
  {
    if |ls| == 1 then ls[0] else ls[0] + "\n" + JoinLines(ls[1..])
  }

  lemma {:induction false} JoinLinesCons(x: string, ls: seq<string>)
    requires |ls| >= 1
    ensures JoinLines([x] + ls) == x + "\n" + JoinLines(ls)
  {
    assert ([x] + ls)[1..] == ls;
  }

  lemma {:induction false} JoinLinesPrepend(c: char, ls: seq<string>)
    requires |ls| >= 1
    ensures JoinLines([[c] + ls[0]] + ls[1..]) == [c] + JoinLines(ls)
    decreases |ls|
  {
    var ls' := [[c] + ls[0]] + ls[1..];
    if |ls| > 1 {
      assert ls'[1..] == ls[1..];
    }
  }

  /** Splitting into lines and joining them again gives back the string,
      and no line holds a newline. */
  lemma {:induction false} LinesRoundTrip(s: string)
    ensures JoinLines(Lines(s)) == s
    ensures forall k :: 0 <= k < |Lines(s)| ==> '\n' !in Lines(s)[k]
    decreases |s|
  {
    if s != [] {
      LinesRoundTrip(s[1..]);
      var rest := Lines(s[1..]);
      if s[0] == '\n' {
        JoinLinesCons([], rest);
        assert s == [s[0]] + s[1..];
      } else {
        JoinLinesPrepend(s[0], rest);
        assert s == [s[0]] + s[1..];
        var r := Lines(s);
        forall k | 0 <= k < |r| ensures '\n' !in r[k] {
          if k > 0 { assert r[k] == rest[k]; }
        }
      }
    }
  }

  /** A string without a newline is a single line. */
  lemma {:induction false} SingleLine(s: string)
    requires '\n' !in s
    ensures Lines(s) == [s]
    decreases |s|
  {
    if s != [] {
      assert '\n' !in s[1..] by {
        forall k | 0 <= k < |s| - 1 ensures s[1..][k] != '\n' { assert s[1..][k] == s[k + 1]; }
      }
      SingleLine(s[1..]);
      assert s == [s[0]] + s[1..];
    }
  }

  // ---------------------------------------------------------------------
  // Digits, `String#to_i` and `Integer#to_s`.

  predicate IsDigit(c: char) {
    '0' <= c <= '9'
  }

  predicate AllDigits(s: string) {
    forall k :: 0 <= k < |s| ==> IsDigit(s[k])
  }

  function DigitOf(c: char): nat
    requires IsDigit(c)
  {
    (c as int - '0' as int) as nat
  }

  /** The run of decimal digits at the start of `s`. */
  function LeadingDigits(s: string): (r: string)
    ensures |r| <= |s| && r == s[..|r|] && AllDigits(r)
    ensures |r| < |s| ==> !IsDigit(s[|r|])
    decreases |s|
  {
    if s != [] && IsDigit(s[0]) then [s[0]] + LeadingDigits(s[1..]) else []
  }

  /** A digit string followed by anything that does not start with a digit
      has exactly that digit string as its leading digits. */
  lemma {:induction false} LeadingDigitsOf(d: string, rest: string)
    requires AllDigits(d)
    requires rest == [] || !IsDigit(rest[0])
    ensures LeadingDigits(d + rest) == d
    decreases |d|
  {
    if d != [] {
      assert (d + rest)[1..] == d[1..] + rest;
      LeadingDigitsOf(d[1..], rest);
      assert d == [d[0]] + d[1..];
    }
  }

  /** The value of a digit string, read most significant digit first. */
  function DigitValue(s: string): nat
    requires AllDigits(s)
    decreases |s|
  {
    if s == [] then 0 else 10 * DigitValue(s[..|s| - 1]) + DigitOf(s[|s| - 1])
  }

  /** Ruby's `String#to_i` on the strings that reach it here: the value of
      the leading digit run, 0 when there is none. */
  function ToI(s: string): nat {
    DigitValue(LeadingDigits(s))
  }

  /** Ruby's `Integer#to_s` for a non-negative integer: digits only, and
      no leading zero except in "0" itself. */
  function NatToString(n: nat): (r: string)
    ensures |r| >= 1 && AllDigits(r)
    ensures n == 0 <==> r == "0"
    ensures n > 0 ==> r[0] != '0'
    decreases n
  {
    var d := ['0' + (n % 10) as char];
    if n < 10 then d
    else
      var p := NatToString(n / 10);
      assert (p + d)[0] == p[0];
      p + d
  }

  /** `to_i` undoes `to_s`. */
  lemma {:induction false} ToIOfNatToString(n: nat)
    ensures ToI(NatToString(n)) == n
    decreases n
  {
    var s := NatToString(n);
    LeadingDigitsOf(s, []);
    assert s + [] == s;
    assert DigitOf(s[|s| - 1]) == n % 10;
    if n >= 10 {
      ToIOfNatToString(n / 10);
      var p := NatToString(n / 10);
      LeadingDigitsOf(p, []);
      assert p + [] == p;
      assert s[..|s| - 1] == p;
    } else {
      assert s[..|s| - 1] == [] && DigitValue(s[..|s| - 1]) == 0;
    }
  }

  lemma DigitsHaveNoNewline(s: string)
    requires AllDigits(s)
    ensures '\n' !in s
  {
  }
}
