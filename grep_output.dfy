/** How the scanner cuts the output of `grep -n` into (line number,
    contents) pairs:

        str.split(/^(\d{1,}):|\n(\d{1,}):/)[1..-1]

    Ruby's `String#split` scans left to right for the leftmost match; the
    text between matches becomes a field and, because the pattern has
    groups, the group that took part in the match is emitted after it.
    `^` matches at the start of the string and after every newline.
    Trailing empty fields are dropped. The loop in the scanner then reads
    the list two tokens at a time. */
module GrepOutput {
  import opened Strings

  /** A line number as the pattern captures it: one or more digits. */
  predicate IsNumber(s: string) {
    |s| > 0 && AllDigits(s)
  }

  /** Length of the digit run of `(\d{1,}):` at the start of `s`, when that
      part of the pattern matches there. The greedy `\d{1,}` can only be
      followed by ':' if it took the whole digit run. */
  function NumberColon(s: string): (r: Option<nat>)
    ensures r.Some? ==> 0 < r.value < |s| && s[r.value] == ':' && IsNumber(s[..r.value])
  {
    var d := |LeadingDigits(s)|;
    if 0 < d < |s| && s[d] == ':' then Some(d) else None
  }

  /** A match of the pattern: how many characters it covers and the digits
      its group captured. */
  datatype Hit = Hit(length: nat, number: string)

  /** The match of the pattern that starts exactly at the front of `rest`,
      if any; `lineStart` tells whether the character before `rest` is a
      newline or there is none (where `^` holds). The first alternative
      needs a digit in front, the second a newline, so at most one applies. */
  function MatchHere(rest: string, lineStart: bool): (r: Option<Hit>)
    ensures r.Some? ==> 2 <= r.value.length <= |rest| && IsNumber(r.value.number)
  {
    if lineStart && NumberColon(rest).Some? then
      var k := NumberColon(rest).value;
      Some(Hit(k + 1, rest[..k]))
    else if |rest| > 0 && rest[0] == '\n' && NumberColon(rest[1..]).Some? then
      var k := NumberColon(rest[1..]).value;
      assert rest[1..k + 1] == rest[1..][..k];
      Some(Hit(k + 2, rest[1..k + 1]))
    else None
  }

  /** Odd positions of a split result hold captured line numbers. */
  predicate NumbersAtOdd(parts: seq<string>) {
    forall k :: 0 <= k < |parts| && k % 2 == 1 ==> IsNumber(parts[k])
  }

  /** The fields and captures `split` produces for the rest of the string,
      `field` being the text collected since the last match. */
  function SplitRest(rest: string, lineStart: bool, field: string): (r: seq<string>)
    ensures |r| >= 1
    decreases |rest|
  {
    if rest == [] then [field]
    else match MatchHere(rest, lineStart)
      case Some(h) => [field, h.number] + SplitRest(rest[h.length..], false, [])
      case None => SplitRest(rest[1..], rest[0] == '\n', field + [rest[0]])
  }

  /** Fields and captures alternate: the result has odd length and every
      odd position holds a captured number. */
  lemma {:induction false} SplitRestShape(rest: string, lineStart: bool, field: string)
    ensures |SplitRest(rest, lineStart, field)| % 2 == 1
    ensures NumbersAtOdd(SplitRest(rest, lineStart, field))
    decreases |rest|
  {
    if rest != [] {
      match MatchHere(rest, lineStart)
      case Some(h) =>
        SplitRestShape(rest[h.length..], false, []);
        NumbersAtOddCons(field, h.number, SplitRest(rest[h.length..], false, []));
      case None =>
        SplitRestShape(rest[1..], rest[0] == '\n', field + [rest[0]]);
    }
  }

  lemma NumbersAtOddCons(f: string, n: string, tail: seq<string>)
    requires IsNumber(n) && NumbersAtOdd(tail) && |tail| % 2 == 1
    ensures NumbersAtOdd([f, n] + tail) && |[f, n] + tail| % 2 == 1
  {
    var r := [f, n] + tail;
    forall k | 0 <= k < |r| && k % 2 == 1 ensures IsNumber(r[k]) {
      if k >= 2 { assert r[k] == tail[k - 2]; }
    }
  }

  /** Ruby drops the empty fields at the end of a split result. */
  function DropTrailingEmpty(parts: seq<string>): (r: seq<string>)
    ensures |r| <= |parts| && r == parts[..|r|]
    ensures r == [] || r[|r| - 1] != []
    ensures forall k :: |r| <= k < |parts| ==> parts[k] == []
    decreases |parts|
  {
    if |parts| > 0 && parts[|parts| - 1] == [] then DropTrailingEmpty(parts[..|parts| - 1]) else parts
  }

  /** `str.split(pattern)`. */
  function Split(s: string): seq<string> {
    DropTrailingEmpty(SplitRest(s, true, []))
  }

  /** `str.split(pattern)[1..-1]`: the tokens the scanner walks. For the
      empty string Ruby's split gives `[]`, whose `[1..-1]` is `nil`, not
      `[]`; the scanner never splits that string, since empty output takes
      the `~` branch before the split. */
  function Tokens(s: string): seq<string> {
    var parts := Split(s);
    if |parts| == 0 then [] else parts[1..]
  }

  /** Every token at an even position is a captured line number. */
  lemma TokenNumbers(s: string)
    ensures forall k :: 0 <= k < |Tokens(s)| && k % 2 == 0 ==> IsNumber(Tokens(s)[k])
  {
    var whole := SplitRest(s, true, []);
    SplitRestShape(s, true, []);
    var parts := Split(s);
    var r := Tokens(s);
    forall k | 0 <= k < |r| && k % 2 == 0 ensures IsNumber(r[k]) {
      assert r[k] == parts[k + 1] == whole[k + 1];
    }
  }

  /** A pair the scanner's loop reads: the token at an even position and
      the one after it, or `nil` (None) when the list ends first. */
  datatype RawMatch = RawMatch(lineNo: string, contents: Option<string>)

  /** The pairs visited by `while line_no_count > current_count ...
      current_count += 2`: one per even position, in order. */
  function Pairs(tokens: seq<string>): (r: seq<RawMatch>)
    ensures |r| == (|tokens| + 1) / 2
    ensures forall k :: 0 <= k < |r| ==>
      r[k].lineNo == tokens[2 * k] &&
      r[k].contents == (if 2 * k + 1 < |tokens| then Some(tokens[2 * k + 1]) else None)
    decreases |tokens|
  {
    if |tokens| == 0 then []
    else if |tokens| == 1 then [RawMatch(tokens[0], None)]
    else
      var rest := Pairs(tokens[2..]);
      var r := [RawMatch(tokens[0], Some(tokens[1]))] + rest;
      assert forall k :: 1 <= k < |r| ==> r[k] == rest[k - 1];
      r
  }

  /** Every line number the loop hands on is a digit string. */
  lemma PairNumbers(s: string)
    ensures forall k :: 0 <= k < |Pairs(Tokens(s))| ==> IsNumber(Pairs(Tokens(s))[k].lineNo)
  {
    var t := Tokens(s);
    var p := Pairs(t);
    TokenNumbers(s);
    forall k | 0 <= k < |p| ensures IsNumber(p[k].lineNo) {
      assert p[k].lineNo == t[2 * k];
      assert (2 * k) % 2 == 0;
    }
  }

  // ---------------------------------------------------------------------
  // What `grep -n` prints for one file: for every matching line its number,
  // a colon, the line and a newline.

  datatype GrepLine = GrepLine(number: string, text: string)

  /** Every line has a digit string for its number and no newline in its text. */
  predicate WellFormed(lines: seq<GrepLine>)
    decreases |lines|
  {
    lines == [] || (IsNumber(lines[0].number) && '\n' !in lines[0].text && WellFormed(lines[1..]))
  }

  function Render(lines: seq<GrepLine>): string
    decreases |lines|
  {
    if lines == [] then [] else lines[0].number + ":" + lines[0].text + "\n" + Render(lines[1..])
  }

  /** The pairs the scanner ought to see for those lines: each number with
      its text, the text of the last line keeping grep's final newline
      (the last field runs to the end of the output). */
  function Expected(lines: seq<GrepLine>): seq<RawMatch>
    decreases |lines|
  {
    if |lines| == 0 then []
    else if |lines| == 1 then [RawMatch(lines[0].number, Some(lines[0].text + "\n"))]
    else [RawMatch(lines[0].number, Some(lines[0].text))] + Expected(lines[1..])
  }

  /** One expected pair per line, in order: the line's number with its
      text, the last text ending in the newline grep printed. */
  lemma {:induction false} ExpectedShape(lines: seq<GrepLine>)
    ensures |Expected(lines)| == |lines|
    ensures forall k :: 0 <= k < |lines| ==>
      Expected(lines)[k] == RawMatch(lines[k].number, Some(lines[k].text + (if k == |lines| - 1 then "\n" else "")))
    decreases |lines|
  {
    if |lines| > 1 {
      ExpectedShape(lines[1..]);
      assert lines[0].text + "" == lines[0].text;
      forall k | 1 <= k < |lines|
        ensures Expected(lines)[k] == RawMatch(lines[k].number, Some(lines[k].text + (if k == |lines| - 1 then "\n" else "")))
      {
        assert Expected(lines)[k] == Expected(lines[1..])[k - 1];
        assert lines[1..][k - 1] == lines[k];
      }
    }
  }

  /** The split result after the first field `f`, for the remaining lines. */
  function Interleave(f: string, lines: seq<GrepLine>): (r: seq<string>)
    ensures |r| == 2 * |lines| + 1 && r[|r| - 1] != []
    decreases |lines|
  {
    if lines == [] then [f + "\n"] else [f, lines[0].number] + Interleave(lines[0].text, lines[1..])
  }

  /** `(\d{1,}):` matches a number followed by a colon, taking the number. */
  lemma NumberColonOf(n: string, after: string)
    requires IsNumber(n)
    ensures NumberColon(n + (":" + after)) == Some(|n|)
    ensures (n + (":" + after))[..|n|] == n
  {
    LeadingDigitsOf(n, ":" + after);
    assert (n + (":" + after))[|n|] == ':';
  }

  lemma SplitRestHit(rest: string, lineStart: bool, field: string, h: Hit)
    requires rest != [] && MatchHere(rest, lineStart) == Some(h)
    ensures SplitRest(rest, lineStart, field) == [field, h.number] + SplitRest(rest[h.length..], false, [])
  {
  }

  lemma SplitRestMiss(rest: string, lineStart: bool, field: string)
    requires rest != [] && MatchHere(rest, lineStart) == None
    ensures SplitRest(rest, lineStart, field) == SplitRest(rest[1..], rest[0] == '\n', field + [rest[0]])
  {
  }

  /** Text without newlines, seen after a match, contains no match. */
  lemma {:induction false} SkipText(t: string, rest: string, field: string)
    requires '\n' !in t
    ensures SplitRest(t + rest, false, field) == SplitRest(rest, false, field + t)
    decreases |t|
  {
    if t == [] {
      assert t + rest == rest && field + t == field;
    } else {
      assert (t + rest)[0] == t[0];
      assert (t + rest)[1..] == t[1..] + rest;
      assert MatchHere(t + rest, false) == None;
      SplitRestMiss(t + rest, false, field);
      assert '\n' !in t[1..] by {
        forall k | 0 <= k < |t| - 1 ensures t[1..][k] != '\n' { assert t[1..][k] == t[k + 1]; }
      }
      SkipText(t[1..], rest, field + [t[0]]);
      assert field + [t[0]] + t[1..] == field + t;
    }
  }

  lemma {:induction false} RenderCons(lines: seq<GrepLine>)
    requires |lines| > 0
    ensures Render(lines) == lines[0].number + (":" + (lines[0].text + ("\n" + Render(lines[1..]))))
  {
    var l := lines[0];
    var rest := Render(lines[1..]);
    assert l.number + ":" + l.text + "\n" + rest == l.number + (":" + (l.text + ("\n" + rest)));
  }

  /** At the start of the output, a number and a colon are a match of
      the first alternative. */
  lemma FirstAlternative(n: string, after: string)
    requires IsNumber(n)
    ensures MatchHere(n + (":" + after), true) == Some(Hit(|n| + 1, n))
    ensures (n + (":" + after))[|n| + 1..] == after
  {
    NumberColonOf(n, after);
  }

  /** A newline followed by a number and a colon is a match of the second
      alternative. */
  lemma SecondAlternative(n: string, after: string)
    requires IsNumber(n)
    ensures MatchHere("\n" + (n + (":" + after)), false) == Some(Hit(|n| + 2, n))
    ensures ("\n" + (n + (":" + after)))[|n| + 2..] == after
  {
    var x := "\n" + (n + (":" + after));
    assert x[1..] == n + (":" + after);
    NumberColonOf(n, after);
    assert x[1..|n| + 1] == x[1..][..|n|];
  }

  /** The newline that ends a line, followed by the next line's number,
      is a match of the second alternative. */
  lemma NextLineHit(lines: seq<GrepLine>)
    requires |lines| > 0 && IsNumber(lines[0].number)
    ensures MatchHere("\n" + Render(lines), false) == Some(Hit(|lines[0].number| + 2, lines[0].number))
    ensures ("\n" + Render(lines))[|lines[0].number| + 2..] == lines[0].text + ("\n" + Render(lines[1..]))
  {
    var l := lines[0];
    var after := l.text + ("\n" + Render(lines[1..]));
    RenderCons(lines);
    SecondAlternative(l.number, after);
  }

  /** After the text of one line, the rest of grep's output splits into
      the expected fields and numbers. */
  lemma {:induction false} AfterText(field: string, t: string, lines: seq<GrepLine>)
    requires '\n' !in t && WellFormed(lines)
    ensures SplitRest(t + ("\n" + Render(lines)), false, field) == Interleave(field + t, lines)
    decreases |lines|
  {
    var s := "\n" + Render(lines);
    SkipText(t, s, field);
    if lines == [] {
      assert s == "\n";
      assert NumberColon(s[1..]) == None;
      SplitRestMiss(s, false, field + t);
      assert s[1..] == [];
    } else {
      var l := lines[0];
      NextLineHit(lines);
      var h := Hit(|l.number| + 2, l.number);
      SplitRestHit(s, false, field + t, h);
      AfterText([], l.text, lines[1..]);
      assert [] + l.text == l.text;
    }
  }

  /** Output that starts with a number and a colon splits into an empty
      first field, the number, and the split of what follows. */
  lemma SplitAfterFirst(n: string, after: string)
    requires IsNumber(n)
    ensures SplitRest(n + (":" + after), true, []) == ["", n] + SplitRest(after, false, [])
  {
    FirstAlternative(n, after);
    SplitRestHit(n + (":" + after), true, [], Hit(|n| + 1, n));
  }

  lemma SplitOfRender(lines: seq<GrepLine>)
    requires WellFormed(lines) && |lines| > 0
    ensures SplitRest(Render(lines), true, []) == ["", lines[0].number] + Interleave(lines[0].text, lines[1..])
  {
    var l := lines[0];
    RenderCons(lines);
    SplitAfterFirst(l.number, l.text + ("\n" + Render(lines[1..])));
    AfterText([], l.text, lines[1..]);
    assert [] + l.text == l.text;
  }

  /** When the split starts with a match and ends in a non-empty field,
      nothing is dropped and the tokens are the split without its empty
      first field. */
  lemma TokensOfLeadingMatch(x: string, n: string, rest: seq<string>)
    requires SplitRest(x, true, []) == ["", n] + rest
    requires |rest| > 0 && rest[|rest| - 1] != []
    ensures Tokens(x) == [n] + rest
  {
    var whole := ["", n] + rest;
    assert whole[|whole| - 1] == rest[|rest| - 1];
    assert whole[1..] == [n] + rest;
  }

  /** The tokens of well-formed grep output: its numbers and texts in turn. */
  lemma TokensOfRender(lines: seq<GrepLine>)
    requires WellFormed(lines) && |lines| > 0
    ensures Tokens(Render(lines)) == [lines[0].number] + Interleave(lines[0].text, lines[1..])
  {
    SplitOfRender(lines);
    TokensOfLeadingMatch(Render(lines), lines[0].number, Interleave(lines[0].text, lines[1..]));
  }

  lemma {:induction false} PairsOfInterleave(n: string, t: string, lines: seq<GrepLine>)
    ensures Pairs([n] + Interleave(t, lines)) == Expected([GrepLine(n, t)] + lines)
    decreases |lines|
  {
    var all := [GrepLine(n, t)] + lines;
    if lines == [] {
      assert [n] + Interleave(t, lines) == [n, t + "\n"];
    } else {
      var l := lines[0];
      var tok := [n] + Interleave(t, lines);
      assert tok == [n, t] + ([l.number] + Interleave(l.text, lines[1..]));
      assert tok[2..] == [l.number] + Interleave(l.text, lines[1..]);
      PairsOfInterleave(l.number, l.text, lines[1..]);
      assert all[1..] == [l] + lines[1..];
    }
  }

  /** Tokenizer correctness: for output made of well-formed `N:text` lines,
      the loop sees exactly one pair per line, in order, with the line's
      number and text (the last text keeping the final newline), and the
      token list has even length. */
  lemma GrepOutputPairs(lines: seq<GrepLine>)
    requires WellFormed(lines) && |lines| > 0
    ensures |Tokens(Render(lines))| == 2 * |lines|
    ensures Pairs(Tokens(Render(lines))) == Expected(lines)
  {
    TokensOfRender(lines);
    PairsOfInterleave(lines[0].number, lines[0].text, lines[1..]);
    assert [GrepLine(lines[0].number, lines[0].text)] + lines[1..] == lines;
  }

  lemma OneLineSplit(n: string, t: string)
    requires IsNumber(n) && '\n' !in t
    ensures SplitRest(n + ":" + t, true, []) == ["", n, t]
  {
    var s := n + ":" + t;
    assert s == n + (":" + t);
    FirstAlternative(n, t);
    SplitRestHit(s, true, [], Hit(|n| + 1, n));
    SkipText(t, [], []);
    assert t + [] == t && [] + t == t;
  }

  /** Output that is a number, a colon and one line of text without a
      newline yields exactly one pair. */
  lemma OneLineOutput(n: string, t: string)
    requires IsNumber(n) && '\n' !in t && t != []
    ensures Tokens(n + ":" + t) == [n, t]
    ensures Pairs(Tokens(n + ":" + t)) == [RawMatch(n, Some(t))]
  {
    OneLineSplit(n, t);
    var parts := ["", n, t];
    assert DropTrailingEmpty(parts) == parts;
    assert parts[1..] == [n, t];
    assert [n, t][2..] == [];
  }
}
