/** What a whole scan promises (the progress string, the summary line, the
    order of the findings, the tagging of each), and what is recorded for
    one file: the size guard, and the two ways of attributing matches. */
module ScanProperties {
  import opened Strings
  import opened PathNames
  import opened GrepOutput
  import opened InnerHtml

  /** How often `c` occurs in `s`. */
  function Occurrences(s: string, c: char): nat
    decreases |s|
  {
    if s == [] then 0 else Occurrences(s[..|s| - 1], c) + (if s[|s| - 1] == c then 1 else 0)
  }

  lemma OccurrencesAppend(s: string, t: string, c: char)
    requires |t| <= 1
    ensures Occurrences(s + t, c) == Occurrences(s, c) + Occurrences(t, c)
  {
    if |t| == 1 {
      assert (s + t)[..|s + t| - 1] == s;
      assert t[..0] == [];
    } else {
      assert s + t == s;
    }
  }

  // ---------------------------------------------------------------------
  // Runs of outcomes.

  /** What one outcome contributes to the counts. */
  lemma SymbolMarks(o: Outcome)
    ensures |Symbol(o)| <= 1
    ensures Symbol(o) == [] <==> o.Skipped?
    ensures Occurrences(Symbol(o), 'x') == |Extra(o)|
    ensures Occurrences(Symbol(o), '~') == (if o.NoMatch? then 1 else 0)
  {
    assert "x"[..0] == [] && "~"[..0] == [];
  }

  /** One 'x' per finding, one '~' per outcome without output, nothing else. */
  lemma {:induction false} MarksCount(os: seq<Outcome>)
    ensures Occurrences(Marks(os), 'x') == |Collect(os)|
    ensures Occurrences(Marks(os), '~') + |Collect(os)| == |Marks(os)|
    decreases |os|
  {
    if os != [] {
      var o := os[|os| - 1];
      MarksCount(os[..|os| - 1]);
      SymbolMarks(o);
      OccurrencesAppend(Marks(os[..|os| - 1]), Symbol(o), 'x');
      OccurrencesAppend(Marks(os[..|os| - 1]), Symbol(o), '~');
    }
  }

  /** No symbol at all exactly when every outcome is a skip. */
  lemma {:induction false} MarksEmpty(os: seq<Outcome>)
    ensures Marks(os) == [] <==> forall k :: 0 <= k < |os| ==> os[k].Skipped?
    decreases |os|
  {
    if os != [] {
      var o := os[|os| - 1];
      var init := os[..|os| - 1];
      MarksEmpty(init);
      SymbolMarks(o);
      if forall k :: 0 <= k < |os| ==> os[k].Skipped? {
        assert forall k :: 0 <= k < |init| ==> init[k].Skipped? by {
          forall k | 0 <= k < |init| ensures init[k].Skipped? { assert init[k] == os[k]; }
        }
        assert Marks(os) == Marks(init) + [];
      } else if !o.Skipped? {
        assert |Marks(os)| > 0;
      } else {
        var k :| 0 <= k < |os| && !os[k].Skipped?;
        assert init[k] == os[k];
        assert Marks(os) == Marks(init) + [];
      }
    }
  }

  /** The findings of a prefix of the outcomes are a prefix of the findings,
      and likewise the symbols. */
  lemma {:induction false} CollectPrefix(os: seq<Outcome>, m: nat)
    requires m <= |os|
    ensures |Collect(os[..m])| <= |Collect(os)| && Collect(os)[..|Collect(os[..m])|] == Collect(os[..m])
    ensures StartsWith(Marks(os), Marks(os[..m]))
    decreases |os| - m
  {
    if m < |os| {
      var init := os[..|os| - 1];
      assert init[..m] == os[..m];
      CollectPrefix(init, m);
      PrefixAppend(Collect(os[..m]), Collect(init), Extra(os[|os| - 1]));
      PrefixAppend(Marks(os[..m]), Marks(init), Symbol(os[|os| - 1]));
    } else {
      assert os[..m] == os;
    }
  }

  /** Every finding comes from a flagged outcome. */
  lemma {:induction false} CollectSource(os: seq<Outcome>)
    ensures forall f :: f in Collect(os) ==> exists k :: 0 <= k < |os| && os[k] == Flagged(f)
    decreases |os|
  {
    if os != [] {
      var init := os[..|os| - 1];
      CollectSource(init);
      forall f | f in Collect(os) ensures exists k :: 0 <= k < |os| && os[k] == Flagged(f) {
        if f in Collect(init) {
          var k :| 0 <= k < |init| && init[k] == Flagged(f);
          assert os[k] == Flagged(f);
        } else {
          assert os[|os| - 1] == Flagged(f);
        }
      }
    }
  }

  /** A prefix stays a prefix when something is appended. */
  lemma PrefixAppend<T>(a: seq<T>, b: seq<T>, c: seq<T>)
    requires |a| <= |b| && b[..|a|] == a
    ensures |a| <= |b + c| && (b + c)[..|a|] == a
  {
    assert (b + c)[..|a|] == b[..|a|];
  }

  // ---------------------------------------------------------------------
  // The whole scan.

  /** The progress string holds one 'x' per finding returned and one '~'
      per applicable file whose search printed nothing, and nothing else. */
  lemma ProgressCountsFindings(env: Env, opts: ScanOptions, entries: seq<string>)
    ensures Occurrences(Progress(env, opts, entries, |entries|), 'x') == |Findings(env, opts, entries, |entries|)|
    ensures Occurrences(Progress(env, opts, entries, |entries|), '~') + |Findings(env, opts, entries, |entries|)| ==
            |Progress(env, opts, entries, |entries|)|
  {
    MarksCount(Outcomes(env, opts, entries, |entries|));
  }

  /** The progress string is empty exactly when no entry applies. */
  lemma ProgressEmptyIffNothingApplies(env: Env, opts: ScanOptions, entries: seq<string>)
    ensures Progress(env, opts, entries, |entries|) == [] <==> forall j :: 0 <= j < |entries| ==> !Applicable(env, entries[j])
  {
    var os := Outcomes(env, opts, entries, |entries|);
    MarksEmpty(os);
    forall j | 0 <= j < |entries| ensures os[j].Skipped? <==> !Applicable(env, entries[j]) {
      ExamineShape(env, opts, entries[j], env.clock(j));
    }
  }

  /** The summary line says that no file was applicable exactly when no
      entry passed the filter; otherwise it carries the progress string. */
  lemma SummaryWhenNothingApplies(env: Env, opts: ScanOptions, entries: seq<string>)
    ensures
      var summary := SummaryLine(Banner(env), Progress(env, opts, entries, |entries|));
      summary == Banner(env) + ": No files applicable to this test case.\n" <==>
      forall j :: 0 <= j < |entries| ==> !Applicable(env, entries[j])
  {
    ProgressEmptyIffNothingApplies(env, opts, entries);
    var p := Progress(env, opts, entries, |entries|);
    if p != [] {
      var b := Banner(env);
      assert (b + " => " + p + "complete.\n")[|b|] == ' ';
      assert (b + ": No files applicable to this test case.\n")[|b|] == ':';
    }
  }

  /** Findings and progress only grow as the scan goes on: what was
      returned after `m` entries is a prefix of what is returned after `n`. */
  lemma ScanIsIncremental(env: Env, opts: ScanOptions, entries: seq<string>, m: nat, n: nat)
    requires m <= n <= |entries|
    ensures |Findings(env, opts, entries, m)| <= |Findings(env, opts, entries, n)|
    ensures Findings(env, opts, entries, n)[..|Findings(env, opts, entries, m)|] == Findings(env, opts, entries, m)
    ensures StartsWith(Progress(env, opts, entries, n), Progress(env, opts, entries, m))
  {
    var os := Outcomes(env, opts, entries, n);
    assert os[..m] == Outcomes(env, opts, entries, m);
    CollectPrefix(os, m);
  }

  /** The result after `n` entries depends on those entries alone: later
      entries do not change it. */
  lemma ScanOfPrefix(env: Env, opts: ScanOptions, entries: seq<string>, later: seq<string>, n: nat)
    requires n <= |entries|
    ensures Findings(env, opts, entries + later, n) == Findings(env, opts, entries, n)
    ensures Progress(env, opts, entries + later, n) == Progress(env, opts, entries, n)
  {
    assert Outcomes(env, opts, entries + later, n) == Outcomes(env, opts, entries, n) by {
      forall j | 0 <= j < n ensures (entries + later)[j] == entries[j] { }
    }
  }

  /** Every finding carries the SI-3 descriptor, exactly one file record
      with the repository URI, non-empty output, and the time at which an
      applicable entry was handled. */
  lemma EveryFindingTagged(env: Env, opts: ScanOptions, entries: seq<string>)
    ensures forall f :: f in Findings(env, opts, entries, |entries|) ==>
      f.testCase == Nist80053Requirements() &&
      |f.filename| == 1 && f.filename[0].gitRepoRootUri == RepoUri(opts.gitRepoRootUri) &&
      f.rawContent != [] &&
      exists j :: 0 <= j < |entries| && Applicable(env, entries[j]) && f.timestamp == env.clock(j)
  {
    var os := Outcomes(env, opts, entries, |entries|);
    CollectSource(os);
    forall f | f in Findings(env, opts, entries, |entries|)
      ensures f.testCase == Nist80053Requirements() &&
        |f.filename| == 1 && f.filename[0].gitRepoRootUri == RepoUri(opts.gitRepoRootUri) &&
        f.rawContent != [] &&
        exists j :: 0 <= j < |entries| && Applicable(env, entries[j]) && f.timestamp == env.clock(j)
    {
      var k :| 0 <= k < |os| && os[k] == Flagged(f);
      ExamineShape(env, opts, entries[k], env.clock(k));
    }
  }

  /** The scanner never scans its own beautified copies. */
  lemma CopyNeverApplicable(env: Env, path: string)
    ensures !Applicable(env, path + BeautifiedSuffix)
  {
    CopyNameExcluded(path);
  }

  // ---------------------------------------------------------------------
  // One file.

  /** The finding of an applicable file whose search prints something,
      in terms of the attribution of its pairs. */
  lemma ExamineFlagged(env: Env, opts: ScanOptions, entry: string, timestamp: string)
    requires Applicable(env, entry) && env.encode(env.grep(ScannedPath(env, entry))) != []
    ensures
      var raw := CapOutput(env.encode(env.grep(ScannedPath(env, entry))));
      var a := Attribute(env, opts.dirPath, Pairs(Tokens(raw)), ScannedPath(env, entry), NeedsBeautify(env, entry));
      var r := Examine(env, opts, entry, timestamp);
      r.Flagged? && r.finding.rawContent == raw && r.finding.filename[0].entry == a.target &&
      r.finding.lineNoAndContents == (if |a.matches| == 0 then None else Some(a.matches))
  {
  }

  /** An applicable file whose (encoded) search output reaches the cap is
      recorded with the notice as its output and as its only match,
      numbered 1. */
  lemma CappedResult(env: Env, opts: ScanOptions, entry: string, timestamp: string)
    requires Applicable(env, entry)
    requires |env.encode(env.grep(ScannedPath(env, entry)))| >= SizeCap
    ensures
      var size := |env.encode(env.grep(ScannedPath(env, entry)))|;
      var r := Examine(env, opts, entry, timestamp);
      r.Flagged? && r.finding.rawContent == Placeholder(size) &&
      r.finding.lineNoAndContents.Some? && |r.finding.lineNoAndContents.value| == 1 &&
      r.finding.lineNoAndContents.value[0].lineNo == "1" &&
      r.finding.lineNoAndContents.value[0].contents == Some(PlaceholderText(size))
  {
    var size := |env.encode(env.grep(ScannedPath(env, entry)))|;
    CappedOutputOnePair(size);
  }

  /** Below the cap the output is kept verbatim, and there is one match
      per pair of the split output, with its number and contents. */
  lemma UncappedResult(env: Env, opts: ScanOptions, entry: string, timestamp: string)
    requires Applicable(env, entry)
    requires 0 < |env.encode(env.grep(ScannedPath(env, entry)))| < SizeCap
    ensures
      var str := env.encode(env.grep(ScannedPath(env, entry)));
      var pairs := Pairs(Tokens(str));
      var r := Examine(env, opts, entry, timestamp);
      r.Flagged? && r.finding.rawContent == str &&
      (r.finding.lineNoAndContents.None? <==> pairs == []) &&
      (r.finding.lineNoAndContents.Some? ==>
        |r.finding.lineNoAndContents.value| == |pairs| &&
        forall k :: 0 <= k < |pairs| ==>
          r.finding.lineNoAndContents.value[k].lineNo == pairs[k].lineNo &&
          r.finding.lineNoAndContents.value[k].contents == pairs[k].contents)
  {
    var str := env.encode(env.grep(ScannedPath(env, entry)));
    ExamineFlagged(env, opts, entry, timestamp);
    AttributeFaithful(env, opts.dirPath, Pairs(Tokens(str)), ScannedPath(env, entry), NeedsBeautify(env, entry));
  }

  /** A file that is not beautified keeps its name, and each match is
      attributed over its own line (line 1 for a number below 1). */
  lemma PlainFileAttribution(env: Env, opts: ScanOptions, entry: string, timestamp: string)
    requires Applicable(env, entry) && !NeedsBeautify(env, entry)
    requires env.encode(env.grep(entry)) != []
    ensures
      var r := Examine(env, opts, entry, timestamp);
      r.Flagged? && r.finding.filename[0].entry == entry &&
      (r.finding.lineNoAndContents.Some? ==>
        forall m :: m in r.finding.lineNoAndContents.value ==>
          m.author == AuthorOf(env, opts.dirPath, MatchRange(m.lineNo, m.lineNo), entry))
  {
    assert ScannedPath(env, entry) == entry;
    var raw := CapOutput(env.encode(env.grep(entry)));
    ExamineFlagged(env, opts, entry, timestamp);
    PlainMatchAuthors(env, opts.dirPath, Pairs(Tokens(raw)), entry);
  }

  /** Every match of a plain file is attributed over its own line. */
  lemma PlainMatchAuthors(env: Env, repoRoot: Option<string>, pairs: seq<RawMatch>, target: string)
    ensures forall m :: m in Attribute(env, repoRoot, pairs, target, false).matches ==>
      m.author == AuthorOf(env, repoRoot, MatchRange(m.lineNo, m.lineNo), target)
  {
    var ms := Attribute(env, repoRoot, pairs, target, false).matches;
    AttributeFaithful(env, repoRoot, pairs, target, false);
    AttributePlainAuthors(env, repoRoot, pairs, target);
    forall m | m in ms
      ensures m.author == AuthorOf(env, repoRoot, MatchRange(m.lineNo, m.lineNo), target)
    {
      var k :| 0 <= k < |ms| && ms[k] == m;
      assert ms[k].lineNo == pairs[k].lineNo;
    }
  }

  /** Once the name has no suffix left to strip, every further match of a
      beautified file keeps that name and is attributed over the whole file. */
  lemma {:induction false} AttributeIdle(env: Env, repoRoot: Option<string>, pairs: seq<RawMatch>, path: string)
    requires StripMarker(path) == path
    ensures Attribute(env, repoRoot, pairs, path, true).target == path
    ensures forall m :: m in Attribute(env, repoRoot, pairs, path, true).matches ==>
      m.author == AuthorOf(env, repoRoot, WholeFile(env, path), path)
    decreases |pairs|
  {
    if pairs != [] {
      AttributeIdle(env, repoRoot, pairs[1..], path);
      var a := GetAuthor(env, repoRoot, pairs[0].lineNo, pairs[0].lineNo, path, true);
      assert a.range == WholeFile(env, path);
    }
  }

  /** An applicable entry never ends in the beautified suffix. */
  lemma ApplicableHasNoSuffix(env: Env, entry: string)
    requires Applicable(env, entry)
    ensures !EndsWith(entry, BeautifiedSuffix)
  {
    if EndsWith(entry, BeautifiedSuffix) {
      SuffixShowsInBasename(entry);
    }
  }

  /** A beautified file is searched under its copy's name, but recorded
      under the original name, each match attributed over the whole
      original file. When the output splits into no pairs the name is never
      stripped and the copy's name is what gets recorded. */
  lemma BeautifiedFileAttribution(env: Env, opts: ScanOptions, entry: string, timestamp: string)
    requires Applicable(env, entry) && NeedsBeautify(env, entry) && '\n' !in entry
    requires env.encode(env.grep(entry + BeautifiedSuffix)) != []
    ensures
      var r := Examine(env, opts, entry, timestamp);
      var whole := WholeFile(env, entry);
      r.Flagged? &&
      (r.finding.lineNoAndContents.Some? ==>
        r.finding.filename[0].entry == entry &&
        forall m :: m in r.finding.lineNoAndContents.value ==>
          m.author == AuthorOf(env, opts.dirPath, whole, entry)) &&
      (r.finding.lineNoAndContents.None? ==> r.finding.filename[0].entry == entry + BeautifiedSuffix)
  {
    ApplicableHasNoSuffix(env, entry);
    var str := env.encode(env.grep(entry + BeautifiedSuffix));
    var pairs := Pairs(Tokens(CapOutput(str)));
    ExamineFlagged(env, opts, entry, timestamp);
    if pairs != [] {
      AttributeCopy(env, opts.dirPath, pairs, entry);
    }
  }

  /** Attributing the matches of a beautified copy: the first query strips
      the suffix, and from then on the original name is used throughout. */
  lemma AttributeCopy(env: Env, repoRoot: Option<string>, pairs: seq<RawMatch>, path: string)
    requires '\n' !in path && !EndsWith(path, BeautifiedSuffix) && pairs != []
    ensures Attribute(env, repoRoot, pairs, path + BeautifiedSuffix, true).target == path
    ensures forall m :: m in Attribute(env, repoRoot, pairs, path + BeautifiedSuffix, true).matches ==>
      m.author == AuthorOf(env, repoRoot, WholeFile(env, path), path)
  {
    StripMarkerOfCopy(path);
    StripMarkerIdle(path);
    var copy := path + BeautifiedSuffix;
    var a := GetAuthor(env, repoRoot, pairs[0].lineNo, pairs[0].lineNo, copy, true);
    assert a.target == path && a.range == WholeFile(env, path);
    AttributeIdle(env, repoRoot, pairs[1..], path);
    var all := Attribute(env, repoRoot, pairs, copy, true);
    var rest := Attribute(env, repoRoot, pairs[1..], path, true);
    assert all.matches == [all.matches[0]] + rest.matches;
  }

  /** For well-formed `grep -n` output below the cap, the finding of a
      plain file lists every printed line, in order, with its number,
      its text and the author of that line. */
  lemma GrepLinesRecorded(env: Env, opts: ScanOptions, entry: string, timestamp: string, lines: seq<GrepLine>)
    requires Applicable(env, entry) && !NeedsBeautify(env, entry)
    requires WellFormed(lines) && |lines| > 0
    requires env.encode(env.grep(entry)) == Render(lines) && |Render(lines)| < SizeCap
    ensures
      var r := Examine(env, opts, entry, timestamp);
      r.Flagged? && r.finding.rawContent == Render(lines) &&
      r.finding.filename[0].entry == entry &&
      r.finding.lineNoAndContents.Some? &&
      var ms := r.finding.lineNoAndContents.value;
      |ms| == |lines| &&
      forall k :: 0 <= k < |lines| ==>
        ms[k].lineNo == lines[k].number &&
        ms[k].contents == Some(lines[k].text + (if k == |lines| - 1 then "\n" else "")) &&
        ms[k].author == AuthorOf(env, opts.dirPath, MatchRange(lines[k].number, lines[k].number), entry)
  {
    GrepOutputPairs(lines);
    ExpectedShape(lines);
    ExamineFlagged(env, opts, entry, timestamp);
    AttributeFaithful(env, opts.dirPath, Pairs(Tokens(Render(lines))), entry, false);
    AttributePlainAuthors(env, opts.dirPath, Pairs(Tokens(Render(lines))), entry);
    assert Render(lines) != [] by {
      assert |Render(lines)| >= |lines[0].number + ":"|;
    }
  }
}
