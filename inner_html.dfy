/** `CSI::SCAPM::InnerHTML`: walks the entries of a directory tree, greps
    every applicable source file for `innerHTML` (beautifying short or
    minified JavaScript first), attributes each match to an author through
    git blame, and returns one finding per file with matches, tagged with
    the NIST SP 800-53 Rev 4 control SI-3. */
module InnerHtml {
  import opened Strings
  import opened PathNames
  import opened GrepOutput

  /** Everything the scanner takes from outside Ruby, as total functions
      of their arguments: the file system, the shell tools, the HTML
      encoder, git blame, the clock and the host. */
  datatype Env = Env(
    isFile: string -> bool,                              // File.file?(entry)
    lineCount: string -> nat,                            // `wc -l path`.split.first.to_i
    grep: string -> string,                              // `grep -n 'innerHTML' path`.to_s.scrub
    encode: string -> string,                            // HTMLEntities.new.encode
    blame: (Option<string>, int, int, string) -> string, // CSI::Plugins::Git.get_author_by_line_range
    clock: nat -> string,                                // Time.now, formatted, while entry i is handled
    hostname: string,                                    // Socket.gethostname
    version: string)                                     // CSI::VERSION

  /** The options hash of `scan`: `:dir_path` and `:git_repo_root_uri`. */
  datatype ScanOptions = ScanOptions(dirPath: Option<string>, gitRepoRootUri: Option<string>)

  /** Results at or above this many characters are replaced by a notice
      (a document-size limit of the store the results go to). */
  const SizeCap: nat := 64000

  /** Scripts with fewer lines than this are beautified before the search. */
  const ShortScript: nat := 20

  // ---------------------------------------------------------------------
  // The compliance descriptor.

  datatype Nist80053 = Nist80053(spModule: string, section: string, nist80053Uri: string)

  /** `nist_800_53_requirements`: the control this scanner maps to. */
  function Nist80053Requirements(): (r: Nist80053)
    ensures r.spModule == "CSI::SCAPM::InnerHTML"
    ensures r.section == "MALICIOUS CODE PROTECTION"
    ensures EndsWith(r.nist80053Uri, "controlName=SI-3")
  {
    var uri := "https://web.nvd.nist.gov/view/800-53/Rev4/control?" + "controlName=SI-3";
    EndsWithAppend("https://web.nvd.nist.gov/view/800-53/Rev4/control?", "controlName=SI-3");
    Nist80053("CSI::SCAPM::InnerHTML", "MALICIOUS CODE PROTECTION", uri)
  }

  // ---------------------------------------------------------------------
  // Records of a finding.

  datatype FileRef = FileRef(gitRepoRootUri: string, entry: string)

  datatype LineAttribution = LineAttribution(lineNo: string, contents: Option<string>, author: string)

  /** One result hash. `filename` is the one-element `filename_arr`;
      `lineNoAndContents` stays the empty string '' (None) when the loop
      over the tokens never ran. */
  datatype Finding = Finding(
    timestamp: string,
    testCase: Nist80053,
    filename: seq<FileRef>,
    lineNoAndContents: Option<seq<LineAttribution>>,
    rawContent: string,
    testCaseFilter: string)

  /** `opts[:git_repo_root_uri].to_s`: nil becomes "". */
  function RepoUri(uri: Option<string>): string {
    match uri
    case None => ""
    case Some(u) => u
  }

  // ---------------------------------------------------------------------
  // Per-entry decisions.

  /** The entry filter: a regular file that is neither one of the
      scanner's own reports nor an earlier beautified copy. */
  predicate Applicable(env: Env, entry: string) {
    env.isFile(entry) &&
    !IsReservedOutputName(Basename(entry)) &&
    !IsBeautifiedCopyName(Basename(entry))
  }

  /** Whether a file is beautified before the search: a `.js` file that is
      short or whose path names it minified (`.min.js`) or bundled (`-all.js`). */
  predicate NeedsBeautify(env: Env, entry: string) {
    ExtName(Basename(entry)) == ".js" &&
    (env.lineCount(entry) < ShortScript || Contains(entry, ".min.js") || Contains(entry, "-all.js"))
  }

  /** The file actually grepped: the beautified copy when there is one. */
  function ScannedPath(env: Env, entry: string): string {
    if NeedsBeautify(env, entry) then entry + BeautifiedSuffix else entry
  }

  /** The shell command recorded with each finding. */
  function TestCaseFilter(entry: string): string {
    "\n              grep -n 'innerHTML' " + entry + "\n            "
  }

  /** The notice that replaces an oversized result; it reads as a single
      grep line numbered 1. */
  function Placeholder(size: nat): string {
    "1" + ":" + PlaceholderText(size)
  }

  // The notice is assembled from short literals: the verifier reasons
  // about each piece far more cheaply than about one long literal.
  const NoticeHead: string := "Result larger " + "than 64KB -> Size: "
  const NoticeTail: string := ".  Please click " + ("the \"Path\" link " + "for more details.")

  function PlaceholderText(size: nat): string {
    NoticeHead + (NatToString(size) + NoticeTail)
  }

  /** The size guard: a result below the cap is kept verbatim, and no
      result is emptied (a larger one becomes the notice, which reads as a
      single match; see `CappedOutputOnePair`). */
  function CapOutput(str: string): (r: string)
    ensures |str| < SizeCap ==> r == str
    ensures r == [] <==> str == []
  {
    if |str| >= SizeCap then
      Placeholder(|str|)
    else str
  }

  /** The placeholder text holds no newline, so it is one grep line. */
  lemma PlaceholderTextOneLine(size: nat)
    ensures '\n' !in PlaceholderText(size) && PlaceholderText(size) != []
  {
    var d := NatToString(size);
    DigitsHaveNoNewline(d);
    assert '\n' !in "Result larger " && '\n' !in "than 64KB -> Size: ";
    assert '\n' !in ".  Please click " && '\n' !in "the \"Path\" link " && '\n' !in "for more details.";
    assert '\n' !in d + NoticeTail;
  }

  /** A capped result yields exactly one pair, numbered "1". */
  lemma CappedOutputOnePair(size: nat)
    ensures Pairs(Tokens(Placeholder(size))) == [RawMatch("1", Some(PlaceholderText(size)))]
  {
    PlaceholderTextOneLine(size);
    assert IsNumber("1");
    OneLineOutput("1", PlaceholderText(size));
  }

  /** The notice reports the size of the result it replaces: the number
      after "Size: " reads back as that size. */
  lemma NoticeReportsSize(size: nat)
    ensures ToI(PlaceholderText(size)[|NoticeHead|..]) == size
  {
    var d := NatToString(size);
    assert PlaceholderText(size)[|NoticeHead|..] == d + NoticeTail;
    assert NoticeTail[0] == '.';
    LeadingDigitsOf(d, NoticeTail);
    ToIOfNatToString(size);
    LeadingDigitsOf(d, []);
    assert d + [] == d;
  }

  // ---------------------------------------------------------------------
  // get_author

  datatype LineRange = LineRange(from: int, to: int)

  /** What `get_author` asks git about, what it returns, and the new value
      of the `target_file` string object, which `gsub!` changes in place. */
  datatype Attribution = Attribution(range: LineRange, target: string, author: string)

  /** The range queried for a match on a file that was not beautified:
      moved to line 1 when the end line is below 1 (`from_line.to_i && ...`
      is always truthy in Ruby, so only the end line is tested). */
  function MatchRange(fromLine: string, toLine: string): LineRange {
    if ToI(toLine) < 1 then LineRange(1, 1) else LineRange(ToI(fromLine), ToI(toLine))
  }

  /** The range queried for every match of a beautified file: the whole
      original, at least one line since `wc -l` misses a final line
      without a newline. */
  function WholeFile(env: Env, original: string): LineRange {
    LineRange(1, if env.lineCount(original) < 1 then 1 else env.lineCount(original))
  }

  /** The author git blame reports for a range of a file, HTML-encoded. */
  function AuthorOf(env: Env, repoRoot: Option<string>, range: LineRange, target: string): string {
    env.encode(env.blame(repoRoot, range.from, range.to, target))
  }

  /** `get_author`. For a beautified file the query is about the whole
      original file, the suffix being stripped from `target_file` in place;
      otherwise it is about the matched range. */
  function GetAuthor(env: Env, repoRoot: Option<string>, fromLine: string, toLine: string,
                     targetFile: string, beautified: bool): (r: Attribution)
    ensures beautified ==> r.target == StripMarker(targetFile)
    ensures !beautified ==> r.target == targetFile
    ensures beautified ==>
      r.range.from == 1 && r.range.to >= 1 && r.range.to >= env.lineCount(r.target) &&
      (env.lineCount(r.target) >= 1 ==> r.range.to == env.lineCount(r.target))
    ensures beautified ==>
      r.range == LineRange(1, if env.lineCount(r.target) < 1 then 1 else env.lineCount(r.target))
    ensures !beautified && ToI(toLine) < 1 ==> r.range == LineRange(1, 1)
    ensures !beautified && ToI(toLine) >= 1 ==> r.range == LineRange(ToI(fromLine), ToI(toLine))
    ensures fromLine == toLine || beautified ==> 1 <= r.range.from <= r.range.to
    ensures r.author == AuthorOf(env, repoRoot, r.range, r.target)
  {
    var target := if beautified then StripMarker(targetFile) else targetFile;
    var range := if beautified then WholeFile(env, target) else MatchRange(fromLine, toLine);
    Attribution(range, target, AuthorOf(env, repoRoot, range, target))
  }

  // ---------------------------------------------------------------------
  // The loop over one file's matches, as a value.

  datatype Attributed = Attributed(matches: seq<LineAttribution>, target: string)

  /** What the inner loop builds from the pairs: one attribution per pair,
      in order, and the final value of the (possibly stripped) name. */
  function Attribute(env: Env, repoRoot: Option<string>, pairs: seq<RawMatch>, target: string,
                     beautified: bool): (r: Attributed)
    ensures |r.matches| == |pairs|
    ensures !beautified ==> r.target == target
    decreases |pairs|
  {
    if pairs == [] then Attributed([], target)
    else
      var a := GetAuthor(env, repoRoot, pairs[0].lineNo, pairs[0].lineNo, target, beautified);
      var rest := Attribute(env, repoRoot, pairs[1..], a.target, beautified);
      Attributed([LineAttribution(pairs[0].lineNo, pairs[0].contents, a.author)] + rest.matches, rest.target)
  }

  /** Each attribution keeps its pair's number and contents, in order. */
  lemma {:induction false} AttributeFaithful(env: Env, repoRoot: Option<string>, pairs: seq<RawMatch>,
                                             target: string, beautified: bool)
    ensures var r := Attribute(env, repoRoot, pairs, target, beautified);
      forall k :: 0 <= k < |pairs| ==>
        r.matches[k].lineNo == pairs[k].lineNo && r.matches[k].contents == pairs[k].contents
    decreases |pairs|
  {
    if pairs != [] {
      var a := GetAuthor(env, repoRoot, pairs[0].lineNo, pairs[0].lineNo, target, beautified);
      AttributeFaithful(env, repoRoot, pairs[1..], a.target, beautified);
      var r := Attribute(env, repoRoot, pairs, target, beautified);
      var rest := Attribute(env, repoRoot, pairs[1..], a.target, beautified);
      forall k | 1 <= k < |pairs|
        ensures r.matches[k].lineNo == pairs[k].lineNo && r.matches[k].contents == pairs[k].contents
      {
        assert r.matches[k] == rest.matches[k - 1] && pairs[k] == pairs[1..][k - 1];
      }
    }
  }

  /** For a file that was not beautified each author is the one of that
      match's own line range, in the unchanged file. */
  lemma {:induction false} AttributePlainAuthors(env: Env, repoRoot: Option<string>, pairs: seq<RawMatch>,
                                                 target: string)
    ensures var r := Attribute(env, repoRoot, pairs, target, false);
      forall k :: 0 <= k < |pairs| ==>
        r.matches[k].author == AuthorOf(env, repoRoot, MatchRange(pairs[k].lineNo, pairs[k].lineNo), target)
    decreases |pairs|
  {
    if pairs != [] {
      AttributePlainAuthors(env, repoRoot, pairs[1..], target);
      var r := Attribute(env, repoRoot, pairs, target, false);
      var rest := Attribute(env, repoRoot, pairs[1..], target, false);
      forall k | 1 <= k < |pairs|
        ensures r.matches[k].author == AuthorOf(env, repoRoot, MatchRange(pairs[k].lineNo, pairs[k].lineNo), target)
      {
        assert r.matches[k] == rest.matches[k - 1] && pairs[k] == pairs[1..][k - 1];
      }
    }
  }

  // ---------------------------------------------------------------------
  // One entry, as a value.

  datatype Outcome = Skipped | NoMatch | Flagged(finding: Finding)

  /** What handling one directory entry yields: nothing for an entry the
      filter drops, a '~' for an applicable file without output, and a
      finding for one with output. */
  function Examine(env: Env, opts: ScanOptions, entry: string, timestamp: string): Outcome
  {
    if !Applicable(env, entry) then Skipped
    else
      var beautified := NeedsBeautify(env, entry);
      var scanned := ScannedPath(env, entry);
      var str := env.encode(env.grep(scanned));
      if |str| == 0 then NoMatch
      else
        var raw := CapOutput(str);
        var a := Attribute(env, opts.dirPath, Pairs(Tokens(raw)), scanned, beautified);
        Flagged(Finding(timestamp, Nist80053Requirements(), [FileRef(RepoUri(opts.gitRepoRootUri), a.target)],
                        if |a.matches| == 0 then None else Some(a.matches), raw, env.encode(TestCaseFilter(scanned))))
  }

  /** What each outcome means: an entry is skipped exactly when the filter
      drops it, yields '~' exactly when it applies but its search prints
      nothing, and otherwise yields a finding stamped and tagged as the
      scan promises, holding the (capped) output and the command. */
  lemma ExamineShape(env: Env, opts: ScanOptions, entry: string, timestamp: string)
    ensures Examine(env, opts, entry, timestamp).Skipped? <==> !Applicable(env, entry)
    ensures Examine(env, opts, entry, timestamp).NoMatch? <==> Applicable(env, entry) && env.encode(env.grep(ScannedPath(env, entry))) == []
    ensures var r := Examine(env, opts, entry, timestamp);
      r.Flagged? ==>
      var f := r.finding;
      f.timestamp == timestamp &&
      f.testCase == Nist80053Requirements() &&
      |f.filename| == 1 && f.filename[0].gitRepoRootUri == RepoUri(opts.gitRepoRootUri) &&
      f.rawContent == CapOutput(env.encode(env.grep(ScannedPath(env, entry)))) && f.rawContent != [] &&
      f.testCaseFilter == env.encode(TestCaseFilter(ScannedPath(env, entry)))
  {
  }

  /** The progress symbol an outcome appends to `logger_results`. */
  function Symbol(o: Outcome): string {
    match o
    case Skipped => ""
    case NoMatch => "~"
    case Flagged(_) => "x"
  }

  /** What an outcome appends to `result_arr`. */
  function Extra(o: Outcome): seq<Finding> {
    if o.Flagged? then [o.finding] else []
  }

  /** The findings of a run of outcomes, in order. */
  function Collect(os: seq<Outcome>): seq<Finding>
    decreases |os|
  {
    if os == [] then [] else Collect(os[..|os| - 1]) + Extra(os[|os| - 1])
  }

  /** The progress symbols of a run of outcomes, in order. */
  function Marks(os: seq<Outcome>): string
    decreases |os|
  {
    if os == [] then [] else Marks(os[..|os| - 1]) + Symbol(os[|os| - 1])
  }

  /** The outcomes of the first `n` entries, the i-th handled at clock reading i. */
  function Outcomes(env: Env, opts: ScanOptions, entries: seq<string>, n: nat): (r: seq<Outcome>)
    requires n <= |entries|
    ensures |r| == n
  {
    seq(n, j requires 0 <= j < n => Examine(env, opts, entries[j], env.clock(j)))
  }

  /** `result_arr` after the first `n` entries. */
  function Findings(env: Env, opts: ScanOptions, entries: seq<string>, n: nat): seq<Finding>
    requires n <= |entries|
  {
    Collect(Outcomes(env, opts, entries, n))
  }

  /** `logger_results` after the first `n` entries. */
  function Progress(env: Env, opts: ScanOptions, entries: seq<string>, n: nat): string
    requires n <= |entries|
  {
    Marks(Outcomes(env, opts, entries, n))
  }

  /** `logger_banner`: the documentation URL of this module on this host. */
  function Banner(env: Env): string {
    "http://" + env.hostname + ":8808/doc_root/csi-" + env.version + "/CSI/SCAPM/InnerHTML.html"
  }

  /** The line logged at the end of a scan. */
  function SummaryLine(banner: string, progress: string): string {
    if progress == [] then banner + ": No files applicable to this test case.\n"
    else banner + " => " + progress + "complete.\n"
  }

  // ---------------------------------------------------------------------
  // scan

  /** The tokens from position `c` on (none once `c` is past the end). */
  function TokensFrom(tokens: seq<string>, c: nat): seq<string> {
    if c < |tokens| then tokens[c..] else []
  }

  lemma PairsStep(tokens: seq<string>, c: nat)
    requires c < |tokens|
    ensures Pairs(TokensFrom(tokens, c)) ==
      [RawMatch(tokens[c], if c + 1 < |tokens| then Some(tokens[c + 1]) else None)] + Pairs(TokensFrom(tokens, c + 2))
  {
    var t := tokens[c..];
    if |t| >= 2 {
      assert t[2..] == TokensFrom(tokens, c + 2);
    }
  }

  /** The attributions of `acc` followed by those of `r`. */
  function Continue(acc: seq<LineAttribution>, r: Attributed): Attributed {
    Attributed(acc + r.matches, r.target)
  }

  /** One turn of the inner loop: the pair at position `c` is attributed
      first, with the name as it stands, and the rest after it. */
  lemma AttributeStep(env: Env, repoRoot: Option<string>, tokens: seq<string>, c: nat,
                      target: string, beautified: bool, acc: seq<LineAttribution>)
    requires c < |tokens|
    ensures
      var a := GetAuthor(env, repoRoot, tokens[c], tokens[c], target, beautified);
      var la := LineAttribution(tokens[c], if c + 1 < |tokens| then Some(tokens[c + 1]) else None, a.author);
      Continue(acc, Attribute(env, repoRoot, Pairs(TokensFrom(tokens, c)), target, beautified)) ==
      Continue(acc + [la], Attribute(env, repoRoot, Pairs(TokensFrom(tokens, c + 2)), a.target, beautified))
  {
    PairsStep(tokens, c);
    var ps := Pairs(TokensFrom(tokens, c));
    assert ps[1..] == Pairs(TokensFrom(tokens, c + 2));
  }

  /** The inner loop of `scan`: walks the tokens two at a time, asks
      `get_author` about each match and returns the attributions together
      with the final value of the (possibly stripped) file name. */
  method AttributeMatches(env: Env, repoRoot: Option<string>, lineContentsSplit: seq<string>,
                          target: string, beautified: bool)
    returns (lineNoAndContentsArr: seq<LineAttribution>, entry: string)
    ensures Attributed(lineNoAndContentsArr, entry) == Attribute(env, repoRoot, Pairs(lineContentsSplit), target, beautified)
  {
    entry := target;
    var lineNoCount := |lineContentsSplit|;
    var currentCount := 0;
    lineNoAndContentsArr := [];
    ghost var whole := Attribute(env, repoRoot, Pairs(lineContentsSplit), target, beautified);
    assert TokensFrom(lineContentsSplit, 0) == lineContentsSplit;
    assert whole == Continue([], whole);
    while lineNoCount > currentCount
      invariant whole == Continue(lineNoAndContentsArr,
        Attribute(env, repoRoot, Pairs(TokensFrom(lineContentsSplit, currentCount)), entry, beautified))
    {
      var lineNo := lineContentsSplit[currentCount];
      var contents := if currentCount + 1 < lineNoCount then Some(lineContentsSplit[currentCount + 1]) else None;
      AttributeStep(env, repoRoot, lineContentsSplit, currentCount, entry, beautified, lineNoAndContentsArr);
      var author := GetAuthor(env, repoRoot, lineNo, lineNo, entry, beautified);
      entry := author.target;
      lineNoAndContentsArr := lineNoAndContentsArr + [LineAttribution(lineNo, contents, author.author)];
      currentCount := currentCount + 2;
    }
    assert TokensFrom(lineContentsSplit, currentCount) == [];
    assert lineNoAndContentsArr + [] == lineNoAndContentsArr;
  }

  lemma OutcomesStep(env: Env, opts: ScanOptions, entries: seq<string>, i: nat)
    requires i < |entries|
    ensures Outcomes(env, opts, entries, i + 1) ==
            Outcomes(env, opts, entries, i) + [Examine(env, opts, entries[i], env.clock(i))]
  {
  }

  lemma CollectSnoc(os: seq<Outcome>, o: Outcome)
    ensures Collect(os + [o]) == Collect(os) + Extra(o)
    ensures Marks(os + [o]) == Marks(os) + Symbol(o)
  {
    assert (os + [o])[..|os|] == os;
  }

  /** Handling entry `i` appends its finding, if any, and its symbol. */
  lemma ScanStep(env: Env, opts: ScanOptions, entries: seq<string>, i: nat)
    requires i < |entries|
    ensures
      var o := Examine(env, opts, entries[i], env.clock(i));
      Findings(env, opts, entries, i + 1) == Findings(env, opts, entries, i) + Extra(o) &&
      Progress(env, opts, entries, i + 1) == Progress(env, opts, entries, i) + Symbol(o)
  {
    OutcomesStep(env, opts, entries, i);
    CollectSnoc(Outcomes(env, opts, entries, i), Examine(env, opts, entries[i], env.clock(i)));
  }

  /** The body of the loop over the entries, for one entry: decides
      whether it applies, beautifies it, greps it, caps the output and
      attributes every match. */
  method ScanEntry(env: Env, opts: ScanOptions, entry: string, timestamp: string) returns (outcome: Outcome)
    ensures outcome == Examine(env, opts, entry, timestamp)
  {
    var gitRepoRootUri := RepoUri(opts.gitRepoRootUri);
    if !Applicable(env, entry) {
      return Skipped;
    }
    var target := entry;
    var entryBeautified := false;
    if NeedsBeautify(env, entry) {
      target := entry + BeautifiedSuffix;
      entryBeautified := true;
    }
    var testCaseFilter := TestCaseFilter(target);
    var str := env.encode(env.grep(target));
    if |str| == 0 {
      return NoMatch;
    }
    if |str| >= SizeCap {
      str := Placeholder(|str|);
    }
    var lineNoAndContentsArr;
    lineNoAndContentsArr, target := AttributeMatches(env, opts.dirPath, Tokens(str), target, entryBeautified);
    var hashLine := Finding(timestamp, Nist80053Requirements(), [FileRef(gitRepoRootUri, target)],
                            if |lineNoAndContentsArr| == 0 then None else Some(lineNoAndContentsArr),
                            str, env.encode(testCaseFilter));
    outcome := Flagged(hashLine);
  }

  /** `scan`: returns `result_arr`, the progress string `logger_results`
      and the summary line handed to the logger. */
  method Scan(env: Env, opts: ScanOptions, entries: seq<string>)
    returns (resultArr: seq<Finding>, loggerResults: string, summary: string)
    ensures resultArr == Findings(env, opts, entries, |entries|)
    ensures loggerResults == Progress(env, opts, entries, |entries|)
    ensures summary == SummaryLine(Banner(env), loggerResults)
  {
    resultArr, loggerResults := [], "";
    var i := 0;
    while i < |entries|
      invariant 0 <= i <= |entries|
      invariant resultArr == Findings(env, opts, entries, i)
      invariant loggerResults == Progress(env, opts, entries, i)
    {
      var outcome := ScanEntry(env, opts, entries[i], env.clock(i));
      ScanStep(env, opts, entries, i);
      match outcome {
        case Flagged(hashLine) =>
          resultArr := resultArr + [hashLine];
          loggerResults := loggerResults + "x";
        case NoMatch =>
          loggerResults := loggerResults + "~";
        case Skipped =>
      }
      i := i + 1;
    }
    summary := SummaryLine(Banner(env), loggerResults);
  }
}
