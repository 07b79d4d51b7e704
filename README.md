# CSI::SCAPM::InnerHTML, modelled in Dafny

`CSI::SCAPM::InnerHTML` is a static anti-pattern scanner from the CSI
security toolkit. It walks every entry under a directory. Each regular file
that is not one of the toolkit's own reports (`csi…html|json|db`) and not a
beautified copy (`….JS-BEAUTIFIED`) gets the following treatment:

- **Beautify.** A short JavaScript file (under 20 lines), a minified one
  (`.min.js`) or a bundle (`-all.js`) is first expanded by `js-beautify`
  into a copy next to it.
- **Search.** The file (or its copy) is searched with `grep -n 'innerHTML'`,
  and the output is HTML-encoded.
- **Cap.** Output of 64000 characters or more is replaced by a one-line
  notice.
- **Split.** The output is split into (line number, line text) pairs.
- **Attribute.** Each pair is attributed to an author through git blame:
  - for a plain file, over the matched line;
  - for a beautified file, over the whole original file. The name's
    `.JS-BEAUTIFIED` suffix is stripped in place, at the end of every line
    of the name (for the newline-free names of real files, this gives back
    the original's name).

Every file with output becomes one finding tagged with the NIST SP 800-53
Rev 4 control SI-3 (MALICIOUS CODE PROTECTION). A progress string in the
log gets `x` for each file with output and `~` for each file without, and
one summary line is logged at the end.

The project has five modules:

- `Strings` (`strings.dfy`): prefixes, suffixes, `include?` (`Contains`,
  `inner_html.rb:32`), Ruby's per-line `^`/`$` anchoring (`Lines`),
  `Integer#to_s` (`NatToString`, `:46`) and `String#to_i` (`ToI`, `:126`).
- `PathNames` (`path_names.dfy`):
  - `File.basename` (`Basename`, `:27`) and `File.extname` (`ExtName`, `:32`);
  - the two exclusion patterns (`IsReservedOutputName`,
    `IsBeautifiedCopyName`, `:27`);
  - the `gsub!` that strips the `.JS-BEAUTIFIED` suffix (`StripMarker`,
    `:115`).
- `GrepOutput` (`grep_output.dfy`): Ruby's
  `str.split(/^(\d{1,}):|\n(\d{1,}):/)[1..-1]` (`Split`, `Tokens`, `:58`),
  written out for every string the scanner splits.
  - A leftmost scan in which `^` holds at the start and after a newline.
  - One capture is kept per match.
  - Trailing empty fields are dropped.
  - The `while … current_count += 2` walk over the tokens is modelled too.
- `InnerHtml` (`inner_html.dfy`): the scanner.
  - `Scan` is the imperative loop over the entries.
  - `ScanEntry` is the body of that loop.
  - `AttributeMatches` is the inner `while` loop.
  - `GetAuthor` is `get_author`.
  - `Nist80053Requirements` is the control descriptor.
  - All three methods are proved equal to value-level specifications
    (`Examine`, `Attribute`, `Findings`, `Progress`, `SummaryLine`).
  - The per-entry decisions are `Applicable` (the filter, `:27`),
    `NeedsBeautify` (`:32`), `ScannedPath` (the file grepped, `:34-39`)
    and `CapOutput` (`:44-46`).
  - `Banner` is the summary's prefix (`:86`).
  - `WholeFile` and `MatchRange` are the ranges `get_author` queries
    (`:116-117` and `:126`).
- `ScanProperties` (`scan_properties.dfy`): the properties of a whole scan
  and of one file's finding.

Everything the Ruby code obtains from outside is a field of `Env`:

- `File.file?`, `wc -l`, the output of `grep -n`, `HTMLEntities#encode`,
  git blame (`CSI::Plugins::Git.get_author_by_line_range`);
- the clock (one reading per entry index), the host name and `CSI::VERSION`.

The directory walk is the `entries` sequence. `scan`'s logger call becomes
the returned `summary`.

Points where the code's behaviour is easy to misread:

- **Failed beautify.** The copy is what is grepped, not the original,
  whether `js-beautify` succeeded or not. The copy may be empty, partial or
  missing (when the directory cannot be written), and a missing copy
  gives empty output and a `~`.
- **The cap.** The cap replaces `str` before it is split. So a capped
  file's per-line data is the notice's single pair numbered `1`
  (`CappedResult`).
- **Summary separator.** The summary line separates banner and progress
  with ` => `.
- **Copy name kept.** The name is only stripped inside `get_author`. So a
  beautified file whose output splits into no pairs keeps the copy's name
  in its record (`BeautifiedFileAttribution`).

## Model

| member | source | states |
|---|---|---|
| Strings.Lines | lib/csi/scapm/inner_html.rb:27 | every string has at least one line, the unit Ruby's `^`/`$` anchor to |
| Strings.LinesRoundTrip | lib/csi/scapm/inner_html.rb:27 | joining the lines with newlines gives back the string, and no line holds a newline |
| Strings.SingleLine | lib/csi/scapm/inner_html.rb:115 | a string without a newline is a single line, so an anchored pattern sees it whole |
| Strings.LeadingDigits | lib/csi/scapm/inner_html.rb:126 | `to_i` reads the longest digit prefix: it is a prefix, all digits, and not followed by a digit |
| Strings.LeadingDigitsOf | lib/csi/scapm/inner_html.rb:58 | a digit string followed by a non-digit is exactly the leading digit run |
| Strings.NatToString | lib/csi/scapm/inner_html.rb:46 | `Integer#to_s` of a size is a non-empty digit string with no leading zero, and is `"0"` exactly for 0 |
| Strings.ToIOfNatToString | lib/csi/scapm/inner_html.rb:46 | `to_i` inverts `to_s` on non-negative integers |
| Strings.ContainsAt | lib/csi/scapm/inner_html.rb:32 | `include?` holds whenever the part occurs at some position |
| Strings.ContainsWitness | lib/csi/scapm/inner_html.rb:32 | conversely, `include?` holds only when the part occurs at some position |
| PathNames.Basename | lib/csi/scapm/inner_html.rb:27 | the base name is the suffix of the path after its last `/` (the whole path when there is none) |
| PathNames.BasenameAppend | lib/csi/scapm/inner_html.rb:34 | appending a slash-free tail to a path appends it to the base name |
| PathNames.DropLeadingDots | lib/csi/scapm/inner_html.rb:32 | the name less exactly its leading dots: a suffix not starting with `.`, with only dots before it |
| PathNames.FromLastDot | lib/csi/scapm/inner_html.rb:32 | the extension is empty exactly when the name has no `.`; otherwise it is the suffix from the last `.` |
| PathNames.FromLastDotTail | lib/csi/scapm/inner_html.rb:32 | after a final dot, a dot-free tail extends the extension |
| PathNames.JsSuffixExt | lib/csi/scapm/inner_html.rb:32 | a name ending in `.js` has the extension `.js` |
| PathNames.JsExtName | lib/csi/scapm/inner_html.rb:32 | `File.extname == '.js'` exactly when the name, less its leading dots, ends in `.js` |
| PathNames.StripMarkerOfCopy | lib/csi/scapm/inner_html.rb:115 | the `gsub!` turns a copy's name back into the original's |
| PathNames.StripMarkerIdle | lib/csi/scapm/inner_html.rb:115 | the `gsub!` leaves a name without the suffix unchanged |
| PathNames.LastLineAppend | lib/csi/scapm/inner_html.rb:27 | appending a newline-free tail extends the last line |
| PathNames.LinesCount | lib/csi/scapm/inner_html.rb:27 | appending a newline-free tail keeps the number of lines |
| PathNames.AppendedNameEnding | lib/csi/scapm/inner_html.rb:27 | the last line of the base name of `path + t` ends in `t` |
| PathNames.CopyNameExcluded | lib/csi/scapm/inner_html.rb:27 | the base name of every beautified copy matches `/\.JS-BEAUTIFIED$/` |
| PathNames.SuffixShowsInBasename | lib/csi/scapm/inner_html.rb:27 | a path ending in the suffix has an excluded base name |
| GrepOutput.NumberColon | lib/csi/scapm/inner_html.rb:58 | when `(\d{1,}):` matches, the digits are a number followed by `:` |
| GrepOutput.MatchHere | lib/csi/scapm/inner_html.rb:58 | a match of either alternative covers at least two characters and captures a number |
| GrepOutput.SplitRestShape | lib/csi/scapm/inner_html.rb:58 | the split alternates fields and captures: odd length, numbers at odd positions |
| GrepOutput.DropTrailingEmpty | lib/csi/scapm/inner_html.rb:58 | a prefix, ending in a non-empty field, with only empty fields dropped |
| GrepOutput.TokenNumbers | lib/csi/scapm/inner_html.rb:58-62 | every even-position token, i.e. every `line_no`, is a digit string |
| GrepOutput.Pairs | lib/csi/scapm/inner_html.rb:59-63 | one pair per even position, in order: the token and the next one, or nil past the end |
| GrepOutput.PairNumbers | lib/csi/scapm/inner_html.rb:58-62 | every line number the loop hands to `get_author` is a digit string |
| GrepOutput.ExpectedShape | lib/csi/scapm/inner_html.rb:58-63 | the expected pairs are the lines' numbers and texts, the last text keeping grep's newline |
| GrepOutput.GrepOutputPairs | lib/csi/scapm/inner_html.rb:58-63 | for well-formed `grep -n` output there are twice as many tokens as lines, and the pairs are exactly the lines in order |
| GrepOutput.OneLineOutput | lib/csi/scapm/inner_html.rb:58 | a single `n:text` line yields the tokens `[n, text]` and one pair |
| InnerHtml.Nist80053Requirements | lib/csi/scapm/inner_html.rb:143-149 | the module name, the section MALICIOUS CODE PROTECTION, and a URI ending in `controlName=SI-3` |
| InnerHtml.CapOutput | lib/csi/scapm/inner_html.rb:44-46 | output below 64000 characters is kept verbatim; output is empty exactly when it was |
| InnerHtml.PlaceholderTextOneLine | lib/csi/scapm/inner_html.rb:46 | the notice is non-empty and holds no newline |
| InnerHtml.CappedOutputOnePair | lib/csi/scapm/inner_html.rb:46-63 | a capped result splits into exactly one pair, numbered `1`, holding the notice |
| InnerHtml.NoticeReportsSize | lib/csi/scapm/inner_html.rb:46 | the number after `Size: ` reads back as the size of the output replaced |
| InnerHtml.GetAuthor | lib/csi/scapm/inner_html.rb:104-136 | beautified: strips the suffix and queries lines 1 to max(1, line count) of the original; otherwise: same name, range moved to 1..1 when the end line is below 1; a single-line query is a valid range; the author is the encoded blame of that query |
| InnerHtml.Attribute | lib/csi/scapm/inner_html.rb:61-78 | one attribution per pair; a plain file's name is never changed |
| InnerHtml.AttributeFaithful | lib/csi/scapm/inner_html.rb:61-75 | each attribution keeps its pair's line number and contents, in order |
| InnerHtml.AttributePlainAuthors | lib/csi/scapm/inner_html.rb:64-75 | for a plain file, each author is the blame of that match's own (clamped) line range |
| InnerHtml.ExamineShape | lib/csi/scapm/inner_html.rb:27-55 | skipped iff filtered out; `~` iff applicable and the search is empty; a finding carries the timestamp, SI-3, one file record with the repository URI, the capped non-empty output and the encoded command |
| InnerHtml.Outcomes | lib/csi/scapm/inner_html.rb:26 | one outcome per entry |
| InnerHtml.PairsStep | lib/csi/scapm/inner_html.rb:61-77 | the pairs from position `c` are the pair at `c`, then those from `c + 2` |
| InnerHtml.AttributeStep | lib/csi/scapm/inner_html.rb:61-77 | one loop turn attributes the current pair with the name as it stands, then the rest |
| InnerHtml.AttributeMatches | lib/csi/scapm/inner_html.rb:58-78 | the inner loop returns exactly the attributions and final name of `Attribute` |
| InnerHtml.OutcomesStep | lib/csi/scapm/inner_html.rb:26 | the outcomes of `i + 1` entries are those of `i`, then entry `i`'s |
| InnerHtml.CollectSnoc | lib/csi/scapm/inner_html.rb:79-82 | appending an outcome appends its finding and its symbol |
| InnerHtml.ScanStep | lib/csi/scapm/inner_html.rb:79-83 | handling entry `i` appends its finding, if any, and its progress symbol |
| InnerHtml.ScanEntry | lib/csi/scapm/inner_html.rb:27-83 | the loop body yields exactly `Examine` of the entry |
| InnerHtml.Scan | lib/csi/scapm/inner_html.rb:20-93 | returns the findings and progress of all entries, and the summary line built from the banner and that progress |
| ScanProperties.SymbolMarks | lib/csi/scapm/inner_html.rb:80-82 | a symbol is at most one character: `x` for a finding, `~` for no output, nothing for a skip |
| ScanProperties.MarksCount | lib/csi/scapm/inner_html.rb:79-82 | one `x` per collected finding; `x`s and `~`s make up the whole string |
| ScanProperties.MarksEmpty | lib/csi/scapm/inner_html.rb:80-87 | no symbol at all exactly when every outcome is a skip |
| ScanProperties.CollectPrefix | lib/csi/scapm/inner_html.rb:79-82 | the findings and symbols of a prefix of the outcomes are prefixes of the whole |
| ScanProperties.CollectSource | lib/csi/scapm/inner_html.rb:79 | every finding comes from a flagged outcome |
| ScanProperties.ProgressCountsFindings | lib/csi/scapm/inner_html.rb:79-83 | the progress string has one `x` per returned finding, and otherwise only `~` |
| ScanProperties.ProgressEmptyIffNothingApplies | lib/csi/scapm/inner_html.rb:80-87 | the progress string is empty exactly when no entry passes the filter |
| ScanProperties.SummaryWhenNothingApplies | lib/csi/scapm/inner_html.rb:86-91 | the summary is the "No files applicable" line exactly when no entry passes the filter |
| ScanProperties.ScanIsIncremental | lib/csi/scapm/inner_html.rb:79-82 | findings and progress after `m` entries are prefixes of those after `n >= m` |
| ScanProperties.ScanOfPrefix | lib/csi/scapm/inner_html.rb:26 | the result after `n` entries does not depend on later entries |
| ScanProperties.EveryFindingTagged | lib/csi/scapm/inner_html.rb:48-55 | every finding has SI-3, one file record with the repository URI, non-empty output and the clock reading of an applicable entry |
| ScanProperties.CopyNeverApplicable | lib/csi/scapm/inner_html.rb:27 | a beautified copy never passes the filter, so the scanner never rescans its own copies |
| ScanProperties.CappedResult | lib/csi/scapm/inner_html.rb:46-75 | output at or above the cap is recorded as the notice, whose single match is numbered `1` and holds the notice text |
| ScanProperties.UncappedResult | lib/csi/scapm/inner_html.rb:44-75 | output below the cap is recorded verbatim; there are no matches iff there are no pairs, else one per pair with its number and contents |
| ScanProperties.PlainFileAttribution | lib/csi/scapm/inner_html.rb:125-132 | a plain file is recorded under its own name, each match attributed over its own line range |
| ScanProperties.PlainMatchAuthors | lib/csi/scapm/inner_html.rb:125-132 | every match of a plain file is attributed over its own (clamped) line |
| ScanProperties.AttributeIdle | lib/csi/scapm/inner_html.rb:114-124 | once nothing is left to strip, every match keeps the name and gets the whole-file author |
| ScanProperties.ApplicableHasNoSuffix | lib/csi/scapm/inner_html.rb:27 | an applicable entry never ends in `.JS-BEAUTIFIED` |
| ScanProperties.AttributeCopy | lib/csi/scapm/inner_html.rb:114-124 | the first query strips the copy's suffix; every match is then attributed over the whole original file |
| ScanProperties.BeautifiedFileAttribution | lib/csi/scapm/inner_html.rb:32-36 | a beautified file with matches is recorded under its original name, each author over the whole original file; with no pairs the copy's name stays |
| ScanProperties.GrepLinesRecorded | lib/csi/scapm/inner_html.rb:38-78 | for well-formed `grep -n` output of a plain file below the cap, the finding lists every printed line in order with its number, text and line author |

## Left out

- The directory walk (`CSI::Plugins::FileFu.recurse_dir`) is not part of this model; its entries are the `entries` argument, in order.
- The shell commands (`wc -l`, `js-beautify`, `grep -n`), `File.file?`, `HTMLEntities#encode` and `CSI::Plugins::Git.get_author_by_line_range` are fields of `Env`, as functions of their arguments. What they print and their failures are not modelled.
- `js-beautify` is not modelled: its output is discarded by the source, and what the copy contains shows only through `grep` of the copy's name.
- `String#scrub` (invalid byte sequences) is not modelled; strings are sequences of characters.
- `Time.now`, `Socket.gethostname` and `CSI::VERSION` are `Env` fields. The clock gives one reading per entry index.
- The logger (`CSI::Plugins::CSILogger`) is not modelled; the line it would receive is returned as `summary`.
- `authors` and `help` only return or print fixed text, and are left out.
- PathNames.Basename: the `File.basename` of a path with a trailing `/` is not modelled (such entries are not regular files).
- Strings.ToI: `String#to_i` is modelled only on what reaches it here. Leading whitespace, signs and `_` separators are ignored; every line number it reads is proved to be a digit string.
- InnerHtml.GetAuthor: the git plugin receives the clamped range as integers. The source passes the line-number strings. Both print the same for the digit strings `grep -n` produces.
- The aliasing through which `gsub!` on `target_file` changes the `entry` string held by the finding's file record is modelled by returning the new name from `GetAuthor` and threading it through the inner loop into the record.
- ScanProperties.BeautifiedFileAttribution and ScanProperties.AttributeCopy: stated only for entries without a newline. `gsub!` strips the suffix at the end of every line of the name, so for an entry such as `"a.JS-BEAUTIFIED\nb/c.js"` the record ends up holding `"a\nb/c.js"`, not the entry.
- Shell quoting of file names in the back-ticked commands is not modelled.
