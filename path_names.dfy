/** The file-name tests the scanner applies to each directory entry:
    `File.basename`, `File.extname`, the two exclusion patterns and the
    `gsub!` that turns a beautified copy's name back into the original's. */
module PathNames {
  import opened Strings

  /** Suffix of the copy that `js-beautify` writes next to a script. */
  const BeautifiedSuffix: string := ".JS-BEAUTIFIED"

  /** `File.basename(path)`: what follows the last '/'. */
  function Basename(path: string): (r: string)
    ensures EndsWith(path, r) && '/' !in r
    ensures |r| == |path| || path[|path| - |r| - 1] == '/'
    decreases |path|
  {
    if path == [] || path[|path| - 1] == '/' then []
    else
      var p := path[..|path| - 1];
      var b := Basename(p);
      var r := b + [path[|path| - 1]];
      assert path[|path| - |r|..] == p[|p| - |b|..] + [path[|path| - 1]];
      assert |b| < |p| ==> path[|path| - |r| - 1] == p[|p| - |b| - 1];
      r
  }

  /** Appending a slash-free tail to a path appends it to the base name. */
  lemma {:induction false} BasenameAppend(p: string, t: string)
    requires '/' !in t
    ensures Basename(p + t) == Basename(p) + t
    decreases |t|
  {
    if t != [] {
      var t' := t[..|t| - 1];
      var c := t[|t| - 1];
      assert c in t;
      assert '/' !in t' by {
        forall k | 0 <= k < |t'| ensures t'[k] != '/' { assert t'[k] == t[k]; }
      }
      var pt := p + t;
      assert pt[..|pt| - 1] == p + t' && pt[|pt| - 1] == c;
      BasenameAppend(p, t');
      assert Basename(pt) == Basename(p + t') + [c];
      assert Basename(p) + t == (Basename(p) + t') + [c];
    } else {
      assert p + t == p;
    }
  }

  /** What is left once the leading dots are dropped: a suffix that does
      not start with '.', everything before it being dots. */
  function DropLeadingDots(s: string): (r: string)
    ensures EndsWith(s, r) && (r == [] || r[0] != '.')
    ensures forall k :: 0 <= k < |s| - |r| ==> s[k] == '.'
    decreases |s|
  {
    if s != [] && s[0] == '.' then
      var r := DropLeadingDots(s[1..]);
      assert s[|s| - |r|..] == s[1..][|s| - 1 - |r|..];
      assert forall k :: 1 <= k < |s| - |r| ==> s[k] == s[1..][k - 1];
      r
    else s
  }

  /** From the last '.' to the end, or "" when there is no dot. */
  function FromLastDot(s: string): (r: string)
    ensures r == [] || (EndsWith(s, r) && r[0] == '.')
    ensures r == [] <==> '.' !in s
    ensures r != [] ==> '.' !in r[1..]
    decreases |s|
  {
    if s == [] then []
    else if s[|s| - 1] == '.' then "."
    else
      var p := s[..|s| - 1];
      var x := FromLastDot(p);
      assert s == p + [s[|s| - 1]];
      if x == [] then []
      else
        assert s[|s| - |x| - 1..] == p[|p| - |x|..] + [s[|s| - 1]];
        assert (x + [s[|s| - 1]])[1..] == x[1..] + [s[|s| - 1]];
        x + [s[|s| - 1]]
  }

  /** `File.extname` on a base name, as Ruby computes it on POSIX: leading
      dots are skipped (a dot file has no extension), then the extension
      runs from the last dot to the end. */
  function ExtName(base: string): string {
    FromLastDot(DropLeadingDots(base))
  }

  /** After a final dot, a dot-free tail extends the extension. */
  lemma {:induction false} FromLastDotTail(x: string, t: string)
    requires '.' !in t && x != [] && x[|x| - 1] == '.'
    ensures FromLastDot(x + t) == "." + t
    decreases |t|
  {
    if t == [] {
      assert x + t == x;
    } else {
      var t' := t[..|t| - 1];
      assert '.' !in t' by {
        forall k | 0 <= k < |t'| ensures t'[k] != '.' { assert t'[k] == t[k]; }
      }
      assert (x + t)[..|x + t| - 1] == x + t';
      FromLastDotTail(x, t');
      assert "." + t == ("." + t') + [t[|t| - 1]];
    }
  }

  /** The extension test the scanner makes: `File.extname(entry) == '.js'`
      exactly when the name, once its leading dots are dropped, ends in
      ".js". */
  lemma JsExtName(base: string)
    ensures ExtName(base) == ".js" <==> EndsWith(DropLeadingDots(base), ".js")
  {
    var r := DropLeadingDots(base);
    if EndsWith(r, ".js") {
      JsSuffixExt(r);
    }
  }

  lemma JsSuffixExt(r: string)
    requires EndsWith(r, ".js")
    ensures FromLastDot(r) == ".js"
  {
    var x := r[..|r| - 2];
    assert r == x + "js";
    assert '.' !in "js";
    FromLastDotTail(x, "js");
  }

  // ---------------------------------------------------------------------
  // The exclusion patterns. In Ruby `^` and `$` anchor at line boundaries,
  // so a name is excluded when some line of it matches.

  /** One line matched by /^csi.+(html|json|db)$/: "csi", at least one
      character, then one of the three endings. */
  predicate ReservedOutputLine(l: string) {
    StartsWith(l, "csi") &&
    ((EndsWith(l, "html") && |l| >= 8) || (EndsWith(l, "json") && |l| >= 8) || (EndsWith(l, "db") && |l| >= 6))
  }

  /** The scanner's own reports: `File.basename(entry) =~ /^csi.+(html|json|db)$/`. */
  predicate IsReservedOutputName(name: string) {
    exists k :: 0 <= k < |Lines(name)| && ReservedOutputLine(Lines(name)[k])
  }

  /** An earlier beautified copy: `File.basename(entry) =~ /\.JS-BEAUTIFIED$/`. */
  predicate IsBeautifiedCopyName(name: string) {
    exists k :: 0 <= k < |Lines(name)| && EndsWith(Lines(name)[k], BeautifiedSuffix)
  }

  function StripSuffixOnce(l: string): string {
    if EndsWith(l, BeautifiedSuffix) then l[..|l| - |BeautifiedSuffix|] else l
  }

  /** `target_file.gsub!(/\.JS-BEAUTIFIED$/, '')`: the suffix is removed
      once from the end of every line. */
  function StripMarker(path: string): string {
    var ls := Lines(path);
    JoinLines(seq(|ls|, k requires 0 <= k < |ls| => StripSuffixOnce(ls[k])))
  }

  /** Stripping the name of a beautified copy gives back the original's. */
  lemma StripMarkerOfCopy(path: string)
    requires '\n' !in path
    ensures StripMarker(path + BeautifiedSuffix) == path
  {
    var c := path + BeautifiedSuffix;
    assert '\n' !in c;
    SingleLine(c);
    assert c[..|c| - |BeautifiedSuffix|] == path;
  }

  /** Stripping a name without the suffix leaves it alone. */
  lemma StripMarkerIdle(path: string)
    requires '\n' !in path && !EndsWith(path, BeautifiedSuffix)
    ensures StripMarker(path) == path
  {
    SingleLine(path);
  }

  function LastLine(s: string): string {
    Lines(s)[|Lines(s)| - 1]
  }

  /** The last line of `x + t`, for a tail without newlines, is the last
      line of `x` with `t` added. */
  lemma {:induction false} LastLineAppend(x: string, t: string)
    requires '\n' !in t
    ensures LastLine(x + t) == LastLine(x) + t
    decreases |x|
  {
    if x == [] {
      assert x + t == t;
      SingleLine(t);
      assert LastLine(x) == [];
      assert [] + t == t;
    } else {
      assert (x + t)[1..] == x[1..] + t;
      assert (x + t)[0] == x[0];
      LastLineAppend(x[1..], t);
      var r1 := Lines(x[1..]);
      var r2 := Lines(x[1..] + t);
      assert |r2| == |r1| by { LinesCount(x[1..], t); }
      if x[0] != '\n' && |r1| == 1 {
        assert LastLine(x) == [x[0]] + r1[0];
        assert LastLine(x + t) == [x[0]] + r2[0];
      }
    }
  }

  lemma {:induction false} LinesCount(x: string, t: string)
    requires '\n' !in t
    ensures |Lines(x + t)| == |Lines(x)|
    decreases |x|
  {
    if x == [] {
      assert x + t == t;
      SingleLine(t);
    } else {
      assert (x + t)[1..] == x[1..] + t;
      assert (x + t)[0] == x[0];
      LinesCount(x[1..], t);
    }
  }

  lemma EndsWithAppend(x: string, t: string)
    ensures EndsWith(x + t, t)
  {
    assert (x + t)[|x|..] == t;
  }

  lemma LastLineEnding(name: string)
    requires EndsWith(LastLine(name), BeautifiedSuffix)
    ensures IsBeautifiedCopyName(name)
  {
    var k := |Lines(name)| - 1;
    assert EndsWith(Lines(name)[k], BeautifiedSuffix);
  }

  /** The base name of `path + t`, for a tail without slashes or
      newlines, has a last line ending in `t`. */
  lemma AppendedNameEnding(path: string, t: string)
    requires '/' !in t && '\n' !in t
    ensures EndsWith(LastLine(Basename(path + t)), t)
  {
    BasenameAppend(path, t);
    var b := Basename(path);
    LastLineAppend(b, t);
    EndsWithAppend(LastLine(b), t);
  }

  /** A beautified copy is itself excluded by the second pattern, so the
      scanner never scans its own copies. */
  lemma CopyNameExcluded(path: string)
    ensures IsBeautifiedCopyName(Basename(path + BeautifiedSuffix))
  {
    AppendedNameEnding(path, BeautifiedSuffix);
    LastLineEnding(Basename(path + BeautifiedSuffix));
  }

  /** A path that ends in the suffix has a base name that is excluded. */
  lemma SuffixShowsInBasename(path: string)
    requires EndsWith(path, BeautifiedSuffix)
    ensures IsBeautifiedCopyName(Basename(path))
  {
    var q := path[..|path| - |BeautifiedSuffix|];
    assert path == q + BeautifiedSuffix;
    CopyNameExcluded(q);
  }
}
