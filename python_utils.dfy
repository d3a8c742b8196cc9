/**
 * The text utilities of `import_fixer/python_connect/python_utils.py`: module
 * keys derived from file paths, and the three regular-expression searches
 * the analysis runs over source text, each written out as an explicit
 * predicate over character positions.
 */
module PythonUtils {
  import opened Wrappers
  import opened Strings

  // ---------------------------------------------------------------------------
  // Module keys
  // ---------------------------------------------------------------------------

  /** The path the key is built from: the whole path, or (without the top-level package)
      what follows the last occurrence of `<first path segment>/`. */
  function RelativePath(path: string, includeTop: bool): string {
    if includeTop then path else AfterLast(path, BeforeFirst(path, "/") + "/")
  }

  /** The text before the first `.py`, with every `/` turned into `.`. */
  function DottedPath(path: string, includeTop: bool): (r: string)
    ensures '/' !in r
  {
    ReplaceRemoves(BeforeFirst(RelativePath(path, includeTop), ".py"), '/', ".");
    ReplaceAll(BeforeFirst(RelativePath(path, includeTop), ".py"), "/", ".")
  }

  /** `generate_relative_module_key`: the dotted path with every `.__init__` deleted. */
  function ModuleKey(path: string, includeTop: bool): (r: string)
    ensures '/' !in r
  {
    ReplaceChars(DottedPath(path, includeTop), ".__init__", "");
    ReplaceAll(DottedPath(path, includeTop), ".__init__", "")
  }

  /** A module path from its segments: every segment free of `/` and `.`, and none after the
      first one beginning with `__init__`. */
  predicate PlainSegments(segs: seq<string>) {
    |segs| > 0
    && (forall i :: 0 <= i < |segs| ==> '/' !in segs[i] && '.' !in segs[i])
    && (forall i :: 1 <= i < |segs| ==> !StartsWith(segs[i], "__init__"))
  }

  /** The key of `a/b/c.py` is `a.b.c`. */
  lemma ModuleKeyOfSegments(segs: seq<string>)
    requires PlainSegments(segs)
    ensures ModuleKey(Join(segs, "/") + ".py", true) == Join(segs, ".")
  {
    DottedPathOfSegments(segs);
    PlainSegmentsKept(segs);
  }

  /** The key of `a/b/__init__.py` is `a.b`: the package's own key. */
  lemma PackageInitKey(segs: seq<string>)
    requires PlainSegments(segs)
    ensures ModuleKey(Join(segs, "/") + "/__init__.py", true) == Join(segs, ".")
  {
    var withInit := segs + ["__init__"];
    JoinSnoc(segs, "__init__", "/");
    assert Join(segs, "/") + "/__init__.py" == Join(withInit, "/") + ".py";
    DottedPathOfSegments(withInit);
    InitSegmentDropped(segs);
  }

  lemma DottedPathOfSegments(segs: seq<string>)
    requires |segs| > 0 && forall i :: 0 <= i < |segs| ==> '/' !in segs[i] && '.' !in segs[i]
    ensures DottedPath(Join(segs, "/") + ".py", true) == Join(segs, ".")
  {
    var slashed := Join(segs, "/");
    JoinFree(segs, "/", '.');
    SplitAtFirst(slashed, ".py", "");
    assert slashed + ".py" == slashed + ".py" + "";
    SlashJoin(segs);
  }

  /** Without the top-level package, the first path segment and its slash are dropped, provided
      `<first segment>/` does not occur again further on (the split keeps the text after its
      last occurrence). */
  lemma RelativePathDropsTop(top: string, rest: string)
    requires '/' !in top && !Contains(rest, top + "/")
    ensures RelativePath(top + "/" + rest, false) == rest
  {
    var path := top + "/" + rest;
    SplitAtFirst(top, "/", rest);
    var sep := top + "/";
    assert BeforeFirst(path, "/") + "/" == sep;
    SplitAtFirst("", sep, rest);
    assert path == "" + sep + rest;
    SplitAbsent(rest, sep);
  }

  /** The documented examples, for any segment names of their shape: `app/module_2/a.py` gives
      `app.module_2.a` with the top-level package and `module_2.a` without it. */
  lemma DocExamples(app: string, pkg: string, mod: string)
    requires PlainSegments([app, pkg, mod])
    requires !Contains(pkg + "/" + mod + ".py", app + "/")
    ensures ModuleKey(app + "/" + pkg + "/" + mod + ".py", true) == app + "." + pkg + "." + mod
    ensures ModuleKey(app + "/" + pkg + "/" + mod + ".py", false) == pkg + "." + mod
  {
    JoinThree(app, pkg, mod);
    ModuleKeyOfSegments([app, pkg, mod]);
    var rest := pkg + "/" + mod + ".py";
    assert app + "/" + pkg + "/" + mod + ".py" == app + "/" + rest;
    RelativePathDropsTop(app, rest);
    JoinTwo(pkg, mod);
    assert PlainSegments([pkg, mod]);
    ModuleKeyOfSegments([pkg, mod]);
  }

  lemma JoinTwo(x: string, y: string)
    ensures Join([x, y], "/") == x + "/" + y && Join([x, y], ".") == x + "." + y
  {
    assert [x, y][1..] == [y];
  }

  lemma JoinThree(x: string, y: string, z: string)
    ensures Join([x, y, z], "/") == x + "/" + y + "/" + z
    ensures Join([x, y, z], ".") == x + "." + y + "." + z
  {
    assert [x, y, z][1..] == [y, z];
    JoinTwo(y, z);
  }

  lemma {:induction false} SlashJoin(segs: seq<string>)
    requires |segs| > 0 && forall i :: 0 <= i < |segs| ==> '/' !in segs[i]
    ensures ReplaceAll(Join(segs, "/"), "/", ".") == Join(segs, ".")
    decreases |segs|
  {
    if |segs| == 1 {
      ReplaceSkipsFree(segs[0], "/", ".", "");
      assert segs[0] + "" == segs[0];
    } else {
      var rest := Join(segs[1..], "/");
      calc {
        ReplaceAll(Join(segs, "/"), "/", ".");
        { assert Join(segs, "/") == segs[0] + ("/" + rest); }
        ReplaceAll(segs[0] + ("/" + rest), "/", ".");
        { ReplaceSkipsFree(segs[0], "/", ".", "/" + rest); }
        segs[0] + ReplaceAll("/" + rest, "/", ".");
        { ReplaceAtFront("/", ".", rest); }
        segs[0] + ("." + ReplaceAll(rest, "/", "."));
        { SlashJoin(segs[1..]); }
        segs[0] + ("." + Join(segs[1..], "."));
        { assert segs[0] + ("." + Join(segs[1..], ".")) == segs[0] + "." + Join(segs[1..], "."); }
        Join(segs, ".");
      }
    }
  }

  /** A dot-free segment that does not begin with the dot-free word `w`, followed by nothing or
      by a dot, does not begin with `w` either. */
  lemma NotWordPrefix(seg: string, tail: string, w: string)
    requires !StartsWith(seg, w) && '.' !in seg && '.' !in w
    requires tail == [] || tail[0] == '.'
    ensures !StartsWith(seg + tail, w)
  {
    if |seg| >= |w| {
      assert seg[..|w|] == (seg + tail)[..|w|];
    } else if tail != [] && |seg + tail| >= |w| {
      assert (seg + tail)[|seg|] == '.';
      assert w[|seg|] != '.';
    }
  }

  /** Deleting a dotted word `pat` (such as `.__init__`) from a dotted join: the first segment
      and its dot are kept, since the text after the dot does not begin with the word. */
  lemma DotStepKept(seg: string, next: string, tail: string, pat: string)
    requires |pat| > 1 && pat[0] == '.' && '.' !in pat[1..]
    requires '.' !in seg && '.' !in next && !StartsWith(next, pat[1..])
    requires tail == [] || tail[0] == '.'
    ensures ReplaceAll(seg + ("." + (next + tail)), pat, "") == seg + ("." + ReplaceAll(next + tail, pat, ""))
  {
    NotWordPrefix(next, tail, pat[1..]);
    ReplaceSkipsFree(seg, pat, "", "." + (next + tail));
    DotNotWord(next + tail, pat);
  }

  /** A dot followed by text that does not begin with the rest of `pat` is copied by the
      deletion of `pat`. */
  lemma DotNotWord(t: string, pat: string)
    requires |pat| > 1 && pat[0] == '.' && !StartsWith(t, pat[1..])
    ensures ReplaceAll("." + t, pat, "") == "." + ReplaceAll(t, pat, "")
  {
    assert !StartsWith("." + t, pat) by {
      if |pat| <= |t| + 1 {
        assert ("." + t)[1..|pat|] == t[..|pat| - 1];
        assert pat[1..] == pat[1..|pat|];
      }
    }
    assert "." + t == ['.'] + t;
    ReplaceSkipsChar('.', t, pat, "");
  }

  lemma {:induction false} PlainSegmentsKept(segs: seq<string>)
    requires PlainSegments(segs)
    ensures ReplaceAll(Join(segs, "."), ".__init__", "") == Join(segs, ".")
  {
    assert ".__init__" == "." + "__init__";
    WordSegmentsKept(segs, "__init__", ".__init__");
  }

  /** Deleting `.w` from a dotted join changes nothing when no segment after the first begins
      with the dot-free word `w`. */
  lemma {:induction false} WordSegmentsKept(segs: seq<string>, w: string, pat: string)
    requires |segs| > 0 && forall i :: 0 <= i < |segs| ==> '.' !in segs[i]
    requires forall i :: 1 <= i < |segs| ==> !StartsWith(segs[i], w)
    requires w != [] && '.' !in w && pat == "." + w
    ensures ReplaceAll(Join(segs, "."), pat, "") == Join(segs, ".")
    decreases |segs|
  {
    assert pat[1..] == w;
    if |segs| == 1 {
      ReplaceSkipsFree(segs[0], pat, "", "");
      assert segs[0] + "" == segs[0];
    } else {
      var rest := segs[1..];
      var tail := if |rest| == 1 then [] else "." + Join(rest[1..], ".");
      assert Join(rest, ".") == rest[0] + tail;
      DotStepKept(segs[0], rest[0], tail, pat);
      assert Join(segs, ".") == segs[0] + ("." + (rest[0] + tail));
      WordSegmentsKept(rest, w, pat);
    }
  }

  lemma {:induction false} InitSegmentDropped(segs: seq<string>)
    requires PlainSegments(segs)
    ensures ReplaceAll(Join(segs + ["__init__"], "."), ".__init__", "") == Join(segs, ".")
    decreases |segs|
  {
    assert ".__init__" == "." + "__init__";
    WordSegmentDropped(segs, "__init__", ".__init__");
  }

  /** Deleting `.w` from a dotted join that ends in the segment `w` drops exactly that segment,
      when no other segment after the first begins with the dot-free word `w`. */
  lemma {:induction false} WordSegmentDropped(segs: seq<string>, w: string, pat: string)
    requires |segs| > 0 && forall i :: 0 <= i < |segs| ==> '.' !in segs[i]
    requires forall i :: 1 <= i < |segs| ==> !StartsWith(segs[i], w)
    requires w != [] && '.' !in w && pat == "." + w
    ensures ReplaceAll(Join(segs + [w], "."), pat, "") == Join(segs, ".")
    decreases |segs|
  {
    assert pat[1..] == w;
    if |segs| == 1 {
      assert Join(segs + [w], ".") == segs[0] + (pat + "");
      ReplaceSkipsFree(segs[0], pat, "", pat + "");
      ReplaceAtFront(pat, "", "");
    } else {
      var rest := segs[1..];
      assert (segs + [w])[1..] == rest + [w];
      var tail := "." + Join(rest[1..] + [w], ".");
      assert (rest + [w])[1..] == rest[1..] + [w];
      assert Join(rest + [w], ".") == rest[0] + tail;
      DotStepKept(segs[0], rest[0], tail, pat);
      assert Join(segs + [w], ".") == segs[0] + ("." + (rest[0] + tail));
      WordSegmentDropped(rest, w, pat);
    }
  }

  /** A path with no directory part gives the same key with or without the top-level package. */
  lemma ModuleKeyNoDirectory(path: string)
    requires '/' !in path
    ensures RelativePath(path, false) == path
    ensures ModuleKey(path, false) == ModuleKey(path, true)
  {
    SplitWithoutSeparator(path, "/", 0);
    assert BeforeFirst(path, "/") == path;
    SplitWithoutSeparator(path, path + "/", |path|);
  }

  // ---------------------------------------------------------------------------
  // has_symbol_usage
  // ---------------------------------------------------------------------------

  /** The ASCII part of the regular-expression class `\w`. */
  predicate IsWordChar(c: char) {
    ('a' <= c <= 'z') || ('A' <= c <= 'Z') || ('0' <= c <= '9') || c == '_'
  }

  /** Characters that change the meaning of a pattern they are pasted into. */
  predicate IsRegexMeta(c: char) {
    c in ".^$*+?{}[]\\|()"
  }

  /** A symbol that, pasted into the usage pattern, stands for itself. */
  predicate PlainSymbol(symbol: string) {
    |symbol| > 0 && forall j :: 0 <= j < |symbol| ==> !IsRegexMeta(symbol[j])
  }

  /** The left context `([^.\n\w]|^| |\n)`: the start of the text, or a character that is
      neither `.` nor a word character (a newline or a space included). */
  predicate LeftBoundary(content: string, i: nat)
    requires i <= |content|
  {
    i == 0 || (content[i - 1] != '.' && !IsWordChar(content[i - 1]))
  }

  /** One match of `<symbol>+` followed by a follower character: the symbol starts at `i`, its
      last character occurs `k >= 1` times, and the follower sits right after. */
  predicate UsageAt(symbol: string, content: string, followers: set<char>, i: nat, k: nat)
    requires |symbol| > 0
  {
    var n := |symbol|;
    var e := i + n - 1 + k;
    k >= 1 && e < |content|
    && content[i..i + n - 1] == symbol[..n - 1]
    && (forall j :: i + n - 1 <= j < e ==> content[j] == symbol[n - 1])
    && content[e] in followers
    && LeftBoundary(content, i)
  }

  /** A search for the usage pattern built from `symbol` with the given follower class.
      A symbol that is not plain contributes no usage. */
  predicate SymbolUsage(symbol: string, content: string, followers: set<char>) {
    PlainSymbol(symbol)
    && exists i: nat, k: nat :: i < |content| && k < |content| && UsageAt(symbol, content, followers, i, k)
  }

  /** The follower class `[.|(|)||:|,]`. */
  const UsageFollowers: set<char> := {'.', '|', '(', ')', ':', ','}

  /** `has_symbol_usage` */
  predicate HasSymbolUsage(symbol: string, content: string) {
    SymbolUsage(symbol, content, UsageFollowers)
  }

  /** An occurrence of a plain symbol after a boundary and before a follower is a usage. */
  lemma UsageDetected(symbol: string, content: string, followers: set<char>, i: nat)
    requires PlainSymbol(symbol)
    requires i + |symbol| < |content| && content[i..i + |symbol|] == symbol
    requires content[i + |symbol|] in followers
    requires LeftBoundary(content, i)
    ensures SymbolUsage(symbol, content, followers)
  {
    var n := |symbol|;
    assert content[i..i + n - 1] == content[i..i + n][..n - 1];
    assert content[i + n - 1] == content[i..i + n][n - 1];
    assert UsageAt(symbol, content, followers, i, 1);
  }

  /** A usage always contains the symbol itself as a substring. */
  lemma UsageContainsSymbol(symbol: string, content: string, followers: set<char>)
    requires SymbolUsage(symbol, content, followers)
    ensures Contains(content, symbol)
  {
    var i: nat, k: nat :| i < |content| && k < |content| && UsageAt(symbol, content, followers, i, k);
    var n := |symbol|;
    assert content[i..i + n] == content[i..i + n - 1] + [content[i + n - 1]];
    assert symbol == symbol[..n - 1] + [symbol[n - 1]];
    ContainsAt(content, symbol, i);
  }

  /** The `+` pasted after the symbol repeats its last character: `ab` is used in `abbb(`. */
  lemma RepeatedLastCharacter()
    ensures HasSymbolUsage("ab", "abbb(")
  {
    assert UsageAt("ab", "abbb(", UsageFollowers, 0, 3);
  }

  /** A symbol that would make the pattern invalid (`*`, say) is never reported as used. */
  lemma MetaSymbolNeverUsed(content: string)
    ensures !HasSymbolUsage("*", content)
  {
    assert IsRegexMeta("*"[0]);
  }

  // ---------------------------------------------------------------------------
  // has_wildcard_import and get_top_level_import_matches
  // ---------------------------------------------------------------------------

  /** The number of spaces (the class `[ ]`) starting at `p`. */
  function SpaceRun(s: string, p: nat): (n: nat)
    requires p <= |s|
    ensures p + n <= |s|
    decreases |s| - p
  {
    if p < |s| && s[p] == ' ' then 1 + SpaceRun(s, p + 1) else 0
  }

  /** The class `\s` of a pattern. A bytes pattern (`bytes`) knows only the six ASCII
      white-space bytes, and every byte of a non-ASCII character lies outside it; a str pattern
      knows every Unicode white-space character. */
  predicate PatternSpace(c: char, bytes: bool) {
    if bytes then c == ' ' || '\t' <= c <= '\r' else IsSpace(c)
  }

  /** The number of characters of the class `\S` starting at `p`. */
  function TokenRun(s: string, p: nat, bytes: bool): (n: nat)
    requires p <= |s|
    ensures p + n <= |s|
    decreases |s| - p
  {
    if p < |s| && !PatternSpace(s[p], bytes) then 1 + TokenRun(s, p + 1, bytes) else 0
  }

  /** Where `from[ ]+\S+[ ]+import[ ]+` matching at `i` ends, for a bytes or a str pattern.
      Every repetition is maximal: the character after each run cannot belong to it, so
      backtracking finds nothing else. */
  function FromClauseEnd(s: string, i: nat, bytes: bool): (r: Option<nat>)
    requires i <= |s|
    ensures r.Some? ==> i + 13 <= r.value <= |s|
  {
    if !(i + 4 <= |s| && s[i..i + 4] == "from") then None
    else
      var p := i + 4;
      var a := SpaceRun(s, p);
      if a == 0 then None
      else
        var q := p + a;
        var t := TokenRun(s, q, bytes);
        if t == 0 then None
        else
          var r := q + t;
          var b := SpaceRun(s, r);
          if b == 0 then None
          else
            var u := r + b;
            if !(u + 6 <= |s| && s[u..u + 6] == "import") then None
            else
              var v := u + 6;
              var c := SpaceRun(s, v);
              if c == 0 then None else Some(v + c)
  }

  /** The bytes pattern `from[ ]+(\S+)[ ]+import[ ]+[*]` matches at `i`. */
  predicate WildcardAt(s: string, i: nat)
    requires i <= |s|
  {
    var e := FromClauseEnd(s, i, true);
    e.Some? && e.value < |s| && s[e.value] == '*'
  }

  /** `has_wildcard_import`: the pattern matches somewhere. */
  predicate HasWildcardImport(s: string) {
    exists i: nat :: i <= |s| && WildcardAt(s, i)
  }

  predicate AllSpaces(s: string, p: nat, n: nat) {
    p + n <= |s| && forall j :: p <= j < p + n ==> s[j] == ' '
  }

  predicate AllToken(s: string, p: nat, n: nat, bytes: bool) {
    p + n <= |s| && forall j :: p <= j < p + n ==> !PatternSpace(s[j], bytes)
  }

  /** The wildcard pattern read as a regular expression: some run lengths `a, t, b, c`, each at
      least one, for the four repetitions. */
  predicate WildcardShape(s: string, i: nat, a: nat, t: nat, b: nat, c: nat) {
    var p := i + 4;
    var q := p + a;
    var r := q + t;
    var u := r + b;
    var v := u + 6;
    i + 4 <= |s| && s[i..i + 4] == "from"
    && a >= 1 && AllSpaces(s, p, a)
    && t >= 1 && AllToken(s, q, t, true)
    && b >= 1 && AllSpaces(s, r, b)
    && v <= |s| && s[u..v] == "import"
    && c >= 1 && AllSpaces(s, v, c)
    && v + c < |s| && s[v + c] == '*'
  }

  lemma {:induction false} SpaceRunExact(s: string, p: nat, n: nat)
    requires AllSpaces(s, p, n) && (p + n == |s| || s[p + n] != ' ')
    ensures SpaceRun(s, p) == n
    decreases n
  {
    if n > 0 {
      SpaceRunExact(s, p + 1, n - 1);
    }
  }

  lemma {:induction false} SpaceRunSpec(s: string, p: nat)
    requires p <= |s|
    ensures AllSpaces(s, p, SpaceRun(s, p))
    ensures p + SpaceRun(s, p) == |s| || s[p + SpaceRun(s, p)] != ' '
    decreases |s| - p
  {
    if p < |s| && s[p] == ' ' {
      SpaceRunSpec(s, p + 1);
    }
  }

  lemma {:induction false} TokenRunExact(s: string, p: nat, n: nat, bytes: bool)
    requires AllToken(s, p, n, bytes) && (p + n == |s| || PatternSpace(s[p + n], bytes))
    ensures TokenRun(s, p, bytes) == n
    decreases n
  {
    if n > 0 {
      TokenRunExact(s, p + 1, n - 1, bytes);
    }
  }

  lemma {:induction false} TokenRunSpec(s: string, p: nat, bytes: bool)
    requires p <= |s|
    ensures AllToken(s, p, TokenRun(s, p, bytes), bytes)
    ensures p + TokenRun(s, p, bytes) == |s| || PatternSpace(s[p + TokenRun(s, p, bytes)], bytes)
    decreases |s| - p
  {
    if p < |s| && !PatternSpace(s[p], bytes) {
      TokenRunSpec(s, p + 1, bytes);
    }
  }

  /** The greedy scan, given the four run lengths it computes. */
  lemma FromClauseOfRuns(s: string, i: nat, a: nat, t: nat, b: nat, c: nat, bytes: bool)
    requires i + 4 <= |s| && s[i..i + 4] == "from"
    requires a >= 1 && i + 4 + a <= |s| && SpaceRun(s, i + 4) == a
    requires t >= 1 && i + 4 + a + t <= |s| && TokenRun(s, i + 4 + a, bytes) == t
    requires b >= 1 && i + 4 + a + t + b <= |s| && SpaceRun(s, i + 4 + a + t) == b
    requires i + 10 + a + t + b <= |s| && s[i + 4 + a + t + b..i + 10 + a + t + b] == "import"
    requires c >= 1 && SpaceRun(s, i + 10 + a + t + b) == c
    ensures FromClauseEnd(s, i, bytes) == Some(i + 10 + a + t + b + c)
  {
  }

  /** Reading the pattern with backtracking finds only matches the greedy scan finds. */
  lemma ShapeIsGreedy(s: string, i: nat, a: nat, t: nat, b: nat, c: nat)
    requires WildcardShape(s, i, a, t, b, c)
    ensures WildcardAt(s, i)
  {
    ShapeRunLengths(s, i, a, t, b, c);
    FromClauseOfRuns(s, i, a, t, b, c, true);
  }

  /** In a match of the pattern, each repetition takes the longest run it can. */
  lemma ShapeRunLengths(s: string, i: nat, a: nat, t: nat, b: nat, c: nat)
    requires WildcardShape(s, i, a, t, b, c)
    ensures SpaceRun(s, i + 4) == a && TokenRun(s, i + 4 + a, true) == t
    ensures SpaceRun(s, i + 4 + a + t) == b && SpaceRun(s, i + 10 + a + t + b) == c
  {
    var p := i + 4;
    var u := p + a + t + b;
    assert SpaceRun(s, p) == a by {
      assert !PatternSpace(s[p + a], true);
      SpaceRunExact(s, p, a);
    }
    assert TokenRun(s, p + a, true) == t by {
      assert s[p + a + t] == ' ';
      TokenRunExact(s, p + a, t, true);
    }
    assert SpaceRun(s, p + a + t) == b by {
      assert s[u] == s[u..u + 6][0];
      SpaceRunExact(s, p + a + t, b);
    }
    assert SpaceRun(s, u + 6) == c by {
      SpaceRunExact(s, u + 6, c);
    }
  }

  /** What a successful greedy scan establishes about the text. */
  lemma FromClauseFacts(s: string, i: nat) returns (a: nat, t: nat, b: nat, c: nat)
    requires i <= |s| && FromClauseEnd(s, i, true).Some?
    ensures i + 4 <= |s| && s[i..i + 4] == "from"
    ensures a >= 1 && SpaceRun(s, i + 4) == a
    ensures t >= 1 && TokenRun(s, i + 4 + a, true) == t
    ensures b >= 1 && SpaceRun(s, i + 4 + a + t) == b
    ensures i + 10 + a + t + b <= |s| && s[i + 4 + a + t + b..i + 10 + a + t + b] == "import"
    ensures c >= 1 && SpaceRun(s, i + 10 + a + t + b) == c
    ensures FromClauseEnd(s, i, true) == Some(i + 10 + a + t + b + c)
  {
    a := SpaceRun(s, i + 4);
    t := TokenRun(s, i + 4 + a, true);
    b := SpaceRun(s, i + 4 + a + t);
    c := SpaceRun(s, i + 10 + a + t + b);
  }

  /** Every greedy match is a match of the pattern. */
  lemma GreedyIsShape(s: string, i: nat) returns (a: nat, t: nat, b: nat, c: nat)
    requires i <= |s| && WildcardAt(s, i)
    ensures WildcardShape(s, i, a, t, b, c)
  {
    a, t, b, c := FromClauseFacts(s, i);
    var e := i + 10 + a + t + b + c;
    assert e < |s| && s[e] == '*';
    ShapeOfRuns(s, i, a, t, b, c);
  }

  lemma ShapeOfRuns(s: string, i: nat, a: nat, t: nat, b: nat, c: nat)
    requires i + 4 <= |s| && s[i..i + 4] == "from"
    requires a >= 1 && SpaceRun(s, i + 4) == a
    requires t >= 1 && TokenRun(s, i + 4 + a, true) == t
    requires b >= 1 && SpaceRun(s, i + 4 + a + t) == b
    requires i + 10 + a + t + b <= |s| && s[i + 4 + a + t + b..i + 10 + a + t + b] == "import"
    requires c >= 1 && SpaceRun(s, i + 10 + a + t + b) == c
    requires i + 10 + a + t + b + c < |s| && s[i + 10 + a + t + b + c] == '*'
    ensures WildcardShape(s, i, a, t, b, c)
  {
    var p := i + 4;
    assert AllSpaces(s, p, a) by { SpaceRunSpec(s, p); }
    assert AllToken(s, p + a, t, true) by { TokenRunSpec(s, p + a, true); }
    assert AllSpaces(s, p + a + t, b) by { SpaceRunSpec(s, p + a + t); }
    assert AllSpaces(s, p + a + t + b + 6, c) by { SpaceRunSpec(s, p + a + t + b + 6); }
  }

  /** The greedy scan finds a match at `i` exactly when the pattern, read with backtracking,
      matches there. */
  lemma WildcardAtSpec(s: string, i: nat)
    requires i <= |s|
    ensures WildcardAt(s, i) <==> exists a, t, b, c :: WildcardShape(s, i, a, t, b, c)
  {
    if WildcardAt(s, i) {
      var a, t, b, c := GreedyIsShape(s, i);
    }
    if exists a, t, b, c :: WildcardShape(s, i, a, t, b, c) {
      var a, t, b, c :| WildcardShape(s, i, a, t, b, c);
      ShapeIsGreedy(s, i, a, t, b, c);
    }
  }

  /** `from <m> import <after>` with single spaces: the clause ends where `after` starts, for
      a module `m` free of the pattern's white space. */
  lemma FromStatementClause(m: string, after: string, bytes: bool)
    requires |m| > 0 && forall j :: 0 <= j < |m| ==> !PatternSpace(m[j], bytes)
    requires after == [] || after[0] != ' '
    ensures FromClauseEnd("from " + m + " import " + after, 0, bytes) == Some(13 + |m|)
  {
    var s := "from " + m + " import " + after;
    var n := |m|;
    assert s[..4] == "from";
    assert SpaceRun(s, 4) == 1 by {
      assert AllSpaces(s, 4, 1) && s[5] == m[0];
      SpaceRunExact(s, 4, 1);
    }
    assert TokenRun(s, 5, bytes) == n by {
      forall j | 5 <= j < 5 + n ensures !PatternSpace(s[j], bytes) {
        assert s[j] == m[j - 5];
      }
      assert PatternSpace(s[5 + n], bytes);
      TokenRunExact(s, 5, n, bytes);
    }
    assert SpaceRun(s, 5 + n) == 1 by {
      assert AllSpaces(s, 5 + n, 1) && s[6 + n] == 'i';
      SpaceRunExact(s, 5 + n, 1);
    }
    assert s[6 + n..12 + n] == "import";
    assert SpaceRun(s, 12 + n) == 1 by {
      assert AllSpaces(s, 12 + n, 1);
      assert 13 + n == |s| || s[13 + n] == after[0];
      SpaceRunExact(s, 12 + n, 1);
    }
    FromClauseOfRuns(s, 0, 1, n, 1, 1, bytes);
  }

  /** A statement `from <module> import *` with single spaces is detected whenever the module
      holds none of the six ASCII white-space characters. */
  lemma WildcardStatementDetected(m: string, rest: string)
    requires |m| > 0 && forall j :: 0 <= j < |m| ==> !PatternSpace(m[j], true)
    ensures HasWildcardImport("from " + m + " import *" + rest)
  {
    var s := "from " + m + " import *" + rest;
    assert s == "from " + m + " import " + ("*" + rest);
    FromStatementClause(m, "*" + rest, true);
    assert s[13 + |m|] == '*';
    assert WildcardAt(s, 0);
  }

  /** The bytes pattern reads a no-break space inside the module as part of the token. */
  lemma NoBreakSpaceInModule()
    ensures HasWildcardImport("from a\U{00A0}b import *")
  {
    var m := "a\U{00A0}b";
    forall j | 0 <= j < |m| ensures !PatternSpace(m[j], true) {
      assert m[j] == 'a' || m[j] == '\U{00A0}' || m[j] == 'b';
    }
    WildcardStatementDetected(m, "");
    assert "from " + m + " import *" + "" == "from a\U{00A0}b import *";
  }

  /** The index of the first newline at or after `p`, or the end of the text: where `.*` stops. */
  function LineEnd(s: string, p: nat): (e: nat)
    requires p <= |s|
    ensures p <= e <= |s|
    ensures forall j :: p <= j < e ==> s[j] != '\n'
    ensures e < |s| ==> s[e] == '\n'
    decreases |s| - p
  {
    if p == |s| || s[p] == '\n' then p else LineEnd(s, p + 1)
  }

  /** The index of the first `)` at or after `p`, if any: where `[^)]*[)]` stops. */
  function CloseParen(s: string, p: nat): (r: Option<nat>)
    requires p <= |s|
    ensures r.Some? ==> p <= r.value < |s| && s[r.value] == ')'
    ensures r.Some? ==> forall j :: p <= j < r.value ==> s[j] != ')'
    ensures r.None? ==> forall j :: p <= j < |s| ==> s[j] != ')'
    decreases |s| - p
  {
    if p == |s| then None else if s[p] == ')' then Some(p) else CloseParen(s, p + 1)
  }

  /** After `import[ ]+`: `.[(\n][^)]*[)]` when it can match, otherwise `.*` to the end of the line. */
  function FromTail(s: string, w: nat): (e: nat)
    requires w <= |s|
    ensures w <= e <= |s|
  {
    if w + 1 < |s| && s[w] != '\n' && (s[w + 1] == '(' || s[w + 1] == '\n') && CloseParen(s, w + 2).Some?
    then CloseParen(s, w + 2).value + 1
    else LineEnd(s, w)
  }

  /** `get_top_level_import_matches`: the pattern is anchored with `^` and not compiled in
      multi-line mode, so it can only match at offset 0; the result is the end of that one
      match, if there is one. */
  function TopLevelImportEnd(s: string): (r: Option<nat>)
    ensures r.Some? ==> r.value <= |s|
    ensures r.Some? ==> StartsWith(s, "from") || StartsWith(s, "import")
  {
    if StartsWith(s, "from") then
      match FromClauseEnd(s, 0, false)
      case None => None
      case Some(w) => Some(FromTail(s, w))
    else if StartsWith(s, "import") then Some(LineEnd(s, 6))
    else None
  }

  /** A plain `import` statement on the first line matches up to the end of that line. */
  lemma ImportLineMatch(line: string, rest: string)
    requires '\n' !in line
    ensures TopLevelImportEnd("import" + line + "\n" + rest) == Some(6 + |line|)
  {
    var s := "import" + line + "\n" + rest;
    assert s[..6] == "import";
    assert !StartsWith(s, "from") by {
      assert s[0] == 'i';
    }
    var e := LineEnd(s, 6);
    assert s[6 + |line|] == '\n';
    forall j | 6 <= j < 6 + |line| ensures s[j] != '\n' {
      assert s[j] == line[j - 6];
    }
  }

  /** A parenthesised multi-line `from` import matches up to its closing parenthesis. */
  lemma ParenthesisedFromMatch(m: string, body: string, rest: string)
    requires |m| > 0 && forall j :: 0 <= j < |m| ==> !PatternSpace(m[j], false)
    requires ')' !in body
    ensures TopLevelImportEnd("from " + m + " import (\n" + body + ")" + rest)
         == Some(|"from " + m + " import (\n" + body + ")"|)
  {
    var after := "(\n" + body + ")" + rest;
    var s := "from " + m + " import " + after;
    assert s == "from " + m + " import (\n" + body + ")" + rest;
    FromStatementClause(m, after, false);
    var w := 13 + |m|;
    assert StartsWith(s, "from") by {
      assert s[..4] == "from";
    }
    assert s[w] == '(' && s[w + 1] == '\n';
    var close := w + 2 + |body|;
    assert s[close] == ')';
    forall j | w + 2 <= j < close ensures s[j] != ')' {
      assert s[j] == body[j - w - 2];
    }
    CloseParenFirst(s, w + 2, close);
  }

  lemma {:induction false} CloseParenFirst(s: string, p: nat, k: nat)
    requires p <= k < |s| && s[k] == ')'
    requires forall j :: p <= j < k ==> s[j] != ')'
    ensures CloseParen(s, p) == Some(k)
    decreases k - p
  {
    if p < k {
      CloseParenFirst(s, p + 1, k);
    }
  }

  /** Text that starts with neither keyword has no top-level import match. */
  lemma NoMatchWithoutKeyword(s: string)
    requires !StartsWith(s, "from") && !StartsWith(s, "import")
    ensures TopLevelImportEnd(s).None?
  {
  }
}
