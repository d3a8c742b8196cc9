/**
 * `changer/git/git_rules.py`: what `get_git_file_info` reads from the output
 * of `git diff <base> <path>`: whether the file is new or deleted, the line
 * numbers the hunk headers point at, and the text of the added lines. Git
 * itself is not modelled: its output, its error, or the absence of a
 * worktree is an input.
 */
module GitRules {
  import opened Wrappers
  import opened Strings

  /** `GitFileInfo`. */
  datatype GitFileInfo = GitFileInfo(
    address: string,
    isNewFile: bool,
    isDeleted: bool,
    modifiedLines: seq<string>,
    newCode: seq<string>)

  /** What running `git diff` gave: its standard output, a `GitBinaryException` with its message,
      or no git worktree at all. */
  datatype GitOutcome = Output(text: string) | GitError(message: string) | NoWorktree

  const NoWorktreeMessage := "GitTreeNotFoundError: You are not running in a git worktree. Please ensure you are running this goal from a git project directory."

  // ---------------------------------------------------------------------------
  // One line of the diff
  // ---------------------------------------------------------------------------

  /** The three line numbers a hunk start `s` gives: `s` itself, then `str(int(s) + 1)` and
      `str(int(s) + 2)`; nothing for an empty start; a `ValueError` for a start that is not a
      number. */
  function Triple(s: string): (r: Result<seq<string>, string>)
    ensures r.Success? ==> |r.value| == 0 || |r.value| == 3
    ensures r.Success? && r.value != [] ==>
              ParseInt(r.value[0]).Some? &&
              r.value[1] == IntStr(ParseInt(r.value[0]).value + 1) &&
              r.value[2] == IntStr(ParseInt(r.value[0]).value + 2)
    ensures r.Success? <==> s == [] || ParseInt(s).Some?
  {
    if s == [] then Success([])
    else
      match ParseInt(s)
      case None => Failure("ValueError: invalid literal for int() with base 10: '" + s + "'")
      case Some(n) => Success([s, IntStr(n + 1), IntStr(n + 2)])
  }

  const IndexError := "IndexError: list index out of range"

  /** The number after the `sign` of the hunk-header field `field`, up to its first comma:
      `field.split(sign)[1].split(",")[0]`. */
  function HunkStart(field: string, sign: string): Result<string, string>
    requires |sign| > 0
  {
    var parts := SplitOn(field, sign);
    if |parts| < 2 then Failure(IndexError) else Success(BeforeFirst(parts[1], ","))
  }

  /** The line numbers of a hunk header `@@ -m,k +n,l @@`: the triple of the added start `n`
      first, then the triple of the removed start `m`. */
  function HunkLines(line: string): Result<seq<string>, string> {
    var words := SplitWs(line);
    if |words| < 2 then Failure(IndexError)
    else
      match HunkStart(words[1], "-")
      case Failure(e) => Failure(e)
      case Success(removed) =>
        if |words| < 3 then Failure(IndexError)
        else
          match HunkStart(words[2], "+")
          case Failure(e) => Failure(e)
          case Success(added) =>
            match Triple(added)
            case Failure(e) => Failure(e)
            case Success(a) =>
              match Triple(removed)
              case Failure(e) => Failure(e)
              case Success(m) => Success(a + m)
  }

  /** The field `<sign><start>,<count>` of a hunk header gives its start. */
  lemma HunkStartOf(sign: char, start: string, count: string)
    requires sign == '-' || sign == '+'
    requires AllDigits(start) && AllDigits(count)
    ensures HunkStart([sign] + start + "," + count, [sign]) == Success(start)
  {
    var body := start + "," + count;
    assert [sign] + start + "," + count == [] + [sign] + body;
    SplitAtFirst([], [sign], body);
    forall j | 0 <= j < |body| ensures body[j] != sign {
      if j < |start| { assert body[j] == start[j]; }
      else if j > |start| { assert body[j] == count[j - |start| - 1]; }
    }
    SplitWithoutSeparator(body, [sign], 0);
    forall j | 0 <= j < |start| ensures start[j] != ',' {
      assert IsDigit(start[j]);
    }
    SplitAtFirst(start, ",", count);
  }

  /** The words of a hunk header `@@ -m,k +n,l ...`. */
  lemma HeaderWords(m: string, k: string, n: string, l: string, rest: string)
    requires AllDigits(m) && AllDigits(k) && AllDigits(n) && AllDigits(l)
    ensures SplitWs("@@ -" + m + "," + k + " +" + n + "," + l + " " + rest) ==
      ["@@", "-" + m + "," + k, "+" + n + "," + l] + SplitWs(rest)
  {
    var removed := "-" + m + "," + k;
    var added := "+" + n + "," + l;
    assert "@@ -" + m + "," + k + " +" + n + "," + l + " " + rest
        == "@@" + " " + (removed + " " + (added + " " + rest));
    WordFree(removed, '-', m, k);
    WordFree(added, '+', n, l);
    ThreeWords("@@", removed, added, rest);
  }

  lemma ThreeWords(a: string, b: string, c: string, rest: string)
    requires a != [] && forall j :: 0 <= j < |a| ==> !IsSpace(a[j])
    requires b != [] && forall j :: 0 <= j < |b| ==> !IsSpace(b[j])
    requires c != [] && forall j :: 0 <= j < |c| ==> !IsSpace(c[j])
    ensures SplitWs(a + " " + (b + " " + (c + " " + rest))) == [a, b, c] + SplitWs(rest)
  {
    SplitWsWord(c, rest);
    SplitWsWord(b, c + " " + rest);
    SplitWsWord(a, b + " " + (c + " " + rest));
  }

  /** A hunk header `@@ -m,k +n,l ...` with decimal numbers gives the three line numbers from
      the added start `n`, then the three from the removed start `m`. */
  lemma HunkHeaderLines(m: string, k: string, n: string, l: string, rest: string)
    requires m != [] && n != [] && AllDigits(m) && AllDigits(k) && AllDigits(n) && AllDigits(l)
    ensures HunkLines("@@ -" + m + "," + k + " +" + n + "," + l + " " + rest) ==
      Success([n, IntStr(DigitsValue(n) + 1), IntStr(DigitsValue(n) + 2),
               m, IntStr(DigitsValue(m) + 1), IntStr(DigitsValue(m) + 2)])
  {
    HeaderWords(m, k, n, l, rest);
    HeaderStarts(m, k, n, l);
    HunkLinesOfWords("@@ -" + m + "," + k + " +" + n + "," + l + " " + rest, m, n);
  }

  /** The starts and triples of the two fields of a decimal hunk header. */
  lemma HeaderStarts(m: string, k: string, n: string, l: string)
    requires m != [] && n != [] && AllDigits(m) && AllDigits(k) && AllDigits(n) && AllDigits(l)
    ensures HunkStart("-" + m + "," + k, "-") == Success(m)
    ensures HunkStart("+" + n + "," + l, "+") == Success(n)
    ensures Triple(n).value + Triple(m).value ==
      [n, IntStr(DigitsValue(n) + 1), IntStr(DigitsValue(n) + 2),
       m, IntStr(DigitsValue(m) + 1), IntStr(DigitsValue(m) + 2)]
    ensures Triple(n).Success? && Triple(m).Success?
  {
    assert "-" + m + "," + k == ['-'] + m + "," + k && "+" + n + "," + l == ['+'] + n + "," + l;
    HunkStartOf('-', m, k);
    HunkStartOf('+', n, l);
    DigitsTriple(n);
    DigitsTriple(m);
  }

  /** `HunkLines` once both fields have given their starts. */
  lemma HunkLinesOfWords(line: string, removed: string, added: string)
    requires |SplitWs(line)| >= 3
    requires HunkStart(SplitWs(line)[1], "-") == Success(removed)
    requires HunkStart(SplitWs(line)[2], "+") == Success(added)
    requires Triple(added).Success? && Triple(removed).Success?
    ensures HunkLines(line) == Success(Triple(added).value + Triple(removed).value)
  {
  }

  /** A decimal start gives its triple. */
  lemma DigitsTriple(s: string)
    requires s != [] && AllDigits(s)
    ensures Triple(s) == Success([s, IntStr(DigitsValue(s) + 1), IntStr(DigitsValue(s) + 2)])
  {
    ParseDigits(s);
  }

  lemma WordFree(w: string, sign: char, start: string, count: string)
    requires sign == '-' || sign == '+'
    requires AllDigits(start) && AllDigits(count) && w == [sign] + start + "," + count
    ensures w != [] && forall j :: 0 <= j < |w| ==> !IsSpace(w[j])
  {
    forall j | 0 <= j < |w| ensures !IsSpace(w[j]) {
      if 1 <= j <= |start| { assert w[j] == start[j - 1]; }
      else if j > |start| + 1 { assert w[j] == count[j - |start| - 2]; }
    }
  }

  /** A line with exactly two `@@`. */
  predicate IsHunkHeader(line: string) {
    CountOf(line, "@@") == 2
  }

  /** A line that starts with `+` and has no other `+`: an added line, never the `+++` header. */
  predicate IsAddedLine(line: string) {
    !IsHunkHeader(line) && StartsWith(line, "+") && CountOf(line, "+") == 1
  }

  /** The modified line numbers and the added code one line of the diff contributes. */
  function LineEffect(line: string): Result<(seq<string>, seq<string>), string> {
    if IsHunkHeader(line) then
      match HunkLines(line)
      case Failure(e) => Failure(e)
      case Success(ns) => Success((ns, []))
    else if IsAddedLine(line) then Success(([], [Strip(line[1..])]))
    else Success(([], []))
  }

  /** The loop over the diff lines: the modified line numbers and the added code, in order. */
  function ScanLines(lines: seq<string>): Result<(seq<string>, seq<string>), string>
    decreases |lines|
  {
    if lines == [] then Success(([], []))
    else
      match ScanLines(lines[..|lines| - 1])
      case Failure(e) => Failure(e)
      case Success(acc) =>
        match LineEffect(lines[|lines| - 1])
        case Failure(e) => Failure(e)
        case Success(eff) => Success((acc.0 + eff.0, acc.1 + eff.1))
  }

  /** What the diff text says about the file at `address`: its first line is dropped; `new file`
      on the next line makes a new file; otherwise every line is scanned. A diff of fewer than two
      lines has no line to look at after the first. */
  function DiffInfo(address: string, text: string): Result<GitFileInfo, string> {
    var lines := SplitOn(text, "\n")[1..];
    if lines == [] then Failure(IndexError)
    else if Contains(lines[0], "new file") then Success(GitFileInfo(address, true, false, [], []))
    else
      match ScanLines(lines)
      case Failure(e) => Failure(e)
      case Success(mc) => Success(GitFileInfo(address, false, false, mc.0, mc.1))
  }

  /** The answer of `get_git_file_info`. A git error about a path not in the working tree means
      the file was deleted; any other git error is swallowed and the next statement then reads
      `diff_info`, which was never assigned. */
  function FileInfo(address: string, outcome: GitOutcome): Result<GitFileInfo, string> {
    match outcome
    case NoWorktree => Failure(NoWorktreeMessage)
    case GitError(msg) =>
      if Contains(msg, "path not in the working tree") then Success(GitFileInfo(address, false, true, [], []))
      else Failure("UnboundLocalError: local variable 'diff_info' referenced before assignment")
    case Output(text) => DiffInfo(address, text)
  }

  /** `get_git_file_info`. */
  method GetGitFileInfo(address: string, outcome: GitOutcome) returns (r: Result<GitFileInfo, string>)
    ensures r == FileInfo(address, outcome)
  {
    match outcome {
      case NoWorktree => return Failure(NoWorktreeMessage);
      case GitError(msg) =>
        if Contains(msg, "path not in the working tree") {
          return Success(GitFileInfo(address, false, true, [], []));
        }
        return Failure("UnboundLocalError: local variable 'diff_info' referenced before assignment");
      case Output(text) =>
        r := ReadDiff(address, text);
    }
  }

  /** The part of `get_git_file_info` that reads the diff text, shared with `changer/rules.py`. */
  method ReadDiff(address: string, text: string) returns (r: Result<GitFileInfo, string>)
    ensures r == DiffInfo(address, text)
  {
    var lines := SplitOn(text, "\n")[1..];
    if |lines| == 0 {
      return Failure(IndexError);
    }
    if Contains(lines[0], "new file") {
      return Success(GitFileInfo(address, true, false, [], []));
    }
    var modified: seq<string> := [];
    var newCode: seq<string> := [];
    for i := 0 to |lines|
      invariant ScanLines(lines[..i]) == Success((modified, newCode))
    {
      var line := lines[i];
      if IsHunkHeader(line) {
        var ns := HunkLines(line);
        if ns.Failure? {
          ScanStep(lines, i);
          ScanStops(lines, i + 1);
          return Failure(ns.error);
        }
        ScanStep(lines, i);
        modified := modified + ns.value;
        newCode := newCode + [];
      } else if IsAddedLine(line) {
        ScanStep(lines, i);
        modified := modified + [];
        newCode := newCode + [Strip(line[1..])];
      } else {
        ScanStep(lines, i);
        modified := modified + [];
        newCode := newCode + [];
      }
    }
    assert lines[..|lines|] == lines;
    r := Success(GitFileInfo(address, false, false, modified, newCode));
  }

  /** One more line extends the scan by that line's effect, or fails with it. */
  lemma ScanStep(lines: seq<string>, i: nat)
    requires i < |lines| && ScanLines(lines[..i]).Success?
    ensures LineEffect(lines[i]).Failure? ==> ScanLines(lines[..i + 1]) == Failure(LineEffect(lines[i]).error)
    ensures LineEffect(lines[i]).Success? ==>
              ScanLines(lines[..i + 1]) ==
                Success((ScanLines(lines[..i]).value.0 + LineEffect(lines[i]).value.0,
                         ScanLines(lines[..i]).value.1 + LineEffect(lines[i]).value.1))
  {
    assert lines[..i + 1][..i] == lines[..i];
  }

  lemma {:induction false} ScanStops(lines: seq<string>, k: nat)
    requires k <= |lines| && ScanLines(lines[..k]).Failure?
    ensures ScanLines(lines) == ScanLines(lines[..k])
    decreases |lines| - k
  {
    if k < |lines| {
      assert lines[..k + 1][..k] == lines[..k];
      ScanStops(lines, k + 1);
    } else {
      assert lines[..k] == lines;
    }
  }

  // ---------------------------------------------------------------------------
  // What the reading guarantees
  // ---------------------------------------------------------------------------

  /** `ns` is a sequence of runs of three, each satisfying `run`. */
  ghost predicate RunsOf(ns: seq<string>, run: (string, string, string) -> bool)
    decreases |ns|
  {
    if |ns| < 3 then ns == [] else run(ns[0], ns[1], ns[2]) && RunsOf(ns[3..], run)
  }

  /** `y` and `z` are the two numbers after the number `x`. */
  ghost predicate Run(x: string, y: string, z: string) {
    && ParseInt(x).Some?
    && y == IntStr(ParseInt(x).value + 1)
    && z == IntStr(ParseInt(x).value + 2)
  }

  /** Modified line numbers come in runs of three consecutive numbers, each run starting at the
      number a hunk header gave. */
  ghost predicate Triples(ns: seq<string>) {
    RunsOf(ns, Run)
  }

  /** Runs of three make a count that is a multiple of three. */
  lemma {:induction false} RunsLength(ns: seq<string>, run: (string, string, string) -> bool)
    requires RunsOf(ns, run)
    ensures |ns| % 3 == 0
    decreases |ns|
  {
    if ns != [] {
      RunsLength(ns[3..], run);
    }
  }

  lemma RunsCons(x: string, y: string, z: string, rest: seq<string>, run: (string, string, string) -> bool)
    requires run(x, y, z) && RunsOf(rest, run)
    ensures RunsOf([x, y, z] + rest, run)
  {
    assert ([x, y, z] + rest)[3..] == rest;
  }

  /** Two sequences of runs join into one. */
  lemma {:induction false} RunsConcat(a: seq<string>, b: seq<string>, run: (string, string, string) -> bool)
    requires RunsOf(a, run) && RunsOf(b, run)
    ensures RunsOf(a + b, run)
    decreases |a|
  {
    if a == [] {
      assert a + b == b;
    } else {
      RunsConcat(a[3..], b, run);
      RunsCons(a[0], a[1], a[2], a[3..] + b, run);
      assert [a[0], a[1], a[2]] + (a[3..] + b) == a + b;
    }
  }

  lemma TripleTriples(s: string)
    requires Triple(s).Success?
    ensures Triples(Triple(s).value)
  {
    var r := Triple(s).value;
    if r != [] {
      assert r[3..] == [];
    }
  }

  lemma HunkLinesTriples(line: string)
    requires HunkLines(line).Success?
    ensures Triples(HunkLines(line).value)
  {
    var words := SplitWs(line);
    var removed := HunkStart(words[1], "-").value;
    var added := HunkStart(words[2], "+").value;
    TripleTriples(added);
    TripleTriples(removed);
    RunsConcat(Triple(added).value, Triple(removed).value, Run);
  }

  /** The modified line numbers of a scan are runs of three, so their number is a multiple of
      three. */
  lemma {:induction false} ScanTriples(lines: seq<string>)
    requires ScanLines(lines).Success?
    ensures Triples(ScanLines(lines).value.0)
    decreases |lines|
  {
    if lines != [] {
      var init := lines[..|lines| - 1];
      ScanTriples(init);
      var line := lines[|lines| - 1];
      var eff := LineEffect(line).value;
      assert ScanLines(lines).value.0 == ScanLines(init).value.0 + eff.0;
      if IsHunkHeader(line) {
        HunkLinesTriples(line);
      } else {
        assert eff.0 == [];
      }
      RunsConcat(ScanLines(init).value.0, eff.0, Run);
    }
  }

  /** The added code is the stripped remainder of the added lines, in order. */
  function AddedCode(lines: seq<string>): seq<string>
    decreases |lines|
  {
    if lines == [] then []
    else
      var l := lines[|lines| - 1];
      AddedCode(lines[..|lines| - 1]) + (if IsAddedLine(l) then [Strip(l[1..])] else [])
  }

  lemma {:induction false} ScanAddedCode(lines: seq<string>)
    requires ScanLines(lines).Success?
    ensures ScanLines(lines).value.1 == AddedCode(lines)
    decreases |lines|
  {
    if lines != [] {
      ScanAddedCode(lines[..|lines| - 1]);
    }
  }

  /** An added line never starts with `+++`, so the `+++ b/path` header is not code. */
  lemma FileHeaderNotCode(rest: string)
    ensures !IsAddedLine("+++" + rest)
  {
    var s := "+++" + rest;
    assert StartsWith(s, "+") && s[1..] == "++" + rest;
    assert StartsWith(s[1..], "+");
    assert CountOf(s[1..], "+") == 1 + CountOf(s[1..][1..], "+");
    assert CountOf(s, "+") >= 2;
  }

  /** The answer for a file: a deleted file is reported by a git error, a new file by the line
      after the first; for any other file the modified line numbers come in runs of three and the
      added code is that of the added lines. */
  lemma FileInfoSpec(address: string, outcome: GitOutcome)
    ensures outcome.NoWorktree? ==> FileInfo(address, outcome).Failure?
    ensures outcome.GitError? ==>
              (FileInfo(address, outcome).Success? <==> Contains(outcome.message, "path not in the working tree"))
    ensures FileInfo(address, outcome).Success? ==> FileInfo(address, outcome).value.address == address
    ensures FileInfo(address, outcome).Success? && FileInfo(address, outcome).value.isDeleted ==>
              outcome.GitError? && !FileInfo(address, outcome).value.isNewFile &&
              FileInfo(address, outcome).value.modifiedLines == []
    ensures FileInfo(address, outcome).Success? && FileInfo(address, outcome).value.isNewFile ==>
              outcome.Output? && Contains(SplitOn(outcome.text, "\n")[1], "new file") &&
              FileInfo(address, outcome).value.modifiedLines == [] && FileInfo(address, outcome).value.newCode == []
    ensures FileInfo(address, outcome).Success? ==> |FileInfo(address, outcome).value.modifiedLines| % 3 == 0
    ensures FileInfo(address, outcome).Success? && outcome.Output? && !FileInfo(address, outcome).value.isNewFile ==>
              Triples(FileInfo(address, outcome).value.modifiedLines) &&
              FileInfo(address, outcome).value.newCode == AddedCode(SplitOn(outcome.text, "\n")[1..])
  {
    if outcome.Output? {
      var lines := SplitOn(outcome.text, "\n")[1..];
      if lines != [] && !Contains(lines[0], "new file") && ScanLines(lines).Success? {
        ScanTriples(lines);
        RunsLength(ScanLines(lines).value.0, Run);
        ScanAddedCode(lines);
      }
    }
  }
}

/**
 * `changer/rules.py`: the older `get_git_file_info`. It diffs against
 * `origin/main`, reads the diff as the newer copy does, and lets every git
 * error through; its `GitFileInfo` has no deleted flag (the model's is
 * always false).
 */
module ChangerRules {
  import opened Wrappers
  import opened Strings
  import opened GitRules

  /** The answer of this copy of `get_git_file_info`. */
  function OldFileInfo(address: string, outcome: GitOutcome): Result<GitFileInfo, string> {
    match outcome
    case NoWorktree => Failure(NoWorktreeMessage)
    case GitError(msg) => Failure(msg)
    case Output(text) => DiffInfo(address, text)
  }

  /** `get_git_file_info` of `changer/rules.py`. */
  method GetGitFileInfo(address: string, outcome: GitOutcome) returns (r: Result<GitFileInfo, string>)
    ensures r == OldFileInfo(address, outcome)
  {
    match outcome {
      case NoWorktree => return Failure(NoWorktreeMessage);
      case GitError(msg) => return Failure(msg);
      case Output(text) =>
        r := ReadDiff(address, text);
    }
  }

  /** This copy never reports a deleted file, agrees with the newer copy on every diff it reads,
      and reports a file as not new whenever it scans its lines. */
  lemma OldFileInfoSpec(address: string, outcome: GitOutcome)
    ensures OldFileInfo(address, outcome).Success? ==> !OldFileInfo(address, outcome).value.isDeleted
    ensures outcome.Output? ==> OldFileInfo(address, outcome) == FileInfo(address, outcome)
    ensures outcome.GitError? ==> OldFileInfo(address, outcome).Failure?
    ensures OldFileInfo(address, outcome).Success? && !OldFileInfo(address, outcome).value.isNewFile ==>
              Triples(OldFileInfo(address, outcome).value.modifiedLines)
  {
    FileInfoSpec(address, outcome);
  }
}
