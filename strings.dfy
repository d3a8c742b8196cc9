/**
 * Python's string operations on `str`, written out over `seq<char>`:
 * `sep.join`, `s.split(sep)`, `s.replace(pat, rep)`, the `in` test for a
 * substring, `startswith`, `count` and `strip`; and the sequence idioms the
 * plugins use on lists of names: a filtering comprehension, `set(a) - set(b)`,
 * de-duplication and the present values of a list of optionals.
 */
module Strings {
  import opened Wrappers

  /** `sep.join(parts)`. */
  function Join(parts: seq<string>, sep: string): string
    decreases |parts|
  {
    if |parts| == 0 then ""
    else if |parts| == 1 then parts[0]
    else parts[0] + sep + Join(parts[1..], sep)
  }

  /** `s.startswith(p)`. */
  predicate StartsWith(s: string, p: string) {
    |p| <= |s| && s[..|p|] == p
  }

  /** `p in s`, the substring test. */
  predicate Contains(s: string, p: string)
    decreases |s|
  {
    StartsWith(s, p) || (|s| > 0 && Contains(s[1..], p))
  }

  /** `s.split(sep)` for a non-empty separator: cut at every leftmost, non-overlapping occurrence. */
  function SplitOn(s: string, sep: string): (r: seq<string>)
    requires |sep| > 0
    ensures |r| >= 1
    decreases |s|
  {
    if StartsWith(s, sep) then [""] + SplitOn(s[|sep|..], sep)
    else if s == [] then [""]
    else
      var rest := SplitOn(s[1..], sep);
      [[s[0]] + rest[0]] + rest[1..]
  }

  /** `s.split(sep)[0]`: the text before the first occurrence of `sep`, or all of `s`. */
  function BeforeFirst(s: string, sep: string): string
    requires |sep| > 0
  {
    SplitOn(s, sep)[0]
  }

  /** `s.split(sep)[-1]`: the text after the last piece boundary, or all of `s`. */
  function AfterLast(s: string, sep: string): string
    requires |sep| > 0
  {
    var parts := SplitOn(s, sep);
    parts[|parts| - 1]
  }

  /** `s.replace(pat, rep)`: every leftmost, non-overlapping occurrence of `pat` is replaced. */
  function ReplaceAll(s: string, pat: string, rep: string): string
    requires |pat| > 0
    decreases |s|
  {
    if StartsWith(s, pat) then rep + ReplaceAll(s[|pat|..], pat, rep)
    else if s == [] then []
    else [s[0]] + ReplaceAll(s[1..], pat, rep)
  }

  /** `s.count(p)`: the number of leftmost, non-overlapping occurrences of `p`. */
  function CountOf(s: string, p: string): nat
    requires |p| > 0
    decreases |s|
  {
    if StartsWith(s, p) then 1 + CountOf(s[|p|..], p)
    else if s == [] then 0
    else CountOf(s[1..], p)
  }

  /** The characters `str.isspace()` accepts, which are those `str.strip()`, `str.split()`
      and the regular-expression class `\s` treat as white space: the ASCII controls from tab
      to carriage return, the separators U+001C to U+001F, the space, NEL, the no-break space
      and the Unicode space separators. */
  predicate IsSpace(c: char) {
    c == ' ' || '\t' <= c <= '\r' || '\U{001C}' <= c <= '\U{001F}' || c == '\U{0085}'
    || c == '\U{00A0}' || c == '\U{1680}' || '\U{2000}' <= c <= '\U{200A}' || c == '\U{2028}'
    || c == '\U{2029}' || c == '\U{202F}' || c == '\U{205F}' || c == '\U{3000}'
  }

  /** `s.lstrip()`. */
  function LStrip(s: string): (r: string)
    ensures |r| <= |s|
    ensures r != [] ==> !IsSpace(r[0])
    decreases |s|
  {
    if |s| > 0 && IsSpace(s[0]) then LStrip(s[1..]) else s
  }

  /** `s.rstrip()`. */
  function RStrip(s: string): string
    decreases |s|
  {
    if |s| > 0 && IsSpace(s[|s| - 1]) then RStrip(s[..|s| - 1]) else s
  }

  /** `s.strip()`. */
  function Strip(s: string): string {
    RStrip(LStrip(s))
  }

  /** `s.split()` with no argument: the maximal runs of non-white-space characters. */
  function SplitWs(s: string): seq<string>
    decreases |s|
  {
    var t := LStrip(s);
    if t == [] then []
    else
      var n := RunLength(t);
      [t[..n]] + SplitWs(t[n..])
  }

  /** The length of the run of non-white-space characters that starts `s`. */
  function RunLength(s: string): (n: nat)
    ensures n <= |s|
    ensures |s| > 0 && !IsSpace(s[0]) ==> n > 0
    decreases |s|
  {
    if |s| > 0 && !IsSpace(s[0]) then 1 + RunLength(s[1..]) else 0
  }

  /** A word free of white space followed by a space is the first word of the split. */
  lemma SplitWsWord(w: string, t: string)
    requires w != [] && forall j :: 0 <= j < |w| ==> !IsSpace(w[j])
    ensures SplitWs(w + " " + t) == [w] + SplitWs(t)
  {
    var s := w + " " + t;
    assert LStrip(s) == s;
    RunLengthWord(w, " " + t);
    assert s == w + (" " + t);
    assert s[|w|..] == " " + t && s[..|w|] == w;
    assert LStrip(" " + t) == LStrip(t) by { assert (" " + t)[1..] == t; }
  }

  lemma {:induction false} RunLengthWord(w: string, t: string)
    requires forall j :: 0 <= j < |w| ==> !IsSpace(w[j])
    requires t != [] && IsSpace(t[0])
    ensures RunLength(w + t) == |w|
    decreases |w|
  {
    if w != [] {
      assert (w + t)[1..] == w[1..] + t;
      RunLengthWord(w[1..], t);
    } else {
      assert w + t == t;
    }
  }

  /** Order-preserving removal of repeats: the first occurrence of each element stays. */
  function Dedup<T(==)>(s: seq<T>): (r: seq<T>)
    decreases |s|
  {
    if s == [] then []
    else
      var rest := Dedup(s[..|s| - 1]);
      if s[|s| - 1] in rest then rest else rest + [s[|s| - 1]]
  }

  /** The elements of `s` that satisfy `keep`, in order: a list comprehension with a condition. */
  function Filter<T(!new)>(s: seq<T>, keep: T -> bool): (r: seq<T>)
    ensures forall x :: x in r <==> x in s && keep(x)
    decreases |s|
  {
    if s == [] then []
    else
      var rest := Filter(s[..|s| - 1], keep);
      assert forall x :: x in rest ==> x in s[..|s| - 1];
      if keep(s[|s| - 1]) then rest + [s[|s| - 1]] else rest
  }

  /** The present values of `os`, in order. */
  function Somes<T>(os: seq<Option<T>>): (r: seq<T>)
    ensures |r| <= |os|
    decreases |os|
  {
    if os == [] then []
    else
      var rest := Somes(os[..|os| - 1]);
      if os[|os| - 1].Some? then rest + [os[|os| - 1].value] else rest
  }

  /** `set(a) - set(b)`, listed in first-occurrence order of `a`. */
  function Difference<T(==,!new)>(a: seq<T>, b: seq<T>): seq<T> {
    Dedup(Filter(a, x => x !in b))
  }

  /** `a` is `b` with some elements left out, the rest in their order. */
  predicate IsSubsequence<T(==)>(a: seq<T>, b: seq<T>)
    decreases |b|
  {
    if a == [] then true
    else if b == [] then false
    else (a[0] == b[0] && IsSubsequence(a[1..], b[1..])) || IsSubsequence(a, b[1..])
  }

  /** No element occurs twice. */
  predicate NoDuplicates<T(==)>(s: seq<T>) {
    forall i, j :: 0 <= i < j < |s| ==> s[i] != s[j]
  }

  // ---------------------------------------------------------------------------
  // Lemmas
  // ---------------------------------------------------------------------------

  /** Joining the pieces of a split with the same separator gives back the text. */
  lemma {:induction false} JoinSplit(s: string, sep: string)
    requires |sep| > 0
    ensures Join(SplitOn(s, sep), sep) == s
    decreases |s|
  {
    if StartsWith(s, sep) {
      JoinSplit(s[|sep|..], sep);
      JoinSplitAtSeparator(s, sep);
    } else if s != [] {
      JoinSplit(s[1..], sep);
      JoinSplitAtChar(s, sep);
    }
  }

  lemma JoinSplitAtSeparator(s: string, sep: string)
    requires |sep| > 0 && StartsWith(s, sep)
    requires Join(SplitOn(s[|sep|..], sep), sep) == s[|sep|..]
    ensures Join(SplitOn(s, sep), sep) == s
  {
    var tail := s[|sep|..];
    var rest := SplitOn(tail, sep);
    assert SplitOn(s, sep) == [""] + rest;
    JoinCons("", rest, sep);
    assert Join(SplitOn(s, sep), sep) == "" + sep + tail;
    assert "" + sep + tail == sep + tail;
    assert s[..|sep|] == sep;
    assert s[..|sep|] + tail == s;
  }

  lemma JoinSplitAtChar(s: string, sep: string)
    requires |sep| > 0 && !StartsWith(s, sep) && s != []
    requires Join(SplitOn(s[1..], sep), sep) == s[1..]
    ensures Join(SplitOn(s, sep), sep) == s
  {
    var rest := SplitOn(s[1..], sep);
    assert SplitOn(s, sep) == [[s[0]] + rest[0]] + rest[1..];
    JoinFirst(s[0], rest, sep);
    assert s == [s[0]] + s[1..];
  }

  lemma JoinCons(x: string, rest: seq<string>, sep: string)
    requires |rest| >= 1
    ensures Join([x] + rest, sep) == x + sep + Join(rest, sep)
  {
    assert ([x] + rest)[1..] == rest;
  }

  lemma JoinFirst(c: char, rest: seq<string>, sep: string)
    requires |rest| >= 1
    ensures Join([[c] + rest[0]] + rest[1..], sep) == [c] + Join(rest, sep)
  {
    var parts := [[c] + rest[0]] + rest[1..];
    if |rest| > 1 {
      assert parts[1..] == rest[1..];
    }
  }

  /** Splitting on a one-character separator leaves that character in no piece. */
  lemma {:induction false} SplitPiecesFree(s: string, c: char)
    ensures forall i :: 0 <= i < |SplitOn(s, [c])| ==> c !in SplitOn(s, [c])[i]
    decreases |s|
  {
    if StartsWith(s, [c]) {
      SplitPiecesFree(s[1..], c);
      assert SplitOn(s, [c]) == [""] + SplitOn(s[1..], [c]);
    } else if s == [] {
    } else {
      SplitPiecesFree(s[1..], c);
      assert s[0] != c;
    }
  }

  /** A text lacking some character of the separator splits into itself alone. */
  lemma {:induction false} SplitWithoutSeparator(s: string, sep: string, k: nat)
    requires k < |sep| && sep[k] !in s
    ensures SplitOn(s, sep) == [s]
    decreases |s|
  {
    if StartsWith(s, sep) {
      assert false;
    } else if s != [] {
      assert s[0] in s;
      SplitWithoutSeparator(s[1..], sep, k);
      assert s == [s[0]] + s[1..];
    }
  }

  /** A split stops its first piece at the first occurrence of the separator. */
  lemma {:induction false} SplitAtFirst(x: string, sep: string, y: string)
    requires |sep| > 0 && sep[0] !in x
    ensures SplitOn(x + sep + y, sep) == [x] + SplitOn(y, sep)
    decreases |x|
  {
    var s := x + sep + y;
    if x == [] {
      assert s == sep + y && StartsWith(s, sep) && s[|sep|..] == y;
    } else {
      assert s[0] == x[0] && s[0] != sep[0];
      assert !StartsWith(s, sep);
      assert s[1..] == x[1..] + sep + y;
      SplitAtFirst(x[1..], sep, y);
      assert x == [x[0]] + x[1..];
    }
  }

  /** After the last one-character separator, the split's last piece is the text that follows it. */
  lemma {:induction false} SplitLastPiece(x: string, c: char, y: string)
    requires c !in y
    ensures |SplitOn(x + [c] + y, [c])| >= 2
    ensures SplitOn(x + [c] + y, [c])[|SplitOn(x + [c] + y, [c])| - 1] == y
    decreases |x|
  {
    var s := x + [c] + y;
    if x == [] {
      assert StartsWith(s, [c]) && s[1..] == y;
      SplitWithoutSeparator(y, [c], 0);
    } else {
      assert s[1..] == x[1..] + [c] + y;
      SplitLastPiece(x[1..], c, y);
    }
  }

  /** Joining pieces free of a one-character separator and splitting again gives the pieces back. */
  lemma {:induction false} SplitJoin(parts: seq<string>, sep: string)
    requires |parts| >= 1 && |sep| == 1 && forall i :: 0 <= i < |parts| ==> sep[0] !in parts[i]
    ensures SplitOn(Join(parts, sep), sep) == parts
    decreases |parts|
  {
    if |parts| == 1 {
      SplitWithoutSeparator(parts[0], sep, 0);
    } else {
      assert parts == [parts[0]] + parts[1..];
      JoinCons(parts[0], parts[1..], sep);
      SplitJoin(parts[1..], sep);
      SplitAtFirst(parts[0], sep, Join(parts[1..], sep));
    }
  }

  /** `replace` copies a stretch in which the pattern's first character does not occur. */
  lemma {:induction false} ReplaceSkipsFree(x: string, pat: string, rep: string, y: string)
    requires |pat| > 0 && pat[0] !in x
    ensures ReplaceAll(x + y, pat, rep) == x + ReplaceAll(y, pat, rep)
    decreases |x|
  {
    if x != [] {
      var s := x + y;
      assert s[0] == x[0] && s[0] != pat[0];
      assert !StartsWith(s, pat);
      assert s[1..] == x[1..] + y;
      assert pat[0] !in x[1..] by {
        assert forall c :: c in x[1..] ==> c in x;
      }
      ReplaceSkipsFree(x[1..], pat, rep, y);
      assert ReplaceAll(s, pat, rep) == [x[0]] + ReplaceAll(x[1..] + y, pat, rep);
      assert x == [x[0]] + x[1..];
    } else {
      assert x + y == y;
    }
  }

  /** `replace` copies a character at which the pattern does not start. */
  lemma ReplaceSkipsChar(c: char, y: string, pat: string, rep: string)
    requires |pat| > 0 && !StartsWith([c] + y, pat)
    ensures ReplaceAll([c] + y, pat, rep) == [c] + ReplaceAll(y, pat, rep)
  {
    assert ([c] + y)[1..] == y;
  }

  /** `replace` substitutes an occurrence at the front. */
  lemma ReplaceAtFront(pat: string, rep: string, y: string)
    requires |pat| > 0
    ensures ReplaceAll(pat + y, pat, rep) == rep + ReplaceAll(y, pat, rep)
  {
    assert StartsWith(pat + y, pat) && (pat + y)[|pat|..] == y;
  }

  /** Replacing a one-character pattern by a text without it removes every occurrence. */
  lemma {:induction false} ReplaceRemoves(s: string, c: char, rep: string)
    requires c !in rep
    ensures c !in ReplaceAll(s, [c], rep)
    decreases |s|
  {
    if StartsWith(s, [c]) {
      ReplaceRemoves(s[1..], c, rep);
    } else if s != [] {
      ReplaceRemoves(s[1..], c, rep);
    }
  }

  /** `replace` introduces no character that is neither in the text nor in the replacement. */
  lemma {:induction false} ReplaceChars(s: string, pat: string, rep: string)
    requires |pat| > 0
    ensures forall c :: c in ReplaceAll(s, pat, rep) ==> c in s || c in rep
    decreases |s|
  {
    if StartsWith(s, pat) {
      ReplaceChars(s[|pat|..], pat, rep);
      assert forall c :: c in s[|pat|..] ==> c in s;
    } else if s != [] {
      ReplaceChars(s[1..], pat, rep);
      assert forall c :: c in s[1..] ==> c in s;
    }
  }

  /** A text without an occurrence of the separator splits into itself alone. */
  lemma {:induction false} SplitAbsent(s: string, sep: string)
    requires |sep| > 0 && !Contains(s, sep)
    ensures SplitOn(s, sep) == [s]
    decreases |s|
  {
    if s != [] {
      SplitAbsent(s[1..], sep);
      assert s == [s[0]] + s[1..];
    }
  }

  /** A text shorter than `p` does not contain it. */
  lemma {:induction false} ShortNotContains(s: string, p: string)
    requires |s| < |p|
    ensures !Contains(s, p)
    decreases |s|
  {
    if s != [] {
      ShortNotContains(s[1..], p);
    }
  }

  /** An occurrence of `p` in `x + y` cannot start inside `x` when `x` lacks `p`'s first character. */
  lemma {:induction false} NotContainsAppend(x: string, y: string, p: string)
    requires |p| > 0 && p[0] !in x && !Contains(y, p)
    ensures !Contains(x + y, p)
    decreases |x|
  {
    if x != [] {
      assert (x + y)[0] == x[0];
      assert (x + y)[1..] == x[1..] + y;
      assert p[0] !in x[1..] by {
        assert forall c :: c in x[1..] ==> c in x;
      }
      NotContainsAppend(x[1..], y, p);
    } else {
      assert x + y == y;
    }
  }

  /** A character in neither the parts nor the separator is not in their join. */
  lemma {:induction false} JoinFree(parts: seq<string>, sep: string, c: char)
    requires c !in sep && forall i :: 0 <= i < |parts| ==> c !in parts[i]
    ensures c !in Join(parts, sep)
    decreases |parts|
  {
    if |parts| > 1 {
      JoinFree(parts[1..], sep, c);
    }
  }

  /** Joining with one more part at the end. */
  lemma {:induction false} JoinSnoc(parts: seq<string>, x: string, sep: string)
    requires |parts| > 0
    ensures Join(parts + [x], sep) == Join(parts, sep) + sep + x
    decreases |parts|
  {
    if |parts| == 1 {
      assert parts + [x] == [parts[0], x];
    } else {
      assert (parts + [x])[1..] == parts[1..] + [x];
      JoinSnoc(parts[1..], x, sep);
    }
  }

  /** Text without any occurrence of `pat` is left as it is by `replace`. */
  lemma {:induction false} ReplaceAbsent(s: string, pat: string, rep: string)
    requires |pat| > 0
    requires !Contains(s, pat)
    ensures ReplaceAll(s, pat, rep) == s
    decreases |s|
  {
    if s != [] {
      ReplaceAbsent(s[1..], pat, rep);
      assert s == [s[0]] + s[1..];
    }
  }

  /** A substring occurrence at a known position. */
  lemma {:induction false} ContainsAt(s: string, p: string, i: nat)
    requires i + |p| <= |s| && s[i..i + |p|] == p
    ensures Contains(s, p)
    decreases i
  {
    if i > 0 {
      assert s[1..][i - 1..i - 1 + |p|] == s[i..i + |p|];
      ContainsAt(s[1..], p, i - 1);
    } else {
      assert s[..|p|] == p;
    }
  }

  /** A substring occurrence has a position. */
  lemma {:induction false} ContainsWitness(s: string, p: string) returns (i: nat)
    requires Contains(s, p)
    ensures i + |p| <= |s| && s[i..i + |p|] == p
    decreases |s|
  {
    if StartsWith(s, p) {
      i := 0;
    } else {
      var j := ContainsWitness(s[1..], p);
      i := j + 1;
      assert s[1..][j..j + |p|] == s[i..i + |p|];
    }
  }

  /** De-duplication keeps exactly the elements of its input, each once. */
  lemma {:induction false} DedupSpec<T>(s: seq<T>)
    ensures NoDuplicates(Dedup(s))
    ensures forall x :: x in Dedup(s) <==> x in s
    decreases |s|
  {
    if s != [] {
      DedupSpec(s[..|s| - 1]);
      forall x ensures x in s <==> x in s[..|s| - 1] || x == s[|s| - 1] {
        assert s == s[..|s| - 1] + [s[|s| - 1]];
      }
    }
  }

  /** Filtering keeps the kept elements in their order. */
  lemma {:induction false} FilterSubsequence<T(!new)>(s: seq<T>, keep: T -> bool)
    ensures IsSubsequence(Filter(s, keep), s)
    decreases |s|
  {
    if s != [] {
      var init, last := s[..|s| - 1], s[|s| - 1];
      FilterSubsequence(init, keep);
      assert s == init + [last];
      if keep(last) {
        assert IsSubsequence([last], [last]) by { assert [last][1..] == []; }
        SubsequenceConcat(Filter(init, keep), init, [last], [last]);
      } else {
        SubsequenceConcat(Filter(init, keep), init, [], [last]);
        assert Filter(init, keep) + [] == Filter(init, keep);
      }
    }
  }

  /** Subsequences of two sequences concatenate to a subsequence of their concatenation. */
  lemma {:induction false} SubsequenceConcat<T>(a1: seq<T>, b1: seq<T>, a2: seq<T>, b2: seq<T>)
    requires IsSubsequence(a1, b1) && IsSubsequence(a2, b2)
    ensures IsSubsequence(a1 + a2, b1 + b2)
    decreases |b1|
  {
    if b1 == [] {
      assert a1 == [];
      assert a1 + a2 == a2 && b1 + b2 == b2;
    } else if a1 == [] {
      SubsequencePrefix(a2, b1, b2);
      assert a1 + a2 == a2;
    } else {
      assert (b1 + b2)[1..] == b1[1..] + b2;
      if a1[0] == b1[0] && IsSubsequence(a1[1..], b1[1..]) {
        SubsequenceConcat(a1[1..], b1[1..], a2, b2);
        assert (a1 + a2)[1..] == a1[1..] + a2;
      } else {
        SubsequenceConcat(a1, b1[1..], a2, b2);
      }
    }
  }

  /** Elements put in front keep a subsequence a subsequence. */
  lemma {:induction false} SubsequencePrefix<T>(a: seq<T>, p: seq<T>, b: seq<T>)
    requires IsSubsequence(a, b)
    ensures IsSubsequence(a, p + b)
    decreases |p|
  {
    if p == [] {
      assert p + b == b;
    } else if a != [] {
      SubsequencePrefix(a, p[1..], b);
      assert (p + b)[1..] == p[1..] + b;
    }
  }

  /** `Difference(a, b)` holds each element of `a` that is not in `b`, once. */
  lemma DifferenceSpec<T(!new)>(a: seq<T>, b: seq<T>)
    ensures NoDuplicates(Difference(a, b))
    ensures forall x :: x in Difference(a, b) <==> x in a && x !in b
  {
    DedupSpec(Filter(a, x => x !in b));
  }

  /** A value is among the present values exactly when some entry holds it. */
  lemma {:induction false} SomesMember<T>(os: seq<Option<T>>, x: T)
    ensures x in Somes(os) <==> Some(x) in os
    decreases |os|
  {
    if os != [] {
      var init := os[..|os| - 1];
      SomesMember(init, x);
      assert os == init + [os[|os| - 1]];
    }
  }

  // ---------------------------------------------------------------------------
  // `int(s)` and `str(n)`
  // ---------------------------------------------------------------------------

  predicate IsDigit(c: char) {
    '0' <= c <= '9'
  }

  predicate AllDigits(s: string) {
    forall i :: 0 <= i < |s| ==> IsDigit(s[i])
  }

  /** The value of a string of decimal digits. */
  function DigitsValue(s: string): nat
    requires AllDigits(s)
    decreases |s|
  {
    if s == [] then 0 else DigitsValue(s[..|s| - 1]) * 10 + (s[|s| - 1] as int - '0' as int)
  }

  /** `int(s)` on a string without white space or underscores: an optional sign and at least one
      decimal digit; anything else is a `ValueError`. */
  function ParseInt(s: string): Option<int> {
    if |s| > 1 && (s[0] == '+' || s[0] == '-') && AllDigits(s[1..]) then
      Some(if s[0] == '-' then 0 - DigitsValue(s[1..]) as int else DigitsValue(s[1..]) as int)
    else if |s| > 0 && AllDigits(s) then Some(DigitsValue(s))
    else None
  }

  /** `int()` of a decimal digit string is its value. */
  lemma ParseDigits(s: string)
    requires s != [] && AllDigits(s)
    ensures ParseInt(s) == Some(DigitsValue(s))
  {
    assert IsDigit(s[0]);
  }

  /** `str(n)` for `n >= 0`. */
  function NatStr(n: nat): (r: string)
    decreases n
  {
    if n < 10 then ['0' + n as char] else NatStr(n / 10) + ['0' + (n % 10) as char]
  }

  /** `str(n)`. */
  function IntStr(n: int): string {
    if n < 0 then "-" + NatStr(-n) else NatStr(n)
  }

  /** `int(str(n)) == n`. */
  lemma {:induction false} NatStrRoundTrip(n: nat)
    ensures |NatStr(n)| > 0 && AllDigits(NatStr(n)) && DigitsValue(NatStr(n)) == n
    decreases n
  {
    if n >= 10 {
      NatStrRoundTrip(n / 10);
      var s := NatStr(n);
      assert s[..|s| - 1] == NatStr(n / 10);
    }
  }

  /** Different line numbers give different keys. */
  lemma NatStrInjective(m: nat, n: nat)
    ensures NatStr(m) == NatStr(n) <==> m == n
  {
    NatStrRoundTrip(m);
    NatStrRoundTrip(n);
  }

  lemma IntStrRoundTrip(n: int)
    ensures ParseInt(IntStr(n)) == Some(n)
  {
    if n < 0 {
      NegativeRoundTrip(-n);
    } else {
      NatStrRoundTrip(n);
      ParseDigits(NatStr(n));
    }
  }

  lemma NegativeRoundTrip(k: nat)
    requires k > 0
    ensures ParseInt("-" + NatStr(k)) == Some(0 - k)
  {
    var s := "-" + NatStr(k);
    NatStrRoundTrip(k);
    assert s[1..] == NatStr(k) && s[0] == '-' && |s| > 1;
  }
}
