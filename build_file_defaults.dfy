/**
 * `build_file_defaults/rules.py`: reads the targets of a BUILD file from its
 * token stream, fills in the configured default fields of each target of a
 * configured type, reports what it added or changed, and prints the targets
 * back. The tokenizer itself is not modelled: its output (or its error) is
 * an input.
 */
module BuildFileDefaults {
  import opened Wrappers
  import opened Strings
  import opened OrderedMaps
  import FileImportRecs

  // ---------------------------------------------------------------------------
  // Tokens and parsed targets
  // ---------------------------------------------------------------------------

  /** The token types the parser tells apart; `Other` is every other type (strings, numbers,
      comments, indentation). */
  datatype TokenKind = Name | Op | NL | Newline | Encoding | EndMarker | Other

  /** `tokenize.TokenInfo`, reduced to its type and its text. */
  datatype Token = Token(kind: TokenKind, text: string)

  /** A field value: Python's `None`, a token text, or a list of token texts. */
  datatype Value = NoneV | Str(s: string) | List(items: seq<string>)

  /** `{target_type: {field: value}}`. A field key is `None` when a value arrives with no current
      field. */
  datatype Target = Target(kind: string, fields: OMap<Option<string>, Value>)

  /** What the body of a BUILD file parses to; `None` is the target of a file without targets. */
  type Body = seq<Option<Target>>

  /** `BuildFileUpdateRequest`, without its unused `target_types`. */
  datatype Request = Request(path: string, lines: seq<string>, defaults: OMap<string, seq<string>>)

  /** The fields of every target of `body` form a dictionary. */
  ghost predicate WellFormed(body: Body) {
    forall i :: 0 <= i < |body| ==> EntryWellFormed(body[i])
  }

  /** The fields of an entry that is a target form a dictionary. */
  ghost predicate EntryWellFormed(c: Option<Target>) {
    c.Some? ==> c.value.fields.Valid()
  }

  /** `BuildFileUpdateRequest.tokenize`: `lexed` is what `tokenize.tokenize` gives on the lines
      joined with newlines; its error becomes a `ParseError` that names the file. */
  function Tokenize(path: string, lexed: Result<seq<Token>, string>): (r: Result<seq<Token>, string>)
    ensures r.Success? <==> lexed.Success?
    ensures r.Success? ==> r.value == lexed.value
    ensures r.Failure? ==> StartsWith(r.error, "Failed to parse " + path + ": ")
  {
    match lexed
    case Success(ts) => Success(ts)
    case Failure(e) => Failure("Failed to parse " + path + ": " + e)
  }

  // ---------------------------------------------------------------------------
  // The parser
  // ---------------------------------------------------------------------------

  /** The variables of `parse_body`: the current field, whether a list is open, the targets
      finished so far and the target being read. `pants_target` is the kind of `curr_target`. */
  datatype ParserState = ParserState(
    currentName: Option<string>,
    inList: bool,
    contents: seq<Target>,
    curr: Option<Target>)

  ghost predicate StateValid(s: ParserState) {
    && (forall i :: 0 <= i < |s.contents| ==> s.contents[i].fields.Valid())
    && (s.curr.Some? ==> s.curr.value.fields.Valid())
  }

  const Start := ParserState(None, false, [], None)

  predicate Skipped(t: Token) {
    t.kind in {NL, Newline, Encoding, EndMarker}
  }

  predicate StartsTarget(t: Token) {
    t.kind == Name && Contains(t.text, "python_")
  }

  predicate NamesField(t: Token) {
    t.kind == Name && !Contains(t.text, "python_") && t.text != "True" && t.text != "False"
  }

  predicate Punctuation(t: Token) {
    t.kind == Op && t.text in [",", "(", ")", "="]
  }

  predicate IsValueToken(t: Token) {
    !Skipped(t) && !StartsTarget(t) && !NamesField(t) && !Punctuation(t) &&
    !(t.kind == Op && (t.text == "[" || t.text == "]"))
  }

  const NotSubscriptable := "TypeError: 'NoneType' object is not subscriptable"

  /** `curr_target[pants_target][key] = v`. */
  function SetField(c: Target, key: Option<string>, v: Value): (r: Target)
    requires c.fields.Valid()
    ensures r.fields.Valid() && r.kind == c.kind
  {
    c.(fields := c.fields.Put(key, v))
  }

  /** The state after a target name `k`: the current target, if any, is finished and an empty
      target of kind `k` is started. */
  function NewTarget(s: ParserState, k: string): ParserState {
    if s.curr.Some? then ParserState(None, false, s.contents + [s.curr.value], Some(Target(k, Empty())))
    else s.(curr := Some(Target(k, Empty())))
  }

  /** One turn of the loop of `parse_body`. A field or value token before the first target, a
      list item for a field that is not there, and a list item for a field that holds a single
      value are the Python errors the loop runs into. */
  function Step(s: ParserState, t: Token): (r: Result<ParserState, string>)
    requires StateValid(s)
    ensures r.Success? ==> StateValid(r.value)
  {
    if Skipped(t) then Success(s)
    else if StartsTarget(t) then Success(NewTarget(s, t.text))
    else if NamesField(t) then
      match s.curr
      case None => Failure(NotSubscriptable)
      case Some(c) => Success(s.(currentName := Some(t.text), curr := Some(SetField(c, Some(t.text), NoneV))))
    else if Punctuation(t) then Success(s)
    else if t.kind == Op && t.text == "[" then Success(s.(inList := true))
    else if t.kind == Op && t.text == "]" then Success(s.(inList := false, currentName := None))
    else if !s.inList then
      match s.curr
      case None => Failure(NotSubscriptable)
      case Some(c) => Success(s.(currentName := None, curr := Some(SetField(c, s.currentName, Str(t.text)))))
    else
      match s.curr
      case None => Failure(NotSubscriptable)
      case Some(c) =>
        if s.currentName !in c.fields.m then Failure("KeyError")
        else
          match c.fields.m[s.currentName]
          case NoneV => Success(s.(curr := Some(SetField(c, s.currentName, List([t.text])))))
          case List(items) => Success(s.(curr := Some(SetField(c, s.currentName, List(items + [Strip(t.text)])))))
          case Str(_) => Failure("TypeError: can only concatenate str (not \"list\") to str")
  }

  /** The loop of `parse_body` over the tokens `ts`, stopping at the first error. */
  function Run(ts: seq<Token>): (r: Result<ParserState, string>)
    ensures r.Success? ==> StateValid(r.value)
    decreases |ts|
  {
    if ts == [] then Success(Start)
    else
      match Run(ts[..|ts| - 1])
      case Failure(e) => Failure(e)
      case Success(s) => Step(s, ts[|ts| - 1])
  }

  /** The targets finished so far, then the one being read (`None` before the first). */
  function Flush(s: ParserState): (r: Body)
    ensures |r| == |s.contents| + 1
  {
    seq(|s.contents|, i requires 0 <= i < |s.contents| => Some(s.contents[i])) + [s.curr]
  }

  /** `parse_body` on the tokens `ts`. */
  function ParseBody(ts: seq<Token>): (r: Result<Body, string>)
    ensures r.Success? ==> WellFormed(r.value) && |r.value| >= 1
  {
    match Run(ts)
    case Failure(e) => Failure(e)
    case Success(s) => Success(Flush(s))
  }

  /** `BuildFileUpdateRequest.parse`. */
  function Parse(path: string, lexed: Result<seq<Token>, string>): Result<Body, string> {
    match Tokenize(path, lexed)
    case Failure(e) => Failure(e)
    case Success(ts) => ParseBody(ts)
  }

  /** `parse_body`, with its loop variables. */
  method ParseTokens(ts: seq<Token>) returns (r: Result<Body, string>)
    ensures r == ParseBody(ts)
  {
    var currentName: Option<string> := None;
    var inList := false;
    var contents: seq<Target> := [];
    var curr: Option<Target> := None;
    for i := 0 to |ts|
      invariant Run(ts[..i]) == Success(ParserState(currentName, inList, contents, curr))
    {
      assert ts[..i + 1][..i] == ts[..i];
      var t := ts[i];
      var next := Step(ParserState(currentName, inList, contents, curr), t);
      if next.Failure? {
        RunStopsAtError(ts, i + 1);
        return Failure(next.error);
      }
      currentName, inList, contents, curr := next.value.currentName, next.value.inList, next.value.contents, next.value.curr;
    }
    assert ts[..|ts|] == ts;
    r := Success(Flush(ParserState(currentName, inList, contents, curr)));
  }

  /** An error ends the parse: once a prefix fails, the whole stream fails with the same error. */
  lemma {:induction false} RunStopsAtError(ts: seq<Token>, k: nat)
    requires k <= |ts| && Run(ts[..k]).Failure?
    ensures Run(ts) == Run(ts[..k])
    decreases |ts| - k
  {
    if k < |ts| {
      assert ts[..k + 1][..k] == ts[..k];
      RunStopsAtError(ts, k + 1);
    } else {
      assert ts[..k] == ts;
    }
  }

  // ---------------------------------------------------------------------------
  // What the parser produces
  // ---------------------------------------------------------------------------

  /** The texts of the tokens that start targets, in order. */
  function TargetNames(ts: seq<Token>): seq<string>
    decreases |ts|
  {
    if ts == [] then []
    else TargetNames(ts[..|ts| - 1]) + (if StartsTarget(ts[|ts| - 1]) then [ts[|ts| - 1].text] else [])
  }

  /** The kinds of the targets of `body`, skipping `None`. */
  function Kinds(body: Body): seq<string>
    decreases |body|
  {
    if body == [] then []
    else Kinds(body[..|body| - 1]) + (if body[|body| - 1].Some? then [body[|body| - 1].value.kind] else [])
  }

  function KindsOfState(s: ParserState): seq<string> {
    Kinds(Flush(s))
  }

  /** The parser keeps one target per target-starting token, in order, and reads none before
      the first. */
  lemma {:induction false} RunTargets(ts: seq<Token>)
    requires Run(ts).Success?
    ensures KindsOfState(Run(ts).value) == TargetNames(ts)
    ensures Run(ts).value.curr.None? <==> TargetNames(ts) == []
    ensures Run(ts).value.curr.None? ==> Run(ts).value.contents == []
    decreases |ts|
  {
    if ts != [] {
      var init, t := ts[..|ts| - 1], ts[|ts| - 1];
      RunTargets(init);
      assert Run(ts) == Step(Run(init).value, t);
      StepTargets(Run(init).value, t);
    }
  }

  /** One token adds its text to the target kinds exactly when it starts a target. */
  lemma StepTargets(s: ParserState, t: Token)
    requires StateValid(s) && Step(s, t).Success?
    requires s.curr.None? ==> s.contents == []
    ensures KindsOfState(Step(s, t).value) == KindsOfState(s) + (if StartsTarget(t) then [t.text] else [])
    ensures Step(s, t).value.curr.None? <==> s.curr.None? && !StartsTarget(t)
    ensures Step(s, t).value.curr.None? ==> Step(s, t).value.contents == []
  {
    if StartsTarget(t) {
      NewTargetKinds(s, t.text);
    } else {
      StepKeepsShape(s, t);
      KindsOfSameShape(s, Step(s, t).value);
    }
  }

  /** Starting a target adds its kind to the kinds listed. */
  lemma NewTargetKinds(s: ParserState, k: string)
    requires s.curr.None? ==> s.contents == []
    ensures KindsOfState(NewTarget(s, k)) == KindsOfState(s) + [k]
  {
    var b, x := Flush(s), Some(Target(k, Empty()));
    if s.curr.Some? {
      assert Flush(NewTarget(s, k)) == b + [x];
      assert (b + [x])[..|b|] == b;
    } else {
      assert b == [None] && Flush(NewTarget(s, k)) == [x];
      assert Kinds(b) == Kinds([]);
      assert Kinds([x]) == Kinds([]) + [k];
    }
  }

  /** A token that does not start a target keeps the finished targets and the current kind. */
  lemma StepKeepsShape(s: ParserState, t: Token)
    requires StateValid(s) && Step(s, t).Success? && !StartsTarget(t)
    ensures Step(s, t).value.contents == s.contents
    ensures Step(s, t).value.curr.Some? <==> s.curr.Some?
    ensures Step(s, t).value.curr.Some? ==> Step(s, t).value.curr.value.kind == s.curr.value.kind
  {
  }

  lemma KindsOfSameShape(s: ParserState, s': ParserState)
    requires s'.contents == s.contents
    requires s'.curr.Some? <==> s.curr.Some?
    requires s'.curr.Some? ==> s'.curr.value.kind == s.curr.value.kind
    ensures KindsOfState(s') == KindsOfState(s)
  {
    var b, b' := Flush(s), Flush(s');
    assert b[..|b| - 1] == b'[..|b'| - 1];
  }

  /** A parsed body lists the targets in the order their names appear, one entry each; a stream
      with no target name parses to `[None]`. */
  lemma ParsedTargets(ts: seq<Token>)
    requires ParseBody(ts).Success?
    ensures Kinds(ParseBody(ts).value) == TargetNames(ts)
    ensures |ParseBody(ts).value| == if TargetNames(ts) == [] then 1 else |TargetNames(ts)|
    ensures TargetNames(ts) == [] ==> ParseBody(ts).value == [None]
    ensures TargetNames(ts) != [] ==> forall i :: 0 <= i < |ParseBody(ts).value| ==> ParseBody(ts).value[i].Some?
  {
    RunTargets(ts);
    var s := Run(ts).value;
    if s.curr.Some? {
      AllSomeKinds(Flush(s));
    }
  }

  lemma {:induction false} AllSomeKinds(body: Body)
    requires forall i :: 0 <= i < |body| ==> body[i].Some?
    ensures |Kinds(body)| == |body|
    decreases |body|
  {
    if body != [] {
      AllSomeKinds(body[..|body| - 1]);
    }
  }

  /** A field name or a value before the first target is an error. */
  lemma ValueBeforeTargetFails(t: Token, rest: seq<Token>)
    requires NamesField(t) || IsValueToken(t)
    ensures ParseBody([t] + rest).Failure?
  {
    var ts := [t] + rest;
    assert ts[..1] == [t];
    assert [t][..0] == [];
    RunStopsAtError(ts, 1);
  }

  /** A field name makes that field present with no value and current; nothing else changes. */
  lemma FieldNameStep(s: ParserState, t: Token)
    requires StateValid(s) && s.curr.Some? && NamesField(t)
    ensures Step(s, t).Success?
    ensures Step(s, t).value.currentName == Some(t.text)
    ensures Step(s, t).value.curr.value.fields.m == s.curr.value.fields.m[Some(t.text) := NoneV]
    ensures Step(s, t).value.contents == s.contents && Step(s, t).value.inList == s.inList
  {
  }

  /** Outside a list, a value goes to the current field, which stops being current. */
  lemma ScalarValueStep(s: ParserState, t: Token)
    requires StateValid(s) && s.curr.Some? && IsValueToken(t) && !s.inList
    ensures Step(s, t).Success?
    ensures Step(s, t).value.curr.value.fields.m == s.curr.value.fields.m[s.currentName := Str(t.text)]
    ensures Step(s, t).value.currentName == None
  {
  }

  /** Inside a list, the first value is stored as it is and later ones are appended stripped;
      the field stays current. */
  lemma ListValueStep(s: ParserState, t: Token)
    requires StateValid(s) && s.curr.Some? && IsValueToken(t) && s.inList
    requires s.currentName in s.curr.value.fields.m && !s.curr.value.fields.m[s.currentName].Str?
    ensures Step(s, t).Success?
    ensures Step(s, t).value.currentName == s.currentName
    ensures Step(s, t).value.curr.value.fields.m[s.currentName] ==
              match s.curr.value.fields.m[s.currentName]
              case List(items) => List(items + [Strip(t.text)])
              case _ => List([t.text])
  {
  }

  /** A closing bracket ends the list and clears the current field. */
  lemma CloseListStep(s: ParserState)
    requires StateValid(s)
    ensures Step(s, Token(Op, "]")) == Success(s.(inList := false, currentName := None))
  {
    assert !Contains("]", "python_") by { ShortNotContains("]", "python_"); }
  }

  /** A target name finishes the target being read, if any, and resets the current field and
      the list mode. */
  lemma TargetStep(s: ParserState, t: Token)
    requires StateValid(s) && StartsTarget(t) && s.curr.Some?
    ensures Step(s, t) == Success(ParserState(None, false, s.contents + [s.curr.value], Some(Target(t.text, Empty()))))
  {
  }

  // ---------------------------------------------------------------------------
  // Printing the targets back
  // ---------------------------------------------------------------------------

  /** `f"{k}"` for a field key. */
  function KeyText(k: Option<string>): string {
    match k
    case None => "None"
    case Some(name) => name
  }

  /** The line of one field: `    k=v,` for a single value, `    k=[a, b],` for a list; a field
      with no value makes `', '.join(None)` fail. */
  function FieldLine(k: Option<string>, v: Value): (r: Result<string, string>)
    ensures r.Failure? <==> v.NoneV?
    ensures r.Success? ==> StartsWith(r.value, "    " + KeyText(k) + "=") && r.value[|r.value| - 1] == ','
  {
    match v
    case NoneV => Failure("TypeError: can only join an iterable")
    case Str(x) => Success("    " + KeyText(k) + "=" + x + ",")
    case List(items) => Success("    " + KeyText(k) + "=[" + Join(items, ", ") + "],")
  }

  /** The field lines of the keys `keys`, in order. */
  function FieldLines(keys: seq<Option<string>>, m: map<Option<string>, Value>): Result<seq<string>, string>
    requires forall k :: k in keys ==> k in m
    decreases |keys|
  {
    if keys == [] then Success([])
    else
      match FieldLines(keys[..|keys| - 1], m)
      case Failure(e) => Failure(e)
      case Success(ls) =>
        match FieldLine(keys[|keys| - 1], m[keys[|keys| - 1]])
        case Failure(e) => Failure(e)
        case Success(l) => Success(ls + [l])
  }

  /** The lines of one entry of the body: `key()` for a target without fields, otherwise `key(`,
      the field lines and `)\n`. A `None` entry has no `items` to print. */
  function TargetLines(c: Option<Target>): Result<seq<string>, string>
    requires c.Some? ==> c.value.fields.Valid()
  {
    match c
    case None => Failure("AttributeError: 'NoneType' object has no attribute 'items'")
    case Some(t) =>
      if t.fields.keys == [] then Success([t.kind + "()"])
      else
        match FieldLines(t.fields.keys, t.fields.m)
        case Failure(e) => Failure(e)
        case Success(ls) => Success([t.kind + "("] + ls + [")\n"])
  }

  /** The lines of the whole body, entry after entry. */
  function BodyLines(body: Body): Result<seq<string>, string>
    requires WellFormed(body)
    decreases |body|
  {
    if body == [] then Success([])
    else
      match BodyLines(body[..|body| - 1])
      case Failure(e) => Failure(e)
      case Success(ls) =>
        match TargetLines(body[|body| - 1])
        case Failure(e) => Failure(e)
        case Success(l) => Success(ls + l)
  }

  /** `to_filecontent`: the lines joined with newlines, as the content of the request's path. */
  function ToFileContent(path: string, body: Body): Result<FileImportRecs.FileContent, string>
    requires WellFormed(body)
  {
    match BodyLines(body)
    case Failure(e) => Failure(e)
    case Success(ls) => Success(FileImportRecs.FileContent(path, Join(ls, "\n")))
  }

  /** `to_filecontent`, with its loops. */
  method RenderBody(path: string, body: Body) returns (r: Result<FileImportRecs.FileContent, string>)
    requires WellFormed(body)
    ensures r == ToFileContent(path, body)
  {
    var lines: seq<string> := [];
    for i := 0 to |body|
      invariant BodyLines(body[..i]) == Success(lines)
    {
      assert body[..i + 1][..i] == body[..i];
      var more := RenderEntry(body[i]);
      if more.Failure? {
        BodyLinesStop(body, i + 1);
        return Failure(more.error);
      }
      lines := lines + more.value;
    }
    assert body[..|body|] == body;
    r := Success(FileImportRecs.FileContent(path, Join(lines, "\n")));
  }

  /** The inner loop of `to_filecontent`, over one entry. */
  method RenderEntry(c: Option<Target>) returns (r: Result<seq<string>, string>)
    requires c.Some? ==> c.value.fields.Valid()
    ensures r == TargetLines(c)
  {
    if c.None? {
      return Failure("AttributeError: 'NoneType' object has no attribute 'items'");
    }
    var t := c.value;
    if |t.fields.keys| == 0 {
      return Success([t.kind + "()"]);
    }
    var fieldLines := RenderFields(t.fields.keys, t.fields.m);
    if fieldLines.Failure? {
      return Failure(fieldLines.error);
    }
    r := Success([t.kind + "("] + fieldLines.value + [")\n"]);
  }

  /** The loop over the fields of one target. */
  method RenderFields(keys: seq<Option<string>>, m: map<Option<string>, Value>) returns (r: Result<seq<string>, string>)
    requires forall k :: k in keys ==> k in m
    ensures r == FieldLines(keys, m)
  {
    var fieldLines: seq<string> := [];
    for j := 0 to |keys|
      invariant FieldLines(keys[..j], m) == Success(fieldLines)
    {
      assert keys[..j + 1][..j] == keys[..j];
      var line := FieldLine(keys[j], m[keys[j]]);
      if line.Failure? {
        FieldLinesStop(keys, m, j + 1);
        return Failure(line.error);
      }
      fieldLines := fieldLines + [line.value];
    }
    assert keys[..|keys|] == keys;
    r := Success(fieldLines);
  }

  lemma {:induction false} BodyLinesStop(body: Body, k: nat)
    requires WellFormed(body) && k <= |body|
    requires BodyLines(body[..k]).Failure?
    ensures BodyLines(body) == BodyLines(body[..k])
    decreases |body| - k
  {
    if k < |body| {
      assert body[..k + 1][..k] == body[..k];
      BodyLinesStop(body, k + 1);
    } else {
      assert body[..k] == body;
    }
  }

  lemma {:induction false} FieldLinesStop(keys: seq<Option<string>>, m: map<Option<string>, Value>, k: nat)
    requires forall x :: x in keys ==> x in m
    requires k <= |keys| && FieldLines(keys[..k], m).Failure?
    ensures FieldLines(keys, m) == FieldLines(keys[..k], m)
    decreases |keys| - k
  {
    if k < |keys| {
      assert keys[..k + 1][..k] == keys[..k];
      FieldLinesStop(keys, m, k + 1);
    } else {
      assert keys[..k] == keys;
    }
  }

  /** Printing fails exactly on a `None` entry or a field without a value; otherwise a target
      without fields takes one line and a target with `n` fields takes `n + 2`. */
  lemma {:induction false} FieldLinesSpec(keys: seq<Option<string>>, m: map<Option<string>, Value>)
    requires forall k :: k in keys ==> k in m
    ensures FieldLines(keys, m).Failure? <==> exists i :: 0 <= i < |keys| && m[keys[i]].NoneV?
    ensures FieldLines(keys, m).Success? ==>
              |FieldLines(keys, m).value| == |keys| &&
              forall i :: 0 <= i < |keys| ==> FieldLines(keys, m).value[i] == FieldLine(keys[i], m[keys[i]]).value
    decreases |keys|
  {
    if keys != [] {
      var init := keys[..|keys| - 1];
      FieldLinesSpec(init, m);
      if exists i :: 0 <= i < |init| && m[init[i]].NoneV? {
        var i :| 0 <= i < |init| && m[init[i]].NoneV?;
        assert keys[i] == init[i];
      }
      if exists i :: 0 <= i < |keys| && m[keys[i]].NoneV? {
        var i :| 0 <= i < |keys| && m[keys[i]].NoneV?;
        if i < |init| { assert init[i] == keys[i]; }
      }
    }
  }

  lemma TargetLinesSpec(t: Target)
    requires t.fields.Valid()
    ensures TargetLines(Some(t)).Failure? <==> exists k :: k in t.fields.m && t.fields.m[k].NoneV?
    ensures TargetLines(Some(t)).Success? ==>
              |TargetLines(Some(t)).value| == (if t.fields.keys == [] then 1 else |t.fields.keys| + 2)
    ensures TargetLines(Some(t)).Success? ==>
              TargetLines(Some(t)).value[0] == t.kind + (if t.fields.keys == [] then "()" else "(")
  {
    FieldLinesSpec(t.fields.keys, t.fields.m);
    if exists k :: k in t.fields.m && t.fields.m[k].NoneV? {
      var k :| k in t.fields.m && t.fields.m[k].NoneV?;
      var i :| 0 <= i < |t.fields.keys| && t.fields.keys[i] == k;
    }
  }

  /** Printing is incremental: when a body prints, each of its prefixes prints, as a prefix of its
      lines. */
  lemma {:induction false} BodyLinesPrefix(body: Body, k: nat)
    requires WellFormed(body) && k <= |body| && BodyLines(body).Success?
    ensures WellFormed(body[..k]) && BodyLines(body[..k]).Success?
    ensures BodyLines(body[..k]).value <= BodyLines(body).value
    decreases |body| - k
  {
    if k == |body| {
      assert body[..k] == body;
    } else {
      BodyLinesPrefix(body, k + 1);
      var p := body[..k + 1];
      assert p[..|p| - 1] == body[..k];
      assert WellFormed(body[..k]);
      var shorter := BodyLines(body[..k]);
      assert shorter.Success? && BodyLines(p).value == shorter.value + TargetLines(p[|p| - 1]).value;
      assert shorter.value <= BodyLines(p).value;
    }
  }

  /** Printing fails exactly when the body has a `None` entry or a field without a value. */
  lemma {:induction false} BodyLinesFail(body: Body)
    requires WellFormed(body)
    ensures BodyLines(body).Failure? <==>
              exists i :: 0 <= i < |body| && (body[i].None? || exists k :: k in body[i].value.fields.m && body[i].value.fields.m[k].NoneV?)
    decreases |body|
  {
    if body != [] {
      var init := body[..|body| - 1];
      assert WellFormed(init);
      BodyLinesFail(init);
      if body[|body| - 1].Some? {
        TargetLinesSpec(body[|body| - 1].value);
      }
      if exists i :: 0 <= i < |init| && (init[i].None? || exists k :: k in init[i].value.fields.m && init[i].value.fields.m[k].NoneV?) {
        var i :| 0 <= i < |init| && (init[i].None? || exists k :: k in init[i].value.fields.m && init[i].value.fields.m[k].NoneV?);
        assert body[i] == init[i];
      }
      if exists i :: 0 <= i < |body| && (body[i].None? || exists k :: k in body[i].value.fields.m && body[i].value.fields.m[k].NoneV?) {
        var i :| 0 <= i < |body| && (body[i].None? || exists k :: k in body[i].value.fields.m && body[i].value.fields.m[k].NoneV?);
        if i < |init| { assert init[i] == body[i]; }
      }
    }
  }

  // ---------------------------------------------------------------------------
  // Filling in the defaults
  // ---------------------------------------------------------------------------

  /** `name, value = option.split("=")`: an option must hold exactly one `=`. */
  function SplitOption(option: string): (r: Result<(string, string), string>)
    ensures r.Success? <==> |SplitOn(option, "=")| == 2
    ensures r.Success? ==> r.value.0 + "=" + r.value.1 == option
    ensures r.Success? ==> '=' !in r.value.0 && '=' !in r.value.1
  {
    var parts := SplitOn(option, "=");
    JoinSplit(option, "=");
    SplitPiecesFree(option, '=');
    if |parts| == 2 then
      assert Join(parts, "=") == parts[0] + "=" + parts[1];
      Success((parts[0], parts[1]))
    else if |parts| < 2 then Failure("ValueError: not enough values to unpack (expected 2, got 1)")
    else Failure("ValueError: too many values to unpack (expected 2)")
  }

  /** Splitting gives back the name and the value an option was written from. */
  lemma SplitOptionOf(name: string, value: string)
    requires '=' !in name && '=' !in value
    ensures SplitOption(name + "=" + value) == Success((name, value))
  {
    SplitAtFirst(name, "=", value);
    SplitWithoutSeparator(value, "=", 0);
  }

  /** The change one default makes to a target's fields: `Add` when the field is absent, `Set`
      when it holds anything but the default value, nothing when it already holds it. */
  function ChangeFor(fields: OMap<Option<string>, Value>, kind: string, name: string, value: string): (r: seq<string>)
    ensures r == [] <==> Some(name) in fields.m && fields.m[Some(name)] == Str(value)
    ensures |r| <= 1
  {
    if Some(name) !in fields.m then ["Add " + name + "=" + value + " in " + kind]
    else if fields.m[Some(name)] != Str(value) then ["Set " + name + "=" + value + " in " + kind]
    else []
  }

  /** The options of one target type applied in order to the fields of a target of that type:
      the new fields and the changes, or the first option that does not split. */
  function ApplyOptions(fields: OMap<Option<string>, Value>, kind: string, options: seq<string>)
    : (r: Result<(OMap<Option<string>, Value>, seq<string>), string>)
    requires fields.Valid()
    ensures r.Success? ==> r.value.0.Valid()
    decreases |options|
  {
    if options == [] then Success((fields, []))
    else
      match ApplyOptions(fields, kind, options[..|options| - 1])
      case Failure(e) => Failure(e)
      case Success(acc) =>
        match SplitOption(options[|options| - 1])
        case Failure(e) => Failure(e)
        case Success(nv) =>
          Success((acc.0.Put(Some(nv.0), Str(nv.1)), acc.1 + ChangeFor(acc.0, kind, nv.0, nv.1)))
  }

  /** The defaults applied to one entry of the body. Only the defaults listed under the entry's
      own type apply; a `None` entry fails the membership test as soon as there is a default. */
  function ApplyToEntry(c: Option<Target>, defaults: OMap<string, seq<string>>)
    : (r: Result<(Option<Target>, seq<string>), string>)
    requires c.Some? ==> c.value.fields.Valid()
    ensures r.Success? ==> (r.value.0.Some? <==> c.Some?)
    ensures r.Success? && c.Some? ==> r.value.0.value.kind == c.value.kind && r.value.0.value.fields.Valid()
  {
    match c
    case None =>
      if defaults.keys == [] then Success((None, []))
      else Failure("TypeError: argument of type 'NoneType' is not iterable")
    case Some(t) =>
      if t.kind !in defaults.m then Success((c, []))
      else
        match ApplyOptions(t.fields, t.kind, defaults.m[t.kind])
        case Failure(e) => Failure(e)
        case Success(fc) => Success((Some(Target(t.kind, fc.0)), fc.1))
  }

  /** The defaults applied to every entry of the body, in order, with all the changes. */
  function ApplyAll(body: Body, defaults: OMap<string, seq<string>>): (r: Result<(Body, seq<string>), string>)
    requires WellFormed(body)
    ensures r.Success? ==> |r.value.0| == |body| && WellFormed(r.value.0)
    decreases |body|
  {
    if body == [] then Success(([], []))
    else
      match ApplyAll(body[..|body| - 1], defaults)
      case Failure(e) => Failure(e)
      case Success(acc) =>
        match ApplyToEntry(body[|body| - 1], defaults)
        case Failure(e) => Failure(e)
        case Success(ec) => Success((acc.0 + [ec.0], acc.1 + ec.1))
  }

  /** `BuildFileUpdateResult`. */
  datatype UpdateResult = UpdateResult(fileContent: FileImportRecs.FileContent, changes: seq<string>)

  /** The answer of `update_build_file_defaults`; `tuple(set(changes))` is modelled as the
      changes without repeats, in first-occurrence order. */
  function Update(req: Request, lexed: Result<seq<Token>, string>): Result<UpdateResult, string>
    requires req.defaults.Valid()
  {
    match Parse(req.path, lexed)
    case Failure(e) => Failure(e)
    case Success(body) =>
      match ApplyAll(body, req.defaults)
      case Failure(e) => Failure(e)
      case Success(bc) =>
        match ToFileContent(req.path, bc.0)
        case Failure(e) => Failure(e)
        case Success(fc) => Success(UpdateResult(fc, Dedup(bc.1)))
  }

  /** `update_build_file_defaults`. */
  method UpdateBuildFileDefaults(req: Request, lexed: Result<seq<Token>, string>) returns (r: Result<UpdateResult, string>)
    requires req.defaults.Valid()
    ensures r == Update(req, lexed)
  {
    var ts := Tokenize(req.path, lexed);
    if ts.Failure? {
      return Failure(ts.error);
    }
    var parsed := ParseTokens(ts.value);
    if parsed.Failure? {
      return Failure(parsed.error);
    }
    var applied := ApplyDefaults(parsed.value, req.defaults);
    if applied.Failure? {
      return Failure(applied.error);
    }
    var fc := RenderBody(req.path, applied.value.0);
    if fc.Failure? {
      return Failure(fc.error);
    }
    r := Success(UpdateResult(fc.value, Dedup(applied.value.1)));
  }

  /** The outer loop of `update_build_file_defaults`, over the entries of the body. */
  method ApplyDefaults(body: Body, defaults: OMap<string, seq<string>>) returns (r: Result<(Body, seq<string>), string>)
    requires WellFormed(body) && defaults.Valid()
    ensures r == ApplyAll(body, defaults)
  {
    var out: Body := [];
    var changes: seq<string> := [];
    for i := 0 to |body|
      invariant ApplyAll(body[..i], defaults) == Success((out, changes))
    {
      assert body[..i + 1][..i] == body[..i];
      assert WellFormed(body[..i]);
      var e := EntryDefaults(body[i], defaults);
      if e.Failure? {
        ApplyAllStop(body, defaults, i + 1);
        return Failure(e.error);
      }
      out, changes := out + [e.value.0], changes + e.value.1;
    }
    assert body[..|body|] == body;
    r := Success((out, changes));
  }

  lemma {:induction false} ApplyAllStop(body: Body, defaults: OMap<string, seq<string>>, k: nat)
    requires WellFormed(body) && k <= |body|
    requires ApplyAll(body[..k], defaults).Failure?
    ensures ApplyAll(body, defaults) == ApplyAll(body[..k], defaults)
    decreases |body| - k
  {
    if k < |body| {
      assert body[..k + 1][..k] == body[..k];
      ApplyAllStop(body, defaults, k + 1);
    } else {
      assert body[..k] == body;
    }
  }

  /** The loop over the configured target types for one entry: only the entry's own type passes
      the membership test. */
  method EntryDefaults(c: Option<Target>, defaults: OMap<string, seq<string>>) returns (r: Result<(Option<Target>, seq<string>), string>)
    requires c.Some? ==> c.value.fields.Valid()
    requires defaults.Valid()
    ensures r == ApplyToEntry(c, defaults)
  {
    if c.None? {
      if |defaults.keys| == 0 {
        return Success((None, []));
      }
      return Failure("TypeError: argument of type 'NoneType' is not iterable");
    }
    var t := c.value;
    var fields := t.fields;
    var changes: seq<string> := [];
    for i := 0 to |defaults.keys|
      invariant fields.Valid()
      invariant t.kind !in defaults.keys[..i] ==> fields == t.fields && changes == []
      invariant t.kind in defaults.keys[..i] ==>
                  ApplyOptions(t.fields, t.kind, defaults.m[t.kind]) == Success((fields, changes))
    {
      var targetType := defaults.keys[i];
      assert defaults.keys[..i + 1] == defaults.keys[..i] + [targetType];
      if targetType != t.kind {
        continue;
      }
      assert t.kind !in defaults.keys[..i];
      var applied := OptionsDefaults(fields, t.kind, defaults.m[targetType]);
      if applied.Failure? {
        return Failure(applied.error);
      }
      fields, changes := applied.value.0, applied.value.1;
    }
    assert defaults.keys[..|defaults.keys|] == defaults.keys;
    if t.kind in defaults.m {
      r := Success((Some(Target(t.kind, fields)), changes));
    } else {
      r := Success((c, []));
    }
  }

  /** The innermost loop, over the options of one target type. */
  method OptionsDefaults(fields0: OMap<Option<string>, Value>, kind: string, options: seq<string>)
    returns (r: Result<(OMap<Option<string>, Value>, seq<string>), string>)
    requires fields0.Valid()
    ensures r == ApplyOptions(fields0, kind, options)
  {
    var fields := fields0;
    var changes: seq<string> := [];
    for i := 0 to |options|
      invariant ApplyOptions(fields0, kind, options[..i]) == Success((fields, changes))
    {
      assert options[..i + 1][..i] == options[..i];
      var nv := SplitOption(options[i]);
      if nv.Failure? {
        ApplyOptionsStop(fields0, kind, options, i + 1);
        return Failure(nv.error);
      }
      var name, value := nv.value.0, nv.value.1;
      changes := changes + ChangeFor(fields, kind, name, value);
      fields := fields.Put(Some(name), Str(value));
    }
    assert options[..|options|] == options;
    r := Success((fields, changes));
  }

  lemma {:induction false} ApplyOptionsStop(fields: OMap<Option<string>, Value>, kind: string, options: seq<string>, k: nat)
    requires fields.Valid() && k <= |options|
    requires ApplyOptions(fields, kind, options[..k]).Failure?
    ensures ApplyOptions(fields, kind, options) == ApplyOptions(fields, kind, options[..k])
    decreases |options| - k
  {
    if k < |options| {
      assert options[..k + 1][..k] == options[..k];
      ApplyOptionsStop(fields, kind, options, k + 1);
    } else {
      assert options[..k] == options;
    }
  }

  // ---------------------------------------------------------------------------
  // What filling in the defaults guarantees
  // ---------------------------------------------------------------------------

  /** The name an option sets (its text before the first `=`). */
  function OptionName(option: string): string {
    BeforeFirst(option, "=")
  }

  /** After the options are applied, the field of each option that is not overridden by a later
      option of the same name holds exactly that option's value. */
  lemma {:induction false} DefaultsHold(fields: OMap<Option<string>, Value>, kind: string, options: seq<string>, i: nat)
    requires fields.Valid() && ApplyOptions(fields, kind, options).Success?
    requires i < |options|
    requires forall j :: i < j < |options| ==> OptionName(options[j]) != OptionName(options[i])
    ensures SplitOption(options[i]).Success?
    ensures var nv := SplitOption(options[i]).value;
            Some(nv.0) in ApplyOptions(fields, kind, options).value.0.m &&
            ApplyOptions(fields, kind, options).value.0.m[Some(nv.0)] == Str(nv.1)
    decreases |options|
  {
    var init := options[..|options| - 1];
    var last := options[|options| - 1];
    assert ApplyOptions(fields, kind, init).Success?;
    if i < |init| {
      forall j | i < j < |init| ensures OptionName(init[j]) != OptionName(init[i]) {
        assert init[j] == options[j];
      }
      assert init[i] == options[i];
      DefaultsHold(fields, kind, init, i);
      assert OptionName(last) != OptionName(options[i]);
    }
  }

  /** A field no option names keeps its presence and its value. */
  lemma {:induction false} OtherFieldsKept(fields: OMap<Option<string>, Value>, kind: string, options: seq<string>, k: Option<string>)
    requires fields.Valid() && ApplyOptions(fields, kind, options).Success?
    requires forall j :: 0 <= j < |options| ==> k != Some(OptionName(options[j]))
    ensures k in ApplyOptions(fields, kind, options).value.0.m <==> k in fields.m
    ensures k in fields.m ==> ApplyOptions(fields, kind, options).value.0.m[k] == fields.m[k]
    decreases |options|
  {
    if options != [] {
      var init := options[..|options| - 1];
      forall j | 0 <= j < |init| ensures k != Some(OptionName(init[j])) {
        assert init[j] == options[j];
      }
      OtherFieldsKept(fields, kind, init, k);
    }
  }

  /** Each change names an option and the target type, as an `Add` or a `Set`, and there is at
      most one change per option. */
  lemma {:induction false} ChangesFromOptions(fields: OMap<Option<string>, Value>, kind: string, options: seq<string>, x: string)
    requires fields.Valid() && ApplyOptions(fields, kind, options).Success?
    ensures |ApplyOptions(fields, kind, options).value.1| <= |options|
    ensures x in ApplyOptions(fields, kind, options).value.1 ==>
              exists j :: 0 <= j < |options| && SplitOption(options[j]).Success? &&
                var nv := SplitOption(options[j]).value;
                x == "Add " + nv.0 + "=" + nv.1 + " in " + kind || x == "Set " + nv.0 + "=" + nv.1 + " in " + kind
    decreases |options|
  {
    if options != [] {
      var init := options[..|options| - 1];
      ChangesFromOptions(fields, kind, init, x);
      var acc := ApplyOptions(fields, kind, init).value;
      if x in acc.1 {
        var j :| 0 <= j < |init| && SplitOption(init[j]).Success? &&
                 var nv := SplitOption(init[j]).value;
                 x == "Add " + nv.0 + "=" + nv.1 + " in " + kind || x == "Set " + nv.0 + "=" + nv.1 + " in " + kind;
        assert options[j] == init[j];
      }
    }
  }

  /** With distinct option names, applying the options a second time changes nothing and
      reports nothing. */
  lemma Idempotent(fields: OMap<Option<string>, Value>, kind: string, options: seq<string>)
    requires fields.Valid() && ApplyOptions(fields, kind, options).Success?
    requires forall i, j :: 0 <= i < j < |options| ==> OptionName(options[i]) != OptionName(options[j])
    ensures ApplyOptions(ApplyOptions(fields, kind, options).value.0, kind, options) ==
              Success((ApplyOptions(fields, kind, options).value.0, []))
  {
    var once := ApplyOptions(fields, kind, options).value.0;
    forall i | 0 <= i < |options|
      ensures SplitOption(options[i]).Success? && Some(SplitOption(options[i]).value.0) in once.m &&
              once.m[Some(SplitOption(options[i]).value.0)] == Str(SplitOption(options[i]).value.1)
    {
      DefaultsHold(fields, kind, options, i);
    }
    ReapplyNothing(once, kind, options);
  }

  /** Options that each already hold their value in `fields` leave it alone and report nothing. */
  lemma {:induction false} ReapplyNothing(fields: OMap<Option<string>, Value>, kind: string, options: seq<string>)
    requires fields.Valid()
    requires forall i :: 0 <= i < |options| ==>
               SplitOption(options[i]).Success? && Some(SplitOption(options[i]).value.0) in fields.m &&
               fields.m[Some(SplitOption(options[i]).value.0)] == Str(SplitOption(options[i]).value.1)
    ensures ApplyOptions(fields, kind, options) == Success((fields, []))
    decreases |options|
  {
    if options != [] {
      var init := options[..|options| - 1];
      forall i | 0 <= i < |init|
        ensures SplitOption(init[i]).Success? && Some(SplitOption(init[i]).value.0) in fields.m &&
                fields.m[Some(SplitOption(init[i]).value.0)] == Str(SplitOption(init[i]).value.1)
      {
        assert init[i] == options[i];
      }
      ReapplyNothing(fields, kind, init);
      var nv := SplitOption(options[|options| - 1]).value;
      assert fields.m[Some(nv.0) := Str(nv.1)] == fields.m;
      assert fields.Put(Some(nv.0), Str(nv.1)) == fields;
      assert ChangeFor(fields, kind, nv.0, nv.1) == [];
      assert ApplyOptions(fields, kind, options) ==
             Success((fields.Put(Some(nv.0), Str(nv.1)), [] + ChangeFor(fields, kind, nv.0, nv.1)));
      assert [] + ChangeFor(fields, kind, nv.0, nv.1) == [];
    }
  }

  /** An updated body is the parsed body with, in every target of a configured type, the
      defaults of that type applied to its fields; other entries are unchanged. */
  lemma {:induction false} ApplyAllEntries(body: Body, defaults: OMap<string, seq<string>>, i: nat)
    requires WellFormed(body) && ApplyAll(body, defaults).Success? && i < |body|
    ensures ApplyToEntry(body[i], defaults).Success?
    ensures ApplyAll(body, defaults).value.0[i] == ApplyToEntry(body[i], defaults).value.0
    decreases |body|
  {
    var init := body[..|body| - 1];
    assert WellFormed(init);
    if i < |init| {
      assert init[i] == body[i];
      ApplyAllEntries(init, defaults, i);
    }
  }

  /** The reported changes have no repeats, and are exactly the changes made. */
  lemma UpdateChanges(req: Request, lexed: Result<seq<Token>, string>)
    requires req.defaults.Valid() && Update(req, lexed).Success?
    ensures NoDuplicates(Update(req, lexed).value.changes)
    ensures var body := Parse(req.path, lexed).value;
            forall x :: x in Update(req, lexed).value.changes <==> x in ApplyAll(body, req.defaults).value.1
  {
    var body := Parse(req.path, lexed).value;
    DedupSpec(ApplyAll(body, req.defaults).value.1);
  }

  /** After an update, every target of a configured type has each default field (not overridden
      by a later default of the same name) set to exactly the default value. */
  lemma UpdatedTargetsHoldDefaults(body: Body, defaults: OMap<string, seq<string>>, i: nat, o: nat)
    requires WellFormed(body) && defaults.Valid() && ApplyAll(body, defaults).Success?
    requires i < |body| && body[i].Some? && body[i].value.kind in defaults.m
    requires var options := defaults.m[body[i].value.kind];
             o < |options| && forall j :: o < j < |options| ==> OptionName(options[j]) != OptionName(options[o])
    ensures var options := defaults.m[body[i].value.kind];
            SplitOption(options[o]).Success? &&
            ApplyAll(body, defaults).value.0[i].Some? &&
            Some(SplitOption(options[o]).value.0) in ApplyAll(body, defaults).value.0[i].value.fields.m &&
            ApplyAll(body, defaults).value.0[i].value.fields.m[Some(SplitOption(options[o]).value.0)] ==
              Str(SplitOption(options[o]).value.1)
  {
    ApplyAllEntries(body, defaults, i);
    var t := body[i].value;
    DefaultsHold(t.fields, t.kind, defaults.m[t.kind], o);
  }
}
