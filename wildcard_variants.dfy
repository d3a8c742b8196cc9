/**
 * The `wildcard_imports` copies of the text utilities and of the source
 * file walker. They differ from the `python_connect` versions in three
 * places: module keys keep their `__init__` segments, the usage pattern
 * accepts a different set of characters after a name, and a `from` import
 * without a module name makes parsing fail.
 */
module WildcardUtils {
  import opened Strings
  import PythonUtils

  /** `generate_relative_module_key` of `wildcard_imports/utils.py` and
      `wildcard_imports/import_fixer_utils.py`: the text before the first `.py` of the relative
      path, with every `/` turned into `.`; nothing else is removed. */
  function ModuleKey(path: string, includeTop: bool): (r: string)
    ensures '/' !in r
  {
    PythonUtils.DottedPath(path, includeTop)
  }

  /** The key of `a/b/c.py` is `a.b.c`, whatever the segments are called, `__init__` included. */
  lemma ModuleKeyOfSegments(segs: seq<string>)
    requires |segs| > 0 && forall i :: 0 <= i < |segs| ==> '/' !in segs[i] && '.' !in segs[i]
    ensures ModuleKey(Join(segs, "/") + ".py", true) == Join(segs, ".")
  {
    PythonUtils.DottedPathOfSegments(segs);
  }

  /** A package `__init__.py` keeps its `__init__` segment here, where the `python_connect` key
      drops it: `a/b/__init__.py` gives `a.b.__init__` against `a.b`. */
  lemma InitSegmentKept(segs: seq<string>)
    requires PythonUtils.PlainSegments(segs)
    ensures ModuleKey(Join(segs, "/") + "/__init__.py", true) == Join(segs, ".") + ".__init__"
    ensures PythonUtils.ModuleKey(Join(segs, "/") + "/__init__.py", true) == Join(segs, ".")
  {
    var withInit := segs + ["__init__"];
    JoinSnoc(segs, "__init__", "/");
    JoinSnoc(segs, "__init__", ".");
    assert Join(segs, "/") + "/__init__.py" == Join(withInit, "/") + ".py";
    PythonUtils.DottedPathOfSegments(withInit);
    PythonUtils.PackageInitKey(segs);
  }

  /** The documented examples: `app/module_2/a.py` gives `app.module_2.a` with the top-level
      package and `module_2.a` without it. */
  lemma DocExamples(app: string, pkg: string, mod: string)
    requires PythonUtils.PlainSegments([app, pkg, mod])
    requires !Contains(pkg + "/" + mod + ".py", app + "/")
    ensures ModuleKey(app + "/" + pkg + "/" + mod + ".py", true) == app + "." + pkg + "." + mod
    ensures ModuleKey(app + "/" + pkg + "/" + mod + ".py", false) == pkg + "." + mod
  {
    PythonUtils.JoinThree(app, pkg, mod);
    PythonUtils.DottedPathOfSegments([app, pkg, mod]);
    var rest := pkg + "/" + mod + ".py";
    assert app + "/" + pkg + "/" + mod + ".py" == app + "/" + rest;
    PythonUtils.RelativePathDropsTop(app, rest);
    PythonUtils.JoinTwo(pkg, mod);
    PythonUtils.DottedPathOfSegments([pkg, mod]);
  }

  /** The follower class `[.|(|)|| ]` of this copy's usage pattern. */
  const UsageFollowers: set<char> := {'.', '|', '(', ')', ' '}

  /** `has_symbol_usage` of `wildcard_imports/utils.py`. */
  predicate HasSymbolUsage(symbol: string, content: string) {
    PythonUtils.SymbolUsage(symbol, content, UsageFollowers)
  }

  /** The two copies disagree on what may follow a name: a space counts here and not in the
      `python_connect` copy, a `:` the other way round. */
  lemma FollowersDiffer()
    ensures HasSymbolUsage("x", " x ") && !PythonUtils.HasSymbolUsage("x", " x ")
    ensures PythonUtils.HasSymbolUsage("x", " x:") && !HasSymbolUsage("x", " x:")
  {
    PythonUtils.UsageDetected("x", " x ", UsageFollowers, 1);
    PythonUtils.UsageDetected("x", " x:", PythonUtils.UsageFollowers, 1);
    OnlyOneUsagePlace(" x ", PythonUtils.UsageFollowers);
    OnlyOneUsagePlace(" x:", UsageFollowers);
  }

  /** In a three-character text `_x_`, the only usage of `x` can start at offset 1 and end at 2. */
  lemma OnlyOneUsagePlace(content: string, followers: set<char>)
    requires |content| == 3 && content[0] == ' ' && content[1] == 'x' && content[2] != 'x'
    requires content[2] !in followers
    ensures !PythonUtils.SymbolUsage("x", content, followers)
  {
  }
}

/**
 * `wildcard_imports/python_file_info.py`: the same records as the
 * `python_connect` model, collected by a walker that evaluates
 * `tuple(None)` for `from . import x` and so fails on it.
 */
module WildcardFileInfo {
  import opened Wrappers
  import opened Strings
  import opened PyAst
  import opened PythonFileInfo

  /** A `from` statement without a module name and with at least one imported name. */
  predicate ModulelessFrom(k: Kind) {
    k.ImportFrom? && k.fromModule.None? && |k.aliases| > 0
  }

  /** `get_imports_from_ast_node` of this copy: `None` stands for the `TypeError` raised when it
      meets a moduleless `from` statement in a place it descends into. */
  function ImportsOf(n: Node): Option<seq<Import>>
    decreases n, 1
  {
    ImportsOfNodes(n.children)
  }

  function ImportsOfNodes(cs: seq<Node>): Option<seq<Import>>
    decreases cs, 0
  {
    if cs == [] then Some([])
    else
      match ImportsOfChild(cs[0])
      case None => None
      case Some(first) =>
        match ImportsOfNodes(cs[1..])
        case None => None
        case Some(rest) => Some(first + rest)
  }

  function ImportsOfChild(c: Node): Option<seq<Import>>
    decreases c, 2
  {
    var nested := if c.kind.ClassDef? || c.kind.FunctionDef? then ImportsOf(c) else Some([]);
    match nested
    case None => None
    case Some(inner) =>
      if ModulelessFrom(c.kind) then None else Some(inner + StatementImports(c.kind))
  }

  /** The statements that make the walker fail, searched where it descends: a moduleless `from`
      among `cs`, or inside a class or function among `cs`. */
  predicate FailsIn(cs: seq<Node>)
    decreases cs, 0
  {
    exists i :: 0 <= i < |cs| && FailsAt(cs[i])
  }

  predicate FailsAt(c: Node)
    decreases c, 1
  {
    ModulelessFrom(c.kind) || ((c.kind.ClassDef? || c.kind.FunctionDef?) && FailsIn(c.children))
  }

  /** `from_python_file_path` of this copy, given the parsed tree. */
  function FromAst(path: string, content: string, moduleKey: string, root: Node): (r: Result<FileInfo, string>)
    ensures r.Success? <==> !FailsIn(root.children)
    ensures r.Success? ==> r.value == PythonFileInfo.FromAst(path, content, moduleKey, root)
  {
    NodesFailSpec(root.children);
    match ImportsOf(root)
    case None => Failure("TypeError: 'NoneType' object is not iterable")
    case Some(imps) =>
      Success(FileInfo(path, content, moduleKey, imps, ClassesOf(root.children),
                       FunctionsOf(root.children), ConstantsOf(root.children)))
  }

  /** The walker fails exactly on the statements `FailsIn` finds, and otherwise collects what the
      `python_connect` walker collects. */
  lemma {:induction false} NodesFailSpec(cs: seq<Node>)
    ensures ImportsOfNodes(cs).None? <==> FailsIn(cs)
    ensures ImportsOfNodes(cs).Some? ==> ImportsOfNodes(cs).value == PythonFileInfo.ImportsOfNodes(cs)
    decreases cs, 0
  {
    if cs != [] {
      ChildFailSpec(cs[0]);
      NodesFailSpec(cs[1..]);
      if FailsIn(cs[1..]) {
        var i :| 0 <= i < |cs[1..]| && FailsAt(cs[1..][i]);
        assert FailsAt(cs[i + 1]);
      }
      if FailsIn(cs) {
        var i :| 0 <= i < |cs| && FailsAt(cs[i]);
        if i > 0 { assert FailsAt(cs[1..][i - 1]); }
      }
    }
  }

  lemma {:induction false} ChildFailSpec(c: Node)
    ensures ImportsOfChild(c).None? <==> FailsAt(c)
    ensures ImportsOfChild(c).Some? ==> ImportsOfChild(c).value == PythonFileInfo.ImportsOfChild(c)
    decreases c, 1
  {
    if c.kind.ClassDef? || c.kind.FunctionDef? {
      NodesFailSpec(c.children);
    }
  }

  /** `from . import x` at module level makes this copy fail where the `python_connect` copy
      records an import with an empty module path. */
  lemma RelativeImportWithoutModuleFails(path: string, content: string, key: string, level: nat)
    ensures FromAst(path, content, key,
              Node(ModuleDef, None, [Node(ImportFrom(None, [Alias("x", None)], level), Some(1), [])])).Failure?
  {
    var stmt := Node(ImportFrom(None, [Alias("x", None)], level), Some(1), []);
    assert FailsAt([stmt][0]);
  }
}

/**
 * `wildcard_imports/rules_param_types.py`: the request that pairs a file
 * with a file that wildcard-imports it, and its `py_import` lookup.
 */
module RulesParamTypes {
  import opened Wrappers
  import opened PythonFileInfo

  /** The first of `imps` whose module path renders as `key`. */
  function FirstWithModule(imps: seq<Import>, key: string): (r: Option<nat>)
    ensures r.Some? ==> r.value < |imps| && imps[r.value].ModulesStr() == key
    ensures r.Some? ==> forall j :: 0 <= j < r.value ==> imps[j].ModulesStr() != key
    ensures r.None? ==> forall j :: 0 <= j < |imps| ==> imps[j].ModulesStr() != key
    decreases |imps|
  {
    if imps == [] then None
    else if imps[0].ModulesStr() == key then Some(0)
    else
      match FirstWithModule(imps[1..], key)
      case None => None
      case Some(i) => Some(i + 1)
  }

  /** `PythonFileTransitiveImportRecommendationsRequest.py_import`: the first import of the
      transitive file whose module path is the module key of the imported file, or the exception
      "Import not found!". Names, level and aliases play no part in the match. */
  function PyImport(info: FileInfo, transitive: FileInfo): (r: Result<Import, string>)
    ensures r.Success? <==> exists i :: 0 <= i < |transitive.imports| && transitive.imports[i].ModulesStr() == info.moduleKey
    ensures r.Success? ==> r.value.ModulesStr() == info.moduleKey
    ensures r.Success? ==> exists i :: 0 <= i < |transitive.imports| && transitive.imports[i] == r.value &&
                             forall j :: 0 <= j < i ==> transitive.imports[j].ModulesStr() != info.moduleKey
  {
    match FirstWithModule(transitive.imports, info.moduleKey)
    case None => Failure("Import not found!")
    case Some(i) => Success(transitive.imports[i])
  }
}
