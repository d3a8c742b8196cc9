/**
 * The source file model of `import_fixer/python_connect/python_file_info.py`:
 * an import statement (`PythonImport`), a parsed file (`PythonFileInfo`) and
 * the walkers that collect a file's imports and top-level definitions from
 * its syntax tree.
 */
module PythonFileInfo {
  import opened Wrappers
  import opened Strings
  import opened PyAst

  /** `PythonImport`: one imported name (or dotted name) of one import statement. */
  datatype Import = Import(modules: seq<string>, level: nat, names: seq<string>, aliases: seq<Option<string>>)
  {
    /** `is_wildcard_import`: the names are exactly `("*",)`. */
    predicate IsWildcardImport() {
      names == ["*"]
    }

    /** `is_absolute` */
    predicate IsAbsolute() {
      level == 0
    }

    /** `modules_str`: the module path joined with dots. */
    function ModulesStr(): string {
      Join(modules, ".")
    }

    /** `import_str`: the statement as text, with every `.__init__` dropped from the module path. */
    function ImportStr(): (r: string)
      ensures StartsWith(r, if ModulesStr() != "" then "from " else "import ")
    {
      if ModulesStr() != "" then
        "from " + ReplaceAll(ModulesStr(), ".__init__", "") + " import " + Join(names, ", ")
      else
        "import " + Join(names, ", ")
    }
  }

  /** `PythonFileInfo`: a parsed file. Class, function and constant records are kept as their names. */
  datatype FileInfo = FileInfo(
    path: string,
    content: string,
    moduleKey: string,
    imports: seq<Import>,
    classes: seq<string>,
    functions: seq<string>,
    constants: seq<string>)
  {
    /** `is_module`: the file is a package `__init__.py`. */
    predicate IsModule() {
      Contains(path, "__init__.py")
    }

    /** `uses_import` */
    predicate UsesImport(importStr: string) {
      exists i :: 0 <= i < |imports| && imports[i].ImportStr() == importStr
    }

    /** `has_name`: the file defines `name` as a class, a function or a constant. */
    predicate HasName(name: string) {
      name in classes || name in functions || name in constants
    }
  }

  /** The synthetic `from <key> import *` the resolver builds for a module key. */
  function WildcardImportOf(moduleKey: string): Import {
    Import(SplitOn(moduleKey, "."), 0, ["*"], [])
  }

  // ---------------------------------------------------------------------------
  // The walkers
  // ---------------------------------------------------------------------------

  /** `get_imports_from_ast_node`: the imports of a node's children, descending into
      class and function bodies but into no other statement. */
  function ImportsOf(n: Node): seq<Import>
    decreases n, 1
  {
    ImportsOfNodes(n.children)
  }

  function ImportsOfNodes(cs: seq<Node>): seq<Import>
    decreases cs, 0
  {
    if cs == [] then [] else ImportsOfChild(cs[0]) + ImportsOfNodes(cs[1..])
  }

  /** What one child contributes: the imports nested in it (for a class or function),
      then one import per alias when it is an import statement. */
  function ImportsOfChild(c: Node): seq<Import>
    decreases c, 2
  {
    (if c.kind.ClassDef? || c.kind.FunctionDef? then ImportsOf(c) else []) + StatementImports(c.kind)
  }

  function StatementImports(k: Kind): seq<Import> {
    match k
    case ImportStmt(aliases) => AliasImports([], 0, aliases)
    case ImportFrom(fromModule, aliases, level) =>
      AliasImports(if fromModule.Some? && fromModule.value != "" then SplitOn(fromModule.value, ".") else [], level, aliases)
    case _ => []
  }

  /** One import per alias; a dotted name `a.b` becomes the names `("a", "b")`. */
  function AliasImports(modules: seq<string>, level: nat, aliases: seq<Alias>): (r: seq<Import>)
    ensures |r| == |aliases|
  {
    seq(|aliases|, i requires 0 <= i < |aliases| =>
      Import(modules, level, SplitOn(aliases[i].name, "."), [aliases[i].asname]))
  }

  /** `get_classes_from_ast_node`: class names among the direct children. */
  function ClassesOf(cs: seq<Node>): seq<string>
    decreases |cs|
  {
    if cs == [] then []
    else (if cs[0].kind.ClassDef? then [cs[0].kind.name] else []) + ClassesOf(cs[1..])
  }

  /** `get_functions_from_ast_node`: function names among the direct children. */
  function FunctionsOf(cs: seq<Node>): seq<string>
    decreases |cs|
  {
    if cs == [] then []
    else (if cs[0].kind.FunctionDef? then [cs[0].kind.name] else []) + FunctionsOf(cs[1..])
  }

  /** `get_constants_from_ast_node`: assignments among the direct children whose first target is a name. */
  function ConstantsOf(cs: seq<Node>): seq<string>
    decreases |cs|
  {
    if cs == [] then []
    else
      (if cs[0].kind.Assign? && cs[0].kind.firstTarget.Some? then [cs[0].kind.firstTarget.value] else [])
      + ConstantsOf(cs[1..])
  }

  /** `from_python_file_path`, given the parsed tree. */
  function FromAst(path: string, content: string, moduleKey: string, root: Node): FileInfo {
    FileInfo(path, content, moduleKey, ImportsOf(root), ClassesOf(root.children),
             FunctionsOf(root.children), ConstantsOf(root.children))
  }

  // ---------------------------------------------------------------------------
  // Properties
  // ---------------------------------------------------------------------------

  /** A module path made of non-empty segments renders as the empty string only when it has no segment. */
  lemma {:induction false} ModulesStrEmpty(imp: Import)
    requires forall i :: 0 <= i < |imp.modules| ==> imp.modules[i] != ""
    ensures imp.ModulesStr() == "" <==> imp.modules == []
  {
    if |imp.modules| > 1 {
      assert imp.ModulesStr() == imp.modules[0] + "." + Join(imp.modules[1..], ".");
    }
  }

  /** The synthetic wildcard import on a module key renders as `from <key> import *` and has the
      key as its module string, so it finds the key again in the index. */
  lemma WildcardImportOfKey(moduleKey: string)
    requires moduleKey != ""
    requires !Contains(moduleKey, ".__init__")
    ensures WildcardImportOf(moduleKey).ModulesStr() == moduleKey
    ensures WildcardImportOf(moduleKey).IsWildcardImport()
    ensures WildcardImportOf(moduleKey).ImportStr() == "from " + moduleKey + " import *"
  {
    JoinSplit(moduleKey, ".");
    ReplaceAbsent(moduleKey, ".__init__", "");
  }

  /** Every collected import carries exactly one alias entry, `(asname,)`. */
  lemma {:induction false} ImportsHaveOneAlias(n: Node)
    ensures forall i :: 0 <= i < |ImportsOf(n)| ==> |ImportsOf(n)[i].aliases| == 1
    decreases n, 1
  {
    ImportsOfNodesHaveOneAlias(n.children);
  }

  lemma {:induction false} ImportsOfNodesHaveOneAlias(cs: seq<Node>)
    ensures forall i :: 0 <= i < |ImportsOfNodes(cs)| ==> |ImportsOfNodes(cs)[i].aliases| == 1
    decreases cs, 0
  {
    if cs != [] {
      var c := cs[0];
      var nested := if c.kind.ClassDef? || c.kind.FunctionDef? then ImportsOf(c) else [];
      if c.kind.ClassDef? || c.kind.FunctionDef? {
        ImportsHaveOneAlias(c);
      }
      var stmt := StatementImports(c.kind);
      assert forall i :: 0 <= i < |stmt| ==> |stmt[i].aliases| == 1;
      ImportsOfNodesHaveOneAlias(cs[1..]);
      assert ImportsOfNodes(cs) == nested + stmt + ImportsOfNodes(cs[1..]);
    }
  }

  /** `import a.b` gives an import with no module path, level 0 and the names `("a", "b")`. */
  lemma PlainImportOfDottedName()
    ensures ImportsOf(Node(ModuleDef, None, [Node(ImportStmt([Alias("a.b", None)]), Some(1), [])]))
         == [Import([], 0, ["a", "b"], [None])]
  {
    var stmt := Node(ImportStmt([Alias("a.b", None)]), Some(1), []);
    SplitWithoutSeparator("b", ".", 0);
    assert SplitOn(".b", ".") == [""] + SplitOn("b", ".");
    assert SplitOn(".b", ".") == ["", "b"];
    assert !StartsWith("a.b", ".") && "a.b"[1..] == ".b";
    var rest := SplitOn(".b", ".");
    assert SplitOn("a.b", ".") == [["a"[0]] + rest[0]] + rest[1..];
    assert ["a"[0]] + rest[0] == "a" && rest[1..] == ["b"];
    assert SplitOn("a.b", ".") == ["a", "b"];
    assert StatementImports(stmt.kind) == [Import([], 0, ["a", "b"], [None])];
    assert ImportsOfNodes([stmt]) == ImportsOfChild(stmt) + ImportsOfNodes([]);
  }

  /** `from . import x` keeps its level and has an empty module path. */
  lemma RelativeImportWithoutModule(level: nat)
    ensures ImportsOf(Node(ModuleDef, None, [Node(ImportFrom(None, [Alias("x", None)], level), Some(1), [])]))
         == [Import([], level, ["x"], [None])]
  {
    var stmt := Node(ImportFrom(None, [Alias("x", None)], level), Some(1), []);
    SplitWithoutSeparator("x", ".", 0);
    assert ImportsOfNodes([stmt]) == ImportsOfChild(stmt) + ImportsOfNodes([]);
  }

  /** The imports inside a class or function child are part of the parent's imports. */
  lemma {:induction false} NestedImportsCollected(cs: seq<Node>, k: nat, imp: Import)
    requires k < |cs| && (cs[k].kind.ClassDef? || cs[k].kind.FunctionDef?)
    requires imp in ImportsOf(cs[k])
    ensures imp in ImportsOfNodes(cs)
    decreases k
  {
    if k > 0 {
      NestedImportsCollected(cs[1..], k - 1, imp);
    }
  }

  /** The nodes `cs` with the bodies of every statement other than a class or a function
      definition removed. */
  function Pruned(cs: seq<Node>): seq<Node> {
    seq(|cs|, i requires 0 <= i < |cs| =>
      if cs[i].kind.ClassDef? || cs[i].kind.FunctionDef? then cs[i] else cs[i].(children := []))
  }

  /** Imports inside any other statement (an `if` block, say) are not collected: emptying the
      bodies of those statements leaves the collected imports as they were. */
  lemma {:induction false} ImportsUnderOtherNotCollected(cs: seq<Node>)
    ensures ImportsOfNodes(Pruned(cs)) == ImportsOfNodes(cs)
    decreases |cs|
  {
    if cs != [] {
      ImportsUnderOtherNotCollected(cs[1..]);
      assert Pruned(cs)[1..] == Pruned(cs[1..]);
      assert ImportsOfChild(Pruned(cs)[0]) == ImportsOfChild(cs[0]);
    }
  }

  /** `has_name` on a parsed file: the name is a class, function or simple-assignment target
      among the module's direct children. */
  lemma HasNameOfParsed(path: string, content: string, moduleKey: string, root: Node, name: string)
    ensures FromAst(path, content, moduleKey, root).HasName(name) <==>
      exists i :: 0 <= i < |root.children| && DefinesName(root.children[i].kind, name)
  {
    ClassesOfSpec(root.children, name);
    FunctionsOfSpec(root.children, name);
    ConstantsOfSpec(root.children, name);
  }

  /** A statement that defines `name` at the level it stands. */
  predicate DefinesName(k: Kind, name: string) {
    k == ClassDef(name) || k == FunctionDef(name) || k == Assign(Some(name))
  }

  lemma {:induction false} ClassesOfSpec(cs: seq<Node>, name: string)
    ensures name in ClassesOf(cs) <==> exists i :: 0 <= i < |cs| && cs[i].kind == ClassDef(name)
    decreases |cs|
  {
    if cs != [] {
      ClassesOfSpec(cs[1..], name);
      if exists i :: 0 <= i < |cs[1..]| && cs[1..][i].kind == ClassDef(name) {
        var i :| 0 <= i < |cs[1..]| && cs[1..][i].kind == ClassDef(name);
        assert cs[i + 1] == cs[1..][i];
      }
      if exists i :: 0 <= i < |cs| && cs[i].kind == ClassDef(name) {
        var i :| 0 <= i < |cs| && cs[i].kind == ClassDef(name);
        if i > 0 { assert cs[1..][i - 1] == cs[i]; }
      }
    }
  }

  lemma {:induction false} FunctionsOfSpec(cs: seq<Node>, name: string)
    ensures name in FunctionsOf(cs) <==> exists i :: 0 <= i < |cs| && cs[i].kind == FunctionDef(name)
    decreases |cs|
  {
    if cs != [] {
      FunctionsOfSpec(cs[1..], name);
      if exists i :: 0 <= i < |cs[1..]| && cs[1..][i].kind == FunctionDef(name) {
        var i :| 0 <= i < |cs[1..]| && cs[1..][i].kind == FunctionDef(name);
        assert cs[i + 1] == cs[1..][i];
      }
      if exists i :: 0 <= i < |cs| && cs[i].kind == FunctionDef(name) {
        var i :| 0 <= i < |cs| && cs[i].kind == FunctionDef(name);
        if i > 0 { assert cs[1..][i - 1] == cs[i]; }
      }
    }
  }

  lemma {:induction false} ConstantsOfSpec(cs: seq<Node>, name: string)
    ensures name in ConstantsOf(cs) <==> exists i :: 0 <= i < |cs| && cs[i].kind == Assign(Some(name))
    decreases |cs|
  {
    if cs != [] {
      ConstantsOfSpec(cs[1..], name);
      if exists i :: 0 <= i < |cs[1..]| && cs[1..][i].kind == Assign(Some(name)) {
        var i :| 0 <= i < |cs[1..]| && cs[1..][i].kind == Assign(Some(name));
        assert cs[i + 1] == cs[1..][i];
      }
      if exists i :: 0 <= i < |cs| && cs[i].kind == Assign(Some(name)) {
        var i :| 0 <= i < |cs| && cs[i].kind == Assign(Some(name));
        if i > 0 { assert cs[1..][i - 1] == cs[i]; }
      }
    }
  }

  /** `uses_import` finds exactly the rendered statements of the file's imports. */
  lemma UsesImportOwn(f: FileInfo, i: nat)
    requires i < |f.imports|
    ensures f.UsesImport(f.imports[i].ImportStr())
  {
  }

  /** A file named `__init__.py` inside a directory is a package module. */
  lemma IsModuleInit(dir: string)
    ensures FileInfo(dir + "/__init__.py", "", "", [], [], [], []).IsModule()
  {
    var p := dir + "/__init__.py";
    assert p[|dir| + 1..|dir| + 1 + |"__init__.py"|] == "__init__.py";
    ContainsAt(p, "__init__.py", |dir| + 1);
  }
}
