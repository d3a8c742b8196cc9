/**
 * The part of Python's `ast` module the analysis looks at. A node has a
 * kind, an optional line number (`lineno`, absent on nodes such as
 * `arguments`) and its child nodes in `ast.iter_child_nodes` order.
 * Parsing text into this tree (`ast.parse`) is not part of this model:
 * trees are inputs.
 */
module PyAst {
  import opened Wrappers

  /** One `name as asname` entry of an import statement. */
  datatype Alias = Alias(name: string, asname: Option<string>)

  datatype Kind =
    | ModuleDef
    | ClassDef(name: string)
    | FunctionDef(name: string)
      /** `import a.b as c, d` */
    | ImportStmt(aliases: seq<Alias>)
      /** `from <module> import ...`; `fromModule` is absent for `from . import x` */
    | ImportFrom(fromModule: Option<string>, aliases: seq<Alias>, level: nat)
      /** an assignment; `firstTarget` is `Some(id)` when `targets[0]` is a plain `Name` */
    | Assign(firstTarget: Option<string>)
    | Other

  datatype Node = Node(kind: Kind, line: Option<nat>, children: seq<Node>)
}
