# Import analysis and small build plugins, modelled in Dafny

This project models the logic core of a set of Pants build-system plugins
written in Python. Their main job is to analyse the imports of a Python
package.

- **Data model and module keys** (`PyAst`, `PythonFileInfo`, `PythonUtils`, `WildcardUtils`, `WildcardFileInfo`).
  - A parsed source file is reduced to its imports, classes, functions and constants.
  - A file path is turned into the dotted module key that other files import it by.
  - The regular-expression searches the plugins run over source text are written out as predicates over character positions: symbol usage, `from x import *`, and top-level import statements.
- **Package index** (`PackageIndex`, `ConnectPackageHelper`, `WildcardPackageHelper`).
  - The files are indexed by module key.
  - Relative imports are unwound into absolute ones.
  - A reverse index lists, for each import, the files that carry it.
  - The two helper variants differ in the key of that reverse index.
- **Wildcard resolver** (`ImportFixerHandler`, `WildcardImportsRules`, `RulesParamTypes`).
  - A `from m import *` is followed through the package with an explicit worklist and a visited list.
  - What is collected becomes explicit imports.
  - Duplicate imports of one name are narrowed to the imports that define it directly.
  - A missing name is looked up in the index.
- **Textual patcher** (`FileImportRecs`): applies the recommendations to the file's text one after another, by substitution and insertion.
- **Import statistics and indirect imports** (`CrossImports`, `IndirectImports`).
  - Per-file counts of first-party imports, and the dictionary they are reported as.
  - Names imported from a module that does not define them, with where they can be imported from instead.
- **BUILD-file rewriter** (`BuildFileDefaults`): a token-driven parser of BUILD files, its serialiser, and the merge of per-target-type default fields with its change messages.
- **Diff hunk parser** (`GitRules`, `ChangerRules`): reads `git diff` output into the modified line numbers and the added code of a file, in two versions of the rule.
- **Line-to-function map** (`ChangerUtils`): a stack-based walk of a syntax tree that maps each line number to its enclosing function, and the list of functions reached through classes.
- **Needle filter** (`FindNeedle`): keeps the targets that own a file with a given base name.

Supporting modules:

- `Wrappers`: Option and Result.
- `Strings`: Python's `split`, `join`, `replace`, `strip`, `count`, `int()` and `str()` on strings, and order-keeping de-duplication and difference.
- `OrderedMaps`: insertion-ordered dictionaries, where overwriting a key keeps its position.

Where the source changes state step by step (loops that append, counters,
worklists, token loops), the model is a method with loop invariants. Each
such method is proved equal to a specification function, and the
properties the source promises are proved as lemmas about that function.

## Model

| member | source | states |
|---|---|---|
| PythonFileInfo.Import.ImportStr | pants-plugins/import_fixer/python_connect/python_file_info.py:21-26 | the statement text is a `from` statement exactly when the import has a module path, an `import` statement otherwise; the same code also appears at pants-plugins/wildcard_imports/python_file_info.py:24-29 |
| PythonFileInfo.ModulesStrEmpty | pants-plugins/import_fixer/python_connect/python_file_info.py:23-30 | the dotted module path is empty exactly when the import has no module segment |
| PythonFileInfo.AliasImports | pants-plugins/import_fixer/python_connect/python_file_info.py:126-127 | an import statement yields one `PythonImport` per imported name, in order |
| PythonFileInfo.ImportsHaveOneAlias | pants-plugins/import_fixer/python_connect/python_file_info.py:105-127 | every collected import carries exactly one alias |
| PythonFileInfo.PlainImportOfDottedName | pants-plugins/import_fixer/python_connect/python_file_info.py:118-127 | `import a.b` gives no module path, level 0, the names `a`, `b` and no alias |
| PythonFileInfo.RelativeImportWithoutModule | pants-plugins/import_fixer/python_connect/python_file_info.py:121-127 | `from . import x` keeps its level and has no module path |
| PythonFileInfo.NestedImportsCollected | pants-plugins/import_fixer/python_connect/python_file_info.py:108-115 | imports inside a class or function body are collected with the module's own |
| PythonFileInfo.ImportsUnderOtherNotCollected | pants-plugins/import_fixer/python_connect/python_file_info.py:105-125 | emptying the bodies of every statement other than a class or function definition leaves the collected imports unchanged, so an import nested in any other statement is never collected |
| PythonFileInfo.ClassesOfSpec | pants-plugins/import_fixer/python_connect/python_file_info.py:85-88 | a name is a class of the file exactly when a direct child of the module is a class of that name; the same code also appears at pants-plugins/wildcard_imports/python_file_info.py:84-88 |
| PythonFileInfo.FunctionsOfSpec | pants-plugins/import_fixer/python_connect/python_file_info.py:91-94 | a name is a function of the file exactly when a direct child of the module is a function of that name; the same code also appears at pants-plugins/wildcard_imports/python_file_info.py:90-94 |
| PythonFileInfo.ConstantsOfSpec | pants-plugins/import_fixer/python_connect/python_file_info.py:97-102 | a name is a constant exactly when a direct child assignment has that plain name as its first target; the same code also appears at pants-plugins/wildcard_imports/python_file_info.py:96-101 |
| PythonFileInfo.HasNameOfParsed | pants-plugins/import_fixer/python_connect/python_file_info.py:72-82 | `has_name` on a parsed file holds exactly when a direct child of the module defines the name as a class, function or constant (with lines 130-140 of the same file); the same code also appears at pants-plugins/wildcard_imports/python_file_info.py:129-140 |
| PythonFileInfo.UsesImportOwn | pants-plugins/import_fixer/python_connect/python_file_info.py:66-70 | by definition: a file uses the text of each of its own imports; the same code also appears at pants-plugins/wildcard_imports/python_file_info.py:65-69 |
| PythonFileInfo.IsModuleInit | pants-plugins/import_fixer/python_connect/python_file_info.py:62-64 | a file at `<dir>/__init__.py` is a package module |
| PythonFileInfo.WildcardImportOfKey | pants-plugins/import_fixer/python_connect/python_file_info.py:13-30 | the synthetic `from <key> import *` built from a module key has that key as its module path, is a wildcard import and reads `from <key> import *` |
| PythonUtils.ModuleKey | pants-plugins/import_fixer/python_connect/python_utils.py:41-45 | a module key never contains `/` |
| PythonUtils.DottedPathOfSegments | pants-plugins/import_fixer/python_connect/python_utils.py:45 | before `.__init__` is deleted, the key of `a/b/c.py` is the text before the first `.py` with `/` turned into `.`: `a.b.c` |
| PythonUtils.ModuleKeyOfSegments | pants-plugins/import_fixer/python_connect/python_utils.py:41-45 | with the top-level package, the key of `a/b/c.py` is `a.b.c` for any plain segment names |
| PythonUtils.PackageInitKey | pants-plugins/import_fixer/python_connect/python_utils.py:45 | a package's `a/b/__init__.py` gets the package's own key `a.b` |
| PythonUtils.PlainSegmentsKept | pants-plugins/import_fixer/python_connect/python_utils.py:45 | deleting `.__init__` leaves a dotted key of plain segments unchanged |
| PythonUtils.InitSegmentDropped | pants-plugins/import_fixer/python_connect/python_utils.py:45 | deleting `.__init__` removes a trailing `__init__` segment and nothing else |
| PythonUtils.RelativePathDropsTop | pants-plugins/import_fixer/python_connect/python_utils.py:42-44 | without the top-level package, `top/rest` is cut to `rest` (the text after the last `top/`) |
| PythonUtils.DocExamples | pants-plugins/import_fixer/python_connect/python_utils.py:16-32 | the documented examples: `app/module_2/a.py` gives `app.module_2.a` with the flag and `module_2.a` without |
| PythonUtils.ModuleKeyNoDirectory | pants-plugins/import_fixer/python_connect/python_utils.py:41-45 | a path with no directory part gets the same key with or without the top-level package |
| PythonUtils.UsageDetected | pants-plugins/import_fixer/python_connect/python_utils.py:48-50 | an occurrence of a plain symbol after a non-word, non-dot character (or the start) and before one of `. \| ( ) :` or `,` is a usage |
| PythonUtils.UsageContainsSymbol | pants-plugins/import_fixer/python_connect/python_utils.py:48-50 | every usage the pattern finds contains the symbol itself |
| PythonUtils.RepeatedLastCharacter | pants-plugins/import_fixer/python_connect/python_utils.py:50 | example: the `+` pasted after the symbol repeats its last character: `ab` is used in `abbb(` |
| PythonUtils.MetaSymbolNeverUsed | pants-plugins/import_fixer/python_connect/python_utils.py:49-52 | `*` makes the pattern invalid, the error is caught and the answer is false for every content |
| PythonUtils.WildcardAtSpec | pants-plugins/import_fixer/python_connect/python_utils.py:55-56 | the greedy scan of the bytes pattern `from[ ]+(\S+)[ ]+import[ ]+[*]` at a position succeeds exactly when the pattern matches there with backtracking, `\S` excluding only the six ASCII white-space characters (with line 8 of the same file) |
| PythonUtils.FromStatementClause | pants-plugins/import_fixer/python_connect/python_utils.py:8 | in `from <m> import <rest>` with single spaces the from-clause ends where `<rest>` starts, for the bytes pattern whenever `m` holds no ASCII white space and for the str pattern whenever it holds no Unicode white space |
| PythonUtils.WildcardStatementDetected | pants-plugins/import_fixer/python_connect/python_utils.py:55-56 | `from <module> import *` is reported as a wildcard import whenever the module holds none of the six ASCII white-space characters; the same code also appears at pants-plugins/wildcard_imports/utils.py:49-50 |
| PythonUtils.NoBreakSpaceInModule | pants-plugins/import_fixer/python_connect/python_utils.py:55-56 | example: a no-break space inside the module does not end the `\S+` token of the bytes pattern, so `from a\u00A0b import *` is detected |
| PythonUtils.LineEnd | pants-plugins/import_fixer/python_connect/python_utils.py:9 | `.*` stops at the first newline at or after its start, or at the end of the text |
| PythonUtils.CloseParen | pants-plugins/import_fixer/python_connect/python_utils.py:9 | `[^)]*[)]` ends at the first `)` after its start, and fails when there is none |
| PythonUtils.TopLevelImportEnd | pants-plugins/import_fixer/python_connect/python_utils.py:75-76 | the anchored pattern without multiline mode matches at most once, at offset 0, and only in text that starts with `from` or `import` (with line 9 of the same file) |
| PythonUtils.ImportLineMatch | pants-plugins/import_fixer/python_connect/python_utils.py:75-76 | an `import` statement on the first line matches up to the end of that line (with line 9 of the same file) |
| PythonUtils.ParenthesisedFromMatch | pants-plugins/import_fixer/python_connect/python_utils.py:75-76 | a parenthesised multi-line `from` import matches up to its closing parenthesis (with line 9 of the same file) |
| PythonUtils.NoMatchWithoutKeyword | pants-plugins/import_fixer/python_connect/python_utils.py:75-76 | by definition: text that starts with neither `from` nor `import` yields no match (with line 9 of the same file) |
| PackageIndex.Parsed | pants-plugins/import_fixer/python_connect/python_package_helper.py:63-70 | every file is parsed in order, with the module key generated from its own path |
| PackageIndex.Index | pants-plugins/import_fixer/python_connect/python_package_helper.py:62-71 | the module dictionary is a well-formed insertion-ordered dictionary |
| PackageIndex.BuildIndex | pants-plugins/import_fixer/python_connect/python_package_helper.py:62-71 | the loop over the files builds the index of the parsed files |
| PackageIndex.IndexKeys | pants-plugins/import_fixer/python_connect/python_package_helper.py:71 | a key is in the module dictionary exactly when some file has that module key |
| PackageIndex.IndexRecordKeys | pants-plugins/import_fixer/python_connect/python_package_helper.py:71 | the record stored under a key has that module key |
| PackageIndex.IndexLaterWins | pants-plugins/import_fixer/python_connect/python_package_helper.py:71 | for files with the same key the last one stays in the dictionary |
| PackageIndex.UnwindImport | pants-plugins/import_fixer/python_connect/python_package_helper.py:36-43 | an unwound import is absolute, keeps its names and aliases, and an absolute import is left as it is |
| PackageIndex.KeyPrefixOfSegments | pants-plugins/import_fixer/python_connect/python_package_helper.py:39 | `module_key.split(".")[:-level]` drops the last `level` segments, all of them when `level` reaches their number |
| PackageIndex.UnwindAgainstSegments | pants-plugins/import_fixer/python_connect/python_package_helper.py:39 | a relative import's module path becomes the importing key's segments without the last `level`, followed by its own modules |
| PackageIndex.UnwindFileSpec | pants-plugins/import_fixer/python_connect/python_package_helper.py:33-52 | unwinding a file changes only its imports, one for one, each absolute, names and aliases kept, absolute ones untouched |
| PackageIndex.UnwindEntry | pants-plugins/import_fixer/python_connect/python_package_helper.py:33-52 | the inner loop replaces the record of one key by its unwound record and keeps every other entry and the key order |
| PackageIndex.UnwindAll | pants-plugins/import_fixer/python_connect/python_package_helper.py:31-53 | unwinding keeps the dictionary's keys and their order |
| PackageIndex.UnwindAllSpec | pants-plugins/import_fixer/python_connect/python_package_helper.py:31-53 | after unwinding every record differs from the original only in its imports, which are all absolute |
| PackageIndex.UnwindRelativeImports | pants-plugins/import_fixer/python_connect/python_package_helper.py:31-53 | the in-place loop over all keys computes the unwinding of the whole dictionary |
| PackageIndex.BuildReverseIndex | pants-plugins/import_fixer/python_connect/python_package_helper.py:75-80 | the loop over the files and their imports builds the grouping of (import key, file) pairs |
| PackageIndex.FileIntoReverseIndex | pants-plugins/import_fixer/python_connect/python_package_helper.py:77-80 | appending one file's imports extends the grouping by that file's pairs |
| PackageIndex.ValuesForEntries | pants-plugins/import_fixer/python_connect/python_package_helper.py:75-80 | the files grouped under a key are the files carrying an import with that key, once per such import, in order |
| PackageIndex.OccurrencesSpec | pants-plugins/import_fixer/python_connect/python_package_helper.py:75-80 | the list under a key is non-empty exactly when some file has an import with that key |
| PackageIndex.OccurrencesMember | pants-plugins/import_fixer/python_connect/python_package_helper.py:75-80 | a file is listed under a key exactly when it is an indexed file with an import of that key |
| PackageIndex.ReverseBucket | pants-plugins/import_fixer/python_connect/python_package_helper.py:75-80 | the reverse dictionary has a key exactly when some import has it, and holds the files in order under it |
| PackageIndex.ImportKeysSpec | pants-plugins/wildcard_imports/import_fixer/python_package_helper.py:141-145 | an import contributes a key exactly when the keying gives it one (always for `modules_str`, only wildcard imports for `import_str`) |
| PackageIndex.FileInfoFromPath | pants-plugins/import_fixer/python_connect/python_package_helper.py:18-22 | the lookup by path succeeds exactly when the path's module key is indexed, and fails with a `KeyError` otherwise |
| PackageIndex.LookupByPath | pants-plugins/import_fixer/python_connect/python_package_helper.py:18-22 | for a helper built from some files, a path is found exactly when some file has the same module key, and the record found has that key |
| PackageIndex.LookupLastFile | pants-plugins/import_fixer/python_connect/python_package_helper.py:18-22 | looking up a file's own path gives its parsed, unwound record when no later file shares its key |
| ConnectPackageHelper.ForPythonFiles | pants-plugins/import_fixer/python_connect/python_package_helper.py:56-86 | the helper built from the files indexes them by module key, unwinds their relative imports and groups them by the `modules_str` of every import; the flag and the ignore lists are passed through |
| ConnectPackageHelper.TransitiveFilesSpec | pants-plugins/import_fixer/python_connect/python_package_helper.py:24-25 | the files listed for a source are the indexed files that import the source's module key, in index order, once per such import; none when no file imports it |
| ConnectPackageHelper.ImportedModuleFiled | pants-plugins/import_fixer/python_connect/python_package_helper.py:75-80 | every import of every indexed file has a bucket in the reverse dictionary, and that bucket lists the file |
| ConnectPackageHelper.IsPackageImportSpec | pants-plugins/import_fixer/python_connect/python_package_helper.py:27-28 | an import is a package import exactly when some file of the package has its `modules_str` as module key |
| WildcardPackageHelper.ForPythonFiles | pants-plugins/wildcard_imports/import_fixer/python_package_helper.py:120-151 | the helper built from the files indexes them by module key, unwinds their relative imports and groups them by the `import_str` of their wildcard imports only |
| WildcardPackageHelper.TransitiveByWildcardImportSpec | pants-plugins/wildcard_imports/import_fixer/python_package_helper.py:28-31 | the files listed for a source are the indexed files with a wildcard import whose text is `from <source key> import *`, in index order |
| WildcardPackageHelper.OnlyWildcardBuckets | pants-plugins/wildcard_imports/import_fixer/python_package_helper.py:139-145 | every key of the reverse dictionary is the text of some file's wildcard import |
| WildcardPackageHelper.WildcardImporterFound | pants-plugins/wildcard_imports/import_fixer/python_package_helper.py:139-145 | a file holding `from <source key> import *` is among the source's transitive files (with lines 28-31 of the same file) |
| WildcardPackageHelper.NamesUsed | pants-plugins/wildcard_imports/import_fixer/python_package_helper.py:33-55 | a name is returned exactly when it is a class or function of the transitive file, or a constant the source does not define itself, the source uses it, and it is not ignored for the transitive module; with an ignore list the names are distinct |
| WildcardPackageHelper.NamesUsedInOrder | pants-plugins/wildcard_imports/import_fixer/python_package_helper.py:36-50 | without an ignore list the names come as used classes, then functions, then constants, each in declaration order |
| WildcardPackageHelper.DefinedNamesFromImport | pants-plugins/wildcard_imports/import_fixer/python_package_helper.py:85-92 | the defined names are the imported names the file defines |
| WildcardPackageHelper.DefinedNamesInOrder | pants-plugins/wildcard_imports/import_fixer/python_package_helper.py:88-92 | the defined names keep the order of the import's names |
| WildcardPackageHelper.ImportUsed | pants-plugins/wildcard_imports/import_fixer/python_package_helper.py:61-82 | an import is kept exactly when some name survives, narrowed to the names the source uses (those the indexed module defines, not ignored), with its module path and level and no aliases |
| WildcardPackageHelper.ImportsUsedSpec | pants-plugins/wildcard_imports/import_fixer/python_package_helper.py:57-83 | the imports used are exactly the narrowed imports of the transitive file that kept a name |
| FileImportRecs.SubLiteral | pants-plugins/wildcard_imports/import_fixer/python_file_import_recs.py:27-33 | for a source import text without a dot the substitution replaces every occurrence literally, left to right |
| FileImportRecs.SubNoMatch | pants-plugins/wildcard_imports/import_fixer/python_file_import_recs.py:29-33 | where the pattern matches nowhere the substitution leaves the text unchanged |
| FileImportRecs.DotIsLive | pants-plugins/wildcard_imports/import_fixer/python_file_import_recs.py:27 | a dot of the import text stays a regular-expression wildcard: `a.b` also matches `a<c>b` for any character `<c>` other than a newline |
| FileImportRecs.ImportStrs | pants-plugins/wildcard_imports/import_fixer/python_file_import_recs.py:32-38 | the statement text of each recommended import, in order |
| FileImportRecs.InsertionPoint | pants-plugins/wildcard_imports/import_fixer/python_file_import_recs.py:36-37 | new imports go to the end of the top-level import match, or to the start of the text, never past its end |
| FileImportRecs.FixedFileContent | pants-plugins/wildcard_imports/import_fixer/python_file_import_recs.py:21-40 | the loop applies the recommendations in order, each to the text the previous ones produced, and keeps the file's path; the same code also appears at pants-plugins/wildcard_imports/import_fixer/import_fixer_handler.py:20-39 |
| FileImportRecs.ApplyOne | pants-plugins/wildcard_imports/import_fixer/python_file_import_recs.py:24-39 | one round of the loop: delete the source import's line, replace the source import by the recommended imports, or insert them |
| FileImportRecs.ApplyAllConcat | pants-plugins/wildcard_imports/import_fixer/python_file_import_recs.py:24 | applying two lists of recommendations one after the other is applying their concatenation |
| FileImportRecs.EmptyRecommendationKeepsContent | pants-plugins/wildcard_imports/import_fixer/python_file_import_recs.py:26-35 | a recommendation with no source import and nothing recommended changes nothing |
| FileImportRecs.InsertionKeepsContent | pants-plugins/wildcard_imports/import_fixer/python_file_import_recs.py:35-39 | an insertion puts the newline-framed block at the insertion point and leaves the old text around it, at the start of the text when there is no top-level import |
| FileImportRecs.DeletionWithoutMatch | pants-plugins/wildcard_imports/import_fixer/python_file_import_recs.py:28-29 | deleting a source import whose line does not occur leaves the text unchanged |
| FileImportRecs.ReplacementsCollapse | pants-plugins/wildcard_imports/import_fixer/python_file_import_recs.py:32-33 | the replacement lines are the distinct statement texts of the recommendations, each once |
| FindNeedle.FindNeedleInHaystack | pants-plugins/find_needle/rules.py:28-34 | the nested loop with its `break` computes the targets that own a file named like the needle, in order |
| FindNeedle.WithNeedleMember | pants-plugins/find_needle/rules.py:29-32 | a target is selected exactly when one of its files has the needle as its base name |
| FindNeedle.WithNeedleOrdered | pants-plugins/find_needle/rules.py:29-34 | the selection keeps the targets' order and adds each target at most once |
| FindNeedle.OnlyTheNeedleTarget | pants-plugins/find_needle/test_rules.py:20-29 | of three targets, only the one holding the needle file is returned |
| FindNeedle.BaseNameOfPath | pants-plugins/find_needle/rules.py:31 | `PurePath(fp).name` of a normalised file path is the text after the last `/` |
| ImportFixerHandler.TransitiveRecs | pants-plugins/wildcard_imports/import_fixer/import_fixer_handler.py:108-129 | the recommendations from one transitive file are at most one import of its own names plus one per import it holds |
| ImportFixerHandler.TransitiveRecsSpec | pants-plugins/wildcard_imports/import_fixer/import_fixer_handler.py:108-129 | each recommendation has names and no aliases, and is either the transitive module's own import of exactly the names the source may take from it, or one of its imports narrowed to the names the source uses |
| ImportFixerHandler.SubmoduleRecs | pants-plugins/wildcard_imports/import_fixer/import_fixer_handler.py:131-143 | at most one submodule recommendation per index key |
| ImportFixerHandler.SubmoduleRecsSpec | pants-plugins/wildcard_imports/import_fixer/import_fixer_handler.py:131-143 | a submodule recommendation `from <module> import <segment>` is made exactly for the index keys that contain the module path and whose last segment the source uses |
| ImportFixerHandler.SubmoduleImports | pants-plugins/wildcard_imports/import_fixer/import_fixer_handler.py:145-152 | at most one pushed import per index key |
| ImportFixerHandler.SubmoduleImportsSpec | pants-plugins/wildcard_imports/import_fixer/import_fixer_handler.py:145-152 | the pushed imports are exactly `from <key> import *` for every index key that contains the module path |
| ImportFixerHandler.WildcardsMember | pants-plugins/wildcard_imports/import_fixer/import_fixer_handler.py:103-105 | the imports pushed after an indexed file are exactly its wildcard imports |
| ImportFixerHandler.VisitRound | pants-plugins/wildcard_imports/import_fixer/import_fixer_handler.py:74-105 | one round on an unvisited module path adds that module's recommendations (followed by the submodule ones when the file is a package `__init__.py` or missing) and pushes its wildcard imports or its submodules |
| ImportFixerHandler.WildcardImportRecommendation | pants-plugins/wildcard_imports/import_fixer/import_fixer_handler.py:65-106 | the worklist starts at the given import, visits each module path at most once, visits only imports pushed by an earlier visit, leaves no pushed module path unvisited, and returns the visited rounds' recommendations in visiting order |
| ImportFixerHandler.TransitiveFileRecommendations | pants-plugins/wildcard_imports/import_fixer/import_fixer_handler.py:47-63 | a transitive file gets a single recommendation replacing `from <key> import *` by what a complete traversal from that import collects for it |
| ImportFixerHandler.DirectDefinitions | pants-plugins/wildcard_imports/import_fixer/import_fixer_handler.py:157-166 | the loop keeps, in order, the duplicate imports that define the name directly |
| ImportFixerHandler.DirectsMember | pants-plugins/wildcard_imports/import_fixer/import_fixer_handler.py:158-166 | a duplicate import is direct when `<module>.<name>` is indexed, when its module is not indexed, or when its module defines the name |
| ImportFixerHandler.NonDirectSpec | pants-plugins/wildcard_imports/import_fixer/import_fixer_handler.py:167 | the non-direct imports are distinct and are exactly the duplicates that are not direct |
| ImportFixerHandler.DuplicateFix | pants-plugins/wildcard_imports/import_fixer/import_fixer_handler.py:169-185 | the fix for a non-direct import names that import as its source and recommends at most one import |
| ImportFixerHandler.DuplicateFixSpec | pants-plugins/wildcard_imports/import_fixer/import_fixer_handler.py:170-184 | the recommended import keeps the module path, level and aliases and carries the other names, each once; nothing is recommended when the duplicated name was the only one |
| ImportFixerHandler.DuplicateImportRecommendations | pants-plugins/wildcard_imports/import_fixer/import_fixer_handler.py:154-186 | one fix per non-direct duplicate import, none twice, and exactly for the duplicates that do not define the name directly |
| ImportFixerHandler.MissingImportRecommendation | pants-plugins/wildcard_imports/import_fixer/import_fixer_handler.py:188-203 | an installed package is imported by name; otherwise the first indexed module, in index order, that defines the name is imported from, and nothing is recommended when none does |
| WildcardImportsRules.FileImportRecommendations | pants-plugins/wildcard_imports/wildcard_imports_rules.py:79-114 | one recommendation per wildcard import of the file, in import order, each naming its wildcard import as source and replacing it by what a traversal from it collects; the same code also appears at pants-plugins/wildcard_imports/wildcard_import_rules.py:72-107 |
| WildcardImportsRules.WildcardRecommendation | pants-plugins/wildcard_imports/wildcard_imports_rules.py:104-114 | the recommendation names the wildcard import as its source and carries what a traversal from it collects |
| WildcardImportsRules.AnswersSnoc | pants-plugins/wildcard_imports/wildcard_imports_rules.py:84-97 | answering one more wildcard import keeps the answers one for one and in order |
| WildcardImportsRules.WildcardsSnoc | pants-plugins/wildcard_imports/wildcard_imports_rules.py:84-85 | the wildcard imports of a longer prefix gain the next import exactly when it is a wildcard import |
| WildcardImportsRules.SomeNames | pants-plugins/wildcard_imports/wildcard_imports_rules.py:135 | every imported name is listed, in order |
| WildcardImportsRules.ImportsByName | pants-plugins/wildcard_imports/wildcard_imports_rules.py:133-136 | the name-to-imports table groups every import under each name it imports, in first-seen order |
| WildcardImportsRules.CarriersByName | pants-plugins/wildcard_imports/wildcard_imports_rules.py:133-136 | the imports grouped under a name are the file's imports that carry it, in order |
| WildcardImportsRules.CarriersSpec | pants-plugins/wildcard_imports/wildcard_imports_rules.py:135-136 | an import is grouped under a name exactly when it is one of the file's imports and imports that name |
| WildcardImportsRules.DuplicateNames | pants-plugins/wildcard_imports/wildcard_imports_rules.py:139-142 | the duplicated names are the table's keys, in order, whose group has more than one import |
| WildcardImportsRules.MultiKeysMember | pants-plugins/wildcard_imports/wildcard_imports_rules.py:140-142 | a name is duplicated exactly when it is a key whose group holds more than one import |
| WildcardImportsRules.DuplicatedName | pants-plugins/wildcard_imports/wildcard_imports_rules.py:139-142 | a name is selected as duplicated exactly when more than one import entry carries it, and its group is then the imports carrying it |
| WildcardImportsRules.DuplicateOfTwoImports | pants-plugins/wildcard_imports/wildcard_imports_rules.py:141 | example: two imports of the same name make it a duplicate, one does not |
| WildcardImportsRules.MergeStep | pants-plugins/wildcard_imports/wildcard_imports_rules.py:168-179 | the fixes for one duplicated name are exactly the fixes of its non-direct imports |
| WildcardImportsRules.MergeDuplicates | pants-plugins/wildcard_imports/wildcard_imports_rules.py:160-162 | the merged recommendations hold no repeats and are exactly the fixes for some duplicated name |
| WildcardImportsRules.FileDuplicateImportRecommendations | pants-plugins/wildcard_imports/wildcard_imports_rules.py:129-165 | the file's duplicate recommendations hold no repeats and are exactly the fixes of the non-direct imports of every name the file imports more than once; the same code also appears at pants-plugins/wildcard_imports/wildcard_import_rules.py:122-172 |
| WildcardImportsRules.FileMissingImportRecommendations | pants-plugins/wildcard_imports/wildcard_imports_rules.py:182-213 | one recommendation per missing name, in order: installed names are imported bare, others from the first indexed module that defines them, or not at all |
| WildcardUtils.ModuleKey | pants-plugins/wildcard_imports/utils.py:6-39 | a module key never contains `/`; the same code also appears at pants-plugins/wildcard_imports/import_fixer_utils.py:1-34 |
| WildcardUtils.ModuleKeyOfSegments | pants-plugins/wildcard_imports/utils.py:35-39 | the key of `a/b/c.py` is `a.b.c` |
| WildcardUtils.InitSegmentKept | pants-plugins/wildcard_imports/utils.py:39 | this copy keeps the `__init__` segment of a package file, where the `python_connect` copy drops it |
| WildcardUtils.DocExamples | pants-plugins/wildcard_imports/utils.py:10-26 | the documented examples: with the top-level package `app/module_2/a.py` gives `app.module_2.a`, without it `module_2.a` |
| WildcardUtils.FollowersDiffer | pants-plugins/wildcard_imports/utils.py:42-46 | example: this copy's usage pattern accepts a space after a name and rejects a `:`, the opposite of the `python_connect` copy |
| WildcardUtils.OnlyOneUsagePlace | pants-plugins/wildcard_imports/utils.py:44 | example: in a three-character text the name can only be used at its one place, so the follower character decides |
| WildcardFileInfo.FromAst | pants-plugins/wildcard_imports/python_file_info.py:104-140 | building the record fails exactly when a `from . import x` statement sits where the walker descends, and otherwise yields the `python_connect` record |
| WildcardFileInfo.NodesFailSpec | pants-plugins/wildcard_imports/python_file_info.py:104-127 | the walk over a statement list fails exactly on the moduleless `from` statements it reaches, and otherwise collects the same imports |
| WildcardFileInfo.ChildFailSpec | pants-plugins/wildcard_imports/python_file_info.py:107-127 | a single statement fails exactly when it is, or its class or function body holds, a moduleless `from` statement |
| WildcardFileInfo.RelativeImportWithoutModuleFails | pants-plugins/wildcard_imports/python_file_info.py:121-122 | `from . import x` at module level makes the record fail at any level |
| RulesParamTypes.FirstWithModule | pants-plugins/wildcard_imports/rules_param_types.py:44-46 | the index found is the first import whose module path renders as the key, and none is found when no import matches |
| RulesParamTypes.PyImport | pants-plugins/wildcard_imports/rules_param_types.py:42-47 | `py_import` succeeds exactly when the transitive file imports the file's module, and returns the first such import; otherwise it raises |
| CrossImports.CountsSpec | pants-plugins/import_fixer/cross_imports_rules.py:40-43 | the counter holds exactly the counted keys, each with its number of occurrences |
| CrossImports.CountsTotal | pants-plugins/import_fixer/cross_imports_rules.py:40-43 | the counts add up to the number of counted entries |
| CrossImports.SumUpdate | pants-plugins/import_fixer/cross_imports_rules.py:43 | raising one key's count changes the total by the difference |
| CrossImports.SumFrame | pants-plugins/import_fixer/cross_imports_rules.py:43 | a key outside the summed keys does not change the total |
| CrossImports.FileCrossImportStats | pants-plugins/import_fixer/cross_imports_rules.py:36-47 | the loop over the file's imports builds the file's statistics |
| CrossImports.StatsSpec | pants-plugins/import_fixer/cross_imports_rules.py:40-47 | a module path is counted exactly when it is indexed and imported by the file, with the number of the file's imports of it, and the counts add up to the file's first-party imports |
| CrossImports.PackageModuleStrsSpec | pants-plugins/import_fixer/cross_imports_rules.py:41-43 | the counted module paths are exactly the indexed ones the file imports, each as often as it is imported |
| CrossImports.PackageModuleStrsLength | pants-plugins/import_fixer/cross_imports_rules.py:41-43 | one counted entry per first-party import |
| CrossImports.ThirdPartyNotCounted | pants-plugins/import_fixer/cross_imports_rules.py:42 | a module path outside the index is never counted |
| CrossImports.PackageCrossImportStats | pants-plugins/import_fixer/cross_imports_rules.py:14-33 | the package statistics are the non-empty statistics of the indexed files, in index order |
| CrossImports.NonEmptyStatsSpec | pants-plugins/import_fixer/cross_imports_rules.py:29-30 | a statistic is kept exactly when it belongs to an indexed file and counts at least one first-party import, and the kept ones stay in index order |
| CrossImports.ModulesOfStats | pants-plugins/import_fixer/cross_imports_rules.py:30 | the files of the kept statistics, one for one |
| CrossImports.NotEmptyIffImports | pants-plugins/import_fixer/cross_imports_rules.py:30 | a file's statistics are non-empty exactly when it has a first-party import |
| CrossImports.KeysOfStats | pants-plugins/import_fixer/cross_imports_rules_param_types.py:28-29 | the module keys of the statistics, one for one |
| CrossImports.ToDict | pants-plugins/import_fixer/cross_imports_rules_param_types.py:25-30 | the loop builds the module-key dictionary of the statistics |
| CrossImports.DictOfKeys | pants-plugins/import_fixer/cross_imports_rules_param_types.py:27-30 | the dictionary's keys are the statistics' module keys without repeats, in first-seen order |
| CrossImports.DictOfDomain | pants-plugins/import_fixer/cross_imports_rules_param_types.py:29-30 | a module key is in the dictionary exactly when some statistic has it |
| CrossImports.DictOfLastWins | pants-plugins/import_fixer/cross_imports_rules_param_types.py:29-30 | when two statistics share a module key, the later one's counts are kept |
| CrossImports.ToDictEmpty | pants-plugins/import_fixer/cross_imports_rules_param_types.py:27-31 | by definition: no statistics give an empty dictionary |
| IndirectImports.ImportsForName | pants-plugins/import_fixer/indirect_imports_rules.py:79-125 | the loop builds the imports recommended for a name |
| IndirectImports.FirstPartyForSpec | pants-plugins/import_fixer/indirect_imports_rules.py:92-102 | the first-party candidates are exactly `from <key> import <name>` for the indexed keys whose file defines the name |
| IndirectImports.FirstPartySpec | pants-plugins/import_fixer/indirect_imports_rules.py:91-102 | each first-party candidate imports only the name, without alias, at level 0, from an indexed module that defines it, and every such module gives one |
| IndirectImports.ThirdPartyFromFile | pants-plugins/import_fixer/indirect_imports_rules.py:110-124 | the loop over one file's imports gathers its third-party candidates for the name |
| IndirectImports.ThirdPartyOfImportsSpec | pants-plugins/import_fixer/indirect_imports_rules.py:110-124 | a third-party candidate comes from an import whose module path is not in the reverse index and that imports the name, keeping its module path and level |
| IndirectImports.ThirdPartyOfIndexed | pants-plugins/import_fixer/indirect_imports_rules.py:109-115 | when every import's module path is in the reverse index, there is no third-party candidate |
| IndirectImports.ThirdTierEmpty | pants-plugins/import_fixer/indirect_imports_rules.py:108-125 | with the reverse index the package helper builds, the third-party search finds nothing |
| IndirectImports.NameImportsSpec | pants-plugins/import_fixer/indirect_imports_rules.py:84-125 | an installed name is imported bare; otherwise every candidate imports the name from an indexed module that defines it, and there are none exactly when no indexed module defines it |
| IndirectImports.ImportChecks | pants-plugins/import_fixer/indirect_imports_rules.py:26-27 | an import of a module outside the index is not checked |
| IndirectImports.IsNameDefined | pants-plugins/import_fixer/indirect_imports_rules.py:67-76 | the check keeps its file, import and name, and says defined exactly when the file has a class, function or constant of that name |
| IndirectImports.GatherChecks | pants-plugins/import_fixer/indirect_imports_rules.py:24-39 | the loop builds one check per name of each indexed import |
| IndirectImports.CheckNames | pants-plugins/import_fixer/indirect_imports_rules.py:28-38 | the inner loop builds, in order, one check per name the import lists, each against the indexed file of its module |
| IndirectImports.ChecksSpec | pants-plugins/import_fixer/indirect_imports_rules.py:25-39 | a check is made exactly for a name of an import of an indexed module, against that module's file |
| IndirectImports.KeepUndefined | pants-plugins/import_fixer/indirect_imports_rules.py:41-43 | the loop keeps the checks whose name is not defined |
| IndirectImports.UndefinedSpec | pants-plugins/import_fixer/indirect_imports_rules.py:41-43 | a check is kept exactly when its name is not defined |
| IndirectImports.LookUpNames | pants-plugins/import_fixer/indirect_imports_rules.py:45-60 | the loop builds one recommendation per kept check that has candidates |
| IndirectImports.RecsForSpec | pants-plugins/import_fixer/indirect_imports_rules.py:45-60 | a recommendation is made exactly for a kept check whose name has candidates, naming the check's import as its source |
| IndirectImports.FileIndirectImportRecommendations | pants-plugins/import_fixer/indirect_imports_rules.py:19-64 | the rule's result is the indirect-import recommendations of the file |
| IndirectImports.IndirectRecsSpec | pants-plugins/import_fixer/indirect_imports_rules.py:19-64 | the file's recommendations are exactly, for each name imported from an indexed module that does not define it and that has candidates, those candidates with that import as source |
| IndirectImports.UnindexedImportsIgnored | pants-plugins/import_fixer/indirect_imports_rules.py:26-27 | no recommendation names an import of a module outside the index |
| BuildFileDefaults.Tokenize | pants-plugins/build_file_defaults/rules.py:21-27 | tokenizing passes the lexer's tokens through and turns a lexer error into `Failed to parse <path>: <error>` |
| BuildFileDefaults.SetField | pants-plugins/build_file_defaults/rules.py:58-86 | setting a field keeps the target's kind and its field table well formed |
| BuildFileDefaults.Step | pants-plugins/build_file_defaults/rules.py:38-86 | one token keeps the parser state well formed or fails where the source raises (a field or value before any target) |
| BuildFileDefaults.Run | pants-plugins/build_file_defaults/rules.py:38-86 | running the tokens keeps the parser state well formed |
| BuildFileDefaults.Flush | pants-plugins/build_file_defaults/rules.py:87 | the final entry is appended after the collected ones |
| BuildFileDefaults.ParseBody | pants-plugins/build_file_defaults/rules.py:32-90 | a parsed body is well formed and has at least one entry |
| BuildFileDefaults.ParseTokens | pants-plugins/build_file_defaults/rules.py:29-90 | the loop over the tokens computes the parsed body |
| BuildFileDefaults.RunStopsAtError | pants-plugins/build_file_defaults/rules.py:38-86 | once a prefix of the tokens fails, the whole run fails the same way |
| BuildFileDefaults.RunTargets | pants-plugins/build_file_defaults/rules.py:46-53 | the targets collected so far are exactly the target names among the tokens, in order |
| BuildFileDefaults.KindsOfSameShape | pants-plugins/build_file_defaults/rules.py:47-52 | states with the same collected and current targets list the same target kinds |
| BuildFileDefaults.ParsedTargets | pants-plugins/build_file_defaults/rules.py:46-53 | the body lists one entry per target name in token order; a file without targets parses to a single empty entry (with lines 87-88 of the same file) |
| BuildFileDefaults.AllSomeKinds | pants-plugins/build_file_defaults/rules.py:46-52 | a body of targets lists one kind per entry |
| BuildFileDefaults.ValueBeforeTargetFails | pants-plugins/build_file_defaults/rules.py:58-81 | a field name or a value before the first target makes parsing fail |
| BuildFileDefaults.FieldNameStep | pants-plugins/build_file_defaults/rules.py:54-60 | a field name is recorded with no value yet and becomes the current name |
| BuildFileDefaults.ScalarValueStep | pants-plugins/build_file_defaults/rules.py:76-79 | outside a list, a value is stored under the current name, which is then cleared |
| BuildFileDefaults.ListValueStep | pants-plugins/build_file_defaults/rules.py:80-86 | inside a list, a value is appended to the current name's list (stripped) or starts the list |
| BuildFileDefaults.CloseListStep | pants-plugins/build_file_defaults/rules.py:72-75 | `]` ends the list and clears the current name, changing nothing else |
| BuildFileDefaults.TargetStep | pants-plugins/build_file_defaults/rules.py:46-53 | a new target name stores the current target and starts an empty one |
| BuildFileDefaults.FieldLine | pants-plugins/build_file_defaults/rules.py:103-107 | a field renders as an indented `key=value,` line, and a field that never got a value fails |
| BuildFileDefaults.RenderBody | pants-plugins/build_file_defaults/rules.py:92-110 | the loop renders the body as the file's text |
| BuildFileDefaults.RenderEntry | pants-plugins/build_file_defaults/rules.py:96-108 | the loop renders one target as its lines |
| BuildFileDefaults.BodyLinesStop | pants-plugins/build_file_defaults/rules.py:95-108 | once a prefix of the body fails to render, the whole body fails the same way |
| BuildFileDefaults.FieldLinesStop | pants-plugins/build_file_defaults/rules.py:103-107 | once a prefix of the fields fails to render, all fields fail the same way |
| BuildFileDefaults.FieldLinesSpec | pants-plugins/build_file_defaults/rules.py:103-107 | rendering fields fails exactly when some field has no value, and otherwise gives one line per field in order |
| BuildFileDefaults.TargetLinesSpec | pants-plugins/build_file_defaults/rules.py:97-108 | a target without fields renders as `kind()`, otherwise as `kind(`, one line per field and a closing line; it fails exactly when a field has no value |
| BuildFileDefaults.BodyLinesPrefix | pants-plugins/build_file_defaults/rules.py:95-108 | when a body renders, every prefix of it renders too, to a prefix of its lines |
| BuildFileDefaults.BodyLinesFail | pants-plugins/build_file_defaults/rules.py:96-108 | rendering fails exactly when an entry is empty or a field has no value |
| BuildFileDefaults.SplitOption | pants-plugins/build_file_defaults/rules.py:134 | an option splits exactly when it holds one `=`, into a name and a value that rejoin to it |
| BuildFileDefaults.SplitOptionOf | pants-plugins/build_file_defaults/rules.py:134 | `name=value` splits back into its name and value |
| BuildFileDefaults.ChangeFor | pants-plugins/build_file_defaults/rules.py:135-138 | an option causes no change message exactly when the field already holds that value, and at most one otherwise |
| BuildFileDefaults.ApplyOptions | pants-plugins/build_file_defaults/rules.py:133-139 | applying options keeps the field table well formed |
| BuildFileDefaults.ApplyToEntry | pants-plugins/build_file_defaults/rules.py:129-139 | applying defaults keeps an entry's presence and kind and its field table well formed |
| BuildFileDefaults.ApplyAll | pants-plugins/build_file_defaults/rules.py:129-139 | applying defaults keeps the number of entries and a well-formed body |
| BuildFileDefaults.UpdateBuildFileDefaults | pants-plugins/build_file_defaults/rules.py:123-144 | the rule computes the update of the request |
| BuildFileDefaults.ApplyDefaults | pants-plugins/build_file_defaults/rules.py:129-139 | the loop over the entries applies the defaults to each |
| BuildFileDefaults.ApplyAllStop | pants-plugins/build_file_defaults/rules.py:129-139 | once a prefix of the body fails, the whole application fails the same way |
| BuildFileDefaults.EntryDefaults | pants-plugins/build_file_defaults/rules.py:130-139 | the loop over the default table applies every matching target type's options |
| BuildFileDefaults.OptionsDefaults | pants-plugins/build_file_defaults/rules.py:133-139 | the loop over the options applies each one in order |
| BuildFileDefaults.ApplyOptionsStop | pants-plugins/build_file_defaults/rules.py:133-139 | once a prefix of the options fails, all of them fail the same way |
| BuildFileDefaults.DefaultsHold | pants-plugins/build_file_defaults/rules.py:139 | after the options are applied, each option's field holds the last value given for it |
| BuildFileDefaults.OtherFieldsKept | pants-plugins/build_file_defaults/rules.py:133-139 | a field no option names is kept unchanged |
| BuildFileDefaults.ChangesFromOptions | pants-plugins/build_file_defaults/rules.py:135-138 | every change message is an `Add` or `Set` of one of the options, and there are no more messages than options |
| BuildFileDefaults.Idempotent | pants-plugins/build_file_defaults/rules.py:133-139 | applying the same options a second time changes nothing and reports nothing |
| BuildFileDefaults.ReapplyNothing | pants-plugins/build_file_defaults/rules.py:135-139 | options that the fields already hold change nothing and report nothing |
| BuildFileDefaults.ApplyAllEntries | pants-plugins/build_file_defaults/rules.py:129-139 | each entry of the result is that entry with the defaults applied |
| BuildFileDefaults.UpdateChanges | pants-plugins/build_file_defaults/rules.py:143 | the reported changes hold no repeats and are exactly the messages the application produced |
| BuildFileDefaults.UpdatedTargetsHoldDefaults | pants-plugins/build_file_defaults/rules.py:129-139 | every target of a type with defaults ends up holding each default's last value |
| GitRules.Triple | pants-plugins/changer/git/git_rules.py:62-69 | a hunk start gives nothing when empty, otherwise three line numbers n, n+1 and n+2 as decimal text; it fails exactly when the start is not an integer |
| GitRules.GetGitFileInfo | pants-plugins/changer/git/git_rules.py:32-78 | the rule answers the file's diff outcome as the specification of `get_git_file_info` says |
| GitRules.ReadDiff | pants-plugins/changer/git/git_rules.py:52-78 | the loop over the diff lines computes what the diff says about the file |
| GitRules.ScanStops | pants-plugins/changer/git/git_rules.py:58-71 | once a prefix of the lines fails, the whole scan fails the same way |
| GitRules.RunsConcat | pants-plugins/changer/git/git_rules.py:63-69 | two sequences of runs of three join into one, so appending a hunk's triples keeps the modified lines in runs |
| GitRules.RunsLength | pants-plugins/changer/git/git_rules.py:63-69 | runs of three make a count that is a multiple of three |
| GitRules.TripleTriples | pants-plugins/changer/git/git_rules.py:62-69 | a hunk start yields a run of consecutive triples |
| GitRules.HunkLinesTriples | pants-plugins/changer/git/git_rules.py:59-69 | whatever a hunk header yields comes in runs of three consecutive line numbers |
| GitRules.HunkHeaderLines | pants-plugins/changer/git/git_rules.py:59-69 | a header `@@ -m,k +n,l ...` with decimal fields yields exactly `n`, `n+1`, `n+2` and then `m`, `m+1`, `m+2`: the added start's triple first, then the removed start's |
| GitRules.ScanTriples | pants-plugins/changer/git/git_rules.py:58-71 | the modified lines of a scan are consecutive triples |
| GitRules.ScanAddedCode | pants-plugins/changer/git/git_rules.py:70-71 | the new code is, in order, every line that starts with the only `+` it holds and is not a hunk header, without that `+` and stripped |
| GitRules.FileHeaderNotCode | pants-plugins/changer/git/git_rules.py:70 | the `+++` file header line is never taken as new code |
| GitRules.FileInfoSpec | pants-plugins/changer/git/git_rules.py:32-78 | no worktree fails; a git error succeeds exactly when it says the path is not in the working tree, and then marks the file deleted; a new file has no lines or code; otherwise the modified lines are triples and the new code is the added lines after the first |
| ChangerRules.GetGitFileInfo | pants-plugins/changer/rules.py:45-77 | the older rule answers the diff outcome as its specification says |
| ChangerRules.OldFileInfoSpec | pants-plugins/changer/rules.py:45-77 | the older rule never reports a deleted file, fails on every git error, and on a diff agrees with the newer rule |
| ChangerUtils.FileLineByFunctions | pants-plugins/changer/utils.py:5-25 | the worklist loop builds exactly the line map its specification defines, and visits no more nodes than the tree has |
| ChangerUtils.VisitChildren | pants-plugins/changer/utils.py:16-24 | handling the children of one node records the line of each child that has one and pushes that child with its enclosing function, as the walk's specification of one node prescribes |
| ChangerUtils.LineMapSpec | pants-plugins/changer/utils.py:14-25 | a line number is a key exactly when some lined node of the tree starts on it, and when all nodes on that line agree on their enclosing function, the key maps to that function |
| ChangerUtils.OwnedSpec | pants-plugins/changer/utils.py:19-24 | every lined node is listed with its owner: a function definition owns itself, any other node the innermost enclosing function, or none at module level |
| ChangerUtils.OwnedListSpec | pants-plugins/changer/utils.py:16-24 | the children of a node are listed with the owner the walk gives them |
| ChangerUtils.WalkPermutesOwned | pants-plugins/changer/utils.py:14-24 | the worklist's order visits the same entries as a source-order walk of the tree |
| ChangerUtils.ApplyAgreed | pants-plugins/changer/utils.py:20-23 | writing entries that agree on a key's value leaves the key with that value |
| ChangerUtils.ApplyDomain | pants-plugins/changer/utils.py:20-23 | after the writes, a key is present exactly when it was before or some entry wrote it |
| ChangerUtils.SkipUnlined | pants-plugins/changer/utils.py:17-18 | a node without a line number contributes nothing, whatever lies below it |
| ChangerUtils.FunctionsFrom | pants-plugins/changer/utils.py:32-39 | every collected node is a function definition |
| ChangerUtils.FunctionsFromSpec | pants-plugins/changer/utils.py:32-39 | the functions collected are, in source order, the function definitions reached through classes only |
| ChangerUtils.NoFunctionsBelowOthers | pants-plugins/changer/utils.py:33-39 | a node that is neither a class nor a function contributes no function |
| ChangerUtils.AllFunctions | pants-plugins/changer/utils.py:28-29 | `get_all_functions` lists the function definitions reached through classes, in source order |
| Strings.IntStrRoundTrip | pants-plugins/changer/git/git_rules.py:64-65 | a line number written with `str` reads back with `int` as the same number |
| Strings.NatStrInjective | pants-plugins/changer/utils.py:20-23 | different line numbers give different map keys |
| ConnectPackageHelper.TransitiveMember | pants-plugins/import_fixer/python_connect/python_package_helper.py:24-25 | a file is listed for a source exactly when it is indexed and one of its imports has the source's module key as its module path |
| WildcardPackageHelper.ImportsUsed | pants-plugins/wildcard_imports/import_fixer/python_package_helper.py:57-83 | at most one narrowed import per import of the transitive file |
| ImportFixerHandler.NarrowedOnce | pants-plugins/wildcard_imports/import_fixer/import_fixer_handler.py:167-185 | each non-direct duplicate gets one fix, no import is fixed twice, and exactly the non-direct duplicates are fixed |

## Left out

- Parsing and tokenizing.
  - `ast.parse` and `tokenize` are not modelled. Their results are inputs: a syntax tree `PyAst.Node`, a token sequence, or a lexer error.
  - Bytes are decoded text (`string`), and no encoding is modelled.
- The git subprocess and the worktree lookup are not modelled. The diff text, the error message or the absence of a worktree is an input (`GitRules.GitOutcome`). Listing the changed files (`get_git_info`) only sequences those calls and is not modelled.
- `is_module_package` (the `importlib` lookup) is not modelled. Whether a name is an installed package is an input: a `bool`, or a set of names.
- `has_missing_import` and `get_missing_import_names` call autoflake and pyflakes and are not modelled. The missing names are an input.
- `json.dumps` in `to_json_str` is not modelled. Only the dictionary it serialises (`CrossImports.DictOf`) is.
- Rule dispatch (`Get`/`MultiGet`) and concurrency: each rule is a direct call of the rule it requests, and results are gathered in request order.
- `FileImportRecs.Sub`: every pattern character other than `.` is matched as itself. A module key built from a file path may hold other metacharacters (`+`, `(`, `[`, `$`, `?`), which `re.sub` would read as pattern syntax, or reject with `re.error` when unbalanced. Neither reading nor the error is modelled.
- Regular expressions are not modelled as an engine. Each search the plugins use is written out as a predicate over character positions.
- `PythonUtils.HasSymbolUsage`: a symbol holding a regular-expression metacharacter is treated as never used. This matches the error a `*` raises. For other metacharacters (`.`, `+`, `?`, …) the source would match them as a pattern, which the model does not capture.
- `Strings.ParseInt`: `int()` is modelled for an optional sign followed by decimal digits. Underscores between digits, surrounding white space and non-ASCII decimal digits, which `int()` also accepts, are read as errors. In a hunk header the fields come from a white-space split, so white space cannot occur there.
- `PythonUtils.IsWordChar`: the regular-expression class `\w` is modelled by its ASCII part (letters, digits, `_`). Python also counts every other Unicode letter and digit as a word character, so for a symbol `x` the model reports a usage in `éx(` where the source finds none. Unicode character categories are not modelled.
- Python `set` results have no defined order. Where the source builds a set, the model keeps the first occurrence of each element in order (`Strings.Dedup`, `Strings.Difference`), and the contracts state only membership and the absence of repeats. This covers the ignore lists, duplicate narrowing, the merge of duplicate recommendations, the patcher's replacement text and the BUILD change list.
- `ImportFixerHandler.WildcardImportRecommendation`: the worklist is a stack (last in, first out). The contract states which imports are visited and that recommendations come in visiting order, but not the exact visiting order the stack produces.
- `ChangerUtils.LineMapSpec`: when two nodes on the same line have different enclosing functions, the last write in the stack order wins. The contract gives the value only when all nodes on the line agree. Dictionary key order of the line map is not modelled (a Dafny `map`).
- `IndirectImports.ThirdTierEmpty`: the third-party tier of `get_name_import_recommendations` skips every import whose module path is a key of the reverse index. The helper files every import under that key, so the tier always comes back empty. It is modelled as written and proved empty.
- `update_for_python_files` is not modelled: it assigns into a frozen dictionary and reads an attribute off a plain dictionary, so it cannot run as written.
- `BuildFileUpdateResult.to_file_content` is not modelled: it reads fields the record does not have. The rewritten file comes from `BuildFileUpdateRequest.to_filecontent` (`BuildFileDefaults.ToFileContent`).
- `target_types` of `BuildFileUpdateRequest` is never read by the rules and is not modelled.
- Excluded files:
  - `import_fixer/import_fixer.py` is goal orchestration: workspace writes, sleeps and formatter runs.
  - The isort, autoflake and autoimport rules run external processes.
  - The superseded prototypes read the file system directly: `wildcard_imports/import_fixer.py`, `wildcard_imports/python_package_helper.py`, `import_fixer_target_types.py`, `import_fixer_python_target_types.py` and `import_fixer_package_target_helper.py`.
  - Framework glue (fields, subsystems, register files, plain request records) is left out as well.
- `wildcard_imports/wildcard_import_rules.py` is an older copy of `wildcard_imports_rules.py` with renamed fields. Its fan-out and duplicate rules are the same and are cited against the same members. Its missing-name rule is commented out in the source, so it has none.
- The resolver's own `python_file_info` and `utils` modules under `wildcard_imports/import_fixer/` are not part of this model. The resolver is modelled over the `python_connect` versions, which define every member it calls.
- Termination of the line-map walk: the ghost visit count bounds the visits by the size of the tree, but which node each visit handles is not tracked.
