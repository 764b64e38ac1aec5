# Live variables per line

A verified model of the static analyser in `live_variables.py`. For each line of a Python
source file, the analyser lists the names that are in scope on that line. It works in three
stages:

- It walks the syntax tree and builds a tree of scopes: the module, each function and each
  class. Each scope records, per name, the history of its definitions. A `del` statement
  is meant to mark the newest definition of a name as deleted from the statement's line.
  As written it never does so on a parsed program (see "## Findings"). The model records
  the deletion.
- For each line it collects the chain of nested scopes whose line range contains it. This is
  `scope_stack_at`, a depth-first descent that takes the first matching child at each level.
- It unions what every scope on that chain reports for the line. A scope reports a name
  when the newest definition not after the line exists and has not been deleted by then.

The model follows the source's imperative form:

- `Scopes.Scope` is a class whose `children` and `definitions` fields its methods update in
  place.
- The walk (`Visit`, `VisitChildren`), the descent (`Dfs`, `DfsChildren`) and the per-line
  loop are methods with loops and recursion.
- Each method is proved against a function on values in module `Analysis`:
  - `Visited` / `BuiltTree` for the walk;
  - `StackAt` for the descent;
  - `AvailableOnLine` for the per-line answer.
- The lemmas beside those functions state what the source promises.

Files:

- `options.dfy`: the `Option` type.
- `definitions.dfy`: definitions, the per-name history, and the `available_names_at` query
  on values.
- `scopes.dfy`: the `Scope` class, its value `ScopeTree`, and its three methods.
- `syntax.dfy`: the syntax tree the analyser reads, and `iter_assigned_names`.
- `analysis.dfy`: the walk, the stack and the per-line union, as functions with their
  properties.
- `live_variables.dfy`: the analyser's procedures as methods.

## Model

| member | source | states |
|---|---|---|
| Scopes.Scope.AddDefinition | live_variables.py:31-32 | The name's list gets exactly one new undeleted `Definition(name, line)` at its end, and is created when absent. Every other name keeps its list, and no other name appears or disappears. |
| Scopes.Scope.AddDeletion | live_variables.py:34-39 | Nothing changes when the name has no definitions (absent or empty list). Otherwise only the last entry of its list changes, and only its deletion line, which becomes `line`. Earlier entries, other names and the key set are unchanged. |
| Scopes.Scope.AvailableNamesAt | live_variables.py:41-54 | The two nested loops return exactly `AvailableNames(definitions, line)`: the names whose newest definition not after `line` exists and is not deleted by `line`. |
| Scopes.Scope.constructor | live_variables.py:20-29 | A new scope has its kind, name and line range, no children and no definitions. |
| Definitions.LatestIsSelected | live_variables.py:44-50 | The inner loop finds nothing exactly when every definition comes after the line. Otherwise it finds the selected definition: the greatest line not after the query, and the earliest in the list among equal lines (the strict `>`). |
| Definitions.SelectedUnique | live_variables.py:44-48 | At most one list position is the selected one. |
| Definitions.AvailableNamesIff | live_variables.py:41-54 | A name is reported exactly when it has a selected definition whose deletion line is unset or later than the query line. |
| Definitions.AvailableOnlyAfterDefinition | live_variables.py:41-50 | A reported name has at least one definition on or before the query line, so a name defined only later is never reported. |
| Definitions.RedefinitionRevives | live_variables.py:31-32 | A definition later than all earlier ones of a name makes the name available on every line from its own. This holds whatever deletions the earlier ones carry. |
| Definitions.DeletionHides | live_variables.py:34-53 | Deleting the newest definition of a name hides the name from the deletion's line on, when that definition is the one the query selects. That needs the earlier entries' lines strictly below the newest; when two definitions share a line (`x = 1; x = 2`, or `x = [x for x in y]`) the deletion marks the newer one while the query keeps selecting the earlier one (see `Analysis.DeleteTiedKeeps`). |
| Definitions.DefineNamesRecords | live_variables.py:117-119 | Adding a sequence of definitions keeps every existing list as a prefix. Each (name, line) pair leaves an undeleted definition in its name's list. |
| Definitions.DeleteNamesMarks | live_variables.py:157-160 | A sequence of deletions at one line keeps the key set. It marks the newest entry of each listed name that has one, once, and leaves every other list unchanged. A name deleted twice ends as if deleted once. |
| Definitions.DefineNamesAppend | live_variables.py:117-119 | Defining two lists of pairs one after the other is defining their concatenation. |
| Definitions.DeleteNamesAppend | live_variables.py:158-160 | Deleting two lists of pairs one after the other is deleting their concatenation. |
| Definitions.DefineNamesExtends | live_variables.py:31-32 | Definitions never remove a name or move, rename or re-line an existing entry. |
| Definitions.DeleteNamesExtends | live_variables.py:34-39 | Deletions never remove a name or move, rename or re-line an entry; they only set deletion lines. |
| Definitions.MarkLastDeletedTwice | live_variables.py:39 | Marking the newest entry twice from the same line equals marking it once. |
| Definitions.ExtendsTransitive | live_variables.py:72-164 | The "only grows" relation between definition maps composes across steps. |
| Syntax.IterAssignedNames | live_variables.py:170-187 | The list built by the inner visitor is `NamesIn(target, Binding)`. That is: a name in Store or Param context yields its (id, line); a tuple or list yields its elements' pairs concatenated in order; a starred target yields its value's pairs; attributes, subscripts and anything else yield none. |
| Syntax.IterDeletedNames | live_variables.py:157-160 | The same visitor, accepting names in the Del context that the parser gives `del` targets. It yields the names the statement removes. |
| Syntax.CollectNames | live_variables.py:172-185 | One call of the inner visitor appends to the outer list exactly what its node yields. |
| Syntax.CollectElements | live_variables.py:175-177 | The loop over a tuple's or list's elements appends their pairs in element order. |
| Syntax.NamesInFound | live_variables.py:170-187 | Every pair a target yields is the id and line of a name node inside the target whose context is accepted. |
| Syntax.NamesInAllFound | live_variables.py:175-177 | Every pair a list of targets yields comes from an accepted name node in one of them. |
| Syntax.NamesInNone | live_variables.py:173 | A target whose name nodes all carry contexts the visitor does not accept yields nothing. An example is a `del` target under the Store/Param filter: every name it binds (through tuples, lists and starred values) carries Del, and attribute and subscript targets yield nothing anyway. |
| Syntax.NamesInAllNone | live_variables.py:175-177 | The same for a list of targets. |
| Syntax.NamesInAllAppend | live_variables.py:175-177 | The pairs of a list of targets are the pairs of its parts, concatenated in order. |
| Syntax.FirstSegment | live_variables.py:149 | The result is a prefix of the dotted name and contains no dot. It is either the whole name or ends right before the first dot. |
| Syntax.ImportedName | live_variables.py:149 | A non-empty alias is the bound name. Otherwise the bound name is the part of the module name before its first dot. |
| Syntax.AtLine | live_variables.py:86-93 | Each name is paired with the same line, in order. |
| Analysis.ScopeHeader | live_variables.py:74-113 | A function or class definition appends exactly one child scope, keeps the enclosing scope's identity, range and earlier children, and defines its own name there at its header line. The new scope has the right kind, name and line range. A function's scope holds every parameter (positional-only, positional, `*args`, keyword-only, `**kwargs`) defined at the header line. |
| Analysis.ImportRecords | live_variables.py:146-150 | Each alias of an import leaves an undeleted definition of the name it binds, at the import's line. |
| Analysis.DeleteRecords | live_variables.py:157-160 | A `del` statement marks, at its own line, the newest definition of every name its targets remove (the Del-context names), and changes nothing else. This is the corrected branch; see "## Findings". |
| Analysis.DeleteHides | live_variables.py:157-160 | After `del x`, `x` is not reported on any line from the statement's on, when its newest definition is the one the query selects. As in `Definitions.DeletionHides`, this needs the name's earlier definitions on strictly earlier lines; `Analysis.DeleteTiedKeeps` shows the tie where it fails. |
| Analysis.RecordedDeleteAsWritten | live_variables.py:157-160 | The `del` branch as written: the keys are kept; the newest definition of each name its targets yield through the Store/Param filter is marked at the statement's line; every other entry is unchanged. |
| Analysis.DeleteAsWrittenKeeps | live_variables.py:157-160 | The branch as written passes `del` targets through the Store/Param filter. For every `del` the parser builds (every name its targets bind through tuples, lists and starred values carries Del; attribute and subscript targets yield nothing anyway) it leaves the definitions unchanged. |
| Analysis.DeleteAsWrittenExample | live_variables.py:157-160 | For `x = 1` on line 1 and `del x` on line 3, the branch as written still reports `x` on line 4; the corrected branch does not. |
| Analysis.DeleteTiedKeeps | live_variables.py:33-53 | When a name's two definitions share a line, a `del` of it (line 38 marks the newer one) does not hide it: the query (strict `>` at line 46) still selects the earlier, unmarked one, so the name stays available. |
| Analysis.RecordedExtends | live_variables.py:115-160 | Recording a node's definitions or deletions never removes or reorders anything already recorded. |
| Analysis.VisitedGrows | live_variables.py:72-164 | Visiting a node in a scope keeps the scope's identity and range and its earlier children as a prefix, and extends its definitions. |
| Analysis.VisitedAllGrows | live_variables.py:163-164 | The same for visiting a list of nodes in turn. |
| Analysis.FirstStackAtIsFirst | live_variables.py:197-199 | The children loop yields nothing exactly when no child contains the line. Otherwise it yields the stack of the first child that does. |
| Analysis.StackAtContains | live_variables.py:190-203 | The stack is empty exactly when the root does not contain the line. Otherwise it starts with the root, and every scope on it contains the line. |
| Analysis.StackAtLinks | live_variables.py:190-203 | Each scope on the stack after the first is the first child of its predecessor, in `children` order, that contains the line. No child of the last one contains it. |
| Analysis.NamesOnLineIff | live_variables.py:213-216 | A name is in a line's entry exactly when some scope on the stack reports it for that line. |
| LiveVariables.DefineEach | live_variables.py:118-119 | Adding each (name, line) pair to the scope, in order, gives `DefineNames` of the old map. |
| LiveVariables.DeleteEach | live_variables.py:159-160 | Marking each name deleted at the statement's line, in order, gives `DeleteNames` of the old map. |
| LiveVariables.DefineTarget | live_variables.py:120-135 | A single-target statement defines exactly what its target binds. |
| LiveVariables.DefineTargets | live_variables.py:116-119 | An assignment defines what its targets bind, target by target. |
| LiveVariables.DefineWithItems | live_variables.py:136-145 | A `with` statement defines the `as` variables of its items, item by item. Items without one add nothing. |
| LiveVariables.DefineImports | live_variables.py:146-150 | An import defines, at its line, the name each alias binds, in alias order. |
| LiveVariables.DeleteTargets | live_variables.py:157-160 | A `del` statement deletes, at its line, the Del-context names of its targets, target by target. |
| LiveVariables.RecordDefinitions | live_variables.py:115-160 | The branch chain leaves the scope's map equal to `Recorded(node, old map)`. The except-handler case defines only a non-empty name. |
| LiveVariables.NewFunctionScope | live_variables.py:75-98 | The function's scope holds its parameters at the header line and then what visiting the definition's children records in it. |
| LiveVariables.NewClassScope | live_variables.py:101-112 | The class's scope holds what visiting the definition's children records in it. |
| LiveVariables.Attach | live_variables.py:82-84 | The parent keeps its validity and its earlier children. It gets the new scope as its last child and one new definition of the scope's name at the header line. |
| LiveVariables.Adopt | live_variables.py:82 | Appending a child adds its objects to the parent's and leaves the child's own value unchanged. |
| LiveVariables.Visit | live_variables.py:72-164 | Visiting a node in a scope changes that scope's value exactly as `Visited` describes (see `Analysis.ScopeHeader`, `Analysis.VisitedGrows`). Only new scopes are allocated. |
| LiveVariables.VisitFunctionDef | live_variables.py:74-99 | The function-definition branch of `visit`, against `Visited`. |
| LiveVariables.VisitClassDef | live_variables.py:100-113 | The class-definition branch of `visit`, against `Visited`. |
| LiveVariables.VisitOther | live_variables.py:115-164 | Any other node: its bindings are recorded, then its children are visited in the same scope. |
| LiveVariables.VisitChildren | live_variables.py:163-164 | The children are visited in order, each one in the scope the previous ones left. |
| LiveVariables.BuildScopeTree | live_variables.py:62-167 | The module scope runs from line 1 to the tree's end line, or to `10 ** 9` when that is 0. Its value is the module scope after visiting the whole tree. |
| LiveVariables.Dfs | live_variables.py:193-200 | Returns true exactly when the scope's range contains the line. It only appends to the stack, and what it appends stands scope for scope for `StackAt(scope, line)`. |
| LiveVariables.DfsChildren | live_variables.py:197-199 | The loop stops at the first child that contains the line. What it appends stands for that child's stack, or is empty when no child contains the line. |
| LiveVariables.ScopeStackAt | live_variables.py:190-203 | The returned list has the length of `StackAt(root, line)`. Its k-th scope belongs to the tree and stands for the k-th scope of that stack. The list starts with `root` itself, and each later scope is one of the previous scope's own children. |
| LiveVariables.NamesAround | live_variables.py:213-215 | The union over the stack's scopes, in order, is `NamesOnLine` of the stack's values. |
| LiveVariables.NamesOnLineIn | live_variables.py:212-216 | A line's entry is exactly `AvailableOnLine(root, line)`. |
| LiveVariables.ComputeAvailableVariablesPerLine | live_variables.py:206-217 | The keys are exactly lines 1..lineCount. Each line maps to the union of what every scope on the scope stack of the built tree reports for it. The tree is built from the parsed module, which has no end line, so its module scope spans lines 1 to `10 ** 9`. |

## Left out

- `selenium_script.py` and `locustfile.py` are not part of this model. They drive a browser and an HTTP load generator through foreign frameworks, with sleeps, random waits, file output and floating point.
- `print_table` and `main` in `live_variables.py` are not part of this model. They parse arguments, read the file and print csv, json or a table.
- `ast.parse` is not modelled. The syntax tree is given as a value of `Syntax.Node`.
  - Only the node kinds and fields the analyser reads are kept. A child node whose visit records nothing is absent: the expression context, the operator, and the alias nodes of an import.
  - Async function definitions, `async for` and `async with` share the kinds of their plain forms. `from … import` shares the kind of `import`.
  - The source handles all of these identically.
- `get_end_lineno`'s attribute lookup is not modelled. Each scope's end line is a field of its node. The end line of the tree handed to `build_scope_tree` is the `treeEndLine` parameter of `BuildScopeTree`, where 0 selects `10 ** 9`. `ComputeAvailableVariablesPerLine` always passes 0, as a parsed module has no end line.
- `source.splitlines()` is not modelled. Its line count is the `lineCount` parameter of `ComputeAvailableVariablesPerLine`.
- The `parent` back-pointer of a scope is not modelled. No operation reads it.
- `Definition` is a value, not a shared object. `add_deletion` updating `defs[-1]` in place becomes a reassignment of the name's list. The source never shares a `Definition` between lists, so nothing is lost.
- Iteration order of dictionaries and sets is not modelled. `AvailableNamesAt` visits names in an arbitrary order, and its result, a set, does not depend on that order.
- The order in which a new function or class scope is filled is not the source's. The source appends the new scope to its parent and defines its name there first, then fills it. The model fills the scope, then attaches it (`LiveVariables.Attach`). Filling a scope never reads or writes its parent, so the resulting tree is the same.
- The `del` branch as written is not what the walk uses. That branch records nothing for any parsed program. It is kept as `Analysis.RecordedDeleteAsWritten`, with the lemmas named under "## Findings". `Visit` and `RecordDefinitions` delete the names of the targets' Del-context name nodes instead.
- The `target is not None` test for annotated assignments is not modelled: the parser always supplies a target.

## Findings

| source | as written | input that shows it | evidently intended | confidence | as-written member | corrected member |
|---|---|---|---|---|---|---|
| live_variables.py:157-160 | `del` targets go through `iter_assigned_names`, which keeps only names in Store or Param context (line 173). The parser gives every name a `del` target binds (through tuples, lists and starred values) the Del context, and attribute and subscript targets yield nothing anyway, so `add_deletion` is never called. | `x = 1` on line 1, `del x` on line 3: `x` is still reported on line 4. | `del x` marks the newest definition of `x` as deleted from line 3, so `x` is not reported from line 3 on. | high; not executed | Analysis.DeleteAsWrittenExample | Analysis.DeleteHides |
