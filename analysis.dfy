/** What the analyser computes, as functions on values: the scope tree that walking a
    syntax tree builds, the chain of scopes around a line, and the names available on it. */
module Analysis {
  import opened Options
  import opened Definitions
  import opened Syntax
  import opened Scopes

  /** Line used as the module's end when the tree reports none (`10 ** 9`). */
  const UnknownEnd: int := 1000000000

  // ---------------------------------------------------------------------------
  // Recording definitions and deletions for one node
  // ---------------------------------------------------------------------------

  /** The targets of an assignment: every child but the assigned value. */
  function AssignTargets(n: Node): seq<Node>
  {
    if |n.kids| > 0 then n.kids[..|n.kids| - 1] else []
  }

  /** What the single target of an annotated or augmented assignment, a walrus, a `for`
      loop or a comprehension binds. */
  function TargetNames(n: Node): seq<(string, int)>
  {
    if |n.kids| > 0 then NamesIn(n.kids[0], Binding) else []
  }

  /** What the `as` variables of the items of a `with` statement bind, in item order. */
  function WithNames(items: seq<Node>): seq<(string, int)>
  {
    if items == [] then [] else WithNames(items[..|items| - 1]) + ItemNames(items[|items| - 1])
  }

  /** What one `with` item binds: its `as` target, when it has one. */
  function ItemNames(item: Node): seq<(string, int)>
  {
    if item.kind.WithItem? && |item.kids| > 1 then NamesIn(item.kids[1], Binding) else []
  }

  lemma WithNamesPrefix(items: seq<Node>, i: int)
    requires 0 <= i < |items|
    ensures WithNames(items[..i + 1]) == WithNames(items[..i]) + ItemNames(items[i])
  {
    assert items[..i + 1][..i] == items[..i];
  }

  /** The definitions and deletions a node that opens no scope records in the current one.
      A `del` statement deletes the names of its targets' Del-context name nodes. */
  function Recorded(n: Node, defs: DefinitionMap): DefinitionMap
  {
    match n.kind
    case Assign => DefineNames(defs, NamesInAll(AssignTargets(n), Binding))
    case AnnAssign => DefineNames(defs, TargetNames(n))
    case AugAssign => DefineNames(defs, TargetNames(n))
    case NamedExpr => DefineNames(defs, TargetNames(n))
    case For => DefineNames(defs, TargetNames(n))
    case With => DefineNames(defs, WithNames(n.kids))
    case Import(aliases, lineno) => DefineNames(defs, AtLine(ImportedNames(aliases), lineno))
    case ExceptHandler(binding, lineno) =>
      if binding.Some? && binding.value != "" then Define(defs, binding.value, lineno) else defs
    case Comprehension => DefineNames(defs, TargetNames(n))
    case Delete(lineno) => DeleteNames(defs, NamesInAll(n.kids, Deletion), lineno)
    case _ => defs
  }

  // ---------------------------------------------------------------------------
  // Walking the syntax tree
  // ---------------------------------------------------------------------------

  /** The scope a function header opens: its parameters already defined at the header line. */
  function FunctionScopeOf(name: string, lineno: int, endLineno: int, params: Params): ScopeTree
  {
    ScopeTree(FunctionScope, name, lineno, endLineno, [], DefineNames(map[], AtLine(ParamNames(params), lineno)))
  }

  /** The current scope `cur` after visiting `n` in it. A function or class definition adds
      one child scope, filled by visiting the definition's children in it, and defines its
      own name in `cur`; any other node records what it binds or deletes and then its
      children are visited in `cur`. */
  function Visited(n: Node, cur: ScopeTree): ScopeTree
    decreases n, 1
  {
    match n.kind
    case FunctionDef(name, lineno, endLineno, params) =>
      var child := VisitedAll(n.kids, FunctionScopeOf(name, lineno, endLineno, params));
      cur.(children := cur.children + [child], definitions := Define(cur.definitions, name, lineno))
    case ClassDef(name, lineno, endLineno) =>
      var child := VisitedAll(n.kids, ScopeTree(ClassScope, name, lineno, endLineno, [], map[]));
      cur.(children := cur.children + [child], definitions := Define(cur.definitions, name, lineno))
    case _ =>
      VisitedAll(n.kids, cur.(definitions := Recorded(n, cur.definitions)))
  }

  /** Visiting a list of nodes one after another. */
  function VisitedAll(ns: seq<Node>, cur: ScopeTree): ScopeTree
    decreases ns
  {
    if ns == [] then cur else Visited(ns[|ns| - 1], VisitedAll(ns[..|ns| - 1], cur))
  }

  function ModuleEnd(treeEndLine: int): int
  {
    if treeEndLine != 0 then treeEndLine else UnknownEnd
  }

  /** `build_scope_tree`: the module scope, from line 1, after visiting the whole tree. */
  function BuiltTree(tree: Node, treeEndLine: int): ScopeTree
  {
    Visited(tree, ScopeTree(ModuleScope, "<module>", 1, ModuleEnd(treeEndLine), [], map[]))
  }

  // ---------------------------------------------------------------------------
  // The chain of scopes around a line, and the names available on it
  // ---------------------------------------------------------------------------

  /** `scope_stack_at`: empty when `s` does not contain the line, otherwise `s` followed by
      the chain of the first child that contains it. */
  function StackAt(s: ScopeTree, line: int): seq<ScopeTree>
    decreases s, 1
  {
    if Contains(s, line) then [s] + FirstStackAt(s.children, line) else []
  }

  function FirstStackAt(cs: seq<ScopeTree>, line: int): seq<ScopeTree>
    decreases cs
  {
    if cs == [] then []
    else if Contains(cs[0], line) then StackAt(cs[0], line)
    else FirstStackAt(cs[1..], line)
  }

  /** The union, in stack order, of what each scope reports for the line. */
  function NamesOnLine(stack: seq<ScopeTree>, line: int): set<string>
  {
    if stack == [] then {}
    else NamesOnLine(stack[..|stack| - 1], line) + AvailableNames(stack[|stack| - 1].definitions, line)
  }

  /** The entry of `compute_available_variables_per_line` for one line. */
  function AvailableOnLine(root: ScopeTree, line: int): set<string>
  {
    NamesOnLine(StackAt(root, line), line)
  }

  // ---------------------------------------------------------------------------
  // Properties of the scope stack
  // ---------------------------------------------------------------------------

  /** `cs[j]` is the first scope of `cs` that contains the line. */
  ghost predicate FirstContaining(cs: seq<ScopeTree>, line: int, j: int)
  {
    0 <= j < |cs| && Contains(cs[j], line) && forall i :: 0 <= i < j ==> !Contains(cs[i], line)
  }

  lemma {:induction false} FirstStackAtIsFirst(cs: seq<ScopeTree>, line: int)
    ensures FirstStackAt(cs, line) == [] <==> forall c :: c in cs ==> !Contains(c, line)
    ensures FirstStackAt(cs, line) != [] ==>
      exists j :: FirstContaining(cs, line, j) && FirstStackAt(cs, line) == StackAt(cs[j], line)
    decreases cs
  {
    if cs != [] {
      if Contains(cs[0], line) {
        assert FirstContaining(cs, line, 0);
      } else {
        FirstStackAtIsFirst(cs[1..], line);
        assert forall c :: c in cs ==> c == cs[0] || c in cs[1..];
        if FirstStackAt(cs[1..], line) != [] {
          var j :| FirstContaining(cs[1..], line, j) && FirstStackAt(cs[1..], line) == StackAt(cs[1..][j], line);
          assert FirstContaining(cs, line, j + 1);
        }
      }
    }
  }

  /** `child` is the first child of `parent` that contains the line. */
  ghost predicate FirstChildContaining(parent: ScopeTree, child: ScopeTree, line: int)
  {
    exists j :: FirstContaining(parent.children, line, j) && parent.children[j] == child
  }

  /** The stack is empty exactly when the root does not contain the line; otherwise it
      starts with the root and every scope on it contains the line. */
  lemma {:induction false} StackAtContains(s: ScopeTree, line: int)
    ensures StackAt(s, line) == [] <==> !Contains(s, line)
    ensures StackAt(s, line) != [] ==> StackAt(s, line)[0] == s
    ensures forall k :: 0 <= k < |StackAt(s, line)| ==> Contains(StackAt(s, line)[k], line)
    decreases s
  {
    if Contains(s, line) {
      var rest := FirstStackAt(s.children, line);
      FirstStackAtIsFirst(s.children, line);
      if rest != [] {
        var j :| FirstContaining(s.children, line, j) && rest == StackAt(s.children[j], line);
        StackAtContains(s.children[j], line);
      }
    }
  }

  /** Each scope on the stack after the first is the first child of its predecessor that
      contains the line, and no child of the last one contains it. */
  lemma {:induction false} StackAtLinks(s: ScopeTree, line: int)
    ensures forall k :: 0 <= k < |StackAt(s, line)| - 1 ==>
      FirstChildContaining(StackAt(s, line)[k], StackAt(s, line)[k + 1], line)
    ensures StackAt(s, line) != [] ==>
      forall c :: c in StackAt(s, line)[|StackAt(s, line)| - 1].children ==> !Contains(c, line)
    decreases s
  {
    if Contains(s, line) {
      var st := StackAt(s, line);
      var rest := FirstStackAt(s.children, line);
      FirstStackAtIsFirst(s.children, line);
      if rest != [] {
        var j :| FirstContaining(s.children, line, j) && rest == StackAt(s.children[j], line);
        StackAtContains(s.children[j], line);
        StackAtLinks(s.children[j], line);
        assert FirstChildContaining(st[0], st[1], line);
        forall k | 1 <= k < |st| - 1
          ensures FirstChildContaining(st[k], st[k + 1], line)
        {
          assert st[k] == rest[k - 1] && st[k + 1] == rest[k];
        }
        assert st[|st| - 1] == rest[|rest| - 1];
      }
    }
  }

  /** A name is reported for a line exactly when some scope on the stack reports it. */
  lemma {:induction false} NamesOnLineIff(stack: seq<ScopeTree>, line: int, name: string)
    ensures name in NamesOnLine(stack, line) <==>
      exists k :: 0 <= k < |stack| && name in AvailableNames(stack[k].definitions, line)
  {
    if stack != [] {
      var p := stack[..|stack| - 1];
      NamesOnLineIff(p, line, name);
      assert forall k :: 0 <= k < |p| ==> p[k] == stack[k];
      if name in AvailableNames(stack[|stack| - 1].definitions, line) {
        assert 0 <= |stack| - 1 < |stack|;
      }
    }
  }

  // ---------------------------------------------------------------------------
  // Properties of the walk
  // ---------------------------------------------------------------------------

  /** `b` is scope `a` after more of the tree was visited in it: same identity and range,
      the old children still first, and every old definition still in its place. */
  ghost predicate Grows(a: ScopeTree, b: ScopeTree)
  {
    && a.kind == b.kind && a.name == b.name
    && a.startLine == b.startLine && a.endLine == b.endLine
    && a.children <= b.children
    && Extends(a.definitions, b.definitions)
  }

  lemma {:induction false} RecordedExtends(n: Node, defs: DefinitionMap)
    ensures Extends(defs, Recorded(n, defs))
  {
    match n.kind
    case Assign => DefineNamesExtends(defs, NamesInAll(AssignTargets(n), Binding));
    case AnnAssign => DefineNamesExtends(defs, TargetNames(n));
    case AugAssign => DefineNamesExtends(defs, TargetNames(n));
    case NamedExpr => DefineNamesExtends(defs, TargetNames(n));
    case For => DefineNamesExtends(defs, TargetNames(n));
    case With => DefineNamesExtends(defs, WithNames(n.kids));
    case Import(aliases, lineno) => DefineNamesExtends(defs, AtLine(ImportedNames(aliases), lineno));
    case ExceptHandler(binding, lineno) =>
    case Comprehension => DefineNamesExtends(defs, TargetNames(n));
    case Delete(lineno) => DeleteNamesExtends(defs, NamesInAll(n.kids, Deletion), lineno);
    case _ =>
  }

  /** Visiting never removes or reorders anything already in the current scope. */
  lemma {:induction false} VisitedGrows(n: Node, cur: ScopeTree)
    ensures Grows(cur, Visited(n, cur))
    decreases n, 1
  {
    if n.kind.FunctionDef? {
      VisitedFunctionDef(n, cur);
      DefineExtends(cur.definitions, n.kind.name, n.kind.lineno);
    } else if n.kind.ClassDef? {
      VisitedClassDef(n, cur);
      DefineExtends(cur.definitions, n.kind.name, n.kind.lineno);
    } else {
      VisitedOther(n, cur);
      var mid := cur.(definitions := Recorded(n, cur.definitions));
      RecordedExtends(n, cur.definitions);
      VisitedAllGrows(n.kids, mid);
      ExtendsTransitive(cur.definitions, mid.definitions, Visited(n, cur).definitions);
    }
  }

  /** `Visited` for a function definition. */
  lemma VisitedFunctionDef(n: Node, cur: ScopeTree)
    requires n.kind.FunctionDef?
    ensures Visited(n, cur) == cur.(
      children := cur.children + [VisitedAll(n.kids, FunctionScopeOf(n.kind.name, n.kind.lineno, n.kind.endLineno, n.kind.params))],
      definitions := Define(cur.definitions, n.kind.name, n.kind.lineno))
  {
  }

  /** `Visited` for a class definition. */
  lemma VisitedClassDef(n: Node, cur: ScopeTree)
    requires n.kind.ClassDef?
    ensures Visited(n, cur) == cur.(
      children := cur.children + [VisitedAll(n.kids, ScopeTree(ClassScope, n.kind.name, n.kind.lineno, n.kind.endLineno, [], map[]))],
      definitions := Define(cur.definitions, n.kind.name, n.kind.lineno))
  {
  }

  /** `Visited` for a node that opens no scope. */
  lemma VisitedOther(n: Node, cur: ScopeTree)
    requires !n.kind.FunctionDef? && !n.kind.ClassDef?
    ensures Visited(n, cur) == VisitedAll(n.kids, cur.(definitions := Recorded(n, cur.definitions)))
  {
  }

  lemma {:induction false} VisitedAllGrows(ns: seq<Node>, cur: ScopeTree)
    ensures Grows(cur, VisitedAll(ns, cur))
    decreases ns
  {
    if ns != [] {
      var mid := VisitedAll(ns[..|ns| - 1], cur);
      VisitedAllGrows(ns[..|ns| - 1], cur);
      VisitedGrows(ns[|ns| - 1], mid);
      ExtendsTransitive(cur.definitions, mid.definitions, VisitedAll(ns, cur).definitions);
    }
  }

  /** A function or class definition defines its name in the enclosing scope at its header
      line and appends exactly one child scope spanning the definition; a function's scope
      holds each parameter, defined at the header line. */
  lemma ScopeHeader(n: Node, cur: ScopeTree)
    requires n.kind.FunctionDef? || n.kind.ClassDef?
    ensures var r := Visited(n, cur);
      && r.kind == cur.kind && r.name == cur.name
      && r.startLine == cur.startLine && r.endLine == cur.endLine
      && r.definitions == Define(cur.definitions, n.kind.name, n.kind.lineno)
      && |r.children| == |cur.children| + 1
      && r.children[..|cur.children|] == cur.children
    ensures var s := Visited(n, cur).children[|cur.children|];
      && s.kind == (if n.kind.FunctionDef? then FunctionScope else ClassScope)
      && s.name == n.kind.name
      && s.startLine == n.kind.lineno
      && s.endLine == n.kind.endLineno
    ensures n.kind.FunctionDef? ==>
      var s := Visited(n, cur).children[|cur.children|];
      forall p :: p in ParamNames(n.kind.params) ==>
        p in s.definitions &&
        exists k :: 0 <= k < |s.definitions[p]| && SameBinding(s.definitions[p][k], Definition(p, n.kind.lineno, None))
  {
    if n.kind.ClassDef? {
      VisitedAllGrows(n.kids, ScopeTree(ClassScope, n.kind.name, n.kind.lineno, n.kind.endLineno, [], map[]));
    } else {
      var FunctionDef(name, lineno, endLineno, params) := n.kind;
      var s0 := FunctionScopeOf(name, lineno, endLineno, params);
      var s := VisitedAll(n.kids, s0);
      assert Visited(n, cur).children[|cur.children|] == s;
      VisitedAllGrows(n.kids, s0);
      var bindings := AtLine(ParamNames(params), lineno);
      DefineNamesRecords(map[], bindings);
      forall p | p in ParamNames(params)
        ensures p in s.definitions
        ensures exists k :: 0 <= k < |s.definitions[p]| && SameBinding(s.definitions[p][k], Definition(p, lineno, None))
      {
        var i :| 0 <= i < |ParamNames(params)| && ParamNames(params)[i] == p;
        assert bindings[i] == (p, lineno);
        var ds := s0.definitions[p];
        assert Definition(p, lineno, None) in ds;
        var k :| 0 <= k < |ds| && ds[k] == Definition(p, lineno, None);
        assert SameBinding(ds[k], s.definitions[p][k]);
      }
    }
  }

  /** Each alias of an import gets an undeleted definition, at the import's line, of the
      name it binds. */
  lemma ImportRecords(n: Node, defs: DefinitionMap)
    requires n.kind.Import?
    ensures forall a :: a in n.kind.aliases ==>
      ImportedName(a) in Recorded(n, defs) &&
      Definition(ImportedName(a), n.kind.lineno, None) in Recorded(n, defs)[ImportedName(a)]
  {
    var bindings := AtLine(ImportedNames(n.kind.aliases), n.kind.lineno);
    DefineNamesRecords(defs, bindings);
    forall a | a in n.kind.aliases
      ensures (ImportedName(a), n.kind.lineno) in bindings
    {
      ImportedNamesHas(n.kind.aliases, a);
      var i :| 0 <= i < |ImportedNames(n.kind.aliases)| && ImportedNames(n.kind.aliases)[i] == ImportedName(a);
      assert bindings[i] == (ImportedName(a), n.kind.lineno);
    }
  }

  lemma {:induction false} ImportedNamesHas(aliases: seq<Alias>, a: Alias)
    requires a in aliases
    ensures ImportedName(a) in ImportedNames(aliases)
  {
    var p := aliases[..|aliases| - 1];
    if a != aliases[|aliases| - 1] {
      assert a in p;
      ImportedNamesHas(p, a);
    }
  }

  /** A `del` statement marks, at its own line, the newest definition of every name its
      targets remove (when there is one) and changes nothing else. */
  lemma DeleteRecords(n: Node, defs: DefinitionMap)
    requires n.kind.Delete?
    ensures Recorded(n, defs).Keys == defs.Keys
    ensures forall name :: name in defs ==>
      Recorded(n, defs)[name] ==
        if name in NamesOf(NamesInAll(n.kids, Deletion)) && defs[name] != []
        then MarkLastDeleted(defs[name], n.kind.lineno)
        else defs[name]
  {
    DeleteNamesMarks(defs, NamesInAll(n.kids, Deletion), n.kind.lineno);
  }

  /** `del x` hides `x` from the statement's line on, when its newest definition is the one
      the query selects. */
  lemma DeleteHides(n: Node, defs: DefinitionMap, name: string, at: int, line: int)
    requires n.kind.Delete?
    requires (name, at) in NamesInAll(n.kids, Deletion)
    requires name in defs && defs[name] != []
    requires defs[name][|defs[name]| - 1].line <= line
    requires forall j :: 0 <= j < |defs[name]| - 1 ==> defs[name][j].line < defs[name][|defs[name]| - 1].line
    requires n.kind.lineno <= line
    ensures name !in AvailableNames(Recorded(n, defs), line)
  {
    DeleteRecords(n, defs);
    assert name in NamesOf(NamesInAll(n.kids, Deletion));
    DeletionHides(defs, name, n.kind.lineno, line);
    assert Recorded(n, defs)[name] == MarkDeletion(defs, name, n.kind.lineno)[name];
  }

  // ---------------------------------------------------------------------------
  // The `del` branch as written
  // ---------------------------------------------------------------------------

  /** The `del` branch as the source writes it: the targets go through
      `iter_assigned_names`, which accepts only Store and Param names. */
  function RecordedDeleteAsWritten(n: Node, defs: DefinitionMap): (r: DefinitionMap)
    requires n.kind.Delete?
    ensures r.Keys == defs.Keys
    ensures forall name :: name in defs ==>
      r[name] ==
        if name in NamesOf(NamesInAll(n.kids, Binding)) && defs[name] != []
        then MarkLastDeleted(defs[name], n.kind.lineno)
        else defs[name]
  {
    DeleteNamesMarks(defs, NamesInAll(n.kids, Binding), n.kind.lineno);
    DeleteNames(defs, NamesInAll(n.kids, Binding), n.kind.lineno)
  }

  /** For any `del` statement the parser builds (every name its targets bind carries Del;
      attribute and subscript targets bind none) the branch as written records nothing. */
  lemma DeleteAsWrittenKeeps(n: Node, defs: DefinitionMap)
    requires n.kind.Delete?
    requires forall k :: 0 <= k < |n.kids| ==> OnlyContexts(n.kids[k], Deletion)
    ensures RecordedDeleteAsWritten(n, defs) == defs
  {
    NamesInAllNone(n.kids, Binding, Deletion);
  }

  /** `x = 1` on line 1 and `del x` on line 3: as written, `x` is still reported on line 4;
      with the `del` targets' own names, it is not. */
  lemma DeleteAsWrittenExample()
    ensures var defs := map["x" := [Definition("x", 1, None)]];
      var n := Node(Delete(3), [Node(Name("x", 3, Del), [])]);
      && "x" in AvailableNames(RecordedDeleteAsWritten(n, defs), 4)
      && "x" !in AvailableNames(Recorded(n, defs), 4)
  {
    var defs := map["x" := [Definition("x", 1, None)]];
    var n := Node(Delete(3), [Node(Name("x", 3, Del), [])]);
    assert OnlyContexts(n.kids[0], Deletion);
    DeleteAsWrittenKeeps(n, defs);
    assert Latest(defs["x"], 4) == Some(Definition("x", 1, None)) by {
      assert defs["x"][..0] == [];
    }
    assert NamesInAll(n.kids, Deletion) == [("x", 3)] by {
      assert n.kids[..0] == [];
    }
    DeleteHides(n, defs, "x", 3, 4);
  }

  /** A `del` never hides a name whose two definitions share a line, as after `x = 1; x = 2`
      or `x = [x for x in y]` on one line: the deletion marks the newer of the two, while
      the query selects the earlier one. */
  lemma DeleteTiedKeeps(n: Node, defs: DefinitionMap, name: string, line: int)
    requires n.kind.Delete?
    requires name in defs && |defs[name]| == 2
    requires defs[name][0].line == defs[name][1].line <= line
    requires NotDeletedBy(defs[name][0], line)
    ensures name in AvailableNames(Recorded(n, defs), line)
  {
    DeleteRecords(n, defs);
    var ds := Recorded(n, defs)[name];
    assert |ds| == 2 && ds[0] == defs[name][0] && ds[1].line == ds[0].line;
    assert ds[..1][..0] == [] && ds[..|ds| - 1] == ds[..1];
    assert Latest(ds[..1], line) == Some(ds[0]);
    assert Latest(ds, line) == Newer(Some(ds[0]), ds[1], line);
  }
}
