/** The analyser itself: building the scope tree by walking the syntax tree, collecting the
    scopes around a line, and listing the names available on every line. Each method is
    proved against the functions of module Analysis. */
module LiveVariables {
  import opened Options
  import opened Definitions
  import opened Syntax
  import opened Scopes
  import opened Analysis

  // ---------------------------------------------------------------------------
  // Recording definitions and deletions in the current scope
  // ---------------------------------------------------------------------------

  /** `for name, line in names: scope.add_definition(name, line)`. */
  method DefineEach(s: Scope, bindings: seq<(string, int)>)
    modifies s`definitions
    ensures s.definitions == DefineNames(old(s.definitions), bindings)
  {
    var i := 0;
    while i < |bindings|
      invariant 0 <= i <= |bindings|
      invariant s.definitions == DefineNames(old(s.definitions), bindings[..i])
    {
      assert bindings[..i + 1][..i] == bindings[..i];
      s.AddDefinition(bindings[i].0, bindings[i].1);
      i := i + 1;
    }
    assert bindings[..i] == bindings;
  }

  /** `for name, _ in names: scope.add_deletion(name, line)`. */
  method DeleteEach(s: Scope, bindings: seq<(string, int)>, line: int)
    modifies s`definitions
    ensures s.definitions == DeleteNames(old(s.definitions), bindings, line)
  {
    var i := 0;
    while i < |bindings|
      invariant 0 <= i <= |bindings|
      invariant s.definitions == DeleteNames(old(s.definitions), bindings[..i], line)
    {
      assert bindings[..i + 1][..i] == bindings[..i];
      s.AddDeletion(bindings[i].0, line);
      i := i + 1;
    }
    assert bindings[..i] == bindings;
  }

  /** Defines what the single target of `node` (its first child) binds. */
  method DefineTarget(node: Node, current: Scope)
    modifies current`definitions
    ensures current.definitions == DefineNames(old(current.definitions), TargetNames(node))
  {
    if |node.kids| > 0 {
      var names := IterAssignedNames(node.kids[0]);
      DefineEach(current, names);
    }
  }

  /** `for target in node.targets: for name, line in iter_assigned_names(target):
      current.add_definition(name, line)`. */
  method DefineTargets(targets: seq<Node>, current: Scope)
    modifies current`definitions
    ensures current.definitions == DefineNames(old(current.definitions), NamesInAll(targets, Binding))
  {
    ghost var defs0 := current.definitions;
    var i := 0;
    while i < |targets|
      invariant 0 <= i <= |targets|
      invariant current.definitions == DefineNames(defs0, NamesInAll(targets[..i], Binding))
    {
      assert targets[..i + 1][..i] == targets[..i];
      var names := IterAssignedNames(targets[i]);
      DefineNamesAppend(defs0, NamesInAll(targets[..i], Binding), names);
      DefineEach(current, names);
      i := i + 1;
    }
    assert targets[..i] == targets;
  }

  /** The `as` variables of a `with` statement's items. */
  method DefineWithItems(items: seq<Node>, current: Scope)
    modifies current`definitions
    ensures current.definitions == DefineNames(old(current.definitions), WithNames(items))
  {
    ghost var defs0 := current.definitions;
    var i := 0;
    while i < |items|
      invariant 0 <= i <= |items|
      invariant current.definitions == DefineNames(defs0, WithNames(items[..i]))
    {
      var item := items[i];
      WithNamesPrefix(items, i);
      if item.kind.WithItem? && |item.kids| > 1 {
        var names := IterAssignedNames(item.kids[1]);
        DefineNamesAppend(defs0, WithNames(items[..i]), names);
        DefineEach(current, names);
      } else {
        assert WithNames(items[..i + 1]) == WithNames(items[..i]);
      }
      i := i + 1;
    }
    assert items[..i] == items;
  }

  /** One definition per alias of an import, at the import's line. */
  method DefineImports(aliases: seq<Alias>, lineno: int, current: Scope)
    modifies current`definitions
    ensures current.definitions == DefineNames(old(current.definitions), AtLine(ImportedNames(aliases), lineno))
  {
    ghost var defs0 := current.definitions;
    var i := 0;
    while i < |aliases|
      invariant 0 <= i <= |aliases|
      invariant current.definitions == DefineNames(defs0, AtLine(ImportedNames(aliases[..i]), lineno))
    {
      assert aliases[..i + 1][..i] == aliases[..i];
      var defined := ImportedName(aliases[i]);
      ghost var before := AtLine(ImportedNames(aliases[..i]), lineno);
      ghost var after := AtLine(ImportedNames(aliases[..i + 1]), lineno);
      assert after == before + [(defined, lineno)];
      assert after[..|after| - 1] == before;
      current.AddDefinition(defined, lineno);
      i := i + 1;
    }
    assert aliases[..i] == aliases;
  }

  /** `for target in node.targets: for name, _ in ...(target): current.add_deletion(name,
      node.lineno)`, where each target yields the names of its Del-context name nodes. */
  method DeleteTargets(targets: seq<Node>, lineno: int, current: Scope)
    modifies current`definitions
    ensures current.definitions == DeleteNames(old(current.definitions), NamesInAll(targets, Deletion), lineno)
  {
    ghost var defs0 := current.definitions;
    var i := 0;
    while i < |targets|
      invariant 0 <= i <= |targets|
      invariant current.definitions == DeleteNames(defs0, NamesInAll(targets[..i], Deletion), lineno)
    {
      assert targets[..i + 1][..i] == targets[..i];
      var names := IterDeletedNames(targets[i]);
      DeleteNamesAppend(defs0, NamesInAll(targets[..i], Deletion), names, lineno);
      DeleteEach(current, names, lineno);
      i := i + 1;
    }
    assert targets[..i] == targets;
  }

  /** The definitions and deletions `visit` records for a node that opens no scope. */
  method RecordDefinitions(node: Node, current: Scope)
    modifies current`definitions
    ensures current.definitions == Recorded(node, old(current.definitions))
  {
    match node.kind {
      case Assign => DefineTargets(AssignTargets(node), current);
      case AnnAssign => DefineTarget(node, current);
      case AugAssign => DefineTarget(node, current);
      case NamedExpr => DefineTarget(node, current);
      case For => DefineTarget(node, current);
      case With => DefineWithItems(node.kids, current);
      case Import(aliases, lineno) => DefineImports(aliases, lineno, current);
      case ExceptHandler(binding, lineno) =>
        if binding.Some? && binding.value != "" {
          current.AddDefinition(binding.value, lineno);
        }
      case Comprehension => DefineTarget(node, current);
      case Delete(lineno) => DeleteTargets(node.kids, lineno, current);
      case _ =>
    }
  }

  // ---------------------------------------------------------------------------
  // build_scope_tree
  // ---------------------------------------------------------------------------

  /** A new function scope: its parameters defined at the header line, then the
      definition's children visited in it. */
  method NewFunctionScope(node: Node, name: string, lineno: int, endLineno: int, params: Params)
    returns (scope: Scope)
    ensures scope.Valid() && fresh(scope.Repr)
    ensures scope.Abs() == VisitedAll(node.kids, FunctionScopeOf(name, lineno, endLineno, params))
    decreases node, 1
  {
    scope := new Scope(FunctionScope, name, lineno, endLineno);
    DefineEach(scope, AtLine(ParamNames(params), lineno));
    VisitChildren(node, scope);
  }

  /** A new class scope, filled by visiting the definition's children in it. */
  method NewClassScope(node: Node, name: string, lineno: int, endLineno: int)
    returns (scope: Scope)
    ensures scope.Valid() && fresh(scope.Repr)
    ensures scope.Abs() == VisitedAll(node.kids, ScopeTree(ClassScope, name, lineno, endLineno, [], map[]))
    decreases node, 1
  {
    scope := new Scope(ClassScope, name, lineno, endLineno);
    VisitChildren(node, scope);
  }

  /** `current.children.append(scope)` followed by `current.add_definition(name, lineno)`. */
  method Attach(current: Scope, scope: Scope, name: string, lineno: int)
    requires current.Valid() && scope.Valid()
    requires current.Repr !! scope.Repr
    modifies current`children, current`definitions, current`Repr
    ensures current.Valid() && current.Repr == old(current.Repr) + scope.Repr
    ensures current.Abs() == old(current.Abs()).(
      children := old(current.Abs()).children + [scope.Abs()],
      definitions := Define(old(current.definitions), name, lineno))
  {
    Adopt(current, scope);
    label adopted:
    current.AddDefinition(name, lineno);
    DefinitionsOnly@adopted(current);
  }

  /** `current.children.append(scope)`: the scope's objects join its parent's. */
  method Adopt(current: Scope, scope: Scope)
    requires current.Valid() && scope.Valid()
    requires current.Repr !! scope.Repr
    modifies current`children, current`Repr
    ensures current.Valid() && current.Repr == old(current.Repr) + scope.Repr
    ensures scope.Valid() && scope.Abs() == old(scope.Abs())
    ensures current.Abs() == old(current.Abs()).(children := old(current.Abs()).children + [scope.Abs()])
  {
    current.children := current.children + [scope];
    current.Repr := current.Repr + scope.Repr;
  }

  /** The nested `visit` of `build_scope_tree`. */
  method Visit(node: Node, current: Scope)
    requires current.Valid()
    modifies current
    ensures current.Valid() && fresh(current.Repr - old(current.Repr))
    ensures current.Abs() == Visited(node, old(current.Abs()))
    decreases node, 3
  {
    if node.kind.FunctionDef? {
      VisitFunctionDef(node, current);
    } else if node.kind.ClassDef? {
      VisitClassDef(node, current);
    } else {
      VisitOther(node, current);
    }
  }

  /** A function definition opens a function scope as a new child of `current` and defines
      the function's name in `current` at the header line. */
  method VisitFunctionDef(node: Node, current: Scope)
    requires node.kind.FunctionDef? && current.Valid()
    modifies current
    ensures current.Valid() && fresh(current.Repr - old(current.Repr))
    ensures current.Abs() == Visited(node, old(current.Abs()))
    decreases node, 2
  {
    ghost var tree := current.Abs();
    var scope := NewFunctionScope(node, node.kind.name, node.kind.lineno, node.kind.endLineno, node.kind.params);
    VisitedFunctionDef(node, tree);
    assert current.Valid() && current.Abs() == tree;
    Attach(current, scope, node.kind.name, node.kind.lineno);
  }

  /** A class definition opens a class scope as a new child of `current` and defines the
      class's name in `current`. */
  method VisitClassDef(node: Node, current: Scope)
    requires node.kind.ClassDef? && current.Valid()
    modifies current
    ensures current.Valid() && fresh(current.Repr - old(current.Repr))
    ensures current.Abs() == Visited(node, old(current.Abs()))
    decreases node, 2
  {
    ghost var tree := current.Abs();
    var scope := NewClassScope(node, node.kind.name, node.kind.lineno, node.kind.endLineno);
    VisitedClassDef(node, tree);
    assert current.Valid() && current.Abs() == tree;
    Attach(current, scope, node.kind.name, node.kind.lineno);
  }

  /** Any other node records what it binds or deletes in `current`, and its children are
      visited in `current`. */
  method VisitOther(node: Node, current: Scope)
    requires !node.kind.FunctionDef? && !node.kind.ClassDef? && current.Valid()
    modifies current
    ensures current.Valid() && fresh(current.Repr - old(current.Repr))
    ensures current.Abs() == Visited(node, old(current.Abs()))
    decreases node, 2
  {
    ghost var tree := current.Abs();
    VisitedOther(node, tree);
    RecordDefinitions(node, current);
    DefinitionsOnly(current);
    VisitChildren(node, current);
  }

  /** `for child in ast.iter_child_nodes(node): visit(child, current)`. */
  method VisitChildren(node: Node, current: Scope)
    requires current.Valid()
    modifies current
    ensures current.Valid() && fresh(current.Repr - old(current.Repr))
    ensures current.Abs() == VisitedAll(node.kids, old(current.Abs()))
    decreases node, 0
  {
    ghost var start := current.Abs();
    ghost var objects := current.Repr;
    var i := 0;
    while i < |node.kids|
      invariant 0 <= i <= |node.kids|
      invariant current.Valid() && fresh(current.Repr - objects)
      invariant current.Abs() == VisitedAll(node.kids[..i], start)
    {
      assert VisitedAll(node.kids[..i + 1], start) == Visited(node.kids[i], VisitedAll(node.kids[..i], start)) by {
        assert node.kids[..i + 1][..i] == node.kids[..i];
      }
      Visit(node.kids[i], current);
      i := i + 1;
    }
    assert node.kids[..i] == node.kids;
  }

  /** `build_scope_tree`: a module scope from line 1 to the tree's end line (10 ** 9 when
      the tree reports none), filled by visiting the tree. */
  method BuildScopeTree(tree: Node, treeEndLine: int) returns (root: Scope)
    ensures root.Valid() && fresh(root.Repr)
    ensures root.Abs() == BuiltTree(tree, treeEndLine)
  {
    root := new Scope(ModuleScope, "<module>", 1, ModuleEnd(treeEndLine));
    Visit(tree, root);
  }

  // ---------------------------------------------------------------------------
  // scope_stack_at
  // ---------------------------------------------------------------------------

  /** The valid scopes `objs`, all within `bound`, stand for the trees `specs`, in order. */
  ghost predicate Tracks(objs: seq<Scope>, specs: seq<ScopeTree>, bound: set<object>)
    reads objs, bound
  {
    && |objs| == |specs|
    && forall k :: 0 <= k < |objs| ==>
         objs[k] in bound && objs[k].Repr <= bound && objs[k].Valid() && objs[k].Abs() == specs[k]
  }

  /** Each scope of `objs` after the first is a child of the one before it. */
  ghost predicate Linked(objs: seq<Scope>)
    reads objs
  {
    forall k :: 0 <= k < |objs| - 1 ==> objs[k + 1] in objs[k].children
  }

  lemma LinkedJoin(s: Scope, rest: seq<Scope>)
    requires Linked(rest) && (rest != [] ==> rest[0] in s.children)
    ensures Linked([s] + rest)
  {
    forall k | 0 <= k < |[s] + rest| - 1
      ensures ([s] + rest)[k + 1] in ([s] + rest)[k].children
    {
      if k > 0 {
        assert ([s] + rest)[k] == rest[k - 1] && ([s] + rest)[k + 1] == rest[k];
      }
    }
  }

  lemma TracksJoin(s: Scope, rest: seq<Scope>, tree: ScopeTree, specs: seq<ScopeTree>, inner: set<object>, bound: set<object>)
    requires s in bound && s.Repr <= bound && s.Valid() && s.Abs() == tree
    requires Tracks(rest, specs, inner) && inner <= bound
    ensures Tracks([s] + rest, [tree] + specs, bound)
  {
    forall k | 0 <= k < |[s] + rest|
      ensures ([s] + rest)[k] in bound && ([s] + rest)[k].Repr <= bound
      ensures ([s] + rest)[k].Valid() && ([s] + rest)[k].Abs() == ([tree] + specs)[k]
    {
      if k > 0 {
        assert ([s] + rest)[k] == rest[k - 1];
      }
    }
  }

  lemma TracksWiden(objs: seq<Scope>, specs: seq<ScopeTree>, inner: set<object>, bound: set<object>)
    requires Tracks(objs, specs, inner) && inner <= bound
    ensures Tracks(objs, specs, bound)
  {
  }

  /** The children of a valid scope stand for the children of its value. */
  lemma ChildrenTracked(s: Scope)
    requires s.Valid()
    ensures Tracks(s.children, s.Abs().children, s.Repr - {s})
    ensures s in s.Repr
  {
    forall k | 0 <= k < |s.children|
      ensures s.children[k] in s.Repr - {s} && s.children[k].Repr <= s.Repr - {s}
    {
      assert s.children[k] in s.children;
    }
  }

  /** The inner `dfs`: appends to `stack` the chain of scopes from `s` down that contain
      `line`, and reports whether `s` contains it. `tree` is the value of `s`. */
  method Dfs(s: Scope, line: int, stack: seq<Scope>, ghost tree: ScopeTree) returns (found: bool, out: seq<Scope>)
    requires s.Valid() && s.Abs() == tree
    ensures found <==> Contains(tree, line)
    ensures |out| >= |stack| && out[..|stack|] == stack
    ensures Tracks(out[|stack|..], StackAt(tree, line), s.Repr)
    ensures |out| > |stack| ==> out[|stack|] == s
    ensures Linked(out[|stack|..])
    decreases s.Repr, 1
  {
    if !(s.startLine <= line <= s.endLine) {
      out := stack;
      assert out[|stack|..] == [];
      return false, out;
    }
    out := DfsChildren(s, line, stack + [s], tree.children);
    ghost var rest := out[|stack| + 1..];
    TracksJoin(s, rest, tree, FirstStackAt(tree.children, line), s.Repr, s.Repr);
    LinkedJoin(s, rest);
    assert out[|stack|..] == [s] + rest;
    return true, out;
  }

  /** The loop of `dfs` over the children of `s`: it stops at the first child that contains
      `line`, after that child has appended its own chain. `trees` are the values of the
      children. */
  method DfsChildren(s: Scope, line: int, stack: seq<Scope>, ghost trees: seq<ScopeTree>) returns (out: seq<Scope>)
    requires s.Valid() && s.Abs().children == trees
    ensures |out| >= |stack| && out[..|stack|] == stack
    ensures Tracks(out[|stack|..], FirstStackAt(trees, line), s.Repr)
    ensures |out| > |stack| ==> out[|stack|] in s.children
    ensures Linked(out[|stack|..])
    decreases s.Repr, 0
  {
    ChildrenTracked(s);
    out := stack;
    var i := 0;
    while i < |s.children|
      invariant 0 <= i <= |s.children|
      invariant out == stack
      invariant FirstStackAt(trees, line) == FirstStackAt(trees[i..], line)
    {
      var child := s.children[i];
      assert child.Valid() && child.Repr < s.Repr && child.Abs() == trees[i] by {
        assert s in s.Repr && s !in child.Repr;
      }
      var f;
      f, out := Dfs(child, line, out, trees[i]);
      if f {
        assert FirstStackAt(trees, line) == StackAt(trees[i], line) by {
          assert trees[i..][0] == trees[i];
        }
        TracksWiden(out[|stack|..], StackAt(trees[i], line), child.Repr, s.Repr);
        return;
      }
      assert FirstStackAt(trees[i..], line) == FirstStackAt(trees[i + 1..], line) by {
        assert trees[i..][1..] == trees[i + 1..];
      }
      i := i + 1;
    }
    assert FirstStackAt(trees, line) == [];
    assert out[|stack|..] == [];
  }

  /** `scope_stack_at`: the tree's own scopes from `root` down that contain `line`, each a
      child of the one before, standing for the stack `StackAt` gives. */
  method ScopeStackAt(root: Scope, line: int) returns (stack: seq<Scope>)
    requires root.Valid()
    ensures |stack| == |StackAt(root.Abs(), line)|
    ensures forall k :: 0 <= k < |stack| ==>
      stack[k] in root.Repr && stack[k].Valid() && stack[k].Abs() == StackAt(root.Abs(), line)[k]
    ensures stack != [] ==> stack[0] == root
    ensures forall k :: 0 <= k < |stack| - 1 ==> stack[k + 1] in stack[k].children
  {
    var empty: seq<Scope> := [];
    var _, st := Dfs(root, line, empty, root.Abs());
    assert st[|empty|..] == st;
    stack := st;
  }

  // ---------------------------------------------------------------------------
  // compute_available_variables_per_line
  // ---------------------------------------------------------------------------

  /** `names |= scope.available_names_at(line)` for every scope of the stack, in order. */
  method NamesAround(stack: seq<Scope>, line: int, ghost spec: seq<ScopeTree>) returns (names: set<string>)
    requires |stack| == |spec|
    requires forall k :: 0 <= k < |stack| ==> stack[k].definitions == spec[k].definitions
    ensures names == NamesOnLine(spec, line)
  {
    names := {};
    var k := 0;
    while k < |stack|
      invariant 0 <= k <= |stack|
      invariant names == NamesOnLine(spec[..k], line)
    {
      assert spec[..k + 1][..k] == spec[..k];
      var more := stack[k].AvailableNamesAt(line);
      names := names + more;
      k := k + 1;
    }
    assert spec[..k] == spec;
  }

  /** The body of the per-line loop: the union of what every scope around `line` reports. */
  method NamesOnLineIn(root: Scope, line: int) returns (names: set<string>)
    requires root.Valid()
    ensures names == AvailableOnLine(root.Abs(), line)
  {
    var stack := ScopeStackAt(root, line);
    ghost var spec := StackAt(root.Abs(), line);
    forall k | 0 <= k < |stack|
      ensures stack[k].definitions == spec[k].definitions
    {
      assert stack[k].Abs().definitions == stack[k].definitions;
    }
    names := NamesAround(stack, line, spec);
  }

  /** One entry per source line 1..lineCount: the union of the names available on that line
      in every scope around it. `tree` is the parsed module and `lineCount` the number of
      lines the source splits into. A parsed module carries no end line, so its scope ends
      at `UnknownEnd`. */
  method ComputeAvailableVariablesPerLine(tree: Node, lineCount: nat)
    returns (result: map<int, set<string>>)
    ensures forall i :: i in result <==> 1 <= i <= lineCount
    ensures forall i :: 1 <= i <= lineCount ==> result[i] == AvailableOnLine(BuiltTree(tree, 0), i)
  {
    var noEndLine := 0;
    var root := BuildScopeTree(tree, noEndLine);
    ghost var rootTree := root.Abs();
    result := map[];
    var i := 1;
    while i <= lineCount
      invariant 1 <= i <= lineCount + 1
      invariant Filled(result, rootTree, i - 1)
      modifies {}
    {
      var names := NamesOnLineIn(root, i);
      FilledNext(result, rootTree, i - 1, names);
      result := result[i := names];
      i := i + 1;
    }
  }

  /** `result` holds exactly the lines 1..n, each with the names available on it. */
  ghost predicate Filled(result: map<int, set<string>>, root: ScopeTree, n: int)
  {
    && (forall j :: j in result <==> 1 <= j <= n)
    && (forall j :: 1 <= j <= n ==> result[j] == AvailableOnLine(root, j))
  }

  lemma FilledNext(result: map<int, set<string>>, root: ScopeTree, n: int, names: set<string>)
    requires 0 <= n && Filled(result, root, n) && names == AvailableOnLine(root, n + 1)
    ensures Filled(result[n + 1 := names], root, n + 1)
  {
    var r := result[n + 1 := names];
    assert forall j :: j in r <==> j == n + 1 || j in result;
    forall j | 1 <= j <= n + 1
      ensures j in r && r[j] == AvailableOnLine(root, j)
    {
      if j <= n {
        assert j in result && r[j] == result[j];
      }
    }
  }
}
